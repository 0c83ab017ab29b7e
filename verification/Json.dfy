/** JSON values, and the decimal indices that address arrays. */
module Json {
  import opened Wire

  datatype Json =
    | Null
    | Bool(value: bool)
    | Number(text: string)
    | Str(s: string)
    | Arr(items: seq<Json>)
    | Obj(fields: map<string, Json>)

  // ----- Indices -----

  predicate IsDigit(c: char) {
    '0' <= c <= '9'
  }

  function Digit(c: char): nat
    requires IsDigit(c)
  {
    c as int - '0' as int
  }

  predicate AllDigits(s: string) {
    forall i :: 0 <= i < |s| ==> IsDigit(s[i])
  }

  function Decimal(s: string): nat
    requires AllDigits(s)
  {
    if s == [] then 0 else Decimal(s[..|s| - 1]) * 10 + Digit(s[|s| - 1])
  }

  /** An unsigned machine integer: digits, after at most one plus sign, that fit the word. */
  function ParseIndex(segment: string): Option<nat> {
    var digits := if segment != [] && segment[0] == '+' then segment[1..] else segment;
    if digits != [] && AllDigits(digits) && Decimal(digits) <= U64_MAX then Some(Decimal(digits)) else None
  }

  function DigitChar(d: nat): (c: char)
    requires d < 10
    ensures IsDigit(c) && Digit(c) == d
  {
    '0' + d as char
  }

  function ToDecimal(n: nat): (s: string)
    ensures s != [] && AllDigits(s) && Decimal(s) == n
  {
    if n < 10 then [DigitChar(n)]
    else
      var front, last := ToDecimal(n / 10), [DigitChar(n % 10)];
      assert (front + last)[..|front|] == front;
      front + last
  }

  lemma {:induction false} LeadingZero(s: string)
    requires AllDigits(s)
    ensures AllDigits("0" + s) && Decimal("0" + s) == Decimal(s)
  {
    var t := "0" + s;
    if s != [] {
      LeadingZero(s[..|s| - 1]);
      assert t[..|t| - 1] == "0" + s[..|s| - 1];
    }
  }

  /** One plus sign and leading zeros change nothing; a second sign, or anything but a digit, is no index. */
  lemma OtherSpellings(n: nat, s: string)
    requires n <= U64_MAX
    ensures ParseIndex("+" + ToDecimal(n)) == Some(n)
    ensures ParseIndex("0" + ToDecimal(n)) == Some(n)
    ensures (exists i :: 0 < i < |s| && !IsDigit(s[i])) || (s != [] && s[0] != '+' && !IsDigit(s[0])) ==> ParseIndex(s).None?
    ensures ParseIndex("").None? && ParseIndex("+").None?
  {
    assert ("+" + ToDecimal(n))[1..] == ToDecimal(n);
    LeadingZero(ToDecimal(n));
    if i :| 0 < i < |s| && !IsDigit(s[i]) {
      assert s[1..][i - 1] == s[i];
    }
  }

  /** An index is found again under the segment that spells it. */
  lemma IndexRoundTrip(n: nat)
    requires n <= U64_MAX
    ensures ParseIndex(ToDecimal(n)) == Some(n)
  {
    assert IsDigit(ToDecimal(n)[0]);
  }
}
