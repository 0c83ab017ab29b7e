/** Bytes and the small vocabulary every component shares. */
module Wire {

  type byte = b: int | 0 <= b < 256

  type Bytes = seq<byte>

  /** The largest value of a 64-bit machine word. */
  const U64_MAX: nat := 0xFFFF_FFFF_FFFF_FFFF

  /** How many values it has: counters kept in one wrap here. */
  const WORD: nat := 0x1_0000_0000_0000_0000

  datatype Option<+T> = None | Some(value: T)

  /** A 16-bit big-endian number. */
  function U16(high: byte, low: byte): (n: nat)
    ensures n < 0x1_0000
  {
    high * 256 + low
  }

  function Be16(n: nat): Bytes
    requires n < 0x1_0000
  {
    [n / 256, n % 256]
  }

  function Min(a: int, b: int): int {
    if a <= b then a else b
  }

  function Max(a: int, b: int): int {
    if a <= b then b else a
  }

  function Concat<T>(parts: seq<seq<T>>): seq<T> {
    if parts == [] then [] else parts[0] + Concat(parts[1..])
  }

  /** The parts between separators; one more than there are separators. */
  function SplitAt(b: Bytes, separator: byte): (parts: seq<Bytes>)
    ensures parts != []
  {
    if b == [] then [[]]
    else
      var rest := SplitAt(b[1..], separator);
      if b[0] == separator then [[]] + rest else [[b[0]] + rest[0]] + rest[1..]
  }

  lemma Assoc<T>(a: seq<T>, b: seq<T>, c: seq<T>)
    ensures a + (b + c) == (a + b) + c
  {
  }

  lemma {:induction false} ConcatAppend<T>(a: seq<seq<T>>, b: seq<seq<T>>)
    ensures Concat(a + b) == Concat(a) + Concat(b)
  {
    if a == [] {
      assert a + b == b;
    } else {
      assert (a + b)[1..] == a[1..] + b;
      ConcatAppend(a[1..], b);
    }
  }

  // ----- Text -----

  function LowerChar(c: char): char {
    if 'A' <= c <= 'Z' then c + 32 as char else c
  }

  function LowerText(s: string): string {
    seq(|s|, i requires 0 <= i < |s| => LowerChar(s[i]))
  }

  predicate HasPart(text: string, part: string) {
    exists i :: 0 <= i <= |text| - |part| && text[i..][..|part|] == part
  }
}
