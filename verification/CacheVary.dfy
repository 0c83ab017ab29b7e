/**
 The variant key of a cached response (section 4.1 of RFC 9111): the nominated request
 fields, complete with their order and boundaries, up to the hash.
 */
module CacheVary {
  import opened Wire
  import opened Ordering

  const COMMA: byte := 44

  // ----- Numbers and order -----

  function Power256(k: nat): nat {
    if k == 0 then 1 else 256 * Power256(k - 1)
  }

  /** A big-endian number of `k` bytes. */
  function BigEndian(n: nat, k: nat): (b: Bytes)
    ensures |b| == k
  {
    if k == 0 then [] else BigEndian(n / 256, k - 1) + [n % 256]
  }

  lemma {:induction false} BigEndianInjective(m: nat, n: nat, k: nat)
    requires m < Power256(k) && n < Power256(k) && BigEndian(m, k) == BigEndian(n, k)
    ensures m == n
  {
    if k > 0 {
      var a, b := BigEndian(m, k), BigEndian(n, k);
      assert a[..k - 1] == BigEndian(m / 256, k - 1) && a[k - 1] == m % 256;
      assert b[..k - 1] == BigEndian(n / 256, k - 1) && b[k - 1] == n % 256;
      BigEndianInjective(m / 256, n / 256, k - 1);
    }
  }

  /** Byte-wise lexicographic order. */
  predicate LexLess(a: Bytes, b: Bytes) {
    b != [] && (a == [] || a[0] < b[0] || (a[0] == b[0] && LexLess(a[1..], b[1..])))
  }

  lemma {:induction false} LexTransitive(a: Bytes, b: Bytes, c: Bytes)
    requires LexLess(a, b) && LexLess(b, c)
    ensures LexLess(a, c)
  {
    if a != [] && a[0] == b[0] == c[0] {
      LexTransitive(a[1..], b[1..], c[1..]);
    }
  }

  lemma {:induction false} LexTotal(a: Bytes, b: Bytes)
    ensures a == b || LexLess(a, b) || LexLess(b, a)
  {
    if a != [] && b != [] && a[0] == b[0] {
      LexTotal(a[1..], b[1..]);
      assert a == [a[0]] + a[1..] && b == [b[0]] + b[1..];
    }
  }

  lemma {:induction false} LexIrreflexive(a: Bytes)
    ensures !LexLess(a, a)
  {
    if a != [] {
      LexIrreflexive(a[1..]);
    }
  }

  lemma LexIsTotalOrder()
    ensures StrictTotal(LexLess)
  {
    forall a ensures !LexLess(a, a) {
      LexIrreflexive(a);
    }
    forall a, b, c | LexLess(a, b) && LexLess(b, c) ensures LexLess(a, c) {
      LexTransitive(a, b, c);
    }
    forall a, b ensures a == b || LexLess(a, b) || LexLess(b, a) {
      LexTotal(a, b);
    }
  }

  // ----- Nominations -----

  predicate IsSpace(b: byte) {
    b == 32 || 9 <= b <= 10 || 12 <= b <= 13
  }

  function Trim(b: Bytes): Bytes {
    if b != [] && IsSpace(b[0]) then Trim(b[1..])
    else if b != [] && IsSpace(b[|b| - 1]) then Trim(b[..|b| - 1])
    else b
  }

  /** A character of a field name. */
  predicate IsToken(b: byte) {
    || 48 <= b <= 57 || 65 <= b <= 90 || 97 <= b <= 122
    || b in [33, 35, 36, 37, 38, 39, 42, 43, 45, 46, 94, 95, 96, 124, 126]
  }

  function Lower(b: Bytes): Bytes {
    seq(|b|, i requires 0 <= i < |b| => if 65 <= b[i] <= 90 then b[i] + 32 else b[i])
  }

  /** The field one part nominates: nothing for an empty part, an error for `*` or a name that is none. */
  datatype Nomination = Nothing | Field(name: Bytes) | Bad

  function Nominate(part: Bytes): Nomination {
    var name := Trim(part);
    if name == [] then Nothing
    else if name == [42] || !(forall i :: 0 <= i < |name| ==> IsToken(name[i])) then Bad
    else Field(Lower(name))
  }

  function Nominated(parts: seq<Bytes>): Option<seq<Bytes>> {
    if parts == [] then Some([])
    else
      match (Nominate(parts[0]), Nominated(parts[1..]))
      case (Nothing, rest) => rest
      case (Bad, _) => None
      case (Field(_), None) => None
      case (Field(name), Some(names)) => Some([name] + names)
  }

  function AllParts(lines: seq<Bytes>): seq<Bytes> {
    if lines == [] then [] else SplitAt(lines[0], COMMA) + AllParts(lines[1..])
  }

  /** Every field the Vary lines nominate, in order and with repetitions. */
  function Nominations(lines: seq<Bytes>): Option<seq<Bytes>> {
    Nominated(AllParts(lines))
  }

  // ----- The key -----

  datatype Line = Line(name: Bytes, value: Bytes)

  /** The field lines of one name, in the order received. */
  function Values(request: seq<Line>, name: Bytes): seq<Bytes> {
    if request == [] then []
    else (if request[0].name == name then [request[0].value] else []) + Values(request[1..], name)
  }

  function ValuesBytes(values: seq<Bytes>): Bytes {
    if values == [] then []
    else BigEndian(|values[0]|, 8) + values[0] + ValuesBytes(values[1..])
  }

  /** The count, then each length and value. */
  function Combined(values: seq<Bytes>): Bytes {
    BigEndian(|values|, 8) + ValuesBytes(values)
  }

  datatype Part = Part(name: Bytes, combined: Bytes)

  function KeyOf(names: seq<Bytes>, request: seq<Line>): seq<Part> {
    seq(|names|, i requires 0 <= i < |names| => Part(names[i], Combined(Values(request, names[i]))))
  }

  /** What is hashed; `None` when the Vary field may not be interpreted. */
  function Key(vary: seq<Bytes>, request: seq<Line>): Option<seq<Part>> {
    match Nominations(vary)
    case None => None
    case Some(names) => Some(KeyOf(SortUnique(LexLess, names), request))
  }

  method Combine(values: seq<Bytes>) returns (combined: Bytes)
    ensures combined == Combined(values)
  {
    hide BigEndian;
    combined := BigEndian(|values|, 8);
    assert values[0..] == values;
    for k := 0 to |values|
      invariant combined + ValuesBytes(values[k..]) == Combined(values)
    {
      var head, rest := BigEndian(|values[k]|, 8) + values[k], ValuesBytes(values[k + 1..]);
      assert values[k..][1..] == values[k + 1..];
      assert ValuesBytes(values[k..]) == head + rest;
      assert combined + (head + rest) == (combined + head) + rest;
      combined := combined + head;
    }
    assert values[|values|..] == [];
  }

  method Variance(vary: seq<Bytes>, request: seq<Line>) returns (key: Option<seq<Part>>)
    ensures key == Key(vary, request)
  {
    hide Nominations, SortUnique, Combined;
    var nominations := Nominations(vary);
    if nominations.None? {
      return None;
    }
    var names := SortUnique(LexLess, nominations.value);
    var parts: seq<Part> := [];
    for i := 0 to |names|
      invariant |parts| == i
      invariant forall k :: 0 <= k < i ==> parts[k] == Part(names[k], Combined(Values(request, names[k])))
    {
      var combined := Combine(Values(request, names[i]));
      parts := parts + [Part(names[i], combined)];
    }
    assert parts == KeyOf(names, request);
    return Some(parts);
  }

  // ----- Injectivity -----

  /** Counts and lengths are machine words. */
  ghost predicate Representable(request: seq<Line>) {
    |request| < Power256(8) && forall i :: 0 <= i < |request| ==> |request[i].value| < Power256(8)
  }

  lemma {:induction false} ValuesFit(request: seq<Line>, name: Bytes)
    ensures |Values(request, name)| <= |request|
    ensures forall v :: v in Values(request, name) ==> exists i :: 0 <= i < |request| && request[i].value == v
  {
    if request != [] {
      ValuesFit(request[1..], name);
      forall v | v in Values(request, name) ensures exists i :: 0 <= i < |request| && request[i].value == v {
        if v in Values(request[1..], name) {
          var i :| 0 <= i < |request[1..]| && request[1..][i].value == v;
          assert request[i + 1].value == v;
        } else {
          assert request[0].value == v;
        }
      }
    }
  }

  lemma {:induction false} ValuesBytesInjective(a: seq<Bytes>, b: seq<Bytes>)
    requires |a| == |b| && ValuesBytes(a) == ValuesBytes(b)
    requires forall i :: 0 <= i < |a| ==> |a[i]| < Power256(8) && |b[i]| < Power256(8)
    ensures a == b
  {
    if a != [] {
      var x, y := ValuesBytes(a), ValuesBytes(b);
      assert x[..8] == BigEndian(|a[0]|, 8) && y[..8] == BigEndian(|b[0]|, 8);
      BigEndianInjective(|a[0]|, |b[0]|, 8);
      var n := |a[0]|;
      assert x[8..8 + n] == a[0] && y[8..8 + n] == b[0];
      assert x[8 + n..] == ValuesBytes(a[1..]) && y[8 + n..] == ValuesBytes(b[1..]);
      ValuesBytesInjective(a[1..], b[1..]);
      assert a == [a[0]] + a[1..] && b == [b[0]] + b[1..];
    }
  }

  lemma CombinedInjective(a: seq<Bytes>, b: seq<Bytes>)
    requires |a| < Power256(8) && |b| < Power256(8) && Combined(a) == Combined(b)
    requires forall i :: 0 <= i < |a| ==> |a[i]| < Power256(8)
    requires forall i :: 0 <= i < |b| ==> |b[i]| < Power256(8)
    ensures a == b
  {
    var x, y := Combined(a), Combined(b);
    assert x[..8] == BigEndian(|a|, 8) && y[..8] == BigEndian(|b|, 8);
    BigEndianInjective(|a|, |b|, 8);
    assert x[8..] == ValuesBytes(a) && y[8..] == ValuesBytes(b);
    ValuesBytesInjective(a, b);
  }

  lemma SameCombinedSameValues(a: seq<Line>, b: seq<Line>, name: Bytes)
    requires Representable(a) && Representable(b)
    requires Combined(Values(a, name)) == Combined(Values(b, name))
    ensures Values(a, name) == Values(b, name)
  {
    hide Combined, Power256;
    ValuesFit(a, name);
    ValuesFit(b, name);
    forall v | v in Values(a, name) ensures |v| < Power256(8) {
      var i :| 0 <= i < |a| && a[i].value == v;
    }
    forall v | v in Values(b, name) ensures |v| < Power256(8) {
      var i :| 0 <= i < |b| && b[i].value == v;
    }
    CombinedInjective(Values(a, name), Values(b, name));
  }

  /**
   Under one valid Vary, two requests have the same key exactly when they agree, line by line,
   on every nominated field; an absent field is not an empty one.
   */
  lemma KeyIsInjective(vary: seq<Bytes>, a: seq<Line>, b: seq<Line>)
    requires Nominations(vary).Some? && Representable(a) && Representable(b)
    ensures Key(vary, a) == Key(vary, b) <==>
            forall name :: name in Nominations(vary).value ==> Values(a, name) == Values(b, name)
  {
    hide Nominations, Combined, SortUnique;
    var names := SortUnique(LexLess, Nominations(vary).value);
    var x, y := KeyOf(names, a), KeyOf(names, b);
    LexIsTotalOrder();
    SortUniqueAscending(LexLess, Nominations(vary).value);
    if Key(vary, a) == Key(vary, b) {
      forall name | name in Nominations(vary).value ensures Values(a, name) == Values(b, name) {
        assert name in names;
        var i :| 0 <= i < |names| && names[i] == name;
        assert x[i] == y[i];
        SameCombinedSameValues(a, b, name);
      }
    }
    if forall name :: name in Nominations(vary).value ==> Values(a, name) == Values(b, name) {
      forall i | 0 <= i < |names| ensures x[i] == y[i] {
        assert names[i] in names;
      }
      assert x == y;
    }
  }

  /** Two Vary fields that nominate the same names give every request the same key. */
  lemma KeyDependsOnTheSetOfNames(v: seq<Bytes>, w: seq<Bytes>, request: seq<Line>)
    requires Nominations(v).Some? && Nominations(w).Some?
    requires forall name :: name in Nominations(v).value <==> name in Nominations(w).value
    ensures Key(v, request) == Key(w, request)
  {
    hide Nominations, SortUnique;
    LexIsTotalOrder();
    var a, b := Nominations(v).value, Nominations(w).value;
    SortUniqueAscending(LexLess, a);
    SortUniqueAscending(LexLess, b);
    AscendingUnique(LexLess, SortUnique(LexLess, a), SortUnique(LexLess, b));
  }

  lemma {:induction false} SplitJoined(a: Bytes, b: Bytes)
    ensures SplitAt(a + [COMMA] + b, COMMA) == SplitAt(a, COMMA) + SplitAt(b, COMMA)
  {
    if a == [] {
      assert (a + [COMMA] + b)[1..] == b;
    } else {
      assert (a + [COMMA] + b)[1..] == a[1..] + [COMMA] + b;
      SplitJoined(a[1..], b);
    }
  }

  lemma {:induction false} AllPartsAppend(a: seq<Bytes>, b: seq<Bytes>)
    ensures AllParts(a + b) == AllParts(a) + AllParts(b)
  {
    if a == [] {
      assert a + b == b;
    } else {
      assert (a + b)[1..] == a[1..] + b;
      AllPartsAppend(a[1..], b);
    }
  }

  /** A list on two lines and the same list on one line nominate the same, errors included. */
  lemma ResplittingChangesNothing(before: seq<Bytes>, a: Bytes, b: Bytes, after: seq<Bytes>)
    ensures Nominations(before + [a, b] + after) == Nominations(before + [a + [COMMA] + b] + after)
  {
    hide SplitAt;
    SplitJoined(a, b);
    AllPartsAppend(before + [a, b], after);
    AllPartsAppend(before, [a, b]);
    AllPartsAppend(before + [a + [COMMA] + b], after);
    AllPartsAppend(before, [a + [COMMA] + b]);
    assert [a, b][1..] == [b] && [b][1..] == [] && [a + [COMMA] + b][1..] == [];
    assert AllParts([a, b]) == SplitAt(a, COMMA) + SplitAt(b, COMMA);
    assert AllParts([a + [COMMA] + b]) == SplitAt(a, COMMA) + SplitAt(b, COMMA);
  }

  // ----- What is nominated, and what a field's lines are -----

  /** A part that nominates: blank ones do not, and `*` and non-names may not. */
  predicate Sound(part: Bytes) {
    Trim(part) == [] || (Trim(part) != [42] && forall i :: 0 <= i < |Trim(part)| ==> IsToken(Trim(part)[i]))
  }

  /** A Vary is interpreted exactly when no part is `*` or malformed; then it nominates each part's name in small letters. */
  lemma {:induction false} NominatedExactly(parts: seq<Bytes>)
    ensures Nominated(parts).Some? <==> forall i :: 0 <= i < |parts| ==> Sound(parts[i])
    ensures Nominated(parts).Some? ==>
              forall name :: name in Nominated(parts).value <==>
                exists i :: 0 <= i < |parts| && Trim(parts[i]) != [] && Lower(Trim(parts[i])) == name
  {
    hide Trim, IsToken;
    if parts != [] {
      var rest := parts[1..];
      NominatedExactly(rest);
      assert parts == [parts[0]] + rest;
      if Sound(parts[0]) && forall i :: 0 <= i < |rest| ==> Sound(rest[i]) {
        forall i | 0 <= i < |parts| ensures Sound(parts[i]) {
          assert i > 0 ==> parts[i] == rest[i - 1];
        }
      }
      if Nominated(parts).Some? {
        forall name ensures name in Nominated(parts).value <==>
                            exists i :: 0 <= i < |parts| && Trim(parts[i]) != [] && Lower(Trim(parts[i])) == name
        {
          if i :| 0 <= i < |parts| && Trim(parts[i]) != [] && Lower(Trim(parts[i])) == name {
            assert i > 0 ==> parts[i] == rest[i - 1];
          }
          if i :| 0 <= i < |rest| && Trim(rest[i]) != [] && Lower(Trim(rest[i])) == name {
            assert parts[i + 1] == rest[i];
          }
        }
      }
    }
  }

  /** So a star among the parts, padded or not, forbids the key. */
  lemma StarIsRefused(vary: seq<Bytes>, request: seq<Line>, part: Bytes)
    requires part in AllParts(vary) && Trim(part) == [42]
    ensures Key(vary, request).None?
  {
    NominatedExactly(AllParts(vary));
  }

  /** The lines of a name are all of them, in the order received. */
  lemma {:induction false} LinesInOrder(before: seq<Line>, after: seq<Line>, name: Bytes)
    ensures Values(before + after, name) == Values(before, name) + Values(after, name)
  {
    if before == [] {
      assert before + after == after;
    } else {
      assert (before + after)[1..] == before[1..] + after;
      LinesInOrder(before[1..], after, name);
    }
  }

  /** A further line of a nominated field always changes the key; one of another field never does. */
  lemma MoreLinesMoreKeys(vary: seq<Bytes>, request: seq<Line>, line: Line)
    requires Nominations(vary).Some? && Representable(request + [line])
    ensures Key(vary, request + [line]) == Key(vary, request) <==> line.name !in Nominations(vary).value
  {
    hide Nominations, Key;
    assert Representable(request) by {
      forall i | 0 <= i < |request| ensures |request[i].value| < Power256(8) {
        assert (request + [line])[i] == request[i];
      }
    }
    KeyIsInjective(vary, request + [line], request);
    forall name ensures Values(request + [line], name) == Values(request, name) + if line.name == name then [line.value] else [] {
      LinesInOrder(request, [line], name);
      assert [line][1..] == [];
    }
  }
}
