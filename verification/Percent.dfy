/**
 Percent escapes between URLs and filenames.  Two decoders read them, the one behind
 path matchers and the one behind file lookups, and one encoder writes them.
 */
module Percent {
  import opened Wire

  const SLASH: byte := 47
  const BACKSLASH: byte := 92
  const PERCENT: byte := 37
  const QUESTION: byte := 63
  const DOT: Bytes := [46]
  const DOTS: Bytes := [46, 46]

  function HexDigit(b: byte): (r: Option<nat>)
    ensures r.Some? ==> r.value < 16 && b != SLASH && b != PERCENT
  {
    if 48 <= b <= 57 then Some(b - 48)
    else if 97 <= b <= 102 then Some(b - 87)
    else if 65 <= b <= 70 then Some(b - 55)
    else None
  }

  /** The byte that a well-formed escape at the front stands for. */
  function Escape(b: Bytes): Option<byte> {
    if |b| < 3 || b[0] != PERCENT then None
    else
      match (HexDigit(b[1]), HexDigit(b[2]))
      case (Some(high), Some(low)) => Some(high * 16 + low)
      case _ => None
  }

  /** Escapes replaced in one pass from the left; a stray percent sign is data. */
  function Decode(b: Bytes): Bytes {
    if b == [] then []
    else if Escape(b).Some? then [Escape(b).value] + Decode(b[3..])
    else [b[0]] + Decode(b[1..])
  }

  predicate Forbidden(b: byte) {
    b == SLASH || b == BACKSLASH || b == 0
  }

  /** No escape stands for a separator or a NUL. */
  predicate Clear(b: Bytes) {
    if b == [] then true
    else if Escape(b).Some? then !Forbidden(Escape(b).value) && Clear(b[3..])
    else Clear(b[1..])
  }

  method DecodePathComponent(component: Bytes) returns (ok: bool, out: Bytes)
    ensures ok == Clear(component)
    ensures ok ==> out == Decode(component)
  {
    hide Decode, Clear;
    EmptyDecodes();
    out := [];
    var index := 0;
    while index < |component|
      invariant 0 <= index <= |component|
      invariant Clear(component) == Clear(component[index..])
      invariant Decode(component) == out + Decode(component[index..])
      decreases |component| - index
    {
      var rest := component[index..];
      var escape := Escape(rest);
      DecodeFirst(out, rest);
      ClearFirst(rest);
      if escape.Some? {
        if Forbidden(escape.value) {
          return false, out;
        }
        assert rest[3..] == component[index + 3..];
        out := out + [escape.value];
        index := index + 3;
      } else {
        assert rest[1..] == component[index + 1..];
        out := out + [component[index]];
        index := index + 1;
      }
    }
    assert component[index..] == [];
    return true, out;
  }

  /** What comes before the first question mark, and the rest from it on. */
  function BeforeQuery(target: Bytes): Bytes {
    if target == [] || target[0] == QUESTION then [] else [target[0]] + BeforeQuery(target[1..])
  }

  lemma {:induction false} BeforeQueryIsPrefix(target: Bytes)
    ensures BeforeQuery(target) <= target && QUESTION !in BeforeQuery(target)
    ensures |BeforeQuery(target)| < |target| ==> target[|BeforeQuery(target)|] == QUESTION
  {
    if target != [] && target[0] != QUESTION {
      BeforeQueryIsPrefix(target[1..]);
    }
  }

  /** What matchers compare: the decoded path followed by the query as sent. */
  function ForMatching(target: Bytes): Bytes {
    BeforeQueryIsPrefix(target);
    Decode(BeforeQuery(target)) + target[|BeforeQuery(target)|..]
  }

  lemma {:induction false} QueryIsCutOff(path: Bytes, query: Bytes)
    requires QUESTION !in path && (query == [] || query[0] == QUESTION)
    ensures BeforeQuery(path + query) == path
    ensures ForMatching(path + query) == Decode(path) + query
    decreases |path|
  {
    var target := path + query;
    if path == [] {
      assert target == query;
    } else {
      assert target[1..] == path[1..] + query;
      QueryIsCutOff(path[1..], query);
    }
    assert target[|path|..] == query;
  }

  method DecodeForMatching(target: Bytes) returns (out: Bytes)
    ensures out == ForMatching(target)
  {
    hide BeforeQuery;
    BeforeQueryIsPrefix(target);
    var path := BeforeQuery(target);
    var query := target[|path|..];
    if PERCENT !in path {
      DecodeIsIdentity(path);
      assert path + query == target;
      return target;
    }
    out := DecodeAll(path);
    out := out + query;
  }

  lemma ClearFirst(rest: Bytes)
    requires rest != []
    ensures Clear(rest) ==
            if Escape(rest).Some? then !Forbidden(Escape(rest).value) && Clear(rest[3..]) else Clear(rest[1..])
  {
  }

  function Head(rest: Bytes): Bytes
    requires rest != []
  {
    if Escape(rest).Some? then [Escape(rest).value] else [rest[0]]
  }

  function Tail(rest: Bytes): Bytes
    requires rest != []
  {
    if Escape(rest).Some? then rest[3..] else rest[1..]
  }

  lemma DecodeHead(rest: Bytes)
    requires rest != []
    ensures Decode(rest) == Head(rest) + Decode(Tail(rest))
  {
  }

  lemma DecodeFirst(out: Bytes, rest: Bytes)
    requires rest != []
    ensures out + Decode(rest) == (out + Head(rest)) + Decode(Tail(rest))
  {
    hide Decode;
    DecodeHead(rest);
    Assoc(out, Head(rest), Decode(Tail(rest)));
  }

  method DecodeAll(path: Bytes) returns (out: Bytes)
    ensures out == Decode(path)
  {
    hide Decode;
    EmptyDecodes();
    out := [];
    var index := 0;
    while index < |path|
      invariant 0 <= index <= |path|
      invariant Decode(path) == out + Decode(path[index..])
      decreases |path| - index
    {
      var rest := path[index..];
      var escape := Escape(rest);
      DecodeFirst(out, rest);
      if escape.Some? {
        assert rest[3..] == path[index + 3..];
        out := out + [escape.value];
        index := index + 3;
      } else {
        assert rest[1..] == path[index + 1..];
        out := out + [path[index]];
        index := index + 1;
      }
    }
    assert path[index..] == [];
  }

  lemma {:induction false} DecodeIsIdentity(b: Bytes)
    requires PERCENT !in b
    ensures Decode(b) == b && Clear(b)
  {
    if b != [] {
      DecodeIsIdentity(b[1..]);
    }
  }

  // ----- Components -----

  predicate Named(part: Bytes) {
    part != [] && part != DOT
  }

  /** The parts that name something: empty and `.` ones dropped. */
  function Names(parts: seq<Bytes>): seq<Bytes> {
    if parts == [] then []
    else (if Named(parts[0]) then [parts[0]] else []) + Names(parts[1..])
  }

  /** The components appended to the root, or `None` when the path names no file below it. */
  function Resolve(parts: seq<Bytes>): Option<seq<Bytes>> {
    if parts == [] then Some([])
    else if !Named(parts[0]) then Resolve(parts[1..])
    else if parts[0] == DOTS || !Clear(parts[0]) || Decode(parts[0]) == DOTS then None
    else After(Names([Decode(parts[0])]), Resolve(parts[1..]))
  }

  function After(front: seq<Bytes>, rest: Option<seq<Bytes>>): Option<seq<Bytes>> {
    match rest
    case None => None
    case Some(parts) => Some(front + parts)
  }

  lemma AfterAfter(a: seq<Bytes>, b: seq<Bytes>, rest: Option<seq<Bytes>>)
    ensures After(a, After(b, rest)) == After(a + b, rest)
  {
    if rest.Some? {
      assert a + (b + rest.value) == (a + b) + rest.value;
    }
  }

  lemma OneName(front: seq<Bytes>, part: Bytes)
    ensures front + Names([part]) == if Named(part) then front + [part] else front
  {
    assert [part][1..] == [];
  }

  method ResolveUnderRoot(path: Bytes) returns (r: Option<seq<Bytes>>)
    ensures r == Resolve(SplitAt(path, SLASH))
  {
    hide Resolve, Clear, Decode;
    var parts := SplitAt(path, SLASH);
    var resolved: seq<Bytes> := [];
    NothingYet(parts);
    for i := 0 to |parts|
      invariant Resolve(parts) == After(resolved, Resolve(parts[i..]))
    {
      var part := parts[i];
      assert parts[i..][0] == part && parts[i..][1..] == parts[i + 1..];
      ghost var rest := Resolve(parts[i + 1..]);
      ResolveFirst(parts[i..]);
      AfterAfter(resolved, Names([Decode(part)]), rest);
      OneName(resolved, Decode(part));
      if part == [] || part == DOT {
        continue;
      }
      if part == DOTS {
        return None;
      }
      if PERCENT !in part {
        DecodeIsIdentity(part);
        resolved := resolved + [part];
        continue;
      }
      var ok, decoded := DecodePathComponent(part);
      if !ok {
        return None;
      }
      if decoded == DOTS {
        return None;
      }
      if decoded != [] && decoded != DOT {
        resolved := resolved + [decoded];
      }
    }
    NothingLeft(resolved, parts);
    return Some(resolved);
  }

  lemma ResolveFirst(parts: seq<Bytes>)
    requires parts != []
    ensures Resolve(parts) ==
            if !Named(parts[0]) then Resolve(parts[1..])
            else if parts[0] == DOTS || !Clear(parts[0]) || Decode(parts[0]) == DOTS then None
            else After(Names([Decode(parts[0])]), Resolve(parts[1..]))
  {
  }

  lemma NothingYet(parts: seq<Bytes>)
    ensures Resolve(parts) == After([], Resolve(parts[0..]))
  {
    assert parts[0..] == parts;
    assert Resolve(parts).Some? ==> [] + Resolve(parts).value == Resolve(parts).value;
  }

  lemma NothingLeft(front: seq<Bytes>, parts: seq<Bytes>)
    ensures After(front, Resolve(parts[|parts|..])) == Some(front)
  {
    assert front + [] == front;
  }

  // ----- One resource -----

  function DecodeEach(parts: seq<Bytes>): seq<Bytes> {
    seq(|parts|, i requires 0 <= i < |parts| => Decode(parts[i]))
  }

  predicate AllClear(parts: seq<Bytes>) {
    forall i :: 0 <= i < |parts| ==> Clear(parts[i])
  }

  lemma DecodeLiteral(c: byte, b: Bytes)
    requires Escape([c] + b).None?
    ensures Decode([c] + b) == [c] + Decode(b) && Clear([c] + b) == Clear(b)
  {
    assert ([c] + b)[1..] == b;
  }

  lemma DecodeEscaped(e: Bytes, b: Bytes)
    requires |e| == 3 && Escape(e).Some?
    ensures Escape(e + b) == Escape(e)
    ensures Decode(e + b) == [Escape(e).value] + Decode(b)
    ensures Clear(e + b) == (!Forbidden(Escape(e).value) && Clear(b))
  {
    assert (e + b)[3..] == b;
  }

  /** The first part is everything up to the first separator. */
  lemma {:induction false} FirstPart(b: Bytes)
    ensures SplitAt(b, SLASH)[0] <= b && SLASH !in SplitAt(b, SLASH)[0]
    ensures |SplitAt(b, SLASH)[0]| < |b| ==> b[|SplitAt(b, SLASH)[0]|] == SLASH
  {
    if b != [] && b[0] != SLASH {
      FirstPart(b[1..]);
    }
  }

  lemma SplitPrepend(e: Bytes, b: Bytes)
    requires SLASH !in e
    ensures SplitAt(e + b, SLASH) == [e + SplitAt(b, SLASH)[0]] + SplitAt(b, SLASH)[1..]
  {
    if e == [] {
      assert e + b == b;
      assert e + SplitAt(b, SLASH)[0] == SplitAt(b, SLASH)[0];
    } else {
      assert (e + b)[1..] == e[1..] + b;
      SplitPrepend(e[1..], b);
      assert [e[0]] + (e[1..] + SplitAt(b, SLASH)[0]) == e + SplitAt(b, SLASH)[0];
    }
  }

  /** Escapes never cross a separator, so decoding the whole path and its parts come to the same. */
  lemma {:induction false} DecodeBySplitting(path: Bytes)
    requires AllClear(SplitAt(path, SLASH))
    ensures SplitAt(Decode(path), SLASH) == DecodeEach(SplitAt(path, SLASH))
    decreases |path|
  {
    if path == [] {
      assert DecodeEach([[]]) == [[]];
    } else if path[0] == SLASH {
      var rest := path[1..];
      assert SplitAt(path, SLASH)[1..] == SplitAt(rest, SLASH);
      DecodeBySplitting(rest);
      assert Decode(path)[1..] == Decode(rest);
      assert DecodeEach([[]] + SplitAt(rest, SLASH)) == [[]] + DecodeEach(SplitAt(rest, SLASH));
    } else if Escape(path).Some? {
      EscapedStep(path);
    } else {
      LiteralStep(path);
    }
  }

  /** One decoded unit `e`, standing for `v`, put back in front of a path that splits well. */
  lemma Rejoin(e: Bytes, v: byte, rest: Bytes)
    requires SLASH !in e && v != SLASH
    requires Decode(e + rest) == [v] + Decode(rest)
    requires Decode(e + SplitAt(rest, SLASH)[0]) == [v] + Decode(SplitAt(rest, SLASH)[0])
    requires SplitAt(Decode(rest), SLASH) == DecodeEach(SplitAt(rest, SLASH))
    ensures SplitAt(Decode(e + rest), SLASH) == DecodeEach(SplitAt(e + rest, SLASH))
  {
    hide Decode, SplitAt;
    var parts := SplitAt(rest, SLASH);
    SplitPrepend(e, rest);
    SplitPrepend([v], Decode(rest));
    assert SplitAt(Decode(e + rest), SLASH) == [[v] + DecodeEach(parts)[0]] + DecodeEach(parts)[1..];
    assert DecodeEach(SplitAt(e + rest, SLASH)) == [Decode(e + parts[0])] + DecodeEach(parts)[1..];
  }

  lemma TailIsClear(e: Bytes, rest: Bytes)
    requires SLASH !in e && AllClear(SplitAt(e + rest, SLASH)) && (Clear(e + SplitAt(rest, SLASH)[0]) ==> Clear(SplitAt(rest, SLASH)[0]))
    ensures Clear(e + SplitAt(rest, SLASH)[0]) && AllClear(SplitAt(rest, SLASH))
  {
    hide Clear, SplitAt;
    var parts := SplitAt(rest, SLASH);
    SplitPrepend(e, rest);
    assert Clear(SplitAt(e + rest, SLASH)[0]);
    assert forall i :: 1 <= i < |parts| ==> parts[i] == SplitAt(e + rest, SLASH)[i];
  }

  lemma EscapedStep(path: Bytes)
    requires Escape(path).Some? && AllClear(SplitAt(path, SLASH))
    ensures SplitAt(Decode(path), SLASH) == DecodeEach(SplitAt(path, SLASH))
    decreases |path|, 0
  {
    hide SplitAt;
    var e, rest := path[..3], path[3..];
    assert path == e + rest && Escape(e) == Escape(path);
    DecodeEscaped(e, rest);
    DecodeEscaped(e, SplitAt(rest, SLASH)[0]);
    TailIsClear(e, rest);
    DecodeBySplitting(rest);
    Rejoin(e, Escape(e).value, rest);
  }

  lemma LiteralStep(path: Bytes)
    requires path != [] && path[0] != SLASH && Escape(path).None? && AllClear(SplitAt(path, SLASH))
    ensures SplitAt(Decode(path), SLASH) == DecodeEach(SplitAt(path, SLASH))
    decreases |path|, 0
  {
    hide SplitAt, Decode, Escape;
    var c, rest := path[0], path[1..];
    assert path == [c] + rest;
    NoEscapeInPart(c, rest);
    DecodeLiteral(c, rest);
    DecodeLiteral(c, SplitAt(rest, SLASH)[0]);
    TailIsClear([c], rest);
    DecodeBySplitting(rest);
    Rejoin([c], c, rest);
  }

  lemma NoEscapeInPart(c: byte, rest: Bytes)
    requires Escape([c] + rest).None?
    ensures Escape([c] + SplitAt(rest, SLASH)[0]).None?
  {
    FirstPart(rest);
  }

  lemma UnnamedIsClear(part: Bytes)
    requires !Named(part)
    ensures Clear(part) && Decode(part) == part
  {
    DecodeIsIdentity(part);
  }

  lemma EachFirst(parts: seq<Bytes>)
    requires parts != []
    ensures DecodeEach(parts) == [Decode(parts[0])] + DecodeEach(parts[1..])
    ensures AllClear(parts) <==> Clear(parts[0]) && AllClear(parts[1..])
    ensures DOTS in DecodeEach(parts) <==> Decode(parts[0]) == DOTS || DOTS in DecodeEach(parts[1..])
    ensures Names(DecodeEach(parts)) == Names([Decode(parts[0])]) + Names(DecodeEach(parts[1..]))
  {
    hide Decode, Clear;
    var first, rest := Decode(parts[0]), DecodeEach(parts[1..]);
    assert DecodeEach(parts) == [first] + rest;
    assert ([first] + rest)[1..] == rest;
    OneName([], first);
    assert forall i :: 0 <= i < |parts[1..]| ==> parts[1..][i] == parts[i + 1];
    if Clear(parts[0]) && AllClear(parts[1..]) {
      forall i | 0 <= i < |parts| ensures Clear(parts[i]) {
        if i > 0 {
          assert Clear(parts[1..][i - 1]);
        }
      }
    }
  }

  /** A path is accepted exactly when each part is clear and none decodes to the parent. */
  lemma {:induction false} ResolveAcceptsExactly(parts: seq<Bytes>)
    ensures Resolve(parts).Some? <==> AllClear(parts) && DOTS !in DecodeEach(parts)
    ensures Resolve(parts).Some? ==> Resolve(parts).value == Names(DecodeEach(parts))
  {
    hide Decode, Clear, DecodeEach, AllClear, Names;
    if parts == [] {
      NoParts();
    } else {
      ResolveAcceptsExactly(parts[1..]);
      EachFirst(parts);
      OneName([], Decode(parts[0]));
      if !Named(parts[0]) {
        UnnamedIsClear(parts[0]);
        assert [] + Names(DecodeEach(parts[1..])) == Names(DecodeEach(parts[1..]));
        assert [] + Names([parts[0]]) == Names([parts[0]]);
      }
      if parts[0] == DOTS {
        DecodeIsIdentity(parts[0]);
      }
    }
  }

  lemma NoParts()
    ensures AllClear([]) && DecodeEach([]) == [] && Names([]) == []
  {
  }

  lemma {:induction false} SplitHasNoSlash(b: Bytes)
    ensures forall i :: 0 <= i < |SplitAt(b, SLASH)| ==> SLASH !in SplitAt(b, SLASH)[i]
  {
    if b != [] {
      SplitHasNoSlash(b[1..]);
    }
  }

  lemma {:induction false} NamesAreParts(parts: seq<Bytes>)
    ensures forall n :: n in Names(parts) ==> n in parts && Named(n)
  {
    if parts != [] {
      NamesAreParts(parts[1..]);
    }
  }

  /**
   The guard and the file name one resource: for every path that resolves, splitting what the
   matcher compares gives exactly the components appended to the root, and none of them
   climbs or hides a separator.
   */
  lemma GuardAndFileAgree(path: Bytes, query: Bytes) returns (compared: Bytes)
    requires QUESTION !in path && (query == [] || query[0] == QUESTION)
    requires Resolve(SplitAt(path, SLASH)).Some?
    ensures ForMatching(path + query) == compared + query
    ensures Resolve(SplitAt(path, SLASH)).value == Names(SplitAt(compared, SLASH))
    ensures forall n :: n in Resolve(SplitAt(path, SLASH)).value ==> n != DOTS && Named(n) && SLASH !in n
  {
    hide Resolve, SplitAt, Decode, ForMatching;
    compared := Decode(path);
    QueryIsCutOff(path, query);
    ResolveAcceptsExactly(SplitAt(path, SLASH));
    DecodeBySplitting(path);
    NamesAreParts(SplitAt(Decode(path), SLASH));
    SplitHasNoSlash(Decode(path));
  }

  // ----- Encoding -----

  /** Stands for itself in a URI path. */
  predicate Literal(b: byte) {
    || 48 <= b <= 57 || 65 <= b <= 90 || 97 <= b <= 122
    || b in [45, 46, 95, 126, 47, 33, 36, 38, 39, 40, 41, 42, 43, 44, 59, 61, 58, 64]
  }

  function HexChar(n: nat): (c: byte)
    requires n < 16
    ensures HexDigit(c) == Some(n)
  {
    if n < 10 then 48 + n else 55 + n
  }

  function EncodeByte(b: byte): Bytes {
    if Literal(b) then [b] else [PERCENT, HexChar(b / 16), HexChar(b % 16)]
  }

  function Encode(name: Bytes): Bytes {
    if name == [] then [] else EncodeByte(name[0]) + Encode(name[1..])
  }

  method PushEncodedPath(out: Bytes, name: Bytes) returns (r: Bytes)
    ensures r == out + Encode(name)
  {
    hide EncodeByte;
    r := out;
    assert name[0..] == name;
    for i := 0 to |name|
      invariant out + Encode(name) == r + Encode(name[i..])
    {
      ghost var rest := Encode(name[i + 1..]);
      assert name[i..][1..] == name[i + 1..];
      assert Encode(name[i..]) == EncodeByte(name[i]) + rest;
      assert r + (EncodeByte(name[i]) + rest) == (r + EncodeByte(name[i])) + rest;
      r := r + EncodeByte(name[i]);
    }
    assert Encode(name[|name|..]) == [];
  }

  lemma EmptyDecodes()
    ensures Decode([]) == [] && Clear([])
  {
  }

  lemma LiteralIsNoEscape(b: byte, rest: Bytes)
    requires Literal(b)
    ensures Escape([b] + rest).None? && EncodeByte(b) == [b] && b != BACKSLASH && b != 0
  {
  }

  lemma EscapeOfEncoded(b: byte)
    requires !Literal(b)
    ensures Escape(EncodeByte(b)) == Some(b) && |EncodeByte(b)| == 3
    ensures Forbidden(b) <==> b == BACKSLASH || b == 0
  {
  }

  /** An encoded name decodes to the same bytes, and is accepted exactly when it has no backslash and no NUL. */
  lemma {:induction false} EncodeRoundTrip(name: Bytes)
    ensures Decode(Encode(name)) == name
    ensures Clear(Encode(name)) <==> BACKSLASH !in name && 0 !in name
  {
    hide EncodeByte, Escape, Decode, Clear;
    EmptyDecodes();
    if name != [] {
      var b, rest := name[0], Encode(name[1..]);
      EncodeRoundTrip(name[1..]);
      assert name == [b] + name[1..];
      if Literal(b) {
        LiteralIsNoEscape(b, rest);
        DecodeLiteral(b, rest);
      } else {
        EscapeOfEncoded(b);
        DecodeEscaped(EncodeByte(b), rest);
      }
    }
  }

  // ----- Either case, and a query behind it -----

  function HexSpelled(n: nat, small: bool): (c: byte)
    requires n < 16
  {
    if n < 10 then 48 + n else if small then 87 + n else 55 + n
  }

  /** An encoded name whose hex digits may be small letters, byte by byte. */
  function EncodeCased(name: Bytes, small: seq<bool>): Bytes
    requires |small| == |name|
  {
    if name == [] then []
    else
      var b := name[0];
      (if Literal(b) then [b] else [PERCENT, HexSpelled(b / 16, small[0]), HexSpelled(b % 16, small[0])])
        + EncodeCased(name[1..], small[1..])
  }

  lemma EscapeOfCased(b: byte, small: bool)
    ensures Escape([PERCENT, HexSpelled(b / 16, small), HexSpelled(b % 16, small)]) == Some(b)
  {
  }

  /** The escapes of a name mean the same bytes whichever case their digits are in. */
  lemma {:induction false} EitherCaseDecodes(name: Bytes, small: seq<bool>)
    requires |small| == |name|
    ensures Decode(EncodeCased(name, small)) == name
    ensures (forall i :: 0 <= i < |small| ==> !small[i]) ==> EncodeCased(name, small) == Encode(name)
  {
    hide Escape, Decode, Clear;
    EmptyDecodes();
    if name != [] {
      var b, rest := name[0], EncodeCased(name[1..], small[1..]);
      EitherCaseDecodes(name[1..], small[1..]);
      assert name == [b] + name[1..];
      if Literal(b) {
        LiteralIsNoEscape(b, rest);
        DecodeLiteral(b, rest);
      } else {
        EscapeOfCased(b, small[0]);
        DecodeEscaped([PERCENT, HexSpelled(b / 16, small[0]), HexSpelled(b % 16, small[0])], rest);
      }
    }
  }

  lemma {:induction false} EncodedHasNoQuery(name: Bytes)
    ensures QUESTION !in Encode(name)
  {
    if name != [] {
      EncodedHasNoQuery(name[1..]);
      assert QUESTION !in EncodeByte(name[0]);
    }
  }

  /** An encoded name put into a URL, with any query, is what matchers compare. */
  lemma EncodedNameIsMatched(name: Bytes, query: Bytes)
    requires query == [] || query[0] == QUESTION
    ensures ForMatching(Encode(name) + query) == name + query
  {
    hide Encode, Decode, ForMatching;
    EncodedHasNoQuery(name);
    QueryIsCutOff(Encode(name), query);
    EncodeRoundTrip(name);
  }
}
