/**
 Laws of ClientHello classification: it does not depend on how the handshake was
 cut into records, a wait always names a size that matters, and a verdict once
 given is final.
 */
module ClientHelloLaws {
  import opened Wire
  import opened ClientHello

  // ----- More input -----

  lemma {:induction false} RecordsExtend(wire: Bytes, more: Bytes, pos: nat)
    requires pos <= |wire|
    ensures var s, t := Records(wire, pos), Records(wire + more, pos);
            && s.bytes <= t.bytes
            && (s.stop.Declined? ==> t == s)
            && (s.stop.More? ==> s.stop.size > |wire| && (|wire + more| < s.stop.size ==> t == s))
    decreases |wire| - pos
  {
    var all := wire + more;
    if pos + 5 <= |wire| && wire[pos] == 22 && wire[pos + 1] == 3 {
      var end := pos + 5 + U16(wire[pos + 3], wire[pos + 4]);
      assert U16(all[pos + 3], all[pos + 4]) == U16(wire[pos + 3], wire[pos + 4]);
      if end <= |wire| {
        RecordsExtend(wire, more, end);
        assert all[pos + 5..end] == wire[pos + 5..end];
      }
    }
  }

  lemma PlainVerdictExtend(s: Stream, t: Stream)
    requires s.bytes <= t.bytes && (s.stop.Declined? ==> t == s)
    requires !PlainVerdict(s).NeedMore?
    ensures PlainVerdict(t) == PlainVerdict(s)
  {
    if 4 <= |s.bytes| && s.bytes[0] == 1 {
      var length := s.bytes[1] as nat * 65536 + U16(s.bytes[2], s.bytes[3]);
      if 4 + length <= |s.bytes| {
        assert t.bytes[4..4 + length] == s.bytes[4..4 + length];
      }
    }
  }

  /** A verdict other than a wait is final: no later byte changes it. */
  lemma VerdictIsFinal(wire: Bytes, more: Bytes)
    requires !Classified(wire).NeedMore?
    ensures Classified(wire + more) == Classified(wire)
  {
    if wire != [] && wire[0] == 22 {
      RecordsExtend(wire, more, 0);
      PlainVerdictExtend(Records(wire, 0), Records(wire + more, 0));
    }
  }

  /** A wait names a size beyond the input, and every shorter extension repeats it. */
  lemma WaitIsExact(wire: Bytes, more: Bytes)
    requires Classified(wire).NeedMore?
    ensures Classified(wire).size > |wire|
    ensures wire != [] && |wire + more| < Classified(wire).size ==> Classified(wire + more) == Classified(wire)
  {
    RecordsExtend(wire, more, 0);
    PlainWait(Records(wire, 0));
  }

  lemma PlainWait(s: Stream)
    requires PlainVerdict(s).NeedMore?
    ensures s.stop == More(PlainVerdict(s).size)
  {
  }

  /**
   The empty input is the one exception: it asks for a record header, yet a single
   byte that cannot open one already answers.  A caller that reads at least one
   byte first never meets it.
   */
  lemma WaitRepeatsExactlyWhenNonEmpty(wire: Bytes)
    requires Classified(wire).NeedMore?
    ensures wire != [] <==>
            forall more: Bytes {:trigger wire + more} :: |wire + more| < Classified(wire).size ==>
              Classified(wire + more) == Classified(wire)
  {
    if wire == [] {
      var more: Bytes := [71];
      assert Classified(wire) == NeedMore(5);
      assert wire + more == more;
      assert Classified(wire + more) == NotTls;
    } else {
      forall more: Bytes | |wire + more| < Classified(wire).size
        ensures Classified(wire + more) == Classified(wire)
      {
        WaitIsExact(wire, more);
      }
    }
  }

  // ----- Fragmentation -----

  /** One handshake record: the minor version is not inspected. */
  datatype Fragment = Fragment(minor: byte, payload: Bytes)

  predicate ValidFragments(parts: seq<Fragment>) {
    forall i :: 0 <= i < |parts| ==> |parts[i].payload| < 0x1_0000
  }

  function RecordBytes(part: Fragment): Bytes
    requires |part.payload| < 0x1_0000
  {
    [22, 3, part.minor, |part.payload| / 256, |part.payload| % 256] + part.payload
  }

  function Framed(parts: seq<Fragment>): (wire: Bytes)
    requires ValidFragments(parts)
    ensures wire != [] ==> wire[0] == 22
  {
    if parts == [] then [] else RecordBytes(parts[0]) + Framed(parts[1..])
  }

  function Payload(parts: seq<Fragment>): Bytes {
    if parts == [] then [] else parts[0].payload + Payload(parts[1..])
  }

  lemma RecordAt(wire: Bytes, pos: nat, payload: Bytes)
    requires pos + 5 + |payload| <= |wire|
    requires wire[pos] == 22 && wire[pos + 1] == 3 && U16(wire[pos + 3], wire[pos + 4]) == |payload|
    requires wire[pos + 5..pos + 5 + |payload|] == payload
    ensures var rest := Records(wire, pos + 5 + |payload|);
            Records(wire, pos) == Stream(payload + rest.bytes, rest.stop)
  {
  }

  lemma RecordsOfOne(before: Bytes, part: Fragment, after: Bytes)
    requires |part.payload| < 0x1_0000
    ensures var wire := before + RecordBytes(part) + after;
            var rest := Records(wire, |before| + |RecordBytes(part)|);
            Records(wire, |before|) == Stream(part.payload + rest.bytes, rest.stop)
  {
    hide Records;
    var head := RecordBytes(part);
    var wire := before + head + after;
    var pos := |before|;
    assert wire[pos..pos + |head|] == head;
    assert wire[pos] == head[0] && wire[pos + 1] == head[1] && wire[pos + 3] == head[3] && wire[pos + 4] == head[4];
    assert wire[pos + 5..pos + |head|] == head[5..] == part.payload;
    RecordAt(wire, pos, part.payload);
  }

  /** Framing is undone by the record walk, wherever the records sit. */
  lemma {:induction false} RecordsOfFramed(before: Bytes, parts: seq<Fragment>, after: Bytes)
    requires ValidFragments(parts)
    ensures var wire := before + Framed(parts) + after;
            var rest := Records(wire, |before| + |Framed(parts)|);
            Records(wire, |before|) == Stream(Payload(parts) + rest.bytes, rest.stop)
    decreases |parts|
  {
    hide Records, RecordBytes;
    var wire := before + Framed(parts) + after;
    var rest := Records(wire, |before| + |Framed(parts)|);
    if parts == [] {
      assert Payload(parts) + rest.bytes == rest.bytes;
    } else {
      var head := RecordBytes(parts[0]);
      assert wire == before + head + (Framed(parts[1..]) + after) == (before + head) + Framed(parts[1..]) + after;
      RecordsOfOne(before, parts[0], Framed(parts[1..]) + after);
      RecordsOfFramed(before + head, parts[1..], after);
      assert parts[0].payload + (Payload(parts[1..]) + rest.bytes) == Payload(parts) + rest.bytes;
    }
  }

  lemma RecordsAtEnd(wire: Bytes)
    ensures Records(wire, |wire|) == Stream([], More(|wire| + 5))
  {
  }

  /** The verdict on framed records is the plain parser's verdict on their payload. */
  lemma FramedVerdict(parts: seq<Fragment>)
    requires ValidFragments(parts)
    ensures Classified(Framed(parts)) == PlainVerdict(Stream(Payload(parts), More(|Framed(parts)| + 5)))
  {
    hide PlainVerdict, Records, RecordBytes;
    var wire := Framed(parts);
    RecordsOfFramed([], parts, []);
    assert [] + wire + [] == wire;
    RecordsAtEnd(wire);
    assert Payload(parts) + [] == Payload(parts);
  }

  lemma OnlyWaitsDiffer(bytes: Bytes, m: nat, n: nat)
    ensures var v, w := PlainVerdict(Stream(bytes, More(m))), PlainVerdict(Stream(bytes, More(n)));
            v == w || (v == NeedMore(m) && w == NeedMore(n))
  {
    hide PlainBody;
  }

  /**
   Fragmentation independence: two ways of cutting one payload into records give
   the same kind of verdict, and the same hello when there is one.  Only the size
   a wait names counts header bytes and so may differ.
   */
  lemma FragmentationIndependence(a: seq<Fragment>, b: seq<Fragment>)
    requires ValidFragments(a) && ValidFragments(b) && Payload(a) == Payload(b)
    ensures Classified(Framed(a)).NeedMore? <==> Classified(Framed(b)).NeedMore?
    ensures !Classified(Framed(a)).NeedMore? ==> Classified(Framed(a)) == Classified(Framed(b))
  {
    hide Records, Framed, PlainVerdict;
    FramedVerdict(a);
    FramedVerdict(b);
    OnlyWaitsDiffer(Payload(a), |Framed(a)| + 5, |Framed(b)| + 5);
  }

  /** The same, whatever follows the records on either wire once a verdict is reached. */
  lemma TrailingBytesAreIgnored(a: seq<Fragment>, b: seq<Fragment>, afterA: Bytes, afterB: Bytes)
    requires ValidFragments(a) && ValidFragments(b) && Payload(a) == Payload(b)
    requires !Classified(Framed(a)).NeedMore?
    ensures Classified(Framed(a) + afterA) == Classified(Framed(b) + afterB)
  {
    FragmentationIndependence(a, b);
    VerdictIsFinal(Framed(a), afterA);
    VerdictIsFinal(Framed(b), afterB);
  }

  predicate IsLetter(b: byte) {
    65 <= b <= 90 || 97 <= b <= 122
  }

  /** Names are compared up to the case of ASCII letters, and in nothing else. */
  lemma OnlyLetterCaseIsIgnored(a: Bytes, b: Bytes)
    ensures SameIgnoringCase(a, b) <==>
            && |a| == |b|
            && forall i :: 0 <= i < |a| ==> a[i] == b[i] || (IsLetter(a[i]) && IsLetter(b[i]) && (a[i] as int - b[i] as int) % 32 == 0)
  {
  }
}
