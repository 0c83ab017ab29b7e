/**
 What a FastCGI exchange delivers, for every way a responder may cut and interleave
 its records.
 */
module FastCgiLaws {
  import opened Wire
  import opened FastCgi

  /** One STDOUT or STDERR record, padded as the responder likes. */
  datatype Piece = Piece(diagnostic: bool, content: Bytes, padding: Bytes, reserved: byte)

  predicate ValidPieces(ps: seq<Piece>) {
    forall i :: 0 <= i < |ps| ==> |ps[i].content| < 0x1_0000 && |ps[i].padding| < 256
  }

  function PieceBytes(p: Piece, id: RequestId): Bytes
    requires |p.content| < 0x1_0000 && |p.padding| < 256
  {
    PaddedFrame(if p.diagnostic then Stderr else Stdout, id, p.content, p.padding, p.reserved)
  }

  function Encode(ps: seq<Piece>, id: RequestId): Bytes
    requires ValidPieces(ps)
  {
    if ps == [] then [] else PieceBytes(ps[0], id) + Encode(ps[1..], id)
  }

  function Out(ps: seq<Piece>): Bytes {
    if ps == [] then [] else (if ps[0].diagnostic then [] else ps[0].content) + Out(ps[1..])
  }

  function Diagnostics(ps: seq<Piece>): Bytes {
    if ps == [] then [] else (if ps[0].diagnostic then ps[0].content else []) + Diagnostics(ps[1..])
  }

  /** A normal end: any application status, protocol status complete. */
  ghost predicate NormalEnd(end: Bytes, id: RequestId) {
    var f := ParseRecord(end, id);
    f.Record? && f.kind.EndRequest? && |f.content| == 8 && f.content[4] == 0
  }

  lemma CaptureJoins(capture: bool, stderr: Bytes, a: Bytes, b: Bytes)
    ensures Captured(capture, Captured(capture, stderr, a), b) == Captured(capture, stderr, a + b)
  {
    var room := MAX_STDERR_BYTES - |stderr|;
    if capture && room > 0 {
      if |a| < room {
        assert a[..|a|] == a;
        var n := Min(|b|, room - |a|);
        assert stderr + a + b[..n] == stderr + (a + b)[..|a| + n];
      } else {
        assert (a + b)[..room] == a[..room];
      }
    }
  }

  lemma ReceivePiece(p: Piece, id: RequestId, capture: bool, stderr: Bytes, after: Bytes)
    requires |p.content| < 0x1_0000 && |p.padding| < 256
    ensures Receive(PieceBytes(p, id) + after, id, capture, stderr) ==
            if p.diagnostic then Receive(after, id, capture, Captured(capture, stderr, p.content))
            else Chunk(p.content, after, stderr)
  {
    hide ParseRecord, PaddedFrame;
    FrameRoundTrip(if p.diagnostic then Stderr else Stdout, id, p.content, p.padding, p.reserved, after);
  }

  lemma ReceiveEnd(id: RequestId, capture: bool, stderr: Bytes, end: Bytes)
    requires NormalEnd(end, id)
    ensures Receive(end, id, capture, stderr).Ended? && Receive(end, id, capture, stderr).stderr == stderr
  {
  }

  lemma EncodeFirst(ps: seq<Piece>, id: RequestId, end: Bytes)
    requires ValidPieces(ps) && ps != []
    ensures Encode(ps, id) + end == PieceBytes(ps[0], id) + (Encode(ps[1..], id) + end)
  {
  }

  lemma {:induction false} BodyOf(ps: seq<Piece>, id: RequestId, capture: bool, stderr: Bytes, end: Bytes)
    requires ValidPieces(ps) && NormalEnd(end, id)
    ensures ReadBody(Encode(ps, id) + end, id, capture, stderr) == Body(Out(ps), Captured(capture, stderr, Diagnostics(ps)))
    decreases |ps|
  {
    hide Receive, PieceBytes, NormalEnd;
    if ps == [] {
      assert Encode(ps, id) + end == end;
      ReceiveEnd(id, capture, stderr, end);
      assert stderr + [] == stderr;
    } else {
      var p, after := ps[0], Encode(ps[1..], id) + end;
      EncodeFirst(ps, id, end);
      ReceivePiece(p, id, capture, stderr, after);
      if p.diagnostic {
        BodyOf(ps[1..], id, capture, Captured(capture, stderr, p.content), end);
        CaptureJoins(capture, stderr, p.content, Diagnostics(ps[1..]));
        assert [] + Out(ps[1..]) == Out(ps[1..]);
      } else {
        BodyOf(ps[1..], id, capture, stderr, end);
        assert [] + Diagnostics(ps[1..]) == Diagnostics(ps[1..]);
      }
    }
  }

  // ----- A whole exchange -----

  datatype Exchange = Whole(block: Bytes, body: Bytes, stderr: Bytes) | Failed(error: Error)

  /** The header and then every body chunk, the one that shared the header's record first. */
  function Exchanged(input: Bytes, id: RequestId, capture: bool, stderr: Bytes, held: Bytes): Exchange {
    match ReadHeader(input, id, capture, stderr, held)
    case NoHeader(error) => Failed(error)
    case Header(block, pending, rest, after) =>
      match ReadBody(rest, id, capture, after)
      case NoBody(error) => Failed(error)
      case Body(bytes, last) => Whole(block, pending + bytes, last)
  }

  predicate HasBlankLine(b: Bytes) {
    FindTerminator(b).Some?
  }

  /** A blank line is found where it was, however much follows. */
  lemma TerminatorStays(b: Bytes, more: Bytes)
    ensures HasBlankLine(b) ==> FindTerminator(b + more) == FindTerminator(b)
  {
    if HasBlankLine(b) {
      var k := FindTerminator(b).value;
      forall i | 0 <= i <= k ensures BlankLineAt(b + more, i) == BlankLineAt(b, i) {
        assert (b + more)[i..i + 4] == b[i..i + 4];
      }
    }
  }

  /** A standard output split after its first blank line. */
  function Split(out: Bytes, stderr: Bytes): (e: Exchange)
    requires HasBlankLine(out)
    ensures e.Whole?
  {
    var k := FindTerminator(out).value;
    Whole(out[..k + 4], out[k + 4..], stderr)
  }

  /** At each record boundary the header is complete or still within its bound, and it does complete. */
  ghost predicate HeaderFits(held: Bytes, ps: seq<Piece>) {
    && HasBlankLine(held + Out(ps))
    && forall j :: 0 <= j <= |ps| ==> HasBlankLine(held + Out(ps[..j])) || |held + Out(ps[..j])| < MAX_HEADER_BYTES
  }

  function Shown(p: Piece): Bytes {
    if p.diagnostic then [] else p.content
  }

  lemma OutPrefix(ps: seq<Piece>, j: nat)
    requires 0 < j <= |ps|
    ensures Out(ps[..j]) == Shown(ps[0]) + Out(ps[1..][..j - 1])
  {
    assert ps[..j][1..] == ps[1..][..j - 1];
  }

  lemma HeaderFitsStep(held: Bytes, ps: seq<Piece>)
    requires ps != [] && !HasBlankLine(held)
    ensures HeaderFits(held, ps) <==> |held| < MAX_HEADER_BYTES && HeaderFits(held + Shown(ps[0]), ps[1..])
  {
    hide FindTerminator, HasBlankLine;
    var next := held + Shown(ps[0]);
    forall j | 0 < j <= |ps| ensures held + Out(ps[..j]) == next + Out(ps[1..][..j - 1]) {
      OutPrefix(ps, j);
    }
    assert ps[..|ps|] == ps && ps[1..][..|ps| - 1] == ps[1..];
    assert held + Out(ps) == next + Out(ps[1..]);
    assert held + Out(ps[..0]) == held;
    if HeaderFits(next, ps[1..]) && |held| < MAX_HEADER_BYTES {
      forall j | 0 <= j <= |ps| ensures HasBlankLine(held + Out(ps[..j])) || |held + Out(ps[..j])| < MAX_HEADER_BYTES {
        if j > 0 {
          assert held + Out(ps[..j]) == next + Out(ps[1..][..j - 1]);
        }
      }
    }
    if HeaderFits(held, ps) {
      forall j | 0 <= j <= |ps[1..]| ensures HasBlankLine(next + Out(ps[1..][..j])) || |next + Out(ps[1..][..j])| < MAX_HEADER_BYTES {
        assert held + Out(ps[..j + 1]) == next + Out(ps[1..][..j]);
      }
    }
  }

  lemma ExchangeStep(ps: seq<Piece>, id: RequestId, capture: bool, stderr: Bytes, held: Bytes, end: Bytes)
    requires ValidPieces(ps) && ps != [] && !HasBlankLine(held) && |held| < MAX_HEADER_BYTES
    ensures Exchanged(Encode(ps, id) + end, id, capture, stderr, held)
         == Exchanged(Encode(ps[1..], id) + end, id, capture,
                      if ps[0].diagnostic then Captured(capture, stderr, ps[0].content) else stderr,
                      held + Shown(ps[0]))
  {
    hide Receive, PieceBytes, FindTerminator, ReadBody;
    var after := Encode(ps[1..], id) + end;
    EncodeFirst(ps, id, end);
    ReceivePiece(ps[0], id, capture, stderr, after);
    assert ps[0].diagnostic ==> held + Shown(ps[0]) == held;
  }

  /**
   Demultiplexing: the exchange succeeds exactly when the header fits, and then the
   block, the body and the captured diagnostics depend only on the two streams, never
   on how they were cut or interleaved.
   */
  lemma {:induction false} ExchangeOf(ps: seq<Piece>, id: RequestId, capture: bool, stderr: Bytes, held: Bytes, end: Bytes)
    requires ValidPieces(ps) && NormalEnd(end, id)
    ensures var r := Exchanged(Encode(ps, id) + end, id, capture, stderr, held);
            var out := held + Out(ps);
            && (r.Whole? <==> HeaderFits(held, ps))
            && (r.Whole? ==> HasBlankLine(out))
            && (r.Whole? ==> r == Split(out, Captured(capture, stderr, Diagnostics(ps))))
    decreases |ps|
  {
    hide Exchanged, PieceBytes, Encode, HasBlankLine, NormalEnd, Captured, Split, HeaderFits;
    if HasBlankLine(held) {
      HeldHeader(ps, id, capture, stderr, held, end);
    } else if |held| >= MAX_HEADER_BYTES || ps == [] {
      NoMoreHeader(ps, id, capture, stderr, held, end);
    } else {
      var p := ps[0];
      var next := if p.diagnostic then Captured(capture, stderr, p.content) else stderr;
      ExchangeStep(ps, id, capture, stderr, held, end);
      HeaderFitsStep(held, ps);
      ExchangeOf(ps[1..], id, capture, next, held + Shown(p), end);
      assert held + Shown(p) + Out(ps[1..]) == held + Out(ps);
      if p.diagnostic {
        CaptureJoins(capture, stderr, p.content, Diagnostics(ps[1..]));
      } else {
        assert [] + Diagnostics(ps[1..]) == Diagnostics(ps[1..]);
      }
    }
  }

  /** Without a blank line, a full buffer or the end of the response is a failure. */
  lemma NoMoreHeader(ps: seq<Piece>, id: RequestId, capture: bool, stderr: Bytes, held: Bytes, end: Bytes)
    requires ValidPieces(ps) && NormalEnd(end, id) && !HasBlankLine(held)
    requires |held| >= MAX_HEADER_BYTES || ps == []
    ensures Exchanged(Encode(ps, id) + end, id, capture, stderr, held).Failed? && !HeaderFits(held, ps)
  {
    hide Receive, FindTerminator, ReadBody, NormalEnd;
    assert held + Out(ps[..0]) == held;
    if ps == [] {
      assert Encode(ps, id) + end == end && held + Out(ps) == held;
      ReceiveEnd(id, capture, stderr, end);
    }
  }

  /** With the blank line in hand, the rest of the response is body. */
  lemma HeldHeader(ps: seq<Piece>, id: RequestId, capture: bool, stderr: Bytes, held: Bytes, end: Bytes)
    requires ValidPieces(ps) && NormalEnd(end, id) && HasBlankLine(held)
    ensures HeaderFits(held, ps) && HasBlankLine(held + Out(ps))
    ensures Exchanged(Encode(ps, id) + end, id, capture, stderr, held)
         == Split(held + Out(ps), Captured(capture, stderr, Diagnostics(ps)))
  {
    hide Receive, FindTerminator, ReadBody, NormalEnd, Encode, Out;
    BodyOf(ps, id, capture, stderr, end);
    TerminatorStays(held, Out(ps));
    TerminatorInside(held);
    forall j | 0 <= j <= |ps| ensures HasBlankLine(held + Out(ps[..j])) {
      TerminatorStays(held, Out(ps[..j]));
    }
    var k := FindTerminator(held).value;
    assert (held + Out(ps))[..k + 4] == held[..k + 4];
    assert (held + Out(ps))[k + 4..] == held[k + 4..] + Out(ps);
  }

  // ----- Other ends -----

  /**
   The error that what follows the streams stands for, if any: a record cut short or malformed, a
   record no responder may send, or an end other than the normal one.
   */
  function Breakdown(end: Bytes, id: RequestId): Option<Error> {
    match ParseRecord(end, id)
    case Unframed(error) => Some(error)
    case Record(kind, content, _) =>
      if kind.Stdout? || kind.Stderr? then None
      else if !kind.EndRequest? then Some(Protocol)
      else if |content| == 8 && content[4] == 0 then None
      else if |content| == 8 && 1 <= content[4] <= 3 then Some(Rejected(content[4] as nat))
      else Some(Protocol)
  }

  /** The bound was reached at a record boundary before any blank line. */
  ghost predicate Overrun(held: Bytes, ps: seq<Piece>) {
    exists j :: 0 <= j <= |ps| && !HasBlankLine(held + Out(ps[..j])) && |held + Out(ps[..j])| >= MAX_HEADER_BYTES
  }

  lemma OverrunStep(held: Bytes, ps: seq<Piece>)
    requires ps != [] && !HasBlankLine(held) && |held| < MAX_HEADER_BYTES
    ensures Overrun(held, ps) <==> Overrun(held + Shown(ps[0]), ps[1..])
  {
    hide FindTerminator, HasBlankLine;
    var next := held + Shown(ps[0]);
    forall j | 0 < j <= |ps| ensures held + Out(ps[..j]) == next + Out(ps[1..][..j - 1]) {
      OutPrefix(ps, j);
    }
    assert held + Out(ps[..0]) == held;
    if j :| 0 <= j <= |ps| && !HasBlankLine(held + Out(ps[..j])) && |held + Out(ps[..j])| >= MAX_HEADER_BYTES {
      assert held + Out(ps[..j]) == next + Out(ps[1..][..j - 1]);
    }
    if j :| 0 <= j <= |ps[1..]| && !HasBlankLine(next + Out(ps[1..][..j])) && |next + Out(ps[1..][..j])| >= MAX_HEADER_BYTES {
      assert held + Out(ps[..j + 1]) == next + Out(ps[1..][..j]);
    }
  }

  lemma OverrunNow(held: Bytes, ps: seq<Piece>)
    ensures HasBlankLine(held) ==> !Overrun(held, ps)
    ensures !HasBlankLine(held) && |held| >= MAX_HEADER_BYTES ==> Overrun(held, ps)
    ensures |held| < MAX_HEADER_BYTES ==> !Overrun(held, [])
  {
    assert held + Out(ps[..0]) == held;
    assert held + Out([][..0]) == held;
    if HasBlankLine(held) {
      forall j | 0 <= j <= |ps| ensures HasBlankLine(held + Out(ps[..j])) {
        TerminatorStays(held, Out(ps[..j]));
      }
    }
  }

  lemma {:induction false} BrokenBody(ps: seq<Piece>, id: RequestId, capture: bool, stderr: Bytes, end: Bytes, error: Error)
    requires ValidPieces(ps) && Breakdown(end, id) == Some(error)
    ensures ReadBody(Encode(ps, id) + end, id, capture, stderr) == NoBody(error)
    decreases |ps|
  {
    if ps == [] {
      assert Encode(ps, id) + end == end;
    } else {
      hide PieceBytes, Breakdown, Receive;
      EncodeFirst(ps, id, end);
      ReceivePiece(ps[0], id, capture, stderr, Encode(ps[1..], id) + end);
      BrokenBody(ps[1..], id, capture, if ps[0].diagnostic then Captured(capture, stderr, ps[0].content) else stderr,
                   end, error);
    }
  }

  lemma BrokenAfterHeader(ps: seq<Piece>, id: RequestId, capture: bool, stderr: Bytes, held: Bytes, end: Bytes, error: Error)
    requires ValidPieces(ps) && Breakdown(end, id) == Some(error) && HasBlankLine(held)
    ensures Exchanged(Encode(ps, id) + end, id, capture, stderr, held) == Failed(error)
  {
    hide Receive, Breakdown, Encode, FindTerminator, ReadBody;
    BrokenBody(ps, id, capture, stderr, end, error);
  }

  lemma BrokenBeforeHeader(id: RequestId, capture: bool, stderr: Bytes, held: Bytes, end: Bytes, error: Error)
    requires Breakdown(end, id) == Some(error)
    requires !HasBlankLine(held) && |held| < MAX_HEADER_BYTES
    ensures Exchanged(end, id, capture, stderr, held) == Failed(error)
  {
    hide FindTerminator, ReadBody, ParseRecord;
  }

  lemma FullBeforeHeader(input: Bytes, id: RequestId, capture: bool, stderr: Bytes, held: Bytes)
    requires !HasBlankLine(held) && |held| >= MAX_HEADER_BYTES
    ensures Exchanged(input, id, capture, stderr, held) == Failed(Protocol)
  {
    hide FindTerminator, ReadBody, Receive;
  }

  lemma EncodeNothing(id: RequestId, end: Bytes)
    ensures Encode([], id) + end == end
  {
  }

  /**
   A response that breaks off, or ends otherwise than normally, fails, however far it got: with the
   protocol status 1, 2 or 3 the responder gave, with the error of what came instead of an end, and
   with the header's own error where that came first.
   */
  lemma {:induction false} BrokenExchange(ps: seq<Piece>, id: RequestId, capture: bool, stderr: Bytes, held: Bytes,
                                            end: Bytes, error: Error)
    requires ValidPieces(ps) && Breakdown(end, id) == Some(error)
    ensures Exchanged(Encode(ps, id) + end, id, capture, stderr, held)
         == Failed(if Overrun(held, ps) then Protocol else error)
    decreases |ps|
  {
    hide Exchanged, Overrun, Breakdown, Encode, HasBlankLine;
    OverrunNow(held, ps);
    if HasBlankLine(held) {
      BrokenAfterHeader(ps, id, capture, stderr, held, end, error);
    } else if |held| >= MAX_HEADER_BYTES {
      FullBeforeHeader(Encode(ps, id) + end, id, capture, stderr, held);
    } else if ps == [] {
      EncodeNothing(id, end);
      BrokenBeforeHeader(id, capture, stderr, held, end, error);
    } else {
      var p := ps[0];
      ExchangeStep(ps, id, capture, stderr, held, end);
      OverrunStep(held, ps);
      BrokenExchange(ps[1..], id, capture, if p.diagnostic then Captured(capture, stderr, p.content) else stderr,
                       held + Shown(p), end, error);
    }
  }

  // ----- Every split -----

  /** One byte per record. */
  function Bytewise(out: Bytes): (ps: seq<Piece>)
    ensures ValidPieces(ps) && |ps| == |out|
  {
    seq(|out|, i requires 0 <= i < |out| => Piece(false, [out[i]], [], 0))
  }

  lemma {:induction false} OutOfBytewise(out: Bytes)
    ensures Out(Bytewise(out)) == out
  {
    if out != [] {
      OutOfBytewise(out[1..]);
      assert Bytewise(out)[1..] == Bytewise(out[1..]);
      assert out == [out[0]] + out[1..];
    }
  }

  lemma {:induction false} OutAppend(a: seq<Piece>, b: seq<Piece>)
    ensures Out(a + b) == Out(a) + Out(b)
  {
    if a == [] {
      assert a + b == b;
    } else {
      assert (a + b)[1..] == a[1..] + b;
      OutAppend(a[1..], b);
    }
  }

  /** The first blank line ends within the header bound. */
  predicate EarlyBlankLine(out: Bytes) {
    HasBlankLine(out) && FindTerminator(out).value + 4 <= MAX_HEADER_BYTES
  }

  lemma BlankLineInPart(out: Bytes, part: Bytes)
    requires EarlyBlankLine(out) && part <= out && MAX_HEADER_BYTES <= |part|
    ensures HasBlankLine(part)
  {
    var k := FindTerminator(out).value;
    assert part[k..k + 4] == out[k..k + 4];
    assert BlankLineAt(part, k);
  }

  lemma EarlyHeaderFits(ps: seq<Piece>)
    requires EarlyBlankLine(Out(ps))
    ensures HeaderFits([], ps)
  {
    hide FindTerminator, HasBlankLine, Out;
    var out := Out(ps);
    assert [] + out == out;
    forall j | 0 <= j <= |ps| ensures HasBlankLine([] + Out(ps[..j])) || |[] + Out(ps[..j])| < MAX_HEADER_BYTES {
      var part := Out(ps[..j]);
      assert [] + part == part;
      OutAppend(ps[..j], ps[j..]);
      assert ps[..j] + ps[j..] == ps;
      assert part <= out;
      if |part| >= MAX_HEADER_BYTES {
        BlankLineInPart(out, part);
      }
    }
  }

  lemma LateHeaderFailsBytewise(out: Bytes)
    requires !EarlyBlankLine(out)
    ensures !HeaderFits([], Bytewise(out))
  {
    var ps := Bytewise(out);
    OutOfBytewise(out);
    assert [] + Out(ps) == out;
    if HasBlankLine(out) {
      var part := out[..MAX_HEADER_BYTES];
      assert ps[..MAX_HEADER_BYTES] == Bytewise(part);
      OutOfBytewise(part);
      assert [] + Out(ps[..MAX_HEADER_BYTES]) == part;
      assert part + out[MAX_HEADER_BYTES..] == out;
      TerminatorStays(part, out[MAX_HEADER_BYTES..]);
    }
  }

  /** A header is read however it is cut into records exactly when its blank line ends within the bound. */
  lemma EverySplitIsReadExactlyWhenEarly(out: Bytes)
    ensures (forall ps :: ValidPieces(ps) && Out(ps) == out ==> HeaderFits([], ps)) <==>
            EarlyBlankLine(out)
  {
    hide EarlyBlankLine, HeaderFits;
    if EarlyBlankLine(out) {
      forall ps | ValidPieces(ps) && Out(ps) == out ensures HeaderFits([], ps) {
        EarlyHeaderFits(ps);
      }
    } else {
      LateHeaderFailsBytewise(out);
      OutOfBytewise(out);
    }
  }

  /** The longest a header can get: one byte short of the bound, and then one full record. */
  const LONGEST_HEADER: nat := MAX_HEADER_BYTES - 1 + 0xFFFF

  /** The first blank line ends within what some cut lets the client hold. */
  predicate ReachableBlankLine(out: Bytes) {
    HasBlankLine(out) && FindTerminator(out).value + 4 <= LONGEST_HEADER
  }

  lemma {:induction false} FittingHeaderIsReachable(held: Bytes, ps: seq<Piece>)
    requires ValidPieces(ps) && HeaderFits(held, ps) && !HasBlankLine(held)
    ensures ReachableBlankLine(held + Out(ps))
    decreases |ps|
  {
    hide FindTerminator, HeaderFits;
    if ps == [] {
      HeaderFitsAlone(held);
    } else {
      HeaderFitsStep(held, ps);
      var next := held + Shown(ps[0]);
      assert next + Out(ps[1..]) == held + Out(ps);
      if HasBlankLine(next) {
        TerminatorStays(next, Out(ps[1..]));
        assert FindTerminator(next).value + 4 <= |next| by {
          TerminatorInside(next);
        }
      } else {
        FittingHeaderIsReachable(next, ps[1..]);
      }
    }
  }

  lemma HeaderFitsAlone(held: Bytes)
    ensures HeaderFits(held, []) ==> HasBlankLine(held)
  {
    assert held + Out([]) == held;
  }

  lemma TerminatorInside(b: Bytes)
    requires HasBlankLine(b)
    ensures FindTerminator(b).value + 4 <= |b|
  {
  }

  /** The kindest cut: as much as may be held without the blank line, then the rest of the header. */
  function KindestCut(out: Bytes, end: nat): (ps: seq<Piece>)
    requires end <= |out| && end <= LONGEST_HEADER
    ensures ValidPieces(ps)
  {
    var cut := Min(end, 0xFFFF);
    [Piece(false, out[..cut], [], 0), Piece(false, out[cut..end], [], 0)] + Bytewise(out[end..])
  }

  lemma OutOfKindestCut(out: Bytes, end: nat, j: nat)
    requires end <= |out| && end <= LONGEST_HEADER && j <= |KindestCut(out, end)|
    ensures Out(KindestCut(out, end)) == out
    ensures j == 1 ==> |Out(KindestCut(out, end)[..j])| <= 0xFFFF
    ensures j >= 2 ==> out[..end] <= Out(KindestCut(out, end)[..j])
  {
    var ps, cut := KindestCut(out, end), Min(end, 0xFFFF);
    var front, tail := ps[..2], ps[2..];
    assert front[0].content == out[..cut] && front[1].content == out[cut..end];
    var second := front[1..];
    assert second[0] == front[1] && second[1..] == [];
    assert Out(second) == out[cut..end] + Out([]);
    assert Out(front) == out[..cut] + Out(second);
    assert Out(front) == out[..end];
    assert tail == Bytewise(out[end..]);
    OutOfBytewise(out[end..]);
    OutAppend(front, tail);
    assert front + tail == ps && out[..end] + out[end..] == out;
    if j == 1 {
      assert ps[..1] == [ps[0]] && [ps[0]][1..] == [];
      assert Out(ps[..1]) == out[..cut] + [];
    } else if j >= 2 {
      OutAppend(front, tail[..j - 2]);
      assert ps[..j] == front + tail[..j - 2];
    }
  }

  lemma KindestCutFits(out: Bytes)
    requires ReachableBlankLine(out)
    ensures HeaderFits([], KindestCut(out, FindTerminator(out).value + 4))
  {
    hide KindestCut, Out, FirstFrom;
    var k := FindTerminator(out).value;
    var end := k + 4;
    var ps := KindestCut(out, end);
    OutOfKindestCut(out, end, 0);
    assert [] + out == out;
    assert BlankLineAt(out[..end], k) by {
      assert out[..end][k..k + 4] == out[k..k + 4];
    }
    forall j | 0 <= j <= |ps| ensures HasBlankLine([] + Out(ps[..j])) || |[] + Out(ps[..j])| < MAX_HEADER_BYTES {
      var part := Out(ps[..j]);
      assert [] + part == part;
      OutOfKindestCut(out, end, j);
      if j == 0 {
        NothingOut(ps);
      } else if j >= 2 {
        TerminatorStays(out[..end], part[end..]);
        assert out[..end] + part[end..] == part;
      }
    }
  }

  lemma NothingOut(ps: seq<Piece>)
    ensures Out(ps[..0]) == []
  {
  }

  /** Some cut lets a header through exactly when its blank line ends within one bufferful and one record. */
  lemma SomeSplitIsReadExactlyWhenReachable(out: Bytes)
    ensures (exists ps :: ValidPieces(ps) && Out(ps) == out && HeaderFits([], ps)) <==> ReachableBlankLine(out)
  {
    hide ReachableBlankLine, HeaderFits, KindestCut;
    if ps :| ValidPieces(ps) && Out(ps) == out && HeaderFits([], ps) {
      assert [] + out == out;
      FittingHeaderIsReachable([], ps);
    }
    if ReachableBlankLine(out) {
      KindestCutFits(out);
      ReachableEnd(out);
      OutOfKindestCut(out, FindTerminator(out).value + 4, 0);
    }
  }

  lemma ReachableEnd(out: Bytes)
    requires ReachableBlankLine(out)
    ensures HasBlankLine(out) && FindTerminator(out).value + 4 <= |out| && FindTerminator(out).value + 4 <= LONGEST_HEADER
  {
  }

  /** So whether a header is read depends on its cut exactly for the ends between the two bounds. */
  lemma CutDecidesExactlyBetween(out: Bytes)
    ensures (&& (exists ps :: ValidPieces(ps) && Out(ps) == out && HeaderFits([], ps))
             && (exists ps :: ValidPieces(ps) && Out(ps) == out && !HeaderFits([], ps))) <==>
            ReachableBlankLine(out) && !EarlyBlankLine(out)
  {
    hide ReachableBlankLine, EarlyBlankLine, HeaderFits;
    SomeSplitIsReadExactlyWhenReachable(out);
    EverySplitIsReadExactlyWhenEarly(out);
  }

  /** What a client that starts fresh and captures diagnostics gets. */
  lemma Demultiplexed(ps: seq<Piece>, id: RequestId, end: Bytes)
    requires ValidPieces(ps) && NormalEnd(end, id)
    requires EarlyBlankLine(Out(ps))
    ensures Exchanged(Encode(ps, id) + end, id, true, [], [])
         == Split(Out(ps), Diagnostics(ps)[..Min(|Diagnostics(ps)|, MAX_STDERR_BYTES)])
  {
    hide Exchanged, HeaderFits, NormalEnd, FindTerminator, Split;
    EarlyHeaderFits(ps);
    ExchangeOf(ps, id, true, [], [], end);
    assert [] + Out(ps) == Out(ps);
    var d := Diagnostics(ps);
    assert [] + d[..Min(|d|, MAX_STDERR_BYTES)] == d[..Min(|d|, MAX_STDERR_BYTES)];
  }

  /**
   The client's calls in order: the header, then chunks until there are none.  No chunk
   is empty, and joined they are what `Exchanged` says.
   */
  method ReadWhole(client: Client) returns (r: Exchange)
    requires client.pending == [] && !client.finished
    modifies client
    ensures r == Exchanged(old(client.input), client.id, client.capture, old(client.stderr), [])
    ensures r.Whole? ==> client.finished && client.stderr == r.stderr
  {
    hide Receive, FindTerminator;
    var block := client.ReadResponseHeader();
    if block.Err? {
      return Failed(block.error);
    }
    ghost var whole := Remaining(client.pending, client.input, client.id, client.capture, client.stderr);
    var body: Bytes := [];
    while !client.finished
      invariant client.finished ==> whole == Body(body, client.stderr)
      invariant !client.finished ==>
                  Extends(whole, body, Remaining(client.pending, client.input, client.id, client.capture, client.stderr))
      decreases if client.finished then 0 else 1, |client.pending| + |client.input|
    {
      var chunk := client.ReadBodyChunk();
      if chunk.Err? {
        return Failed(chunk.error);
      }
      if chunk.value.Some? {
        body := body + chunk.value.value;
      }
    }
    return Whole(block.value, body, client.stderr);
  }

  /** What was collected so far and what is still to be read make up the whole body, or the failure to come. */
  ghost predicate Extends(whole: BodyRead, body: Bytes, left: BodyRead) {
    match (whole, left)
    case (Body(all, last), Body(bytes, end)) => all == body + bytes && last == end
    case (NoBody(a), NoBody(b)) => a == b
    case _ => false
  }
}
