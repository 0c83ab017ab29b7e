/**
 The FastCGI client: record framing (section 3.3 of the FastCGI Specification),
 name-value packing (section 3.4) and the demultiplexing of a responder's streams
 (sections 5.2, 5.3 and 5.5).
 */
module FastCgi {
  import opened Wire

  const MAX_RECORD_CONTENT: nat := 65_500
  const MAX_HEADER_BYTES: nat := 65_536
  const MAX_STDERR_BYTES: nat := 65_536
  const TERMINATOR: Bytes := [13, 10, 13, 10]

  datatype RecordType = BeginRequest | AbortRequest | EndRequest | Params | Stdin | Stdout | Stderr

  function Code(t: RecordType): (c: byte)
    ensures TypeOf(c) == Some(t)
  {
    match t
    case BeginRequest => 1
    case AbortRequest => 2
    case EndRequest => 3
    case Params => 4
    case Stdin => 5
    case Stdout => 6
    case Stderr => 7
  }

  /** The record types of section 8 of the FastCGI Specification; each number is one type, and back. */
  lemma TypesAreNumbered(c: byte)
    ensures TypeOf(c) == if 1 <= c <= 7
                         then Some([BeginRequest, AbortRequest, EndRequest, Params, Stdin, Stdout, Stderr][c - 1])
                         else None
    ensures TypeOf(c).Some? ==> Code(TypeOf(c).value) == c
  {
  }

  function TypeOf(c: byte): Option<RecordType> {
    if c == 1 then Some(BeginRequest)
    else if c == 2 then Some(AbortRequest)
    else if c == 3 then Some(EndRequest)
    else if c == 4 then Some(Params)
    else if c == 5 then Some(Stdin)
    else if c == 6 then Some(Stdout)
    else if c == 7 then Some(Stderr)
    else None
  }

  datatype Error = Io | Protocol | Rejected(status: nat) | ParamsTooLarge

  type RequestId = n: nat | n < 0x1_0000

  // ----- Records -----

  /** What the first bytes of a connection hold: a record and the bytes after it, or why there is none. */
  datatype Framed = Record(kind: RecordType, content: Bytes, rest: Bytes) | Unframed(error: Error)

  function ParseRecord(input: Bytes, id: RequestId): (f: Framed)
    ensures f.Record? ==> |f.rest| < |input|
  {
    if |input| < 8 then Unframed(Io)
    else if input[0] != 1 then Unframed(Protocol)
    else
      match TypeOf(input[1])
      case None => Unframed(Protocol)
      case Some(kind) =>
        if U16(input[2], input[3]) != id then Unframed(Protocol)
        else
          var length, padding := U16(input[4], input[5]), input[6] as nat;
          if |input| < 8 + length + padding then Unframed(Io)
          else Record(kind, input[8..8 + length], input[8 + length + padding..])
  }

  /** A record with any padding a sender may choose. */
  function PaddedFrame(kind: RecordType, id: RequestId, content: Bytes, padding: Bytes, reserved: byte): Bytes
    requires |content| < 0x1_0000 && |padding| < 256
  {
    [1, Code(kind)] + Be16(id) + Be16(|content|) + [|padding|, reserved] + content + padding
  }

  /** The client's own records are padded with zeros to a multiple of eight. */
  function Frame(kind: RecordType, id: RequestId, content: Bytes): (f: Bytes)
    requires |content| <= MAX_RECORD_CONTENT
    ensures |f| % 8 == 0
  {
    var padding := (8 - |content| % 8) % 8;
    PaddedFrame(kind, id, content, seq(padding, _ => 0), 0)
  }

  lemma FrameRoundTrip(kind: RecordType, id: RequestId, content: Bytes, padding: Bytes, reserved: byte, rest: Bytes)
    requires |content| < 0x1_0000 && |padding| < 256
    ensures ParseRecord(PaddedFrame(kind, id, content, padding, reserved) + rest, id) == Record(kind, content, rest)
  {
    var frame := PaddedFrame(kind, id, content, padding, reserved);
    var input := frame + rest;
    var n := |content|;
    assert forall i :: 0 <= i < |frame| ==> input[i] == frame[i];
    assert frame[..8] == [1, Code(kind)] + Be16(id) + Be16(n) + [|padding|, reserved];
    assert frame[0] == 1 && frame[1] == Code(kind) && frame[2] == id / 256 && frame[3] == id % 256;
    assert frame[4] == n / 256 && frame[5] == n % 256 && frame[6] == |padding|;
    assert frame == frame[..8] + content + padding;
    assert input[8..8 + n] == content;
    assert input[8 + n + |padding|..] == rest;
  }

  /** A record is read exactly where a frame for this request begins; its padding and reserved byte do not matter. */
  lemma RecordsAreFrames(input: Bytes, id: RequestId, kind: RecordType, content: Bytes, rest: Bytes)
    ensures ParseRecord(input, id) == Record(kind, content, rest) <==>
            exists padding: Bytes, reserved: byte ::
              |content| < 0x1_0000 && |padding| < 256 && input == PaddedFrame(kind, id, content, padding, reserved) + rest
  {
    hide ParseRecord, PaddedFrame;
    if ParseRecord(input, id) == Record(kind, content, rest) {
      var padding, reserved := FrameFound(input, id);
    }
    forall padding: Bytes, reserved: byte |
      |content| < 0x1_0000 && |padding| < 256 && input == PaddedFrame(kind, id, content, padding, reserved) + rest
      ensures ParseRecord(input, id) == Record(kind, content, rest)
    {
      FrameRoundTrip(kind, id, content, padding, reserved, rest);
    }
  }

  lemma CutInFour(b: Bytes, i: nat, j: nat, k: nat)
    requires i <= j <= k <= |b|
    ensures b == b[..i] + b[i..j] + b[j..k] + b[k..]
  {
  }

  lemma RecordFacts(input: Bytes, id: RequestId)
    requires ParseRecord(input, id).Record?
    ensures var r := ParseRecord(input, id);
            && |input| >= 8 && input[0] == 1 && TypeOf(input[1]) == Some(r.kind) && U16(input[2], input[3]) == id
            && var length, pad := U16(input[4], input[5]), input[6] as nat;
               && 8 + length + pad <= |input| && r.content == input[8..8 + length] && r.rest == input[8 + length + pad..]
  {
  }

  lemma FrameFound(input: Bytes, id: RequestId) returns (padding: Bytes, reserved: byte)
    requires ParseRecord(input, id).Record?
    ensures var r := ParseRecord(input, id);
            && |r.content| < 0x1_0000 && |padding| < 256
            && input == PaddedFrame(r.kind, id, r.content, padding, reserved) + r.rest
  {
    hide ParseRecord, TypeOf, Code, U16, Be16;
    RecordFacts(input, id);
    var r := ParseRecord(input, id);
    var length, pad := U16(input[4], input[5]), input[6] as nat;
    padding, reserved := input[8 + length..8 + length + pad], input[7];
    HeaderBytes(input, id, r.kind);
    CutInFour(input, 8, 8 + length, 8 + length + pad);
    assert PaddedFrame(r.kind, id, r.content, padding, reserved) == input[..8] + r.content + padding;
  }

  lemma HeaderBytes(input: Bytes, id: RequestId, kind: RecordType)
    requires |input| >= 8 && input[0] == 1 && TypeOf(input[1]) == Some(kind) && U16(input[2], input[3]) == id
    ensures input[..8] == [1, Code(kind)] + Be16(id) + Be16(U16(input[4], input[5])) + [input[6], input[7]]
  {
    TypesAreNumbered(input[1]);
  }

  /** One record of two bytes, padded to sixteen, and lengths of one byte and of four. */
  lemma OnTheWire()
    ensures Frame(Stdin, 1, [104, 105]) == [1, 5, 0, 1, 0, 2, 6, 0, 104, 105, 0, 0, 0, 0, 0, 0]
    ensures SizeBytes(127) == [127] && SizeBytes(128) == [128, 0, 0, 128] && SizeBytes(66_000) == [128, 1, 1, 208]
  {
    assert seq(6, _ => 0) == [0, 0, 0, 0, 0, 0];
  }

  // ----- Parameters -----

  datatype Pair = Pair(name: Bytes, value: Bytes)

  function ParameterSize(name: nat, value: nat): nat {
    Min(name + value + (if name > 127 then 4 else 1) + (if value > 127 then 4 else 1), U64_MAX)
  }

  /** Short lengths take one byte; longer ones keep 31 bits in four, marked by the high bit. */
  function SizeBytes(size: nat): Bytes {
    if size > 127 then
      var low := size % 0x8000_0000;
      [128 + low / 0x100_0000, low / 0x1_0000 % 256, low / 256 % 256, low % 256]
    else [size]
  }

  function PairBytes(p: Pair): Bytes {
    SizeBytes(|p.name|) + SizeBytes(|p.value|) + p.name + p.value
  }

  function PairsBytes(ps: seq<Pair>): Bytes {
    if ps == [] then [] else PairBytes(ps[0]) + PairsBytes(ps[1..])
  }

  predicate Fits(p: Pair) {
    ParameterSize(|p.name|, |p.value|) <= MAX_RECORD_CONTENT
  }

  /** The reader of section 3.4: a length, if the bytes for it are there. */
  function DecodeSize(b: Bytes): Option<(nat, Bytes)> {
    if b == [] then None
    else if b[0] < 128 then Some((b[0] as nat, b[1..]))
    else if |b| < 4 then None
    else Some(((b[0] as nat - 128) * 0x100_0000 + b[1] as nat * 0x1_0000 + b[2] as nat * 256 + b[3] as nat, b[4..]))
  }

  function DecodePair(b: Bytes): (r: Option<(Pair, Bytes)>)
    ensures r.Some? ==> |r.value.1| < |b|
  {
    match DecodeSize(b)
    case None => None
    case Some((name, after)) =>
      match DecodeSize(after)
      case None => None
      case Some((value, body)) =>
        if |body| < name + value then None
        else Some((Pair(body[..name], body[name..name + value]), body[name + value..]))
  }

  /** A whole record's worth of pairs, as a responder that looks at one record at a time reads them. */
  function DecodePairs(b: Bytes): Option<seq<Pair>>
    decreases |b|
  {
    if b == [] then Some([])
    else
      match DecodePair(b)
      case None => None
      case Some((p, rest)) =>
        match DecodePairs(rest)
        case None => None
        case Some(ps) => Some([p] + ps)
  }

  lemma SizeDigits(size: nat)
    ensures size == (size / 0x100_0000) * 0x100_0000 + (size / 0x1_0000 % 256) * 0x1_0000 + (size / 256 % 256) * 256 + size % 256
  {
    var a := size / 256;
    var b := a / 256;
    assert b == size / 0x1_0000 && b / 256 == size / 0x100_0000;
    assert size == a * 256 + size % 256 && a == b * 256 + a % 256 && b == (b / 256) * 256 + b % 256;
  }

  lemma SizeRoundTrip(size: nat, rest: Bytes)
    requires size < 0x8000_0000
    ensures DecodeSize(SizeBytes(size) + rest) == Some((size, rest))
  {
    var b := SizeBytes(size) + rest;
    if size > 127 {
      LongSize(size, rest);
    } else {
      assert b[1..] == rest;
    }
  }

  lemma LongSize(size: nat, rest: Bytes)
    requires 127 < size < 0x8000_0000
    ensures DecodeSize(SizeBytes(size) + rest) == Some((size, rest))
  {
    var b := SizeBytes(size) + rest;
    LowBits(size);
    assert b[0] == 128 + size / 0x100_0000 && b[1] == size / 0x1_0000 % 256 && b[2] == size / 256 % 256 && b[3] == size % 256;
    SizeDigits(size);
    assert b[4..] == rest;
  }

  lemma LowBits(size: nat)
    requires size < 0x8000_0000
    ensures size % 0x8000_0000 == size && size / 0x100_0000 < 128
  {
  }

  lemma PairRoundTrip(p: Pair, rest: Bytes)
    requires Fits(p)
    ensures DecodePair(PairBytes(p) + rest) == Some((p, rest))
    ensures |PairBytes(p)| == ParameterSize(|p.name|, |p.value|)
  {
    var n, v := |p.name|, |p.value|;
    var body := p.name + p.value + rest;
    assert PairBytes(p) + rest == SizeBytes(n) + (SizeBytes(v) + body);
    SizeRoundTrip(n, SizeBytes(v) + body);
    SizeRoundTrip(v, body);
    assert body[..n] == p.name && body[n..n + v] == p.value && body[n + v..] == rest;
  }

  lemma PairIsSomething(p: Pair)
    ensures PairBytes(p) != []
  {
  }

  lemma {:induction false} PairsRoundTrip(ps: seq<Pair>)
    requires forall i :: 0 <= i < |ps| ==> Fits(ps[i])
    ensures DecodePairs(PairsBytes(ps)) == Some(ps)
  {
    hide PairBytes, DecodePair, Fits;
    if ps != [] {
      PairsRoundTrip(ps[1..]);
      PairRoundTrip(ps[0], PairsBytes(ps[1..]));
      PairIsSomething(ps[0]);
      assert [ps[0]] + ps[1..] == ps;
    }
  }

  lemma {:induction false} PairsBytesAppend(ps: seq<Pair>, p: Pair)
    ensures PairsBytes(ps + [p]) == PairsBytes(ps) + PairBytes(p)
  {
    if ps == [] {
      assert [p][1..] == [];
      assert ps + [p] == [p];
    } else {
      assert (ps + [p])[1..] == ps[1..] + [p];
      PairsBytesAppend(ps[1..], p);
    }
  }

  // ----- Receiving -----

  function Captured(capture: bool, stderr: Bytes, content: Bytes): (r: Bytes)
    ensures |stderr| <= MAX_STDERR_BYTES ==> |r| <= MAX_STDERR_BYTES
  {
    if capture && |stderr| < MAX_STDERR_BYTES then
      stderr + content[..Min(|content|, MAX_STDERR_BYTES - |stderr|)]
    else stderr
  }

  datatype Received =
    | Chunk(content: Bytes, rest: Bytes, stderr: Bytes)
    | Ended(rest: Bytes, stderr: Bytes)
    | Stopped(error: Error)

  /** The error an END_REQUEST record carries, if it is one. */
  function EndError(content: Bytes): Option<Error> {
    if |content| != 8 || content[4] > 3 then Some(Protocol)
    else if content[4] != 0 then Some(Rejected(content[4] as nat))
    else None
  }

  /** The next STDOUT record, past any number of STDERR records. */
  function Receive(input: Bytes, id: RequestId, capture: bool, stderr: Bytes): (r: Received)
    ensures r.Chunk? ==> |r.rest| < |input|
    decreases |input|
  {
    match ParseRecord(input, id)
    case Unframed(error) => Stopped(error)
    case Record(kind, content, rest) =>
      match kind
      case Stderr => Receive(rest, id, capture, Captured(capture, stderr, content))
      case Stdout => Chunk(content, rest, stderr)
      case EndRequest =>
        (match EndError(content)
         case Some(error) => Stopped(error)
         case None => Ended(rest, stderr))
      case _ => Stopped(Protocol)
  }

  predicate BlankLineAt(b: Bytes, i: nat) {
    i + 4 <= |b| && b[i..i + 4] == TERMINATOR
  }

  /** The offset of the first blank line. */
  function FindTerminator(b: Bytes): (r: Option<nat>)
    ensures r.Some? ==>
              && BlankLineAt(b, r.value)
              && forall i :: 0 <= i < r.value ==> !BlankLineAt(b, i)
    ensures r.None? ==> forall i :: 0 <= i < |b| ==> !BlankLineAt(b, i)
  {
    FirstFrom(b, 0)
  }

  function FirstFrom(b: Bytes, from: nat): (r: Option<nat>)
    ensures r.Some? ==>
              && from <= r.value && BlankLineAt(b, r.value)
              && forall i :: from <= i < r.value ==> !BlankLineAt(b, i)
    ensures r.None? ==> forall i :: from <= i < |b| ==> !BlankLineAt(b, i)
    decreases |b| - from
  {
    if |b| < from + 4 then None
    else if BlankLineAt(b, from) then Some(from)
    else FirstFrom(b, from + 1)
  }

  datatype HeaderRead =
    | Header(block: Bytes, pending: Bytes, rest: Bytes, stderr: Bytes)
    | NoHeader(error: Error)

  /** The header block after `held` bytes of it, and whatever body bytes shared its last record. */
  function ReadHeader(input: Bytes, id: RequestId, capture: bool, stderr: Bytes, held: Bytes): HeaderRead
    decreases |input|
  {
    match FindTerminator(held)
    case Some(k) => Header(held[..k + 4], held[k + 4..], input, stderr)
    case None =>
      if |held| >= MAX_HEADER_BYTES then NoHeader(Protocol)
      else
        match Receive(input, id, capture, stderr)
        case Stopped(error) => NoHeader(error)
        case Ended(_, _) => NoHeader(Protocol)
        case Chunk(content, rest, after) => ReadHeader(rest, id, capture, after, held + content)
  }

  /** Every body chunk to the end of the response, joined. */
  datatype BodyRead = Body(bytes: Bytes, stderr: Bytes) | NoBody(error: Error)

  function ReadBody(input: Bytes, id: RequestId, capture: bool, stderr: Bytes): BodyRead
    decreases |input|
  {
    match Receive(input, id, capture, stderr)
    case Stopped(error) => NoBody(error)
    case Ended(_, after) => Body([], after)
    case Chunk(content, rest, after) =>
      match ReadBody(rest, id, capture, after)
      case NoBody(error) => NoBody(error)
      case Body(bytes, last) => Body(content + bytes, last)
  }

  /** The body still to come when `pending` was read already. */
  function Remaining(pending: Bytes, input: Bytes, id: RequestId, capture: bool, stderr: Bytes): BodyRead {
    match ReadBody(input, id, capture, stderr)
    case NoBody(error) => NoBody(error)
    case Body(bytes, last) => Body(pending + bytes, last)
  }

  datatype Result<T> = Ok(value: T) | Err(error: Error) {
    predicate IsFailure() {
      Err?
    }
    function PropagateFailure<U>(): Result<U>
      requires Err?
    {
      Err(error)
    }
    function Extract(): T
      requires Ok?
    {
      value
    }
  }

  predicate WithinCeiling(contents: seq<Bytes>) {
    forall i :: 0 <= i < |contents| ==> |contents[i]| <= MAX_RECORD_CONTENT
  }

  /** Records of one type, framed one after another. */
  function Frames(kind: RecordType, id: RequestId, contents: seq<Bytes>): Bytes
    requires WithinCeiling(contents)
  {
    if contents == [] then []
    else
      var last := |contents| - 1;
      Frames(kind, id, contents[..last]) + Frame(kind, id, contents[last])
  }

  /** Non-empty records within the ceiling, each decoding on its own into its group of pairs. */
  ghost predicate Packed(records: seq<Bytes>, groups: seq<seq<Pair>>) {
    && |records| == |groups|
    && forall i :: 0 <= i < |records| ==>
         0 < |records[i]| <= MAX_RECORD_CONTENT && DecodePairs(records[i]) == Some(groups[i])
  }

  /** A record being filled. */
  ghost predicate Batch(record: Bytes, group: seq<Pair>) {
    && |record| <= MAX_RECORD_CONTENT && record == PairsBytes(group)
    && forall i :: 0 <= i < |group| ==> Fits(group[i])
  }

  lemma EmptyPack(id: RequestId)
    ensures Packed([], []) && Batch([], []) && WithinCeiling([]) && Frames(Params, id, []) == []
    ensures Concat<Pair>([]) == []
  {
  }

  lemma PackOne(id: RequestId, records: seq<Bytes>, groups: seq<seq<Pair>>, record: Bytes, group: seq<Pair>)
    requires Packed(records, groups) && WithinCeiling(records) && Batch(record, group) && record != []
    ensures Packed(records + [record], groups + [group]) && WithinCeiling(records + [record])
    ensures Concat(groups + [group]) == Concat(groups) + group
    ensures Frames(Params, id, records + [record]) == Frames(Params, id, records) + Frame(Params, id, record)
  {
    hide Frame, DecodePairs;
    PairsRoundTrip(group);
    ConcatAppend(groups, [group]);
    assert Concat([group]) == group;
    assert (records + [record])[..|records|] == records;
  }

  // ----- What the responder makes of them -----

  /** Reads PARAMS records up to the empty one, decoding each on its own. */
  function ReadParams(input: Bytes, id: RequestId): Option<(seq<Pair>, Bytes)>
    decreases |input|
  {
    match ParseRecord(input, id)
    case Unframed(_) => None
    case Record(kind, content, rest) =>
      if !kind.Params? then None
      else if content == [] then Some(([], rest))
      else
        match (DecodePairs(content), ReadParams(rest, id))
        case (Some(front), Some((back, after))) => Some((front + back, after))
        case _ => None
  }

  lemma ReadFrame(kind: RecordType, id: RequestId, content: Bytes, rest: Bytes)
    requires |content| <= MAX_RECORD_CONTENT
    ensures ParseRecord(Frame(kind, id, content) + rest, id) == Record(kind, content, rest)
  {
    hide ParseRecord, PaddedFrame;
    FrameRoundTrip(kind, id, content, seq((8 - |content| % 8) % 8, _ => 0), 0, rest);
  }

  lemma {:induction false} FramesFirst(kind: RecordType, id: RequestId, contents: seq<Bytes>)
    requires WithinCeiling(contents) && contents != []
    ensures Frames(kind, id, contents) == Frame(kind, id, contents[0]) + Frames(kind, id, contents[1..])
    decreases |contents|
  {
    hide Frame;
    var last := |contents| - 1;
    if last > 0 {
      FramesFirst(kind, id, contents[..last]);
      assert contents[1..][..last - 1] == contents[..last][1..];
      Assoc(Frame(kind, id, contents[0]), Frames(kind, id, contents[..last][1..]), Frame(kind, id, contents[last]));
    }
  }

  /** Packed records, followed by the empty one, are read back as the pairs of all groups. */
  lemma {:induction false} ParamsArrive(id: RequestId, records: seq<Bytes>, groups: seq<seq<Pair>>, rest: Bytes)
    requires Packed(records, groups) && WithinCeiling(records)
    ensures ReadParams(Frames(Params, id, records) + Frame(Params, id, []) + rest, id) == Some((Concat(groups), rest))
    decreases |records|
  {
    hide Frame, DecodePairs, ParseRecord;
    if records == [] {
      assert Frames(Params, id, records) + Frame(Params, id, []) + rest == Frame(Params, id, []) + rest;
      ReadFrame(Params, id, [], rest);
    } else {
      var after := Frames(Params, id, records[1..]) + Frame(Params, id, []) + rest;
      FramesFirst(Params, id, records);
      assert Frames(Params, id, records) + Frame(Params, id, []) + rest == Frame(Params, id, records[0]) + after;
      ReadFrame(Params, id, records[0], after);
      ParamsArrive(id, records[1..], groups[1..], rest);
    }
  }

  lemma ParamsSent(before: Bytes, id: RequestId, records: seq<Bytes>, groups: seq<seq<Pair>>)
    requires Packed(records, groups) && WithinCeiling(records)
    ensures var sent := Frames(Params, id, records) + Frame(Params, id, []);
            && before + Frames(Params, id, records) + Frame(Params, id, []) == before + sent
            && ReadParams((before + sent)[|before|..], id) == Some((Concat(groups), []))
  {
    hide Frame, Frames, ReadParams;
    var sent := Frames(Params, id, records) + Frame(Params, id, []);
    ParamsArrive(id, records, groups, []);
    assert (before + sent)[|before|..] == sent && sent + [] == sent;
  }

  lemma BatchOne(record: Bytes, group: seq<Pair>, p: Pair)
    requires Batch(record, group) && Fits(p)
    requires |record| + ParameterSize(|p.name|, |p.value|) <= MAX_RECORD_CONTENT
    ensures Batch(record + PairBytes(p), group + [p]) && PairBytes(p) != []
  {
    PairsBytesAppend(group, p);
    PairRoundTrip(p, []);
  }

  lemma NoParts(id: RequestId)
    ensures WithinCeiling([]) && Frames(Stdin, id, []) == [] && Concat<byte>([]) == []
  {
  }

  lemma AppendPart(id: RequestId, parts: seq<Bytes>, part: Bytes)
    requires WithinCeiling(parts) && |part| <= MAX_RECORD_CONTENT
    ensures WithinCeiling(parts + [part]) && Concat(parts + [part]) == Concat(parts) + part
    ensures Frames(Stdin, id, parts + [part]) == Frames(Stdin, id, parts) + Frame(Stdin, id, part)
  {
    hide Frame;
    ConcatAppend(parts, [part]);
    assert Concat([part]) == part;
    assert (parts + [part])[..|parts|] == parts;
  }

  // ----- The client -----

  class Client {
    const id: RequestId
    const capture: bool
    var input: Bytes      // what the responder sent and was not read yet
    var output: Bytes     // what was written to it
    var stderr: Bytes
    var pending: Bytes
    var finished: bool

    constructor (id: RequestId, capture: bool, input: Bytes)
      ensures this.id == id && this.capture == capture && this.input == input
      ensures output == [] && stderr == [] && pending == [] && !finished
    {
      this.id, this.capture, this.input := id, capture, input;
      output, stderr, pending, finished := [], [], [], false;
    }

    method WriteRecord(kind: RecordType, content: Bytes) returns (r: Result<()>)
      modifies `output
      ensures |content| > MAX_RECORD_CONTENT ==> r == Err(Protocol) && output == old(output)
      ensures |content| <= MAX_RECORD_CONTENT ==> r == Ok(()) && output == old(output) + Frame(kind, id, content)
    {
      if |content| > MAX_RECORD_CONTENT {
        return Err(Protocol);
      }
      var padding := (8 - |content| % 8) % 8;
      var frame: Bytes := [1, Code(kind)];
      frame := frame + [id / 256, id % 256];
      frame := frame + [|content| / 256, |content| % 256];
      frame := frame + [padding, 0];
      frame := frame + content;
      frame := frame + seq(padding, _ => 0);
      assert frame == Frame(kind, id, content);
      output := output + frame;
      return Ok(());
    }

    /**
     Sends the environment.  If every pair fits a record, each PARAMS record decodes on
     its own into whole pairs, together they are the environment in order, and the
     only empty record is the last; otherwise nothing is written at all.
     */
    method SendParams(params: seq<Pair>) returns (r: Result<()>, ghost records: seq<Bytes>, ghost groups: seq<seq<Pair>>)
      modifies `output
      ensures r.Ok? <==> forall i :: 0 <= i < |params| ==> Fits(params[i])
      ensures r.Err? ==> r.error == ParamsTooLarge && output == old(output)
      ensures r.Ok? ==>
                && Packed(records, groups) && WithinCeiling(records) && Concat(groups) == params
                && output == old(output) + (Frames(Params, id, records) + Frame(Params, id, []))
                && ReadParams(output[|old(output)|..], id) == Some((params, []))
    {
      hide Frame, Frames, PairsBytes, DecodePairs, SizeBytes, Concat, Packed, WithinCeiling, ReadParams;
      records, groups := [], [];
      if exists i :: 0 <= i < |params| && ParameterSize(|params[i].name|, |params[i].value|) > MAX_RECORD_CONTENT {
        return Err(ParamsTooLarge), records, groups;
      }
      var record: Bytes := [];
      ghost var group: seq<Pair> := [];
      EmptyPack(id);
      for i := 0 to |params|
        invariant Batch(record, group) && (i > 0 ==> record != [])
        invariant Packed(records, groups) && WithinCeiling(records) && Concat(groups) + group == params[..i]
        invariant output == old(output) + Frames(Params, id, records)
      {
        var p := params[i];
        if |record| + ParameterSize(|p.name|, |p.value|) > MAX_RECORD_CONTENT {
          var _ := WriteRecord(Params, record);
          PackOne(id, records, groups, record, group);
          records, groups := records + [record], groups + [group];
          record, group := [], [];
          EmptyPack(id);
        }
        BatchOne(record, group, p);
        assert params[..i + 1] == params[..i] + [p];
        record := record + (SizeBytes(|p.name|) + SizeBytes(|p.value|) + p.name + p.value);
        group := group + [p];
      }
      assert params[..|params|] == params;
      if record != [] {
        var _ := WriteRecord(Params, record);
        PackOne(id, records, groups, record, group);
        records, groups := records + [record], groups + [group];
      }
      r := WriteRecord(Params, []);
      ParamsSent(old(output), id, records, groups);
    }

    /** Splits a body chunk at the record ceiling; no empty record is written, whatever the chunk. */
    method SendStdin(chunk: Bytes) returns (r: Result<()>, ghost parts: seq<Bytes>)
      modifies `output
      ensures r.Ok? && Concat(parts) == chunk
      ensures WithinCeiling(parts) && [] !in parts
      ensures output == old(output) + Frames(Stdin, id, parts)
    {
      hide Frame, Frames, Concat, WithinCeiling;
      var from := 0;
      parts := [];
      NoParts(id);
      while from < |chunk|
        invariant 0 <= from <= |chunk| && Concat(parts) == chunk[..from]
        invariant WithinCeiling(parts) && [] !in parts
        invariant output == old(output) + Frames(Stdin, id, parts)
      {
        var to := Min(from + MAX_RECORD_CONTENT, |chunk|);
        var part := chunk[from..to];
        var _ := WriteRecord(Stdin, part);
        AppendPart(id, parts, part);
        assert chunk[..from] + part == chunk[..to];
        parts := parts + [part];
        from := to;
      }
      assert chunk[..from] == chunk;
      return Ok(()), parts;
    }

    method ReadRecord() returns (r: Result<(RecordType, Bytes)>)
      modifies `input
      ensures match ParseRecord(old(input), id)
              case Unframed(error) => r == Err(error)
              case Record(kind, content, rest) => r == Ok((kind, content)) && input == rest
    {
      if |input| < 8 {
        return Err(Io);
      }
      var header := input[..8];
      input := input[8..];
      if header[0] != 1 {
        return Err(Protocol);
      }
      var kind := TypeOf(header[1]);
      if kind.None? {
        return Err(Protocol);
      }
      if U16(header[2], header[3]) != id {
        return Err(Protocol);
      }
      var length, padding := U16(header[4], header[5]), header[6] as nat;
      if |input| < length {
        return Err(Io);
      }
      var content := input[..length];
      input := input[length..];
      if |input| < padding {
        return Err(Io);
      }
      input := input[padding..];
      assert content == old(input)[8..8 + length] && input == old(input)[8 + length + padding..];
      return Ok((kind.value, content));
    }

    method ReadStreamRecord() returns (r: Result<Option<Bytes>>)
      modifies `input, `stderr
      ensures match Receive(old(input), id, capture, old(stderr))
              case Stopped(error) => r == Err(error)
              case Ended(rest, after) => r == Ok(None) && input == rest && stderr == after
              case Chunk(content, rest, after) => r == Ok(Some(content)) && input == rest && stderr == after
    {
      while true
        invariant Receive(input, id, capture, stderr) == Receive(old(input), id, capture, old(stderr))
        decreases |input|
      {
        var record :- ReadRecord();
        var (kind, content) := record;
        match kind {
          case Stderr =>
            if capture && |stderr| < MAX_STDERR_BYTES {
              var room := MAX_STDERR_BYTES - |stderr|;
              stderr := stderr + content[..Min(|content|, room)];
            }
          case EndRequest =>
            if |content| != 8 || content[4] > 3 {
              return Err(Protocol);
            }
            if content[4] != 0 {
              return Err(Rejected(content[4] as nat));
            }
            return Ok(None);
          case Stdout =>
            return Ok(Some(content));
          case _ =>
            return Err(Protocol);
        }
      }
    }

    /** Reads up to the blank line; body bytes past it wait in `pending`. */
    method ReadResponseHeader() returns (r: Result<Bytes>)
      modifies `input, `stderr, `pending
      ensures match ReadHeader(old(input), id, capture, old(stderr), [])
              case NoHeader(error) => r == Err(error)
              case Header(block, body, rest, after) =>
                r == Ok(block) && pending == body && input == rest && stderr == after
    {
      var held: Bytes := [];
      while true
        invariant ReadHeader(input, id, capture, stderr, held) == ReadHeader(old(input), id, capture, old(stderr), [])
        decreases |input|
      {
        var offset := FindTerminator(held);
        if offset.Some? {
          pending := held[offset.value + 4..];
          return Ok(held[..offset.value + 4]);
        }
        if |held| >= MAX_HEADER_BYTES {
          return Err(Protocol);
        }
        var content :- ReadStreamRecord();
        if content.None? {
          return Err(Protocol);
        }
        held := held + content.value;
      }
    }

    /** The next non-empty chunk; `None` once the response has ended, and from then on. */
    method ReadBodyChunk() returns (r: Result<Option<Bytes>>)
      modifies `input, `stderr, `pending, `finished
      ensures old(finished) ==> r == Ok(None) && finished && input == old(input) && stderr == old(stderr)
      ensures !old(finished) ==>
                match Remaining(old(pending), old(input), id, capture, old(stderr))
                case NoBody(error) =>
                  r == Err(error) ||
                  (r.Ok? && r.value.Some? && Remaining(pending, input, id, capture, stderr) == NoBody(error))
                case Body(bytes, last) =>
                  r.Ok? &&
                  match r.value
                  case None => finished && bytes == [] && stderr == last
                  case Some(content) =>
                    exists after :: Remaining(pending, input, id, capture, stderr) == Body(after, last) && bytes == content + after
      ensures !old(finished) && r.Ok? && r.value.Some? ==>
                r.value.value != [] && !finished && |pending| + |input| < |old(pending)| + |old(input)|
    {
      hide Receive;
      if finished {
        return Ok(None);
      }
      if pending != [] {
        var taken := pending;
        pending := [];
        ghost var body := ReadBody(input, id, capture, stderr);
        assert body.Body? ==> [] + body.bytes == body.bytes;
        return Ok(Some(taken));
      }
      while true
        invariant ReadBody(input, id, capture, stderr) == ReadBody(old(input), id, capture, old(stderr))
        invariant pending == [] && !finished && |input| <= |old(input)|
        decreases |input|
      {
        ghost var before := ReadBody(input, id, capture, stderr);
        var content :- ReadStreamRecord();
        if content.None? {
          finished := true;
          return Ok(None);
        }
        ghost var after := ReadBody(input, id, capture, stderr);
        if content.value != [] {
          if after.Body? {
            assert [] + before.bytes == before.bytes == content.value + ([] + after.bytes);
          }
          return Ok(content);
        }
        if after.Body? {
          assert [] + after.bytes == after.bytes;
        }
      }
    }
  }
}
