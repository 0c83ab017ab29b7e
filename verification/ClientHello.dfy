/**
 The ClientHello parser, which reads a handshake message where its records lie.

 `Cursor` walks the wire in place.  Its meaning is the logical byte stream ahead
 of it: the payload of every complete handshake record, and what reading one
 byte past that payload answers.
 */
module ClientHello {
  import opened Wire

  // ----- The reference: a plain parser over the concatenated payload -----

  /** Why a parse stopped: more input is needed, or this is not a ClientHello. */
  datatype ParseError = More(size: nat) | Declined

  /** Payload bytes, and the answer to reading past them. */
  datatype Stream = Stream(bytes: Bytes, stop: ParseError)

  /** The payload of the records that start at `pos`. */
  function Records(wire: Bytes, pos: nat): Stream
    requires pos <= |wire|
    decreases |wire| - pos
  {
    if |wire| < pos + 5 then
      Stream([], More(pos + 5))
    else if wire[pos] != 22 || wire[pos + 1] != 3 then
      Stream([], Declined)
    else
      var end := pos + 5 + U16(wire[pos + 3], wire[pos + 4]);
      if |wire| < end then
        Stream([], More(end))
      else
        var rest := Records(wire, end);
        Stream(wire[pos + 5..end] + rest.bytes, rest.stop)
  }

  /** What the parser publishes: the name, and the validated protocol list. */
  datatype Metadata = Metadata(sni: Option<Bytes>, alpn: Option<Bytes>)

  datatype Verdict = NeedMore(size: nat) | NotTls | Tls(hello: Metadata)

  /** The verdict on a payload held in one piece. */
  function PlainVerdict(s: Stream): Verdict {
    if s.bytes == [] then StopVerdict(s.stop)
    else if s.bytes[0] != 1 then NotTls
    else if |s.bytes| < 4 then StopVerdict(s.stop)
    else
      var length := s.bytes[1] * 65536 + U16(s.bytes[2], s.bytes[3]);
      if |s.bytes| < 4 + length then StopVerdict(s.stop)
      else
        match PlainBody(s.bytes[4..4 + length])
        case None => NotTls
        case Some(hello) => Tls(hello)
  }

  function StopVerdict(stop: ParseError): Verdict {
    match stop
    case More(size) => NeedMore(size)
    case Declined => NotTls
  }

  /** The ClientHello body, with every length in hand. */
  function PlainBody(b: Bytes): (r: Option<Metadata>)
    ensures r.Some? ==> ValidMetadata(r.value)
  {
    if |b| < 35 || b[34] > 32 || |b| < 35 + b[34] then None
    else PlainCiphers(b[35 + b[34]..])
  }

  function PlainCiphers(b: Bytes): (r: Option<Metadata>)
    ensures r.Some? ==> ValidMetadata(r.value)
  {
    if |b| < 2 then None
    else
      var ciphers := U16(b[0], b[1]);
      if ciphers == 0 || ciphers % 2 != 0 || |b| < 2 + ciphers then None
      else PlainCompression(b[2 + ciphers..])
  }

  function PlainCompression(b: Bytes): (r: Option<Metadata>)
    ensures r.Some? ==> ValidMetadata(r.value)
  {
    if b == [] || b[0] == 0 || |b| - 1 < b[0] then None
    else PlainTail(b[1 + b[0]..])
  }

  function PlainTail(b: Bytes): (r: Option<Metadata>)
    ensures r.Some? ==> ValidMetadata(r.value)
  {
    if b == [] then Some(Metadata(None, None))
    else if |b| < 2 || U16(b[0], b[1]) != |b| - 2 then None
    else PlainExtensions(b[2..], Metadata(None, None))
  }

  /** Extensions in order; `seen` holds what the earlier ones carried. */
  function PlainExtensions(b: Bytes, seen: Metadata): (r: Option<Metadata>)
    ensures ValidMetadata(seen) && r.Some? ==> ValidMetadata(r.value)
    decreases |b|
  {
    if b == [] then Some(seen)
    else if |b| < 4 then None
    else
      var length := U16(b[2], b[3]);
      if |b| < 4 + length then None
      else
        match PlainExtension(U16(b[0], b[1]), b[4..4 + length], seen)
        case None => None
        case Some(next) => PlainExtensions(b[4 + length..], next)
  }

  /** One extension: server_name (0), ALPN (16), or one this parser skips. */
  function PlainExtension(kind: nat, body: Bytes, seen: Metadata): Option<Metadata> {
    if kind == 0 then
      if seen.sni.Some? then None
      else
        match PlainSni(body)
        case None => None
        case Some(name) => Some(seen.(sni := Some(name)))
    else if kind == 16 then
      if seen.alpn.Some? then None
      else
        match PlainAlpn(body)
        case None => None
        case Some(list) => Some(seen.(alpn := Some(list)))
    else
      Some(seen)
  }

  function PlainSni(b: Bytes): Option<Bytes> {
    if |b| < 5 || U16(b[0], b[1]) != |b| - 2 || b[2] != 0 then None
    else if U16(b[3], b[4]) == 0 || U16(b[3], b[4]) != |b| - 5 then None
    else Some(b[5..])
  }

  function PlainAlpn(b: Bytes): Option<Bytes> {
    if |b| < 3 || U16(b[0], b[1]) != |b| - 2 || !ProtocolList(b[2..]) then None
    else Some(b[2..])
  }

  /** A list of length-prefixed, non-empty protocol names. */
  predicate ProtocolList(b: Bytes) {
    b == [] || (b[0] != 0 && 1 + b[0] <= |b| && ProtocolList(b[1 + b[0]..]))
  }

  function Protocols(b: Bytes): seq<Bytes>
    requires ProtocolList(b)
  {
    if b == [] then [] else [b[1..1 + b[0]]] + Protocols(b[1 + b[0]..])
  }

  predicate ValidMetadata(m: Metadata) {
    m.alpn.Some? ==> ProtocolList(m.alpn.value)
  }

  /** The verdict on any wire input. */
  function Classified(wire: Bytes): (v: Verdict)
    ensures v.Tls? ==> ValidMetadata(v.hello)
  {
    if wire != [] && wire[0] != 22 then NotTls else PlainVerdict(Records(wire, 0))
  }

  function Lower(b: byte): byte {
    if 65 <= b <= 90 then b + 32 else b
  }

  predicate SameIgnoringCase(a: Bytes, b: Bytes) {
    |a| == |b| && forall i :: 0 <= i < |a| ==> Lower(a[i]) == Lower(b[i])
  }

  predicate MetadataMatchesSni(m: Metadata, name: Bytes) {
    m.sni.Some? && SameIgnoringCase(m.sni.value, name)
  }

  predicate MetadataOffersAlpn(m: Metadata, protocol: Bytes)
    requires ValidMetadata(m)
  {
    m.alpn.Some? && protocol in Protocols(m.alpn.value)
  }

  // ----- The cursor -----

  function Drop(s: Stream, n: nat): Stream
    requires n <= |s.bytes|
  {
    Stream(s.bytes[n..], s.stop)
  }

  datatype Parsed<T> = Ok(value: T) | Err(error: ParseError) {
    predicate IsFailure() {
      Err?
    }
    function PropagateFailure<U>(): Parsed<U>
      requires Err?
    {
      Err(error)
    }
    function Extract(): T
      requires Ok?
    {
      value
    }
  }

  /** A position in the wire that shows at most `left` bytes of record payload, wherever the records end. */
  class Cursor {
    const wire: Bytes
    var pos: nat
    var end: nat
    var left: nat

    ghost predicate Valid()
      reads this
    {
      pos <= end <= |wire|
    }

    /** The stream ahead: the rest of this record, then the later records. */
    ghost function Ahead(): Stream
      requires Valid()
      reads this
    {
      var rest := Records(wire, end);
      Stream(wire[pos..end] + rest.bytes, rest.stop)
    }

    /** The whole field is already on the wire. */
    ghost predicate Complete()
      reads this
    {
      Valid() && left <= |Ahead().bytes|
    }

    ghost function Content(): (b: Bytes)
      requires Complete()
      reads this
      ensures |b| == left
    {
      Ahead().bytes[..left]
    }

    constructor (wire: Bytes, pos: nat, end: nat, left: nat)
      ensures this.wire == wire && this.pos == pos && this.end == end && this.left == left
    {
      this.wire := wire;
      this.pos := pos;
      this.end := end;
      this.left := left;
    }

    /** Steps over record headers and empty records until a byte is ahead. */
    method Record() returns (r: Parsed<()>)
      requires Valid()
      modifies this
      ensures left == old(left)
      ensures r.Ok? <==> old(Ahead()).bytes != []
      ensures r.Ok? ==> Valid() && pos < end && Ahead() == old(Ahead())
      ensures r.Err? ==> r.error == old(Ahead()).stop
    {
      while pos == end
        invariant Valid() && left == old(left)
        invariant Ahead() == old(Ahead())
        decreases |wire| - pos, end - pos
      {
        ghost var ahead := Ahead();
        var headerEnd := pos + 5;
        if |wire| < headerEnd {
          return Err(More(headerEnd));
        }
        if wire[pos] != 22 || wire[pos + 1] != 3 {
          return Err(Declined);
        }
        end := headerEnd + U16(wire[pos + 3], wire[pos + 4]);
        if |wire| < end {
          return Err(More(end));
        }
        pos := headerEnd;
        assert Ahead().bytes == ahead.bytes;
      }
      return Ok(());
    }

    method Byte() returns (r: Parsed<byte>)
      requires Valid()
      modifies this
      ensures old(left) == 0 ==> r == Err(Declined)
      ensures old(left) != 0 && old(Ahead()).bytes == [] ==> r == Err(old(Ahead()).stop)
      ensures old(left) != 0 && old(Ahead()).bytes != [] ==>
                && r == Ok(old(Ahead()).bytes[0])
                && Valid()
                && Ahead() == Drop(old(Ahead()), 1)
                && left == old(left) - 1
      ensures old(Complete()) && old(left) != 0 ==>
                && Complete()
                && r == Ok(old(Content())[0]) && Content() == old(Content())[1..]
    {
      if left == 0 {
        return Err(Declined);
      }
      var _ :- Record();
      ghost var ahead := Ahead();
      var value := wire[pos];
      pos := pos + 1;
      left := left - 1;
      assert Ahead().bytes == ahead.bytes[1..];
      return Ok(value);
    }

    /** Consumes what is left of one record, at most `wanted` bytes. */
    method Advance(wanted: nat) returns (r: Parsed<nat>)
      requires Valid() && 0 < wanted <= left
      modifies this
      ensures r.Ok? <==> old(Ahead()).bytes != []
      ensures r.Err? ==> r.error == old(Ahead()).stop
      ensures r.Ok? ==>
                && 0 < r.value <= wanted && r.value <= |old(Ahead()).bytes|
                && Valid()
                && Ahead() == Drop(old(Ahead()), r.value)
                && left == old(left) - r.value
    {
      var _ :- Record();
      ghost var ahead := Ahead();
      var amount := Min(wanted, end - pos);
      pos := pos + amount;
      left := left - amount;
      assert Ahead().bytes == ahead.bytes[amount..];
      return Ok(amount);
    }

    /** Splits off a field of `length` bytes; no payload byte is copied. */
    method Take(length: nat) returns (r: Parsed<Cursor>)
      requires Valid()
      modifies this
      ensures length > old(left) ==> r == Err(Declined)
      ensures length <= old(left) && |old(Ahead()).bytes| < length ==> r == Err(old(Ahead()).stop)
      ensures length <= old(left) && length <= |old(Ahead()).bytes| ==>
                && r.Ok?
                && fresh(r.value) && r.value.Valid()
                && r.value.Ahead() == old(Ahead()) && r.value.left == length
                && Valid()
                && Ahead() == Drop(old(Ahead()), length)
                && left == old(left) - length
      ensures old(Complete()) && length <= old(left) ==>
                && r.Ok? && r.value.Complete() && r.value.Content() == old(Content())[..length]
                && Complete() && Content() == old(Content())[length..]
    {
      if length > left {
        return Err(Declined);
      }
      ghost var ahead := Ahead();
      var field := new Cursor(wire, pos, end, length);
      var remaining := length;
      while remaining > 0
        invariant Valid() && 0 <= remaining <= length && left == old(left) - (length - remaining)
        invariant length - remaining <= |ahead.bytes|
        invariant Ahead() == Drop(ahead, length - remaining)
        invariant field.Valid() && field.Ahead() == ahead && field.left == length
        decreases remaining
      {
        var amount :- Advance(remaining);
        remaining := remaining - amount;
      }
      return Ok(field);
    }

    method Word() returns (r: Parsed<nat>)
      requires Valid()
      modifies this
      ensures old(left) < 2 ==> r == Err(if old(left) == 0 || old(Ahead()).bytes != [] then Declined else old(Ahead()).stop)
      ensures old(left) >= 2 && |old(Ahead()).bytes| < 2 ==> r == Err(old(Ahead()).stop)
      ensures old(left) >= 2 && |old(Ahead()).bytes| >= 2 ==>
                && r == Ok(U16(old(Ahead()).bytes[0], old(Ahead()).bytes[1]))
                && Valid() && Ahead() == Drop(old(Ahead()), 2) && left == old(left) - 2
      ensures old(Complete()) && old(left) < 2 ==> r == Err(Declined)
      ensures old(Complete()) && old(left) >= 2 ==>
                && r == Ok(U16(old(Content())[0], old(Content())[1]))
                && Complete() && Content() == old(Content())[2..]
    {
      var high :- Byte();
      var low :- Byte();
      return Ok(U16(high, low));
    }

    /** Compares the field with `bytes`; the receiver itself does not move. */
    method Equals(bytes: Bytes, insensitive: bool) returns (same: bool)
      requires Complete()
      ensures same == if insensitive then SameIgnoringCase(Content(), bytes) else Content() == bytes
    {
      if left != |bytes| {
        return false;
      }
      ghost var content := Content();
      var copy := new Cursor(wire, pos, end, left);
      for i := 0 to |bytes|
        invariant copy.Complete() && copy.Content() == content[i..]
        invariant forall k :: 0 <= k < i ==>
                    if insensitive then Lower(content[k]) == Lower(bytes[k]) else content[k] == bytes[k]
      {
        var actual := copy.Byte();
        if actual.Err? || (if insensitive then Lower(actual.value) != Lower(bytes[i]) else actual.value != bytes[i]) {
          return false;
        }
      }
      return true;
    }
  }

  /** A validated hello: its fields are cursors into the original wire. */
  datatype Hello = Hello(sni: Option<Cursor>, alpn: Option<Cursor>)

  ghost predicate Describes(h: Hello, m: Metadata)
    reads if h.sni.Some? then {h.sni.value} else {}, if h.alpn.Some? then {h.alpn.value} else {}
  {
    && h.sni.Some? == m.sni.Some?
    && (h.sni.Some? ==> h.sni.value.Complete() && h.sni.value.Content() == m.sni.value)
    && h.alpn.Some? == m.alpn.Some?
    && (h.alpn.Some? ==> h.alpn.value.Complete() && h.alpn.value.Content() == m.alpn.value)
  }

  /** The server_name extension (section 3 of RFC 6066). */
  method ParseSni(extension: Cursor) returns (r: Parsed<Cursor>)
    requires extension.Complete()
    modifies extension
    ensures match PlainSni(old(extension.Content()))
            case None => r == Err(Declined)
            case Some(name) => r.Ok? && fresh(r.value) && r.value.Complete() && r.value.Content() == name
  {
    hide Records;
    ghost var b := extension.Content();
    var length :- extension.Word();
    if length == 0 || length != extension.left {
      return Err(Declined);
    }
    // The list is not empty, so its type byte is there.
    var kind := extension.Byte();
    if kind != Ok(0) {
      return Err(Declined);
    }
    var name :- extension.Word();
    if name == 0 || name != extension.left {
      return Err(Declined);
    }
    assert extension.Content() == b[5..];
    r := extension.Take(name);
  }

  /** The ALPN extension (section 3.1 of RFC 7301): every name is checked before the list is published. */
  method ParseAlpn(extension: Cursor) returns (r: Parsed<Cursor>)
    requires extension.Complete()
    modifies extension
    ensures match PlainAlpn(old(extension.Content()))
            case None => r == Err(Declined)
            case Some(list) => r.Ok? && fresh(r.value) && r.value.Complete() && r.value.Content() == list
  {
    hide Records;
    var length :- extension.Word();
    if length == 0 || length != extension.left {
      return Err(Declined);
    }
    ghost var list := extension.Content();
    var alpn := new Cursor(extension.wire, extension.pos, extension.end, extension.left);
    while extension.left > 0
      invariant extension.Complete()
      invariant ProtocolList(extension.Content()) == ProtocolList(list)
      invariant alpn.Complete() && alpn.Content() == list
      decreases extension.left
    {
      var size := extension.Byte();
      if size == Ok(0) {
        return Err(Declined);
      }
      var _ :- extension.Take(size.value);
    }
    return Ok(alpn);
  }

  /** One extension, added to what the earlier ones carried. */
  method ParseExtension(kind: nat, extension: Cursor, sofar: Hello, ghost seen: Metadata) returns (r: Parsed<Hello>)
    requires extension.Complete() && Describes(sofar, seen)
    requires sofar.sni != Some(extension) && sofar.alpn != Some(extension)
    modifies extension
    ensures match PlainExtension(kind, old(extension.Content()), seen)
            case None => r == Err(Declined)
            case Some(next) =>
              && r.Ok? && Describes(r.value, next)
              && (r.value.sni == sofar.sni || (r.value.sni.Some? && fresh(r.value.sni.value)))
              && (r.value.alpn == sofar.alpn || (r.value.alpn.Some? && fresh(r.value.alpn.value)))
  {
    hide Records, PlainSni, PlainAlpn;
    if kind == 0 {
      if sofar.sni.Some? {
        return Err(Declined);
      }
      var name :- ParseSni(extension);
      return Ok(sofar.(sni := Some(name)));
    }
    if kind == 16 {
      if sofar.alpn.Some? {
        return Err(Declined);
      }
      var list :- ParseAlpn(extension);
      return Ok(sofar.(alpn := Some(list)));
    }
    return Ok(sofar);
  }

  /** The extension header and a cursor over the extension's body. */
  method NextExtension(hello: Cursor) returns (r: Parsed<(nat, Cursor)>)
    requires hello.Complete()
    modifies hello
    ensures var b := old(hello.Content());
            if |b| < 4 || |b| < 4 + U16(b[2], b[3]) then r == Err(Declined)
            else
              var length := U16(b[2], b[3]);
              && r.Ok? && r.value.0 == U16(b[0], b[1])
              && fresh(r.value.1) && r.value.1.Complete() && r.value.1.Content() == b[4..4 + length]
              && hello.Complete() && hello.Content() == b[4 + length..]
  {
    hide Records;
    ghost var b := hello.Content();
    var kind :- hello.Word();
    ghost var c := hello.Content();
    var length :- hello.Word();
    assert hello.Content() == c[2..] == b[4..];
    var extension :- hello.Take(length);
    return Ok((kind, extension));
  }

  method ParseExtensions(hello: Cursor) returns (r: Parsed<Hello>)
    requires hello.Complete()
    modifies hello
    ensures match PlainExtensions(old(hello.Content()), Metadata(None, None))
            case None => r == Err(Declined)
            case Some(m) => r.Ok? && Describes(r.value, m)
  {
    hide Records;
    var metadata := Hello(None, None);
    ghost var seen := Metadata(None, None);
    while hello.left > 0
      invariant hello.Complete()
      invariant Describes(metadata, seen)
      invariant metadata.sni.Some? ==> fresh(metadata.sni.value)
      invariant metadata.alpn.Some? ==> fresh(metadata.alpn.value)
      invariant metadata.sni != Some(hello) && metadata.alpn != Some(hello)
      invariant PlainExtensions(hello.Content(), seen)
             == PlainExtensions(old(hello.Content()), Metadata(None, None))
      decreases hello.left
    {
      ghost var b := hello.Content();
      var next :- NextExtension(hello);
      ghost var after := PlainExtension(next.0, next.1.Content(), seen);
      metadata :- ParseExtension(next.0, next.1, metadata, seen);
      seen := after.value;
    }
    return Ok(metadata);
  }

  method ParseBody(hello: Cursor) returns (r: Parsed<Hello>)
    requires hello.Complete()
    modifies hello
    ensures match PlainBody(old(hello.Content()))
            case None => r == Err(Declined)
            case Some(m) => r.Ok? && Describes(r.value, m)
  {
    hide Records, PlainCiphers;
    ghost var b := hello.Content();
    var _ :- hello.Take(34);
    var session :- hello.Byte();
    if session > 32 {
      return Err(Declined);
    }
    assert hello.Content() == b[35..];
    var _ :- hello.Take(session);
    assert hello.Content() == b[35 + session..];
    r := ParseCiphers(hello);
  }

  method ParseCiphers(hello: Cursor) returns (r: Parsed<Hello>)
    requires hello.Complete()
    modifies hello
    ensures match PlainCiphers(old(hello.Content()))
            case None => r == Err(Declined)
            case Some(m) => r.Ok? && Describes(r.value, m)
  {
    hide Records, PlainCompression;
    ghost var b := hello.Content();
    var ciphers :- hello.Word();
    if ciphers == 0 || ciphers % 2 != 0 {
      return Err(Declined);
    }
    var _ :- hello.Take(ciphers);
    assert hello.Content() == b[2 + ciphers..];
    r := ParseCompression(hello);
  }

  method ParseCompression(hello: Cursor) returns (r: Parsed<Hello>)
    requires hello.Complete()
    modifies hello
    ensures match PlainCompression(old(hello.Content()))
            case None => r == Err(Declined)
            case Some(m) => r.Ok? && Describes(r.value, m)
  {
    hide Records, PlainTail;
    ghost var b := hello.Content();
    var compression :- hello.Byte();
    if compression == 0 {
      return Err(Declined);
    }
    var _ :- hello.Take(compression);
    assert hello.Content() == b[1 + compression as int..];
    r := ParseTail(hello);
  }

  method ParseTail(hello: Cursor) returns (r: Parsed<Hello>)
    requires hello.Complete()
    modifies hello
    ensures match PlainTail(old(hello.Content()))
            case None => r == Err(Declined)
            case Some(m) => r.Ok? && Describes(r.value, m)
  {
    hide Records, PlainExtensions;
    if hello.left == 0 {
      return Ok(Hello(None, None));
    }
    var extensions :- hello.Word();
    if extensions != hello.left {
      return Err(Declined);
    }
    r := ParseExtensions(hello);
  }

  /** The handshake header: message type 1 and a 24-bit length, then the whole declared body. */
  method ParseHandshake(input: Cursor) returns (r: Parsed<Cursor>)
    requires input.Valid() && input.left == U64_MAX
    modifies input
    ensures r.Ok? ==> r.value.Complete() && fresh(r.value)
    ensures PlainVerdict(old(input.Ahead())) ==
            match r
            case Err(stop) => StopVerdict(stop)
            case Ok(hello) =>
              match PlainBody(hello.Content())
              case None => NotTls
              case Some(m) => Tls(m)
  {
    hide Records, PlainBody;
    ghost var s := input.Ahead();
    var kind :- input.Byte();
    if kind != 1 {
      return Err(Declined);
    }
    var high :- input.Byte();
    assert input.Ahead() == Drop(s, 2);
    var low :- input.Word();
    assert input.Ahead() == Drop(s, 4);
    var length := high as nat * 65536 + low;
    input.left := length;
    // The whole declared handshake is present before any field is read.
    var hello :- input.Take(length);
    assert hello.Content() == s.bytes[4..4 + length];
    return Ok(hello);
  }

  method Parse(wire: Bytes) returns (r: Parsed<Hello>)
    ensures match PlainVerdict(Records(wire, 0))
            case NeedMore(size) => r == Err(More(size))
            case NotTls => r == Err(Declined)
            case Tls(m) => r.Ok? && Describes(r.value, m)
  {
    hide Records, PlainBody;
    var input := new Cursor(wire, 0, 0, U64_MAX);
    assert input.Ahead() == Records(wire, 0);
    var hello :- ParseHandshake(input);
    r := ParseBody(hello);
  }

  /** The classification a caller sees; a hello exposes cursors, never bytes of its own. */
  datatype Classification = Wait(size: nat) | Plain | Secure(hello: Hello)

  method Classify(wire: Bytes) returns (c: Classification)
    ensures match Classified(wire)
            case NeedMore(size) => c == Wait(size)
            case NotTls => c == Plain
            case Tls(m) => c.Secure? && Describes(c.hello, m)
  {
    if wire != [] && wire[0] != 22 {
      return Plain;
    }
    var hello := Parse(wire);
    match hello {
      case Ok(h) => return Secure(h);
      case Err(More(size)) => return Wait(size);
      case Err(Declined) => return Plain;
    }
  }

  method MatchesSni(h: Hello, name: Bytes, ghost m: Metadata) returns (yes: bool)
    requires Describes(h, m)
    ensures yes == MetadataMatchesSni(m, name)
  {
    if h.sni.None? {
      return false;
    }
    yes := h.sni.value.Equals(name, true);
  }

  method NextProtocol(protocols: Cursor) returns (r: Parsed<Cursor>)
    requires protocols.Complete() && protocols.left > 0 && ProtocolList(protocols.Content())
    modifies protocols
    ensures r.Ok? && fresh(r.value) && r.value.Complete()
    ensures protocols.Complete() && ProtocolList(protocols.Content()) && protocols.left < old(protocols.left)
    ensures Protocols(old(protocols.Content())) == [r.value.Content()] + Protocols(protocols.Content())
  {
    hide Records;
    ghost var b := protocols.Content();
    var length := protocols.Byte();
    r := protocols.Take(length.value);
    assert protocols.Content() == b[1 + length.value as int..];
    assert r.value.Content() == b[1..1 + length.value as int];
  }

  /** Membership in the offered list, name by name. */
  method OffersAlpn(h: Hello, protocol: Bytes, ghost m: Metadata) returns (yes: bool)
    requires Describes(h, m) && ValidMetadata(m)
    ensures yes == MetadataOffersAlpn(m, protocol)
  {
    if h.alpn.None? {
      return false;
    }
    var alpn := h.alpn.value;
    var protocols := new Cursor(alpn.wire, alpn.pos, alpn.end, alpn.left);
    while protocols.left > 0
      invariant protocols.Complete() && ProtocolList(protocols.Content())
      invariant protocol in Protocols(protocols.Content()) <==> protocol in Protocols(m.alpn.value)
      decreases protocols.left
    {
      var field := NextProtocol(protocols);
      var same := field.value.Equals(protocol, false);
      if same {
        return true;
      }
    }
    return false;
  }
}
