/**
 The ClientHello as a grammar (section 4.1.2 of RFC 8446, section 3 of RFC 6066,
 section 3.1 of RFC 7301), and the proof that the parser accepts exactly its
 sentences and reports exactly what they carry.
 */
module ClientHelloGrammar {
  import opened Wire
  import opened ClientHello
  import opened ClientHelloLaws

  datatype Extension =
    | ServerName(name: Bytes)
    | Alpn(protocols: seq<Bytes>)
    | Other(kind: nat, body: Bytes)

  datatype Message = Message(random: Bytes, session: Bytes, ciphers: Bytes, compression: Bytes,
                             extensions: Option<seq<Extension>>)

  function ProtocolBytes(protocols: seq<Bytes>): Bytes
    requires forall i :: 0 <= i < |protocols| ==> 0 < |protocols[i]| < 256
  {
    if protocols == [] then [] else [|protocols[0]|] + protocols[0] + ProtocolBytes(protocols[1..])
  }

  predicate ValidExtension(e: Extension) {
    match e
    case ServerName(name) => 0 < |name| && |name| + 5 < 0x1_0000
    case Alpn(protocols) =>
      && protocols != []
      && (forall i :: 0 <= i < |protocols| ==> 0 < |protocols[i]| < 256)
      && |ProtocolBytes(protocols)| + 2 < 0x1_0000
    case Other(kind, body) => kind != 0 && kind != 16 && kind < 0x1_0000 && |body| < 0x1_0000
  }

  function Kind(e: Extension): (k: nat)
    ensures ValidExtension(e) ==> k < 0x1_0000
  {
    match e
    case ServerName(_) => 0
    case Alpn(_) => 16
    case Other(kind, _) => kind
  }

  function Body(e: Extension): (b: Bytes)
    requires ValidExtension(e)
    ensures |b| < 0x1_0000
  {
    match e
    case ServerName(name) => Be16(|name| + 3) + [0] + Be16(|name|) + name
    case Alpn(protocols) => Be16(|ProtocolBytes(protocols)|) + ProtocolBytes(protocols)
    case Other(_, body) => body
  }

  function ExtensionBytes(e: Extension): (b: Bytes)
    requires ValidExtension(e)
    ensures |b| == 4 + |Body(e)|
  {
    Be16(Kind(e)) + Be16(|Body(e)|) + Body(e)
  }

  function ExtensionsBytes(es: seq<Extension>): Bytes
    requires forall i :: 0 <= i < |es| ==> ValidExtension(es[i])
  {
    if es == [] then [] else ExtensionBytes(es[0]) + ExtensionsBytes(es[1..])
  }

  /** Adds one extension to `seen`; a second name or a second list is not a sentence. */
  function Collect(e: Extension, seen: Metadata): Option<Metadata>
    requires ValidExtension(e)
  {
    match e
    case ServerName(name) => if seen.sni.Some? then None else Some(seen.(sni := Some(name)))
    case Alpn(protocols) => if seen.alpn.Some? then None else Some(seen.(alpn := Some(ProtocolBytes(protocols))))
    case Other(_, _) => Some(seen)
  }

  function CollectAll(es: seq<Extension>, seen: Metadata): Option<Metadata>
    requires forall i :: 0 <= i < |es| ==> ValidExtension(es[i])
  {
    if es == [] then Some(seen)
    else
      match Collect(es[0], seen)
      case None => None
      case Some(next) => CollectAll(es[1..], next)
  }

  predicate ValidTail(extensions: Option<seq<Extension>>) {
    extensions.Some? ==>
      && (forall i :: 0 <= i < |extensions.value| ==> ValidExtension(extensions.value[i]))
      && |ExtensionsBytes(extensions.value)| < 0x1_0000
      && CollectAll(extensions.value, Metadata(None, None)).Some?
  }

  predicate ValidMessage(m: Message) {
    && |m.random| == 34
    && |m.session| <= 32
    && 0 < |m.ciphers| < 0x1_0000 && |m.ciphers| % 2 == 0
    && 0 < |m.compression| < 256
    && ValidTail(m.extensions)
  }

  function TailBytes(extensions: Option<seq<Extension>>): Bytes
    requires ValidTail(extensions)
  {
    match extensions
    case None => []
    case Some(es) => Be16(|ExtensionsBytes(es)|) + ExtensionsBytes(es)
  }

  function MessageBytes(m: Message): Bytes
    requires ValidMessage(m)
  {
    m.random + ([|m.session|] + m.session
                + (Be16(|m.ciphers|) + m.ciphers
                   + ([|m.compression|] + m.compression + TailBytes(m.extensions))))
  }

  function Carried(m: Message): Metadata
    requires ValidMessage(m)
  {
    match m.extensions
    case None => Metadata(None, None)
    case Some(es) => CollectAll(es, Metadata(None, None)).value
  }

  // ----- Every sentence is accepted -----

  lemma {:induction false} ProtocolsRoundTrip(protocols: seq<Bytes>)
    requires forall i :: 0 <= i < |protocols| ==> 0 < |protocols[i]| < 256
    ensures ProtocolList(ProtocolBytes(protocols)) && Protocols(ProtocolBytes(protocols)) == protocols
  {
    if protocols != [] {
      var b := ProtocolBytes(protocols);
      var size := |protocols[0]|;
      assert b[1..1 + size] == protocols[0] && b[1 + size..] == ProtocolBytes(protocols[1..]);
      ProtocolsRoundTrip(protocols[1..]);
      assert protocols == [protocols[0]] + protocols[1..];
    }
  }

  lemma ExtensionAccepted(e: Extension, seen: Metadata)
    requires ValidExtension(e)
    ensures PlainExtension(Kind(e), Body(e), seen) == Collect(e, seen)
  {
    match e
    case ServerName(name) =>
      assert Body(e)[5..] == name;
    case Alpn(protocols) =>
      ProtocolsRoundTrip(protocols);
      assert Body(e)[2..] == ProtocolBytes(protocols);
    case Other(_, _) =>
  }

  /** The bytes of an extension list, cut after the first. */
  lemma FirstExtension(b: Bytes, kind: nat, body: Bytes, rest: Bytes)
    requires kind < 0x1_0000 && |body| < 0x1_0000 && b == Be16(kind) + Be16(|body|) + body + rest
    ensures |b| >= 4 + |body| && U16(b[0], b[1]) == kind && U16(b[2], b[3]) == |body|
    ensures b[4..4 + |body|] == body && b[4 + |body|..] == rest
  {
  }

  lemma {:induction false} ExtensionsAccepted(es: seq<Extension>, seen: Metadata)
    requires forall i :: 0 <= i < |es| ==> ValidExtension(es[i])
    ensures PlainExtensions(ExtensionsBytes(es), seen) == CollectAll(es, seen)
  {
    hide Body, ValidExtension, Collect, PlainExtension, ProtocolBytes, ProtocolList, Be16, U16;
    if es != [] {
      var b, body, rest := ExtensionsBytes(es), Body(es[0]), ExtensionsBytes(es[1..]);
      FirstExtension(b, Kind(es[0]), body, rest);
      ExtensionAccepted(es[0], seen);
      if Collect(es[0], seen).Some? {
        ExtensionsAccepted(es[1..], Collect(es[0], seen).value);
      }
    }
  }

  lemma TailAccepted(extensions: Option<seq<Extension>>)
    requires ValidTail(extensions)
    ensures PlainTail(TailBytes(extensions)) ==
            Some(if extensions.None? then Metadata(None, None) else CollectAll(extensions.value, Metadata(None, None)).value)
  {
    hide ExtensionsBytes, CollectAll, PlainExtensions;
    if extensions.Some? {
      ExtensionsAccepted(extensions.value, Metadata(None, None));
      assert TailBytes(extensions)[2..] == ExtensionsBytes(extensions.value);
    }
  }

  lemma SentenceAccepted(m: Message)
    requires ValidMessage(m)
    ensures PlainBody(MessageBytes(m)) == Some(Carried(m))
  {
    hide ExtensionsBytes, CollectAll, PlainTail, TailBytes;
    var tail := TailBytes(m.extensions);
    TailAccepted(m.extensions);
    var d := [|m.compression|] + m.compression + tail;
    assert d[1 + |m.compression|..] == tail;
    var c := Be16(|m.ciphers|) + m.ciphers + d;
    assert c[2 + |m.ciphers|..] == d;
    var b := MessageBytes(m);
    assert b[34] == |m.session| && b[35 + |m.session|..] == c;
  }

  // ----- Nothing else is -----

  lemma {:induction false} ProtocolsOfList(b: Bytes)
    requires ProtocolList(b)
    ensures forall i :: 0 <= i < |Protocols(b)| ==> 0 < |Protocols(b)[i]| < 256
    ensures ProtocolBytes(Protocols(b)) == b
    ensures b != [] ==> Protocols(b) != []
  {
    if b != [] {
      var size := b[0] as nat;
      var names := Protocols(b);
      ProtocolsOfList(b[1 + size..]);
      assert names[0] == b[1..1 + size] && names[1..] == Protocols(b[1 + size..]);
      assert b == [b[0]] + b[1..1 + size] + b[1 + size..];
    }
  }

  lemma Be16OfU16(high: byte, low: byte)
    ensures Be16(U16(high, low)) == [high, low]
  {
  }

  lemma ExtensionParsed(kind: nat, body: Bytes, seen: Metadata) returns (e: Extension)
    requires kind < 0x1_0000 && |body| < 0x1_0000 && PlainExtension(kind, body, seen).Some?
    ensures ValidExtension(e) && Kind(e) == kind && Body(e) == body
    ensures Collect(e, seen) == PlainExtension(kind, body, seen)
  {
    if kind == 0 {
      e := ServerName(body[5..]);
      Be16OfU16(body[0], body[1]);
      Be16OfU16(body[3], body[4]);
      assert body == body[..2] + [0] + body[3..5] + body[5..];
    } else if kind == 16 {
      ProtocolsOfList(body[2..]);
      e := Alpn(Protocols(body[2..]));
      Be16OfU16(body[0], body[1]);
      assert body == body[..2] + body[2..];
    } else {
      e := Other(kind, body);
    }
  }

  lemma FirstExtensionBytes(b: Bytes)
    requires |b| >= 4 && |b| >= 4 + U16(b[2], b[3])
    ensures var length := U16(b[2], b[3]);
            b == Be16(U16(b[0], b[1])) + Be16(length) + b[4..4 + length] + b[4 + length..]
  {
    Be16OfU16(b[0], b[1]);
    Be16OfU16(b[2], b[3]);
    var length := U16(b[2], b[3]);
    assert b == [b[0], b[1]] + [b[2], b[3]] + b[4..4 + length] + b[4 + length..];
  }

  lemma {:induction false} ExtensionsParsed(b: Bytes, seen: Metadata) returns (es: seq<Extension>)
    requires PlainExtensions(b, seen).Some?
    ensures forall i :: 0 <= i < |es| ==> ValidExtension(es[i])
    ensures ExtensionsBytes(es) == b && CollectAll(es, seen) == PlainExtensions(b, seen)
    decreases |b|
  {
    hide Body, ValidExtension, Collect, PlainExtension, ProtocolBytes, ProtocolList, Be16, U16;
    es := [];
    if b != [] {
      var length := U16(b[2], b[3]);
      var e := ExtensionParsed(U16(b[0], b[1]), b[4..4 + length], seen);
      var rest := ExtensionsParsed(b[4 + length..], Collect(e, seen).value);
      es := [e] + rest;
      assert es[1..] == rest;
      FirstExtensionBytes(b);
    }
  }

  lemma TailParsed(b: Bytes) returns (extensions: Option<seq<Extension>>)
    requires PlainTail(b).Some?
    ensures ValidTail(extensions) && TailBytes(extensions) == b
  {
    extensions := None;
    if b != [] {
      var es := ExtensionsParsed(b[2..], Metadata(None, None));
      extensions := Some(es);
      Be16OfU16(b[0], b[1]);
      assert b == [b[0], b[1]] + b[2..];
    }
  }

  lemma CompressionParsed(b: Bytes) returns (compression: Bytes, extensions: Option<seq<Extension>>)
    requires PlainCompression(b).Some?
    ensures 0 < |compression| < 256 && ValidTail(extensions)
    ensures [|compression|] + compression + TailBytes(extensions) == b
  {
    hide PlainTail, ValidTail, TailBytes;
    var size := b[0] as nat;
    extensions := TailParsed(b[1 + size..]);
    compression := b[1..1 + size];
    assert b == [b[0]] + compression + b[1 + size..];
  }

  lemma CiphersParsed(b: Bytes) returns (ciphers: Bytes, rest: Bytes)
    requires PlainCiphers(b).Some?
    ensures 0 < |ciphers| < 0x1_0000 && |ciphers| % 2 == 0
    ensures Be16(|ciphers|) + ciphers + rest == b && PlainCompression(rest).Some?
  {
    hide PlainCompression;
    var size := U16(b[0], b[1]);
    ciphers, rest := b[2..2 + size], b[2 + size..];
    Be16OfU16(b[0], b[1]);
  }

  lemma SentenceParsed(b: Bytes) returns (m: Message)
    requires PlainBody(b).Some?
    ensures ValidMessage(m) && MessageBytes(m) == b
  {
    hide ExtensionsBytes, CollectAll, PlainExtensions, PlainCiphers, TailBytes;
    var session := b[34] as nat;
    var ciphers, rest := CiphersParsed(b[35 + session..]);
    var compression, extensions := CompressionParsed(rest);
    m := Message(b[..34], b[35..35 + session], ciphers, compression, extensions);
    assert b == b[..34] + ([b[34]] + b[35..35 + session] + b[35 + session..]);
  }

  /** The parser accepts a body exactly when it is a sentence, and reports what that sentence carries. */
  lemma AcceptsExactlyTheGrammar(b: Bytes, hello: Metadata)
    ensures PlainBody(b) == Some(hello) <==>
            exists m :: ValidMessage(m) && MessageBytes(m) == b && Carried(m) == hello
  {
    hide PlainBody, MessageBytes, ValidMessage, Carried;
    if PlainBody(b).Some? {
      var m := SentenceParsed(b);
      SentenceAccepted(m);
    }
    forall m | ValidMessage(m) && MessageBytes(m) == b
      ensures PlainBody(b) == Some(Carried(m))
    {
      SentenceAccepted(m);
    }
  }

  // ----- The handshake message on the wire -----

  function Be24(n: nat): Bytes
    requires n < 0x100_0000
  {
    [n / 65536, n / 256 % 256, n % 256]
  }

  /** A client_hello handshake message (type 1) with any body. */
  function Envelope(body: Bytes): Bytes
    requires |body| < 0x100_0000
  {
    [1] + Be24(|body|) + body
  }

  lemma MessageFits(m: Message)
    requires ValidMessage(m)
    ensures |MessageBytes(m)| < 0x100_0000
  {
    hide CollectAll, ExtensionsBytes;
  }

  function Handshake(m: Message): Bytes
    requires ValidMessage(m)
  {
    MessageFits(m);
    Envelope(MessageBytes(m))
  }

  lemma Be24Digits(a: byte, b: byte, c: byte)
    ensures a * 65536 + U16(b, c) < 0x100_0000 && Be24(a * 65536 + U16(b, c)) == [a, b, c]
  {
    var m: nat := a * 256 + b;
    var n: nat := m * 256 + c;
    assert n / 256 == m && n % 256 == c;
    assert m / 256 == a && m % 256 == b;
    HighByte(n);
  }

  lemma HighByte(n: nat)
    ensures n / 65536 == n / 256 / 256
  {
  }

  lemma Be24Value(n: nat)
    requires n < 0x100_0000
    ensures Be24(n)[0] * 65536 + U16(Be24(n)[1], Be24(n)[2]) == n
  {
    var m := n / 256;
    HighByte(n);
    assert n == m * 256 + n % 256 && m == m / 256 * 256 + m % 256;
  }

  /** A payload that begins with a whole envelope gets the verdict on its body. */
  lemma EnvelopeVerdict(body: Bytes, rest: Bytes, stop: ParseError)
    requires |body| < 0x100_0000
    ensures PlainVerdict(Stream(Envelope(body) + rest, stop)) ==
            match PlainBody(body)
            case None => NotTls
            case Some(hello) => Tls(hello)
  {
    hide PlainBody;
    var bytes := Envelope(body) + rest;
    Be24Value(|body|);
    assert bytes[0] == 1 && bytes[1] == Be24(|body|)[0] && bytes[2] == Be24(|body|)[1] && bytes[3] == Be24(|body|)[2];
    assert bytes[4..4 + |body|] == body;
  }

  /** A payload with a hello in it begins with the envelope of that hello's body. */
  lemma EnvelopeFound(bytes: Bytes, stop: ParseError) returns (body: Bytes, rest: Bytes)
    requires PlainVerdict(Stream(bytes, stop)).Tls?
    ensures |body| < 0x100_0000 && bytes == Envelope(body) + rest
    ensures PlainBody(body) == Some(PlainVerdict(Stream(bytes, stop)).hello)
  {
    hide PlainBody;
    var length := bytes[1] as nat * 65536 + U16(bytes[2], bytes[3]);
    body, rest := bytes[4..4 + length], bytes[4 + length..];
    Be24Digits(bytes[1], bytes[2], bytes[3]);
    assert bytes == [bytes[0]] + [bytes[1], bytes[2], bytes[3]] + body + rest;
  }

  /** A payload holds a hello exactly when it begins with a handshake message of the grammar that carries it. */
  lemma PayloadAcceptsExactly(bytes: Bytes, stop: ParseError, hello: Metadata)
    ensures PlainVerdict(Stream(bytes, stop)) == Tls(hello) <==>
            exists m, rest :: ValidMessage(m) && bytes == Handshake(m) + rest && Carried(m) == hello
  {
    hide PlainVerdict, PlainBody, MessageBytes, ValidMessage, Carried, Envelope;
    if PlainVerdict(Stream(bytes, stop)) == Tls(hello) {
      var body, rest := EnvelopeFound(bytes, stop);
      AcceptsExactlyTheGrammar(body, hello);
      var m :| ValidMessage(m) && MessageBytes(m) == body && Carried(m) == hello;
      assert bytes == Handshake(m) + rest;
    }
    forall m, rest | ValidMessage(m) && bytes == Handshake(m) + rest && Carried(m) == hello
      ensures PlainVerdict(Stream(bytes, stop)) == Tls(hello)
    {
      MessageFits(m);
      EnvelopeVerdict(MessageBytes(m), rest, stop);
      SentenceAccepted(m);
    }
  }

  /** Records that carry a hello: they hold a handshake message of the grammar, and perhaps more after it. */
  ghost predicate Tells(parts: seq<Fragment>, hello: Metadata) {
    exists m, rest :: ValidMessage(m) && Payload(parts) == Handshake(m) + rest && Carried(m) == hello
  }

  lemma FramedAcceptsExactly(parts: seq<Fragment>, hello: Metadata)
    requires ValidFragments(parts)
    ensures Classified(Framed(parts)) == Tls(hello) <==> Tells(parts, hello)
  {
    hide Classified, Framed, Payload, Handshake, ValidMessage, Carried;
    FramedVerdict(parts);
    PayloadAcceptsExactly(Payload(parts), More(|Framed(parts)| + 5), hello);
  }

  lemma NoRecordHere(wire: Bytes, pos: nat)
    requires pos <= |wire|
    ensures Records(wire, pos).bytes != [] ==>
              && pos + 5 <= |wire| && wire[pos] == 22 && wire[pos + 1] == 3
              && pos + 5 + U16(wire[pos + 3], wire[pos + 4]) <= |wire|
  {
  }

  lemma RecordFound(wire: Bytes, pos: nat, part: Fragment)
    requires |part.payload| < 0x1_0000 && pos + 5 + |part.payload| <= |wire|
    requires wire[pos] == 22 && wire[pos + 1] == 3 && wire[pos + 2] == part.minor
    requires U16(wire[pos + 3], wire[pos + 4]) == |part.payload|
    requires wire[pos + 5..pos + 5 + |part.payload|] == part.payload
    ensures wire[pos..] == RecordBytes(part) + wire[pos + 5 + |part.payload|..]
  {
    assert [wire[pos + 3], wire[pos + 4]] == Be16(|part.payload|);
    assert wire[pos..pos + 5] == [22, 3, part.minor, wire[pos + 3], wire[pos + 4]];
    assert wire[pos..] == wire[pos..pos + 5] + part.payload + wire[pos + 5 + |part.payload|..];
  }

  lemma NothingFramed(after: Bytes)
    ensures Framed([]) + after == after && Payload([]) == []
  {
  }

  lemma FramedFirst(part: Fragment, rest: seq<Fragment>, after: Bytes)
    requires ValidFragments(rest) && |part.payload| < 0x1_0000
    ensures ValidFragments([part] + rest) && Payload([part] + rest) == part.payload + Payload(rest)
    ensures Framed([part] + rest) + after == RecordBytes(part) + (Framed(rest) + after)
  {
    hide RecordBytes;
    assert ([part] + rest)[1..] == rest;
    Assoc(RecordBytes(part), Framed(rest), after);
  }

  /** The complete records at the front of a wire, whose payload is what the parser sees. */
  lemma {:induction false} RecordsFound(wire: Bytes, pos: nat) returns (parts: seq<Fragment>, after: Bytes)
    requires pos <= |wire|
    ensures ValidFragments(parts) && wire[pos..] == Framed(parts) + after && Payload(parts) == Records(wire, pos).bytes
    decreases |wire| - pos
  {
    hide RecordBytes, Framed, Payload, Records, U16;
    NothingFramed(wire[pos..]);
    NoRecordHere(wire, pos);
    parts, after := [], wire[pos..];
    if pos + 5 <= |wire| && wire[pos] == 22 && wire[pos + 1] == 3 {
      var end := pos + 5 + U16(wire[pos + 3], wire[pos + 4]);
      if end <= |wire| {
        var part := Fragment(wire[pos + 2], wire[pos + 5..end]);
        var rest;
        rest, after := RecordsFound(wire, end);
        parts := [part] + rest;
        RecordFound(wire, pos, part);
        RecordAt(wire, pos, part.payload);
        FramedFirst(part, rest, after);
      }
    }
  }

  /**
   The classifier answers Tls exactly for the wires that begin with handshake records whose
   joined payload begins with a client_hello message of the grammar, and reports what it carries.
   */
  lemma ClassifiesExactlyTheGrammar(wire: Bytes, hello: Metadata)
    ensures Classified(wire) == Tls(hello) <==>
            exists parts, after :: ValidFragments(parts) && wire == Framed(parts) + after && Tells(parts, hello)
  {
    hide PlainVerdict, Framed, Payload, Tells;
    if Classified(wire) == Tls(hello) {
      var parts, after := RecordsFound(wire, 0);
      assert wire[0..] == wire;
      FramedVerdict(parts);
      SameHello(Records(wire, 0), More(|Framed(parts)| + 5));
      FramedAcceptsExactly(parts, hello);
    }
    forall parts, after | ValidFragments(parts) && wire == Framed(parts) + after && Tells(parts, hello)
      ensures Classified(wire) == Tls(hello)
    {
      FramedAcceptsExactly(parts, hello);
      VerdictIsFinal(Framed(parts), after);
    }
  }

  lemma SameHello(s: Stream, stop: ParseError)
    requires PlainVerdict(s).Tls?
    ensures PlainVerdict(Stream(s.bytes, stop)) == PlainVerdict(s)
  {
    hide PlainBody, U16;
  }

  /** Records are waited on exactly while their payload is a proper beginning of some client_hello message. */
  lemma WaitsExactlyInsideAnEnvelope(parts: seq<Fragment>)
    requires ValidFragments(parts)
    ensures Classified(Framed(parts)).NeedMore? <==>
            exists body :: |body| < 0x100_0000 && Payload(parts) < Envelope(body)
  {
    hide PlainBody, Framed, Payload;
    FramedVerdict(parts);
    var bytes, stop := Payload(parts), More(|Framed(parts)| + 5);
    if PlainVerdict(Stream(bytes, stop)).NeedMore? {
      var body := EnvelopeBegun(bytes, stop);
    }
    forall body | |body| < 0x100_0000 && bytes < Envelope(body) ensures PlainVerdict(Stream(bytes, stop)).NeedMore? {
      if |bytes| >= 4 {
        Be24Value(|body|);
        assert bytes[0] == Envelope(body)[0] && bytes[1] == Envelope(body)[1];
        assert bytes[2] == Envelope(body)[2] && bytes[3] == Envelope(body)[3];
      }
    }
  }

  lemma EnvelopeBegun(bytes: Bytes, stop: ParseError) returns (body: Bytes)
    requires PlainVerdict(Stream(bytes, stop)).NeedMore?
    ensures |body| < 0x100_0000 && bytes < Envelope(body)
  {
    hide PlainBody;
    if |bytes| < 4 {
      var padded: Bytes := bytes + [1, 0, 0, 0][|bytes|..];
      Be24Digits(padded[1], padded[2], padded[3]);
      body := seq(padded[1] as nat * 65536 + U16(padded[2], padded[3]), _ => 0);
      assert Envelope(body) == padded + body;
    } else {
      Be24Digits(bytes[1], bytes[2], bytes[3]);
      var length := bytes[1] as nat * 65536 + U16(bytes[2], bytes[3]);
      body := bytes[4..] + seq(4 + length - |bytes|, _ => 0);
      assert Envelope(body) == bytes + seq(4 + length - |bytes|, _ => 0);
    }
  }

  // ----- What a hello says -----

  /** The extensions of a message, in order. */
  function Said(m: Message): seq<Extension> {
    if m.extensions.Some? then m.extensions.value else []
  }

  lemma {:induction false} CollectedExactly(es: seq<Extension>, seen: Metadata)
    requires forall i :: 0 <= i < |es| ==> ValidExtension(es[i])
    requires CollectAll(es, seen).Some?
    ensures var all := CollectAll(es, seen).value;
            && (forall name :: all.sni == Some(name) <==> seen.sni == Some(name) || ServerName(name) in es)
            && (forall list :: all.alpn == Some(list) <==>
                  seen.alpn == Some(list) || exists e :: e in es && e.Alpn? && ProtocolBytes(e.protocols) == list)
            && (seen.alpn.Some? ==> forall e :: e in es ==> !e.Alpn?)
    decreases |es|
  {
    hide ProtocolBytes, ValidExtension;
    if es != [] {
      CollectedExactly(es[1..], Collect(es[0], seen).value);
      assert es == [es[0]] + es[1..];
    }
  }

  /** The name a hello carries is the one its server_name extension says. */
  lemma NameCarried(m: Message, wanted: Bytes)
    requires ValidMessage(m)
    ensures MetadataMatchesSni(Carried(m), wanted) <==>
            exists e :: e in Said(m) && e.ServerName? && SameIgnoringCase(e.name, wanted)
  {
    hide CollectAll, SameIgnoringCase, ExtensionsBytes;
    if m.extensions.Some? {
      CollectedExactly(m.extensions.value, Metadata(None, None));
      var all := Carried(m);
      if all.sni.Some? {
        assert ServerName(all.sni.value) in Said(m);
      }
      forall e | e in Said(m) && e.ServerName? ensures all.sni == Some(e.name) {
        assert e == ServerName(e.name);
      }
    }
  }

  /** The protocols a hello offers are the ones its ALPN extension lists. */
  lemma ProtocolOffered(m: Message, wanted: Bytes)
    requires ValidMessage(m)
    ensures ValidMetadata(Carried(m))
    ensures MetadataOffersAlpn(Carried(m), wanted) <==> exists e :: e in Said(m) && e.Alpn? && wanted in e.protocols
  {
    hide CollectAll, ExtensionsBytes, ProtocolBytes, ProtocolList, Protocols, PlainBody;
    SentenceAccepted(m);
    if m.extensions.Some? {
      CollectedExactly(m.extensions.value, Metadata(None, None));
      var all := Carried(m);
      forall e | e in Said(m) && e.Alpn?
        ensures all.alpn == Some(ProtocolBytes(e.protocols)) && Protocols(all.alpn.value) == e.protocols
      {
        assert ValidExtension(e);
        ProtocolsRoundTrip(e.protocols);
      }
    }
  }
}
