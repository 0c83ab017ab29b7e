/**
 Routing told from what the peer is and what its ClientHello says, rather than from bytes.
 */
module SessionLaws {
  import opened Wire
  import opened ClientHello
  import opened ClientHelloLaws
  import opened ClientHelloGrammar
  import opened Session

  /** A block-listed IPv4 address is refused in both forms a socket may report it. */
  lemma MappedPeerIsBlocked(l: Listener, stream: Bytes, b: nat)
    requires b < 0x1_0000_0000 && V4(b) in l.blocked.addresses
    ensures DecisionOf(l, stream, V4(b)) == Denied
    ensures DecisionOf(l, stream, V6(0xFFFF_0000_0000 + b)) == Denied
  {
  }

  /** An address in no blocked range is not refused, in whichever form. */
  lemma OthersAreNotBlocked(l: Listener, stream: Bytes, peer: Address)
    requires peer !in l.blocked.addresses
    requires forall b: nat :: b < 0x1_0000_0000 && peer == V6(0xFFFF_0000_0000 + b) ==> V4(b) !in l.blocked.addresses
    ensures DecisionOf(l, stream, peer) != Denied
  {
    if peer.V6? && peer.bits / 0x1_0000_0000 == 0xFFFF {
      assert peer == V6(0xFFFF_0000_0000 + peer.bits % 0x1_0000_0000);
    }
  }

  /** What one matcher asks, in terms of the extensions the hello was written with. */
  ghost predicate Wants(r: RouteMatcher, m: Message, peer: Address) {
    && (r.peers.texts == [] || ContainsPeer(r.peers, peer))
    && (r.tls.Some? ==>
          && (r.tls.value.sni == [] ||
              exists e, name :: e in Said(m) && e.ServerName? && name in r.tls.value.sni && SameIgnoringCase(e.name, name))
          && (r.tls.value.alpn == [] ||
              exists e, protocol :: e in Said(m) && e.Alpn? && protocol in r.tls.value.alpn && protocol in e.protocols))
  }

  lemma NamesWanted(names: seq<Bytes>, m: Message)
    requires ValidMessage(m)
    ensures (exists i :: 0 <= i < |names| && MetadataMatchesSni(Carried(m), names[i])) <==>
            exists e, name :: e in Said(m) && e.ServerName? && name in names && SameIgnoringCase(e.name, name)
  {
    hide ValidMessage, Carried, SameIgnoringCase, MetadataMatchesSni, Said;
    if i :| 0 <= i < |names| && MetadataMatchesSni(Carried(m), names[i]) {
      NameCarried(m, names[i]);
      var e :| e in Said(m) && e.ServerName? && SameIgnoringCase(e.name, names[i]);
      assert names[i] in names;
    }
    if e, name :| e in Said(m) && e.ServerName? && name in names && SameIgnoringCase(e.name, name) {
      NameCarried(m, name);
      var i :| 0 <= i < |names| && names[i] == name;
      assert MetadataMatchesSni(Carried(m), names[i]);
    }
  }

  lemma ProtocolsWanted(names: seq<Bytes>, m: Message)
    requires ValidMessage(m)
    ensures ValidMetadata(Carried(m))
    ensures (exists i :: 0 <= i < |names| && MetadataOffersAlpn(Carried(m), names[i])) <==>
            exists e, protocol :: e in Said(m) && e.Alpn? && protocol in names && protocol in e.protocols
  {
    hide ValidMessage, Carried, MetadataOffersAlpn, Said, ValidMetadata;
    ProtocolOffered(m, []);
    if i :| 0 <= i < |names| && MetadataOffersAlpn(Carried(m), names[i]) {
      ProtocolOffered(m, names[i]);
      var e :| e in Said(m) && e.Alpn? && names[i] in e.protocols;
      assert names[i] in names;
    }
    if e, protocol :| e in Said(m) && e.Alpn? && protocol in names && protocol in e.protocols {
      ProtocolOffered(m, protocol);
      var i :| 0 <= i < |names| && names[i] == protocol;
      assert MetadataOffersAlpn(Carried(m), names[i]);
    }
  }

  lemma WantsExactly(r: RouteMatcher, m: Message, peer: Address)
    requires ValidMessage(m)
    ensures ValidMetadata(Carried(m))
    ensures MatcherAccepts(r, Tls(Carried(m)), peer) <==> Wants(r, m, peer)
  {
    hide ValidMessage, Carried, SameIgnoringCase, MetadataMatchesSni, MetadataOffersAlpn, Said, ValidMetadata, ContainsPeer;
    ProtocolsWanted([], m);
    if r.tls.Some? {
      NamesWanted(r.tls.value.sni, m);
      ProtocolsWanted(r.tls.value.alpn, m);
    }
  }

  /** A route takes the hello: it has no matcher, or one that wants it. */
  ghost predicate Takes(route: seq<RouteMatcher>, m: Message, peer: Address) {
    route == [] || exists r :: r in route && Wants(r, m, peer)
  }

  lemma TakesExactly(route: seq<RouteMatcher>, m: Message, peer: Address)
    requires ValidMessage(m)
    ensures ValidMetadata(Carried(m))
    ensures RouteAccepts(route, Tls(Carried(m)), peer) <==> Takes(route, m, peer)
  {
    hide ValidMessage, Carried, ValidMetadata, Wants, MatcherAccepts;
    ProtocolOffered(m, []);
    forall r ensures MatcherAccepts(r, Tls(Carried(m)), peer) <==> Wants(r, m, peer) {
      WantsExactly(r, m, peer);
    }
  }

  /**
   From the hello to the route: a ClientHello, cut into records in any way and followed by anything,
   takes the first route that wants what it says, or none if no route does.
   */
  lemma HelloIsRouted(l: Listener, peer: Address, m: Message, parts: seq<Fragment>, after: Bytes, rest: Bytes)
    requires ValidMessage(m) && ValidFragments(parts) && Payload(parts) == Handshake(m) + rest
    requires |Framed(parts)| <= l.prereadLimit && !ContainsPeer(l.blocked, peer)
    ensures var d := DecisionOf(l, Framed(parts) + after, peer);
            if forall i :: 0 <= i < |l.routes| ==> !Takes(l.routes[i], m, peer) then d == NoRoute
            else
              && d.Route? && d.index < |l.routes| && Takes(l.routes[d.index], m, peer)
              && forall i :: 0 <= i < d.index ==> !Takes(l.routes[i], m, peer)
  {
    hide ValidMessage, Carried, ValidMetadata, Takes, RouteAccepts, Classified, Framed, Payload, Handshake, DecisionOf, ContainsPeer;
    var wire := Framed(parts);
    var stream := wire + after;
    assert Tells(parts, Carried(m));
    FramedAcceptsExactly(parts, Carried(m));
    VerdictIsFinal(wire, after);
    HelloDecides(wire, after, l.prereadLimit);
    RouteIsTheStreams(l, stream, peer);
    TakesExactly([], m, peer);
    forall i | 0 <= i < |l.routes|
      ensures RouteAccepts(l.routes[i], Tls(Carried(m)), peer) <==> Takes(l.routes[i], m, peer)
    {
      TakesExactly(l.routes[i], m, peer);
    }
  }

  lemma HelloDecides(wire: Bytes, after: Bytes, limit: nat)
    requires Classified(wire).Tls? && |wire| <= limit
    ensures Decisive(wire + after, Min(|wire + after|, limit))
  {
    var stream := wire + after;
    assert stream[..|wire|] == wire;
    EmptyWaits();
    LongerIsDecisive(stream, |wire|, Min(|stream|, limit));
  }

  lemma EmptyWaits()
    ensures Classified([]).NeedMore?
  {
  }
}
