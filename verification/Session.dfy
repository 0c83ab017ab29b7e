/**
 The connection path up to the dial: read just enough of the client's stream to
 classify it, then take the first route that matches.
 */
module Session {
  import opened Wire
  import opened ClientHello
  import opened ClientHelloLaws
  import opened Transport
  import Relay
  import Upstream

  // ----- Preread -----

  datatype Preread =
    | Overflow              // the hello does not fit the buffer
    | ClosedEarly           // the client closed before it could be classified
    | Broken                // a read failed, or the deadline passed
    | Classed(prefix: Bytes)  // classified; these bytes were consumed and nothing more

  ghost predicate Decisive(stream: Bytes, k: nat) {
    0 < k <= |stream| && !Classified(stream[..k]).NeedMore?
  }

  /** The shortest decisive prefix, found by shortening one that is decisive. */
  ghost function Shortest(stream: Bytes, k: nat): (s: nat)
    requires Decisive(stream, k)
    ensures s <= k
  {
    if Decisive(stream, k - 1) then Shortest(stream, k - 1) else k
  }

  /** What the preread must answer, from the stream and the limit alone. */
  ghost function PrereadOf(stream: Bytes, limit: nat): Preread {
    if limit == 0 then Overflow
    else if stream == [] then ClosedEarly
    else
      var held := Min(|stream|, limit);
      match Classified(stream[..held])
      case NeedMore(size) => if size > limit then Overflow else ClosedEarly
      case NotTls => Classed(stream[..Shortest(stream, held)])
      case Tls(_) => Classed(stream[..Shortest(stream, held)])
  }

  lemma LongerIsDecisive(stream: Bytes, j: nat, k: nat)
    requires Decisive(stream, j) && j <= k <= |stream|
    ensures Decisive(stream, k) && Classified(stream[..k]) == Classified(stream[..j])
  {
    VerdictIsFinal(stream[..j], stream[j..k]);
    assert stream[..j] + stream[j..k] == stream[..k];
  }

  /** `Shortest` is the least decisive length, and the verdict there is the stream's. */
  lemma {:induction false} ShortestIsLeast(stream: Bytes, k: nat)
    requires Decisive(stream, k)
    ensures Decisive(stream, Shortest(stream, k)) && Shortest(stream, k) <= k
    ensures Classified(stream[..Shortest(stream, k)]) == Classified(stream[..k])
    ensures forall j :: 0 <= j < Shortest(stream, k) ==> !Decisive(stream, j)
  {
    if Decisive(stream, k - 1) {
      ShortestIsLeast(stream, k - 1);
      LongerIsDecisive(stream, k - 1, k);
    } else {
      forall j | 0 <= j < k ensures !Decisive(stream, j) {
        if Decisive(stream, j) {
          LongerIsDecisive(stream, j, k - 1);
        }
      }
    }
  }

  lemma ReadyAtLeast(stream: Bytes, limit: nat, k: nat)
    requires Decisive(stream, k) && k <= limit
    requires forall j :: 0 <= j < k ==> !Decisive(stream, j)
    ensures PrereadOf(stream, limit) == Classed(stream[..k])
  {
    var held := Min(|stream|, limit);
    LongerIsDecisive(stream, k, held);
    ShortestIsLeast(stream, held);
    assert Shortest(stream, held) == k;
  }

  /** A wait at `k` bytes for more than the stream or the buffer can hold settles the outcome. */
  lemma WaitSettles(stream: Bytes, limit: nat, k: nat, needed: nat)
    requires 0 < k <= Min(|stream|, limit) && Classified(stream[..k]) == NeedMore(needed)
    requires needed > Min(|stream|, limit)
    ensures PrereadOf(stream, limit) == if needed > limit then Overflow else ClosedEarly
  {
    var held := Min(|stream|, limit);
    WaitIsExact(stream[..k], stream[k..held]);
    assert stream[..k] + stream[k..held] == stream[..held];
  }

  lemma NoneBefore(stream: Bytes, k: nat, needed: nat)
    requires 0 < k <= |stream| && Classified(stream[..k]) == NeedMore(needed)
    ensures k < needed
    ensures forall j :: 0 <= j < needed ==> !Decisive(stream, j)
  {
    hide Records, PlainVerdict;
    WaitIsExact(stream[..k], []);
    forall j | 0 <= j < needed ensures !Decisive(stream, j) {
      if Decisive(stream, j) {
        if j <= k {
          LongerIsDecisive(stream, j, k);
        } else {
          assert stream[..k] + stream[k..j] == stream[..j];
          WaitIsExact(stream[..k], stream[k..j]);
        }
      }
    }
  }

  /** A read was cut short by an error or the deadline in between. */
  ghost predicate Cut(before: Ledger, after: Ledger) {
    after.interruptions > before.interruptions
  }

  lemma Sliced(a: array<byte>, i: nat, j: nat)
    requires i <= j <= a.Length
    ensures a[..j] == a[..i] + a[i..j]
  {
  }

  /** Reads until `needed` bytes are held; never past them. */
  method Fill(client: Endpoint, buffer: array<byte>, length: nat, needed: nat) returns (r: ReadResult)
    requires length <= needed <= buffer.Length
    requires client.taken == length && client.Valid() && buffer[..length] == client.stream[..length]
    modifies client`taken, client`ledger, buffer
    ensures client.ledger == if r.Interrupted? then old(client.ledger).Interrupt() else old(client.ledger)
    ensures match r
            case Data(n) => n == client.taken == needed <= |client.stream| && buffer[..needed] == client.stream[..needed]
            case EndOfFile => client.taken == |client.stream| < needed
            case Interrupted => client.taken <= needed && client.taken <= |client.stream|
  {
    var held := length;
    while held < needed
      invariant length <= held <= needed
      invariant client.ledger == old(client.ledger)
      invariant client.taken == held <= |client.stream| && buffer[..held] == client.stream[..held]
      decreases needed - held
    {
      var read := client.Read(buffer, held, needed);
      match read {
        case Data(n) =>
          Sliced(buffer, held, held + n);
          held := held + n;
        case EndOfFile => return EndOfFile;
        case Interrupted => return Interrupted;
      }
    }
    return Data(held);
  }

  /**
   The preread loop.  Whatever sizes the reads came in, an uninterrupted run ends
   as `PrereadOf` says and has consumed the classified prefix and not one byte more.
   */
  method PrereadLoop(client: Endpoint, limit: nat) returns (r: Preread)
    requires client.taken == 0
    modifies client`taken, client`ledger
    ensures r == if Cut(old(client.ledger), client.ledger) then Broken else PrereadOf(client.stream, limit)
    ensures client.ledger.faults == old(client.ledger.faults)
    ensures !Cut(old(client.ledger), client.ledger) ==> client.ledger == old(client.ledger)
    ensures client.Valid() && client.taken <= limit
    ensures r.Classed? ==> r.prefix == client.stream[..client.taken]
  {
    var buffer := new byte[limit](_ => 0);
    var length, needed := 0, 1;
    while true
      invariant length <= needed && length <= limit
      invariant client.ledger == old(client.ledger)
      invariant client.taken == length <= |client.stream| && buffer[..length] == client.stream[..length]
      invariant length == 0 ==> needed == 1
      invariant length > 0 ==> Classified(client.stream[..length]) == NeedMore(needed)
      decreases limit + 1 - length
    {
      ghost var stream := client.stream;
      if length > 0 {
        NoneBefore(stream, length, needed);
      }
      if needed > limit {
        if length > 0 {
          WaitSettles(stream, limit, length, needed);
        }
        return Overflow;
      }
      var read := Fill(client, buffer, length, needed);
      match read {
        case EndOfFile =>
          if length > 0 {
            WaitSettles(stream, limit, length, needed);
          }
          return ClosedEarly;
        case Interrupted =>
          return Broken;
        case Data(_) =>
          length := needed;
      }
      var prefix := buffer[..length];
      var c := Classify(prefix);
      match c {
        case Wait(size) =>
          needed := size;
          NoneBefore(stream, length, needed);
        case Plain =>
          ReadyAtLeast(stream, limit, length);
          return Classed(prefix);
        case Secure(_) =>
          ReadyAtLeast(stream, limit, length);
          return Classed(prefix);
      }
    }
  }

  // ----- Routing -----

  datatype Address = V4(bits: nat) | V6(bits: nat)

  /** An IPv4-mapped IPv6 address names the IPv4 address in its low 32 bits. */
  function Canonical(a: Address): Address {
    match a
    case V6(bits) => if bits / 0x1_0000_0000 == 0xFFFF then V4(bits % 0x1_0000_0000) else a
    case V4(_) => a
  }

  /** Configured ranges: how many were written, and the addresses they cover. */
  datatype Ranges = Ranges(texts: seq<string>, addresses: set<Address>)

  predicate ContainsPeer(ranges: Ranges, peer: Address) {
    peer in ranges.addresses || Canonical(peer) in ranges.addresses
  }

  datatype TlsMatcher = TlsMatcher(sni: seq<Bytes>, alpn: seq<Bytes>)

  datatype RouteMatcher = RouteMatcher(tls: Option<TlsMatcher>, peers: Ranges)

  datatype Listener = Listener(routes: seq<seq<RouteMatcher>>, blocked: Ranges, prereadLimit: nat, connectTimeout: nat) {
    /** The preread runs exactly when some matcher looks at the hello. */
    predicate NeedsTls() {
      exists i, j :: 0 <= i < |routes| && 0 <= j < |routes[i]| && routes[i][j].tls.Some?
    }
  }

  ghost predicate TlsMatches(tls: TlsMatcher, m: Metadata)
    requires ValidMetadata(m)
  {
    && (tls.sni == [] || exists i :: 0 <= i < |tls.sni| && MetadataMatchesSni(m, tls.sni[i]))
    && (tls.alpn == [] || exists i :: 0 <= i < |tls.alpn| && MetadataOffersAlpn(m, tls.alpn[i]))
  }

  ghost predicate MatcherAccepts(r: RouteMatcher, v: Verdict, peer: Address)
    requires v.Tls? ==> ValidMetadata(v.hello)
  {
    && (r.peers.texts == [] || ContainsPeer(r.peers, peer))
    && (r.tls.None? || (v.Tls? && TlsMatches(r.tls.value, v.hello)))
  }

  ghost predicate RouteAccepts(route: seq<RouteMatcher>, v: Verdict, peer: Address)
    requires v.Tls? ==> ValidMetadata(v.hello)
  {
    route == [] || exists i :: 0 <= i < |route| && MatcherAccepts(route[i], v, peer)
  }

  /** The first route, in configuration order, that accepts. */
  ghost function FirstRoute(routes: seq<seq<RouteMatcher>>, v: Verdict, peer: Address): (r: Option<nat>)
    requires v.Tls? ==> ValidMetadata(v.hello)
    ensures r.Some? ==>
              && r.value < |routes| && RouteAccepts(routes[r.value], v, peer)
              && forall i :: 0 <= i < r.value ==> !RouteAccepts(routes[i], v, peer)
    ensures r.None? ==> forall i :: 0 <= i < |routes| ==> !RouteAccepts(routes[i], v, peer)
  {
    if routes == [] then None
    else if RouteAccepts(routes[0], v, peer) then Some(0)
    else
      match FirstRoute(routes[1..], v, peer)
      case None => None
      case Some(i) => Some(i + 1)
  }

  method AnySni(h: Hello, names: seq<Bytes>, ghost m: Metadata) returns (yes: bool)
    requires Describes(h, m)
    ensures yes <==> exists i :: 0 <= i < |names| && MetadataMatchesSni(m, names[i])
  {
    for i := 0 to |names|
      invariant forall k :: 0 <= k < i ==> !MetadataMatchesSni(m, names[k])
    {
      var hit := MatchesSni(h, names[i], m);
      if hit {
        return true;
      }
    }
    return false;
  }

  method AnyAlpn(h: Hello, names: seq<Bytes>, ghost m: Metadata) returns (yes: bool)
    requires Describes(h, m) && ValidMetadata(m)
    ensures yes <==> exists i :: 0 <= i < |names| && MetadataOffersAlpn(m, names[i])
  {
    for i := 0 to |names|
      invariant forall k :: 0 <= k < i ==> !MetadataOffersAlpn(m, names[k])
    {
      var hit := OffersAlpn(h, names[i], m);
      if hit {
        return true;
      }
    }
    return false;
  }

  ghost predicate Mirrors(hello: Option<Hello>, v: Verdict)
    reads if hello.Some? && hello.value.sni.Some? then {hello.value.sni.value} else {},
          if hello.Some? && hello.value.alpn.Some? then {hello.value.alpn.value} else {}
  {
    if v.Tls? then hello.Some? && Describes(hello.value, v.hello) && ValidMetadata(v.hello) else hello.None?
  }

  method Matches(r: RouteMatcher, hello: Option<Hello>, peer: Address, ghost v: Verdict) returns (yes: bool)
    requires Mirrors(hello, v)
    ensures yes == MatcherAccepts(r, v, peer)
  {
    if r.peers.texts != [] && !ContainsPeer(r.peers, peer) {
      return false;
    }
    match (r.tls, hello) {
      case (None, _) => return true;
      case (Some(_), None) => return false;
      case (Some(tls), Some(h)) =>
        if tls.sni != [] {
          var named := AnySni(h, tls.sni, v.hello);
          if !named {
            return false;
          }
        }
        if tls.alpn == [] {
          return true;
        }
        yes := AnyAlpn(h, tls.alpn, v.hello);
    }
  }

  method AnyMatcher(route: seq<RouteMatcher>, hello: Option<Hello>, peer: Address, ghost v: Verdict) returns (yes: bool)
    requires Mirrors(hello, v)
    ensures yes <==> exists i :: 0 <= i < |route| && MatcherAccepts(route[i], v, peer)
  {
    hide MatcherAccepts;
    for i := 0 to |route|
      invariant forall k :: 0 <= k < i ==> !MatcherAccepts(route[k], v, peer)
    {
      var hit := Matches(route[i], hello, peer, v);
      if hit {
        return true;
      }
    }
    return false;
  }

  method SelectRoute(routes: seq<seq<RouteMatcher>>, hello: Option<Hello>, peer: Address, ghost v: Verdict)
    returns (r: Option<nat>)
    requires Mirrors(hello, v)
    ensures r == FirstRoute(routes, v, peer)
  {
    hide MatcherAccepts, FirstRoute;
    for i := 0 to |routes|
      invariant forall k :: 0 <= k < i ==> !RouteAccepts(routes[k], v, peer)
    {
      if routes[i] == [] {
        return Some(i);
      }
      var hit := AnyMatcher(routes[i], hello, peer, v);
      if hit {
        return Some(i);
      }
    }
    return None;
  }

  // ----- The whole decision -----

  datatype Decision =
    | Denied
    | Refused(why: Preread)
    | NoRoute
    | Route(index: nat, prefix: Bytes)

  ghost function DecisionOf(l: Listener, stream: Bytes, peer: Address): Decision {
    if ContainsPeer(l.blocked, peer) then Denied
    else if !l.NeedsTls() then Routed(l, [], peer)
    else
      match PrereadOf(stream, l.prereadLimit)
      case Classed(prefix) => Routed(l, prefix, peer)
      case other => Refused(other)
  }

  ghost function Routed(l: Listener, prefix: Bytes, peer: Address): Decision {
    match FirstRoute(l.routes, Classified(prefix), peer)
    case None => NoRoute
    case Some(i) => Route(i, prefix)
  }

  lemma RouteExists(l: Listener, stream: Bytes, peer: Address)
    ensures DecisionOf(l, stream, peer).Route? ==> DecisionOf(l, stream, peer).index < |l.routes|
  {
  }

  /** Where no matcher looks at the hello, the verdict on the stream does not matter. */
  lemma {:induction false} VerdictIgnoredWithoutTls(routes: seq<seq<RouteMatcher>>, v: Verdict, w: Verdict, peer: Address)
    requires (v.Tls? ==> ValidMetadata(v.hello)) && (w.Tls? ==> ValidMetadata(w.hello))
    requires forall i, j :: 0 <= i < |routes| && 0 <= j < |routes[i]| ==> routes[i][j].tls.None?
    ensures FirstRoute(routes, v, peer) == FirstRoute(routes, w, peer)
  {
    forall i | 0 <= i < |routes| ensures RouteAccepts(routes[i], v, peer) == RouteAccepts(routes[i], w, peer) {
      forall j | 0 <= j < |routes[i]| ensures MatcherAccepts(routes[i][j], v, peer) == MatcherAccepts(routes[i][j], w, peer) {
      }
    }
  }

  /**
   The route is the one the whole stream's verdict chooses, whether or not the listener reads
   ahead: skipping the preread never changes it.
   */
  lemma RouteIsTheStreams(l: Listener, stream: Bytes, peer: Address)
    requires Decisive(stream, Min(|stream|, l.prereadLimit))
    ensures var d := DecisionOf(l, stream, peer);
            if ContainsPeer(l.blocked, peer) then d == Denied
            else
              match FirstRoute(l.routes, Classified(stream), peer)
              case None => d == NoRoute
              case Some(i) => d.Route? && d.index == i
  {
    hide Classified, FirstRoute;
    var held := Min(|stream|, l.prereadLimit);
    ShortestIsLeast(stream, held);
    LongerIsDecisive(stream, held, |stream|);
    assert stream[..|stream|] == stream;
    if !l.NeedsTls() {
      VerdictIgnoredWithoutTls(l.routes, Classified(stream), Classified([]), peer);
    }
  }

  method Dispatch(l: Listener, prefix: Bytes, peer: Address) returns (d: Decision)
    ensures d == Routed(l, prefix, peer)
  {
    var c := Classify(prefix);
    var hello := match c case Secure(h) => Some(h) case Plain => None case Wait(_) => None;
    var route := SelectRoute(l.routes, hello, peer, Classified(prefix));
    match route {
      case Some(i) => return Route(i, prefix);
      case None => return NoRoute;
    }
  }

  /**
   One connection up to its dial.  The decision of an uninterrupted run is a
   function of the listener, the peer and the byte stream; the sizes the reads
   happened to have cannot be told from it.
   */
  method Decide(l: Listener, client: Endpoint, peer: Address) returns (d: Decision)
    requires client.taken == 0
    modifies client`taken, client`ledger
    ensures d == if Cut(old(client.ledger), client.ledger) then Refused(Broken) else DecisionOf(l, client.stream, peer)
    ensures client.Valid() && client.ledger.faults == old(client.ledger.faults)
    ensures !Cut(old(client.ledger), client.ledger) ==> client.ledger == old(client.ledger)
    ensures d.Route? ==> d.prefix == client.stream[..client.taken]
    ensures d.Route? && l.NeedsTls() ==> |d.prefix| <= l.prereadLimit
    ensures (forall route, m :: route in l.routes && m in route ==> m.tls.None?) ==> client.taken == 0
  {
    if ContainsPeer(l.blocked, peer) {
      return Denied;
    }
    if !l.NeedsTls() {
      d := Dispatch(l, [], peer);
      return;
    }
    ghost var i, j :| 0 <= i < |l.routes| && 0 <= j < |l.routes[i]| && l.routes[i][j].tls.Some?;
    assert l.routes[i] in l.routes && l.routes[i][j] in l.routes[i];
    var preread := PrereadLoop(client, l.prereadLimit);
    match preread {
      case Classed(prefix) => d := Dispatch(l, prefix, peer);
      case other => d := Refused(other);
    }
  }

  /**
   Neither transport chunks nor record boundaries choose a route: two streams whose
   records carry one decided payload take the same route, whatever follows them.
   */
  lemma RouteIgnoresFragmentation(l: Listener, peer: Address, a: seq<Fragment>, b: seq<Fragment>, x: Bytes, y: Bytes)
    requires ValidFragments(a) && ValidFragments(b) && Payload(a) == Payload(b)
    requires !Classified(Framed(a)).NeedMore?
    requires l.NeedsTls() && |Framed(a)| <= l.prereadLimit && |Framed(b)| <= l.prereadLimit
    ensures var d, e := DecisionOf(l, Framed(a) + x, peer), DecisionOf(l, Framed(b) + y, peer);
            match d
            case Route(i, _) => e.Route? && e.index == i
            case Denied => e == Denied
            case NoRoute => e == NoRoute
            case Refused(_) => false
  {
    hide Framed, Records, PlainVerdict;
    FragmentationIndependence(a, b);
    DecidedByPayload(l, peer, Framed(a), x);
    DecidedByPayload(l, peer, Framed(b), y);
  }

  lemma DecidedByPayload(l: Listener, peer: Address, wire: Bytes, rest: Bytes)
    requires l.NeedsTls() && !Classified(wire).NeedMore? && |wire| <= l.prereadLimit
    ensures !ContainsPeer(l.blocked, peer) ==>
              var d := DecisionOf(l, wire + rest, peer);
              match FirstRoute(l.routes, Classified(wire), peer)
              case None => d == NoRoute
              case Some(i) => d.Route? && d.index == i
  {
    var stream := wire + rest;
    assert stream[..|wire|] == wire;
    var held := Min(|stream|, l.prereadLimit);
    assert Decisive(stream, |wire|);
    LongerIsDecisive(stream, |wire|, held);
    ShortestIsLeast(stream, held);
  }

  // ----- From the first byte to the last -----

  datatype End = NotRouted | NotConnected(kind: Upstream.Kind) | Relayed(outcome: Relay.Outcome)

  /**
   One connection end to end.  The upstream receives the client's own stream: from
   its first byte, in order, with nothing repeated and nothing skipped, however the
   reads were cut; when the relay ends normally, every byte read has arrived.  Only
   the pool of the chosen route is dialled, and a failed dial relays nothing.
   `upstream` is the connection that a successful dial establishes.
   */
  method Serve(l: Listener, client: Endpoint, peer: Address, pools: seq<Upstream.Balancer>, network: Upstream.Network,
               upstream: Endpoint, options: Relay.Options, clock: Clock, wakeups: nat)
    returns (d: Decision, e: End)
    requires client != upstream && client.Valid() && upstream.Valid() && client.taken == 0
    requires !client.shut && !upstream.shut && !client.unflushed && !upstream.unflushed
    requires upstream.accepted == [] && upstream.taken == 0 && client.accepted == []
    requires |pools| == |l.routes| && forall b :: b in pools ==> b.cursor < WORD
    modifies client, upstream, clock, network, set b | b in pools
    ensures d == if Cut(old(client.ledger), client.ledger) then Refused(Broken) else DecisionOf(l, client.stream, peer)
    ensures client.Valid() && upstream.accepted <= client.stream[..client.taken]
    ensures upstream.Valid() && client.accepted <= upstream.stream[..upstream.taken]
    ensures e.NotRouted? <==> !d.Route?
    ensures !e.Relayed? ==> upstream.accepted == [] && client.accepted == []
    ensures old(network.dials) <= network.dials
    ensures var tried := network.dials[|old(network.dials)|..];
            if d.Route? then |tried| <= 4 && forall a :: a in tried ==> a.address in pools[d.index].addresses
            else tried == []
    ensures e.NotConnected? ==>
              var pool, tried := pools[d.index].addresses, network.dials[|old(network.dials)|..];
              if pool == [] then e.kind.AddrNotAvailable? && tried == []
              else Upstream.Explains(Upstream.Gave(e.kind), pool, tried, network.withdrawals > old(network.withdrawals),
                                     clock.now >= old(clock.now) + l.connectTimeout)
    ensures e.Relayed? ==>
              |network.dials| > |old(network.dials)| && network.dials[|network.dials| - 1].answer.Connected?
    ensures upstream.shut ==> options.halfClose && upstream.accepted == client.stream
    ensures client.shut ==> options.halfClose && client.accepted == upstream.stream
    ensures e.Relayed? ==> (e.outcome.Rejected? <==> options.bufferSize == 0)
    ensures e == Relayed(Relay.Suspended(false)) ==> client.parked + upstream.parked != {}
    ensures e == Relayed(Relay.Suspended(true)) && wakeups > 0 ==>
              client.ledger.moves + upstream.ledger.moves >= old(client.ledger.moves + upstream.ledger.moves) + 64
    ensures e == Relayed(Relay.TimedOut) ==>
              && clock.now >= old(clock.now) + options.idleTimeout
              && Relay.Quiet(old(client.ledger), client.ledger, options.idleTimeout, clock.now)
              && Relay.Quiet(old(upstream.ledger), upstream.ledger, options.idleTimeout, clock.now)
    ensures e == Relayed(Relay.Done) ==>
              && upstream.accepted == client.stream[..client.taken]
              && client.accepted == upstream.stream[..upstream.taken]
    ensures e == Relayed(Relay.Done) && options.halfClose ==>
              && upstream.accepted == client.stream && client.accepted == upstream.stream
    ensures e == Relayed(Relay.Faulted) <==>
              client.ledger.faults + upstream.ledger.faults > old(client.ledger.faults + upstream.ledger.faults)
  {
    hide DecisionOf, Upstream.Disciplined;
    d := Decide(l, client, peer);
    if !d.Route? {
      return d, NotRouted;
    }
    RouteExists(l, client.stream, peer);
    clock.Advance();
    var dialed;
    ghost var tried;
    var pool := pools[d.index];
    ghost var cursor, deadline := pool.cursor, clock.now + l.connectTimeout;
    dialed, tried := pool.Connect(network, clock, l.connectTimeout);
    if pool.addresses != [] {
      Upstream.TriedFromPool(pool.addresses, if |pool.addresses| == 1 then 0 else cursor % |pool.addresses|, deadline, l.connectTimeout, tried);
    }
    match dialed {
      case Gave(kind) => return d, NotConnected(kind);
      case Established(_) =>
    }
    ghost var prefix := d.prefix;
    var outcome := Relay.RunRelay(client, upstream, d.prefix, options, clock, wakeups);
    assert prefix + client.stream[|prefix|..client.taken] == client.stream[..client.taken];
    assert [] + upstream.stream[0..upstream.taken] == upstream.stream[..upstream.taken];
    assert upstream.accepted[0..] == upstream.accepted && client.accepted[0..] == client.accepted;
    return d, Relayed(outcome);
  }
}
