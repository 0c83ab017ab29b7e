/** The dial: a bounded, deduplicated pool, and connection-only fallback under one deadline. */
module Upstream {
  import opened Wire
  import opened Ordering
  import opened Transport

  /** A socket address, named by its rank in the address order. */
  type Address = nat

  const POOL_LIMIT := 64
  const ATTEMPT_LIMIT := 4
  const ATTEMPT_MILLIS := 2000

  // ----- The pool -----

  datatype PoolError = TooMany | NoAddress

  datatype PoolResult = Pool(addresses: seq<Address>) | NoPool(error: PoolError)

  function Below(a: Address, b: Address): bool {
    a < b
  }

  ghost function Elements(s: seq<Address>): set<Address> {
    set a | a in s
  }

  lemma {:induction false} DistinctSize(s: seq<Address>)
    requires Distinct(s)
    ensures |Elements(s)| == |s|
  {
    if s != [] {
      var last := s[|s| - 1];
      var front := s[..|s| - 1];
      DistinctSize(front);
      assert Elements(s) == Elements(front) + {last};
    }
  }

  lemma SubsetSize(a: set<Address>, b: set<Address>)
    requires a <= b
    ensures |a| <= |b|
  {
    assert b == a + (b - a);
  }

  ghost predicate Distinct(s: seq<Address>) {
    forall i, j :: 0 <= i < j < |s| ==> s[i] != s[j]
  }

  /** The distinct addresses in the order first seen; `None` at the 65th. */
  method Deduplicate(input: seq<Address>) returns (r: Option<seq<Address>>)
    ensures r.None? ==> |Elements(input)| > POOL_LIMIT
    ensures r.Some? ==> |r.value| <= POOL_LIMIT && Distinct(r.value) && Elements(r.value) == Elements(input)
    ensures r.Some? && r.value == [] ==> input == []
  {
    var unique: seq<Address> := [];
    for i := 0 to |input|
      invariant |unique| <= POOL_LIMIT && Distinct(unique) && Elements(unique) == Elements(input[..i])
      invariant i > 0 ==> unique != []
    {
      var address := input[i];
      assert Elements(input[..i + 1]) == Elements(input[..i]) + {address};
      if address in unique {
        continue;
      }
      var more := unique + [address];
      assert Elements(more) == Elements(unique) + {address};
      if |unique| == POOL_LIMIT {
        DistinctSize(more);
        SubsetSize(Elements(more), Elements(input));
        return None;
      }
      unique := more;
    }
    assert input[..|input|] == input;
    return Some(unique);
  }

  /** Deduplicates, refuses a 65th distinct address or an empty answer, then sorts. */
  method FromAddresses(input: seq<Address>) returns (r: PoolResult)
    ensures match r
            case NoPool(TooMany) => |Elements(input)| > POOL_LIMIT
            case NoPool(NoAddress) => input == []
            case Pool(pool) =>
              && 1 <= |pool| <= POOL_LIMIT && Elements(pool) == Elements(input)
              && forall i, j :: 0 <= i < j < |pool| ==> pool[i] < pool[j]
  {
    var unique := Deduplicate(input);
    if unique.None? {
      return NoPool(TooMany);
    }
    if unique.value == [] {
      return NoPool(NoAddress);
    }
    var pool := SortUnique(Below, unique.value);
    SortUniqueAscending(Below, unique.value);
    assert Elements(pool) == Elements(unique.value);
    DistinctSize(pool);
    DistinctSize(unique.value);
    return Pool(pool);
  }

  /** The pool does not depend on the order or the repetitions of the resolver's answer. */
  lemma PoolIsDeterministic(a: seq<Address>, b: seq<Address>)
    requires Elements(a) == Elements(b)
    requires forall i, j :: 0 <= i < j < |a| ==> a[i] < a[j]
    requires forall i, j :: 0 <= i < j < |b| ==> b[i] < b[j]
    ensures a == b
  {
    forall x ensures x in a <==> x in b {
      assert x in a <==> x in Elements(a);
      assert x in b <==> x in Elements(b);
    }
    AscendingUnique(Below, a, b);
  }

  // ----- The dial -----

  datatype Kind =
    | ConnectionRefused | ConnectionReset | ConnectionAborted | TimedOut
    | NetworkUnreachable | HostUnreachable
    | AddrNotAvailable | OtherKind

  /** Only failures of the far side are worth another address. */
  predicate Retryable(k: Kind) {
    !k.AddrNotAvailable? && !k.OtherKind?
  }

  datatype Answer = Connected | Error(kind: Kind)

  /** One dial: when it began, when it had to end, when it did, and how. */
  datatype Attempt = Attempt(address: Address, at: nat, until: nat, ended: nat, answer: Answer)

  datatype Dialed = Established(address: Address) | Gave(kind: Kind)

  class Network {
    const prompt: bool              // a dial is polled again by its own deadline
    ghost var dials: seq<Attempt>   // every dial made, in order
    ghost var withdrawals: nat      // how often the pool was found withdrawn

    constructor (prompt: bool)
      ensures this.prompt == prompt && dials == [] && withdrawals == 0
    {
      this.prompt := prompt;
      dials, withdrawals := [], 0;
    }

    /**
     A dial connects or fails.  Polled in time, it does so by `until` or is abandoned as timed out;
     polled late, it may still be found connected.
     */
    method Dial(address: Address, until: nat, clock: Clock) returns (a: Answer)
      modifies `dials, clock
      ensures clock.now >= old(clock.now)
      ensures dials == old(dials) + [Attempt(address, old(clock.now), until, clock.now, a)]
      ensures prompt ==> clock.now <= until || a == Error(TimedOut)
    {
      clock.Advance();
      a :| true;
      if prompt && clock.now > until {
        a := Error(TimedOut);
      }
      dials := dials + [Attempt(address, old(clock.now), until, clock.now, a)];
    }

    method Available() returns (yes: bool)
      modifies `withdrawals
      ensures withdrawals == old(withdrawals) + if yes then 0 else 1
    {
      yes :| true;
      if !yes {
        withdrawals := withdrawals + 1;
      }
    }
  }

  function Rotated(pool: seq<Address>, start: nat, offset: nat): Address
    requires pool != []
  {
    pool[(start + offset) % |pool|]
  }

  function Attempts(pool: seq<Address>): nat {
    Min(|pool|, ATTEMPT_LIMIT)
  }

  /** What the attempt at `offset` respects, whatever the network did. */
  ghost predicate Fits(pool: seq<Address>, start: nat, deadline: nat, budget: nat, offset: nat, a: Attempt)
    requires pool != []
  {
    && a.address == pool[(start + offset) % |pool|]
    && a.at < deadline
    && a.until == Min(deadline, a.at + if |pool| == 1 then budget else Min(budget, 2000))
  }

  /** Every attempt was over by its own deadline, or timed out. */
  ghost predicate Timely(tried: seq<Attempt>) {
    forall i :: 0 <= i < |tried| ==> tried[i].ended <= tried[i].until || tried[i].answer == Error(TimedOut)
  }

  ghost predicate Disciplined(pool: seq<Address>, start: nat, deadline: nat, budget: nat, tried: seq<Attempt>)
    requires pool != []
  {
    && |tried| <= Attempts(pool)
    && (forall i :: 0 <= i < |tried| ==> Fits(pool, start, deadline, budget, i, tried[i]))
    && (forall i :: 0 <= i < |tried| - 1 ==> AskedAgain(tried[i]) && tried[i].ended <= tried[i + 1].at)
  }

  lemma NoneYet(pool: seq<Address>, start: nat, deadline: nat, budget: nat)
    requires pool != []
    ensures Disciplined(pool, start, deadline, budget, [])
  {
  }

  lemma OneMore(pool: seq<Address>, start: nat, deadline: nat, budget: nat, tried: seq<Attempt>, a: Attempt)
    requires pool != [] && Disciplined(pool, start, deadline, budget, tried) && |tried| < Attempts(pool)
    requires Fits(pool, start, deadline, budget, |tried|, a)
    requires tried != [] ==> AskedAgain(tried[|tried| - 1]) && tried[|tried| - 1].ended <= a.at
    ensures Disciplined(pool, start, deadline, budget, tried + [a])
  {
    hide Fits, AskedAgain;
  }

  predicate AskedAgain(a: Attempt) {
    a.answer.Error? && Retryable(a.answer.kind)
  }

  /**
   The outcome is the last attempt's: a connection, an error not worth another address, or an
   error with no attempt left.  Only a withdrawn pool and a passed deadline end the dial sooner.
   */
  ghost predicate Explains(r: Dialed, pool: seq<Address>, tried: seq<Attempt>, withdrawn: bool, late: bool) {
    var last := |tried| - 1;
    if tried != [] && tried[last].answer.Connected? then r == Established(tried[last].address) && !withdrawn
    else if tried != [] && (!AskedAgain(tried[last]) || |tried| == Attempts(pool)) then
      r == Gave(tried[last].answer.kind) && !withdrawn
    else r == Gave(if withdrawn then AddrNotAvailable else TimedOut) && (withdrawn || late)
  }

  lemma TriedFromPool(pool: seq<Address>, start: nat, deadline: nat, budget: nat, tried: seq<Attempt>)
    requires pool != [] && Disciplined(pool, start, deadline, budget, tried)
    ensures |tried| <= ATTEMPT_LIMIT && forall a :: a in tried ==> a.address in pool
  {
    forall i | 0 <= i < |tried| ensures tried[i].address in pool {
      assert Fits(pool, start, deadline, budget, i, tried[i]);
    }
  }

  class Balancer {
    const addresses: seq<Address>
    var cursor: nat

    constructor (addresses: seq<Address>)
      ensures this.addresses == addresses && cursor == 0
    {
      this.addresses := addresses;
      cursor := 0;
    }

    /** Takes one ticket and tries at most four addresses in rotation order under one deadline. */
    method Connect(network: Network, clock: Clock, budget: nat) returns (r: Dialed, ghost tried: seq<Attempt>)
      requires cursor < WORD
      modifies `cursor, network, clock
      ensures clock.now >= old(clock.now) && network.dials == old(network.dials) + tried
      ensures addresses == [] ==> r == Gave(AddrNotAvailable) && tried == []
      ensures addresses != [] ==>
                var deadline := old(clock.now) + budget;
                && Disciplined(addresses, if |addresses| == 1 then 0 else old(cursor) % |addresses|, deadline, budget, tried)
                && Explains(r, addresses, tried, network.withdrawals > old(network.withdrawals), clock.now >= deadline)
                && (network.prompt ==> Timely(tried) && (r.Established? ==> clock.now <= deadline))
      ensures cursor == if |addresses| > 1 then (old(cursor) + 1) % WORD else old(cursor)
    {
      hide Disciplined;
      tried := [];
      if addresses == [] {
        return Gave(AddrNotAvailable), tried;
      }
      var deadline := clock.now + budget;
      var count := |addresses|;
      var start := 0;
      if count != 1 {
        start := cursor % count;
        cursor := (cursor + 1) % WORD;
      }
      var attemptBudget := if count == 1 then budget else Min(budget, ATTEMPT_MILLIS);
      var last := TimedOut;
      NoneYet(addresses, start, deadline, budget);
      for offset := 0 to Min(count, ATTEMPT_LIMIT)
        invariant |tried| == offset && Disciplined(addresses, start, deadline, budget, tried)
        invariant tried != [] ==> tried[offset - 1].answer == Error(last) && Retryable(last)
        invariant tried != [] ==> tried[offset - 1].ended <= clock.now
        invariant network.prompt ==> Timely(tried)
        invariant clock.now >= old(clock.now) && network.dials == old(network.dials) + tried
        invariant network.withdrawals == old(network.withdrawals)
        invariant cursor == if |addresses| > 1 then (old(cursor) + 1) % WORD else old(cursor)
      {
        var available := network.Available();
        if !available {
          return Gave(AddrNotAvailable), tried;
        }
        clock.Advance();
        var now := clock.now;
        if now >= deadline {
          return Gave(TimedOut), tried;
        }
        var until := Min(deadline, now + attemptBudget);
        var address := Rotated(addresses, start, offset);
        var answer := network.Dial(address, until, clock);
        ghost var attempt := Attempt(address, now, until, clock.now, answer);
        OneMore(addresses, start, deadline, budget, tried, attempt);
        tried := tried + [attempt];
        match answer {
          case Connected => return Established(address), tried;
          case Error(kind) =>
            if kind !in {ConnectionRefused, ConnectionReset, ConnectionAborted, TimedOut, NetworkUnreachable, HostUnreachable} {
              return Gave(kind), tried;
            }
            last := kind;
        }
      }
      return Gave(last), tried;
    }
  }

  // ----- Rotation -----

  lemma Multiples(n: int, d: int)
    requires n > 0
    ensures d >= 1 ==> n * d >= n
    ensures d <= -1 ==> n * d <= -n
  {
  }

  lemma Distribute(n: int, a: int, b: int)
    ensures n * (a - b) == n * a - n * b
  {
  }

  lemma RemainderUnique(x: int, q: int, r: int, n: int)
    requires 0 <= r < n && x == n * q + r
    ensures x % n == r && x / n == q
  {
    var q', r' := x / n, x % n;
    var p, p' := n * q, n * q';
    assert x == p' + r';
    Distribute(n, q, q');
    Multiples(n, q - q');
  }

  /** Fewer than `n` apart, two numbers leave different remainders. */
  lemma RemaindersDiffer(a: nat, b: nat, n: nat)
    requires a < b < a + n
    ensures a % n != b % n
  {
    if a % n == b % n {
      assert b - a == n * (b / n - a / n);
      RemainderUnique(b - a, 0, b - a, n);
      RemainderUnique(b - a, b / n - a / n, 0, n);
    }
  }

  lemma RemainderMinus(a: nat, b: nat, n: nat)
    requires n > 0 && b <= a % n
    ensures a >= b && (a - b) % n == a % n - b
  {
    assert a == n * (a / n) + a % n;
    assert a >= a % n by {
      assert n * (a / n) >= 0;
    }
    RemainderUnique(a - b, a / n, a % n - b, n);
  }

  lemma RemainderMinusMultiple(a: nat, m: nat, n: nat)
    requires n > 0 && m % n == 0 && m <= a
    ensures (a - m) % n == a % n
  {
    assert m == n * (m / n) && a == n * (a / n) + a % n;
    assert a - m == n * (a / n - m / n) + a % n;
    RemainderUnique(a - m, a / n - m / n, a % n, n);
  }

  /** The attempts of one dial go to different addresses. */
  lemma AttemptsAreDistinct(pool: seq<Address>, start: nat, deadline: nat, budget: nat, tried: seq<Attempt>, i: nat, j: nat)
    requires pool != [] && forall a, b :: 0 <= a < b < |pool| ==> pool[a] < pool[b]
    requires Disciplined(pool, start, deadline, budget, tried) && i < j < |tried|
    ensures tried[i].address != tried[j].address
  {
    RemaindersDiffer(start + i, start + j, |pool|);
  }

  /** The ticket drawn `i` dials after one that drew `t`. */
  function Ticket(t: nat, i: nat): nat {
    (t + i) % WORD
  }

  /** `n` consecutive dials start at `n` different addresses of an `n`-address pool. */
  ghost predicate FairWindow(t: nat, n: nat)
    requires n > 0
  {
    forall i, j :: 0 <= i < j < n ==> Ticket(t, i) % n != Ticket(t, j) % n
  }

  lemma TicketRemainder(t: nat, n: nat, i: nat)
    requires 0 < n <= POOL_LIMIT && t < WORD && i < n
    requires t + n <= WORD || WORD % n == 0
    ensures Ticket(t, i) % n == (t + i) % n
  {
    if t + i < WORD {
      assert Ticket(t, i) == t + i;
    } else {
      assert Ticket(t, i) == t + i - WORD;
      RemainderMinusMultiple(t + i, WORD, n);
    }
  }

  /** Where the counter wraps inside the window, two dials meet unless the pool size divides the word. */
  lemma WrapCollision(t: nat, n: nat) returns (i: nat, j: nat)
    requires 0 < n <= POOL_LIMIT && t < WORD < t + n && WORD % n != 0
    ensures i < j < n && Ticket(t, i) % n == Ticket(t, j) % n
  {
    var k, m := WORD - t, WORD % n;
    if k <= m {
      i, j := 0, m;
      assert Ticket(t, i) == WORD - k && Ticket(t, j) == m - k;
      RemainderMinus(WORD, k, n);
      RemainderUnique(m - k, 0, m - k, n);
    } else {
      i, j := k - m, k;
      assert Ticket(t, i) == WORD - m && Ticket(t, j) == 0;
      RemainderMinus(WORD, m, n);
      RemainderUnique(0, 0, 0, n);
    }
  }

  /** Rotation is fair over every window exactly when the counter does not wrap in it, or cannot be seen to. */
  lemma RotationIsFair(t: nat, n: nat)
    requires 0 < n <= POOL_LIMIT && t < WORD
    ensures FairWindow(t, n) <==> t + n <= WORD || WORD % n == 0
  {
    hide Ticket;
    if t + n <= WORD || WORD % n == 0 {
      forall i, j | 0 <= i < j < n ensures Ticket(t, i) % n != Ticket(t, j) % n {
        TicketRemainder(t, n, i);
        TicketRemainder(t, n, j);
        RemaindersDiffer(t + i, t + j, n);
      }
    } else {
      var i, j := WrapCollision(t, n);
    }
  }

  lemma TurnOf(t: nat, n: nat, k: nat) returns (i: nat)
    requires k < n
    ensures i < n && (t + i) % n == k
  {
    var q, r := t / n, t % n;
    var p := n * q;
    assert t == p + r;
    if r <= k {
      i := k - r;
      RemainderUnique(t + i, q, k, n);
    } else {
      i := k + n - r;
      Distribute(n, q + 1, 1);
      RemainderUnique(t + i, q + 1, k, n);
    }
  }

  /** And every address gets its turn in a fair window. */
  lemma EveryAddressStarts(t: nat, n: nat, k: nat) returns (i: nat)
    requires 0 < n <= POOL_LIMIT && t < WORD && k < n
    requires t + n <= WORD || WORD % n == 0
    ensures i < n && Ticket(t, i) % n == k
  {
    hide Ticket;
    i := TurnOf(t, n, k);
    TicketRemainder(t, n, i);
  }
}
