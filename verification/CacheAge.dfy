/**
 Age and freshness of a stored response (sections 1.2.2 and 4.2.3 of RFC 9111).  Instants and
 durations are in nanoseconds; instants count from the Unix epoch.
 */
module CacheAge {
  import opened Wire

  const SECOND: nat := 1_000_000_000

  /** The largest delta-seconds a recipient has to represent. */
  const CAP: nat := 0x8000_0000

  // ----- The Age field -----

  predicate AllDigits(field: Bytes) {
    forall i :: 0 <= i < |field| ==> 48 <= field[i] <= 57
  }

  /** The number a digit string writes, however long it is. */
  function Decimal(field: Bytes): nat
    requires AllDigits(field)
  {
    if field == [] then 0 else Decimal(field[..|field| - 1]) * 10 + (field[|field| - 1] - 48)
  }

  function Saturate(n: nat): nat {
    Min(n, U64_MAX)
  }

  /** Folds the digits in one machine word; the cap keeps every step far from its end. */
  method AgeSeconds(field: Bytes) returns (age: nat)
    ensures age == if field == [] || !AllDigits(field) then 0 else Min(Decimal(field), CAP)
  {
    if field == [] || !AllDigits(field) {
      return 0;
    }
    age := 0;
    for i := 0 to |field|
      invariant age == Min(Decimal(field[..i]), CAP)
    {
      assert field[..i + 1][..i] == field[..i];
      var digit := field[i] - 48;
      assert age * 10 + digit <= U64_MAX;
      age := Min(Saturate(Saturate(age * 10) + digit), CAP);
    }
    assert field[..|field|] == field;
  }

  /** The corrected initial age: what the clock says, or what the field and the delay say, whichever is more. */
  function InitialAge(age: nat, date: Option<int>, received: int, delay: nat): (r: nat)
    ensures r >= age * SECOND + delay && (date.Some? ==> r >= received - date.value)
    ensures r == age * SECOND + delay || (date.Some? && r == received - date.value)
  {
    var apparent := if date.Some? then Max(received - date.value, 0) else 0;
    Max(apparent, age * SECOND + delay)
  }

  // ----- Freshness -----

  datatype Response = Response(
    age: nat,                 // Age, in seconds, as capped above
    date: Option<int>,
    expires: Option<int>)

  /** An explicit lifetime wins; otherwise Expires counts from Date, not from receipt. */
  function Lifetime(r: Response, explicit: bool, lifetime: nat, received: int): nat {
    if explicit || r.expires.None? then lifetime
    else Max(r.expires.value - (if r.date.Some? then r.date.value else received), 0)
  }

  datatype Stored = Uncacheable | Cacheable(epoch: int, freshUntil: int)

  /** `end` is the last instant the clock can represent. */
  function Account(r: Response, explicit: bool, lifetime: nat, delay: nat, received: int, end: int): Stored {
    var age := InitialAge(r.age, r.date, received, delay);
    var epoch := received - age;
    if epoch < 0 then Uncacheable
    else
      var shelf := Lifetime(r, explicit, lifetime, received);
      Cacheable(epoch,
                if shelf == 0 then received - SECOND
                else if epoch + shelf <= end then epoch + shelf
                else received)
  }

  /** The age of the stored response at `t`: what it had on arrival and how long it has been here. */
  function AgeAt(r: Response, delay: nat, received: int, t: int): int {
    InitialAge(r.age, r.date, received, delay) + (t - received)
  }

  /** Expired exactly when the age has reached the lifetime, at every instant from receipt to the end of the clock. */
  ghost predicate ExpiresOnTime(s: Stored, r: Response, shelf: nat, delay: nat, received: int, end: int)
    requires s.Cacheable?
  {
    forall t :: received <= t <= end ==> (t >= s.freshUntil <==> AgeAt(r, delay, received, t) >= shelf)
  }

  /**
   Expiry is exact if and only if the expiry instant can be represented; a zero lifetime has
   always run out on arrival.
   */
  lemma ExpiryIsExactUnlessTheClockEnds(r: Response, explicit: bool, lifetime: nat, delay: nat, received: int, end: int)
    requires 0 <= received <= end
    requires Account(r, explicit, lifetime, delay, received, end).Cacheable?
    ensures var s := Account(r, explicit, lifetime, delay, received, end);
            var shelf := Lifetime(r, explicit, lifetime, received);
            && (forall t: int :: t - s.epoch == AgeAt(r, delay, received, t))
            && (shelf == 0 ==> s.freshUntil < received)
            && (ExpiresOnTime(s, r, shelf, delay, received, end) <==> shelf == 0 || s.epoch + shelf <= end)
  {
    var s := Account(r, explicit, lifetime, delay, received, end);
    var shelf := Lifetime(r, explicit, lifetime, received);
    if shelf != 0 && s.epoch + shelf > end {
      assert received >= s.freshUntil && AgeAt(r, delay, received, received) < shelf;
    }
  }

  /** Expired at `t`. */
  predicate Stale(s: Stored, t: int)
    requires s.Cacheable?
  {
    t >= s.freshUntil
  }

  /**
   Without an explicit lifetime a response lives from its Date to its Expires, or from its receipt
   if it has no Date; it is stale on arrival when the one is not after the other.
   */
  lemma LivesFromDateToExpires(r: Response, lifetime: nat, delay: nat, received: int, end: int, t: int)
    requires 0 <= received <= t <= end && r.expires.Some?
    requires Account(r, false, lifetime, delay, received, end).Cacheable?
    ensures var s := Account(r, false, lifetime, delay, received, end);
            var born := if r.date.Some? then r.date.value else received;
            && (r.expires.value <= born ==> Stale(s, t))
            && (s.epoch + (r.expires.value - born) <= end ==>
                  (Stale(s, t) <==> AgeAt(r, delay, received, t) >= r.expires.value - born))
  {
    ExpiryIsExactUnlessTheClockEnds(r, false, lifetime, delay, received, end);
  }

  /** An explicit lifetime is used whatever Expires says. */
  lemma ExplicitLifetimeWins(r: Response, lifetime: nat, delay: nat, received: int, end: int, t: int)
    requires 0 <= received <= t <= end
    requires Account(r, true, lifetime, delay, received, end).Cacheable?
    ensures var s := Account(r, true, lifetime, delay, received, end);
            s.epoch + lifetime <= end ==> (Stale(s, t) <==> AgeAt(r, delay, received, t) >= lifetime)
  {
    ExpiryIsExactUnlessTheClockEnds(r, true, lifetime, delay, received, end);
  }

  /** A response is stored exactly when it is not older than the clock's own beginning. */
  lemma StoredUnlessOlderThanTheClock(r: Response, explicit: bool, lifetime: nat, delay: nat, received: int, end: int)
    ensures Account(r, explicit, lifetime, delay, received, end).Cacheable? <==>
            r.age * SECOND + delay <= received && (r.date.Some? ==> r.date.value >= 0) && 0 <= received
  {
  }
}
