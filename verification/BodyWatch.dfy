/**
 The body-pause watch of one HTTP/2 stream.

 The serving task and the watchdog share two millisecond counters and a one-permit
 notification; both run in one task, so each poll and each store is one atomic
 step.  `Step` is that protocol; `H2BodyWatch` is the code, and each of its methods
 is one step.
 */
module BodyWatch {
  import opened Wire

  /** Nanoseconds in a millisecond: time passes in the first, the counters hold the second. */
  const MILLI: nat := 1_000_000

  /** Where the watchdog is suspended. */
  datatype Dog = Fresh | Listening | Sleeping(due: nat) | Fired

  datatype Watch = Watch(
    now: nat,           // the clock, in nanoseconds
    pause: nat,         // what the client may take between two chunks, in milliseconds; zero: unwatched
    moved: nat,         // the millisecond of the last restart
    permit: bool,       // a notification not yet consumed
    dog: Dog,
    held: seq<nat>)     // pauses set aside by the excused work now running, innermost last

  const START := Watch(0, 0, 0, false, Fresh, [])

  function NowMs(now: nat): nat {
    Min(now / MILLI, U64_MAX)
  }

  function PauseMs(pause: Option<nat>): nat {
    match pause
    case None => 0
    case Some(nanos) => Max(Min(nanos / MILLI, U64_MAX), 1)
  }

  function Deadline(moved: nat, pause: nat): nat {
    Min(moved + pause, U64_MAX)
  }

  datatype Event =
    | Tick(nanos: nat)
    | Arm(to: Option<nat>)
    | Rearm(to: Option<nat>)
    | Moved
    | Excuse               // excused work begins
    | Resume               // the innermost excused work ends
    | Poll(first: bool)    // the watchdog is polled; `first`: a due sleep is seen before a permit

  function Set(s: Watch, pause: Option<nat>): Watch {
    s.(moved := NowMs(s.now), pause := PauseMs(pause), permit := true)
  }

  /** The watchdog looks at the counters and goes back to sleep, or fires. */
  function Look(s: Watch): Watch {
    if s.pause == 0 then s.(dog := Listening, permit := false)
    else if NowMs(s.now) >= Deadline(s.moved, s.pause) then s.(dog := Fired)
    else s.(dog := Sleeping(Deadline(s.moved, s.pause)), permit := false)
  }

  function Polled(s: Watch, first: bool): Watch {
    match s.dog
    case Fired => s
    case Fresh => Look(s)
    case Listening => if s.permit then Look(s.(permit := false)) else s
    case Sleeping(due) =>
      var over := s.now >= due * MILLI;
      if over && (first || !s.permit) then Look(s)
      else if s.permit then Look(s.(permit := false))
      else s
  }

  function Resumed(s: Watch): Watch {
    if s.held == [] then s
    else
      var last := |s.held| - 1;
      var held := s.held[last];
      var popped := s.(held := s.held[..last]);
      if held == 0 then popped
      else popped.(moved := NowMs(s.now), pause := if s.pause == 0 then held else s.pause, permit := true)
  }

  /** One step.  A stream whose watchdog fired is dropped: only time still passes. */
  function Step(s: Watch, e: Event): Watch {
    match e
    case Tick(nanos) => s.(now := s.now + nanos)
    case _ => if s.dog.Fired? then s else Act(s, e)
  }

  function Act(s: Watch, e: Event): Watch
    requires !e.Tick?
  {
    match e
    case Arm(pause) => Set(s, pause)
    case Rearm(pause) => if s.pause != 0 then Set(s, pause) else s
    case Moved => s.(moved := NowMs(s.now))
    case Excuse => s.(pause := 0, held := s.held + [s.pause])
    case Resume => Resumed(s)
    case Poll(first) => Polled(s, first)
  }

  function Run(s: Watch, events: seq<Event>): Watch {
    if events == [] then s
    else
      var last := |events| - 1;
      Step(Run(s, events[..last]), events[last])
  }

  // ----- No wakeup is missed -----

  /** The counters never run ahead of the clock, and an armed watch has a wakeup no later than its deadline. */
  ghost predicate Covered(s: Watch) {
    && s.moved <= NowMs(s.now)
    && (s.pause == 0
        || s.permit
        || s.dog.Fresh?
        || s.dog.Fired?
        || (s.dog.Sleeping? && s.dog.due <= Deadline(s.moved, s.pause)))
  }

  lemma StepCovered(s: Watch, e: Event)
    requires Covered(s)
    ensures Covered(Step(s, e)) && s.moved <= Step(s, e).moved && s.now <= Step(s, e).now
  {
    assert forall a: nat, b: nat :: a <= b ==> a / MILLI <= b / MILLI;
  }

  lemma {:induction false} RunCovered(s: Watch, events: seq<Event>)
    requires Covered(s)
    ensures Covered(Run(s, events)) && s.moved <= Run(s, events).moved && s.now <= Run(s, events).now
    decreases |events|
  {
    if events != [] {
      var last := |events| - 1;
      RunCovered(s, events[..last]);
      StepCovered(Run(s, events[..last]), events[last]);
    }
  }

  /** In every run, an armed watch always has a wakeup pending no later than its current deadline. */
  lemma NeverMissesAWakeup(events: seq<Event>)
    ensures var s := Run(START, events);
            s.pause != 0 && !s.dog.Fired? && !s.dog.Fresh? && !s.permit ==>
              s.dog.Sleeping? && s.dog.due <= Deadline(s.moved, s.pause)
  {
    RunCovered(START, events);
  }

  // ----- It never fires early -----

  /** The state after the first `k` events. */
  ghost function At(events: seq<Event>, k: nat): Watch
    requires k <= |events|
  {
    Run(START, events[..k])
  }

  lemma AtNext(events: seq<Event>, k: nat)
    requires k < |events|
    ensures At(events, k + 1) == Step(At(events, k), events[k])
    ensures Covered(At(events, k))
  {
    assert events[..k + 1][..k] == events[..k];
    RunCovered(START, events[..k]);
  }

  /** The body moved, or the clock was started again. */
  predicate Restarts(s: Watch, e: Event) {
    && !s.dog.Fired?
    && match e
       case Arm(_) => true
       case Rearm(_) => s.pause != 0
       case Moved => true
       case Resume => s.held != [] && s.held[|s.held| - 1] != 0
       case _ => false
  }

  lemma OnlyRestartsMoveTheClock(s: Watch, e: Event)
    ensures Restarts(s, e) ==> Step(s, e).moved == NowMs(s.now)
    ensures !Restarts(s, e) ==> Step(s, e).moved == s.moved && Step(s, e).pause in {0, s.pause}
  {
  }

  lemma {:induction false} TimeIsMonotone(events: seq<Event>, i: nat, j: nat)
    requires i <= j <= |events|
    ensures At(events, i).now <= At(events, j).now && At(events, i).moved <= At(events, j).moved
    decreases j - i
  {
    if i < j {
      TimeIsMonotone(events, i, j - 1);
      AtNext(events, j - 1);
      StepCovered(At(events, j - 1), events[j - 1]);
    }
  }

  /** Between two restarts an armed watch was armed with that pause all along. */
  lemma {:induction false} PauseHeld(events: seq<Event>, i: nat, j: nat)
    requires i <= j <= |events| && At(events, j).pause != 0
    requires forall k :: i <= k < j ==> !Restarts(At(events, k), events[k])
    ensures At(events, i).pause == At(events, j).pause
    decreases j - i
  {
    if i < j {
      AtNext(events, j - 1);
      OnlyRestartsMoveTheClock(At(events, j - 1), events[j - 1]);
      PauseHeld(events, i, j - 1);
    }
  }

  /** A restart at `k` is at least the whole pause before a firing look at the end of the run. */
  lemma RestartIsOld(events: seq<Event>, k: nat)
    requires k < |events| && Restarts(At(events, k), events[k])
    requires var s := At(events, |events|); NowMs(s.now) >= s.moved + s.pause
    ensures var s := At(events, |events|);
            && NowMs(At(events, k).now) + s.pause <= NowMs(s.now)
            && (s.now / MILLI < U64_MAX ==> s.now - At(events, k).now > (s.pause - 1) * MILLI)
  {
    AtNext(events, k);
    OnlyRestartsMoveTheClock(At(events, k), events[k]);
    TimeIsMonotone(events, k + 1, |events|);
    TimeIsMonotone(events, k, |events|);
  }

  /**
   The stream is ended only by a poll that finds the watch armed, with no restart
   for the whole pause and that very pause in force throughout.
   */
  lemma FiresOnlyAfterAQuietPause(events: seq<Event>, e: Event)
    requires var s := Run(START, events);
             !s.dog.Fired? && Step(s, e).dog.Fired? && s.now / MILLI < U64_MAX
    ensures var s := Run(START, events);
            && e.Poll? && s.pause != 0
            && (forall k :: 0 <= k < |events| && Restarts(At(events, k), events[k]) ==>
                  && NowMs(At(events, k).now) + s.pause <= NowMs(s.now)
                  && s.now - At(events, k).now > (s.pause - 1) * MILLI)
            && (forall k :: 0 <= k <= |events| && NowMs(At(events, k).now) + s.pause > NowMs(s.now) ==>
                  At(events, k).pause == s.pause)
  {
    hide Run, Restarts, NowMs;
    var n := |events|;
    assert events[..n] == events;
    var s := At(events, n);
    FiringLook(s, e);
    RunCovered(START, events);
    forall k | 0 <= k < n && Restarts(At(events, k), events[k])
      ensures NowMs(At(events, k).now) + s.pause <= NowMs(s.now)
      ensures s.now - At(events, k).now > (s.pause - 1) * MILLI
    {
      RestartIsOld(events, k);
    }
    forall k | 0 <= k <= n && NowMs(At(events, k).now) + s.pause > NowMs(s.now)
      ensures At(events, k).pause == s.pause
    {
      LateIsQuiet(events, k);
      PauseHeld(events, k, n);
    }
  }

  lemma FiringLook(s: Watch, e: Event)
    requires !s.dog.Fired? && Step(s, e).dog.Fired? && s.now / MILLI < U64_MAX
    ensures e.Poll? && s.pause != 0 && NowMs(s.now) >= s.moved + s.pause
  {
  }

  /** Nothing restarts the clock less than the pause before a firing look. */
  lemma LateIsQuiet(events: seq<Event>, k: nat)
    requires k <= |events|
    requires var s := At(events, |events|);
             NowMs(s.now) >= s.moved + s.pause && NowMs(At(events, k).now) + s.pause > NowMs(s.now)
    ensures forall j :: k <= j < |events| ==> !Restarts(At(events, j), events[j])
  {
    hide Restarts, Run;
    forall j | k <= j < |events| ensures !Restarts(At(events, j), events[j]) {
      TimeIsMonotone(events, k, j);
      if Restarts(At(events, j), events[j]) {
        RestartIsOld(events, j);
      }
    }
  }

  // ----- A prompt executor -----

  /** The watchdog's waker has fired, or it has not been polled yet. */
  predicate MustPoll(s: Watch) {
    match s.dog
    case Fresh => true
    case Listening => s.permit
    case Sleeping(due) => s.permit || s.now >= due * MILLI
    case Fired => false
  }

  /** Time passes only while no wakeup is outstanding, and not past the next timer. */
  predicate Prompt(s: Watch, e: Event) {
    e.Tick? && e.nanos > 0 ==> !MustPoll(s) && (s.dog.Sleeping? ==> s.now + e.nanos <= s.dog.due * MILLI)
  }

  ghost predicate PromptRun(events: seq<Event>) {
    forall k :: 0 <= k < |events| ==> Prompt(At(events, k), events[k])
  }

  /** The clock has not passed an armed deadline. */
  ghost predicate InTime(s: Watch) {
    s.now / MILLI < U64_MAX && s.pause != 0 && !s.dog.Fired? ==> s.now <= Deadline(s.moved, s.pause) * MILLI
  }

  lemma PromptStep(s: Watch, e: Event)
    requires Covered(s) && InTime(s) && Prompt(s, e)
    ensures InTime(Step(s, e))
  {
    var t := Step(s, e);
    if t.now / MILLI < U64_MAX && t.pause != 0 && !t.dog.Fired? && Restarts(s, e) {
      OnlyRestartsMoveTheClock(s, e);
      assert Deadline(t.moved, t.pause) >= s.now / MILLI + 1;
    }
  }

  lemma {:induction false} PromptRunInTime(events: seq<Event>, k: nat)
    requires PromptRun(events) && k <= |events|
    ensures InTime(At(events, k))
  {
    if k > 0 {
      PromptRunInTime(events, k - 1);
      AtNext(events, k - 1);
      PromptStep(At(events, k - 1), events[k - 1]);
    }
  }

  /** Under a prompt executor a stalled stream ends exactly at its deadline, neither later nor earlier. */
  lemma PromptExecutorFiresOnTime(events: seq<Event>, e: Event)
    requires PromptRun(events)
    requires var s := Run(START, events);
             !s.dog.Fired? && Step(s, e).dog.Fired? && s.now / MILLI < U64_MAX
    ensures var s := Run(START, events); s.now == (s.moved + s.pause) * MILLI
  {
    var n := |events|;
    assert events[..n] == events;
    PromptRunInTime(events, n);
  }

  // ----- How long a pause lasts -----

  /**
   The armed pause against the one asked for: whole milliseconds, rounded down, but at least one and
   at most what the counter holds.  Re-arming is arming, for a watch that is armed.
   */
  lemma PauseAskedFor(s: Watch, nanos: nat)
    requires !s.dog.Fired?
    ensures var t := Step(s, Arm(Some(nanos)));
            && 1 <= t.pause <= U64_MAX && t.moved == NowMs(s.now) && t.permit
            && (t.pause > 1 ==> t.pause * MILLI <= nanos)
            && (t.pause < U64_MAX ==> nanos < (t.pause + 1) * MILLI)
    ensures Step(s, Arm(None)).pause == 0
    ensures forall to :: Step(s, Rearm(to)) == if s.pause == 0 then s else Step(s, Arm(to))
  {
  }

  /** None of `events`, taken from `s` on, restarts the clock. */
  ghost predicate NoRestart(s: Watch, events: seq<Event>) {
    forall k :: 0 <= k < |events| ==> !Restarts(Run(s, events[..k]), events[k])
  }

  lemma {:induction false} QuietRun(s: Watch, events: seq<Event>)
    requires Covered(s) && NoRestart(s, events)
    ensures var t := Run(s, events);
            Covered(t) && t.moved == s.moved && t.pause in {0, s.pause} && t.now >= s.now
    decreases |events|
  {
    if events != [] {
      var last := |events| - 1;
      var front := events[..last];
      forall k | 0 <= k < last ensures !Restarts(Run(s, front[..k]), front[k]) {
        assert front[..k] == events[..k];
      }
      QuietRun(s, front);
      StepCovered(Run(s, front), events[last]);
      OnlyRestartsMoveTheClock(Run(s, front), events[last]);
    }
  }

  /** A poll that ends the stream after quiet `events`. */
  ghost predicate Cuts(s: Watch, events: seq<Event>, first: bool) {
    && NoRestart(s, events)
    && !Run(s, events).dog.Fired? && Step(Run(s, events), Poll(first)).dog.Fired?
  }

  lemma MilliFloor(t: nat, d: nat)
    ensures t / MILLI >= d <==> t >= d * MILLI
    ensures t / MILLI * MILLI + t % MILLI == t
  {
  }

  /** A quiet watch is cut no earlier than its deadline. */
  lemma CutIsDue(s: Watch, events: seq<Event>, first: bool)
    requires Covered(s) && s.pause != 0 && Cuts(s, events, first)
    ensures Run(s, events).now >= Max(s.now, Deadline(s.moved, s.pause) * MILLI)
  {
    QuietRun(s, events);
    MilliFloor(Run(s, events).now, Deadline(s.moved, s.pause));
  }

  /** And it can be cut just then: time passes up to the deadline and the watchdog is polled. */
  lemma CutWhenDue(s: Watch) returns (events: seq<Event>)
    requires Covered(s) && s.pause != 0 && !s.dog.Fired?
    ensures Cuts(s, events, true)
    ensures Run(s, events).now == Max(s.now, Deadline(s.moved, s.pause) * MILLI)
  {
    var due := Deadline(s.moved, s.pause) * MILLI;
    events := [Tick(Max(s.now, due) - s.now)];
    assert events[..0] == [];
    MilliFloor(Max(s.now, due), Deadline(s.moved, s.pause));
    if s.dog.Sleeping? {
      assert s.permit || s.dog.due <= Deadline(s.moved, s.pause);
    }
  }

  /** After the restart `e`, every quiet run that is cut lasts at least `nanos`. */
  ghost predicate Lasts(s: Watch, e: Event, nanos: nat) {
    var t := Step(s, e);
    forall events, first :: Cuts(t, events, first) ==> Run(t, events).now >= s.now + nanos
  }

  /** How long a restarted pause lasts: up to its deadline in whole milliseconds, and no longer. */
  lemma LastsExactly(before: seq<Event>, e: Event, nanos: nat)
    requires var s := Run(START, before); Restarts(s, e) && Step(s, e).pause != 0
    ensures var s := Run(START, before);
            Lasts(s, e, nanos) <==> s.now + nanos <= Max(s.now, Deadline(NowMs(s.now), Step(s, e).pause) * MILLI)
  {
    var s := Run(START, before);
    RunCovered(START, before);
    StepCovered(s, e);
    OnlyRestartsMoveTheClock(s, e);
    var t := Step(s, e);
    if s.now + nanos <= Max(s.now, Deadline(t.moved, t.pause) * MILLI) {
      forall events, first | Cuts(t, events, first) ensures Run(t, events).now >= s.now + nanos {
        CutIsDue(t, events, first);
      }
    } else {
      var events := CutWhenDue(t);
      assert Cuts(t, events, true);
    }
  }

  /**
   The whole pause is waited out after every restart that falls on a whole millisecond with its
   deadline in range, and after no other: both counters drop the fraction of a millisecond.
   */
  lemma WholePauseExactlyOnTheMillisecond(before: seq<Event>, e: Event)
    requires var s := Run(START, before); Restarts(s, e) && Step(s, e).pause != 0
    ensures var s := Run(START, before);
            var pause := Step(s, e).pause;
            Lasts(s, e, pause * MILLI) <==> s.now % MILLI == 0 && s.now / MILLI + pause <= U64_MAX
  {
    hide Lasts, Run;
    var s := Run(START, before);
    LastsExactly(before, e, Step(s, e).pause * MILLI);
    MilliFloor(s.now, U64_MAX);
  }

  /** For instance, a one-millisecond pause begun just before the counter ticks lasts one nanosecond. */
  lemma RoundingCanShortenAPause()
    ensures var armed := Step(Step(Step(START, Tick(MILLI - 1)), Arm(Some(MILLI))), Poll(true));
            && armed.pause == 1 && !armed.dog.Fired?
            && Step(Step(armed, Tick(1)), Poll(true)).dog.Fired?
  {
  }

  // ----- Excused work -----

  /** How many excused pieces of work opened in `events` are still running. */
  function Depth(events: seq<Event>): int {
    if events == [] then 0
    else
      var last := |events| - 1;
      Depth(events[..last]) + (match events[last] case Excuse => 1 case Resume => -1 case _ => 0)
  }

  /** Events inside one piece of excused work: none ends more than the work that began inside it. */
  ghost predicate Inside(events: seq<Event>) {
    forall k :: 0 <= k <= |events| ==> Depth(events[..k]) >= 0
  }

  lemma InsideFront(events: seq<Event>)
    requires Inside(events) && events != []
    ensures Inside(events[..|events| - 1]) && Depth(events) >= 0
  {
    var front := events[..|events| - 1];
    assert events[..|events|] == events;
    forall k | 0 <= k <= |front| ensures Depth(front[..k]) >= 0 {
      assert front[..k] == events[..k];
    }
  }

  /** The pauses set aside before and by the outermost work stay under everything that happens inside. */
  lemma {:induction false} StackStays(s: Watch, events: seq<Event>)
    requires Inside(events) && !Run(Step(s, Excuse), events).dog.Fired?
    ensures !s.dog.Fired? && Depth(events) >= 0
    ensures var t := Run(Step(s, Excuse), events);
            |t.held| == |s.held| + 1 + Depth(events) && s.held + [s.pause] <= t.held
    decreases |events|
  {
    if events != [] {
      InsideFront(events);
      StackStays(s, events[..|events| - 1]);
    }
  }

  /**
   What excused work leaves behind, whatever happened inside it: the pauses set aside before it,
   the pause in force when it ended or else the one it set aside, and a clock started afresh.
   */
  lemma AfterExcusedWork(s: Watch, events: seq<Event>)
    requires Inside(events) && Depth(events) == 0 && !Run(Step(s, Excuse), events).dog.Fired?
    ensures var u := Run(Step(s, Excuse), events);
            var t := Step(u, Resume);
            && !t.dog.Fired? && t.held == s.held
            && t.pause == (if u.pause == 0 then s.pause else u.pause)
            && (s.pause != 0 ==> t.moved == NowMs(t.now) && t.permit)
            && (s.pause == 0 ==> t == u.(held := s.held))
  {
    hide Run, Inside, Depth;
    StackStays(s, events);
    assert Run(Step(s, Excuse), events).held == s.held + [s.pause];
  }

  /** The pause the watch would have if all excused work ended now, from the pauses set aside above a level. */
  function Effective(held: seq<nat>, pause: nat): nat {
    if pause != 0 || held == [] then pause else Effective(held[..|held| - 1], held[|held| - 1])
  }

  /** Only arming changes it. */
  lemma EffectiveStep(s: Watch, e: Event, level: nat)
    requires !e.Arm? && !e.Rearm? && level <= |s.held| && (e.Resume? ==> level < |s.held|)
    ensures level <= |Step(s, e).held|
    ensures Effective(Step(s, e).held[level..], Step(s, e).pause) == Effective(s.held[level..], s.pause)
  {
    var above := s.held[level..];
    if e.Excuse? && !s.dog.Fired? {
      var next := Step(s, e).held[level..];
      assert next == above + [s.pause] && next[..|above|] == above;
    } else if e.Resume? {
      assert s.held[..|s.held| - 1][level..] == above[..|above| - 1];
    }
  }

  ghost predicate ArmsNothing(events: seq<Event>) {
    forall k :: 0 <= k < |events| ==> !events[k].Arm? && !events[k].Rearm?
  }

  lemma {:induction false} EffectiveRun(s: Watch, before: seq<Event>, after: seq<Event>)
    requires Inside(before + after) && ArmsNothing(after) && !Run(Step(s, Excuse), before + after).dog.Fired?
    ensures var n := |s.held|;
            var u, t := Run(Step(s, Excuse), before), Run(Step(s, Excuse), before + after);
            && n <= |u.held| && n <= |t.held|
            && Effective(t.held[n..], t.pause) == Effective(u.held[n..], u.pause)
    decreases |after|
  {
    hide Effective;
    var all := before + after;
    StackStays(s, all);
    if after == [] {
      assert all == before;
    } else {
      var last := |all| - 1;
      var front := after[..|after| - 1];
      assert all[..last] == before + front && all[last] == after[|after| - 1];
      InsideFront(all);
      EffectiveRun(s, before, front);
      StackStays(s, before + front);
      EffectiveStep(Run(Step(s, Excuse), before + front), all[last], |s.held|);
    }
  }

  lemma StaysUnfired(s: Watch, before: seq<Event>, after: seq<Event>)
    requires !Run(s, before + after).dog.Fired?
    ensures !Run(s, before).dog.Fired?
    decreases |after|
  {
    var all := before + after;
    if after == [] {
      assert all == before;
    } else {
      assert all[..|all| - 1] == before + after[..|after| - 1];
      StaysUnfired(s, before, after[..|after| - 1]);
    }
  }

  /**
   The last word on the pause, spoken anywhere inside and followed by anything that arms nothing:
   an armed pause is in force afterwards, and a disarm leaves the innermost pause set aside around
   it.  So a disarm does not survive when it is spoken by the work itself: the compare-exchange cannot tell it from the stop that `excused` made, so the last word
   is kept exactly when it armed the watch or nothing was armed before.
   */
  lemma LastWordKeptUnlessDisarmed(s: Watch, before: seq<Event>, to: Option<nat>, after: seq<Event>)
    requires var all := before + [Arm(to)] + after;
             Inside(all) && Depth(all) == 0 && ArmsNothing(after) && !Run(Step(s, Excuse), all).dog.Fired?
    ensures var t := Step(Run(Step(s, Excuse), before + [Arm(to)] + after), Resume);
            var aside := Run(Step(s, Excuse), before).held;
            && |s.held| <= |aside| && t.pause == Effective(aside[|s.held|..], PauseMs(to))
            && (to.Some? ==> t.pause == PauseMs(to))
            && (Depth(before) == 0 ==>
                  && t.pause == (if to.Some? then PauseMs(to) else s.pause)
                  && (t.pause == PauseMs(to) <==> to.Some? || s.pause == 0))
  {
    var n, spoken := |s.held|, before + [Arm(to)];
    var all := spoken + after;
    var u, v := Run(Step(s, Excuse), spoken), Run(Step(s, Excuse), all);
    AfterExcusedWork(s, all);
    StackStays(s, all);
    assert v.held[n..] == [s.pause];
    EffectiveRun(s, spoken, after);
    StaysUnfired(Step(s, Excuse), spoken, after);
    assert spoken[..|before|] == before;
    InsidePrefix(spoken, after);
    InsidePrefix(before, [Arm(to)]);
    StaysUnfired(Step(s, Excuse), before, [Arm(to)]);
    StackStays(s, before);
    assert Effective([s.pause], v.pause) == (if v.pause == 0 then s.pause else v.pause);
    if Depth(before) == 0 {
      assert u.held[n..] == [s.pause];
    }
  }

  lemma InsidePrefix(before: seq<Event>, after: seq<Event>)
    requires Inside(before + after)
    ensures Inside(before)
  {
    forall k | 0 <= k <= |before| ensures Depth(before[..k]) >= 0 {
      assert before[..k] == (before + after)[..k];
    }
  }

  /** No event arms the watch; disarming and re-arming are allowed. */
  ghost predicate NeverArmed(events: seq<Event>) {
    forall k :: 0 <= k < |events| ==> events[k].Arm? ==> events[k].to.None?
  }

  function Zeros(n: nat): seq<nat> {
    seq(n, _ => 0)
  }

  lemma {:induction false} WatchStaysStopped(s: Watch, events: seq<Event>)
    requires !s.dog.Fired? && Inside(events) && NeverArmed(events)
    ensures Depth(events) >= 0
    ensures var t := Run(Step(s, Excuse), events);
            !t.dog.Fired? && t.pause == 0 && t.held == s.held + [s.pause] + Zeros(Depth(events))
    decreases |events|
  {
    if events != [] {
      var last := |events| - 1;
      var front := events[..last];
      InsideFront(events);
      WatchStaysStopped(s, front);
      var outer := s.held + [s.pause];
      assert outer + Zeros(Depth(front)) + [0] == outer + Zeros(Depth(front) + 1);
      if Depth(front) > 0 {
        assert (outer + Zeros(Depth(front)))[..|outer| + Depth(front) - 1] == outer + Zeros(Depth(front) - 1);
      }
    } else {
      assert Zeros(0) == [];
    }
  }

  /**
   Work the server chose to wait on is never cut unless it arms the watch itself, however long it
   takes; afterwards the watch has the pause it had before, with a fresh clock.
   */
  lemma ExcusedWorkIsNeverCut(s: Watch, events: seq<Event>)
    requires !s.dog.Fired? && Inside(events) && Depth(events) == 0 && NeverArmed(events)
    ensures var t := Step(Run(Step(s, Excuse), events), Resume);
            && !t.dog.Fired? && t.pause == s.pause && t.held == s.held
            && (s.pause != 0 ==> t.moved == NowMs(t.now) && t.permit)
  {
    WatchStaysStopped(s, events);
    AfterExcusedWork(s, events);
  }

  // ----- The code -----

  class H2BodyWatch {
    var now: nat
    var pauseMs: nat
    var movedMs: nat
    var permit: bool
    var dog: Dog
    ghost var held: seq<nat>

    ghost function State(): Watch
      reads this
    {
      Watch(now, pauseMs, movedMs, permit, dog, held)
    }

    constructor ()
      ensures State() == START
    {
      now, pauseMs, movedMs, permit, dog := 0, 0, 0, false, Fresh;
      held := [];
    }

    method Store(pause: Option<nat>)
      modifies this
      ensures State() == Set(old(State()), pause)
    {
      var ms := match pause case None => 0 case Some(nanos) => Max(Min(nanos / MILLI, U64_MAX), 1);
      movedMs := NowMs(now);
      pauseMs := ms;
      permit := true;
    }

    method ArmWith(pause: Option<nat>)
      requires !dog.Fired?
      modifies this
      ensures State() == Step(old(State()), Arm(pause))
    {
      Store(pause);
    }

    method RearmWith(pause: Option<nat>)
      requires !dog.Fired?
      modifies this
      ensures State() == Step(old(State()), Rearm(pause))
    {
      if pauseMs != 0 {
        Store(pause);
      }
    }

    method Move()
      requires !dog.Fired?
      modifies this
      ensures State() == Step(old(State()), Moved)
    {
      movedMs := NowMs(now);
    }

    /** Stops the watch before excused work and returns the pause set aside. */
    method BeginExcused() returns (aside: nat)
      requires !dog.Fired?
      modifies this
      ensures State() == Step(old(State()), Excuse)
      ensures held == old(held) + [aside]
    {
      aside := pauseMs;
      pauseMs := 0;
      held := held + [aside];
    }

    /** Starts the clock again after it, unless something armed the watch meanwhile. */
    method EndExcused(aside: nat)
      requires !dog.Fired? && held != [] && held[|held| - 1] == aside
      modifies this
      ensures State() == Step(old(State()), Resume)
    {
      held := held[..|held| - 1];
      if aside != 0 {
        movedMs := NowMs(now);
        if pauseMs == 0 {
          pauseMs := aside;
        }
        permit := true;
      }
    }

    /** One poll of the watchdog: resumes where it was suspended and loops until it must wait or fires. */
    method PollStalled(first: bool)
      requires !dog.Fired?
      modifies `permit, `dog
      ensures State() == Step(old(State()), Poll(first))
    {
      match dog {
        case Listening =>
          if !permit {
            return;
          }
          permit := false;
        case Sleeping(due) =>
          var over := now >= due * MILLI;
          if !over || !first {
            if !over && !permit {
              return;
            }
            permit := false;
          }
        case Fresh =>
      }
      ghost var resumed := State();
      while true
        invariant State() == resumed || (State() == resumed.(permit := false) && !Look(resumed).dog.Fired?)
        decreases permit
      {
        if pauseMs == 0 {
          if permit {
            permit := false;
            continue;
          }
          dog := Listening;
          return;
        }
        var dueMs := Min(movedMs + pauseMs, U64_MAX);
        if NowMs(now) >= dueMs {
          dog := Fired;
          return;
        }
        if permit {
          permit := false;
          continue;
        }
        dog := Sleeping(dueMs);
        return;
      }
    }
  }
}
