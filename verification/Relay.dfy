/**
 The two-direction relay: bounded buffers, one idle timer, one task.

 Each `Direction` carries ghost ledgers of what it has read and what its writer
 has accepted, and every method keeps the two in step with the real endpoints.
 */
module Relay {
  import opened Wire
  import opened Transport

  datatype Options = Options(bufferSize: nat, idleTimeout: nat, halfClose: bool)

  /** One turn of a direction: whether anything moved, or an error that ends the relay. */
  datatype Turn = Turned(progress: bool) | Broke

  /** A turn that moved something is one answered poll, a fault is one failed poll or empty write. */
  ghost predicate Recorded(r: Turn, before: Ledger, after: Ledger, now: nat) {
    after == match r
             case Turned(progress) => if progress then before.Move(now) else before
             case Broke => before.Fault()
  }

  /** Some polls at `now`, at most `most` of them answered, none of them faulty unless counted. */
  ghost predicate Grown(before: Ledger, after: Ledger, now: nat, most: nat) {
    && before.moves <= after.moves <= before.moves + most && before.faults <= after.faults
    && after.movedAt == (if after.moves > before.moves then now else before.movedAt)
    && after.interruptions == before.interruptions
  }

  class Direction {
    var bytes: array<byte>
    var start: nat
    var end: nat
    var readSize: nat
    var eof: bool
    var closed: bool
    var flush: bool

    ghost const reader: Endpoint
    ghost const writer: Endpoint
    ghost const prefix: Bytes       // replayed before anything is read
    ghost const base: nat           // the reader's position when the relay began
    ghost const before: Bytes       // what the writer had accepted by then

    /** Every byte this direction is responsible for. */
    ghost function Input(): Bytes
      requires base <= reader.taken <= |reader.stream|
      reads this, reader`taken
    {
      prefix + reader.stream[base..reader.taken]
    }

    ghost predicate Valid()
      reads this, bytes, reader`taken, writer`accepted, writer`unflushed, writer`shut
    {
      && reader != writer && reader.Valid() && base <= reader.taken
      && 0 < readSize <= bytes.Length
      && start <= end <= bytes.Length
      && before <= writer.accepted
      && writer.accepted[|before|..] + bytes[start..end] == Input()
      && (writer.unflushed ==> flush)
      && (eof ==> Drained() && reader.taken == |reader.stream|)
      && (closed ==> eof)
      && closed == writer.shut
    }

    predicate Drained()
      reads this
    {
      start == end && !flush
    }

    /** How many steps the direction can still take without reading: a byte is written, then flushed. */
    ghost function Left(): nat
      requires start <= end
      reads this
    {
      2 * (end - start) + if flush then 1 else 0
    }

    constructor (prefix: Bytes, size: nat, ghost reader: Endpoint, ghost writer: Endpoint)
      requires size > 0 && reader != writer && reader.Valid() && !writer.shut && !writer.unflushed
      ensures this.reader == reader && this.writer == writer && this.prefix == prefix
      ensures base == reader.taken && before == writer.accepted
      ensures Valid() && fresh(bytes) && !eof && !closed
      ensures bytes.Length == Max(size, |prefix|) && readSize == size
    {
      var length := Max(size, |prefix|);
      bytes := new byte[length](i => if 0 <= i < |prefix| then prefix[i] else 0);
      start, end, readSize := 0, |prefix|, size;
      eof, closed, flush := false, false, false;
      this.reader, this.writer, this.prefix := reader, writer, prefix;
      this.base, this.before := reader.taken, writer.accepted;
      new;
      assert bytes[0..|prefix|] == prefix;
    }

    /** Each operation this direction still needs was polled and left its waker behind. */
    ghost predicate Parked(halfClose: bool, readOpen: bool)
      reads this, reader`parked, writer`parked
    {
      && (start < end ==> Writing in writer.parked)
      && (start == end && flush ==> Flushing in writer.parked)
      && (Drained() && !eof && readOpen ==> Reading in reader.parked)
      && (Drained() && eof && halfClose && !closed ==> Closing in writer.parked)
    }

    method TryWrite(write: Endpoint, ghost now: nat) returns (r: Turn)
      requires Valid() && write == writer
      modifies `start, `flush, write`accepted, write`unflushed, write`parked, write`ledger
      ensures Valid()
      ensures Recorded(r, old(write.ledger), write.ledger, now)
      ensures old(write.parked) <= write.parked + {Writing}
      ensures r == Turned(false) ==> start == old(start) && flush == old(flush)
      ensures r == Turned(false) && start < end ==> Writing in write.parked
      ensures r == Turned(true) ==> old(start) < start && |write.accepted| > |old(write.accepted)|
      ensures |write.accepted| >= |old(write.accepted)|
    {
      if start == end {
        return Turned(false);
      }
      var poll := write.PollWrite(bytes, start, end, now);
      match poll {
        case Ready(n) =>
          if n == 0 {
            assert bytes[start..start] == [];
            return Broke;
          }
          assert bytes[start..end] == bytes[start..start + n] + bytes[start + n..end];
          start := start + n;
          flush := true;
          return Turned(true);
        case Pending => return Turned(false);
        case Failed => return Broke;
      }
    }

    method TryFlush(write: Endpoint, ghost now: nat) returns (r: Turn)
      requires Valid() && write == writer
      modifies `flush, write`unflushed, write`parked, write`ledger
      ensures Valid()
      ensures Recorded(r, old(write.ledger), write.ledger, now)
      ensures old(write.parked) <= write.parked + {Flushing}
      ensures r == Turned(false) ==> flush == old(flush)
      ensures r == Turned(false) && start == end && flush ==> Flushing in write.parked
      ensures r == Turned(true) ==> start == end && old(flush) && Drained()
      ensures start != end || !old(flush) ==> write.unflushed == old(write.unflushed) && flush == old(flush)
    {
      if start != end || !flush {
        return Turned(false);
      }
      var poll := write.PollFlush(now);
      match poll {
        case Ready(_) =>
          flush := false;
          return Turned(true);
        case Pending => return Turned(false);
        case Failed => return Broke;
      }
    }

    /** Reads only when everything held was written and flushed, so one buffer is enough. */
    method TryRead(read: Endpoint, readOpen: bool, ghost now: nat) returns (r: Turn)
      requires Valid() && read == reader
      modifies `start, `end, `eof, bytes, read`taken, read`parked, read`ledger
      ensures Valid()
      ensures Recorded(r, old(read.ledger), read.ledger, now)
      ensures old(read.parked) <= read.parked + {Reading}
      ensures old(eof) ==> eof
      ensures r == Turned(false) ==> start == old(start) && end == old(end) && eof == old(eof)
      ensures r == Turned(false) && Drained() && !eof && readOpen ==> Reading in read.parked
      ensures r == Turned(true) ==> read.taken > old(read.taken) || (eof && !old(eof))
      ensures old(read.taken) <= read.taken <= old(read.taken) + readSize
      ensures !old(Drained()) || old(eof) || !readOpen ==>
                r == Turned(false) && read.taken == old(read.taken) && read.parked == old(read.parked)
    {
      if !Drained() || eof || !readOpen {
        return Turned(false);
      }
      ghost var taken := read.taken;
      ghost var input := Input();
      var poll := read.PollRead(bytes, readSize, now);
      match poll {
        case Ready(n) =>
          start, end := 0, n;
          eof := end == 0;
          assert Input() == input + read.stream[taken..read.taken];
          assert bytes[0..n] == bytes[..n];
          return Turned(true);
        case Pending =>
          return Turned(false);
        case Failed => return Broke;
      }
    }

    method TryShutdown(write: Endpoint, halfClose: bool, ghost now: nat) returns (r: Turn)
      requires Valid() && write == writer
      modifies `closed, write`shut, write`parked, write`ledger
      ensures Valid()
      ensures Recorded(r, old(write.ledger), write.ledger, now)
      ensures old(write.parked) <= write.parked + {Closing}
      ensures closed && !old(closed) ==> halfClose && eof && Drained()
      ensures !halfClose ==> r == Turned(false)
      ensures r == Turned(true) <==> closed && !old(closed)
      ensures r == Turned(false) && Drained() && eof && halfClose && !closed ==> Closing in write.parked
    {
      if !eof || !Drained() || !halfClose || closed {
        return Turned(false);
      }
      var poll := write.PollShutdown(now);
      match poll {
        case Ready(_) =>
          closed := true;
          return Turned(true);
        case Pending => return Turned(false);
        case Failed => return Broke;
      }
    }

    /** The writing half of a turn. */
    method PushOut(write: Endpoint, ghost now: nat) returns (r: Turn)
      requires Valid() && write == writer
      modifies `start, `flush, write`accepted, write`unflushed, write`parked, write`ledger
      ensures Valid()
      ensures old(write.parked) <= write.parked + {Writing, Flushing}
      ensures r == Turned(false) ==>
                && (start < end ==> Writing in write.parked) && (start == end && flush ==> Flushing in write.parked)
      ensures Grown(old(write.ledger), write.ledger, now, 2)
      ensures r.Turned? ==> (r.progress <==> write.ledger.moves > old(write.ledger.moves))
      ensures write.ledger.faults == old(write.ledger.faults) + if r.Broke? then 1 else 0
      ensures |write.accepted| >= |old(write.accepted)|
      ensures r == Turned(true) ==> |write.accepted| > |old(write.accepted)| || (old(flush) && !flush)
      ensures r.Turned? ==> if r.progress then Left() < old(Left()) else Left() == old(Left())
    {
      hide Valid;
      var written := TryWrite(write, now);
      if written.Broke? {
        return Broke;
      }
      var flushed := TryFlush(write, now);
      if flushed.Broke? {
        return Broke;
      }
      return Turned(written.progress || flushed.progress);
    }

    /** The reading half of a turn, and the shutdown that follows the end of file. */
    method PullIn(read: Endpoint, write: Endpoint, halfClose: bool, readOpen: bool, ghost now: nat) returns (r: Turn)
      requires Valid() && read == reader && write == writer && read != write
      modifies `start, `end, `eof, `closed, bytes
      modifies read`taken, read`parked, read`ledger, write`shut, write`parked, write`ledger
      ensures Valid()
      ensures old(eof) ==> eof
      ensures old(read.parked) <= read.parked + {Reading} && old(write.parked) <= write.parked + {Closing}
      ensures closed ==> old(closed) || halfClose
      ensures r == Turned(false) ==>
                && start == old(start) && end == old(end) && eof == old(eof)
                && (Drained() && !eof && readOpen ==> Reading in read.parked)
                && (Drained() && eof && halfClose && !closed ==> Closing in write.parked)
      ensures Grown(old(read.ledger), read.ledger, now, 1) && Grown(old(write.ledger), write.ledger, now, 1)
      ensures r.Turned? ==>
                (r.progress <==> read.ledger.moves + write.ledger.moves > old(read.ledger.moves + write.ledger.moves))
      ensures read.ledger.faults + write.ledger.faults
           == old(read.ledger.faults + write.ledger.faults) + if r.Broke? then 1 else 0
      ensures read.taken >= old(read.taken)
      ensures r == Turned(true) ==> read.taken > old(read.taken) || (eof && !old(eof)) || (closed && !old(closed))
      ensures !readOpen || old(eof) ==> read.taken == old(read.taken) && eof == old(eof) && Left() == old(Left())
      ensures (!readOpen || old(eof)) && !halfClose ==> r == Turned(false)
    {
      hide Valid;
      var fetched := TryRead(read, readOpen, now);
      if fetched.Broke? {
        return Broke;
      }
      var shut := TryShutdown(write, halfClose, now);
      if shut.Broke? {
        return Broke;
      }
      return Turned(fetched.progress || shut.progress);
    }

    method PollIo(read: Endpoint, write: Endpoint, halfClose: bool, readOpen: bool, ghost now: nat) returns (r: Turn)
      requires Valid() && read == reader && write == writer && read != write
      modifies `start, `end, `eof, `closed, `flush, bytes
      modifies read`taken, read`parked, read`ledger
      modifies write`accepted, write`unflushed, write`shut, write`parked, write`ledger
      ensures Valid()
      ensures old(eof) ==> eof
      ensures old(read.parked) <= read.parked + {Reading}
      ensures old(write.parked) <= write.parked + {Writing, Flushing, Closing}
      ensures closed ==> old(closed) || halfClose
      ensures r == Turned(false) ==> eof == old(eof) && Parked(halfClose, readOpen)
      ensures Grown(old(read.ledger), read.ledger, now, 1) && Grown(old(write.ledger), write.ledger, now, 3)
      ensures r.Turned? ==>
                (r.progress <==> read.ledger.moves + write.ledger.moves > old(read.ledger.moves + write.ledger.moves))
      ensures read.ledger.faults + write.ledger.faults
           == old(read.ledger.faults + write.ledger.faults) + if r.Broke? then 1 else 0
      ensures r == Turned(true) ==>
                || read.taken > old(read.taken) || |write.accepted| > |old(write.accepted)|
                || (old(flush) && !flush) || (eof && !old(eof)) || (closed && !old(closed))
      ensures !readOpen || old(eof) ==> read.taken == old(read.taken) && eof == old(eof)
      ensures (!readOpen || old(eof)) && !halfClose && !r.Broke? ==>
                if r.progress then Left() < old(Left()) else Left() == old(Left())
    {
      hide Valid, Drained;
      var pushed := PushOut(write, now);
      if pushed.Broke? {
        return Broke;
      }
      var pulled := PullIn(read, write, halfClose, readOpen, now);
      if pulled.Broke? {
        return Broke;
      }
      return Turned(pushed.progress || pulled.progress);
    }
  }

  // ----- Both directions -----

  /** Two directions over one pair of endpoints, each reading what the other writes to. */
  ghost predicate Paired(forward: Direction, reverse: Direction, down: Endpoint, up: Endpoint)
    reads forward, reverse
  {
    && forward != reverse && forward.bytes != reverse.bytes && down != up
    && forward.reader == down && forward.writer == up
    && reverse.reader == up && reverse.writer == down
  }

  predicate Ended(forward: Direction, reverse: Direction, halfClose: bool)
    reads forward, reverse
  {
    if halfClose then forward.closed && reverse.closed
    else (forward.eof || reverse.eof) && forward.Drained() && reverse.Drained()
  }

  /** An unfinished relay in which nothing moved has left a waker with some endpoint. */
  lemma SomeoneWaits(forward: Direction, reverse: Direction, down: Endpoint, up: Endpoint, halfClose: bool)
    requires Paired(forward, reverse, down, up) && forward.Valid() && reverse.Valid()
    requires forward.Parked(halfClose, halfClose || !reverse.eof)
    requires reverse.Parked(halfClose, halfClose || !forward.eof)
    requires !Ended(forward, reverse, halfClose)
    ensures down.parked + up.parked != {}
  {
    var d := if (if halfClose then forward.closed else forward.Drained()) then reverse else forward;
    var op := if d.start < d.end then Writing else if d.flush then Flushing else if !d.eof then Reading else Closing;
    assert op in down.parked + up.parked;
  }

  /** The writer has accepted what is owed to it, less what the buffer still holds. */
  lemma Accounted(d: Direction)
    requires d.Valid()
    ensures |d.writer.accepted| + (d.end - d.start) == |d.before| + |d.prefix| + d.reader.taken - d.base
    ensures 0 <= d.end - d.start <= d.bytes.Length
  {
    assert |d.writer.accepted[|d.before|..]| + |d.bytes[d.start..d.end]| == |d.Input()|;
  }

  datatype Round = Finished | Idle | Busy | Fault

  /** One round of the loop: both directions once, then the end test. */
  method TakeRound(forward: Direction, reverse: Direction, down: Endpoint, up: Endpoint, halfClose: bool,
                   ghost now: nat)
    returns (r: Round)
    requires Paired(forward, reverse, down, up) && forward.Valid() && reverse.Valid()
    modifies forward`start, forward`end, forward`eof, forward`closed, forward`flush, forward.bytes
    modifies reverse`start, reverse`end, reverse`eof, reverse`closed, reverse`flush, reverse.bytes
    modifies down`taken, down`accepted, down`unflushed, down`shut, down`parked, down`ledger
    modifies up`taken, up`accepted, up`unflushed, up`shut, up`parked, up`ledger
    ensures forward.Valid() && reverse.Valid()
    ensures forward.closed ==> old(forward.closed) || halfClose
    ensures reverse.closed ==> old(reverse.closed) || halfClose
    ensures r.Finished? <==> !r.Fault? && Ended(forward, reverse, halfClose)
    ensures r.Idle? ==>
              && forward.Parked(halfClose, halfClose || !reverse.eof)
              && reverse.Parked(halfClose, halfClose || !forward.eof)
              && down.parked + up.parked != {}
    ensures Grown(old(down.ledger), down.ledger, now, 4) && Grown(old(up.ledger), up.ledger, now, 4)
    ensures !halfClose && old(reverse.eof) ==> down.taken == old(down.taken)
    ensures !halfClose && forward.eof ==> up.taken == old(up.taken)
    ensures !halfClose && old(forward.eof || reverse.eof) && r.Busy? ==>
              forward.Left() + reverse.Left() < old(forward.Left() + reverse.Left())
    ensures old(forward.eof) ==> forward.eof
    ensures old(reverse.eof) ==> reverse.eof
    ensures r.Idle? ==> down.ledger.moves + up.ledger.moves == old(down.ledger.moves + up.ledger.moves)
    ensures r.Busy? ==> down.ledger.moves + up.ledger.moves > old(down.ledger.moves + up.ledger.moves)
    ensures down.ledger.faults + up.ledger.faults
         == old(down.ledger.faults + up.ledger.faults) + if r.Fault? then 1 else 0
  {
    hide Direction.Valid;
    var first := forward.PollIo(down, up, halfClose, halfClose || !reverse.eof, now);
    if first.Broke? {
      return Fault;
    }
    var second := reverse.PollIo(up, down, halfClose, halfClose || !forward.eof, now);
    if second.Broke? {
      return Fault;
    }
    if Ended(forward, reverse, halfClose) {
      return Finished;
    }
    if !first.progress && !second.progress {
      SomeoneWaits(forward, reverse, down, up, halfClose);
      return Idle;
    }
    return Busy;
  }

  // ----- The relay -----

  datatype Outcome =
    | Done
    | TimedOut
    | Faulted
    | Rejected                   // a relay with no buffer
    | Suspended(yielded: bool)   // pending after the last wakeup given; `yielded` when it woke itself

  /** What `writer` accepted since `before` is an in-order prefix of what it is owed, all but a bufferful. */
  ghost predicate InOrder(prefix: Bytes, reader: Endpoint, base: nat, writer: Endpoint, before: Bytes, room: nat)
    reads reader`taken, writer`accepted
  {
    && base <= reader.taken <= |reader.stream| && before <= writer.accepted
    && var owed, sent := prefix + reader.stream[base..reader.taken], writer.accepted[|before|..];
       sent <= owed && |owed| <= |sent| + room
  }

  /** Everything owed was accepted and flushed. */
  ghost predicate Delivered(prefix: Bytes, reader: Endpoint, base: nat, writer: Endpoint, before: Bytes)
    reads reader`taken, writer`accepted, writer`unflushed
  {
    && base <= reader.taken <= |reader.stream|
    && writer.accepted == before + (prefix + reader.stream[base..reader.taken])
    && !writer.unflushed
  }

  lemma DirectionInOrder(d: Direction)
    requires d.Valid()
    ensures InOrder(d.prefix, d.reader, d.base, d.writer, d.before, d.bytes.Length)
    ensures d.Drained() ==> Delivered(d.prefix, d.reader, d.base, d.writer, d.before)
    ensures d.eof ==> d.Drained() && d.reader.taken == |d.reader.stream|
    ensures d.writer.shut == d.closed && (d.closed ==> d.eof)
  {
    var sent, owed := d.writer.accepted[|d.before|..], d.Input();
    assert owed == sent + d.bytes[d.start..d.end];
    assert d.writer.accepted == d.before + sent;
    if d.Drained() {
      assert d.bytes[d.start..d.end] == [];
      assert owed == sent;
    }
  }

  /** Nothing has moved since `before` was taken, or the last move is at least `idle` before `deadline`. */
  ghost predicate Quiet(before: Ledger, after: Ledger, idle: nat, deadline: nat) {
    after.movedAt == before.movedAt || after.movedAt + idle <= deadline
  }

  /**
   One poll of the relay: at most 64 rounds, so a busy tunnel cannot hold its worker.  The
   timer is read before each round, so only a deadline still ahead lets the others end a poll.
   */
  method PollRelay(forward: Direction, reverse: Direction, down: Endpoint, up: Endpoint, options: Options,
                   clock: Clock, deadlineIn: nat)
    returns (r: Outcome, deadline: nat)
    requires Paired(forward, reverse, down, up) && forward.Valid() && reverse.Valid()
    requires deadlineIn <= clock.now + options.idleTimeout
    modifies forward`start, forward`end, forward`eof, forward`closed, forward`flush, forward.bytes
    modifies reverse`start, reverse`end, reverse`eof, reverse`closed, reverse`flush, reverse.bytes
    modifies down`taken, down`accepted, down`unflushed, down`shut, down`parked, down`ledger
    modifies up`taken, up`accepted, up`unflushed, up`shut, up`parked, up`ledger
    modifies clock
    ensures forward.Valid() && reverse.Valid()
    ensures clock.now >= old(clock.now)
    ensures deadlineIn <= deadline <= clock.now + options.idleTimeout
    ensures forward.closed ==> old(forward.closed) || options.halfClose
    ensures reverse.closed ==> old(reverse.closed) || options.halfClose
    ensures r.Done? ==> Ended(forward, reverse, options.halfClose)
    ensures r == Suspended(false) ==> down.parked + up.parked != {}
    ensures r == TimedOut || r.Suspended? ==>
              && Quiet(old(down.ledger), down.ledger, options.idleTimeout, deadline)
              && Quiet(old(up.ledger), up.ledger, options.idleTimeout, deadline)
    ensures r == TimedOut ==> clock.now >= deadline
    ensures r == Suspended(true) ==> deadline == clock.now + options.idleTimeout
    ensures r != TimedOut && r != Suspended(true) ==> clock.now < deadline
    ensures old(down.ledger.moves + up.ledger.moves) <= down.ledger.moves + up.ledger.moves
    ensures down.ledger.moves + up.ledger.moves <= old(down.ledger.moves + up.ledger.moves) + 8 * 64
    ensures r == Suspended(true) ==>
              down.ledger.moves + up.ledger.moves >= old(down.ledger.moves + up.ledger.moves) + 64
    ensures down.ledger.faults + up.ledger.faults
         == old(down.ledger.faults + up.ledger.faults) + if r.Faulted? then 1 else 0
    ensures down.ledger.interruptions == old(down.ledger.interruptions)
    ensures !options.halfClose && old(forward.eof) ==> up.taken == old(up.taken)
    ensures !options.halfClose && old(reverse.eof) ==> down.taken == old(down.taken)
    ensures !options.halfClose && old(forward.eof) ==> |down.accepted| <= |old(down.accepted)| + reverse.bytes.Length
    ensures !options.halfClose && old(reverse.eof) ==> |up.accepted| <= |old(up.accepted)| + forward.bytes.Length
    ensures !r.Rejected?
  {
    hide Direction.Valid, Direction.Parked, Direction.Left, Ended;
    r, deadline := Suspended(true), deadlineIn;
    Accounted(forward);
    Accounted(reverse);
    for round := 0 to 64
      invariant Paired(forward, reverse, down, up) && forward.Valid() && reverse.Valid()
      invariant forward.closed ==> old(forward.closed) || options.halfClose
      invariant reverse.closed ==> old(reverse.closed) || options.halfClose
      invariant clock.now >= old(clock.now) && deadlineIn <= deadline <= clock.now + options.idleTimeout
      invariant old(forward.eof) ==> forward.eof
      invariant old(reverse.eof) ==> reverse.eof
      invariant !options.halfClose && old(forward.eof) ==> up.taken == old(up.taken)
      invariant !options.halfClose && old(reverse.eof) ==> down.taken == old(down.taken)
      invariant r == Suspended(true)
      invariant round > 0 ==> deadline == clock.now + options.idleTimeout
      invariant Quiet(old(down.ledger), down.ledger, options.idleTimeout, deadline)
      invariant Quiet(old(up.ledger), up.ledger, options.idleTimeout, deadline)
      invariant old(down.ledger.moves + up.ledger.moves) + round <= down.ledger.moves + up.ledger.moves
      invariant down.ledger.moves + up.ledger.moves <= old(down.ledger.moves + up.ledger.moves) + 8 * round
      invariant down.ledger.faults + up.ledger.faults == old(down.ledger.faults + up.ledger.faults)
      invariant down.ledger.interruptions == old(down.ledger.interruptions)
    {
      clock.Advance();
      if clock.now >= deadline {
        r := TimedOut;
        break;
      }
      var result := TakeRound(forward, reverse, down, up, options.halfClose, clock.now);
      match result {
        case Fault => r := Faulted;
        case Finished => r := Done;
        case Idle => r := Suspended(false);
        case Busy =>
      }
      if !result.Busy? {
        break;
      }
      clock.Advance();
      deadline := clock.now + options.idleTimeout;
    }
    Accounted(forward);
    Accounted(reverse);
  }

  /**
   The relay, for any number of wakeups: whatever the endpoints answer, each side
   receives an in-order prefix of what the other sent (the classified prefix first,
   once), a side is shut down only after its source closed and everything was
   flushed, and a normal end means nothing read was lost.
   */
  method RunRelay(down: Endpoint, up: Endpoint, prefix: Bytes, options: Options, clock: Clock, wakeups: nat)
    returns (r: Outcome)
    requires down != up && down.Valid() && up.Valid()
    requires !down.shut && !up.shut && !down.unflushed && !up.unflushed
    modifies down, up, clock
    ensures InOrder(prefix, down, old(down.taken), up, old(up.accepted), Max(options.bufferSize, |prefix|))
    ensures InOrder([], up, old(up.taken), down, old(down.accepted), options.bufferSize)
    ensures up.shut ==>
              options.halfClose && down.taken == |down.stream|
              && Delivered(prefix, down, old(down.taken), up, old(up.accepted))
    ensures down.shut ==>
              options.halfClose && up.taken == |up.stream|
              && Delivered([], up, old(up.taken), down, old(down.accepted))
    ensures r.Done? ==>
              && Delivered(prefix, down, old(down.taken), up, old(up.accepted))
              && Delivered([], up, old(up.taken), down, old(down.accepted))
              && (down.taken == |down.stream| || up.taken == |up.stream|)
              && (options.halfClose ==> up.shut && down.shut)
    ensures r == Suspended(false) ==> down.parked + up.parked != {}
    ensures r == Suspended(true) && wakeups > 0 ==>
              down.ledger.moves + up.ledger.moves >= old(down.ledger.moves + up.ledger.moves) + 64
    ensures clock.now >= old(clock.now)
    ensures r == TimedOut ==>
              && clock.now >= old(clock.now) + options.idleTimeout
              && Quiet(old(down.ledger), down.ledger, options.idleTimeout, clock.now)
              && Quiet(old(up.ledger), up.ledger, options.idleTimeout, clock.now)
    ensures down.ledger.faults + up.ledger.faults
         == old(down.ledger.faults + up.ledger.faults) + if r.Faulted? then 1 else 0
    ensures down.ledger.interruptions == old(down.ledger.interruptions)
    ensures r.Rejected? <==> options.bufferSize == 0
  {
    hide Direction.Valid;
    if options.bufferSize == 0 {
      assert |prefix| <= Max(0, |prefix|);
      return Rejected;
    }
    var forward := new Direction(prefix, options.bufferSize, down, up);
    var reverse := new Direction([], options.bufferSize, up, down);
    var deadline := clock.now + options.idleTimeout;
    r := Suspended(true);
    for polls := 0 to wakeups
      invariant Paired(forward, reverse, down, up) && forward.Valid() && reverse.Valid()
      invariant fresh(forward) && fresh(forward.bytes) && fresh(reverse) && fresh(reverse.bytes)
      invariant forward.bytes.Length == Max(options.bufferSize, |prefix|) && reverse.bytes.Length == options.bufferSize
      invariant (forward.closed || reverse.closed) ==> options.halfClose
      invariant r.Suspended? && (r == Suspended(false) ==> down.parked + up.parked != {})
      invariant old(clock.now) + options.idleTimeout <= deadline <= clock.now + options.idleTimeout
      invariant Quiet(old(down.ledger), down.ledger, options.idleTimeout, deadline)
      invariant Quiet(old(up.ledger), up.ledger, options.idleTimeout, deadline)
      invariant down.ledger.faults + up.ledger.faults == old(down.ledger.faults + up.ledger.faults)
      invariant down.ledger.interruptions == old(down.ledger.interruptions)
      invariant down.ledger.moves + up.ledger.moves >= old(down.ledger.moves + up.ledger.moves)
      invariant r == Suspended(true) && polls > 0 ==>
                  down.ledger.moves + up.ledger.moves >= old(down.ledger.moves + up.ledger.moves) + 64
    {
      r, deadline := PollRelay(forward, reverse, down, up, options, clock, deadline);
      if !r.Suspended? {
        break;
      }
    }
    DirectionInOrder(forward);
    DirectionInOrder(reverse);
  }
}
