/**
 One end of a connection, as the process sees it: a peer that sends a fixed stream
 and closes, and that accepts bytes whenever it likes.  Every poll answers
 nondeterministically, so a proof about a caller covers every transport schedule.
 */
module Transport {
  import opened Wire

  datatype Op = Reading | Writing | Flushing | Closing

  datatype Poll<T> = Ready(value: T) | Pending | Failed

  datatype ReadResult = Data(count: nat) | EndOfFile | Interrupted

  class Clock {
    var now: nat

    constructor () {
      now := 0;
    }

    /** Time passes between two looks at the clock. */
    method Advance()
      modifies this
      ensures now >= old(now)
    {
      var later: nat :| later >= now;
      now := later;
    }
  }

  /**
   What an endpoint has been through: how many polls were answered with something done and
   when the last one was, how many polls failed or took no byte, and how many reads were cut
   short by an error or the deadline.
   */
  datatype Ledger = Ledger(moves: nat, movedAt: nat, faults: nat, interruptions: nat) {
    function Move(now: nat): Ledger {
      this.(moves := moves + 1, movedAt := now)
    }

    function Fault(): Ledger {
      this.(faults := faults + 1)
    }

    function Interrupt(): Ledger {
      this.(interruptions := interruptions + 1)
    }
  }

  class Endpoint {
    const stream: Bytes     // what the peer sends before it closes
    var taken: nat          // how much of it was read
    var accepted: Bytes     // what was written to the peer
    var unflushed: bool     // something was written since the last flush
    var shut: bool          // the write side was shut down
    ghost var parked: set<Op>  // operations whose last poll was pending, so their waker is registered
    ghost var ledger: Ledger

    ghost predicate Valid()
      reads `taken
    {
      taken <= |stream|
    }

    constructor (stream: Bytes)
      ensures this.stream == stream && taken == 0 && accepted == []
      ensures !unflushed && !shut && parked == {} && ledger == Ledger(0, 0, 0, 0) && Valid()
    {
      this.stream := stream;
      taken, accepted, unflushed, shut := 0, [], false, false;
      parked, ledger := {}, Ledger(0, 0, 0, 0);
    }

    /** Awaits some of `buffer[from..to]`; the deadline or an error may end the wait. */
    method Read(buffer: array<byte>, from: nat, to: nat) returns (r: ReadResult)
      requires Valid() && from < to <= buffer.Length
      modifies this`taken, this`ledger, buffer
      ensures Valid() && buffer[..from] == old(buffer[..from])
      ensures match r
              case Data(n) =>
                && 0 < n <= to - from && taken == old(taken) + n
                && buffer[from..from + n] == stream[old(taken)..taken]
              case EndOfFile => taken == old(taken) == |stream|
              case Interrupted => taken == old(taken)
      ensures ledger == if r.Interrupted? then old(ledger).Interrupt() else old(ledger)
    {
      var broken: bool := *;
      if broken {
        ledger := ledger.Interrupt();
        return Interrupted;
      }
      if taken == |stream| {
        return EndOfFile;
      }
      var n: nat :| 0 < n <= to - from && n <= |stream| - taken;
      forall i | 0 <= i < n {
        buffer[from + i] := stream[taken + i];
      }
      taken := taken + n;
      return Data(n);
    }

    /** Reads into the front of `buffer`; zero bytes means the peer has closed. */
    method PollRead(buffer: array<byte>, size: nat, ghost now: nat) returns (r: Poll<nat>)
      requires Valid() && 0 < size <= buffer.Length
      modifies this`taken, this`parked, this`ledger, buffer
      ensures Valid()
      ensures parked == if r.Pending? then old(parked) + {Reading} else old(parked) - {Reading}
      ensures ledger == match r case Ready(_) => old(ledger).Move(now) case Pending => old(ledger) case Failed => old(ledger).Fault()
      ensures r.Ready? ==>
                && r.value <= size && taken == old(taken) + r.value
                && buffer[..r.value] == stream[old(taken)..taken]
                && (r.value == 0 ==> taken == |stream|)
      ensures !r.Ready? ==> taken == old(taken) && buffer[..] == old(buffer[..])
    {
      var choice: int := *;
      if choice == 0 {
        parked := parked + {Reading};
        return Pending;
      }
      parked := parked - {Reading};
      if choice == 1 {
        ledger := ledger.Fault();
        return Failed;
      }
      ledger := ledger.Move(now);
      if taken == |stream| {
        return Ready(0);
      }
      var n: nat :| 0 < n <= size && n <= |stream| - taken;
      forall i | 0 <= i < n {
        buffer[i] := stream[taken + i];
      }
      taken := taken + n;
      return Ready(n);
    }

    /** Offers `buffer[from..to]`; the peer takes any leading part of it. */
    method PollWrite(buffer: array<byte>, from: nat, to: nat, ghost now: nat) returns (r: Poll<nat>)
      requires from < to <= buffer.Length && !shut
      modifies this`accepted, this`unflushed, this`parked, this`ledger
      ensures parked == if r.Pending? then old(parked) + {Writing} else old(parked) - {Writing}
      ensures ledger == match r
                        case Ready(n) => if n > 0 then old(ledger).Move(now) else old(ledger).Fault()
                        case Pending => old(ledger)
                        case Failed => old(ledger).Fault()
      ensures r.Ready? ==>
                && r.value <= to - from
                && accepted == old(accepted) + buffer[from..from + r.value]
                && unflushed == (old(unflushed) || r.value > 0)
      ensures !r.Ready? ==> accepted == old(accepted) && unflushed == old(unflushed)
    {
      var choice: int := *;
      if choice == 0 {
        parked := parked + {Writing};
        return Pending;
      }
      parked := parked - {Writing};
      if choice == 1 {
        ledger := ledger.Fault();
        return Failed;
      }
      var n: nat :| n <= to - from;
      accepted := accepted + buffer[from..from + n];
      unflushed := unflushed || n > 0;
      ledger := if n > 0 then ledger.Move(now) else ledger.Fault();
      return Ready(n);
    }

    method PollFlush(ghost now: nat) returns (r: Poll<()>)
      requires !shut
      modifies this`unflushed, this`parked, this`ledger
      ensures parked == if r.Pending? then old(parked) + {Flushing} else old(parked) - {Flushing}
      ensures ledger == match r case Ready(_) => old(ledger).Move(now) case Pending => old(ledger) case Failed => old(ledger).Fault()
      ensures unflushed == (old(unflushed) && !r.Ready?)
    {
      var choice: int := *;
      if choice == 0 {
        parked := parked + {Flushing};
        return Pending;
      }
      parked := parked - {Flushing};
      if choice == 1 {
        ledger := ledger.Fault();
        return Failed;
      }
      unflushed := false;
      ledger := ledger.Move(now);
      return Ready(());
    }

    /** Shutting down discards nothing only if everything was flushed. */
    method PollShutdown(ghost now: nat) returns (r: Poll<()>)
      requires !shut && !unflushed
      modifies this`shut, this`parked, this`ledger
      ensures parked == if r.Pending? then old(parked) + {Closing} else old(parked) - {Closing}
      ensures ledger == match r case Ready(_) => old(ledger).Move(now) case Pending => old(ledger) case Failed => old(ledger).Fault()
      ensures shut == r.Ready?
    {
      var choice: int := *;
      if choice == 0 {
        parked := parked + {Closing};
        return Pending;
      }
      parked := parked - {Closing};
      if choice == 1 {
        ledger := ledger.Fault();
        return Failed;
      }
      shut := true;
      ledger := ledger.Move(now);
      return Ready(());
    }
  }
}
