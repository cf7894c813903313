/** The per-connection idle accounting of src/server.rs: `IdleState`, `IdleTrackingService` and
    `IdleTrackingBody`. */
module IdleTracking {

  /** The two shared cells of a connection. The counter is an integer, so that an underflow would
      show as a negative value. */
  datatype Idle = Idle(lastActivity: nat, inFlight: int)

  function Touched(i: Idle, now: nat): Idle {
    i.(lastActivity := now)
  }

  /** A request starts: touch, then count. */
  function Started(i: Idle, now: nat): Idle {
    Touched(i, now).(inFlight := i.inFlight + 1)
  }

  /** A request ends: uncount, then touch. */
  function Finished(i: Idle, now: nat): Idle {
    Touched(i.(inFlight := i.inFlight - 1), now)
  }

  function IdleFor(i: Idle, now: nat): nat {
    if i.lastActivity <= now then now - i.lastActivity else 0
  }

  class IdleState {
    var lastActivity: nat
    var inFlight: int

    ghost function Value(): Idle
      reads this
    {
      Idle(lastActivity, inFlight)
    }

    constructor (now: nat)
      ensures Value() == Idle(now, 0)
    {
      lastActivity := now;
      inFlight := 0;
    }

    method Touch(now: nat)
      modifies this
      ensures Value() == Touched(old(Value()), now)
    {
      lastActivity := now;
    }

    /** The prologue of `IdleTrackingService::call`. */
    method RequestStarted(now: nat)
      modifies this
      ensures Value() == Started(old(Value()), now)
    {
      Touch(now);
      inFlight := inFlight + 1;
    }

    /** The error arm of the service future. */
    method RequestFailed(now: nat)
      modifies this
      ensures Value() == Finished(old(Value()), now)
    {
      inFlight := inFlight - 1;
      Touch(now);
    }
  }

  /** What polling the inner body yields. */
  datatype Poll = Pending | Frame | Failure | EndOfStream

  class IdleTrackingBody {
    const idle: IdleState
    var decremented: bool

    constructor (idle: IdleState)
      ensures this.idle == idle && !decremented
    {
      this.idle := idle;
      decremented := false;
    }

    method Release(now: nat)
      modifies this, idle
      ensures decremented
      ensures idle.Value() == if old(decremented) then old(idle.Value()) else Finished(old(idle.Value()), now)
    {
      var was := decremented;
      decremented := true;
      if !was {
        idle.inFlight := idle.inFlight - 1;
        idle.Touch(now);
      }
    }

    method PollFrame(inner: Poll, now: nat) returns (polled: Poll)
      modifies this, idle
      ensures polled == inner
      ensures (decremented, idle.Value()) == BodyStep(old(decremented), old(idle.Value()), Polled(inner, now))
    {
      match inner {
        case EndOfStream => Release(now);
        case Failure => Release(now);
        case Frame => idle.Touch(now);
        case Pending =>
      }
      polled := inner;
    }

    method Drop(now: nat)
      modifies this, idle
      ensures (decremented, idle.Value()) == BodyStep(old(decremented), old(idle.Value()), Dropped(now))
    {
      Release(now);
    }
  }

  // ----- the life of one body -----

  datatype BodyEvent = Polled(poll: Poll, now: nat) | Dropped(now: nat)

  predicate Releases(e: BodyEvent) {
    e.Dropped? || e.poll.EndOfStream? || e.poll.Failure?
  }

  function BodyStep(decremented: bool, i: Idle, e: BodyEvent): (bool, Idle) {
    if Releases(e) then (true, if decremented then i else Finished(i, e.now))
    else if e.poll.Frame? then (decremented, Touched(i, e.now))
    else (decremented, i)
  }

  function BodyRun(i: Idle, events: seq<BodyEvent>): (bool, Idle) {
    if events == [] then (false, i)
    else
      var (decremented, i') := BodyRun(i, events[..|events| - 1]);
      BodyStep(decremented, i', events[|events| - 1])
  }

  /** Whichever of end of stream, error or drop comes first, and however many follow, a body takes
      exactly one from the counter, and takes none before. */
  lemma {:induction false} BodyDecrementsExactlyOnce(i: Idle, events: seq<BodyEvent>)
    ensures var (decremented, i') := BodyRun(i, events);
            && decremented == (exists k :: 0 <= k < |events| && Releases(events[k]))
            && i'.inFlight == i.inFlight - (if decremented then 1 else 0)
  {
    if events != [] {
      var before := events[..|events| - 1];
      BodyDecrementsExactlyOnce(i, before);
      if k :| 0 <= k < |before| && Releases(before[k]) {
        assert Releases(events[k]);
      }
      assert forall k :: 0 <= k < |events| - 1 ==> events[k] == before[k];
    }
  }
}
