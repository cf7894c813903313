/** The idle watchdog of src/server.rs when requests run in other tasks, as hyper runs HTTP/2 streams:
    every access to the shared cells is a step of its own, and any request may take its next step
    between any two loads of the watchdog.

    That includes the start of a request, since the adapter around the service calls it from the
    future that hyper spawns. A touch reads the clock in one step and stores what it read in another. */
module ConcurrentWatchdog {
  import opened IdleTracking
  import opened Sets

  /** Where a request is. `Starting`, `Framing` and `Touching` have read the clock at `since` for a touch
      they have not stored; `Started` has touched and is not yet counted; `Releasing` has lowered the
      counter at `since` and not yet read the clock. A frame may also come after the release. */
  datatype Phase =
    | Starting(since: nat)
    | Started
    | Handling
    | Streaming
    | Framing(since: nat, counted: bool)
    | Releasing(since: nat)
    | Touching(since: nat)
    | Done
    | Abandoned

  /** Where the watchdog is: asleep, at the top of its loop, after its first load there, after waking
      with a zero count, or finished. `seen`, `at` and `newest` record what the first load read, when,
      and the newest time stored by then. */
  datatype Guard =
    | Asleep(until: nat, entered: bool)
    | AtTop
    | TopLoaded(idleFor: nat, seen: nat, at: nat, newest: nat)
    | WokenAtZero
    | Returned

  /** `newest` records the newest time ever stored in the activity cell, `lastUse` when a request last
      started, sent a frame, or took a step of its release. */
  datatype Conn = Conn(now: nat, idle: Idle, requests: map<nat, Phase>, guard: Guard, newest: nat, lastUse: nat)

  datatype Event =
    | CallClock(id: nat)
    | CallCount(id: nat)
    | HandlerOk(id: nat)
    | HandlerAbandoned(id: nat)
    | FrameClock(id: nat)
    | ReleaseCount(id: nat)
    | ReleaseClock(id: nat)
    | Store(id: nat)
    | Tick(delta: nat)
    | WatchdogStep

  // ----- steps -----

  predicate InPhase(c: Conn, id: nat, p: Phase) {
    id in c.requests && c.requests[id] == p
  }

  /** Has read the clock and not stored. */
  predicate HasRead(p: Phase) {
    p.Starting? || p.Framing? || p.Touching?
  }

  predicate Enabled(c: Conn, e: Event) {
    && !c.guard.Returned?
    && match e
       case CallClock(id) => id !in c.requests
       case CallCount(id) => InPhase(c, id, Started)
       case HandlerOk(id) => InPhase(c, id, Handling)
       case HandlerAbandoned(id) => InPhase(c, id, Handling)
       case FrameClock(id) => InPhase(c, id, Streaming) || InPhase(c, id, Done)
       case ReleaseCount(id) => InPhase(c, id, Handling) || InPhase(c, id, Streaming)
       case ReleaseClock(id) => id in c.requests && c.requests[id].Releasing?
       case Store(id) => id in c.requests && HasRead(c.requests[id])
       case Tick(_) => true
       case WatchdogStep => c.guard.Asleep? ==> c.guard.until <= c.now
  }

  function AfterStore(p: Phase): Phase {
    match p
    case Starting(_) => Started
    case Framing(_, true) => Streaming
    case _ => Done
  }

  function Max(a: int, b: int): int {
    if a <= b then b else a
  }

  /** One load of the watchdog and what it does next. */
  function WatchdogLoad(c: Conn, timeout: nat): Guard {
    match c.guard
    case Asleep(_, entered) => if entered && c.idle.inFlight == 0 then WokenAtZero else AtTop
    case WokenAtZero => if IdleFor(c.idle, c.now) >= timeout then Returned else AtTop
    case AtTop => TopLoaded(IdleFor(c.idle, c.now), c.idle.lastActivity, c.now, c.newest)
    case TopLoaded(idleFor, _, _, _) =>
      if c.idle.inFlight > 0 then Asleep(c.now + timeout, true)
      else if idleFor < timeout then Asleep(c.now + timeout - idleFor, true)
      else Returned
    case Returned => Returned
  }

  /** The request moves to `p`. */
  function Moved(c: Conn, id: nat, p: Phase): Conn {
    c.(requests := c.requests[id := p])
  }

  function Counted(c: Conn, change: int): Conn {
    c.(idle := c.idle.(inFlight := c.idle.inFlight + change))
  }

  function Used(c: Conn): Conn {
    c.(lastUse := c.now)
  }

  function Apply(c: Conn, timeout: nat, e: Event): Conn
    requires Enabled(c, e)
  {
    match e
    case CallClock(id) => Used(Moved(c, id, Starting(c.now)))
    case CallCount(id) => Counted(Moved(c, id, Handling), 1)
    case HandlerOk(id) => Moved(c, id, Streaming)
    case HandlerAbandoned(id) => Moved(c, id, Abandoned)
    case FrameClock(id) => Used(Moved(c, id, Framing(c.now, c.requests[id] == Streaming)))
    case ReleaseCount(id) => Used(Counted(Moved(c, id, Releasing(c.now)), -1))
    case ReleaseClock(id) => Used(Moved(c, id, Touching(c.now)))
    case Store(id) =>
      var read := c.requests[id].since;
      Moved(c, id, AfterStore(c.requests[id])).(idle := Touched(c.idle, read), newest := Max(c.newest, read))
    case Tick(delta) => c.(now := c.now + delta)
    case WatchdogStep => c.(guard := WatchdogLoad(c, timeout))
  }

  /** An event that is not enabled leaves the state as it is, so every sequence of events is a run. */
  function Next(c: Conn, timeout: nat, e: Event): Conn {
    if Enabled(c, e) then Apply(c, timeout, e) else c
  }

  function Init(start: nat): Conn {
    Conn(start, Idle(start, 0), map[], Asleep(start, false), start, start)
  }

  function Run(c: Conn, timeout: nat, events: seq<Event>): Conn {
    if events == [] then c
    else Next(Run(c, timeout, events[..|events| - 1]), timeout, events[|events| - 1])
  }

  function After(start: nat, timeout: nat, events: seq<Event>): Conn {
    Run(Init(start), timeout, events)
  }

  lemma {:induction false} RunAppend(c: Conn, timeout: nat, first: seq<Event>, second: seq<Event>)
    ensures Run(c, timeout, first + second) == Run(Run(c, timeout, first), timeout, second)
    decreases |second|
  {
    hide Next;
    if second == [] {
      assert first + second == first;
    } else {
      RunAppend(c, timeout, first, second[..|second| - 1]);
      assert (first + second)[..|first + second| - 1] == first + second[..|second| - 1];
    }
  }

  lemma RunSnoc(c: Conn, timeout: nat, events: seq<Event>, e: Event)
    ensures Run(c, timeout, events + [e]) == Next(Run(c, timeout, events), timeout, e)
  {
    assert (events + [e])[..|events|] == events;
  }

  lemma RunOne(c: Conn, timeout: nat, e: Event)
    ensures Run(c, timeout, [e]) == Next(c, timeout, e)
  {
    RunSnoc(c, timeout, [], e);
    assert [] + [e] == [e];
  }

  lemma RunNone(c: Conn, timeout: nat)
    ensures Run(c, timeout, []) == c
  {
  }

  lemma ThreeSteps(c: Conn, timeout: nat, events: seq<Event>, e: Event, f: Event, g: Event)
    ensures Run(c, timeout, events + [e] + [f] + [g])
         == Next(Next(Next(Run(c, timeout, events), timeout, e), timeout, f), timeout, g)
  {
    hide Run, Next;
    RunSnoc(c, timeout, events, e);
    RunSnoc(c, timeout, events + [e], f);
    RunSnoc(c, timeout, events + [e] + [f], g);
  }

  // ----- invariants -----

  predicate Counts(p: Phase) {
    p.Handling? || p.Streaming? || p.Abandoned? || (p.Framing? && p.counted)
  }

  function Outstanding(c: Conn): set<nat> {
    set id | id in c.requests && Counts(c.requests[id])
  }

  lemma OutstandingAfter(c: Conn, c': Conn, id: nat)
    requires id in c'.requests && c'.requests == c.requests[id := c'.requests[id]]
    ensures |Outstanding(c')| == |Outstanding(c)| + (if Counts(c'.requests[id]) then 1 else 0)
                               - (if id in c.requests && Counts(c.requests[id]) then 1 else 0)
  {
    assert Outstanding(c) - {id} == Outstanding(c') - {id};
    assert id in Outstanding(c) <==> id in c.requests && Counts(c.requests[id]);
    assert id in Outstanding(c') <==> Counts(c'.requests[id]);
    hide Outstanding;
    OneMoved(Outstanding(c), Outstanding(c'), id);
  }

  lemma NextKeepsCount(c: Conn, timeout: nat, e: Event)
    requires c.idle.inFlight == |Outstanding(c)|
    ensures var c' := Next(c, timeout, e); c'.idle.inFlight == |Outstanding(c')|
  {
    var c' := Next(c, timeout, e);
    if Enabled(c, e) && !e.Tick? && !e.WatchdogStep? {
      OutstandingAfter(c, c', e.id);
    } else {
      assert Outstanding(c') == Outstanding(c);
    }
  }

  /** What a request has done at `since` is not in the activity cell yet. */
  predicate IsUnrecorded(p: Phase) {
    HasRead(p) || p.Releasing?
  }

  /** Some request has done something at `at` or later that was never stored. */
  ghost predicate UnrecordedSince(c: Conn, at: int) {
    exists id :: id in c.requests && IsUnrecorded(c.requests[id]) && at <= c.requests[id].since
  }

  /** The last use was stored, or is still unrecorded. */
  ghost predicate UseInv(c: Conn) {
    && c.idle.lastActivity <= c.newest <= c.lastUse <= c.now
    && (c.newest == c.lastUse || UnrecordedSince(c, c.lastUse))
    && forall id :: id in c.requests && IsUnrecorded(c.requests[id]) ==> c.requests[id].since <= c.lastUse
  }

  lemma NextKeepsUseInv(c: Conn, timeout: nat, e: Event)
    requires UseInv(c)
    ensures UseInv(Next(c, timeout, e))
  {
    hide WatchdogLoad;
    var c' := Next(c, timeout, e);
    if c.newest != c.lastUse {
      var id :| id in c.requests && IsUnrecorded(c.requests[id]) && c.lastUse <= c.requests[id].since;
      assert c'.newest == c'.lastUse || c'.requests[id] == c.requests[id] || IsUnrecorded(c'.requests[e.id]);
    }
    if Enabled(c, e) && (e.CallClock? || e.FrameClock? || e.ReleaseCount? || e.ReleaseClock?) {
      assert IsUnrecorded(c'.requests[e.id]) && c'.requests[e.id].since == c'.lastUse;
    }
  }

  ghost predicate GuardInv(c: Conn) {
    c.guard.TopLoaded? ==>
      && c.guard.seen <= c.guard.newest <= c.newest && c.guard.seen <= c.guard.at <= c.now
      && c.guard.idleFor == c.guard.at - c.guard.seen
  }

  ghost predicate Inv(c: Conn) {
    c.idle.inFlight == |Outstanding(c)| && UseInv(c) && GuardInv(c)
  }

  lemma NextKeepsInv(c: Conn, timeout: nat, e: Event)
    requires Inv(c)
    ensures Inv(Next(c, timeout, e))
  {
    NextKeepsCount(c, timeout, e);
    NextKeepsUseInv(c, timeout, e);
    hide Outstanding;
  }

  lemma {:induction false} RunKeepsInv(c: Conn, timeout: nat, events: seq<Event>)
    requires Inv(c)
    ensures Inv(Run(c, timeout, events))
  {
    hide Next, Inv;
    if events != [] {
      RunKeepsInv(c, timeout, events[..|events| - 1]);
      NextKeepsInv(Run(c, timeout, events[..|events| - 1]), timeout, events[|events| - 1]);
    }
  }

  lemma Reachable(start: nat, timeout: nat, events: seq<Event>)
    ensures Inv(After(start, timeout, events))
  {
    assert Outstanding(Init(start)) == {};
    RunKeepsInv(Init(start), timeout, events);
  }

  // ----- when it closes a connection that is in use -----

  /** The watchdog's next step closes the connection. */
  predicate Closes(c: Conn, timeout: nat) {
    Enabled(c, WatchdogStep) && Next(c, timeout, WatchdogStep).guard.Returned?
  }

  /** The step that is about to decide, at the top of the loop or after a sleep, rests on an activity
      cell that has shown the timeout elapsed. */
  predicate SawIdle(c: Conn, timeout: nat) {
    || (c.guard.TopLoaded? && c.guard.seen + timeout <= c.guard.at)
    || (c.guard.WokenAtZero? && c.idle.lastActivity + timeout <= c.now)
  }

  /** A time within the timeout was stored after the first load at the top of the loop. */
  predicate Overtaken(c: Conn, timeout: nat) {
    c.guard.TopLoaded? && c.guard.newest < c.newest && c.now < c.newest + timeout
  }

  /** A time within the timeout had been stored, and a task that had read the clock earlier stored its
      older time over it, before the watchdog looked. */
  predicate Overwritten(c: Conn, timeout: nat) {
    if c.guard.TopLoaded? then c.guard.seen < c.guard.newest && c.now < c.guard.newest + timeout
    else c.idle.lastActivity < c.newest && c.now < c.newest + timeout
  }

  /** The races, exactly. The watchdog closes a connection within the timeout of a start, a frame or a
      step of a release if and only if it saw the cell idle, its count at the top of the loop is zero,
      and a use within the timeout escaped it: stored after its first load, stored and overwritten, or
      not stored yet. */
  lemma {:induction false} ClosesEarlyIff(start: nat, timeout: nat, events: seq<Event>)
    ensures var c := After(start, timeout, events);
            (Closes(c, timeout) && c.now < c.lastUse + timeout <==>
               && SawIdle(c, timeout) && (c.guard.TopLoaded? ==> c.idle.inFlight == 0)
               && (|| Overtaken(c, timeout)
                   || Overwritten(c, timeout)
                   || UnrecordedSince(c, c.now - timeout + 1)))
  {
    hide After, Outstanding;
    Reachable(start, timeout, events);
  }

  /** It closes over a counted request, a pending handler or an unreleased body, if and only if the
      request was counted after the load that woke it to a zero count, and the cell is idle. At the
      top of its loop it never does. */
  lemma {:induction false} ClosesOverRequestIff(start: nat, timeout: nat, events: seq<Event>)
    ensures var c := After(start, timeout, events);
            (Closes(c, timeout) && Outstanding(c) != {} <==>
               c.guard.WokenAtZero? && 0 < c.idle.inFlight && c.idle.lastActivity + timeout <= c.now)
  {
    hide After;
    Reachable(start, timeout, events);
  }

  /** With the two loads at the top of the loop less than a timeout apart, any use between them that
      leaves the count at zero makes the close an early one. */
  lemma {:induction false} UseBetweenLoadsSuffices(start: nat, timeout: nat, events: seq<Event>)
    ensures var c := After(start, timeout, events);
            && c.guard.TopLoaded? && c.guard.seen + timeout <= c.guard.at && c.now < c.guard.at + timeout
            && c.guard.at <= c.lastUse && c.idle.inFlight == 0
            ==> Closes(c, timeout) && c.now < c.lastUse + timeout
  {
    hide After, Outstanding;
    Reachable(start, timeout, events);
  }

  // ----- abandoned handlers -----

  function Those(c: Conn, p: Phase): set<nat> {
    set id | id in c.requests && c.requests[id] == p
  }

  /** An abandoned request keeps the count above zero, and the watchdog from finding it at zero. */
  ghost predicate HeldOpen(c: Conn, id: nat) {
    InPhase(c, id, Abandoned) && !c.guard.WokenAtZero? && !c.guard.Returned?
  }

  lemma NextKeepsHeldOpen(c: Conn, timeout: nat, e: Event, id: nat)
    requires Inv(c) && HeldOpen(c, id)
    ensures HeldOpen(Next(c, timeout, e), id)
  {
    assert id in Outstanding(c);
    hide UseInv, Outstanding;
  }

  lemma {:induction false} AbandonedHandlerDisablesWatchdog(c: Conn, timeout: nat, more: seq<Event>, id: nat)
    requires Inv(c) && HeldOpen(c, id)
    ensures HeldOpen(Run(c, timeout, more), id)
  {
    hide Next, Inv, HeldOpen;
    if more != [] {
      var before := more[..|more| - 1];
      AbandonedHandlerDisablesWatchdog(c, timeout, before, id);
      RunKeepsInv(c, timeout, before);
      NextKeepsHeldOpen(Run(c, timeout, before), timeout, more[|more| - 1], id);
    }
  }

  function Frames(c: Conn): set<nat> {
    set id | id in c.requests && c.requests[id].Framing?
  }

  function StepsToEnd(c: Conn): nat {
    |Outstanding(c)| + |Frames(c)|
  }

  /** Ending a counted request that is not abandoned: a frame on its way is stored first. */
  lemma EndOne(c: Conn, timeout: nat, id: nat) returns (e: Event)
    requires Inv(c) && !c.guard.Returned? && id in Outstanding(c) && Those(c, Abandoned) == {}
    ensures var c' := Next(c, timeout, e);
            && !c'.guard.Returned? && Those(c', Abandoned) == {}
            && StepsToEnd(c') < StepsToEnd(c)
  {
    assert id !in Those(c, Abandoned);
    e := if c.requests[id].Framing? then Store(id) else ReleaseCount(id);
    var c' := Next(c, timeout, e);
    assert c'.requests == c.requests[id := c'.requests[id]];
    assert forall k :: k in Those(c', Abandoned) ==> k in Those(c, Abandoned);
    OutstandingAfter(c, c', id);
    assert Frames(c) - {id} == Frames(c') - {id};
    assert id in Frames(c) <==> c.requests[id].Framing?;
    assert id !in Frames(c');
    hide Outstanding, Those, Frames;
    OneMoved(Frames(c), Frames(c'), id);
  }

  lemma {:induction false} CanEndAll(c: Conn, timeout: nat) returns (more: seq<Event>)
    requires Inv(c) && !c.guard.Returned? && Those(c, Abandoned) == {}
    ensures var c' := Run(c, timeout, more);
            !c'.guard.Returned? && Outstanding(c') == {}
    decreases StepsToEnd(c)
  {
    hide Next, Inv, Those, StepsToEnd;
    if Outstanding(c) == {} {
      more := [];
    } else {
      var id :| id in Outstanding(c);
      var e := EndOne(c, timeout, id);
      NextKeepsInv(c, timeout, e);
      var rest := CanEndAll(Next(c, timeout, e), timeout);
      more := [e] + rest;
      RunOne(c, timeout, e);
      RunAppend(c, timeout, [e], rest);
    }
  }

  /** Asleep with nothing in flight: wait for the timer and the timeout, and poll. */
  lemma SleeperCloses(c: Conn, timeout: nat)
    requires Inv(c) && c.guard.Asleep? && c.idle.inFlight == 0
    ensures Run(c, timeout, [Tick(c.guard.until + timeout)] + [WatchdogStep] + [WatchdogStep] + [WatchdogStep]).guard.Returned?
  {
    var e := Tick(c.guard.until + timeout);
    RunOne(c, timeout, e);
    RunSnoc(c, timeout, [e], WatchdogStep);
    RunSnoc(c, timeout, [e] + [WatchdogStep], WatchdogStep);
    RunSnoc(c, timeout, [e] + [WatchdogStep] + [WatchdogStep], WatchdogStep);
    hide Run, Outstanding;
  }

  lemma LoadedCloses(c: Conn, timeout: nat)
    requires Inv(c) && (c.guard.WokenAtZero? || (c.guard.AtTop? && c.idle.inFlight == 0))
    ensures Run(c, timeout, [Tick(timeout)] + [WatchdogStep] + [WatchdogStep]).guard.Returned?
  {
    RunOne(c, timeout, Tick(timeout));
    RunSnoc(c, timeout, [Tick(timeout)], WatchdogStep);
    RunSnoc(c, timeout, [Tick(timeout)] + [WatchdogStep], WatchdogStep);
    hide Run, Outstanding;
  }

  lemma {:induction false} IdleCanClose(c: Conn, timeout: nat) returns (more: seq<Event>)
    requires Inv(c) && (c.idle.inFlight == 0 || c.guard.WokenAtZero?)
    ensures Run(c, timeout, more).guard.Returned?
    decreases c.guard.TopLoaded?
  {
    hide Run;
    if c.guard.Returned? {
      more := [];
      RunNone(c, timeout);
    } else if c.guard.Asleep? {
      more := [Tick(c.guard.until + timeout)] + [WatchdogStep] + [WatchdogStep] + [WatchdogStep];
      SleeperCloses(c, timeout);
    } else if c.guard.TopLoaded? {
      NextKeepsInv(c, timeout, WatchdogStep);
      RunOne(c, timeout, WatchdogStep);
      var rest := IdleCanClose(Next(c, timeout, WatchdogStep), timeout);
      more := [WatchdogStep] + rest;
      RunAppend(c, timeout, [WatchdogStep], rest);
    } else {
      more := [Tick(timeout)] + [WatchdogStep] + [WatchdogStep];
      LoadedCloses(c, timeout);
    }
  }

  lemma SomeAbandoned(c: Conn) returns (id: nat)
    requires Those(c, Abandoned) != {}
    ensures InPhase(c, id, Abandoned)
  {
    id :| id in Those(c, Abandoned);
  }

  lemma CanClose(c: Conn, timeout: nat) returns (more: seq<Event>)
    requires Inv(c) && (Those(c, Abandoned) == {} || c.guard.WokenAtZero? || c.guard.Returned?)
    ensures Run(c, timeout, more).guard.Returned?
  {
    hide Run, UseInv, GuardInv, Those;
    if c.guard.Returned? {
      more := [];
      RunNone(c, timeout);
    } else if c.guard.WokenAtZero? {
      more := IdleCanClose(c, timeout);
    } else {
      var first := CanEndAll(c, timeout);
      RunKeepsInv(c, timeout, first);
      var second := IdleCanClose(Run(c, timeout, first), timeout);
      more := first + second;
      RunAppend(c, timeout, first, second);
    }
  }

  /** From any reachable state some continuation closes the connection exactly when no handler future
      has been abandoned, or the watchdog has already found the count at zero. */
  lemma {:induction false} CanReturnIff(start: nat, timeout: nat, events: seq<Event>)
    ensures var c := After(start, timeout, events);
            ((exists more :: After(start, timeout, events + more).guard.Returned?) <==>
               Those(c, Abandoned) == {} || c.guard.WokenAtZero? || c.guard.Returned?)
  {
    hide Run, Inv, Those;
    Reachable(start, timeout, events);
    var c := After(start, timeout, events);
    forall more: seq<Event>
      ensures After(start, timeout, events + more) == Run(c, timeout, more)
    {
      RunAppend(Init(start), timeout, events, more);
    }
    if Those(c, Abandoned) == {} || c.guard.WokenAtZero? || c.guard.Returned? {
      var more := CanClose(c, timeout);
      assert After(start, timeout, events + more).guard.Returned?;
    } else {
      var id := SomeAbandoned(c);
      forall more: seq<Event>
        ensures !After(start, timeout, events + more).guard.Returned?
      {
        AbandonedHandlerDisablesWatchdog(c, timeout, more, id);
      }
    }
  }

  // ----- how long it sleeps -----

  lemma {:induction false} RunSleeps(c: Conn, timeout: nat, events: seq<Event>)
    requires c.guard.Asleep? ==> c.guard.until <= c.now + timeout
    ensures var c' := Run(c, timeout, events);
            c'.guard.Asleep? ==> c'.guard.until <= c'.now + timeout
  {
    if events != [] {
      RunSleeps(c, timeout, events[..|events| - 1]);
    }
  }

  /** In no run does the watchdog sleep beyond the timeout from now. When the count is loaded at the top
      of the loop it sleeps for exactly the timeout over a counted request; over none it sleeps until the
      timeout after the activity it saw, put off by the time between its two loads, or returns. */
  lemma {:induction false} SleepIsExact(start: nat, timeout: nat, events: seq<Event>)
    ensures var c := After(start, timeout, events);
            && (c.guard.Asleep? ==> c.guard.until <= c.now + timeout)
            && (c.guard.TopLoaded? ==>
                  var g := Next(c, timeout, WatchdogStep).guard;
                  var idleUntil := c.guard.seen + timeout;
                  if 0 < c.idle.inFlight then g == Asleep(c.now + timeout, true)
                  else if c.guard.at < idleUntil then g == Asleep(idleUntil + (c.now - c.guard.at), true)
                  else g == Returned)
  {
    hide After, Outstanding;
    Reachable(start, timeout, events);
    AfterSleeps(start, timeout, events);
  }

  lemma AfterSleeps(start: nat, timeout: nat, events: seq<Event>)
    ensures var c := After(start, timeout, events);
            c.guard.Asleep? ==> c.guard.until <= c.now + timeout
  {
    RunSleeps(Init(start), timeout, events);
  }

  // ----- a quiet connection -----

  /** A step of a quiet run: a step of the watchdog, or time while it sleeps, with its timer firing at
      most `lateness` late and its polls taking no time. */
  predicate IsQuiet(c: Conn, e: Event, lateness: nat) {
    || (e.WatchdogStep? && Enabled(c, e))
    || (e.Tick? && 0 < e.delta && c.guard.Asleep? && c.now + e.delta <= c.guard.until + lateness)
  }

  ghost predicate QuietRun(c: Conn, timeout: nat, lateness: nat, more: seq<Event>) {
    forall k :: 0 <= k < |more| ==> IsQuiet(Run(c, timeout, more[..k]), more[k], lateness)
  }

  /** Where a quiet connection that slept until `until` with these idle cells is after `steps` steps of
      its watchdog: in its first poll, asleep until the deadline, in its second poll, or closed. */
  predicate QuietAt(c: Conn, timeout: nat, lateness: nat, idle: Idle, until: nat, steps: nat) {
    && c.idle == idle
    && var deadline := idle.lastActivity + timeout;
       match c.guard
       case Asleep(u, entered) =>
         && c.now <= u + lateness
         && ((steps == 0 && u == until) || (steps <= 4 && u == deadline && entered))
       case AtTop => steps <= 2 && c.now <= until + lateness
       case WokenAtZero =>
         || (steps <= 1 && c.now <= until + lateness)
         || (steps <= 5 && deadline <= c.now <= deadline + lateness)
       case TopLoaded(idleFor, _, _, _) =>
         steps <= 3 && c.now <= until + lateness && idleFor == IdleFor(idle, c.now)
       case Returned => steps <= 6 && deadline <= c.now <= Max(until, deadline) + lateness
  }

  lemma QuietStep(c: Conn, timeout: nat, lateness: nat, idle: Idle, until: nat, steps: nat, e: Event)
    requires QuietAt(c, timeout, lateness, idle, until, steps) && IsQuiet(c, e, lateness)
    requires idle.inFlight == 0 && idle.lastActivity <= c.now
    ensures var c', taken := Next(c, timeout, e), if e.WatchdogStep? then 1 else 0;
            && QuietAt(c', timeout, lateness, idle, until, steps + taken)
            && c.now + 1 <= c'.now + taken
  {
  }

  lemma QuietStart(c: Conn, timeout: nat, lateness: nat)
    requires c.guard.Asleep? && c.now <= c.guard.until + lateness
    ensures QuietAt(c, timeout, lateness, c.idle, c.guard.until, 0)
  {
  }

  lemma QuietKeepsCells(c: Conn, timeout: nat, lateness: nat, idle: Idle, until: nat, steps: nat)
    requires Inv(c) && QuietAt(c, timeout, lateness, idle, until, steps)
    ensures c.idle == idle && idle.lastActivity <= c.now
  {
    hide Outstanding;
  }

  lemma {:induction false} QuietSteps(c: Conn, timeout: nat, lateness: nat, more: seq<Event>) returns (steps: nat)
    requires Inv(c) && c.guard.Asleep? && c.idle.inFlight == 0 && c.now <= c.guard.until + lateness
    requires QuietRun(c, timeout, lateness, more)
    ensures QuietAt(Run(c, timeout, more), timeout, lateness, c.idle, c.guard.until, steps)
    ensures c.now + |more| <= Run(c, timeout, more).now + steps
  {
    hide Next, QuietAt, IsQuiet, UseInv, GuardInv, Outstanding;
    if more == [] {
      steps := 0;
      QuietStart(c, timeout, lateness);
    } else {
      var before, e := more[..|more| - 1], more[|more| - 1];
      assert forall k :: 0 <= k < |before| ==> before[..k] == more[..k];
      steps := QuietSteps(c, timeout, lateness, before);
      var c' := Run(c, timeout, before);
      RunKeepsInv(c, timeout, before);
      QuietKeepsCells(c', timeout, lateness, c.idle, c.guard.until, steps);
      QuietStep(c', timeout, lateness, c.idle, c.guard.until, steps, e);
      steps := steps + if e.WatchdogStep? then 1 else 0;
    }
  }

  lemma QuietEnds(c: Conn, timeout: nat, lateness: nat, idle: Idle, until: nat, steps: nat)
    requires QuietAt(c, timeout, lateness, idle, until, steps)
    ensures var deadline := idle.lastActivity + timeout;
            && c.now + steps <= Max(until, deadline) + lateness + 6
            && (!IsQuiet(c, WatchdogStep, lateness) && !IsQuiet(c, Tick(1), lateness) <==> c.guard.Returned?)
            && (c.guard.Returned? ==> deadline <= c.now <= Max(until, deadline) + lateness)
  {
  }

  lemma StoredBefore(c: Conn)
    requires Inv(c)
    ensures c.idle.lastActivity <= c.now
  {
  }

  /** Once nothing is in flight and no request takes a step, a sleeping watchdog closes the connection:
      a quiet run is bounded, it cannot go on exactly when the watchdog has returned, and that is no
      earlier than the timeout after the stored activity and no later than the lateness of timers after
      that or the end of the sleep it was in, and so no later than a timeout and a lateness from now. */
  lemma {:induction false} QuietConnectionCloses(start: nat, timeout: nat, lateness: nat, events: seq<Event>, more: seq<Event>)
    requires var c := After(start, timeout, events);
             && c.guard.Asleep? && c.idle.inFlight == 0 && c.now <= c.guard.until + lateness
             && QuietRun(c, timeout, lateness, more)
    ensures var c := After(start, timeout, events);
            var c' := Run(c, timeout, more);
            var deadline := c.idle.lastActivity + timeout;
            var end := Max(c.guard.until, deadline) + lateness;
            && end <= c.now + timeout + lateness
            && c.now + |more| <= end + 6
            && (!IsQuiet(c', WatchdogStep, lateness) && !IsQuiet(c', Tick(1), lateness) <==> c'.guard.Returned?)
            && (c'.guard.Returned? ==> deadline <= c'.now <= end)
  {
    hide After, Run, Inv;
    Reachable(start, timeout, events);
    AfterSleeps(start, timeout, events);
    var c := After(start, timeout, events);
    StoredBefore(c);
    var steps := QuietSteps(c, timeout, lateness, more);
    QuietEnds(Run(c, timeout, more), timeout, lateness, c.idle, c.guard.until, steps);
  }
}
