/** Runs of the concurrent watchdog that close a connection in use: each race happens, for every
    timeout. */
module WatchdogRaces {
  import opened IdleTracking
  import opened ConcurrentWatchdog

  /** A request streams its body, and the watchdog goes to sleep for the timeout with it in flight. */
  const STREAM: seq<Event> :=
    [CallClock(0)] + [Store(0)] + [CallCount(0)] + [HandlerOk(0)] + [WatchdogStep] + [WatchdogStep] + [WatchdogStep]

  function Streamed(timeout: nat): Conn {
    Conn(0, Idle(0, 1), map[0 := Streaming], Asleep(timeout, true), 0, 0)
  }

  lemma StreamStarts(timeout: nat)
    ensures Run(Init(0), timeout, [CallClock(0)] + [Store(0)] + [CallCount(0)] + [HandlerOk(0)])
         == Conn(0, Idle(0, 1), map[0 := Streaming], Asleep(0, false), 0, 0)
  {
    var c := Init(0);
    RunOne(c, timeout, CallClock(0));
    RunSnoc(c, timeout, [CallClock(0)], Store(0));
    RunSnoc(c, timeout, [CallClock(0)] + [Store(0)], CallCount(0));
    RunSnoc(c, timeout, [CallClock(0)] + [Store(0)] + [CallCount(0)], HandlerOk(0));
    hide Run;
  }

  lemma StreamRuns(timeout: nat)
    ensures After(0, timeout, STREAM) == Streamed(timeout)
  {
    StreamStarts(timeout);
    var first := [CallClock(0)] + [Store(0)] + [CallCount(0)] + [HandlerOk(0)];
    ThreeSteps(Init(0), timeout, first, WatchdogStep, WatchdogStep, WatchdogStep);
    hide Run;
  }

  /** Stored between the loads: the watchdog wakes, sees the cell idle at the top of its loop, the body
      is released, and the connection is closed at that instant. */
  function LateRelease(timeout: nat): seq<Event> {
    STREAM
    + [Tick(timeout)] + [WatchdogStep] + [WatchdogStep]
    + [ReleaseCount(0)] + [ReleaseClock(0)] + [Store(0)]
    + [WatchdogStep]
  }

  lemma LateReleaseLoads(timeout: nat)
    ensures Next(Next(Next(Streamed(timeout), timeout, Tick(timeout)), timeout, WatchdogStep), timeout, WatchdogStep)
         == Conn(timeout, Idle(0, 1), map[0 := Streaming], TopLoaded(timeout, 0, timeout, 0), 0, 0)
  {
  }

  lemma LateReleaseStores(timeout: nat)
    ensures var c := Conn(timeout, Idle(0, 1), map[0 := Streaming], TopLoaded(timeout, 0, timeout, 0), 0, 0);
            Next(Next(Next(c, timeout, ReleaseCount(0)), timeout, ReleaseClock(0)), timeout, Store(0))
            == Conn(timeout, Idle(timeout, 0), map[0 := Done], TopLoaded(timeout, 0, timeout, 0), timeout, timeout)
  {
  }

  lemma ClosesRightAfterRelease(timeout: nat)
    ensures var c := After(0, timeout, LateRelease(timeout));
            && c.guard.Returned? && c.requests == map[0 := Done]
            && c.idle.lastActivity == c.lastUse == c.now == timeout
  {
    StreamRuns(timeout);
    LateReleaseLoads(timeout);
    LateReleaseStores(timeout);
    var loaded := STREAM + [Tick(timeout)] + [WatchdogStep] + [WatchdogStep];
    var stored := loaded + [ReleaseCount(0)] + [ReleaseClock(0)] + [Store(0)];
    ThreeSteps(Init(0), timeout, STREAM, Tick(timeout), WatchdogStep, WatchdogStep);
    ThreeSteps(Init(0), timeout, loaded, ReleaseCount(0), ReleaseClock(0), Store(0));
    RunSnoc(Init(0), timeout, stored, WatchdogStep);
    hide Run;
  }

  /** Not stored yet: the watchdog wakes between the decrement and the touch of a release. */
  function HalfRelease(timeout: nat): seq<Event> {
    STREAM + [Tick(timeout)] + [ReleaseCount(0)] + [WatchdogStep] + [WatchdogStep]
  }

  lemma HalfReleaseWakes(timeout: nat)
    ensures Next(Next(Next(Streamed(timeout), timeout, Tick(timeout)), timeout, ReleaseCount(0)), timeout, WatchdogStep)
         == Conn(timeout, Idle(0, 0), map[0 := Releasing(timeout)], WokenAtZero, 0, timeout)
  {
  }

  lemma ClosesWithinRelease(timeout: nat)
    ensures var c := After(0, timeout, HalfRelease(timeout));
            && c.guard.Returned? && c.requests == map[0 := Releasing(timeout)]
            && c.lastUse == c.now == timeout
  {
    StreamRuns(timeout);
    HalfReleaseWakes(timeout);
    ThreeSteps(Init(0), timeout, STREAM, Tick(timeout), ReleaseCount(0), WatchdogStep);
    RunSnoc(Init(0), timeout, STREAM + [Tick(timeout)] + [ReleaseCount(0)] + [WatchdogStep], WatchdogStep);
    hide Run;
  }

  /** The watchdog of an unused connection goes to sleep. */
  const DOZE: seq<Event> := [WatchdogStep] + [WatchdogStep] + [WatchdogStep]

  lemma Dozes(c: Conn, timeout: nat)
    requires 0 < timeout && c.now == 0 && c.idle == Idle(0, 0) && c.guard == Asleep(0, false)
    ensures Run(c, timeout, DOZE) == c.(guard := Asleep(timeout, true))
  {
    RunNone(c, timeout);
    ThreeSteps(c, timeout, [], WatchdogStep, WatchdogStep, WatchdogStep);
    assert [] + [WatchdogStep] + [WatchdogStep] + [WatchdogStep] == DOZE;
    hide Run;
  }

  lemma StartAfterWaking(timeout: nat)
    ensures var c := Init(0).(guard := Asleep(timeout, true));
            Next(Next(Next(c, timeout, Tick(timeout)), timeout, WatchdogStep), timeout, CallClock(0))
            == Conn(timeout, Idle(0, 0), map[0 := Starting(timeout)], WokenAtZero, 0, timeout)
  {
  }

  /** Not stored yet: a request starts after the watchdog has woken to a zero count, and the connection
      is closed before its touch is stored. */
  function HalfStart(timeout: nat): seq<Event> {
    DOZE + [Tick(timeout)] + [WatchdogStep] + [CallClock(0)] + [WatchdogStep]
  }

  lemma ClosesOverStart(timeout: nat)
    requires 0 < timeout
    ensures var c := After(0, timeout, HalfStart(timeout));
            && c.guard.Returned? && c.requests == map[0 := Starting(timeout)]
            && c.lastUse == c.now == timeout
  {
    hide Run;
    Dozes(Init(0), timeout);
    StartAfterWaking(timeout);
    ThreeSteps(Init(0), timeout, DOZE, Tick(timeout), WatchdogStep, CallClock(0));
    RunSnoc(Init(0), timeout, DOZE + [Tick(timeout)] + [WatchdogStep] + [CallClock(0)], WatchdogStep);
  }

  /** A counted handler: it starts after the watchdog has woken to a zero count, and the timeout passes
      before the next load. */
  function LateLoad(timeout: nat): seq<Event> {
    DOZE
    + [Tick(timeout)] + [WatchdogStep] + [CallClock(0)]
    + [Store(0)] + [CallCount(0)] + [Tick(timeout)]
    + [WatchdogStep]
  }

  lemma LateLoadCounts(timeout: nat)
    ensures var c := Conn(timeout, Idle(0, 0), map[0 := Starting(timeout)], WokenAtZero, 0, timeout);
            Next(Next(Next(c, timeout, Store(0)), timeout, CallCount(0)), timeout, Tick(timeout))
            == Conn(2 * timeout, Idle(timeout, 1), map[0 := Handling], WokenAtZero, timeout, timeout)
  {
  }

  lemma ClosesOverHandler(timeout: nat)
    requires 0 < timeout
    ensures var c := After(0, timeout, LateLoad(timeout));
            c.guard.Returned? && c.requests == map[0 := Handling] && c.idle.inFlight == 1
  {
    hide Run;
    Dozes(Init(0), timeout);
    StartAfterWaking(timeout);
    LateLoadCounts(timeout);
    var started := DOZE + [Tick(timeout)] + [WatchdogStep] + [CallClock(0)];
    ThreeSteps(Init(0), timeout, DOZE, Tick(timeout), WatchdogStep, CallClock(0));
    ThreeSteps(Init(0), timeout, started, Store(0), CallCount(0), Tick(timeout));
    RunSnoc(Init(0), timeout, started + [Store(0)] + [CallCount(0)] + [Tick(timeout)], WatchdogStep);
  }

  /** Stored and overwritten: a request that read the clock a timeout ago stores that time over the one
      of a request that has just started. */
  function StaleStore(timeout: nat): seq<Event> {
    [CallClock(0)] + DOZE
    + [Tick(timeout)] + [CallClock(1)] + [Store(1)]
    + [Store(0)] + [WatchdogStep] + [WatchdogStep]
  }

  lemma StaleStoreStarts(timeout: nat)
    ensures var c := Conn(0, Idle(0, 0), map[0 := Starting(0)], Asleep(timeout, true), 0, 0);
            Next(Next(Next(c, timeout, Tick(timeout)), timeout, CallClock(1)), timeout, Store(1))
            == Conn(timeout, Idle(timeout, 0), map[0 := Starting(0), 1 := Started], Asleep(timeout, true), timeout, timeout)
  {
  }

  lemma StaleStoreCloses(timeout: nat)
    ensures var c := Conn(timeout, Idle(timeout, 0), map[0 := Starting(0), 1 := Started], Asleep(timeout, true), timeout, timeout);
            Next(Next(Next(c, timeout, Store(0)), timeout, WatchdogStep), timeout, WatchdogStep)
            == Conn(timeout, Idle(0, 0), map[0 := Started, 1 := Started], Returned, timeout, timeout)
  {
  }

  lemma ClosesAfterStaleStore(timeout: nat)
    requires 0 < timeout
    ensures var c := After(0, timeout, StaleStore(timeout));
            && c.guard.Returned? && c.requests == map[0 := Started, 1 := Started]
            && c.lastUse == c.now == timeout && c.idle.lastActivity == 0
  {
    var first := [CallClock(0)];
    var c := Conn(0, Idle(0, 0), map[0 := Starting(0)], Asleep(0, false), 0, 0);
    RunOne(Init(0), timeout, CallClock(0));
    assert Run(Init(0), timeout, first) == c;
    StaleStoreStarts(timeout);
    StaleStoreCloses(timeout);
    hide Run, Next;
    RunAppend(Init(0), timeout, first, DOZE);
    Dozes(c, timeout);
    ThreeSteps(Init(0), timeout, first + DOZE, Tick(timeout), CallClock(1), Store(1));
    ThreeSteps(Init(0), timeout, first + DOZE + [Tick(timeout)] + [CallClock(1)] + [Store(1)], Store(0), WatchdogStep, WatchdogStep);
  }
}
