/** The lives of a request, step by step, in both models of the watchdog: answered with a body, failed,
    or abandoned. A frame may still come after the release. */
module RequestLives {
  import opened IdleTracking
  import opened ConcurrentWatchdog
  import Poll = Watchdog

  // ----- one access at a time -----

  function Start(id: nat): seq<Event> {
    [CallClock(id)] + [Store(id)] + [CallCount(id)]
  }

  function Answer(id: nat): seq<Event> {
    [HandlerOk(id)] + [FrameClock(id)] + [Store(id)]
  }

  function Release(id: nat): seq<Event> {
    [ReleaseCount(id)] + [ReleaseClock(id)] + [Store(id)]
  }

  function LateFrame(id: nat, delay: nat): seq<Event> {
    [Tick(delay)] + [FrameClock(id)] + [Store(id)]
  }

  /** The connection after `id` has got to phase `p`, with `change` more requests counted, and touched
      just now. */
  function Reached(c: Conn, id: nat, p: Phase, change: int): Conn {
    c.(requests := c.requests[id := p], idle := Idle(c.now, c.idle.inFlight + change), newest := c.now, lastUse := c.now)
  }

  lemma RunsThree(c: Conn, timeout: nat, e: Event, f: Event, g: Event)
    ensures Run(c, timeout, [e] + [f] + [g]) == Next(Next(Next(c, timeout, e), timeout, f), timeout, g)
  {
    hide Run, Next;
    RunNone(c, timeout);
    ThreeSteps(c, timeout, [], e, f, g);
    assert [] + [e] + [f] + [g] == [e] + [f] + [g];
  }

  lemma Starts(c: Conn, timeout: nat, id: nat)
    requires !c.guard.Returned? && id !in c.requests && c.newest <= c.now
    ensures Run(c, timeout, Start(id)) == Reached(c, id, Handling, 1)
  {
    RunsThree(c, timeout, CallClock(id), Store(id), CallCount(id));
    hide Run;
    assert c.requests[id := Starting(c.now)][id := Started][id := Handling] == c.requests[id := Handling];
  }

  lemma Answers(c: Conn, timeout: nat, id: nat)
    requires !c.guard.Returned? && c.newest <= c.now
    ensures Run(Reached(c, id, Handling, 1), timeout, Answer(id)) == Reached(c, id, Streaming, 1)
  {
    RunsThree(Reached(c, id, Handling, 1), timeout, HandlerOk(id), FrameClock(id), Store(id));
    hide Run;
    assert c.requests[id := Handling][id := Streaming][id := Framing(c.now, true)][id := Streaming] == c.requests[id := Streaming];
  }

  lemma Releases(c: Conn, timeout: nat, id: nat, p: Phase)
    requires !c.guard.Returned? && c.newest <= c.now && (p == Handling || p == Streaming)
    ensures Run(Reached(c, id, p, 1), timeout, Release(id)) == Reached(c, id, Done, 0)
  {
    RunsThree(Reached(c, id, p, 1), timeout, ReleaseCount(id), ReleaseClock(id), Store(id));
    hide Run;
    assert c.requests[id := p][id := Releasing(c.now)][id := Touching(c.now)][id := Done] == c.requests[id := Done];
  }

  /** A frame after the release still touches, and counts nothing. */
  lemma FramesLate(c: Conn, timeout: nat, id: nat, delay: nat)
    requires !c.guard.Returned? && c.newest <= c.now
    ensures Run(Reached(c, id, Done, 0), timeout, LateFrame(id, delay)) == Reached(c.(now := c.now + delay), id, Done, 0)
  {
    var d := Reached(c, id, Done, 0);
    RunsThree(d, timeout, Tick(delay), FrameClock(id), Store(id));
    hide Run;
    assert d.requests[id := Framing(c.now + delay, false)][id := Done] == d.requests;
  }

  /** A request that is answered, or fails, leaves the connection as it was but for its touch; the same
      at whatever point of its loop the watchdog is. */
  lemma {:induction false} RequestLeavesOnlyItsTouch(start: nat, timeout: nat, events: seq<Event>, id: nat, delay: nat)
    requires var c := After(start, timeout, events); !c.guard.Returned? && id !in c.requests
    ensures var c := After(start, timeout, events);
            && Run(c, timeout, Start(id) + Answer(id) + Release(id)) == Reached(c, id, Done, 0)
            && Run(c, timeout, Start(id) + Answer(id) + Release(id) + LateFrame(id, delay))
               == Reached(c.(now := c.now + delay), id, Done, 0)
            && Run(c, timeout, Start(id) + Release(id)) == Reached(c, id, Done, 0)
  {
    hide After, Run, Reached;
    Reachable(start, timeout, events);
    var c := After(start, timeout, events);
    StoredByNow(c);
    Starts(c, timeout, id);
    Answers(c, timeout, id);
    Releases(c, timeout, id, Streaming);
    Releases(c, timeout, id, Handling);
    FramesLate(c, timeout, id, delay);
    RunAppend(c, timeout, Start(id), Answer(id));
    RunAppend(c, timeout, Start(id) + Answer(id), Release(id));
    RunAppend(c, timeout, Start(id) + Answer(id) + Release(id), LateFrame(id, delay));
    RunAppend(c, timeout, Start(id), Release(id));
  }

  lemma StoredByNow(c: Conn)
    requires Inv(c)
    ensures c.newest <= c.now
  {
  }

  /** A request that is abandoned stays counted, and unless the watchdog has already found the count at
      zero it keeps the connection open in every continuation. */
  lemma {:induction false} AbandonedRequestHoldsOpen(start: nat, timeout: nat, events: seq<Event>, id: nat, more: seq<Event>)
    requires var c := After(start, timeout, events);
             !c.guard.Returned? && !c.guard.WokenAtZero? && id !in c.requests
    ensures var c := After(start, timeout, events);
            var abandoned := Run(c, timeout, Start(id) + [HandlerAbandoned(id)]);
            && abandoned == Reached(c, id, Abandoned, 1)
            && !Run(abandoned, timeout, more).guard.Returned?
  {
    hide After, Run;
    Reachable(start, timeout, events);
    var c := After(start, timeout, events);
    StoredByNow(c);
    Starts(c, timeout, id);
    RunSnoc(c, timeout, Start(id), HandlerAbandoned(id));
    assert c.requests[id := Handling][id := Abandoned] == c.requests[id := Abandoned];
    RunKeepsInv(c, timeout, Start(id) + [HandlerAbandoned(id)]);
    hide Inv;
    AbandonedHandlerDisablesWatchdog(Reached(c, id, Abandoned, 1), timeout, more, id);
  }

  // ----- one poll at a time -----

  /** The lives of a request between two polls. */
  function Answered(id: nat): seq<Poll.Event> {
    [Poll.Call(id)] + [Poll.HandlerOk(id)] + [Poll.BodyPolled(id, Frame)] + [Poll.BodyPolled(id, EndOfStream)]
    + [Poll.BodyPolled(id, Frame)] + [Poll.BodyDropped(id)]
  }

  function Failed(id: nat): seq<Poll.Event> {
    [Poll.Call(id)] + [Poll.HandlerErr(id)]
  }

  function PollReached(c: Poll.Conn, id: nat, p: Poll.Phase, change: int): Poll.Conn {
    c.(requests := c.requests[id := p], idle := Idle(c.now, c.idle.inFlight + change))
  }

  lemma PolledStart(c: Poll.Conn, t: Poll.Timing, id: nat)
    requires !c.watchdog.Returned? && id !in c.requests
    ensures Poll.Next(c, t, Poll.Call(id)) == PollReached(c, id, Poll.Handling, 1)
    ensures Poll.Next(PollReached(c, id, Poll.Handling, 1), t, Poll.HandlerErr(id)) == PollReached(c, id, Poll.Gone, 0)
    ensures Poll.Next(PollReached(c, id, Poll.Handling, 1), t, Poll.HandlerOk(id)) == PollReached(c, id, Poll.Streaming, 1)
  {
    assert c.requests[id := Poll.Handling][id := Poll.Gone] == c.requests[id := Poll.Gone];
    assert c.requests[id := Poll.Handling][id := Poll.Streaming] == c.requests[id := Poll.Streaming];
  }

  lemma PolledBody(c: Poll.Conn, t: Poll.Timing, id: nat)
    requires !c.watchdog.Returned?
    ensures var d := PollReached(c, id, Poll.Streaming, 1); Poll.Next(d, t, Poll.BodyPolled(id, Frame)) == d
    ensures var d := PollReached(c, id, Poll.Streaming, 1);
            Poll.Next(d, t, Poll.BodyPolled(id, EndOfStream)) == PollReached(c, id, Poll.Released, 0)
    ensures var d := PollReached(c, id, Poll.Released, 0); Poll.Next(d, t, Poll.BodyPolled(id, Frame)) == d
    ensures var d := PollReached(c, id, Poll.Released, 0); Poll.Next(d, t, Poll.BodyDropped(id)) == PollReached(c, id, Poll.Gone, 0)
  {
    assert c.requests[id := Poll.Streaming][id := Poll.Streaming] == c.requests[id := Poll.Streaming];
    assert c.requests[id := Poll.Streaming][id := Poll.Released] == c.requests[id := Poll.Released];
    assert c.requests[id := Poll.Released][id := Poll.Released] == c.requests[id := Poll.Released];
    assert c.requests[id := Poll.Released][id := Poll.Gone] == c.requests[id := Poll.Gone];
  }

  /** At one step per poll too: a request leaves the connection as it was but for its touch. */
  lemma {:induction false} PolledRequestLeavesOnlyItsTouch(start: nat, t: Poll.Timing, events: seq<Poll.Event>, id: nat)
    requires var c := Poll.After(start, t, events); !c.watchdog.Returned? && id !in c.requests
    ensures var c := Poll.After(start, t, events);
            && Poll.After(start, t, events + Answered(id)) == PollReached(c, id, Poll.Gone, 0)
            && Poll.After(start, t, events + Failed(id)) == PollReached(c, id, Poll.Gone, 0)
  {
    hide Poll.After, Poll.Next, PollReached;
    var c := Poll.After(start, t, events);
    PolledStart(c, t, id);
    PolledBody(c, t, id);
    var e1 := events + [Poll.Call(id)];
    var e2 := e1 + [Poll.HandlerOk(id)];
    var e3 := e2 + [Poll.BodyPolled(id, Frame)];
    var e4 := e3 + [Poll.BodyPolled(id, EndOfStream)];
    var e5 := e4 + [Poll.BodyPolled(id, Frame)];
    Poll.AfterSnoc(start, t, events, Poll.Call(id));
    Poll.AfterSnoc(start, t, e1, Poll.HandlerOk(id));
    Poll.AfterSnoc(start, t, e2, Poll.BodyPolled(id, Frame));
    Poll.AfterSnoc(start, t, e3, Poll.BodyPolled(id, EndOfStream));
    Poll.AfterSnoc(start, t, e4, Poll.BodyPolled(id, Frame));
    Poll.AfterSnoc(start, t, e5, Poll.BodyDropped(id));
    Poll.AfterSnoc(start, t, e1, Poll.HandlerErr(id));
    assert events + Answered(id) == e5 + [Poll.BodyDropped(id)];
    assert events + Failed(id) == e1 + [Poll.HandlerErr(id)];
  }

  /** And one that is abandoned stays counted and keeps the connection open in every continuation. */
  lemma {:induction false} PolledAbandonedRequestHoldsOpen(start: nat, t: Poll.Timing, events: seq<Poll.Event>,
      id: nat, more: seq<Poll.Event>)
    requires var c := Poll.After(start, t, events); !c.watchdog.Returned? && id !in c.requests
    ensures var c := Poll.After(start, t, events);
            var abandoned := events + [Poll.Call(id)] + [Poll.HandlerAbandoned(id)];
            && Poll.After(start, t, abandoned) == PollReached(c, id, Poll.Abandoned, 1)
            && !Poll.After(start, t, abandoned + more).watchdog.Returned?
  {
    hide Poll.After;
    var c := Poll.After(start, t, events);
    PolledStart(c, t, id);
    Poll.AfterSnoc(start, t, events, Poll.Call(id));
    Poll.AfterSnoc(start, t, events + [Poll.Call(id)], Poll.HandlerAbandoned(id));
    assert c.requests[id := Poll.Handling][id := Poll.Abandoned] == c.requests[id := Poll.Abandoned];
    Poll.AbandonedHandlerDisablesWatchdog(start, t, events + [Poll.Call(id)] + [Poll.HandlerAbandoned(id)], more, id);
  }
}
