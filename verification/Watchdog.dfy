/** One connection as a state machine: requests, response bodies, time and the idle watchdog of
    src/server.rs.

    The granularity is one poll: both branches of the connection's `select!` run in one task, and so do
    the requests of HTTP/1, so a watchdog poll, from waking to its next sleep or its return, is one step, and so is a call of the
    service or a poll or drop of a body. An event that is not enabled leaves the state as it is, so
    every sequence of events is a run. */
module Watchdog {
  import opened IdleTracking
  import opened Sets

  /** `Abandoned` is a service future dropped before it completed: nothing uncounts it. */
  datatype Phase = Handling | Streaming | Released | Gone | Abandoned

  datatype Guard = Unpolled(until: nat) | Asleep(until: nat) | Returned

  datatype Conn = Conn(now: nat, idle: Idle, requests: map<nat, Phase>, watchdog: Guard)

  /** The idle timeout, and how late a timer may fire. */
  datatype Timing = Timing(timeout: nat, lateness: nat)

  datatype Event =
    | Call(id: nat)
    | HandlerOk(id: nat)
    | HandlerErr(id: nat)
    | HandlerAbandoned(id: nat)
    | BodyPolled(id: nat, poll: Poll)
    | BodyDropped(id: nat)
    | Tick(delta: nat)
    | WatchdogPoll

  // ----- the watchdog's loop body -----

  datatype Decision = Return | Sleep(duration: nat)

  /** The top of the loop. */
  function Head(i: Idle, now: nat, timeout: nat): Decision {
    var idleFor := IdleFor(i, now);
    var remaining := if idleFor <= timeout then timeout - idleFor else 0;
    if i.inFlight > 0 then Sleep(timeout)
    else if remaining != 0 then Sleep(remaining)
    else Return
  }

  /** From waking: the check after the sleep, then the top of the loop. */
  function AfterSleep(i: Idle, now: nat, timeout: nat): Decision {
    if i.inFlight == 0 && IdleFor(i, now) >= timeout then Return else Head(i, now, timeout)
  }

  function Polled(c: Conn, t: Timing): Guard {
    var d := if c.watchdog.Unpolled? then Head(c.idle, c.now, t.timeout) else AfterSleep(c.idle, c.now, t.timeout);
    match d
    case Return => Returned
    case Sleep(duration) => Asleep(c.now + duration)
  }

  // ----- steps -----

  predicate InPhase(c: Conn, id: nat, p: Phase) {
    id in c.requests && c.requests[id] == p
  }

  predicate HasBody(c: Conn, id: nat) {
    InPhase(c, id, Streaming) || InPhase(c, id, Released)
  }

  predicate Enabled(c: Conn, t: Timing, e: Event) {
    && !c.watchdog.Returned?
    && match e
       case Call(id) => id !in c.requests
       case HandlerOk(id) => InPhase(c, id, Handling)
       case HandlerErr(id) => InPhase(c, id, Handling)
       case HandlerAbandoned(id) => InPhase(c, id, Handling)
       case BodyPolled(id, _) => HasBody(c, id)
       case BodyDropped(id) => HasBody(c, id)
       case Tick(delta) => c.now + delta <= c.watchdog.until + t.lateness
       case WatchdogPoll => c.watchdog.until <= c.now
  }

  /** A body event, through the code of `IdleTrackingBody`. */
  function BodyEffect(c: Conn, id: nat, e: BodyEvent): Conn
    requires HasBody(c, id)
  {
    var (decremented, idle) := BodyStep(c.requests[id] == Released, c.idle, e);
    c.(idle := idle,
       requests := c.requests[id := if e.Dropped? then Gone else if decremented then Released else Streaming])
  }

  function Apply(c: Conn, t: Timing, e: Event): Conn
    requires Enabled(c, t, e)
  {
    match e
    case Call(id) => c.(idle := Started(c.idle, c.now), requests := c.requests[id := Handling])
    case HandlerOk(id) => c.(requests := c.requests[id := Streaming])
    case HandlerErr(id) => c.(idle := Finished(c.idle, c.now), requests := c.requests[id := Gone])
    case HandlerAbandoned(id) => c.(requests := c.requests[id := Abandoned])
    case BodyPolled(id, poll) => BodyEffect(c, id, BodyEvent.Polled(poll, c.now))
    case BodyDropped(id) => BodyEffect(c, id, BodyEvent.Dropped(c.now))
    case Tick(delta) => c.(now := c.now + delta)
    case WatchdogPoll => c.(watchdog := Polled(c, t))
  }

  function Next(c: Conn, t: Timing, e: Event): Conn {
    if Enabled(c, t, e) then Apply(c, t, e) else c
  }

  function Init(start: nat): Conn {
    Conn(start, Idle(start, 0), map[], Unpolled(start))
  }

  function After(start: nat, t: Timing, events: seq<Event>): Conn {
    if events == [] then Init(start)
    else Next(After(start, t, events[..|events| - 1]), t, events[|events| - 1])
  }

  lemma AfterSnoc(start: nat, t: Timing, events: seq<Event>, e: Event)
    ensures After(start, t, events + [e]) == Next(After(start, t, events), t, e)
  {
    assert (events + [e])[..|events|] == events;
  }

  // ----- what the run itself says -----

  function Those(c: Conn, p: Phase): set<nat> {
    set id | id in c.requests && c.requests[id] == p
  }

  /** Requests that the counter still has to count. */
  function Outstanding(c: Conn): set<nat> {
    set id | id in c.requests && c.requests[id] !in {Released, Gone}
  }

  /** A request starts, a frame is sent, or a request is released for the first time. */
  predicate IsActivity(c: Conn, t: Timing, e: Event) {
    && Enabled(c, t, e)
    && match e
       case Call(_) => true
       case HandlerErr(_) => true
       case BodyPolled(id, poll) => poll.Frame? || (c.requests[id] == Streaming && !poll.Pending?)
       case BodyDropped(id) => c.requests[id] == Streaming
       case _ => false
  }

  /** When the last activity of the run happened, or the start if there was none. */
  function LastActivity(start: nat, t: Timing, events: seq<Event>): nat {
    if events == [] then start
    else
      var before := events[..|events| - 1];
      var c := After(start, t, before);
      if IsActivity(c, t, events[|events| - 1]) then c.now else LastActivity(start, t, before)
  }

  // ----- invariant -----

  ghost predicate Inv(c: Conn, t: Timing) {
    && c.idle.lastActivity <= c.now
    && c.idle.inFlight == |Outstanding(c)|
    && (!c.watchdog.Returned? ==>
          && c.now <= c.watchdog.until + t.lateness
          && c.watchdog.until <= c.now + t.timeout
          && (c.idle.inFlight == 0 ==> c.watchdog.until <= c.idle.lastActivity + t.timeout))
    && (c.watchdog.Returned? ==>
          && c.idle.inFlight == 0
          && c.idle.lastActivity + t.timeout <= c.now)
  }

  /** How one request moves in or out of the outstanding set. */
  lemma OutstandingAfter(c: Conn, c': Conn, id: nat)
    requires id in c'.requests && c'.requests == c.requests[id := c'.requests[id]]
    ensures |Outstanding(c')| == |Outstanding(c)| + (if id in Outstanding(c') then 1 else 0)
                               - (if id in Outstanding(c) then 1 else 0)
  {
    assert Outstanding(c) - {id} == Outstanding(c') - {id};
    hide Outstanding;
    OneMoved(Outstanding(c), Outstanding(c'), id);
  }

  lemma NextKeepsInv(c: Conn, t: Timing, e: Event)
    requires Inv(c, t)
    ensures Inv(Next(c, t, e), t)
  {
    if Enabled(c, t, e) && !e.Tick? && !e.WatchdogPoll? {
      var c' := Apply(c, t, e);
      OutstandingAfter(c, c', e.id);
      assert e.id in Outstanding(c') <==> c'.requests[e.id] !in {Released, Gone};
      assert e.id in Outstanding(c) <==> e.id in c.requests && c.requests[e.id] !in {Released, Gone};
      hide Outstanding;
    } else if e.Tick? || e.WatchdogPoll? {
      assert Outstanding(Next(c, t, e)) == Outstanding(c);
    }
  }

  lemma {:induction false} Reachable(start: nat, t: Timing, events: seq<Event>)
    ensures Inv(After(start, t, events), t)
    ensures After(start, t, events).idle.lastActivity == LastActivity(start, t, events)
  {
    if events == [] {
      assert Outstanding(Init(start)) == {};
    } else {
      var before, e := events[..|events| - 1], events[|events| - 1];
      Reachable(start, t, before);
      NextKeepsInv(After(start, t, before), t, e);
    }
  }

  // ----- accounting and safety, over every run -----

  /** The counter is never negative and always equals pending handlers, plus unreleased response
      bodies, plus abandoned handler futures. */
  lemma {:induction false} InFlightAccounting(start: nat, t: Timing, events: seq<Event>)
    ensures var c := After(start, t, events);
            && 0 <= c.idle.inFlight
            && c.idle.inFlight == |Those(c, Handling)| + |Those(c, Streaming)| + |Those(c, Abandoned)|
  {
    hide After;
    Reachable(start, t, events);
    OutstandingParts(After(start, t, events));
  }

  lemma OutstandingParts(c: Conn)
    ensures |Outstanding(c)| == |Those(c, Handling)| + |Those(c, Streaming)| + |Those(c, Abandoned)|
  {
    assert Outstanding(c) == Those(c, Handling) + Those(c, Streaming) + Those(c, Abandoned);
  }

  /** The watchdog closes a connection only when no handler is pending, no body is unreleased, and the
      last request start, frame or release is at least the timeout ago. */
  lemma {:induction false} WatchdogSafety(start: nat, t: Timing, events: seq<Event>)
    ensures var c := After(start, t, events);
            c.watchdog.Returned? ==>
              && Those(c, Handling) == {} && Those(c, Streaming) == {}
              && LastActivity(start, t, events) + t.timeout <= c.now
  {
    InFlightAccounting(start, t, events);
    Reachable(start, t, events);
  }

  lemma {:induction false} AbandonedStays(start: nat, t: Timing, events: seq<Event>, more: seq<Event>, id: nat)
    requires InPhase(After(start, t, events), id, Abandoned)
    ensures InPhase(After(start, t, events + more), id, Abandoned)
    decreases |more|
  {
    if more == [] {
      assert events + more == events;
    } else {
      AbandonedStays(start, t, events, more[..|more| - 1], id);
      assert (events + more)[..|events + more| - 1] == events + more[..|more| - 1];
    }
  }

  /** One abandoned handler future keeps the connection open for good: its count is never taken
      back, so the watchdog returns in no continuation. */
  lemma {:induction false} AbandonedHandlerDisablesWatchdog(start: nat, t: Timing, events: seq<Event>, more: seq<Event>, id: nat)
    requires InPhase(After(start, t, events), id, Abandoned)
    ensures !After(start, t, events + more).watchdog.Returned?
  {
    AbandonedStays(start, t, events, more, id);
    Reachable(start, t, events + more);
    assert id in Outstanding(After(start, t, events + more));
  }

  // ----- deadline -----

  /** Only time passes and the watchdog is polled. */
  ghost predicate Quiet(events: seq<Event>) {
    forall i :: 0 <= i < |events| ==> events[i].Tick? || events[i].WatchdogPoll?
  }

  /** How many watchdog polls in `more` took effect, after `events`. */
  function Wakes(start: nat, t: Timing, events: seq<Event>, more: seq<Event>): nat {
    if more == [] then 0
    else
      var last, before := more[|more| - 1], more[..|more| - 1];
      Wakes(start, t, events, before)
      + if last.WatchdogPoll? && Enabled(After(start, t, events + before), t, last) then 1 else 0
  }

  /** Where a quiet connection with these idle cells is after `wakes` polls. */
  ghost predicate QuietAfter(c: Conn, t: Timing, idle: Idle, wakes: nat) {
    && c.idle == idle
    && wakes <= 2
    && (wakes == 2 ==> c.watchdog.Returned?)
    && (wakes == 1 && !c.watchdog.Returned? ==> c.watchdog.until == idle.lastActivity + t.timeout)
    && (c.watchdog.Returned? ==> c.now <= idle.lastActivity + t.timeout + t.lateness)
  }

  lemma QuietStep(c: Conn, t: Timing, e: Event, idle: Idle, wakes: nat)
    requires Inv(c, t) && QuietAfter(c, t, idle, wakes) && idle.inFlight == 0
    requires e.Tick? || e.WatchdogPoll?
    ensures QuietAfter(Next(c, t, e), t, idle, wakes + if e.WatchdogPoll? && Enabled(c, t, e) then 1 else 0)
  {
  }

  lemma {:induction false} QuietSuffix(start: nat, t: Timing, events: seq<Event>, more: seq<Event>)
    requires Quiet(more) && !After(start, t, events).watchdog.Returned?
    requires After(start, t, events).idle.inFlight == 0
    ensures QuietAfter(After(start, t, events + more), t, After(start, t, events).idle, Wakes(start, t, events, more))
    decreases |more|
  {
    hide Next, Inv, Enabled;
    if more == [] {
      assert events + more == events;
    } else {
      var before, e := more[..|more| - 1], more[|more| - 1];
      QuietSuffix(start, t, events, before);
      Reachable(start, t, events + before);
      QuietStep(After(start, t, events + before), t, e, After(start, t, events).idle, Wakes(start, t, events, before));
      assert (events + more)[..|events + more| - 1] == events + before;
    }
  }

  /** Once nothing is in flight and nothing more happens, the watchdog returns no earlier than the
      timeout after the last activity, no later than that plus the lateness of timers, and after at
      most two polls; until it has returned, time cannot pass that point. */
  lemma {:induction false} WatchdogDeadline(start: nat, t: Timing, events: seq<Event>, more: seq<Event>)
    requires Quiet(more) && !After(start, t, events).watchdog.Returned?
    requires After(start, t, events).idle.inFlight == 0
    ensures var c := After(start, t, events + more);
            var deadline := LastActivity(start, t, events) + t.timeout;
            && Wakes(start, t, events, more) <= 2
            && c.now <= deadline + t.lateness
            && (c.watchdog.Returned? ==> deadline <= c.now)
            && (t.lateness == 0 && c.watchdog.Returned? ==> c.now == deadline)
  {
    QuietSuffix(start, t, events, more);
    Reachable(start, t, events);
    Reachable(start, t, events + more);
  }

  /** Every event of `more` is enabled when it happens, and time passes by more than nothing. */
  ghost predicate Effective(start: nat, t: Timing, events: seq<Event>, more: seq<Event>) {
    forall k :: 0 <= k < |more| ==>
      Enabled(After(start, t, events + more[..k]), t, more[k]) && (more[k].Tick? ==> 0 < more[k].delta)
  }

  lemma PassesTime(c: Conn, t: Timing, e: Event)
    requires Enabled(c, t, e) && (e.WatchdogPoll? || (e.Tick? && 0 < e.delta))
    ensures c.now + 1 <= Next(c, t, e).now + if e.WatchdogPoll? then 1 else 0
  {
  }

  /** Each step of a quiet run is a poll or takes time. */
  lemma {:induction false} QuietLength(start: nat, t: Timing, events: seq<Event>, more: seq<Event>)
    requires Quiet(more) && Effective(start, t, events, more)
    ensures After(start, t, events).now + |more| <= After(start, t, events + more).now + Wakes(start, t, events, more)
    decreases |more|
  {
    hide After, Next, Enabled;
    if more == [] {
      assert events + more == events;
    } else {
      var before, e := more[..|more| - 1], more[|more| - 1];
      assert forall k :: 0 <= k < |before| ==> before[..k] == more[..k];
      QuietLength(start, t, events, before);
      AfterSnoc(start, t, events + before, e);
      assert events + more == events + before + [e];
      PassesTime(After(start, t, events + before), t, e);
    }
  }

  /** It does return: a quiet run in which every step has an effect is no longer than the polls and the
      time up to the deadline allow, and where it can neither poll nor let time pass the watchdog has
      returned, no earlier than the deadline and no later than the lateness of timers after it. */
  lemma {:induction false} WatchdogReturns(start: nat, t: Timing, events: seq<Event>, more: seq<Event>)
    requires Quiet(more) && Effective(start, t, events, more)
    requires !After(start, t, events).watchdog.Returned? && After(start, t, events).idle.inFlight == 0
    ensures var c := After(start, t, events + more);
            var deadline := LastActivity(start, t, events) + t.timeout;
            && After(start, t, events).now + |more| <= 2 + deadline + t.lateness
            && (!Enabled(c, t, WatchdogPoll) && !Enabled(c, t, Tick(1)) <==> c.watchdog.Returned?)
            && (c.watchdog.Returned? ==> deadline <= c.now <= deadline + t.lateness)
  {
    hide After, Wakes, LastActivity;
    QuietLength(start, t, events, more);
    WatchdogDeadline(start, t, events, more);
  }

  // ----- when a return is still possible -----

  /** Ending one counted request that is not abandoned. */
  function Ending(c: Conn, id: nat): Event {
    if InPhase(c, id, Handling) then HandlerErr(id) else BodyDropped(id)
  }

  lemma EndOne(c: Conn, t: Timing, id: nat)
    requires !c.watchdog.Returned? && id in Outstanding(c) && Those(c, Abandoned) == {}
    ensures var c' := Next(c, t, Ending(c, id));
            && !c'.watchdog.Returned? && Those(c', Abandoned) == {} && |Outstanding(c')| < |Outstanding(c)|
  {
    var c' := Next(c, t, Ending(c, id));
    assert c.requests[id] == Abandoned ==> id in Those(c, Abandoned);
    assert c'.requests == c.requests[id := Gone];
    OutstandingAfter(c, c', id);
    assert forall k :: k in Those(c', Abandoned) ==> k in Those(c, Abandoned);
  }

  lemma {:induction false} CanEndAll(start: nat, t: Timing, events: seq<Event>) returns (more: seq<Event>)
    requires !After(start, t, events).watchdog.Returned? && Those(After(start, t, events), Abandoned) == {}
    ensures var c := After(start, t, events + more);
            !c.watchdog.Returned? && Outstanding(c) == {}
    decreases |Outstanding(After(start, t, events))|
  {
    hide After, Next;
    var c := After(start, t, events);
    if Outstanding(c) == {} {
      more := [];
      assert events + more == events;
    } else {
      var id :| id in Outstanding(c);
      var e := Ending(c, id);
      EndOne(c, t, id);
      AfterSnoc(start, t, events, e);
      var rest := CanEndAll(start, t, events + [e]);
      more := [e] + rest;
      assert events + more == events + [e] + rest;
    }
  }

  /** Waiting for the timer and polling. */
  function Wake(c: Conn): seq<Event>
    requires !c.watchdog.Returned?
  {
    [Tick(if c.now <= c.watchdog.until then c.watchdog.until - c.now else 0)] + [WatchdogPoll]
  }

  lemma AfterWake(start: nat, t: Timing, events: seq<Event>)
    requires var c := After(start, t, events); !c.watchdog.Returned? && c.idle.inFlight == 0
    ensures var c := After(start, t, events);
            var c' := After(start, t, events + Wake(c));
            && c'.idle == c.idle
            && (c.idle.lastActivity + t.timeout <= c.watchdog.until ==> c'.watchdog.Returned?)
            && (!c'.watchdog.Returned? ==> c.idle.lastActivity + t.timeout <= c'.watchdog.until)
  {
    var c := After(start, t, events);
    Reachable(start, t, events);
    AfterSnoc(start, t, events, Wake(c)[0]);
    AfterSnoc(start, t, events + [Wake(c)[0]], WatchdogPoll);
    assert events + Wake(c) == events + [Wake(c)[0]] + [WatchdogPoll];
    hide After;
  }

  lemma {:induction false} CanReturn(start: nat, t: Timing, events: seq<Event>) returns (more: seq<Event>)
    requires Those(After(start, t, events), Abandoned) == {}
    ensures After(start, t, events + more).watchdog.Returned?
  {
    hide After;
    more := [];
    assert events + more == events;
    if !After(start, t, events).watchdog.Returned? {
      more := CanEndAll(start, t, events);
      Reachable(start, t, events + more);
      var first := Wake(After(start, t, events + more));
      AfterWake(start, t, events + more);
      assert events + more + first == events + (more + first);
      more := more + first;
      if !After(start, t, events + more).watchdog.Returned? {
        var second := Wake(After(start, t, events + more));
        AfterWake(start, t, events + more);
        assert events + more + second == events + (more + second);
        more := more + second;
      }
    }
  }

  /** From any reachable state the watchdog can still return, in some continuation, exactly when no
      handler future has been abandoned. */
  lemma {:induction false} CanReturnIffNoneAbandoned(start: nat, t: Timing, events: seq<Event>)
    ensures (exists more :: After(start, t, events + more).watchdog.Returned?)
       <==> Those(After(start, t, events), Abandoned) == {}
  {
    hide After;
    var c := After(start, t, events);
    if Those(c, Abandoned) == {} {
      var more := CanReturn(start, t, events);
    } else {
      var id :| id in Those(c, Abandoned);
      forall more: seq<Event>
        ensures !After(start, t, events + more).watchdog.Returned?
      {
        AbandonedHandlerDisablesWatchdog(start, t, events, more, id);
      }
    }
  }

  /** A connection is never stuck: it can poll its watchdog or let time pass. With a positive timeout
      every poll that does not return sleeps for a positive time: the whole timeout while requests are
      in flight, else until the timeout after the last activity. */
  lemma {:induction false} WatchdogProgress(start: nat, t: Timing, events: seq<Event>)
    requires 0 < t.timeout
    ensures var c := After(start, t, events);
            && (!c.watchdog.Returned? ==> Enabled(c, t, WatchdogPoll) || Enabled(c, t, Tick(1)))
            && (Enabled(c, t, WatchdogPoll) ==>
                  var c' := Next(c, t, WatchdogPoll);
                  if c.idle.inFlight == 0 && c.idle.lastActivity + t.timeout <= c.now
                  then c'.watchdog.Returned?
                  else && c'.watchdog.Asleep? && c.now < c'.watchdog.until
                       && c'.watchdog.until
                          == t.timeout + if c.idle.inFlight > 0 then c.now else c.idle.lastActivity)
  {
    Reachable(start, t, events);
  }
}
