/** Connection lifecycle of src/server.rs: listeners that share one semaphore, the tasks they spawn,
    and the in-flight counter that shutdown drains.

    A listener accepts a socket before it asks for a permit, so it can be parked holding one socket.
    The task owns socket and permit from the moment it is spawned, but counts itself only when first
    polled; at its end it lets go of the socket, then the permit, then the count. An event that is
    not enabled leaves the state as it is, so every sequence of events is a run. */
module Lifecycle {
  import opened FdBudget
  import opened Sets

  datatype Listener = Accepting | Holding | Stopped

  datatype Task = Spawned | Started | SocketClosed | PermitReturned

  /** Permits and count are integers, so that an underflow would show. */
  datatype Server = Server(free: int, counter: int, listeners: seq<Listener>, tasks: map<nat, Task>)

  datatype Event =
    | Accept(l: nat)
    | Acquire(l: nat, id: nat)
    | AcquireFailed(l: nat)
    | Stop(l: nat)
    | FirstPoll(id: nat)
    | CloseSocket(id: nat)
    | ReturnPermit(id: nat)
    | Finish(id: nat)
    | DropUnpolled(id: nat)

  predicate IsListener(s: Server, l: nat, state: Listener) {
    l < |s.listeners| && s.listeners[l] == state
  }

  predicate IsTask(s: Server, id: nat, state: Task) {
    id in s.tasks && s.tasks[id] == state
  }

  predicate Enabled(s: Server, e: Event) {
    match e
    case Accept(l) => IsListener(s, l, Accepting)
    case Acquire(l, id) => IsListener(s, l, Holding) && 0 < s.free && id !in s.tasks
    case AcquireFailed(l) => IsListener(s, l, Holding)
    case Stop(l) => IsListener(s, l, Accepting)
    case FirstPoll(id) => IsTask(s, id, Spawned)
    case CloseSocket(id) => IsTask(s, id, Started)
    case ReturnPermit(id) => IsTask(s, id, SocketClosed)
    case Finish(id) => IsTask(s, id, PermitReturned)
    case DropUnpolled(id) => IsTask(s, id, Spawned)
  }

  function Next(s: Server, e: Event): Server {
    if !Enabled(s, e) then s else
      match e
      case Accept(l) => s.(listeners := s.listeners[l := Holding])
      case Acquire(l, id) =>
        s.(free := s.free - 1, listeners := s.listeners[l := Accepting], tasks := s.tasks[id := Spawned])
      case AcquireFailed(l) => s.(listeners := s.listeners[l := Accepting])
      case Stop(l) => s.(listeners := s.listeners[l := Stopped])
      case FirstPoll(id) => s.(counter := s.counter + 1, tasks := s.tasks[id := Started])
      case CloseSocket(id) => s.(tasks := s.tasks[id := SocketClosed])
      case ReturnPermit(id) => s.(free := s.free + 1, tasks := s.tasks[id := PermitReturned])
      case Finish(id) => s.(counter := s.counter - 1, tasks := s.tasks - {id})
      case DropUnpolled(id) => s.(free := s.free + 1, tasks := s.tasks - {id})
  }

  function Init(max: nat, listeners: nat): Server {
    Server(max, 0, seq(listeners, i => Accepting), map[])
  }

  function After(max: nat, listeners: nat, events: seq<Event>): Server {
    if events == [] then Init(max, listeners)
    else Next(After(max, listeners, events[..|events| - 1]), events[|events| - 1])
  }

  lemma AfterSnoc(max: nat, listeners: nat, events: seq<Event>, e: Event)
    ensures After(max, listeners, events + [e]) == Next(After(max, listeners, events), e)
  {
  }

  // ----- who holds what -----

  function PermitHolders(s: Server): set<nat> {
    set id | id in s.tasks && !s.tasks[id].PermitReturned?
  }

  function Counted(s: Server): set<nat> {
    set id | id in s.tasks && !s.tasks[id].Spawned?
  }

  function TaskSockets(s: Server): set<nat> {
    set id | id in s.tasks && (s.tasks[id].Spawned? || s.tasks[id].Started?)
  }

  function ListenerSockets(s: Server): set<nat> {
    set l | 0 <= l < |s.listeners| && s.listeners[l] == Holding
  }

  function OpenSockets(s: Server): nat {
    |ListenerSockets(s)| + |TaskSockets(s)|
  }

  ghost predicate Inv(s: Server, max: nat, listeners: nat) {
    && |s.listeners| == listeners
    && 0 <= s.free
    && s.free + |PermitHolders(s)| == max
    && s.counter == |Counted(s)|
  }

  /** All tasks but `id` are as before. */
  ghost predicate OnlyTask(s: Server, s': Server, id: nat) {
    && s.tasks.Keys - {id} == s'.tasks.Keys - {id}
    && forall k :: k in s.tasks && k in s'.tasks && k != id ==> s'.tasks[k] == s.tasks[k]
  }

  lemma PermitHoldersMoved(s: Server, s': Server, id: nat)
    requires OnlyTask(s, s', id)
    ensures |PermitHolders(s')| == |PermitHolders(s)| + (if id in PermitHolders(s') then 1 else 0)
                                 - (if id in PermitHolders(s) then 1 else 0)
  {
    forall k | k != id
      ensures k in PermitHolders(s) <==> k in PermitHolders(s')
    {
      assert k in s.tasks.Keys - {id} <==> k in s'.tasks.Keys - {id};
    }
    assert PermitHolders(s) - {id} == PermitHolders(s') - {id};
    OneMoved(PermitHolders(s), PermitHolders(s'), id);
  }

  lemma CountedMoved(s: Server, s': Server, id: nat)
    requires OnlyTask(s, s', id)
    ensures |Counted(s')| == |Counted(s)| + (if id in Counted(s') then 1 else 0)
                           - (if id in Counted(s) then 1 else 0)
  {
    forall k | k != id
      ensures k in Counted(s) <==> k in Counted(s')
    {
      assert k in s.tasks.Keys - {id} <==> k in s'.tasks.Keys - {id};
    }
    assert Counted(s) - {id} == Counted(s') - {id};
    OneMoved(Counted(s), Counted(s'), id);
  }

  lemma NextKeepsInv(s: Server, e: Event, max: nat, listeners: nat)
    requires Inv(s, max, listeners)
    ensures Inv(Next(s, e), max, listeners)
  {
    var s' := Next(s, e);
    if Enabled(s, e) {
      if e.Accept? || e.AcquireFailed? || e.Stop? {
        assert PermitHolders(s') == PermitHolders(s) && Counted(s') == Counted(s);
      } else {
        PermitHoldersMoved(s, s', e.id);
        CountedMoved(s, s', e.id);
      }
    }
  }

  lemma {:induction false} Reachable(max: nat, listeners: nat, events: seq<Event>)
    ensures Inv(After(max, listeners, events), max, listeners)
  {
    if events == [] {
      assert PermitHolders(Init(max, listeners)) == {} && Counted(Init(max, listeners)) == {};
    } else {
      Reachable(max, listeners, events[..|events| - 1]);
      NextKeepsInv(After(max, listeners, events[..|events| - 1]), events[|events| - 1], max, listeners);
    }
  }

  // ----- conservation -----

  /** Free permits and tasks that hold one always add up to `max_connections`, across all listeners. */
  lemma PermitConservation(max: nat, listeners: nat, events: seq<Event>)
    ensures var s := After(max, listeners, events);
            0 <= s.free && s.free + |PermitHolders(s)| == max
  {
    Reachable(max, listeners, events);
  }

  /** Open client sockets never exceed `max_connections` plus one per listener. */
  lemma SocketBound(max: nat, listeners: nat, events: seq<Event>)
    ensures OpenSockets(After(max, listeners, events)) <= max + listeners
  {
    Reachable(max, listeners, events);
    var s := After(max, listeners, events);
    SubsetCardinality(TaskSockets(s), PermitHolders(s));
    CountBelow(listeners, ListenerSockets(s));
  }

  /** When the descriptor check accepted `max_connections` without overflow, client sockets and the
      reserved descriptors fit the soft limit, but for one socket per listener. */
  lemma SocketsFitDescriptorBudget(max: nat, soft: nat, listeners: nat, events: seq<Event>)
    requires max < U64 && soft < U64 && max + RESERVED_FDS < U64
    requires CheckFdBudget(max, soft)
    ensures OpenSockets(After(max, listeners, events)) + RESERVED_FDS <= soft + listeners
  {
    SocketBound(max, listeners, events);
    BudgetSoundIffNoOverflow(max, soft);
  }

  /** The sockets that the enabled events of a run have opened. */
  function Opened(max: nat, listeners: nat, events: seq<Event>): nat {
    if events == [] then 0
    else
      var before, e := events[..|events| - 1], events[|events| - 1];
      Opened(max, listeners, before) + if e.Accept? && Enabled(After(max, listeners, before), e) then 1 else 0
  }

  /** The sockets closed: by a failed acquisition, at the end of a task, or with a task never polled. */
  function Closed(max: nat, listeners: nat, events: seq<Event>): nat {
    if events == [] then 0
    else
      var before, e := events[..|events| - 1], events[|events| - 1];
      Closed(max, listeners, before)
      + if (e.AcquireFailed? || e.CloseSocket? || e.DropUnpolled?) && Enabled(After(max, listeners, before), e) then 1 else 0
  }

  lemma ListenerSocketsMoved(s: Server, s': Server, l: nat)
    requires l < |s.listeners| == |s'.listeners| && s'.listeners == s.listeners[l := s'.listeners[l]]
    ensures |ListenerSockets(s')| == |ListenerSockets(s)| + (if s'.listeners[l] == Holding then 1 else 0)
                                   - (if s.listeners[l] == Holding then 1 else 0)
  {
    assert ListenerSockets(s) - {l} == ListenerSockets(s') - {l};
    assert l in ListenerSockets(s) <==> s.listeners[l] == Holding;
    assert l in ListenerSockets(s') <==> s'.listeners[l] == Holding;
    hide ListenerSockets;
    OneMoved(ListenerSockets(s), ListenerSockets(s'), l);
  }

  predicate OwnsSocket(s: Server, id: nat) {
    id in s.tasks && (s.tasks[id].Spawned? || s.tasks[id].Started?)
  }

  lemma TaskSocketsMoved(s: Server, s': Server, id: nat)
    requires OnlyTask(s, s', id)
    ensures |TaskSockets(s')| == |TaskSockets(s)| + (if OwnsSocket(s', id) then 1 else 0) - (if OwnsSocket(s, id) then 1 else 0)
  {
    forall k | k != id
      ensures k in TaskSockets(s) <==> k in TaskSockets(s')
    {
      assert k in s.tasks.Keys - {id} <==> k in s'.tasks.Keys - {id};
    }
    assert TaskSockets(s) - {id} == TaskSockets(s') - {id};
    assert id in TaskSockets(s) <==> OwnsSocket(s, id);
    assert id in TaskSockets(s') <==> OwnsSocket(s', id);
    hide TaskSockets;
    OneMoved(TaskSockets(s), TaskSockets(s'), id);
  }

  lemma SocketStep(s: Server, e: Event)
    ensures OpenSockets(Next(s, e))
         == OpenSockets(s) + (if Enabled(s, e) && e.Accept? then 1 else 0)
          - (if Enabled(s, e) && (e.AcquireFailed? || e.CloseSocket? || e.DropUnpolled?) then 1 else 0)
  {
    var s' := Next(s, e);
    if Enabled(s, e) {
      if e.Accept? || e.AcquireFailed? || e.Stop? {
        ListenerSocketsMoved(s, s', e.l);
        assert TaskSockets(s') == TaskSockets(s);
      } else {
        TaskSocketsMoved(s, s', e.id);
        if e.Acquire? {
          ListenerSocketsMoved(s, s', e.l);
        } else {
          assert ListenerSockets(s') == ListenerSockets(s);
        }
      }
    }
  }

  /** No socket is lost: in every run the open sockets are those accepted and not closed. */
  lemma {:induction false} SocketConservation(max: nat, listeners: nat, events: seq<Event>)
    ensures OpenSockets(After(max, listeners, events)) + Closed(max, listeners, events) == Opened(max, listeners, events)
  {
    hide Next, OpenSockets;
    if events == [] {
      NoSocketsAtFirst(max, listeners);
    } else {
      var before := events[..|events| - 1];
      SocketConservation(max, listeners, before);
      SocketStep(After(max, listeners, before), events[|events| - 1]);
    }
  }

  lemma NoSocketsAtFirst(max: nat, listeners: nat)
    ensures OpenSockets(Init(max, listeners)) == 0
  {
    assert TaskSockets(Init(max, listeners)) == {} && ListenerSockets(Init(max, listeners)) == {};
  }

  /** The in-flight counter always equals the tasks polled at least once and not yet finished. It never
      goes below zero, reads zero exactly when every task still waits for its first poll, and so a zero
      means that no connection is left exactly when none waits. */
  lemma InFlightCounter(max: nat, listeners: nat, events: seq<Event>)
    ensures var s := After(max, listeners, events);
            && s.counter == |Counted(s)|
            && (s.counter == 0 <==> forall id :: id in s.tasks ==> s.tasks[id].Spawned?)
            && (s.counter == 0 ==> (s.tasks == map[] <==> forall id :: id in s.tasks ==> !s.tasks[id].Spawned?))
  {
    Reachable(max, listeners, events);
    var s := After(max, listeners, events);
    assert (forall id :: id in s.tasks ==> s.tasks[id].Spawned?) <==> Counted(s) == {} by {
      assert forall id :: id in s.tasks ==> (id in Counted(s) <==> !s.tasks[id].Spawned?);
    }
  }

  /** A zero count does not mean that no connection exists: a spawned task is not counted before its
      first poll, although docs/architecture/operations.md asks for the count before the spawn. */
  lemma ZeroCountWithOpenSocket(max: nat, listeners: nat)
    requires 0 < max && 0 < listeners
    ensures var s := After(max, listeners, [Accept(0), Acquire(0, 0)]);
            s.counter == 0 && IsTask(s, 0, Spawned) && OpenSockets(s) == 1
  {
    AfterSnoc(max, listeners, [], Accept(0));
    AfterSnoc(max, listeners, [Accept(0)], Acquire(0, 0));
    assert [] + [Accept(0)] == [Accept(0)] && [Accept(0)] + [Acquire(0, 0)] == [Accept(0), Acquire(0, 0)];
    var s := After(max, listeners, [Accept(0), Acquire(0, 0)]);
    assert s.listeners == Init(max, listeners).listeners;
    assert TaskSockets(s) == {0} && ListenerSockets(s) == {};
  }

  // ----- draining -----

  predicate AllStopped(s: Server) {
    forall l :: 0 <= l < |s.listeners| ==> s.listeners[l] == Stopped
  }

  /** No listener accepts any more, holds a socket, or has spawned a task that is not yet counted. */
  predicate Closing(s: Server) {
    && AllStopped(s)
    && (forall id :: id in s.tasks ==> !s.tasks[id].Spawned?)
  }

  lemma NextKeepsClosing(s: Server, e: Event)
    requires Closing(s)
    ensures Closing(Next(s, e)) && Next(s, e).tasks.Keys <= s.tasks.Keys && Next(s, e).counter <= s.counter
  {
  }

  /** Once every listener has stopped and every spawned task has been polled, no connection is ever
      added and the counter only falls: a server that drained to zero stays drained. */
  lemma {:induction false} ClosingOnlyDrains(max: nat, listeners: nat, events: seq<Event>, more: seq<Event>)
    requires Closing(After(max, listeners, events))
    ensures var s, s' := After(max, listeners, events), After(max, listeners, events + more);
            && Closing(s') && s'.tasks.Keys <= s.tasks.Keys && s'.counter <= s.counter
            && (s.counter == 0 ==> s'.tasks == map[] && s'.counter == 0)
    decreases |more|
  {
    hide Next;
    InFlightCounter(max, listeners, events);
    InFlightCounter(max, listeners, events + more);
    if more == [] {
      assert events + more == events;
    } else {
      var before := events + more[..|more| - 1];
      ClosingOnlyDrains(max, listeners, events, more[..|more| - 1]);
      assert (events + more)[..|events + more| - 1] == before;
      NextKeepsClosing(After(max, listeners, before), more[|more| - 1]);
    }
  }

  /** The steps a task has left. */
  function Remaining(t: Task): nat {
    match t
    case Spawned => 4
    case Started => 3
    case SocketClosed => 2
    case PermitReturned => 1
  }

  function Owing(s: Server, steps: nat): set<nat> {
    set id | id in s.tasks && steps <= Remaining(s.tasks[id])
  }

  function Work(s: Server): nat {
    |Owing(s, 1)| + |Owing(s, 2)| + |Owing(s, 3)| + |Owing(s, 4)|
  }

  lemma OwingMoved(s: Server, s': Server, id: nat, steps: nat)
    requires OnlyTask(s, s', id)
    ensures |Owing(s', steps)| == |Owing(s, steps)| + (if id in Owing(s', steps) then 1 else 0)
                                - (if id in Owing(s, steps) then 1 else 0)
  {
    forall k | k != id
      ensures k in Owing(s, steps) <==> k in Owing(s', steps)
    {
      assert k in s.tasks.Keys - {id} <==> k in s'.tasks.Keys - {id};
    }
    assert Owing(s, steps) - {id} == Owing(s', steps) - {id};
    OneMoved(Owing(s, steps), Owing(s', steps), id);
  }

  lemma StepTakesWork(s: Server, e: Event)
    requires AllStopped(s) && Enabled(s, e)
    ensures AllStopped(Next(s, e)) && Work(Next(s, e)) < Work(s)
  {
    var s' := Next(s, e);
    OwingMoved(s, s', e.id, 1);
    OwingMoved(s, s', e.id, 2);
    OwingMoved(s, s', e.id, 3);
    OwingMoved(s, s', e.id, 4);
  }

  /** Every event of `more` is enabled when it happens. */
  ghost predicate Effective(max: nat, listeners: nat, events: seq<Event>, more: seq<Event>) {
    forall k :: 0 <= k < |more| ==> Enabled(After(max, listeners, events + more[..k]), more[k])
  }

  lemma {:induction false} EveryStepTakesWork(max: nat, listeners: nat, events: seq<Event>, more: seq<Event>)
    requires AllStopped(After(max, listeners, events)) && Effective(max, listeners, events, more)
    ensures var s, s' := After(max, listeners, events), After(max, listeners, events + more);
            AllStopped(s') && |more| + Work(s') <= Work(s)
    decreases |more|
  {
    hide After, Next, Work, Enabled, AllStopped;
    if more == [] {
      assert events + more == events;
    } else {
      var prefix, e := more[..|more| - 1], more[|more| - 1];
      assert forall k :: 0 <= k < |prefix| ==> prefix[..k] == more[..k];
      EveryStepTakesWork(max, listeners, events, prefix);
      AfterSnoc(max, listeners, events + prefix, e);
      assert events + more == events + prefix + [e];
      StepTakesWork(After(max, listeners, events + prefix), e);
    }
  }

  /** No connection holds anything for ever by the bookkeeping alone: once the listeners have stopped,
      the tasks can take at most `Work` steps, and where none is left every permit is free again, the
      counter is zero and no task remains. */
  lemma {:induction false} StoppedServerDrains(max: nat, listeners: nat, events: seq<Event>, more: seq<Event>)
    requires AllStopped(After(max, listeners, events)) && Effective(max, listeners, events, more)
    ensures var s, s' := After(max, listeners, events), After(max, listeners, events + more);
            && |more| <= Work(s)
            && ((forall e :: !Enabled(s', e)) ==> s'.tasks == map[] && s'.free == max && s'.counter == 0)
  {
    hide After, Work;
    EveryStepTakesWork(max, listeners, events, more);
    Reachable(max, listeners, events + more);
    var s' := After(max, listeners, events + more);
    if forall e :: !Enabled(s', e) {
      forall id: nat
        ensures id !in s'.tasks
      {
        assert !Enabled(s', FirstPoll(id)) && !Enabled(s', CloseSocket(id));
        assert !Enabled(s', ReturnPermit(id)) && !Enabled(s', Finish(id));
      }
      assert PermitHolders(s') == {} && Counted(s') == {};
    }
  }

  // ----- the life of a connection -----

  /** Accepted, given a permit, served and finished. */
  function Served(l: nat, id: nat): seq<Event> {
    [Accept(l)] + [Acquire(l, id)] + [FirstPoll(id)] + [CloseSocket(id)] + [ReturnPermit(id)] + [Finish(id)]
  }

  /** Accepted and given a permit, but dropped before its task is polled. */
  function Dropped(l: nat, id: nat): seq<Event> {
    [Accept(l)] + [Acquire(l, id)] + [DropUnpolled(id)]
  }

  /** Accepted and refused a permit. */
  function Refused(l: nat): seq<Event> {
    [Accept(l)] + [AcquireFailed(l)]
  }

  lemma Spawns(s: Server, l: nat, id: nat)
    requires IsListener(s, l, Accepting) && 0 < s.free && id !in s.tasks
    ensures Next(Next(s, Accept(l)), Acquire(l, id)) == s.(free := s.free - 1, tasks := s.tasks[id := Spawned])
  {
    assert s.listeners[l := Holding][l := Accepting] == s.listeners;
  }

  lemma Finishes(s: Server, id: nat)
    requires id !in s.tasks
    ensures var t := s.(free := s.free - 1, tasks := s.tasks[id := Spawned]);
            && Next(Next(Next(Next(t, FirstPoll(id)), CloseSocket(id)), ReturnPermit(id)), Finish(id)) == s
            && Next(t, DropUnpolled(id)) == s
  {
    assert s.tasks[id := Spawned][id := Started][id := SocketClosed][id := PermitReturned] - {id} == s.tasks;
    assert s.tasks[id := Spawned] - {id} == s.tasks;
  }

  lemma RefusedLeaves(s: Server, l: nat)
    requires IsListener(s, l, Accepting)
    ensures Next(Next(s, Accept(l)), AcquireFailed(l)) == s
  {
    assert s.listeners[l := Holding][l := Accepting] == s.listeners;
  }

  /** Whichever way a connection goes, it leaves the server as it was: permits, counter, listeners and
      all other tasks. */
  lemma {:induction false} ConnectionLeavesNothing(max: nat, listeners: nat, events: seq<Event>, l: nat, id: nat)
    requires var s := After(max, listeners, events);
             IsListener(s, l, Accepting) && 0 < s.free && id !in s.tasks
    ensures var s := After(max, listeners, events);
            && After(max, listeners, events + Served(l, id)) == s
            && After(max, listeners, events + Dropped(l, id)) == s
            && After(max, listeners, events + Refused(l)) == s
  {
    hide After, Next;
    var s := After(max, listeners, events);
    Spawns(s, l, id);
    Finishes(s, id);
    RefusedLeaves(s, l);
    var e1 := events + [Accept(l)];
    var e2 := e1 + [Acquire(l, id)];
    var e3 := e2 + [FirstPoll(id)];
    var e4 := e3 + [CloseSocket(id)];
    var e5 := e4 + [ReturnPermit(id)];
    AfterSnoc(max, listeners, events, Accept(l));
    AfterSnoc(max, listeners, e1, Acquire(l, id));
    AfterSnoc(max, listeners, e2, FirstPoll(id));
    AfterSnoc(max, listeners, e3, CloseSocket(id));
    AfterSnoc(max, listeners, e4, ReturnPermit(id));
    AfterSnoc(max, listeners, e5, Finish(id));
    AfterSnoc(max, listeners, e2, DropUnpolled(id));
    AfterSnoc(max, listeners, e1, AcquireFailed(l));
    assert events + Served(l, id) == e5 + [Finish(id)];
    assert events + Dropped(l, id) == e2 + [DropUnpolled(id)];
    assert events + Refused(l) == e1 + [AcquireFailed(l)];
  }

  // ----- every server can be shut down -----

  /** A next step of a task. */
  function TaskStep(s: Server, id: nat): Event
    requires id in s.tasks
  {
    match s.tasks[id]
    case Spawned => FirstPoll(id)
    case Started => CloseSocket(id)
    case SocketClosed => ReturnPermit(id)
    case PermitReturned => Finish(id)
  }

  lemma TaskStepTakesWork(s: Server, id: nat)
    requires id in s.tasks
    ensures Next(s, TaskStep(s, id)).listeners == s.listeners && Work(Next(s, TaskStep(s, id))) < Work(s)
  {
    var s' := Next(s, TaskStep(s, id));
    OwingMoved(s, s', id, 1);
    OwingMoved(s, s', id, 2);
    OwingMoved(s, s', id, 3);
    OwingMoved(s, s', id, 4);
  }

  /** No listener is given up on: none of the events is a failed acquisition. */
  ghost predicate Patient(events: seq<Event>) {
    forall i :: 0 <= i < |events| ==> !events[i].AcquireFailed?
  }

  /** Whatever the listeners are doing, the tasks can all finish. */
  lemma {:induction false} TasksCanFinish(max: nat, listeners: nat, events: seq<Event>) returns (more: seq<Event>)
    ensures var s, s' := After(max, listeners, events), After(max, listeners, events + more);
            s'.listeners == s.listeners && s'.tasks == map[]
    ensures Patient(more)
    decreases Work(After(max, listeners, events))
  {
    hide After, Next, Work;
    var s := After(max, listeners, events);
    if s.tasks == map[] {
      more := [];
      assert events + more == events;
    } else {
      var id :| id in s.tasks;
      var e := TaskStep(s, id);
      TaskStepTakesWork(s, id);
      AfterSnoc(max, listeners, events, e);
      var rest := TasksCanFinish(max, listeners, events + [e]);
      more := [e] + rest;
      assert events + more == events + [e] + rest;
    }
  }

  /** The steps a listener is from stopping. */
  function ToStop(listeners: seq<Listener>): nat {
    if listeners == [] then 0
    else
      ToStop(listeners[..|listeners| - 1])
      + match listeners[|listeners| - 1]
        case Holding => 2
        case Accepting => 1
        case Stopped => 0
  }

  lemma {:induction false} ToStopUpdate(listeners: seq<Listener>, l: nat, to: Listener)
    requires l < |listeners|
    requires (listeners[l] == Holding && to == Accepting) || (listeners[l] == Accepting && to == Stopped)
    ensures ToStop(listeners[l := to]) < ToStop(listeners)
    decreases |listeners|
  {
    var init := listeners[..|listeners| - 1];
    if l < |init| {
      ToStopUpdate(init, l, to);
      assert listeners[l := to][..|init|] == init[l := to];
    } else {
      assert listeners[l := to][..|init|] == init;
    }
  }

  /** A listener that holds a socket, with no task left, gets a permit for it. */
  lemma HolderAcquires(s: Server, max: nat, listeners: nat, l: nat)
    requires Inv(s, max, listeners) && 0 < max && s.tasks == map[] && IsListener(s, l, Holding)
    ensures Next(s, Acquire(l, 0)).listeners == s.listeners[l := Accepting]
  {
    assert PermitHolders(s) == {};
  }

  lemma {:induction false} ListenersCanStop(max: nat, listeners: nat, events: seq<Event>) returns (more: seq<Event>)
    requires 0 < max
    ensures AllStopped(After(max, listeners, events + more)) && Patient(more)
    decreases ToStop(After(max, listeners, events).listeners)
  {
    hide After, Next, ToStop;
    var s := After(max, listeners, events);
    if AllStopped(s) {
      more := [];
      assert events + more == events;
    } else {
      var l: nat :| l < |s.listeners| && s.listeners[l] != Stopped;
      var first: seq<Event> := [];
      assert events + first == events;
      var e := Stop(l);
      if s.listeners[l] == Holding {
        first := TasksCanFinish(max, listeners, events);
        e := Acquire(l, 0);
        Reachable(max, listeners, events + first);
        HolderAcquires(After(max, listeners, events + first), max, listeners, l);
        ToStopUpdate(s.listeners, l, Accepting);
      } else {
        StopStops(s, l);
        ToStopUpdate(s.listeners, l, Stopped);
      }
      AfterSnoc(max, listeners, events + first, e);
      var rest := ListenersCanStop(max, listeners, events + first + [e]);
      more := first + [e] + rest;
      assert events + more == events + first + [e] + rest;
    }
  }

  lemma StopStops(s: Server, l: nat)
    requires IsListener(s, l, Accepting)
    ensures Next(s, Stop(l)).listeners == s.listeners[l := Stopped]
  {
  }

  /** From every reachable state of a server with at least one permit, some continuation stops every
      listener, finishes every task, and gives every permit back; it takes no failed acquisition. */
  lemma {:induction false} CanShutDown(max: nat, listeners: nat, events: seq<Event>) returns (more: seq<Event>)
    requires 0 < max
    ensures var s := After(max, listeners, events + more);
            Closing(s) && s.tasks == map[] && s.free == max && s.counter == 0
    ensures Patient(more)
  {
    hide After;
    var first := ListenersCanStop(max, listeners, events);
    var second := TasksCanFinish(max, listeners, events + first);
    more := first + second;
    assert events + more == events + first + second;
    Reachable(max, listeners, events + more);
    var s := After(max, listeners, events + more);
    assert PermitHolders(s) == {} && Counted(s) == {};
  }

  // ----- the socket bound is exact -----

  /** Fill the semaphore through listener 0. */
  function Fill(n: nat): seq<Event> {
    if n == 0 then [] else Fill(n - 1) + [Accept(0)] + [Acquire(0, n - 1)]
  }

  /** Then park the first `n` listeners. */
  function FillAndPark(max: nat, n: nat): seq<Event> {
    if n == 0 then Fill(max) else FillAndPark(max, n - 1) + [Accept(n - 1)]
  }

  /** Listener 0 accepts a socket and hands it to a new task. */
  lemma FillOne(s: Server, id: nat)
    requires IsListener(s, 0, Accepting) && 0 < s.free && id !in s.tasks
    ensures var s' := Next(Next(s, Accept(0)), Acquire(0, id));
            && s'.free == s.free - 1
            && s'.listeners == s.listeners
            && s'.tasks.Keys == s.tasks.Keys + {id}
            && |TaskSockets(s')| == |TaskSockets(s)| + 1
  {
    var s' := Next(Next(s, Accept(0)), Acquire(0, id));
    assert TaskSockets(s') == TaskSockets(s) + {id};
  }

  lemma {:induction false} AfterFill(max: nat, listeners: nat, n: nat)
    requires 0 < listeners && n <= max
    ensures var s := After(max, listeners, Fill(n));
            && s.free == max - n
            && |s.listeners| == listeners
            && (forall l :: 0 <= l < listeners ==> s.listeners[l] == Accepting)
            && (forall id :: id in s.tasks ==> id < n)
            && |TaskSockets(s)| == n
  {
    hide Next;
    if n == 0 {
      assert TaskSockets(Init(max, listeners)) == {};
    } else {
      AfterFill(max, listeners, n - 1);
      FillOne(After(max, listeners, Fill(n - 1)), n - 1);
      AfterSnoc(max, listeners, Fill(n - 1), Accept(0));
      AfterSnoc(max, listeners, Fill(n - 1) + [Accept(0)], Acquire(0, n - 1));
    }
  }

  lemma ParkOne(s: Server, l: nat)
    requires IsListener(s, l, Accepting)
    ensures var s' := Next(s, Accept(l));
            && s'.listeners == s.listeners[l := Holding]
            && |ListenerSockets(s')| == |ListenerSockets(s)| + 1
            && TaskSockets(s') == TaskSockets(s)
  {
    var s' := Next(s, Accept(l));
    assert ListenerSockets(s) - {l} == ListenerSockets(s') - {l};
    OneMoved(ListenerSockets(s), ListenerSockets(s'), l);
  }

  lemma {:induction false} AfterPark(max: nat, listeners: nat, n: nat)
    requires 0 < listeners && n <= listeners
    ensures var s := After(max, listeners, FillAndPark(max, n));
            && |s.listeners| == listeners
            && (forall l :: n <= l < listeners ==> s.listeners[l] == Accepting)
            && |ListenerSockets(s)| == n
            && |TaskSockets(s)| == max
  {
    hide Next;
    if n == 0 {
      AfterFill(max, listeners, max);
      assert ListenerSockets(After(max, listeners, Fill(max))) == {};
    } else {
      AfterPark(max, listeners, n - 1);
      ParkOne(After(max, listeners, FillAndPark(max, n - 1)), n - 1);
      AfterSnoc(max, listeners, FillAndPark(max, n - 1), Accept(n - 1));
    }
  }

  /** For every semaphore size and number of listeners some run reaches the bound. */
  lemma SocketBoundIsReached(max: nat, listeners: nat)
    requires 0 < listeners
    ensures exists events :: OpenSockets(After(max, listeners, events)) == max + listeners
  {
    AfterPark(max, listeners, listeners);
    assert OpenSockets(After(max, listeners, FillAndPark(max, listeners))) == max + listeners;
  }
}
