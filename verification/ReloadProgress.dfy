/** Reloads get through: what one reload does when no other interferes, and that none is shut out. */
module ReloadProgress {
  import opened Text
  import opened Config
  import opened Reload

  lemma AfterSnoc(initial: FullConfig, cliAllow: bool, events: seq<Event>, e: Event)
    ensures After(initial, cliAllow, events + [e]) == Next(After(initial, cliAllow, events), e, cliAllow)
  {
    assert (events + [e])[..|events|] == events;
  }

  /** A reload fails exactly when what it proposes is not acceptable. */
  lemma CheckFailsIff(s: System, id: nat, env: Env, cliAllow: bool)
    requires Enabled(s, Check(id, env))
    ensures Next(s, Check(id, env), cliAllow).reloaders[id].Failed? <==> !Accepts(s.reloaders[id].p, cliAllow, env)
  {
  }

  /** The steps of one reload, in order. */
  function Steps(id: nat, env: Env): seq<Event> {
    [Lock(id)] + [Check(id, env)] + [StoreDynamic(id)] + [StoreStatic(id)] + [Unlock(id)]
  }

  function FinalPhase(accepted: bool): Phase {
    if accepted then Succeeded else Failed
  }

  ghost function AfterCheck(s: System, id: nat, p: Proposal, env: Env, cliAllow: bool): System {
    if Accepts(p, cliAllow, env)
    then s.(holder := Some(id), reloaders := s.reloaders[id := Accepted(p, Diff(s.fixed, p.fixed), env)])
    else s.(reloaders := s.reloaders[id := Failed])
  }

  lemma LocksAndChecks(s: System, id: nat, p: Proposal, env: Env, cliAllow: bool)
    requires s.holder.None? && id in s.reloaders && s.reloaders[id] == Waiting(p)
    ensures Next(Next(s, Lock(id), cliAllow), Check(id, env), cliAllow) == AfterCheck(s, id, p, env, cliAllow)
  {
    hide Accepts, Diff;
    assert s.reloaders[id := Checking(p)][id := Failed] == s.reloaders[id := Failed];
    var a := Accepted(p, Diff(s.fixed, p.fixed), env);
    assert s.reloaders[id := Checking(p)][id := a] == s.reloaders[id := a];
  }

  lemma StoresAndUnlocks(s: System, id: nat, p: Proposal, changes: seq<Field>, env: Env, cliAllow: bool)
    requires id in s.reloaders && s.reloaders[id] == Accepted(p, changes, env)
    ensures var s' := Next(Next(Next(s, StoreDynamic(id), cliAllow), StoreStatic(id), cliAllow), Unlock(id), cliAllow);
            s' == s.(dynamic := p.dynamic, fixed := p.fixed, holder := None,
                     log := s.log + [Commit(id, p, changes, env)], reloaders := s.reloaders[id := Succeeded])
  {
    hide Accepts, Diff;
    assert s.reloaders[id := HalfStored(p)][id := Stored][id := Succeeded] == s.reloaders[id := Succeeded];
  }

  lemma FailedStays(s: System, id: nat, cliAllow: bool)
    requires id in s.reloaders && s.reloaders[id].Failed?
    ensures Next(Next(Next(s, StoreDynamic(id), cliAllow), StoreStatic(id), cliAllow), Unlock(id), cliAllow) == s
  {
  }

  lemma AfterSteps(initial: FullConfig, cliAllow: bool, events: seq<Event>, id: nat, env: Env)
    ensures After(initial, cliAllow, events + Steps(id, env))
         == Next(Next(Next(Next(Next(After(initial, cliAllow, events), Lock(id), cliAllow), Check(id, env), cliAllow),
                           StoreDynamic(id), cliAllow), StoreStatic(id), cliAllow), Unlock(id), cliAllow)
  {
    hide After, Next;
    var e1 := events + [Lock(id)];
    var e2 := e1 + [Check(id, env)];
    var e3 := e2 + [StoreDynamic(id)];
    var e4 := e3 + [StoreStatic(id)];
    AfterSnoc(initial, cliAllow, events, Lock(id));
    AfterSnoc(initial, cliAllow, e1, Check(id, env));
    AfterSnoc(initial, cliAllow, e2, StoreDynamic(id));
    AfterSnoc(initial, cliAllow, e3, StoreStatic(id));
    AfterSnoc(initial, cliAllow, e4, Unlock(id));
    assert events + Steps(id, env) == e4 + [Unlock(id)];
  }

  /** Undisturbed, the steps of a reload do to the stored configuration what `ReloadLocked` does, with
      the same report, commit exactly if it succeeds, and free the mutex. */
  lemma {:induction false} UndisturbedReload(initial: FullConfig, cliAllow: bool, events: seq<Event>, id: nat, env: Env)
      returns (r: ReloadResult)
    requires var s := After(initial, cliAllow, events);
             s.holder.None? && id in s.reloaders && s.reloaders[id].Waiting?
    ensures var s, s' := After(initial, cliAllow, events), After(initial, cliAllow, events + Steps(id, env));
            var p := s.reloaders[id].p;
            && ReloadOutcome(Proposal(s.fixed, s.dynamic), p, cliAllow, env, Proposal(s'.fixed, s'.dynamic), r)
            && s'.log == (if r.Reloaded? then s.log + [Commit(id, p, r.changes, env)] else s.log)
            && s'.holder.None? && s'.reloaders == s.reloaders[id := FinalPhase(r.Reloaded?)]
  {
    var s := After(initial, cliAllow, events);
    var p := s.reloaders[id].p;
    AfterSteps(initial, cliAllow, events, id, env);
    LocksAndChecks(s, id, p, env, cliAllow);
    var checked := AfterCheck(s, id, p, env, cliAllow);
    DiffExact(s.fixed, p.fixed);
    hide After, Next, Diff, Differs, Accepts;
    if Accepts(p, cliAllow, env) {
      r := Reloaded(Diff(s.fixed, p.fixed));
      StoresAndUnlocks(checked, id, p, Diff(s.fixed, p.fixed), env, cliAllow);
      assert checked.reloaders[id := Succeeded] == s.reloaders[id := Succeeded];
    } else {
      r := Rejected;
      FailedStays(checked, id, cliAllow);
    }
  }

  /** What the holder of the mutex has left to do. */
  function Left(phase: Phase): nat {
    match phase
    case Checking(_) => 4
    case Accepted(_, _, _) => 3
    case HalfStored(_) => 2
    case Stored => 1
    case _ => 0
  }

  function HolderStep(phase: Phase, id: nat, env: Env): Event {
    match phase
    case Checking(_) => Check(id, env)
    case Accepted(_, _, _) => StoreDynamic(id)
    case HalfStored(_) => StoreStatic(id)
    case _ => Unlock(id)
  }

  lemma HolderGetsOn(s: System, cliAllow: bool, env: Env)
    requires s.holder.Some? && s.holder.value in s.reloaders && Holds(s.reloaders[s.holder.value])
    ensures var h := s.holder.value;
            var s' := Next(s, HolderStep(s.reloaders[h], h, env), cliAllow);
            && s'.reloaders == s.reloaders[h := s'.reloaders[h]]
            && Left(s'.reloaders[h]) < Left(s.reloaders[h])
            && (s'.holder == s.holder || s'.holder.None?)
  {
    hide Accepts, Diff;
  }

  /** The mutex is always given back, by steps of its holder alone. */
  lemma {:induction false} MutexComesFree(initial: FullConfig, cliAllow: bool, events: seq<Event>, env: Env)
      returns (more: seq<Event>)
    ensures var s, s' := After(initial, cliAllow, events), After(initial, cliAllow, events + more);
            && s'.holder.None?
            && forall id :: id in s.reloaders && s.reloaders[id].Waiting? ==>
                 id in s'.reloaders && s'.reloaders[id] == s.reloaders[id]
    decreases var s := After(initial, cliAllow, events);
              if s.holder.Some? && s.holder.value in s.reloaders then Left(s.reloaders[s.holder.value]) else 0
  {
    hide After, Next, PhaseOk, CommitOk;
    Reachable(initial, cliAllow, events);
    var s := After(initial, cliAllow, events);
    if s.holder.None? {
      more := [];
      assert events + more == events;
    } else {
      var e := HolderStep(s.reloaders[s.holder.value], s.holder.value, env);
      HolderGetsOn(s, cliAllow, env);
      AfterSnoc(initial, cliAllow, events, e);
      Reachable(initial, cliAllow, events + [e]);
      var rest := MutexComesFree(initial, cliAllow, events + [e], env);
      more := [e] + rest;
      assert events + more == events + [e] + rest;
    }
  }

  /** No reload is shut out: from every reachable state, a waiting reload whose proposal is acceptable
      has a continuation in which it succeeds and what it proposed is the stored configuration. */
  lemma {:induction false} WaitingReloadCanCommit(initial: FullConfig, cliAllow: bool, events: seq<Event>, id: nat, env: Env)
      returns (more: seq<Event>)
    requires var s := After(initial, cliAllow, events);
             id in s.reloaders && s.reloaders[id].Waiting? && Accepts(s.reloaders[id].p, cliAllow, env)
    ensures var s, s' := After(initial, cliAllow, events), After(initial, cliAllow, events + more);
            && id in s'.reloaders && s'.reloaders[id].Succeeded?
            && Newest(s') == s.reloaders[id].p && Proposal(s'.fixed, s'.dynamic) == s.reloaders[id].p
  {
    hide After, Accepts;
    var first := MutexComesFree(initial, cliAllow, events, env);
    var r := UndisturbedReload(initial, cliAllow, events + first, id, env);
    more := first + Steps(id, env);
    assert events + more == events + first + Steps(id, env);
  }
}
