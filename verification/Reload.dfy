/** Hot reload: `ConfigReloadHandle` of src/config/dynamic_config.rs. Reloaders run concurrently, read
    and parse the file before they take the mutex, and then validate, compare and store the two halves
    in two separate stores; readers load either half at any moment without the mutex. */
module Reload {
  import opened Text
  import opened Hosts
  import opened Hostnames
  import opened Config
  import opened Validation
  import opened Routing
  import opened FdBudget

  // ----- the comparison of static configurations -----

  datatype Field =
    | Listeners | AllowWildcardBind | HealthCheckPort | AdminKeyPath | ShutdownTimeoutSecs
    | ConnectionIdleTimeoutSecs | TlsHandshakeTimeoutSecs | MaxConnections | Logging

  predicate Differs(a: StaticConfig, b: StaticConfig, f: Field) {
    match f
    case Listeners => a.listeners != b.listeners
    case AllowWildcardBind => a.allowWildcardBind != b.allowWildcardBind
    case HealthCheckPort => a.healthCheckPort != b.healthCheckPort
    case AdminKeyPath => a.adminKeyPath != b.adminKeyPath
    case ShutdownTimeoutSecs => a.shutdownTimeoutSecs != b.shutdownTimeoutSecs
    case ConnectionIdleTimeoutSecs => a.connectionIdleTimeoutSecs != b.connectionIdleTimeoutSecs
    case TlsHandshakeTimeoutSecs => a.tlsHandshakeTimeoutSecs != b.tlsHandshakeTimeoutSecs
    case MaxConnections => a.maxConnections != b.maxConnections
    case Logging => a.logging != b.logging
  }

  function Note(changes: seq<Field>, differs: bool, f: Field): seq<Field> {
    if differs then changes + [f] else changes
  }

  function DiffIdentity(a: StaticConfig, b: StaticConfig): seq<Field> {
    var c1 := Note([], a.listeners != b.listeners, Listeners);
    var c2 := Note(c1, a.allowWildcardBind != b.allowWildcardBind, AllowWildcardBind);
    var c3 := Note(c2, a.healthCheckPort != b.healthCheckPort, HealthCheckPort);
    Note(c3, a.adminKeyPath != b.adminKeyPath, AdminKeyPath)
  }

  function DiffLimits(changes: seq<Field>, a: StaticConfig, b: StaticConfig): seq<Field> {
    var c1 := Note(changes, a.shutdownTimeoutSecs != b.shutdownTimeoutSecs, ShutdownTimeoutSecs);
    var c2 := Note(c1, a.connectionIdleTimeoutSecs != b.connectionIdleTimeoutSecs, ConnectionIdleTimeoutSecs);
    var c3 := Note(c2, a.tlsHandshakeTimeoutSecs != b.tlsHandshakeTimeoutSecs, TlsHandshakeTimeoutSecs);
    var c4 := Note(c3, a.maxConnections != b.maxConnections, MaxConnections);
    Note(c4, a.logging != b.logging, Logging)
  }

  /** The fields that differ, in the order the comparison visits them. */
  function Diff(a: StaticConfig, b: StaticConfig): seq<Field> {
    DiffLimits(DiffIdentity(a, b), a, b)
  }

  predicate IsIdentity(f: Field) {
    f.Listeners? || f.AllowWildcardBind? || f.HealthCheckPort? || f.AdminKeyPath?
  }

  lemma DiffIdentityMember(a: StaticConfig, b: StaticConfig, f: Field)
    ensures f in DiffIdentity(a, b) <==> IsIdentity(f) && Differs(a, b, f)
  {
  }

  lemma DiffLimitsMember(changes: seq<Field>, a: StaticConfig, b: StaticConfig, f: Field)
    ensures f in DiffLimits(changes, a, b) <==> f in changes || (!IsIdentity(f) && Differs(a, b, f))
  {
  }

  /** The reported list is exactly the fields that differ, and is empty exactly when nothing does. */
  lemma DiffExact(a: StaticConfig, b: StaticConfig)
    ensures forall f :: f in Diff(a, b) <==> Differs(a, b, f)
    ensures Diff(a, b) == [] <==> a == b
  {
    forall f: Field
      ensures f in Diff(a, b) <==> Differs(a, b, f)
    {
      DiffIdentityMember(a, b, f);
      DiffLimitsMember(DiffIdentity(a, b), a, b, f);
    }
    hide DiffIdentity;
    hide DiffLimits;
    hide Diff;
    if Diff(a, b) == [] {
      NothingDiffers(a, b);
    } else {
      assert Diff(a, b)[0] in Diff(a, b);
    }
  }

  lemma NothingDiffers(a: StaticConfig, b: StaticConfig)
    requires forall f :: !Differs(a, b, f)
    ensures a == b
  {
    assert !Differs(a, b, Listeners) && !Differs(a, b, AllowWildcardBind) && !Differs(a, b, HealthCheckPort);
    assert !Differs(a, b, AdminKeyPath) && !Differs(a, b, ShutdownTimeoutSecs);
    assert !Differs(a, b, ConnectionIdleTimeoutSecs) && !Differs(a, b, TlsHandshakeTimeoutSecs);
    assert !Differs(a, b, MaxConnections) && !Differs(a, b, Logging);
  }

  /** The same, of the files the configurations come from. */
  predicate FilesDiffer(a: FullConfig, b: FullConfig, f: Field) {
    match f
    case Listeners => a.listeners != b.listeners
    case AllowWildcardBind => a.allowWildcardBind != b.allowWildcardBind
    case HealthCheckPort => a.healthCheckPort != b.healthCheckPort
    case AdminKeyPath => a.adminKeyPath != b.adminKeyPath
    case ShutdownTimeoutSecs => a.shutdownTimeoutSecs != b.shutdownTimeoutSecs
    case ConnectionIdleTimeoutSecs => a.connectionIdleTimeoutSecs != b.connectionIdleTimeoutSecs
    case TlsHandshakeTimeoutSecs => a.tlsHandshakeTimeoutSecs != b.tlsHandshakeTimeoutSecs
    case MaxConnections => a.maxConnections != b.maxConnections
    case Logging => a.logging != b.logging
  }

  /** A field is reported between two files exactly when the files differ in it. */
  lemma FileChangesReported(a: FullConfig, b: FullConfig, f: Field)
    ensures f in Diff(IntoStaticAndDynamic(a).0, IntoStaticAndDynamic(b).0) <==> FilesDiffer(a, b, f)
  {
    DiffExact(IntoStaticAndDynamic(a).0, IntoStaticAndDynamic(b).0);
    hide Diff;
  }

  /** `diff_static_config`, as the source pushes the names. */
  method DiffStaticConfig(a: StaticConfig, b: StaticConfig) returns (changes: seq<Field>)
    ensures changes == Diff(a, b)
    ensures forall f :: f in changes <==> Differs(a, b, f)
    ensures changes == [] <==> a == b
  {
    hide Differs;
    changes := [];
    if a.listeners != b.listeners {
      changes := changes + [Listeners];
    }
    if a.allowWildcardBind != b.allowWildcardBind {
      changes := changes + [AllowWildcardBind];
    }
    if a.healthCheckPort != b.healthCheckPort {
      changes := changes + [HealthCheckPort];
    }
    if a.adminKeyPath != b.adminKeyPath {
      changes := changes + [AdminKeyPath];
    }
    assert changes == DiffIdentity(a, b);
    if a.shutdownTimeoutSecs != b.shutdownTimeoutSecs {
      changes := changes + [ShutdownTimeoutSecs];
    }
    if a.connectionIdleTimeoutSecs != b.connectionIdleTimeoutSecs {
      changes := changes + [ConnectionIdleTimeoutSecs];
    }
    if a.tlsHandshakeTimeoutSecs != b.tlsHandshakeTimeoutSecs {
      changes := changes + [TlsHandshakeTimeoutSecs];
    }
    if a.maxConnections != b.maxConnections {
      changes := changes + [MaxConnections];
    }
    if a.logging != b.logging {
      changes := changes + [Logging];
    }
    DiffExact(a, b);
  }

  // ----- one reload, undisturbed -----

  /** What a reload meets outside: the file system and the descriptor limit. */
  datatype Env = Env(oracle: Oracle, limit: SoftLimit)

  datatype Proposal = Proposal(fixed: StaticConfig, dynamic: DynamicConfig)

  /** Passes `validate` and the descriptor check. */
  ghost predicate Accepts(p: Proposal, cliAllow: bool, env: Env) {
    ValidConfig(p.fixed, p.dynamic, cliAllow, env.oracle) && WithinNofile(p.fixed.maxConnections, env.limit)
  }

  datatype ReloadResult = Rejected | Reloaded(changes: seq<Field>)

  /** What the critical section makes of the stored configuration, and what it reports. */
  ghost predicate ReloadOutcome(before: Proposal, p: Proposal, cliAllow: bool, env: Env, after: Proposal, r: ReloadResult) {
    && (r.Reloaded? <==> Accepts(p, cliAllow, env))
    && (r.Rejected? ==> after == before)
    && (r.Reloaded? ==>
          && after == p
          && (forall f :: f in r.changes <==> Differs(before.fixed, p.fixed, f))
          && (r.changes == [] <==> before.fixed == p.fixed))
  }

  class ConfigReloadHandle {
    var config: DynamicConfig
    var staticConfig: StaticConfig
    const cliAllow: bool

    constructor (p: Proposal, cliAllow: bool)
      ensures config == p.dynamic && staticConfig == p.fixed && this.cliAllow == cliAllow
    {
      config := p.dynamic;
      staticConfig := p.fixed;
      this.cliAllow := cliAllow;
    }

    /** The critical section of `reload`: it stores both halves or neither, and reports exactly the
        static fields that changed. */
    method ReloadLocked(p: Proposal, env: Env) returns (r: ReloadResult)
      modifies this
      ensures ReloadOutcome(old(Proposal(staticConfig, config)), p, cliAllow, env, Proposal(staticConfig, config), r)
    {
      var errors := Validate(p.fixed, p.dynamic, cliAllow, env.oracle);
      if errors != [] {
        return Rejected;
      }
      if !WithinNofile(p.fixed.maxConnections, env.limit) {
        return Rejected;
      }
      var changes := DiffStaticConfig(staticConfig, p.fixed);
      config := p.dynamic;
      staticConfig := p.fixed;
      return Reloaded(changes);
    }
  }

  // ----- any number of reloads, interleaved -----

  /** Where a reloader is. From `Checking` to `Stored` it holds the mutex. */
  datatype Phase =
    | Waiting(p: Proposal)
    | Checking(p: Proposal)
    | Accepted(p: Proposal, changes: seq<Field>, env: Env)
    | HalfStored(p: Proposal)
    | Stored
    | Failed
    | Succeeded

  /** A configuration that became visible: by which reloader, with which reported changes, and the
      environment that accepted it. */
  datatype Commit = Commit(id: nat, p: Proposal, changes: seq<Field>, env: Env)

  /** The two cells, the mutex, the reloaders, and the log of commits after the initial configuration. */
  datatype System = System(
    initial: Proposal, dynamic: DynamicConfig, fixed: StaticConfig, holder: Option<nat>,
    reloaders: map<nat, Phase>, log: seq<Commit>)

  datatype Event =
    | Begin(id: nat, full: FullConfig)
    | Lock(id: nat)
    | Check(id: nat, env: Env)
    | StoreDynamic(id: nat)
    | StoreStatic(id: nat)
    | Unlock(id: nat)

  predicate Holds(phase: Phase) {
    phase.Checking? || phase.Accepted? || phase.HalfStored? || phase.Stored?
  }

  function Propose(full: FullConfig): Proposal {
    Proposal(IntoStaticAndDynamic(full).0, IntoStaticAndDynamic(full).1)
  }

  /** The newest configuration, as committed. */
  function Newest(s: System): Proposal {
    if s.log == [] then s.initial else s.log[|s.log| - 1].p
  }

  /** The configuration that commit `k` replaced. */
  function Replaced(s: System, k: nat): Proposal
    requires k < |s.log|
  {
    if k == 0 then s.initial else s.log[k - 1].p
  }

  predicate Enabled(s: System, e: Event) {
    match e
    case Begin(id, _) => id !in s.reloaders
    case Lock(id) => id in s.reloaders && s.reloaders[id].Waiting? && s.holder.None?
    case Check(id, _) => id in s.reloaders && s.reloaders[id].Checking?
    case StoreDynamic(id) => id in s.reloaders && s.reloaders[id].Accepted?
    case StoreStatic(id) => id in s.reloaders && s.reloaders[id].HalfStored?
    case Unlock(id) => id in s.reloaders && s.reloaders[id].Stored?
  }

  /** An event that is not enabled leaves the state as it is, so every sequence of events is a run. */
  ghost function Next(s: System, e: Event, cliAllow: bool): System {
    if !Enabled(s, e) then s else
      match e
      case Begin(id, full) => s.(reloaders := s.reloaders[id := Waiting(Propose(full))])
      case Lock(id) => s.(holder := Some(id), reloaders := s.reloaders[id := Checking(s.reloaders[id].p)])
      case Check(id, env) =>
        var p := s.reloaders[id].p;
        if Accepts(p, cliAllow, env) then s.(reloaders := s.reloaders[id := Accepted(p, Diff(s.fixed, p.fixed), env)])
        else s.(holder := None, reloaders := s.reloaders[id := Failed])
      case StoreDynamic(id) =>
        var a := s.reloaders[id];
        s.(dynamic := a.p.dynamic, log := s.log + [Commit(id, a.p, a.changes, a.env)],
           reloaders := s.reloaders[id := HalfStored(a.p)])
      case StoreStatic(id) =>
        s.(fixed := s.reloaders[id].p.fixed, reloaders := s.reloaders[id := Stored])
      case Unlock(id) => s.(holder := None, reloaders := s.reloaders[id := Succeeded])
  }

  function Init(initial: FullConfig): System {
    var p := Propose(initial);
    System(p, p.dynamic, p.fixed, None, map[], [])
  }

  ghost function After(initial: FullConfig, cliAllow: bool, events: seq<Event>): System {
    if events == [] then Init(initial)
    else Next(After(initial, cliAllow, events[..|events| - 1]), events[|events| - 1], cliAllow)
  }

  // ----- invariant -----

  /** Both halves come from one configuration file. */
  ghost predicate FromFile(p: Proposal) {
    exists full :: p == Propose(full)
  }

  /** Commit `k` was accepted, comes from one file, and reports what it changed. */
  ghost predicate CommitOk(s: System, cliAllow: bool, k: nat)
    requires k < |s.log|
  {
    && Accepts(s.log[k].p, cliAllow, s.log[k].env)
    && s.log[k].changes == Diff(Replaced(s, k).fixed, s.log[k].p.fixed)
    && FromFile(s.log[k].p)
    && s.log[k].id in s.reloaders
    && var phase := s.reloaders[s.log[k].id]; phase.HalfStored? || phase.Stored? || phase.Succeeded?
  }

  ghost predicate PhaseOk(s: System, cliAllow: bool, id: nat)
    requires id in s.reloaders
  {
    match s.reloaders[id]
    case Waiting(p) => FromFile(p)
    case Checking(p) => s.fixed == Newest(s).fixed && FromFile(p)
    case Accepted(p, changes, env) =>
      && s.fixed == Newest(s).fixed
      && changes == Diff(s.fixed, p.fixed)
      && Accepts(p, cliAllow, env)
      && FromFile(p)
    case HalfStored(p) => s.log != [] && Newest(s) == p && s.fixed == Replaced(s, |s.log| - 1).fixed
    case Stored => s.fixed == Newest(s).fixed
    case _ => true
  }

  ghost predicate Inv(s: System, cliAllow: bool) {
    && s.dynamic == Newest(s).dynamic
    && (s.holder.None? ==> s.fixed == Newest(s).fixed)
    && (s.holder.Some? ==> s.holder.value in s.reloaders && Holds(s.reloaders[s.holder.value]))
    && (forall id :: id in s.reloaders && Holds(s.reloaders[id]) ==> s.holder == Some(id))
    && (forall id :: id in s.reloaders ==> PhaseOk(s, cliAllow, id))
    && (forall k :: 0 <= k < |s.log| ==> CommitOk(s, cliAllow, k))
  }

  /** Another reloader's step, or one's own, that leaves the cells and the log alone. */
  lemma CommitsKept(s: System, s': System, cliAllow: bool, id: nat, phase: Phase)
    requires Inv(s, cliAllow)
    requires s' == s.(reloaders := s.reloaders[id := phase], holder := s'.holder, fixed := s'.fixed)
    requires id in s.reloaders && (s.reloaders[id].HalfStored? || s.reloaders[id].Stored? || s.reloaders[id].Succeeded?)
             ==> phase.HalfStored? || phase.Stored? || phase.Succeeded?
    ensures forall k :: 0 <= k < |s'.log| ==> CommitOk(s', cliAllow, k)
  {
    hide Accepts;
    hide Diff;
    hide FromFile;
    forall k | 0 <= k < |s'.log|
      ensures CommitOk(s', cliAllow, k)
    {
      assert CommitOk(s, cliAllow, k);
    }
  }

  /** Phases of reloaders that do not hold the mutex say nothing about the cells. */
  lemma PhasesKept(s: System, s': System, cliAllow: bool, id: nat)
    requires Inv(s, cliAllow)
    requires id in s'.reloaders && PhaseOk(s', cliAllow, id)
    requires s'.reloaders == s.reloaders[id := s'.reloaders[id]]
    requires s'.initial == s.initial
    requires (s'.log == s.log && s'.fixed == s.fixed) || s.holder == Some(id)
    ensures forall j :: j in s'.reloaders ==> PhaseOk(s', cliAllow, j)
  {
  }

  lemma StoreDynamicKeepsInv(s: System, id: nat, cliAllow: bool)
    requires Inv(s, cliAllow) && Enabled(s, StoreDynamic(id))
    ensures Inv(Next(s, StoreDynamic(id), cliAllow), cliAllow)
  {
    hide Accepts;
    hide Diff;
    hide FromFile;
    hide Propose;
    var s' := Next(s, StoreDynamic(id), cliAllow);
    assert PhaseOk(s, cliAllow, id);
    forall k | 0 <= k < |s'.log|
      ensures CommitOk(s', cliAllow, k)
    {
      if k < |s.log| {
        assert CommitOk(s, cliAllow, k);
        assert s'.log[k] == s.log[k] && Replaced(s', k) == Replaced(s, k);
      } else {
        assert Replaced(s', k) == Newest(s);
      }
    }
    assert Replaced(s', |s'.log| - 1) == Newest(s);
    PhasesKept(s, s', cliAllow, id);
  }

  lemma OwnPhaseKept(s: System, e: Event, cliAllow: bool)
    requires Inv(s, cliAllow) && Enabled(s, e) && !e.StoreDynamic?
    ensures PhaseOk(Next(s, e, cliAllow), cliAllow, e.id)
  {
    hide Propose, Accepts, Diff;
    assert e.Begin? || PhaseOk(s, cliAllow, e.id);
  }

  lemma CellsKept(s: System, e: Event, cliAllow: bool)
    requires Inv(s, cliAllow) && Enabled(s, e) && !e.StoreDynamic?
    ensures var s' := Next(s, e, cliAllow);
            && s'.dynamic == Newest(s').dynamic
            && (s'.holder.None? ==> s'.fixed == Newest(s').fixed)
            && (s'.holder.Some? ==> s'.holder.value in s'.reloaders && Holds(s'.reloaders[s'.holder.value]))
            && (forall id :: id in s'.reloaders && Holds(s'.reloaders[id]) ==> s'.holder == Some(id))
  {
    hide Propose, Accepts, Diff, CommitOk;
    assert e.Begin? || PhaseOk(s, cliAllow, e.id);
  }

  /** Steps other than the store of the dynamic half. */
  lemma OtherStepKeepsInv(s: System, e: Event, cliAllow: bool)
    requires Inv(s, cliAllow) && Enabled(s, e) && !e.StoreDynamic?
    ensures Inv(Next(s, e, cliAllow), cliAllow)
  {
    OwnPhaseKept(s, e, cliAllow);
    CellsKept(s, e, cliAllow);
    hide Propose;
    hide Accepts;
    hide Diff;
    hide CommitOk;
    hide PhaseOk;
    var s' := Next(s, e, cliAllow);
    CommitsKept(s, s', cliAllow, e.id, s'.reloaders[e.id]);
    PhasesKept(s, s', cliAllow, e.id);
  }

  lemma NextKeepsInv(s: System, e: Event, cliAllow: bool)
    requires Inv(s, cliAllow)
    ensures Inv(Next(s, e, cliAllow), cliAllow)
  {
    hide Inv;
    if Enabled(s, e) {
      if e.StoreDynamic? {
        StoreDynamicKeepsInv(s, e.id, cliAllow);
      } else {
        OtherStepKeepsInv(s, e, cliAllow);
      }
    }
  }

  lemma {:induction false} Reachable(initial: FullConfig, cliAllow: bool, events: seq<Event>)
    ensures Inv(After(initial, cliAllow, events), cliAllow)
    ensures After(initial, cliAllow, events).initial == Propose(initial)
  {
    hide Inv;
    if events == [] {
      InitInv(initial, cliAllow);
    } else {
      var before := events[..|events| - 1];
      Reachable(initial, cliAllow, before);
      NextKeepsInv(After(initial, cliAllow, before), events[|events| - 1], cliAllow);
      NextKeepsInitial(After(initial, cliAllow, before), events[|events| - 1], cliAllow);
    }
  }

  lemma InitInv(initial: FullConfig, cliAllow: bool)
    ensures Inv(Init(initial), cliAllow)
  {
  }

  lemma NextKeepsInitial(s: System, e: Event, cliAllow: bool)
    ensures Next(s, e, cliAllow).initial == s.initial
    ensures s.log <= Next(s, e, cliAllow).log
  {
  }

  // ----- safety, under every interleaving -----

  /** Every configuration a reader can see is the initial one or one that passed validation and the
      descriptor check, and it is the newest committed one. */
  lemma {:induction false} VisibleConfigWasAccepted(initial: FullConfig, cliAllow: bool, events: seq<Event>)
    ensures var s := After(initial, cliAllow, events);
            if s.log == [] then s.dynamic == Propose(initial).dynamic
            else var c := s.log[|s.log| - 1];
                 s.dynamic == c.p.dynamic && Accepts(c.p, cliAllow, c.env)
  {
    hide After;
    hide Accepts;
    Reachable(initial, cliAllow, events);
    var s := After(initial, cliAllow, events);
    if s.log != [] {
      assert CommitOk(s, cliAllow, |s.log| - 1);
    }
  }

  /** Every committed configuration allows some connections, and where a descriptor limit could be read
      and the sum did not wrap around, they fit it with 64 to spare. */
  lemma {:induction false} CommittedBudgetFits(initial: FullConfig, cliAllow: bool, events: seq<Event>, k: nat)
    requires k < |After(initial, cliAllow, events).log|
    ensures var c := After(initial, cliAllow, events).log[k];
            && 0 < c.p.fixed.maxConnections
            && (c.env.limit.Limited? && c.p.fixed.maxConnections + 64 < 0x1_0000_0000_0000_0000 ==>
                  c.p.fixed.maxConnections + 64 <= c.env.limit.soft)
  {
    hide After, WithinNofile, ListenersOk, SitesOk, HealthOk;
    Reachable(initial, cliAllow, events);
    var s := After(initial, cliAllow, events);
    assert CommitOk(s, cliAllow, k);
    var c := s.log[k];
    if c.p.fixed.maxConnections + 64 < 0x1_0000_0000_0000_0000 {
      WithinNofileIff(c.p.fixed.maxConnections, c.env.limit);
    }
  }

  /** The dynamic half shows the settings of the file. */
  ghost predicate ShowsFile(d: DynamicConfig, full: FullConfig) {
    && d.sites == SitesOf(full.listeners)
    && d.rateLimit.requestsPerSecond == full.rateLimit.requestsPerSecond && d.rateLimit.burst == full.rateLimit.burst
    && d.body.limitBytes == full.body.limitBytes
  }

  /** What a reader sees are the sites and limits of one file. */
  lemma {:induction false} VisibleSettingsAreOneFiles(initial: FullConfig, cliAllow: bool, events: seq<Event>)
    ensures exists full :: ShowsFile(After(initial, cliAllow, events).dynamic, full)
  {
    hide After, Accepts;
    Reachable(initial, cliAllow, events);
    var s := After(initial, cliAllow, events);
    if s.log == [] {
      assert ShowsFile(s.dynamic, initial);
    } else {
      assert CommitOk(s, cliAllow, |s.log| - 1);
      var full :| Newest(s) == Propose(full);
      assert ShowsFile(s.dynamic, full);
    }
  }

  /** Whenever the mutex is free, the stored static and dynamic halves are those of one reload. */
  lemma {:induction false} HalvesAgreeWhenFree(initial: FullConfig, cliAllow: bool, events: seq<Event>)
    ensures var s := After(initial, cliAllow, events);
            s.holder.None? ==> Proposal(s.fixed, s.dynamic) == Newest(s)
  {
    hide After;
    Reachable(initial, cliAllow, events);
  }

  /** A reader without the mutex can see a newer dynamic half than static half, by one commit and no
      more: the dynamic half is always the newest, and the static half is the newest or, while the
      holder of the mutex is between its two stores, the one before. */
  lemma {:induction false} StaticAtMostOneBehind(initial: FullConfig, cliAllow: bool, events: seq<Event>)
    ensures var s := After(initial, cliAllow, events);
            var between := s.holder.Some? && s.holder.value in s.reloaders && s.reloaders[s.holder.value].HalfStored?;
            && s.dynamic == Newest(s).dynamic
            && (between ==> s.log != [])
            && s.fixed == if between then Replaced(s, |s.log| - 1).fixed else Newest(s).fixed
  {
    hide After;
    hide Accepts;
    hide Diff;
    Reachable(initial, cliAllow, events);
    var s := After(initial, cliAllow, events);
    if s.holder.Some? {
      assert PhaseOk(s, cliAllow, s.holder.value);
    }
  }

  /** A failed reload has changed nothing: no commit is its own, and the step that fails it leaves both
      cells as they were. */
  lemma {:induction false} FailedReloadChangesNothing(initial: FullConfig, cliAllow: bool, events: seq<Event>, e: Event, id: nat)
    ensures var s := After(initial, cliAllow, events);
            id in s.reloaders && s.reloaders[id].Failed? ==> forall k :: 0 <= k < |s.log| ==> s.log[k].id != id
    ensures var s := After(initial, cliAllow, events);
            var s' := Next(s, e, cliAllow);
            && id in s'.reloaders && s'.reloaders[id].Failed?
            && !(id in s.reloaders && s.reloaders[id].Failed?)
            ==> s'.dynamic == s.dynamic && s'.fixed == s.fixed && s'.log == s.log
  {
    hide After;
    hide Accepts;
    hide Diff;
    Reachable(initial, cliAllow, events);
    var s := After(initial, cliAllow, events);
    forall k | 0 <= k < |s.log|
      ensures id in s.reloaders && s.reloaders[id].Failed? ==> s.log[k].id != id
    {
      assert CommitOk(s, cliAllow, k);
    }
  }

  /** Each successful reload reports exactly the static fields in which it differs from the reload
      before it, and nothing exactly when it does not differ. */
  lemma {:induction false} ReportedChangesExact(initial: FullConfig, cliAllow: bool, events: seq<Event>, k: nat)
    requires k < |After(initial, cliAllow, events).log|
    ensures var s := After(initial, cliAllow, events);
            var before, after := Replaced(s, k).fixed, s.log[k].p.fixed;
            && (forall f :: f in s.log[k].changes <==> Differs(before, after, f))
            && (s.log[k].changes == [] <==> before == after)
  {
    hide After;
    hide Diff;
    hide Accepts;
    Reachable(initial, cliAllow, events);
    var s := After(initial, cliAllow, events);
    assert CommitOk(s, cliAllow, k);
    DiffExact(Replaced(s, k).fixed, s.log[k].p.fixed);
  }

  /** Nothing goes unreported: a static field in which the running process's start-up configuration
      differs from the newest one has been reported by some reload in between. */
  lemma {:induction false} EveryDriftReported(initial: FullConfig, cliAllow: bool, events: seq<Event>, f: Field, n: nat)
    requires n <= |After(initial, cliAllow, events).log|
    requires var s := After(initial, cliAllow, events);
             0 < n && Differs(Propose(initial).fixed, s.log[n - 1].p.fixed, f)
    ensures var s := After(initial, cliAllow, events);
            exists k :: 0 <= k < n && f in s.log[k].changes
    decreases n
  {
    hide After;
    hide Propose;
    Reachable(initial, cliAllow, events);
    var s := After(initial, cliAllow, events);
    ReportedChangesExact(initial, cliAllow, events, n - 1);
    if f !in s.log[n - 1].changes && n > 1 {
      EveryDriftReported(initial, cliAllow, events, f, n - 1);
    }
  }

  /** Readers see configurations in commit order: the log only grows. */
  lemma {:induction false} LogOnlyGrows(initial: FullConfig, cliAllow: bool, events: seq<Event>, more: seq<Event>)
    ensures After(initial, cliAllow, events).log <= After(initial, cliAllow, events + more).log
    decreases |more|
  {
    hide Next;
    if more == [] {
      assert events + more == events;
    } else {
      var before := events + more[..|more| - 1];
      LogOnlyGrows(initial, cliAllow, events, more[..|more| - 1]);
      assert (events + more)[..|events + more| - 1] == before;
      NextKeepsInitial(After(initial, cliAllow, before), more[|more| - 1], cliAllow);
    }
  }

  /** End to end: if the start-up configuration passed validation, then under every interleaving of
      reloads the visible routing table answers every host as a scan over the sites of the file it
      came from. */
  lemma {:induction false} RoutingCorrectUnderReload(initial: FullConfig, cliAllow: bool, env: Env, events: seq<Event>, host: string)
    requires Accepts(Propose(initial), cliAllow, env)
    ensures var d := After(initial, cliAllow, events).dynamic;
            && Lookup(d, host) == Scan(d.sites, NormalizeHost(host))
            && |d.routingTable| == |d.sites|
  {
    hide After;
    hide Lookup;
    hide Scan;
    hide NormalizeHost;
    hide ValidConfig;
    hide IntoStaticAndDynamic;
    hide WithinNofile;
    Reachable(initial, cliAllow, events);
    var s := After(initial, cliAllow, events);
    if s.log == [] {
      RoutingRefinesScan(initial, cliAllow, env.oracle, host);
    } else {
      var c := s.log[|s.log| - 1];
      assert CommitOk(s, cliAllow, |s.log| - 1);
      var full :| c.p == Propose(full);
      RoutingRefinesScan(full, cliAllow, c.env.oracle, host);
    }
  }
}
