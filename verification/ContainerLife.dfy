/** The life of a container over whole runs (app/infrastructure/container_pool.py,
    app/services/sandbox_execution.py): how old it is when it is handed out, what it takes to
    come back, and when the pool grows and shrinks. */
module ContainerLife {
  import opened Basics
  import opened PoolSpec
  import opened PoolSections
  import opened DataFiles
  import opened StatelessLease
  import opened LeaseGuarantees

  // ---------- Giving back ----------

  /** A request gives its container back: the container stays alive, and is pooled again as the
      last one and as old as it was, exactly if its probe is good and there is room. Its lease
      ends either way. */
  lemma GivenBackExactly(cfg: Settings, start: real, steps: seq<Step>, r: RequestId, healthy: bool, now: real)
    requires cfg.pool.Ok() && ValidRun(cfg, Init(cfg, start), steps)
    requires Enabled(cfg, After(cfg, start, steps), GiveBack(r, healthy, now))
    ensures var s := After(cfg, start, steps);
            var t := Apply(cfg, s, GiveBack(r, healthy, now));
            var c := s.clients[r].phase.c;
            var fits := healthy && |s.pool.available| < s.pool.target;
            && c in s.pool.leased && c !in t.pool.leased
            && (c in t.alive <==> fits) && (c in t.pool.all <==> fits)
            && t.alive - {c} == s.alive - {c}
            && t.pool.available
               == if fits then s.pool.available + [Container(c, s.pool.leased[c].createdAt, true, now)] else s.pool.available
  {
    AfterInv(cfg, start, steps);
    var s := After(cfg, start, steps);
    HeldIsLeased(cfg, s, r);
    ReleaseExactly(s.pool, s.clients[r].phase.c, healthy, now);
    GiveBackAlive(cfg, s, r, healthy, now);
  }

  lemma GiveBackAlive(cfg: Settings, s: System, r: RequestId, healthy: bool, now: real)
    requires Inv(cfg, s) && Enabled(cfg, s, GiveBack(r, healthy, now))
    requires s.clients[r].phase.c in s.pool.leased && s.clients[r].phase.c in s.alive
    ensures var t := Apply(cfg, s, GiveBack(r, healthy, now));
            && t.pool == ReleaseSpec(s.pool, s.clients[r].phase.c, healthy, now)
            && t.alive == if healthy && |s.pool.available| < s.pool.target then s.alive else s.alive - {s.clients[r].phase.c}
  {}

  // ---------- Destroyed for good ----------

  lemma DestroyedStep(cfg: Settings, s: System, step: Step, c: ContainerId)
    requires Enabled(cfg, s, step) && c in s.used && c !in s.alive
    ensures c in Apply(cfg, s, step).used && c !in Apply(cfg, s, step).alive
  {
    hide AcquireSpec, AcquireSharedSpec, ReleaseSpec, ReleaseSharedSpec, SweepSpec, ShrinkSpec, ReplenishSpec, GrowSpec, LowerTargetSpec;
    hide InsideOf, InjectOk, PreloadOk, SkipsPreload, OwnOrOld;
  }

  /** A container once destroyed is never alive again, and no request ever gets it. */
  lemma {:induction false} DestroyedForGood(cfg: Settings, s: System, steps: seq<Step>, c: ContainerId)
    requires Inv(cfg, s) && ValidRun(cfg, s, steps) && c in s.used && c !in s.alive
    ensures var t := Run(cfg, s, steps);
            && c in t.used && c !in t.alive && c !in t.pool.all
            && forall r :: r in t.clients ==> Occupies(t.clients[r].phase) != Some(c)
    decreases |steps|
  {
    if steps == [] {
      NobodyInside(cfg, s, c);
    } else {
      hide Apply, Enabled, PoolInv, ClientInv, CleanInv, NoSharing, Occupies;
      InvStep(cfg, s, steps[0]);
      DestroyedStep(cfg, s, steps[0], c);
      DestroyedForGood(cfg, Apply(cfg, s, steps[0]), steps[1..], c);
    }
  }

  lemma NobodyInside(cfg: Settings, s: System, c: ContainerId)
    requires Inv(cfg, s) && c !in s.alive
    ensures c !in s.pool.all && forall r :: r in s.clients ==> Occupies(s.clients[r].phase) != Some(c)
  {
    forall r | r in s.clients ensures Occupies(s.clients[r].phase) != Some(c) {
      if Occupies(s.clients[r].phase) == Some(c) {
        OccupiedIsAlive(cfg, s, r);
      }
    }
  }

  /** A container whose probe fails when it is given back is out of the game for ever. */
  lemma FailedProbeIsFinal(cfg: Settings, start: real, steps: seq<Step>, r: RequestId, now: real, more: seq<Step>)
    requires cfg.pool.Ok() && ValidRun(cfg, Init(cfg, start), steps)
    requires Enabled(cfg, After(cfg, start, steps), GiveBack(r, false, now))
    requires ValidRun(cfg, Apply(cfg, After(cfg, start, steps), GiveBack(r, false, now)), more)
    ensures var s := After(cfg, start, steps);
            var t := Run(cfg, Apply(cfg, s, GiveBack(r, false, now)), more);
            var c := s.clients[r].phase.c;
            && c !in t.alive && c !in t.pool.all
            && forall q :: q in t.clients ==> Occupies(t.clients[q].phase) != Some(c)
  {
    var s := After(cfg, start, steps);
    GivenBackExactly(cfg, start, steps, r, false, now);
    AfterInv(cfg, start, steps);
    InvStep(cfg, s, GiveBack(r, false, now));
    HeldIsUsed(cfg, s, r);
    hide Run, ValidRun, PoolInv, ClientInv, CleanInv, NoSharing;
    var u := Apply(cfg, s, GiveBack(r, false, now));
    assert u.used == s.used;
    hide Apply;
    DestroyedForGood(cfg, u, more, s.clients[r].phase.c);
  }

  // ---------- What it takes to come back ----------

  /** After a cleanup a container counts as reusable exactly if the kernel had not been reported
      unhealthy, the directories could be emptied, and the kernel was reset unless the run was
      isolated; the directories are emptied whenever the first two hold. */
  lemma CleanupExactly(cfg: Settings, s: System, r: RequestId, workspaceOk: bool, kernelOk: bool)
    requires Enabled(cfg, s, Cleanup(r, workspaceOk, kernelOk))
    ensures var t := Apply(cfg, s, Cleanup(r, workspaceOk, kernelOk));
            var (c, outcome) := (s.clients[r].phase.c, s.clients[r].phase.outcome);
            && t.clients == s.clients[r := s.clients[r].(phase :=
                 Cleaned(c, !outcome.Unhealthy? && workspaceOk && (outcome.Isolated? || kernelOk)))]
            && FilesOf(t, c) == (if outcome.Unhealthy? || !workspaceOk then FilesOf(s, c) else {})
            && t.pool == s.pool && t.alive == s.alive && t.used == s.used
  {}

  predicate ProbedWell(step: Step, r: RequestId) {
    step.GiveBack? && step.r == r && step.healthy
  }

  predicate CleanedWell(step: Step, r: RequestId, outcome: Outcome) {
    step.Cleanup? && step.r == r && step.workspaceOk && !outcome.Unhealthy? && (outcome.Isolated? || step.kernelOk)
  }

  lemma OwnStepWhenCleaned(cfg: Settings, s: System, step: Step, r: RequestId)
    requires Inv(cfg, s) && Enabled(cfg, s, step) && Mover(step) == Some(r)
    requires r in s.clients && s.clients[r].phase.Cleaned?
    ensures var c := s.clients[r].phase.c;
            var t := Apply(cfg, s, step);
            && c in s.used
            && (c in t.alive ==> s.clients[r].phase.reusable && ProbedWell(step, r))
  {
    HeldIsUsed(cfg, s, r);
    hide ReleaseSpec, PoolInv, ClientInv, CleanInv, NoSharing;
    assert step.GiveBack? || step.Destroy?;
  }

  lemma {:induction false} BackFromCleaned(cfg: Settings, s: System, steps: seq<Step>, r: RequestId)
    requires Inv(cfg, s) && ValidRun(cfg, s, steps)
    requires r in s.clients && s.clients[r].phase.Cleaned?
    requires var t := Run(cfg, s, steps);
             r in t.clients && t.clients[r].phase == Finished && s.clients[r].phase.c in t.alive
    ensures s.clients[r].phase.reusable && exists j :: 0 <= j < |steps| && ProbedWell(steps[j], r)
    decreases |steps|
  {
    var c := s.clients[r].phase.c;
    var step, rest := steps[0], steps[1..];
    var u := Apply(cfg, s, step);
    InvStep(cfg, s, step);
    if Mover(step) == Some(r) {
      OwnStepWhenCleaned(cfg, s, step, r);
      hide Apply, Enabled, PoolInv, ClientInv, CleanInv, NoSharing;
      if c !in u.alive {
        UsedStays(cfg, s, step, c);
        DestroyedForGood(cfg, u, rest, c);
      }
    } else {
      OthersStayPut(cfg, s, step, r);
      hide Apply, Enabled, PoolInv, ClientInv, CleanInv, NoSharing;
      BackFromCleaned(cfg, u, rest, r);
      var j :| 0 <= j < |rest| && ProbedWell(rest[j], r);
      assert steps[j + 1] == rest[j];
    }
  }

  lemma UsedStays(cfg: Settings, s: System, step: Step, c: ContainerId)
    requires Enabled(cfg, s, step) && c in s.used
    ensures c in Apply(cfg, s, step).used
  {
    hide AcquireSpec, AcquireSharedSpec, ReleaseSpec, ReleaseSharedSpec, SweepSpec, ShrinkSpec, ReplenishSpec, GrowSpec, LowerTargetSpec;
    hide InsideOf, InjectOk, PreloadOk, SkipsPreload, OwnOrOld;
  }

  lemma OwnStepWhenRan(cfg: Settings, s: System, step: Step, r: RequestId)
    requires Enabled(cfg, s, step) && Mover(step) == Some(r)
    requires r in s.clients && s.clients[r].phase.Ran?
    ensures var (c, outcome) := (s.clients[r].phase.c, s.clients[r].phase.outcome);
            var t := Apply(cfg, s, step);
            && step.Cleanup? && step.r == r && r in t.clients
            && t.clients[r].phase == Cleaned(c, CleanedWell(step, r, outcome))
  {
    assert step.Cleanup?;
    hide Apply;
    CleanupExactly(cfg, s, r, step.workspaceOk, step.kernelOk);
  }

  /** A container is alive after a run in it only if its cleanup went well (directories emptied,
      kernel healthy, and reset unless the run was isolated) and its probe after that was good. */
  lemma {:induction false} ReturnsOnlyIfFit(cfg: Settings, s: System, steps: seq<Step>, r: RequestId)
    requires Inv(cfg, s) && ValidRun(cfg, s, steps)
    requires r in s.clients && s.clients[r].phase.Ran?
    requires var t := Run(cfg, s, steps);
             r in t.clients && t.clients[r].phase == Finished && s.clients[r].phase.c in t.alive
    ensures exists i, j :: 0 <= i < j < |steps| && CleanedWell(steps[i], r, s.clients[r].phase.outcome) && ProbedWell(steps[j], r)
    decreases |steps|
  {
    var step, rest := steps[0], steps[1..];
    var u := Apply(cfg, s, step);
    InvStep(cfg, s, step);
    if Mover(step) == Some(r) {
      OwnStepWhenRan(cfg, s, step, r);
      hide Apply, Enabled, PoolInv, ClientInv, CleanInv, NoSharing, CleanedWell;
      BackFromCleaned(cfg, u, rest, r);
      var j :| 0 <= j < |rest| && ProbedWell(rest[j], r);
      assert steps[j + 1] == rest[j];
    } else {
      OthersStayPut(cfg, s, step, r);
      hide Apply, Enabled, PoolInv, ClientInv, CleanInv, NoSharing, CleanedWell;
      ReturnsOnlyIfFit(cfg, u, rest, r);
      var i, j :| 0 <= i < j < |rest| && CleanedWell(rest[i], r, s.clients[r].phase.outcome) && ProbedWell(rest[j], r);
      assert steps[i + 1] == rest[i] && steps[j + 1] == rest[j];
    }
  }

  // ---------- Who shares ----------

  /** No data files, no tables, no shell command. */
  predicate PureCode(q: Request) {
    q.dataFiles == {} && q.preload == map[] && !q.command
  }

  /** Only pure code ever shares, and only with sharing on; and it leases a container for itself
      only after it has tried to share. */
  lemma SharesExactly(cfg: Settings, s: System, r: RequestId, now: real)
    ensures Enabled(cfg, s, TryShared(r, now))
            <==> r in s.clients && s.clients[r].phase.Arrived? && cfg.sharing && PureCode(s.clients[r].request)
    ensures Enabled(cfg, s, Lease(r, now))
            <==> r in s.clients && (s.clients[r].phase.SharedTried?
                                    || (s.clients[r].phase.Arrived? && !(cfg.sharing && PureCode(s.clients[r].request))))
  {}

  /** A step moves at most its own request. */
  lemma SameClients(cfg: Settings, s: System, step: Step)
    requires Enabled(cfg, s, step)
    ensures Apply(cfg, s, step).clients.Keys == s.clients.Keys + if Mover(step).Some? then {Mover(step).value} else {}
  {
    hide AcquireSpec, AcquireSharedSpec, ReleaseSpec, ReleaseSharedSpec, SweepSpec, ShrinkSpec, ReplenishSpec, GrowSpec, LowerTargetSpec;
    hide InsideOf, InjectOk, PreloadOk, SkipsPreload, OwnOrOld;
  }

  predicate SharesRightly(cfg: Settings, q: Request, p: Phase) {
    p.Sharing? || p.SharedTried? ==> cfg.sharing && PureCode(q)
  }

  ghost predicate OnlyPureShares(cfg: Settings, s: System) {
    forall r :: r in s.clients ==> SharesRightly(cfg, s.clients[r].request, s.clients[r].phase)
  }

  lemma OwnSharing(cfg: Settings, s: System, step: Step, r: RequestId)
    requires Enabled(cfg, s, step) && Mover(step) == Some(r)
    requires r in s.clients ==> SharesRightly(cfg, s.clients[r].request, s.clients[r].phase)
    ensures var t := Apply(cfg, s, step); r in t.clients && SharesRightly(cfg, t.clients[r].request, t.clients[r].phase)
  {
    hide AcquireSpec, AcquireSharedSpec, ReleaseSpec, ReleaseSharedSpec, SweepSpec, ShrinkSpec, ReplenishSpec, GrowSpec, LowerTargetSpec;
    hide InsideOf, InjectOk, PreloadOk, SkipsPreload, OwnOrOld;
  }

  lemma OnlyPureStep(cfg: Settings, s: System, step: Step)
    requires Enabled(cfg, s, step) && OnlyPureShares(cfg, s)
    ensures OnlyPureShares(cfg, Apply(cfg, s, step))
  {
    SameClients(cfg, s, step);
    hide Apply, Enabled, SharesRightly;
    var t := Apply(cfg, s, step);
    forall r | r in t.clients ensures SharesRightly(cfg, t.clients[r].request, t.clients[r].phase) {
      if Mover(step) == Some(r) {
        OwnSharing(cfg, s, step, r);
      } else {
        OthersStayPut(cfg, s, step, r);
      }
    }
  }

  /** In every reachable state a request that brings files, tables or a command is in no shared
      phase. */
  lemma {:induction false} OnlyPureCodeShares(cfg: Settings, s: System, steps: seq<Step>)
    requires ValidRun(cfg, s, steps) && OnlyPureShares(cfg, s)
    ensures OnlyPureShares(cfg, Run(cfg, s, steps))
    decreases |steps|
  {
    if steps != [] {
      hide Apply, Enabled, OnlyPureShares;
      OnlyPureStep(cfg, s, steps[0]);
      OnlyPureCodeShares(cfg, Apply(cfg, s, steps[0]), steps[1..]);
    }
  }

  // ---------- Age ----------

  /** When the containers of a delivery were created. */
  function BornIn(made: seq<Container>): map<ContainerId, real> {
    if made == [] then map[]
    else BornIn(made[..|made| - 1])[made[|made| - 1].id := made[|made| - 1].createdAt]
  }

  /** When every container was created that a run delivers; `born` has the earlier ones. */
  function Births(steps: seq<Step>, born: map<ContainerId, real>): map<ContainerId, real> {
    if steps == [] then born
    else Births(steps[1..], if steps[0].Replenish? then born + BornIn(steps[0].made) else born)
  }

  /** Pooled or leased, a container counts its age from its creation, and is not known to be
      unhealthy. */
  ghost predicate Aged(pool: PoolState, births: map<ContainerId, real>) {
    && (forall id :: id in pool.all ==> id in births && pool.all[id].createdAt == births[id] && pool.all[id].healthy)
    && (forall id :: id in pool.leased ==> id in births && pool.leased[id].createdAt == births[id])
  }

  lemma {:induction false} BornInFacts(made: seq<Container>)
    requires Distinct(made)
    ensures BornIn(made).Keys == Ids(made)
    ensures forall c :: c in made ==> c.id in BornIn(made) && BornIn(made)[c.id] == c.createdAt
  {
    if made != [] {
      var n := |made| - 1;
      BornInFacts(made[..n]);
      assert made == made[..n] + [made[n]];
    }
  }

  lemma LendingAged(s: PoolState, t: PoolState, c: Container, births: map<ContainerId, real>)
    requires Aged(s, births) && c.id in s.all && s.all[c.id] == c
    requires t.all == s.all - {c.id} && t.leased == s.leased[c.id := c]
    ensures Aged(t, births)
  {}

  lemma LentRecord(cfg: Config, s: PoolState, now: real)
    requires TableOk(s)
    ensures var (t, c) := AcquireSpec(cfg, s, now);
            && (c.Some? ==>
                  && c.value.id in s.all && s.all[c.value.id] == c.value
                  && t.all == s.all - {c.value.id} && t.leased == s.leased[c.value.id := c.value])
            && (c.None? ==> t.all == s.all && t.leased == s.leased)
  {
    hide FirstFree, Free, Index;
    IndexMembers(s.available);
    match FirstFree(s.available, s.shared, now, cfg.maxAge)
    case Some(i) => assert s.available[i] in s.available;
    case None =>
  }

  lemma AcquireAged(cfg: Config, s: PoolState, now: real, births: map<ContainerId, real>)
    requires TableOk(s) && Aged(s, births)
    ensures Aged(AcquireSpec(cfg, s, now).0, births)
  {
    LentRecord(cfg, s, now);
    hide AcquireSpec, TableOk;
    var (t, c) := AcquireSpec(cfg, s, now);
    if c.Some? {
      LendingAged(s, t, c.value, births);
    }
  }

  lemma ReplenishAged(s: PoolState, made: seq<Container>, births: map<ContainerId, real>)
    requires TableOk(s) && FreshFor(s, made) && Aged(s, births) && forall c :: c in made ==> c.healthy
    ensures Aged(ReplenishSpec(s, made), births + BornIn(made))
  {
    BornInFacts(made);
    ReplenishKeepsTable(s, made);
    IndexMembers(s.available);
    IndexMembers(s.available + made);
    var t := ReplenishSpec(s, made);
    hide AddAll, Index;
    forall id | id in t.all
      ensures id in births + BornIn(made) && t.all[id].createdAt == (births + BornIn(made))[id] && t.all[id].healthy
    {
      if t.all[id] in s.available {
        assert s.all[id] == t.all[id];
      }
    }
  }

  lemma SweepAged(cfg: Config, s: PoolState, probe: ContainerId -> Probe, births: map<ContainerId, real>)
    requires TableOk(s) && Aged(s, births)
    ensures Aged(SweepSpec(cfg, s, probe), births)
  {
    var t := SweepSpec(cfg, s, probe);
    SweepKeepsTable(cfg, s, probe);
    IndexMembers(s.available);
    assert t.leased == s.leased;
    forall id | id in t.all ensures id in births && t.all[id].createdAt == births[id] && t.all[id].healthy {
      SweepExactly(cfg, s, probe, s.all[id]);
    }
  }

  lemma ShrinkAged(s: PoolState, births: map<ContainerId, real>)
    requires TableOk(s) && Aged(s, births)
    ensures Aged(ShrinkSpec(s), births)
  {
    var t := ShrinkSpec(s);
    ShrinkKeepsTable(s);
    IndexMembers(s.available);
    assert t.leased == s.leased;
    forall id | id in t.all ensures id in births && t.all[id].createdAt == births[id] && t.all[id].healthy {
      var i :| 0 <= i < |s.available| && s.available[i] == s.all[id];
      ShrinkExactly(s, i);
    }
  }

  lemma TakenAged(cfg: Settings, s: System, step: Step, births: map<ContainerId, real>)
    requires TableOk(s.pool) && Enabled(cfg, s, step) && Aged(s.pool, births)
    requires step.Lease? || step.HandOut? || step.GiveBack?
    ensures Aged(Apply(cfg, s, step).pool, births)
  {
    hide Aged, TableOk, AcquireSpec, ReleaseSpec, Readmits;
    if step.GiveBack? {
      GiveBackAged(s.pool, s.clients[step.r].phase.c, step.healthy, step.now, births);
    } else {
      AcquireAged(cfg.pool, s.pool, step.now, births);
    }
  }

  lemma BackgroundAged(cfg: Settings, s: System, step: Step, births: map<ContainerId, real>)
    requires TableOk(s.pool) && Enabled(cfg, s, step) && Aged(s.pool, births)
    requires step.Replenish? || step.Sweep? || step.RemoveSurplus?
    requires step.Replenish? ==> forall c :: c in step.made ==> c.healthy
    ensures Aged(Apply(cfg, s, step).pool, if step.Replenish? then births + BornIn(step.made) else births)
  {
    hide Aged, TableOk, SweepSpec, ShrinkSpec, ReplenishSpec, BornIn;
    match step
    case Replenish(made) => ReplenishAged(s.pool, made, births);
    case Sweep(probe) => SweepAged(cfg.pool, s.pool, probe, births);
    case RemoveSurplus => ShrinkAged(s.pool, births);
  }

  lemma SameContainers(cfg: Settings, s: System, step: Step)
    requires Enabled(cfg, s, step)
    requires !step.Lease? && !step.HandOut? && !step.GiveBack? && !step.Replenish? && !step.Sweep? && !step.RemoveSurplus?
    ensures var t := Apply(cfg, s, step); t.pool.all == s.pool.all && t.pool.leased == s.pool.leased
  {
    hide InsideOf, InjectOk, PreloadOk, SkipsPreload, OwnOrOld, LeastLoaded, SumValues, HighWater;
  }

  lemma AgedStep(cfg: Settings, s: System, step: Step, births: map<ContainerId, real>)
    requires TableOk(s.pool) && Enabled(cfg, s, step) && Aged(s.pool, births)
    requires step.Replenish? ==> forall c :: c in step.made ==> c.healthy
    ensures Aged(Apply(cfg, s, step).pool, if step.Replenish? then births + BornIn(step.made) else births)
  {
    if step.Lease? || step.HandOut? || step.GiveBack? {
      hide *;
      TakenAged(cfg, s, step, births);
    } else if step.Replenish? || step.Sweep? || step.RemoveSurplus? {
      hide *;
      BackgroundAged(cfg, s, step, births);
    } else {
      hide Apply, Enabled;
      SameContainers(cfg, s, step);
    }
  }

  lemma GiveBackAged(s: PoolState, id: ContainerId, healthy: bool, now: real, births: map<ContainerId, real>)
    requires TableOk(s) && Aged(s, births)
    ensures Aged(ReleaseSpec(s, id, healthy, now), births)
  {
    ReleaseExactly(s, id, healthy, now);
    hide ReleaseSpec, TableOk;
  }

  /** A container is delivered only once it has answered its probe. */
  predicate DeliveredHealthy(steps: seq<Step>) {
    forall i :: 0 <= i < |steps| && steps[i].Replenish? ==> forall c :: c in steps[i].made ==> c.healthy
  }

  lemma {:induction false} RunAged(cfg: Settings, s: System, steps: seq<Step>, born: map<ContainerId, real>)
    requires Inv(cfg, s) && ValidRun(cfg, s, steps) && DeliveredHealthy(steps) && Aged(s.pool, born)
    ensures Aged(Run(cfg, s, steps).pool, Births(steps, born))
    decreases |steps|
  {
    if steps != [] {
      var rest := steps[1..];
      assert forall i :: 0 <= i < |rest| ==> rest[i] == steps[i + 1];
      InvStep(cfg, s, steps[0]);
      hide Apply, Enabled, Aged, TableOk, ClientInv, CleanInv, NoSharing;
      AgedStep(cfg, s, steps[0], born);
      RunAged(cfg, Apply(cfg, s, steps[0]), rest, if steps[0].Replenish? then born + BornIn(steps[0].made) else born);
    }
  }

  /** In every reachable state every pooled or leased container is as old as its creation says,
      whatever it has been through, and no pooled one is known to be unhealthy. */
  lemma AgesCountFromCreation(cfg: Settings, start: real, steps: seq<Step>)
    requires cfg.pool.Ok() && ValidRun(cfg, Init(cfg, start), steps) && DeliveredHealthy(steps)
    ensures Aged(After(cfg, start, steps).pool, Births(steps, map[]))
  {
    InitInv(cfg, start);
    RunAged(cfg, Init(cfg, start), steps, map[]);
  }

  /** The container is in the pool, was created no longer ago than containers may live, and is
      shared by nobody. */
  predicate Lendable(cfg: Config, s: PoolState, born: map<ContainerId, real>, now: real, c: ContainerId) {
    c in s.all && c in born && now <= born[c] + cfg.maxAge && c !in s.shared
  }

  ghost predicate SomeLendable(cfg: Config, s: PoolState, born: map<ContainerId, real>, now: real) {
    exists c :: Lendable(cfg, s, born, now, c)
  }

  /** A request gets a container to itself exactly if there is one it can be lent, and then such a
      one. Otherwise the target grows, up to the maximum. */
  lemma LendsExactly(cfg: Settings, start: real, steps: seq<Step>, r: RequestId, now: real)
    requires cfg.pool.Ok() && ValidRun(cfg, Init(cfg, start), steps) && DeliveredHealthy(steps)
    requires Enabled(cfg, After(cfg, start, steps), Lease(r, now))
    ensures var s := After(cfg, start, steps);
            var t := Apply(cfg, s, Lease(r, now));
            var born := Births(steps, map[]);
            && r in t.clients
            && (t.clients[r].phase.Leased? <==> SomeLendable(cfg.pool, s.pool, born, now))
            && (t.clients[r].phase.Leased? ==> Lendable(cfg.pool, s.pool, born, now, t.clients[r].phase.c))
            && t.pool.target == (if !t.clients[r].phase.Leased? && s.pool.target < cfg.pool.maxSize then s.pool.target + 1
                                 else s.pool.target)
  {
    AgesCountFromCreation(cfg, start, steps);
    AfterInv(cfg, start, steps);
    var s := After(cfg, start, steps);
    hide Run, ValidRun, ClientInv, CleanInv, NoSharing, Births;
    LendsPooled(cfg, s.pool, now, Births(steps, map[]));
    LeasedByAcquire(cfg, s, r, now);
  }

  lemma LeasedByAcquire(cfg: Settings, s: System, r: RequestId, now: real)
    requires Enabled(cfg, s, Lease(r, now))
    ensures var t := Apply(cfg, s, Lease(r, now));
            var (pool, c) := AcquireSpec(cfg.pool, s.pool, now);
            && t.pool == pool && r in t.clients
            && (t.clients[r].phase.Leased? <==> c.Some?)
            && (c.Some? ==> t.clients[r].phase.c == c.value.id)
  {
    hide AcquireSpec;
  }

  lemma LendableAt(cfg: Config, s: PoolState, now: real, born: map<ContainerId, real>, i: nat)
    requires TableOk(s) && Aged(s, born) && i < |s.available|
    ensures Fit(cfg, s, now, i) && UsersOf(s, i) == 0 <==> Lendable(cfg, s, born, now, s.available[i].id)
  {
    IndexMembers(s.available);
    assert s.available[i] in s.available;
  }

  lemma LendableIndex(cfg: Config, s: PoolState, now: real, born: map<ContainerId, real>) returns (i: nat)
    requires TableOk(s) && Aged(s, born) && SomeLendable(cfg, s, born, now)
    ensures i < |s.available| && Fit(cfg, s, now, i) && UsersOf(s, i) == 0
  {
    IndexMembers(s.available);
    var c :| Lendable(cfg, s, born, now, c);
    i :| 0 <= i < |s.available| && s.available[i] == s.all[c];
    hide Lendable, Fit, UsersOf, Aged, TableOk, Index;
    LendableAt(cfg, s, now, born, i);
  }

  lemma LendsPooled(cfg: Settings, s: PoolState, now: real, born: map<ContainerId, real>)
    requires TableOk(s) && Aged(s, born)
    ensures var (t, c) := AcquireSpec(cfg.pool, s, now);
            && (c.Some? <==> SomeLendable(cfg.pool, s, born, now))
            && (c.Some? ==> Lendable(cfg.pool, s, born, now, c.value.id))
            && t.target == if c.None? && s.target < cfg.pool.maxSize then s.target + 1 else s.target
  {
    AcquireExactly(cfg.pool, s, now);
    hide AcquireSpec, TableOk, Aged, Lendable, Fit, UsersOf;
    var (t, c) := AcquireSpec(cfg.pool, s, now);
    if c.Some? {
      var i :| 0 <= i < |s.available| && s.available[i] == c.value && Fit(cfg.pool, s, now, i) && UsersOf(s, i) == 0;
      LendableAt(cfg.pool, s, now, born, i);
    } else if SomeLendable(cfg.pool, s, born, now) {
      var i := LendableIndex(cfg.pool, s, now, born);
      assert false;
    }
  }

  /** A request that gets to share a container shares a pooled one created recently enough and
      shared by fewer requests than the limit. */
  lemma SharesYoung(cfg: Settings, start: real, steps: seq<Step>, r: RequestId, now: real)
    requires cfg.pool.Ok() && ValidRun(cfg, Init(cfg, start), steps) && DeliveredHealthy(steps)
    requires Enabled(cfg, After(cfg, start, steps), TryShared(r, now))
    ensures var s := After(cfg, start, steps);
            var t := Apply(cfg, s, TryShared(r, now));
            var born := Births(steps, map[]);
            && r in t.clients
            && (t.clients[r].phase.Sharing? ==>
                  var c := t.clients[r].phase.c;
                  && c in s.pool.all && c in born && now <= born[c] + cfg.pool.maxAge
                  && |SharersOf(s.clients, c)| < cfg.perContainer)
  {
    AgesCountFromCreation(cfg, start, steps);
    AfterInv(cfg, start, steps);
    var s := After(cfg, start, steps);
    hide Run, ValidRun, HoldersOk, LeasesOk, CleanInv, NoSharing, Births;
    SharedByAcquire(cfg, s, r, now);
    SharedPooled(cfg, s.pool, now, Births(steps, map[]));
  }

  lemma SharedByAcquire(cfg: Settings, s: System, r: RequestId, now: real)
    requires Enabled(cfg, s, TryShared(r, now))
    ensures var t := Apply(cfg, s, TryShared(r, now));
            var c := AcquireSharedSpec(cfg.pool, s.pool, cfg.perContainer, now).1;
            && r in t.clients
            && (t.clients[r].phase.Sharing? <==> c.Some?)
            && (c.Some? ==> t.clients[r].phase.c == c.value)
  {
    hide AcquireSharedSpec;
  }

  lemma SharedPooled(cfg: Settings, s: PoolState, now: real, born: map<ContainerId, real>)
    requires TableOk(s) && Aged(s, born)
    ensures var c := AcquireSharedSpec(cfg.pool, s, cfg.perContainer, now).1;
            c.Some? ==>
              && c.value in s.all && c.value in born && now <= born[c.value] + cfg.pool.maxAge
              && Inflight(s.shared, c.value) < cfg.perContainer
  {
    AcquireSharedExactly(cfg.pool, s, cfg.perContainer, now);
    hide AcquireSharedSpec;
    var c := AcquireSharedSpec(cfg.pool, s, cfg.perContainer, now).1;
    if c.Some? {
      var i :| 0 <= i < |s.available| && s.available[i].id == c.value && Fit(cfg.pool, s, now, i) && UsersOf(s, i) < cfg.perContainer;
      IndexMembers(s.available);
      assert s.available[i] in s.available;
    }
  }

  // ---------- Growing and shrinking ----------

  /** The time of the last demand: an acquisition, or a change the background task made to the
      target; `since` is the one before the run. */
  ghost function LastDemand(cfg: Settings, s: System, steps: seq<Step>, since: real): real
    requires ValidRun(cfg, s, steps)
    decreases |steps|
  {
    if steps == [] then since
    else
      var t := Apply(cfg, s, steps[0]);
      LastDemand(cfg, t, steps[1..],
                 match steps[0]
                 case TryShared(_, now) => now
                 case Lease(_, now) => now
                 case HandOut(now) => now
                 case Grow(now) => if t.pool.target != s.pool.target then now else since
                 case LowerTarget(now) => if t.pool.target != s.pool.target then now else since
                 case _ => since)
  }

  lemma DemandStep(cfg: Settings, s: System, step: Step)
    requires Enabled(cfg, s, step)
    ensures var t := Apply(cfg, s, step);
            t.pool.lastDemand == match step
                                 case TryShared(_, now) => now
                                 case Lease(_, now) => now
                                 case HandOut(now) => now
                                 case Grow(now) => if t.pool.target != s.pool.target then now else s.pool.lastDemand
                                 case LowerTarget(now) => if t.pool.target != s.pool.target then now else s.pool.lastDemand
                                 case _ => s.pool.lastDemand
  {
    hide InsideOf, InjectOk, PreloadOk, SkipsPreload, OwnOrOld, FirstFree, LeastLoaded, SumValues, HighWater, Readmits, AddAll, Shrunk, SweptIds;
  }

  lemma {:induction false} DemandReplayed(cfg: Settings, s: System, steps: seq<Step>)
    requires ValidRun(cfg, s, steps)
    ensures Run(cfg, s, steps).pool.lastDemand == LastDemand(cfg, s, steps, s.pool.lastDemand)
    decreases |steps|
  {
    if steps != [] {
      DemandStep(cfg, s, steps[0]);
      hide Apply, Enabled;
      DemandReplayed(cfg, Apply(cfg, s, steps[0]), steps[1..]);
    }
  }

  /** The background task lowers the target exactly if that lies above the minimum and the idle
      time has passed since the last demand; by one, and that counts as demand. */
  lemma LowersExactly(cfg: Settings, start: real, steps: seq<Step>, now: real)
    requires cfg.pool.Ok() && ValidRun(cfg, Init(cfg, start), steps)
    ensures var s := After(cfg, start, steps);
            var t := Apply(cfg, s, LowerTarget(now));
            var last := LastDemand(cfg, Init(cfg, start), steps, start);
            t.pool == if s.pool.target > cfg.pool.minSize && now >= last + cfg.pool.idleShrink
                      then s.pool.(target := s.pool.target - 1, lastDemand := now) else s.pool
  {
    DemandReplayed(cfg, Init(cfg, start), steps);
    hide Run, ValidRun, LastDemand;
  }

  /** The background task raises the target exactly if the pool is not empty and the requests in
      it (sharing or alone), the containers handed out and those destroyed as not reusable come
      to three quarters of what the pool can take; by one, and that counts as demand. */
  lemma GrowsExactly(cfg: Settings, start: real, steps: seq<Step>, now: real)
    requires cfg.pool.Ok() && ValidRun(cfg, Init(cfg, start), steps)
    requires Enabled(cfg, After(cfg, start, steps), Grow(now))
    ensures var s := After(cfg, start, steps);
            var t := Apply(cfg, s, Grow(now));
            var load := |InShared(s.clients)| + |HeldIds(s.clients)| + |s.taken| + Destructions(steps);
            var room := |s.pool.all| * (if cfg.perContainer == 0 then 1 else cfg.perContainer);
            t.pool == if s.pool.all != map[] && 4 * load >= 3 * room
                      then s.pool.(target := s.pool.target + 1, lastDemand := now) else s.pool
  {
    LoadMeasured(cfg, start, steps);
    var s := After(cfg, start, steps);
    hide Run, ValidRun, InShared, HeldIds, SumValues, Destructions;
    GrowEffect(cfg, s, now);
    FiresExactly(s.pool, cfg.perContainer);
  }

  lemma GrowEffect(cfg: Settings, s: System, now: real)
    requires Enabled(cfg, s, Grow(now))
    ensures Apply(cfg, s, Grow(now)).pool
            == if HighWater(s.pool, cfg.perContainer) then s.pool.(target := s.pool.target + 1, lastDemand := now) else s.pool
  {
    hide HighWater;
  }

  lemma FiresExactly(s: PoolState, perContainer: nat)
    ensures HighWater(s, perContainer)
            <==> s.all != map[] && 4 * (SumValues(s.shared) + |s.leased|)
                                   >= 3 * (|s.all| * (if perContainer == 0 then 1 else perContainer))
  {
    var room := |s.all| * Basics.Max(1, perContainer);
    assert 0.75 * (room as real) == (3 * room) as real / 4.0;
  }

  // ---------- Running ----------

  /** A run enters exactly the kernel context it names, the default one for none, unless it was
      isolated in a child; the request's own turn with the container is then over. */
  lemma ExecuteExactly(cfg: Settings, s: System, r: RequestId, outcome: Outcome, after: set<Entry>)
    requires Enabled(cfg, s, Execute(r, outcome, after))
    ensures var t := Apply(cfg, s, Execute(r, outcome, after));
            var c := s.clients[r].phase.c;
            var context := s.clients[r].request.context;
            var entered := if outcome.Isolated? then {} else {if context == "" then "default" else context};
            && t.clients == s.clients[r := s.clients[r].(phase := Ran(c, outcome))]
            && InsideOf(t, c).entered == InsideOf(s, c).entered + entered
            && InsideOf(t, c).dirty == InsideOf(s, c).dirty + entered
            && FilesOf(t, c) == after
  {}

  /** Injecting files or loading tables that raises ends the run; otherwise it goes on to the next
      stage. */
  lemma RaisingEndsTheRun(cfg: Settings, s: System, r: RequestId, checkFailed: bool, raised: bool, how: Transfer, after: set<Entry>)
    ensures Enabled(cfg, s, Inject(r, raised, how, after)) ==>
              var t := Apply(cfg, s, Inject(r, raised, how, after));
              && r in t.clients && (t.clients[r].phase.Ran? <==> raised) && (t.clients[r].phase.Injected? <==> !raised)
              && (raised ==> t.clients[r].phase.outcome.Raised?)
    ensures Enabled(cfg, s, Preload(r, checkFailed, raised, how, after)) ==>
              var t := Apply(cfg, s, Preload(r, checkFailed, raised, how, after));
              var loads := s.clients[r].request.preload != map[] && !SkipsPreload(s, s.clients[r].phase.c, checkFailed);
              && r in t.clients && (t.clients[r].phase.Ran? <==> loads && raised) && (t.clients[r].phase.Ready? <==> !(loads && raised))
              && (loads && raised ==> t.clients[r].phase.outcome.Raised?)
  {}

  /** Shell commands run at once, code goes through files and tables first. */
  predicate StageOk(q: Request, p: Phase) {
    && (q.command ==> !p.Injected? && !p.Ready? && !p.Sharing?)
    && (p.Ran? ==> (p.outcome.Command? <==> q.command))
  }

  ghost predicate StagesOk(s: System) {
    forall r :: r in s.clients ==> StageOk(s.clients[r].request, s.clients[r].phase)
  }

  lemma OwnStage(cfg: Settings, s: System, step: Step, r: RequestId)
    requires Enabled(cfg, s, step) && Mover(step) == Some(r)
    requires r in s.clients ==> StageOk(s.clients[r].request, s.clients[r].phase)
    ensures var t := Apply(cfg, s, step); r in t.clients && StageOk(t.clients[r].request, t.clients[r].phase)
  {
    hide AcquireSpec, AcquireSharedSpec, ReleaseSpec, ReleaseSharedSpec, SweepSpec, ShrinkSpec, ReplenishSpec, GrowSpec, LowerTargetSpec;
    hide InsideOf, InjectOk, PreloadOk, SkipsPreload, OwnOrOld;
  }

  lemma StagesStep(cfg: Settings, s: System, step: Step)
    requires Enabled(cfg, s, step) && StagesOk(s)
    ensures StagesOk(Apply(cfg, s, step))
  {
    SameClients(cfg, s, step);
    hide Apply, Enabled, StageOk;
    var t := Apply(cfg, s, step);
    forall r | r in t.clients ensures StageOk(t.clients[r].request, t.clients[r].phase) {
      if Mover(step) == Some(r) {
        OwnStage(cfg, s, step, r);
      } else {
        OthersStayPut(cfg, s, step, r);
      }
    }
  }

  /** In every reachable state a shell command has no files or tables brought in and ends as a
      command, and nothing else does. */
  lemma {:induction false} StagesKept(cfg: Settings, s: System, steps: seq<Step>)
    requires ValidRun(cfg, s, steps) && StagesOk(s)
    ensures StagesOk(Run(cfg, s, steps))
    decreases |steps|
  {
    if steps != [] {
      hide Apply, Enabled, StagesOk;
      StagesStep(cfg, s, steps[0]);
      StagesKept(cfg, Apply(cfg, s, steps[0]), steps[1..]);
    }
  }
}
