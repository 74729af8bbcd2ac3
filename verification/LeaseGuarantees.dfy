/** What holds of the pool and its stateless requests in every reachable state, for every
    interleaving of requests, sweeps, resizing and sessions (app/infrastructure/container_pool.py,
    app/services/sandbox_execution.py). */
module LeaseGuarantees {
  import opened Basics
  import opened PoolSpec
  import opened DataFiles
  import opened StatelessLease

  /** The system after running the steps from a freshly constructed pool. */
  ghost function After(cfg: Settings, start: real, steps: seq<Step>): System
    requires ValidRun(cfg, Init(cfg, start), steps)
  {
    Run(cfg, Init(cfg, start), steps)
  }

  lemma AfterInv(cfg: Settings, start: real, steps: seq<Step>)
    requires cfg.pool.Ok() && ValidRun(cfg, Init(cfg, start), steps)
    ensures Inv(cfg, After(cfg, start, steps))
  {
    InitInv(cfg, start);
    RunKeepsInv(cfg, Init(cfg, start), steps);
  }

  // ---------- Mutual exclusion ----------

  lemma HolderIsAlone(cfg: Settings, s: System, r: RequestId, q: RequestId)
    requires Inv(cfg, s)
    requires r in s.clients && q in s.clients && r != q && Exclusive(s.clients[r].phase).Some?
    ensures Occupies(s.clients[q].phase) != Exclusive(s.clients[r].phase)
  {
    HeldIsLeased(cfg, s, r);
    if s.clients[q].phase.Sharing? {
      SharedIsPooled(cfg, s, q);
    }
  }

  /** While a request holds a container exclusively no other request is in it. */
  lemma MutualExclusion(cfg: Settings, start: real, steps: seq<Step>, r: RequestId, q: RequestId)
    requires cfg.pool.Ok() && ValidRun(cfg, Init(cfg, start), steps)
    requires var s := After(cfg, start, steps);
             r in s.clients && q in s.clients && r != q && Exclusive(s.clients[r].phase).Some?
    ensures var s := After(cfg, start, steps);
            Occupies(s.clients[q].phase) != Exclusive(s.clients[r].phase)
  {
    AfterInv(cfg, start, steps);
    HolderIsAlone(cfg, After(cfg, start, steps), r, q);
  }

  /** The shared count of a container is the number of requests sharing it, and stays within
      the limit per container. */
  lemma SharedCountExact(cfg: Settings, start: real, steps: seq<Step>, c: ContainerId)
    requires cfg.pool.Ok() && ValidRun(cfg, Init(cfg, start), steps)
    ensures var s := After(cfg, start, steps);
            |SharersOf(s.clients, c)| == Inflight(s.pool.shared, c) <= cfg.perContainer
  {
    AfterInv(cfg, start, steps);
  }

  lemma OthersStayPut(cfg: Settings, s: System, step: Step, r: RequestId)
    requires Enabled(cfg, s, step) && r in s.clients && Mover(step) != Some(r)
    ensures r in Apply(cfg, s, step).clients && Apply(cfg, s, step).clients[r] == s.clients[r]
  {
    hide AcquireSpec, AcquireSharedSpec, ReleaseSpec, ReleaseSharedSpec, SweepSpec, ShrinkSpec, ReplenishSpec, GrowSpec, LowerTargetSpec;
    hide InsideOf, InjectOk, PreloadOk, SkipsPreload, OwnOrOld;
  }

  lemma OccupiedIsAlive(cfg: Settings, s: System, r: RequestId)
    requires Inv(cfg, s) && r in s.clients && Occupies(s.clients[r].phase).Some?
    ensures Occupies(s.clients[r].phase).value in s.alive
  {
    if s.clients[r].phase.Sharing? {
      SharedIsPooled(cfg, s, r);
    } else {
      HeldIsLeased(cfg, s, r);
    }
  }

  /** No sweep, shrink, resize, hand-out or other request destroys a container while a
      request is in it. */
  lemma NobodyElseDestroys(cfg: Settings, start: real, steps: seq<Step>, step: Step, r: RequestId)
    requires cfg.pool.Ok() && ValidRun(cfg, Init(cfg, start), steps)
    requires Enabled(cfg, After(cfg, start, steps), step)
    requires var s := After(cfg, start, steps);
             r in s.clients && Occupies(s.clients[r].phase).Some? && Mover(step) != Some(r)
    ensures var s := After(cfg, start, steps);
            var t := Apply(cfg, s, step);
            && Occupies(s.clients[r].phase).value in t.alive
            && r in t.clients && t.clients[r] == s.clients[r]
  {
    AfterInv(cfg, start, steps);
    var s := After(cfg, start, steps);
    InvStep(cfg, s, step);
    OthersStayPut(cfg, s, step, r);
    OccupiedIsAlive(cfg, Apply(cfg, s, step), r);
  }

  // ---------- Bounds ----------

  /** Lists and dictionary agree, and the elastic bounds hold up to one overshoot. */
  lemma TableAndBounds(cfg: Settings, start: real, steps: seq<Step>)
    requires cfg.pool.Ok() && ValidRun(cfg, Init(cfg, start), steps)
    ensures var s := After(cfg, start, steps);
            && TableOk(s.pool)
            && cfg.pool.minSize <= s.pool.target <= cfg.pool.maxSize + 1
            && |s.pool.available| <= cfg.pool.maxSize + 1
  {
    AfterInv(cfg, start, steps);
  }

  /** Every increment of the proactive scale-up directly follows its test. */
  ghost predicate AtomicGrowth(steps: seq<Step>) {
    forall i :: 0 <= i < |steps| && steps[i].Grow? ==> i > 0 && steps[i - 1].CheckRoom?
  }

  lemma QuietPeak(cfg: Settings, s: System, step: Step)
    requires Enabled(cfg, s, step)
    requires !step.TryShared? && !step.Lease? && !step.HandOut? && !step.Grow? && !step.LowerTarget?
    ensures var t := Apply(cfg, s, step); t.pool.target == s.pool.target && t.peak <= Basics.Max(s.peak, s.pool.target)
  {
    hide FreshFor, Needed, SumValues, SweptIds, CheckedAll, Without, Shrunk, AddAll, Readmits, Distinct, Index;
    hide InsideOf, SkipsPreload, InjectOk, PreloadOk, OwnOrOld;
  }

  lemma SpecTargets(cfg: Settings, s: PoolState, now: real)
    requires s.target <= cfg.pool.maxSize && cfg.pool.Ok()
    ensures AcquireSpec(cfg.pool, s, now).0.target <= cfg.pool.maxSize
    ensures AcquireSharedSpec(cfg.pool, s, cfg.perContainer, now).0.target <= cfg.pool.maxSize
    ensures GrowSpec(s, cfg.perContainer, now).target <= s.target + 1
    ensures LowerTargetSpec(cfg.pool, s, now).target <= cfg.pool.maxSize
  {
    hide FirstFree, LeastLoaded, HighWater;
  }

  lemma LoudPeak(cfg: Settings, s: System, step: Step)
    requires cfg.pool.Ok() && Enabled(cfg, s, step) && s.peak <= cfg.pool.maxSize && s.pool.target <= s.peak
    requires step.TryShared? || step.Lease? || step.HandOut? || step.Grow? || step.LowerTarget?
    requires step.Grow? ==> s.pool.target < cfg.pool.maxSize
    ensures Apply(cfg, s, step).peak <= cfg.pool.maxSize
  {
    hide AcquireSpec, AcquireSharedSpec, GrowSpec, LowerTargetSpec;
    SpecTargets(cfg, s.pool, step.now);
  }

  lemma StepPeak(cfg: Settings, s: System, step: Step)
    requires cfg.pool.Ok() && PoolInv(cfg, s) && Enabled(cfg, s, step) && s.peak <= cfg.pool.maxSize
    requires step.Grow? ==> s.pool.target < cfg.pool.maxSize
    ensures Apply(cfg, s, step).peak <= cfg.pool.maxSize
    ensures step.CheckRoom? ==> Apply(cfg, s, step).pool.target < cfg.pool.maxSize
  {
    assert s.pool.target <= s.peak;
    assert step.CheckRoom? ==> s.pool.target < cfg.pool.maxSize;
    hide Apply, Enabled, PoolInv;
    if step.TryShared? || step.Lease? || step.HandOut? || step.Grow? || step.LowerTarget? {
      LoudPeak(cfg, s, step);
    } else {
      QuietPeak(cfg, s, step);
    }
  }

  lemma {:induction false} RunPeak(cfg: Settings, s: System, steps: seq<Step>)
    requires Inv(cfg, s) && ValidRun(cfg, s, steps) && s.peak <= cfg.pool.maxSize
    requires forall i :: 0 < i < |steps| && steps[i].Grow? ==> steps[i - 1].CheckRoom?
    requires steps != [] && steps[0].Grow? ==> s.pool.target < cfg.pool.maxSize
    ensures Run(cfg, s, steps).peak <= cfg.pool.maxSize
    decreases |steps|
  {
    if steps != [] {
      hide Apply, Enabled, PoolInv, ClientInv, CleanInv, NoSharing;
      var rest := steps[1..];
      InvStep(cfg, s, steps[0]);
      StepPeak(cfg, s, steps[0]);
      assert forall i :: 0 <= i < |rest| ==> rest[i] == steps[i + 1];
      RunPeak(cfg, Apply(cfg, s, steps[0]), rest);
    }
  }

  /** When test and increment are one section the maximum is never exceeded. */
  lemma AtomicGrowthBounds(cfg: Settings, start: real, steps: seq<Step>)
    requires cfg.pool.Ok() && ValidRun(cfg, Init(cfg, start), steps) && AtomicGrowth(steps)
    ensures var s := After(cfg, start, steps);
            s.pool.target <= cfg.pool.maxSize && |s.pool.available| <= cfg.pool.maxSize
  {
    InitInv(cfg, start);
    RunPeak(cfg, Init(cfg, start), steps);
    AfterInv(cfg, start, steps);
  }

  /** Where the code departs from its maximum: exactly when the busy pool had already reached
      it by the time the lock was taken. */
  lemma OvershootExactly(cfg: Settings, start: real, steps: seq<Step>, now: real)
    requires cfg.pool.Ok() && ValidRun(cfg, Init(cfg, start), steps)
    requires Enabled(cfg, After(cfg, start, steps), Grow(now))
    ensures var s := After(cfg, start, steps);
            Apply(cfg, s, Grow(now)).pool.target > cfg.pool.maxSize
            <==> s.pool.target == cfg.pool.maxSize && HighWater(s.pool, cfg.perContainer)
  {
    AfterInv(cfg, start, steps);
  }

  // ---------- Leases ----------

  /** Every lease belongs to one running request, was handed out, or is stale; every container
      the gateway has not destroyed is pooled or leased. */
  lemma NoContainerIsLost(cfg: Settings, start: real, steps: seq<Step>)
    requires cfg.pool.Ok() && ValidRun(cfg, Init(cfg, start), steps)
    ensures var s := After(cfg, start, steps);
            LeasesOk(HeldIds(s.clients), s.pool.all.Keys, s.pool.leased.Keys, s.stale, s.taken, s.alive)
  {
    AfterInv(cfg, start, steps);
  }

  function Destructions(steps: seq<Step>): nat {
    if steps == [] then 0 else (if steps[0].Destroy? then 1 else 0) + Destructions(steps[1..])
  }

  lemma StaleEffect(cfg: Settings, s: System, step: Step)
    requires Enabled(cfg, s, step)
    ensures step.Destroy? ==> Exclusive(s.clients[step.r].phase).Some?
    ensures Apply(cfg, s, step).stale
         == if step.Destroy? then s.stale + {Exclusive(s.clients[step.r].phase).value} else s.stale
  {
    hide AcquireSpec, AcquireSharedSpec, ReleaseSpec, ReleaseSharedSpec, SweepSpec, ShrinkSpec, ReplenishSpec, GrowSpec, LowerTargetSpec, InsideOf, InjectOk, PreloadOk, SkipsPreload;
  }

  lemma StaleStep(cfg: Settings, s: System, step: Step)
    requires Inv(cfg, s) && Enabled(cfg, s, step)
    ensures |Apply(cfg, s, step).stale| == |s.stale| + if step.Destroy? then 1 else 0
  {
    hide Apply, PoolInv, ClientInv, CleanInv, NoSharing;
    StaleEffect(cfg, s, step);
    if step.Destroy? {
      HeldIsLeased(cfg, s, step.r);
    }
  }

  lemma {:induction false} StaleRun(cfg: Settings, s: System, steps: seq<Step>)
    requires Inv(cfg, s) && ValidRun(cfg, s, steps)
    ensures |Run(cfg, s, steps).stale| == |s.stale| + Destructions(steps)
    decreases |steps|
  {
    if steps != [] {
      hide Apply, Enabled, PoolInv, ClientInv, CleanInv, NoSharing;
      InvStep(cfg, s, steps[0]);
      StaleStep(cfg, s, steps[0]);
      StaleRun(cfg, Apply(cfg, s, steps[0]), steps[1..]);
    }
  }

  /** The leases are exactly those in use if and only if no container was ever destroyed as
      not reusable: each such destruction leaves one lease behind for good. */
  lemma LeasesInUseExactly(cfg: Settings, start: real, steps: seq<Step>)
    requires cfg.pool.Ok() && ValidRun(cfg, Init(cfg, start), steps)
    ensures var s := After(cfg, start, steps);
            && |s.stale| == Destructions(steps)
            && |s.pool.leased| == |HeldIds(s.clients)| + |s.taken| + Destructions(steps)
            && (s.pool.leased.Keys == HeldIds(s.clients) + s.taken <==> Destructions(steps) == 0)
  {
    InitInv(cfg, start);
    StaleRun(cfg, Init(cfg, start), steps);
    AfterInv(cfg, start, steps);
    var s := After(cfg, start, steps);
    hide Run, ValidRun, PoolInv, CleanInv, NoSharing, CountsOk, HoldersOk, LeasesOk, HeldIds;
    LeaseCount(HeldIds(s.clients), s.pool.all.Keys, s.pool.leased.Keys, s.stale, s.taken, s.alive);
    assert |s.pool.leased| == |s.pool.leased.Keys|;
  }

  lemma LeaseCount(held: set<ContainerId>, pooled: set<ContainerId>, leased: set<ContainerId>,
                   stale: set<ContainerId>, taken: set<ContainerId>, alive: set<ContainerId>)
    requires LeasesOk(held, pooled, leased, stale, taken, alive)
    ensures |leased| == |held| + |stale| + |taken|
    ensures leased == held + taken <==> |stale| == 0
  {
    assert leased == (held + stale) + taken;
    assert (held + stale) !! taken;
    if leased == held + taken {
      assert stale == {};
    }
  }

  function Sharers(clients: map<RequestId, Client>, ids: set<ContainerId>): set<RequestId> {
    set r | r in clients && clients[r].phase.Sharing? && clients[r].phase.c in ids
  }

  lemma SharersSplit(clients: map<RequestId, Client>, ids: set<ContainerId>, k: ContainerId)
    requires k in ids
    ensures |Sharers(clients, ids)| == |SharersOf(clients, k)| + |Sharers(clients, ids - {k})|
  {
    assert Sharers(clients, ids) == SharersOf(clients, k) + Sharers(clients, ids - {k});
    assert SharersOf(clients, k) !! Sharers(clients, ids - {k});
  }

  lemma {:induction false} SumIsSharers(clients: map<RequestId, Client>, shared: map<ContainerId, nat>)
    requires forall c :: c in shared ==> |SharersOf(clients, c)| == shared[c]
    ensures SumValues(shared) == |Sharers(clients, shared.Keys)|
    decreases |shared|
  {
    if shared == map[] {
      assert Sharers(clients, {}) == {};
    } else {
      var k :| k in shared;
      var rest := shared - {k};
      assert rest.Keys == shared.Keys - {k};
      SumValuesRemove(shared, k);
      assert forall c :: c in rest ==> rest[c] == shared[c];
      SumIsSharers(clients, rest);
      SharersSplit(clients, shared.Keys, k);
    }
  }

  /** The requests in their shared phase. */
  function InShared(clients: map<RequestId, Client>): set<RequestId> {
    set r | r in clients && clients[r].phase.Sharing?
  }

  lemma SharersCounted(cfg: Settings, clients: map<RequestId, Client>, shared: map<ContainerId, nat>)
    requires CountsOk(cfg, clients, shared)
    ensures SumValues(shared) == |InShared(clients)|
  {
    SharedCounts(cfg, clients, shared);
    hide CountsOk, SharersOf, SumValues;
    SumIsSharers(clients, shared);
    assert Sharers(clients, shared.Keys) == InShared(clients);
  }

  lemma SharedCounts(cfg: Settings, clients: map<RequestId, Client>, shared: map<ContainerId, nat>)
    requires CountsOk(cfg, clients, shared)
    ensures forall c :: c in shared ==> |SharersOf(clients, c)| == shared[c]
    ensures forall r :: r in clients && clients[r].phase.Sharing? ==> clients[r].phase.c in shared
  {
    forall c | c in shared ensures |SharersOf(clients, c)| == shared[c] {
      assert |SharersOf(clients, c)| == Inflight(shared, c);
    }
    forall r | r in clients && clients[r].phase.Sharing? ensures clients[r].phase.c in shared {
      var c := clients[r].phase.c;
      assert r in SharersOf(clients, c);
      assert |SharersOf(clients, c)| == Inflight(shared, c);
    }
  }

  /** What the proactive scale-up measures: the requests in flight, shell commands among them,
      plus the containers handed out, plus one for every container destroyed as not reusable. */
  lemma LoadMeasured(cfg: Settings, start: real, steps: seq<Step>)
    requires cfg.pool.Ok() && ValidRun(cfg, Init(cfg, start), steps)
    ensures var s := After(cfg, start, steps);
            SumValues(s.pool.shared) + |s.pool.leased|
            == |InShared(s.clients)| + |HeldIds(s.clients)| + |s.taken| + Destructions(steps)
  {
    hide Run, ValidRun, InShared, HeldIds, CountsOk, HoldersOk, LeasesOk, PoolInv, CleanInv, NoSharing;
    LeasesInUseExactly(cfg, start, steps);
    AfterInv(cfg, start, steps);
    var s := After(cfg, start, steps);
    SharersCounted(cfg, s.clients, s.pool.shared);
  }

  /** On an idle pool the scale-up fires exactly when the containers destroyed as not reusable
      alone reach three quarters of the capacity. */
  lemma IdleGrowthExactly(cfg: Settings, start: real, steps: seq<Step>)
    requires cfg.pool.Ok() && ValidRun(cfg, Init(cfg, start), steps)
    requires var s := After(cfg, start, steps); InShared(s.clients) == {} && HeldIds(s.clients) == {} && s.taken == {}
    ensures var s := After(cfg, start, steps);
            HighWater(s.pool, cfg.perContainer)
            <==> |s.pool.all| > 0
                 && Destructions(steps) as real >= 0.75 * (|s.pool.all| * Basics.Max(1, cfg.perContainer)) as real
  {
    LoadMeasured(cfg, start, steps);
    var s := After(cfg, start, steps);
    hide Run, ValidRun, InShared, HeldIds, SumValues;
    assert |InShared(s.clients)| == 0 && |HeldIds(s.clients)| == 0 && |s.taken| == 0;
  }

  // ---------- Nothing left over ----------

  /** The default namespace of a pooled container is untouched; of the other contexts exactly
      those that some run entered in the kernel's own process are not. Its directory holds
      only what shared requests left since its last cleanup. */
  lemma PooledContainersAreClean(cfg: Settings, start: real, steps: seq<Step>, c: ContainerId)
    requires cfg.pool.Ok() && ValidRun(cfg, Init(cfg, start), steps)
    requires c in After(cfg, start, steps).pool.all
    ensures var i := InsideOf(After(cfg, start, steps), c);
            && (forall x :: x in i.dirty <==> x in i.entered && x != DEFAULT)
            && (i.dirty == {} <==> i.entered <= {DEFAULT})
            && (forall e :: e in i.files ==> e.owner in i.visitors)
            && (!cfg.sharing ==> i.files == {})
  {
    AfterInv(cfg, start, steps);
    var s := After(cfg, start, steps);
    hide Run, ValidRun, PoolInv, ClientInv, RequestsClean, OwnersStarted;
    assert Unspoiled(InsideOf(s, c)) && OnlyVisitors(InsideOf(s, c)) && DirtAccounted(InsideOf(s, c));
    assert !cfg.sharing ==> InsideOf(s, c).visitors == {};
    OnlyOthersDirty(InsideOf(s, c));
  }

  lemma OnlyOthersDirty(i: Inside)
    requires Unspoiled(i) && DirtAccounted(i)
    ensures forall x :: x in i.dirty <==> x in i.entered && x != DEFAULT
    ensures i.dirty == {} <==> i.entered <= {DEFAULT}
  {
    forall x ensures x in i.dirty <==> x in i.entered && x != DEFAULT {
      assert x in i.dirty - {DEFAULT} <==> x in i.entered - {DEFAULT};
    }
  }

  lemma AfterClean(cfg: Settings, start: real, steps: seq<Step>, r: RequestId)
    requires cfg.pool.Ok() && ValidRun(cfg, Init(cfg, start), steps)
    requires r in After(cfg, start, steps).clients && Exclusive(After(cfg, start, steps).clients[r].phase).Some?
    ensures var s := After(cfg, start, steps);
            var i := InsideOf(s, Exclusive(s.clients[r].phase).value);
            CleanFor(i, r, s.clients[r].request, s.clients[r].phase) && (!cfg.sharing ==> i.visitors == {})
  {
    AfterInv(cfg, start, steps);
    var s := After(cfg, start, steps);
    hide Run, ValidRun, PoolInv, ClientInv, CleanFor;
    assert CleanInPhase(s, r, s.clients[r].request, s.clients[r].phase);
  }

  /** With sharing off an exclusive request starts in an empty container and sees only what its
      own files and tables brought until its code runs. */
  lemma OwnDataOnly(cfg: Settings, start: real, steps: seq<Step>, r: RequestId)
    requires cfg.pool.Ok() && !cfg.sharing && ValidRun(cfg, Init(cfg, start), steps)
    requires r in After(cfg, start, steps).clients
    ensures var s := After(cfg, start, steps);
            match s.clients[r].phase
            case Leased(c) => FilesOf(s, c) == {} && Unspoiled(InsideOf(s, c))
            case Injected(c, how) =>
              Copied(r, s.clients[r].request.dataFiles, how, {}, FilesOf(s, c)) && Unspoiled(InsideOf(s, c))
            case Ready(c) => (forall e :: e in FilesOf(s, c) ==> e.owner == r) && Unspoiled(InsideOf(s, c))
            case _ => true
  {
    var s := After(cfg, start, steps);
    hide Run, ValidRun, Copied;
    if Exclusive(s.clients[r].phase).Some? {
      AfterClean(cfg, start, steps, r);
      if s.clients[r].phase.Injected? {
        var i := InsideOf(s, s.clients[r].phase.c);
        assert Own(i.files, r) == i.files;
      }
    }
  }

  /** A parquet entry somebody else left in the container. */
  predicate LeftParquet(s: System, c: ContainerId, r: RequestId) {
    exists e :: e in FilesOf(s, c) && e.owner != r && IsParquet(e.name)
  }

  /** For every setting and in every reachable state: the preloaded tables are skipped exactly
      when the check works and finds a parquet file that landed from the request's own data
      files, or one that somebody else left. The latter was left by a shared request since the
      last cleanup, and is no regular file if the request has data files. */
  lemma PreloadSkippedExactly(cfg: Settings, start: real, steps: seq<Step>, r: RequestId, checkFailed: bool)
    requires cfg.pool.Ok() && ValidRun(cfg, Init(cfg, start), steps)
    requires r in After(cfg, start, steps).clients && After(cfg, start, steps).clients[r].phase.Injected?
    ensures var s := After(cfg, start, steps);
            var (c, how) := (s.clients[r].phase.c, s.clients[r].phase.how);
            var files := s.clients[r].request.dataFiles;
            var own := Own(FilesOf(s, c), r);
            && (SkipsPreload(s, c, checkFailed) <==> !checkFailed && (HasParquet(own) || LeftParquet(s, c, r)))
            && (how.Archive? ==> (HasParquet(own) <==> Brings(files)))
            && (how.Shell? && AllCreated(files, how) && !Wild(files) && Echoes(files) ==> HasParquet(own))
            && (!Wild(files) && HasParquet(own) ==> Brings(files) || Echoes(files))
            && (!Wild(files) && Agrees(files) && AllCreated(files, how) ==> (HasParquet(own) <==> Brings(files)))
            && (forall e :: e in FilesOf(s, c) && e.owner != r ==>
                  e.owner in InsideOf(s, c).visitors && (files != {} ==> !e.regular))
            && (!cfg.sharing ==> !LeftParquet(s, c, r))
  {
    AfterClean(cfg, start, steps, r);
    var s := After(cfg, start, steps);
    hide Run, ValidRun;
    SkipsByOwner(s, s.clients[r].phase.c, r, checkFailed);
    InjectedParquet(InsideOf(s, s.clients[r].phase.c), r, s.clients[r].request, s.clients[r].phase.how);
  }

  lemma SkipsByOwner(s: System, c: ContainerId, r: RequestId, checkFailed: bool)
    ensures SkipsPreload(s, c, checkFailed) <==> !checkFailed && (HasParquet(Own(FilesOf(s, c), r)) || LeftParquet(s, c, r))
  {
    if HasParquet(FilesOf(s, c)) {
      var e :| e in FilesOf(s, c) && IsParquet(e.name);
      assert e.owner == r ==> e in Own(FilesOf(s, c), r);
    }
  }

  lemma InjectedParquet(i: Inside, r: RequestId, q: Request, how: Transfer)
    requires Landed(i, r, q, how)
    ensures var own := HasParquet(Own(i.files, r));
            && (how.Archive? ==> (own <==> Brings(q.dataFiles)))
            && (how.Shell? && AllCreated(q.dataFiles, how) && !Wild(q.dataFiles) && Echoes(q.dataFiles) ==> own)
            && (!Wild(q.dataFiles) && own ==> Brings(q.dataFiles) || Echoes(q.dataFiles))
            && (!Wild(q.dataFiles) && Agrees(q.dataFiles) && AllCreated(q.dataFiles, how) ==> (own <==> Brings(q.dataFiles)))
    ensures forall e :: e in i.files && e.owner != r ==> e.owner in i.visitors && (q.dataFiles != {} ==> !e.regular)
  {
    hide Copied, Brings, Echoes, Wild, HasParquet;
    LandedParquet(r, q.dataFiles, how, {}, Own(i.files, r));
    assert Own(Own(i.files, r), r) == Own(i.files, r);
  }

  /** With sharing off, for every reachable state in which a request is about to inject its data
      files, none with an operator in its name: whatever way they are copied such that all that
      can be created is, the check will find a parquet file exactly when the files bring one, if
      and only if archive and shell agree on them. */
  lemma SkipsAsIntendedExactly(cfg: Settings, start: real, steps: seq<Step>, r: RequestId)
    requires cfg.pool.Ok() && !cfg.sharing && ValidRun(cfg, Init(cfg, start), steps)
    requires var s := After(cfg, start, steps);
             && r in s.clients && s.clients[r].phase.Leased?
             && !s.clients[r].request.command && s.clients[r].request.dataFiles != {}
    ensures var s := After(cfg, start, steps);
            var (c, files) := (s.clients[r].phase.c, s.clients[r].request.dataFiles);
            !Wild(files) ==>
              ((forall how, after :: AllCreated(files, how) && Enabled(cfg, s, Inject(r, false, how, after)) ==>
                  (SkipsPreload(Apply(cfg, s, Inject(r, false, how, after)), c, false) <==> Brings(files)))
               <==> Agrees(files))
  {
    OwnDataOnly(cfg, start, steps, r);
    var s := After(cfg, start, steps);
    var c, files := s.clients[r].phase.c, s.clients[r].request.dataFiles;
    hide Run, ValidRun, Copied, Brings, Agrees, AllCreated, Wild, HasParquet, Enabled, Apply, SkipsPreload, FilesOf;
    forall how, after
      ensures Enabled(cfg, s, Inject(r, false, how, after)) <==> Copied(r, files, how, {}, after)
      ensures Enabled(cfg, s, Inject(r, false, how, after)) ==>
                SkipsPreload(Apply(cfg, s, Inject(r, false, how, after)), c, false) == HasParquet(after)
    {
      InjectingEffect(cfg, s, r, how, after);
    }
    ParquetExactly(r, files);
  }

  lemma InjectingEffect(cfg: Settings, s: System, r: RequestId, how: Transfer, after: set<Entry>)
    requires r in s.clients && s.clients[r].phase.Leased? && FilesOf(s, s.clients[r].phase.c) == {}
    requires !s.clients[r].request.command && s.clients[r].request.dataFiles != {}
    ensures Enabled(cfg, s, Inject(r, false, how, after)) <==> Copied(r, s.clients[r].request.dataFiles, how, {}, after)
    ensures Enabled(cfg, s, Inject(r, false, how, after)) ==>
              SkipsPreload(Apply(cfg, s, Inject(r, false, how, after)), s.clients[r].phase.c, false) == HasParquet(after)
  {
    hide Copied, HasParquet;
    assert Kept({}) == {};
  }

  /** Tables that are not skipped come in beside what was there: all of them through the archive,
      and through the shell if they have content and plain references. */
  lemma TablesInPlace(cfg: Settings, s: System, r: RequestId, checkFailed: bool, how: Transfer, after: set<Entry>)
    requires Enabled(cfg, s, Preload(r, checkFailed, false, how, after))
    requires s.clients[r].request.preload != map[] && !SkipsPreload(s, s.clients[r].phase.c, checkFailed)
    ensures var t := Apply(cfg, s, Preload(r, checkFailed, false, how, after));
            var (c, refs) := (s.clients[r].phase.c, s.clients[r].request.preload);
            && FilesOf(t, c) == after
            && (how.Archive? || PlainRefs(refs) ==> AllTables(r, refs, FilesOf(t, c)))
  {
    var c, refs := s.clients[r].phase.c, s.clients[r].request.preload;
    hide Copied, PlainRefs, AllTables;
    if how.Archive? {
      ArchivedTablesLand(r, refs, FilesOf(s, c), after);
    } else if PlainRefs(refs) {
      PlainTablesLand(r, refs, how, FilesOf(s, c), after);
    }
  }

  /** With sharing off and no data files, and references without operators and options: every way
      of loading the tables that does not raise puts all of them in place, if and only if the
      shell cannot but raise or all tables have content and plain references. The ways are those
      in which the decoder finds no file in the working directory. */
  lemma TablesInPlaceExactly(cfg: Settings, start: real, steps: seq<Step>, r: RequestId)
    requires cfg.pool.Ok() && !cfg.sharing && ValidRun(cfg, Init(cfg, start), steps)
    requires var s := After(cfg, start, steps);
             && r in s.clients && s.clients[r].phase.Injected? && s.clients[r].request.dataFiles == {}
             && s.clients[r].request.preload != map[] && ValidRefs(s.clients[r].request.preload)
    ensures var s := After(cfg, start, steps);
            var (c, refs) := (s.clients[r].phase.c, s.clients[r].request.preload);
            !Wild(Tables(refs)) && NoOptions(refs) ==>
              ((forall how, after :: NothingFed(how) && Enabled(cfg, s, Preload(r, false, false, how, after)) ==>
                  AllTables(r, refs, FilesOf(Apply(cfg, s, Preload(r, false, false, how, after)), c)))
               <==> Raises(refs) || PlainRefs(refs))
  {
    OwnDataOnly(cfg, start, steps, r);
    var s := After(cfg, start, steps);
    var c, refs := s.clients[r].phase.c, s.clients[r].request.preload;
    NothingCopied(r, s.clients[r].phase.how, FilesOf(s, c));
    assert !HasParquet(FilesOf(s, c));
    hide Run, ValidRun, Copied, AllTables, PlainRefs, Raises, NoOptions, NoFailure, NothingFed, Wild, HasParquet, ValidRefs, Enabled, Apply, FilesOf, Tables;
    forall how, after
      ensures Enabled(cfg, s, Preload(r, false, false, how, after)) <==> NoFailure(how) && Copied(r, Tables(refs), how, {}, after)
      ensures Enabled(cfg, s, Preload(r, false, false, how, after)) ==>
                FilesOf(Apply(cfg, s, Preload(r, false, false, how, after)), c) == after
    {
      LoadingEffect(cfg, s, r, how, after);
    }
    TablesExactly(r, refs);
  }

  lemma LoadingEffect(cfg: Settings, s: System, r: RequestId, how: Transfer, after: set<Entry>)
    requires r in s.clients && s.clients[r].phase.Injected? && FilesOf(s, s.clients[r].phase.c) == {}
    requires s.clients[r].request.preload != map[] && ValidRefs(s.clients[r].request.preload)
    ensures Enabled(cfg, s, Preload(r, false, false, how, after))
            <==> NoFailure(how) && Copied(r, Tables(s.clients[r].request.preload), how, {}, after)
    ensures Enabled(cfg, s, Preload(r, false, false, how, after)) ==>
              FilesOf(Apply(cfg, s, Preload(r, false, false, how, after)), s.clients[r].phase.c) == after
  {
    hide Copied, ValidRefs;
  }

  lemma NothingCopied(r: RequestId, how: Transfer, after: set<Entry>)
    requires Copied(r, {}, how, {}, after)
    ensures after == {}
  {
    assert ArchiveNames({}) == {} && Creatable({}) == {} && Targets({}) == {};
  }

  // ---------- Two runs that show where the intended laws fail ----------

  const ONE: Container := Container(1, 0.0, true, 0.0)

  /** A pool of size 0 that may grow to 1 and shares each container with one request. */
  const TINY: Settings := Settings(Config(0, 0, 1, 100.0, 600.0), true, 1)

  const PLAIN: Request := Request({}, map[], "", false)

  /** A run continued by one more step. */
  lemma {:induction false} Extend(cfg: Settings, s: System, steps: seq<Step>, step: Step)
    requires ValidRun(cfg, s, steps) && Enabled(cfg, Run(cfg, s, steps), step)
    ensures ValidRun(cfg, s, steps + [step])
    ensures Run(cfg, s, steps + [step]) == Apply(cfg, Run(cfg, s, steps), step)
    decreases |steps|
  {
    hide Apply, Enabled;
    if steps == [] {
      assert [] + [step] == [step] && [step][1..] == [];
    } else {
      assert (steps + [step])[1..] == steps[1..] + [step];
      Extend(cfg, Apply(cfg, s, steps[0]), steps[1..], step);
    }
  }

  lemma ReplenishOne(s: System)
    requires s.pool.available == [] && s.pool.all == map[] && s.pool.leased == map[] && s.used == {}
    requires s.pool.target == 1 == s.peak && s.alive == {}
    ensures Enabled(TINY, s, Step.Replenish([ONE]))
    ensures Apply(TINY, s, Step.Replenish([ONE]))
         == s.(pool := s.pool.(available := [ONE], all := map[1 := ONE]), alive := {1}, used := {1})
  {
    assert Ids([ONE]) == {1};
    assert AddAll(map[], [ONE]) == map[1 := ONE] by {
      assert [ONE][..0] == [];
    }
  }

  lemma ShareOne(s: System, r: RequestId)
    requires s.pool.available == [ONE] && s.pool.shared == map[] && s.pool.target <= s.peak
    requires r in s.clients && s.clients[r] == Client(PLAIN, Arrived)
    ensures Enabled(TINY, s, TryShared(r, 2.0))
    ensures Apply(TINY, s, TryShared(r, 2.0))
         == s.(clients := s.clients[r := Client(PLAIN, Sharing(1))],
               pool := s.pool.(shared := map[1 := 1], lastDemand := 2.0))
  {
    assert Usable(ONE, 2.0, 100.0);
    assert LeastLoaded([ONE], map[], 2.0, 100.0, 1) == Some(0) by {
      assert [ONE][..0] == [];
    }
  }

  lemma SumOne()
    ensures SumValues(map[1 := 1]) == 1
  {
    var m: map<ContainerId, nat> := map[1 := 1];
    SumValuesRemove(m, 1);
    assert m - {1} == map[];
  }

  /** A miss raises the target to the maximum, a container arrives, and a request takes it. */
  function Warm(): System {
    System(PoolState([ONE], map[1 := ONE], map[], map[], 1, 1.0),
           map[0 := Client(PLAIN, SharedTried), 1 := Client(PLAIN, Arrived)], map[], {1}, {}, {}, {1}, true, 1)
  }

  const WARMUP: seq<Step> := [CheckRoom, Arrive(0, PLAIN), TryShared(0, 1.0), Step.Replenish([ONE]), Arrive(1, PLAIN)]

  lemma WarmUp()
    ensures ValidRun(TINY, Init(TINY, 0.0), WARMUP)
    ensures After(TINY, 0.0, WARMUP) == Warm()
  {
    var s0 := Init(TINY, 0.0);
    var s1 := s0.(checkPassed := true);
    var s2 := s1.(clients := map[0 := Client(PLAIN, Arrived)]);
    var s3 := s2.(clients := map[0 := Client(PLAIN, SharedTried)], pool := s2.pool.(target := 1, lastDemand := 1.0), peak := 1);
    var s4 := s3.(pool := s3.pool.(available := [ONE], all := map[1 := ONE]), alive := {1}, used := {1});
    Extend(TINY, s0, [], CheckRoom);
    var w1 := [] + [CheckRoom];
    assert Apply(TINY, s0, CheckRoom) == s1;
    Extend(TINY, s0, w1, Arrive(0, PLAIN));
    var w2 := w1 + [Arrive(0, PLAIN)];
    assert Apply(TINY, s1, Arrive(0, PLAIN)) == s2;
    Extend(TINY, s0, w2, TryShared(0, 1.0));
    var w3 := w2 + [TryShared(0, 1.0)];
    assert Apply(TINY, s2, TryShared(0, 1.0)) == s3;
    ReplenishOne(s3);
    Extend(TINY, s0, w3, Step.Replenish([ONE]));
    var w4 := w3 + [Step.Replenish([ONE])];
    Extend(TINY, s0, w4, Arrive(1, PLAIN));
    assert Apply(TINY, s4, Arrive(1, PLAIN)) == Warm();
    assert w4 + [Arrive(1, PLAIN)] == WARMUP;
  }

  /** The proactive test passes, a miss then takes the target to its maximum, and the
      increment takes it past it: the bound max + 1 is reached. */
  lemma OvershootHappens()
    ensures exists steps ::
              ValidRun(TINY, Init(TINY, 0.0), steps)
              && After(TINY, 0.0, steps).pool.target == TINY.pool.maxSize + 1
  {
    hide AcquireSharedSpec, ValidRun, Run, WARMUP;
    WarmUp();
    var s5 := Warm();
    ShareOne(s5, 1);
    Extend(TINY, Init(TINY, 0.0), WARMUP, TryShared(1, 2.0));
    var s6 := Apply(TINY, s5, TryShared(1, 2.0));
    SumOne();
    assert HighWater(s6.pool, 1);
    Extend(TINY, Init(TINY, 0.0), WARMUP + [TryShared(1, 2.0)], Grow(3.0));
    assert After(TINY, 0.0, WARMUP + [TryShared(1, 2.0)] + [Grow(3.0)]).pool.target == 2;
  }

  const LEFTOVER: Entry := Entry("x.parquet", 1, true)

  const TABLES: Request := Request({}, map["t" := Bytes(1)], "", false)

  /** After request 1 has shared the container and left a parquet file in it. */
  function Littered(): System {
    Warm().(clients := Warm().clients[1 := Client(PLAIN, Finished)],
            pool := Warm().pool.(lastDemand := 2.0),
            inside := map[1 := Inside({LEFTOVER}, {1}, {}, {})])
  }

  const LITTER: seq<Step> := WARMUP + [TryShared(1, 2.0)] + [RunShared(1, {LEFTOVER})] + [EndShared(1)]

  lemma Litter()
    ensures ValidRun(TINY, Init(TINY, 0.0), LITTER)
    ensures After(TINY, 0.0, LITTER) == Littered()
  {
    hide AcquireSharedSpec;
    WarmUp();
    var s0, s5 := Init(TINY, 0.0), Warm();
    ShareOne(s5, 1);
    var s6 := Apply(TINY, s5, TryShared(1, 2.0));
    assert {} + {1} == {1} && InsideOf(s6, 1) == NEW;
    Extend(TINY, s0, WARMUP, TryShared(1, 2.0));
    var w6 := WARMUP + [TryShared(1, 2.0)];
    Extend(TINY, s0, w6, RunShared(1, {LEFTOVER}));
    var w7 := w6 + [RunShared(1, {LEFTOVER})];
    var s7 := Apply(TINY, s6, RunShared(1, {LEFTOVER}));
    assert s7.inside == map[1 := Inside({LEFTOVER}, {1}, {}, {})];
    Extend(TINY, s0, w7, EndShared(1));
    assert map[1 := 1] - {1} == map[];
  }

  lemma LeaseOne(s: System, r: RequestId)
    requires s.pool == Littered().pool
    requires r in s.clients && s.clients[r] == Client(TABLES, Arrived)
    ensures Enabled(TINY, s, Lease(r, 3.0))
    ensures var t := Apply(TINY, s, Lease(r, 3.0));
            r in t.clients && t.clients[r] == Client(TABLES, Leased(1)) && t.inside == s.inside
  {
    assert "t" in TABLES.preload;
    assert Free(ONE, map[], 3.0, 100.0);
    assert FirstFree(s.pool.available, s.pool.shared, 3.0, 100.0) == Some(0);
  }

  lemma InjectNothing(s: System, r: RequestId)
    requires r in s.clients && s.clients[r] == Client(TABLES, Leased(1))
    ensures Enabled(TINY, s, Inject(r, false, Archive, {}))
    ensures var t := Apply(TINY, s, Inject(r, false, Archive, {}));
            r in t.clients && t.clients[r] == Client(TABLES, Injected(1, Archive)) && t.inside == s.inside
  {}

  lemma ArriveSecond()
    ensures Enabled(TINY, Littered(), Arrive(2, TABLES))
    ensures var t := Apply(TINY, Littered(), Arrive(2, TABLES));
            t.pool == Littered().pool && t.inside == Littered().inside && 2 in t.clients && t.clients[2] == Client(TABLES, Arrived)
  {}

  lemma SkippingRun() returns (steps: seq<Step>)
    ensures ValidRun(TINY, Init(TINY, 0.0), steps)
    ensures var t := After(TINY, 0.0, steps);
            t.inside == Littered().inside && 2 in t.clients && t.clients[2] == Client(TABLES, Injected(1, Archive))
  {
    Litter();
    ArriveSecond();
    hide Apply, Enabled, ValidRun, Run, Littered, Init, LITTER, TABLES, TINY;
    var s0, s8 := Init(TINY, 0.0), Littered();
    Extend(TINY, s0, LITTER, Arrive(2, TABLES));
    var s9 := Apply(TINY, s8, Arrive(2, TABLES));
    var w9 := LITTER + [Arrive(2, TABLES)];
    LeaseOne(s9, 2);
    Extend(TINY, s0, w9, Lease(2, 3.0));
    var s10 := Apply(TINY, s9, Lease(2, 3.0));
    var w10 := w9 + [Lease(2, 3.0)];
    InjectNothing(s10, 2);
    Extend(TINY, s0, w10, Inject(2, false, Archive, {}));
    steps := w10 + [Inject(2, false, Archive, {})];
  }

  lemma LeftoverFound(s: System)
    requires s.inside == Littered().inside
    ensures SkipsPreload(s, 1, false) && !Brings(TABLES.dataFiles)
  {
    assert LEFTOVER in FilesOf(s, 1) && IsParquet(LEFTOVER.name);
    assert ArchiveNames({}) == {};
  }

  /** With sharing on, a parquet file left by a shared request makes the check of the next
      exclusive request succeed: none of its tables is written. */
  lemma SharingSkipsTables()
    ensures exists steps, r, c ::
              && ValidRun(TINY, Init(TINY, 0.0), steps)
              && var s := After(TINY, 0.0, steps);
                 && r in s.clients && s.clients[r].phase == Injected(c, Archive)
                 && SkipsPreload(s, c, false) && !Brings(s.clients[r].request.dataFiles)
  {
    hide *;
    var steps := SkippingRun();
    var s := After(TINY, 0.0, steps);
    LeftoverFound(s);
    assert s.clients[2].phase == Injected(1, Archive);
  }
}
