/** Stateless requests, sweeps and resizing running concurrently over one pool
    (app/services/sandbox_execution.py, app/infrastructure/container_pool.py).

    A `System` is the pool plus its clients and what is inside each container. Every section
    the source runs without giving up the pool lock (or the event loop) is one `Step`;
    Docker's answers and the clock are parameters of the step. */
module StatelessLease {
  import opened Basics
  import opened PoolSpec
  import opened DataFiles

  /** A stateless request: code with data files, tables and a kernel context, or a shell command,
      which brings neither. */
  datatype Request = Request(dataFiles: set<DataFile>, preload: map<string, Payload>, context: string, command: bool)

  /** How a run ended: with the kernel reported unhealthy, in a forked child, in the kernel's own
      namespace, with an exception, or as a shell command. */
  datatype Outcome = Unhealthy | Isolated | InProcess | Raised | Command

  datatype Phase =
    | Arrived
    | SharedTried
    | Sharing(c: ContainerId)
    | Leased(c: ContainerId)
    | Injected(c: ContainerId, how: Transfer)
    | Ready(c: ContainerId)
    | Ran(c: ContainerId, outcome: Outcome)
    | Cleaned(c: ContainerId, reusable: bool)
    | OnTemp
    | Finished

  datatype Client = Client(request: Request, phase: Phase)

  datatype Settings = Settings(pool: Config, sharing: bool, perContainer: nat)

  /** What is inside a container: the entries of /data, the shared requests that have used it since
      its last cleanup, the kernel contexts whose namespace an earlier run may have changed, and
      all contexts ever run in the kernel's own namespace. */
  datatype Inside = Inside(files: set<Entry>, visitors: set<RequestId>, dirty: set<string>, entered: set<string>)

  const NEW: Inside := Inside({}, {}, {}, {})

  /** `alive` holds the pool's containers the gateway has not destroyed, `stale` the leases of
      containers destroyed without a release, `taken` those handed out by `acquire` and kept;
      `used` and `peak` remember every id ever delivered and the highest target so far.
      `checkPassed` says that the background task has passed the proactive test but not yet
      taken the lock. */
  datatype System = System(
    pool: PoolState,
    clients: map<RequestId, Client>,
    inside: map<ContainerId, Inside>,
    alive: set<ContainerId>,
    stale: set<ContainerId>,
    taken: set<ContainerId>,
    used: set<ContainerId>,
    checkPassed: bool,
    peak: int)

  datatype Step =
    | Arrive(r: RequestId, request: Request)
    | TryShared(r: RequestId, now: real)
    | RunShared(r: RequestId, after: set<Entry>)
    | EndShared(r: RequestId)
    | Lease(r: RequestId, now: real)
    | Inject(r: RequestId, raised: bool, how: Transfer, after: set<Entry>)
    | Preload(r: RequestId, checkFailed: bool, raised: bool, how: Transfer, after: set<Entry>)
    | Execute(r: RequestId, outcome: Outcome, after: set<Entry>)
    | RunCommand(r: RequestId, after: set<Entry>)
    | Cleanup(r: RequestId, workspaceOk: bool, kernelOk: bool)
    | GiveBack(r: RequestId, healthy: bool, now: real)
    | Destroy(r: RequestId)
    | EndTemp(r: RequestId)
    | HandOut(now: real)
    | Replenish(made: seq<Container>)
    | Sweep(probe: ContainerId -> Probe)
    | CheckRoom
    | Grow(now: real)
    | LowerTarget(now: real)
    | RemoveSurplus

  /** The request whose own step this is. */
  function Mover(step: Step): Option<RequestId> {
    match step
    case Arrive(r, _) => Some(r)
    case TryShared(r, _) => Some(r)
    case RunShared(r, _) => Some(r)
    case EndShared(r) => Some(r)
    case Lease(r, _) => Some(r)
    case Inject(r, _, _, _) => Some(r)
    case Preload(r, _, _, _, _) => Some(r)
    case Execute(r, _, _) => Some(r)
    case RunCommand(r, _) => Some(r)
    case Cleanup(r, _, _) => Some(r)
    case GiveBack(r, _, _) => Some(r)
    case Destroy(r) => Some(r)
    case EndTemp(r) => Some(r)
    case _ => None
  }

  const DEFAULT: string := "default"

  /** The kernel context a request runs in. */
  function ContextOf(q: Request): string {
    if q.context == "" then DEFAULT else q.context
  }

  // ---------- Reading a system ----------

  function InsideOf(s: System, c: ContainerId): Inside {
    if c in s.inside then s.inside[c] else NEW
  }

  function FilesOf(s: System, c: ContainerId): set<Entry> {
    InsideOf(s, c).files
  }

  /** The container a phase holds exclusively. */
  function Exclusive(p: Phase): Option<ContainerId> {
    match p
    case Leased(c) => Some(c)
    case Injected(c, _) => Some(c)
    case Ready(c) => Some(c)
    case Ran(c, _) => Some(c)
    case Cleaned(c, _) => Some(c)
    case _ => None
  }

  /** The container a request is in, shared or exclusive. */
  function Occupies(p: Phase): Option<ContainerId> {
    if p.Sharing? then Some(p.c) else Exclusive(p)
  }

  function SharersOf(clients: map<RequestId, Client>, c: ContainerId): set<RequestId> {
    set r | r in clients && clients[r].phase == Sharing(c)
  }

  function HeldIds(clients: map<RequestId, Client>): set<ContainerId> {
    set r | r in clients && Exclusive(clients[r].phase).Some? :: Exclusive(clients[r].phase).value
  }

  function To(s: System, r: RequestId, p: Phase): System
    requires r in s.clients
  {
    s.(clients := s.clients[r := s.clients[r].(phase := p)])
  }

  function WithPool(s: System, pool: PoolState): System {
    s.(pool := pool, peak := Basics.Max(s.peak, pool.target))
  }

  function WithInside(s: System, c: ContainerId, i: Inside): System {
    s.(inside := s.inside[c := i])
  }

  // ---------- Steps ----------

  /** Whether a stateless request tries the shared path first. */
  predicate Shareable(cfg: Settings, q: Request) {
    cfg.sharing && !q.command && q.dataFiles == {} && q.preload == map[]
  }

  /** Whether `_ensure_materialized_pre_load_parquet` finds a parquet file and writes nothing. */
  predicate SkipsPreload(s: System, c: ContainerId, checkFailed: bool) {
    !checkFailed && HasParquet(FilesOf(s, c))
  }

  ghost predicate Enabled(cfg: Settings, s: System, step: Step) {
    match step
    case Arrive(r, _) => r !in s.clients
    case TryShared(r, _) =>
      r in s.clients && s.clients[r].phase == Arrived && Shareable(cfg, s.clients[r].request)
    case RunShared(r, after) =>
      r in s.clients && s.clients[r].phase.Sharing? && OwnOrOld(r, FilesOf(s, s.clients[r].phase.c), after)
    case EndShared(r) => r in s.clients && s.clients[r].phase.Sharing?
    case Lease(r, _) =>
      && r in s.clients
      && (s.clients[r].phase == SharedTried
          || (s.clients[r].phase == Arrived && !Shareable(cfg, s.clients[r].request)))
    case Inject(r, raised, how, after) =>
      && r in s.clients && s.clients[r].phase.Leased? && !s.clients[r].request.command
      && InjectOk(r, s.clients[r].request, raised, how, FilesOf(s, s.clients[r].phase.c), after)
    case Preload(r, checkFailed, raised, how, after) =>
      && r in s.clients && s.clients[r].phase.Injected?
      && PreloadOk(r, s.clients[r].request, SkipsPreload(s, s.clients[r].phase.c, checkFailed), raised, how,
                   FilesOf(s, s.clients[r].phase.c), after)
    case Execute(r, outcome, after) =>
      && r in s.clients && s.clients[r].phase.Ready? && outcome != Command
      && OwnOrOld(r, FilesOf(s, s.clients[r].phase.c), after)
    case RunCommand(r, after) =>
      && r in s.clients && s.clients[r].phase.Leased? && s.clients[r].request.command
      && OwnOrOld(r, FilesOf(s, s.clients[r].phase.c), after)
    case Cleanup(r, _, _) => r in s.clients && s.clients[r].phase.Ran?
    case GiveBack(r, _, _) => r in s.clients && s.clients[r].phase.Cleaned? && s.clients[r].phase.reusable
    case Destroy(r) => r in s.clients && s.clients[r].phase.Cleaned? && !s.clients[r].phase.reusable
    case EndTemp(r) => r in s.clients && s.clients[r].phase.OnTemp?
    case HandOut(_) => true
    case Replenish(made) =>
      |made| <= Needed(s.pool) && FreshFor(s.pool, made) && Ids(made) !! s.used
    case Sweep(_) => Distinct(s.pool.available)
    case CheckRoom => !s.checkPassed && s.pool.target < cfg.pool.maxSize
    case Grow(_) => s.checkPassed
    case LowerTarget(_) => true
    case RemoveSurplus => Distinct(s.pool.available)
  }

  /** What injecting the data files may do: the regular files go first, then the files come. */
  ghost predicate InjectOk(r: RequestId, q: Request, raised: bool, how: Transfer, before: set<Entry>, after: set<Entry>) {
    if raised then OwnOrOld(r, before, after)
    else q.dataFiles != {} ==> Copied(r, q.dataFiles, how, Kept(before), after)
  }

  /** What loading the tables may do: a write that fails raises, and so does a bad reference. */
  ghost predicate PreloadOk(r: RequestId, q: Request, skips: bool, raised: bool, how: Transfer, before: set<Entry>, after: set<Entry>) {
    if raised then OwnOrOld(r, before, after)
    else q.preload != map[] && !skips ==>
           ValidRefs(q.preload) && NoFailure(how) && Copied(r, Tables(q.preload), how, before, after)
  }

  ghost function Apply(cfg: Settings, s: System, step: Step): System
    requires Enabled(cfg, s, step)
  {
    match step
    case Arrive(r, q) => s.(clients := s.clients[r := Client(q, Arrived)])
    case TryShared(r, now) =>
      var (pool, c) := AcquireSharedSpec(cfg.pool, s.pool, cfg.perContainer, now);
      To(WithPool(s, pool), r, if c.Some? then Sharing(c.value) else SharedTried)
    case RunShared(r, after) =>
      var c := s.clients[r].phase.c;
      var i := InsideOf(s, c);
      WithInside(s, c, i.(files := after, visitors := i.visitors + {r}))
    case EndShared(r) =>
      To(WithPool(s, ReleaseSharedSpec(s.pool, s.clients[r].phase.c)), r, Finished)
    case Lease(r, now) =>
      var (pool, c) := AcquireSpec(cfg.pool, s.pool, now);
      To(WithPool(s, pool), r,
         if c.Some? then Leased(c.value.id) else if s.clients[r].request.command then Finished else OnTemp)
    case Inject(r, raised, how, after) =>
      var c := s.clients[r].phase.c;
      if !raised && s.clients[r].request.dataFiles == {} then To(s, r, Injected(c, Archive))
      else To(WithInside(s, c, InsideOf(s, c).(files := after)), r, if raised then Ran(c, Raised) else Injected(c, how))
    case Preload(r, checkFailed, raised, how, after) =>
      var c := s.clients[r].phase.c;
      if s.clients[r].request.preload == map[] || SkipsPreload(s, c, checkFailed) then To(s, r, Ready(c))
      else To(WithInside(s, c, InsideOf(s, c).(files := after)), r, if raised then Ran(c, Raised) else Ready(c))
    case Execute(r, outcome, after) =>
      var c := s.clients[r].phase.c;
      var x := if outcome == Isolated then {} else {ContextOf(s.clients[r].request)};
      var i := InsideOf(s, c);
      To(WithInside(s, c, i.(files := after, dirty := i.dirty + x, entered := i.entered + x)), r, Ran(c, outcome))
    case RunCommand(r, after) =>
      var c := s.clients[r].phase.c;
      To(WithInside(s, c, InsideOf(s, c).(files := after)), r, Ran(c, Command))
    case Cleanup(r, workspaceOk, kernelOk) =>
      var c := s.clients[r].phase.c;
      var outcome := s.clients[r].phase.outcome;
      if outcome == Unhealthy || !workspaceOk then To(s, r, Cleaned(c, false))
      else
        var i := InsideOf(s, c).(files := {}, visitors := {});
        if outcome == Isolated then To(WithInside(s, c, i), r, Cleaned(c, true))
        else if outcome == Command then To(WithInside(s, c, i), r, Cleaned(c, kernelOk))
        else To(WithInside(s, c, if kernelOk then i.(dirty := i.dirty - {DEFAULT}) else i), r, Cleaned(c, kernelOk))
    case GiveBack(r, healthy, now) =>
      var c := s.clients[r].phase.c;
      var t := WithPool(s, ReleaseSpec(s.pool, c, healthy, now));
      To(if Readmits(s.pool, c, healthy) then t else t.(alive := t.alive - {c}), r, Finished)
    case Destroy(r) =>
      var c := s.clients[r].phase.c;
      To(s.(alive := s.alive - {c}, stale := s.stale + {c}), r, Finished)
    case EndTemp(r) => To(s, r, Finished)
    case HandOut(now) =>
      var (pool, c) := AcquireSpec(cfg.pool, s.pool, now);
      var t := WithPool(s, pool);
      if c.Some? then t.(taken := t.taken + {c.value.id}) else t
    case Replenish(made) =>
      WithPool(s, ReplenishSpec(s.pool, made)).(alive := s.alive + Ids(made), used := s.used + Ids(made))
    case Sweep(probe) =>
      var pool := SweepSpec(cfg.pool, s.pool, probe);
      WithPool(s, pool).(alive := s.alive - (s.pool.all.Keys - pool.all.Keys))
    case CheckRoom => s.(checkPassed := true)
    case Grow(now) =>
      WithPool(s, GrowSpec(s.pool, cfg.perContainer, now)).(checkPassed := false)
    case LowerTarget(now) => WithPool(s, LowerTargetSpec(cfg.pool, s.pool, now))
    case RemoveSurplus =>
      var pool := ShrinkSpec(s.pool);
      WithPool(s, pool).(alive := s.alive - (s.pool.all.Keys - pool.all.Keys))
  }

  function Init(cfg: Settings, now: real): System {
    System(PoolState([], map[], map[], map[], cfg.pool.poolSize, now),
           map[], map[], {}, {}, {}, {}, false, cfg.pool.poolSize)
  }

  ghost predicate ValidRun(cfg: Settings, s: System, steps: seq<Step>)
    decreases |steps|
  {
    steps == [] || (Enabled(cfg, s, steps[0]) && ValidRun(cfg, Apply(cfg, s, steps[0]), steps[1..]))
  }

  ghost function Run(cfg: Settings, s: System, steps: seq<Step>): System
    requires ValidRun(cfg, s, steps)
    decreases |steps|
  {
    if steps == [] then s else Run(cfg, Apply(cfg, s, steps[0]), steps[1..])
  }

  // ---------- Invariants ----------

  /** The pool's own tables and bounds. */
  ghost predicate PoolInv(cfg: Settings, s: System) {
    && TableOk(s.pool)
    && s.pool.all.Keys + s.pool.leased.Keys <= s.used
    && cfg.pool.minSize <= s.pool.target <= s.peak <= cfg.pool.maxSize + 1
    && |s.pool.available| <= s.peak
    && (s.checkPassed ==> s.pool.target <= cfg.pool.maxSize)
  }

  ghost predicate CountsOk(cfg: Settings, clients: map<RequestId, Client>, shared: map<ContainerId, nat>) {
    && (forall c :: |SharersOf(clients, c)| == Inflight(shared, c))
    && (forall c :: Inflight(shared, c) <= cfg.perContainer)
  }

  ghost predicate HoldersOk(clients: map<RequestId, Client>) {
    forall r, q :: r in clients && q in clients && r != q && Exclusive(clients[r].phase).Some?
                   ==> Exclusive(clients[r].phase) != Exclusive(clients[q].phase)
  }

  /** Every lease is held by one request, stale, or handed out; and what is alive is pooled
      or leased. */
  ghost predicate LeasesOk(held: set<ContainerId>, pooled: set<ContainerId>, leased: set<ContainerId>,
                           stale: set<ContainerId>, taken: set<ContainerId>, alive: set<ContainerId>) {
    && leased == held + stale + taken
    && pooled !! leased
    && held !! stale
    && held !! taken
    && stale !! taken
    && alive == pooled + (leased - stale)
  }

  ghost predicate ClientInv(cfg: Settings, s: System) {
    && CountsOk(cfg, s.clients, s.pool.shared)
    && HoldersOk(s.clients)
    && LeasesOk(HeldIds(s.clients), s.pool.all.Keys, s.pool.leased.Keys, s.stale, s.taken, s.alive)
  }

  /** The kernel's default namespace is as it was at the start. */
  predicate Unspoiled(i: Inside) {
    DEFAULT !in i.dirty
  }

  /** Everything in the directory was left by a shared request since the last cleanup. */
  predicate OnlyVisitors(i: Inside) {
    forall e :: e in i.files ==> e.owner in i.visitors
  }

  /** What the data files of r left of its own, beside what it found. */
  ghost predicate Landed(i: Inside, r: RequestId, q: Request, how: Transfer) {
    && Copied(r, q.dataFiles, how, {}, Own(i.files, r))
    && (forall e :: e in i.files && e.owner != r ==> e.owner in i.visitors && (q.dataFiles != {} ==> !e.regular))
  }

  /** What may be inside the container a request holds, in each phase. */
  ghost predicate CleanFor(i: Inside, r: RequestId, q: Request, p: Phase) {
    match p
    case Leased(_) => Unspoiled(i) && OnlyVisitors(i) && Own(i.files, r) == {}
    case Injected(_, how) => Unspoiled(i) && Landed(i, r, q, how)
    case Ready(_) => Unspoiled(i) && forall e :: e in i.files ==> e.owner == r || e.owner in i.visitors
    case Ran(_, outcome) => outcome == Isolated || outcome == Command ==> Unspoiled(i)
    case Cleaned(_, reusable) => reusable ==> Unspoiled(i) && i.files == {} && i.visitors == {}
    case _ => true
  }

  ghost predicate CleanInPhase(s: System, r: RequestId, q: Request, p: Phase) {
    Exclusive(p).Some? ==> CleanFor(InsideOf(s, Exclusive(p).value), r, q, p)
  }

  /** Only contexts other than the default one stay dirty for good. */
  predicate DirtAccounted(i: Inside) {
    i.dirty - {DEFAULT} == i.entered - {DEFAULT}
  }

  /** A request that has not entered any container has left nothing anywhere. */
  predicate Unstarted(s: System, r: RequestId) {
    r in s.clients ==> s.clients[r].phase.Arrived? || s.clients[r].phase.SharedTried?
  }

  ghost predicate PooledClean(s: System) {
    forall c :: c in s.pool.all ==> Unspoiled(InsideOf(s, c)) && OnlyVisitors(InsideOf(s, c))
  }

  ghost predicate RequestsClean(s: System) {
    forall r :: r in s.clients ==> CleanInPhase(s, r, s.clients[r].request, s.clients[r].phase)
  }

  ghost predicate OwnersStarted(s: System) {
    forall c, e :: e in FilesOf(s, c) ==> !Unstarted(s, e.owner)
  }

  ghost predicate CleanInv(s: System) {
    && s.inside.Keys <= s.used
    && PooledClean(s)
    && RequestsClean(s)
    && OwnersStarted(s)
    && (forall c :: DirtAccounted(InsideOf(s, c)))
  }

  /** With sharing switched off nobody ever shares. */
  ghost predicate NoSharing(s: System) {
    && (forall c :: InsideOf(s, c).visitors == {})
    && forall r :: r in s.clients ==> !s.clients[r].phase.Sharing? && !s.clients[r].phase.SharedTried?
  }

  ghost predicate Inv(cfg: Settings, s: System) {
    && cfg.pool.Ok()
    && PoolInv(cfg, s)
    && ClientInv(cfg, s)
    && CleanInv(s)
    && (!cfg.sharing ==> NoSharing(s))
  }

  // ---------- The pool part ----------

  lemma ReleaseSharedKeepsTable(s: PoolState, id: ContainerId)
    requires TableOk(s)
    ensures TableOk(ReleaseSharedSpec(s, id))
  {}

  lemma SharedPoolStep(cfg: Settings, s: System, step: Step)
    requires cfg.pool.Ok() && PoolInv(cfg, s) && Enabled(cfg, s, step)
    requires step.TryShared? || step.EndShared? || step.GiveBack?
    ensures PoolInv(cfg, Apply(cfg, s, step))
  {
    hide TableOk, LeastLoaded, IsLeastLoaded, AllFull;
    match step
    case TryShared(r, now) => AcquireSharedKeepsTable(cfg.pool, s.pool, cfg.perContainer, now);
    case EndShared(r) => ReleaseSharedKeepsTable(s.pool, s.clients[r].phase.c);
    case GiveBack(r, healthy, now) => ReleaseKeepsTable(s.pool, s.clients[r].phase.c, healthy, now);
  }

  lemma SweepPoolStep(cfg: Settings, s: System, step: Step)
    requires cfg.pool.Ok() && PoolInv(cfg, s) && Enabled(cfg, s, step)
    requires step.Sweep? || step.RemoveSurplus?
    ensures PoolInv(cfg, Apply(cfg, s, step))
  {
    match step
    case Sweep(probe) =>
      SweepKeepsTable(cfg.pool, s.pool, probe);
      assert |SweepSpec(cfg.pool, s.pool, probe).available| <= |s.pool.available|;
    case RemoveSurplus => ShrinkKeepsTable(s.pool);
  }

  lemma TargetPoolStep(cfg: Settings, s: System, step: Step)
    requires cfg.pool.Ok() && PoolInv(cfg, s) && Enabled(cfg, s, step)
    requires step.CheckRoom? || step.Grow? || step.LowerTarget?
    ensures PoolInv(cfg, Apply(cfg, s, step))
  {
    hide TableOk, SumValues, Needed, HighWater;
    SameTables(s.pool, Apply(cfg, s, step).pool);
  }

  lemma SameTables(s: PoolState, t: PoolState)
    requires TableOk(s) && t == s.(target := t.target, lastDemand := t.lastDemand)
    ensures TableOk(t)
  {}

  lemma LeasePoolStep(cfg: Settings, s: System, step: Step)
    requires cfg.pool.Ok() && PoolInv(cfg, s) && Enabled(cfg, s, step)
    requires step.Lease? || step.HandOut?
    ensures PoolInv(cfg, Apply(cfg, s, step))
  {
    AcquireKeepsPool(cfg, s, step.now);
  }

  /** Steps inside a container leave the pool alone. */
  lemma InnerPoolStep(cfg: Settings, s: System, step: Step)
    requires PoolInv(cfg, s) && Enabled(cfg, s, step)
    requires step.Arrive? || step.RunShared? || step.Inject? || step.Preload? || step.Execute? || step.RunCommand? || step.Cleanup? || step.Destroy? || step.EndTemp?
    ensures PoolInv(cfg, Apply(cfg, s, step))
  {
    assert Apply(cfg, s, step).pool == s.pool && Apply(cfg, s, step).used == s.used
        && Apply(cfg, s, step).peak == s.peak && Apply(cfg, s, step).checkPassed == s.checkPassed;
    hide Apply, Enabled, TableOk;
  }

  lemma PoolStep(cfg: Settings, s: System, step: Step)
    requires cfg.pool.Ok() && PoolInv(cfg, s) && Enabled(cfg, s, step)
    ensures PoolInv(cfg, Apply(cfg, s, step))
  {
    hide *;
    if step.TryShared? || step.EndShared? || step.GiveBack? {
      SharedPoolStep(cfg, s, step);
    } else if step.Sweep? || step.RemoveSurplus? {
      SweepPoolStep(cfg, s, step);
    } else if step.CheckRoom? || step.Grow? || step.LowerTarget? {
      TargetPoolStep(cfg, s, step);
    } else if step.Lease? || step.HandOut? {
      LeasePoolStep(cfg, s, step);
    } else if step.Replenish? {
      ReplenishKeepsPool(cfg, s, step.made);
    } else {
      InnerPoolStep(cfg, s, step);
    }
  }

  lemma AcquireKeepsPool(cfg: Settings, s: System, now: real)
    requires cfg.pool.Ok() && PoolInv(cfg, s)
    ensures PoolInv(cfg, WithPool(s, AcquireSpec(cfg.pool, s.pool, now).0))
    ensures var (pool, c) := AcquireSpec(cfg.pool, s.pool, now);
            && pool.shared == s.pool.shared
            && (c.Some? ==> && c.value.id in s.pool.all
                            && c.value.id !in s.pool.shared
                            && pool.all.Keys == s.pool.all.Keys - {c.value.id}
                            && pool.leased.Keys == s.pool.leased.Keys + {c.value.id})
            && (c.None? ==> pool.all == s.pool.all && pool.leased == s.pool.leased)
  {
    AcquireKeepsTable(cfg.pool, s.pool, now);
    match FirstFree(s.pool.available, s.pool.shared, now, cfg.pool.maxAge)
    case Some(i) =>
      IndexMembers(s.pool.available);
      assert s.pool.available[i] in s.pool.available;
    case None =>
  }

  lemma ReplenishKeepsPool(cfg: Settings, s: System, made: seq<Container>)
    requires PoolInv(cfg, s) && Enabled(cfg, s, Step.Replenish(made))
    ensures PoolInv(cfg, Apply(cfg, s, Step.Replenish(made)))
    ensures ReplenishSpec(s.pool, made).all.Keys == s.pool.all.Keys + Ids(made)
  {
    ReplenishKeepsTable(s.pool, made);
    IndexMembers(s.pool.available);
    IndexMembers(s.pool.available + made);
    IdsConcat(s.pool.available, made);
  }

  lemma IdsConcat(a: seq<Container>, b: seq<Container>)
    ensures Ids(a + b) == Ids(a) + Ids(b)
  {}

  // ---------- The client part ----------

  lemma MoveSharers(clients: map<RequestId, Client>, r: RequestId, client: Client, c: ContainerId)
    ensures SharersOf(clients[r := client], c)
         == (SharersOf(clients, c) - {r}) + (if client.phase == Sharing(c) then {r} else {})
  {}

  /** What request r held before it is moved. */
  function HeldBy(clients: map<RequestId, Client>, r: RequestId): Option<ContainerId> {
    if r in clients then Exclusive(clients[r].phase) else None
  }

  lemma MoveHolders(clients: map<RequestId, Client>, r: RequestId, client: Client)
    requires HoldersOk(clients)
    requires var c := Exclusive(client.phase); c.Some? ==> c.value !in HeldIds(clients) || c == HeldBy(clients, r)
    ensures HoldersOk(clients[r := client])
    ensures HeldBy(clients, r) == Exclusive(client.phase) ==> HeldIds(clients[r := client]) == HeldIds(clients)
    ensures HeldBy(clients, r).None? && Exclusive(client.phase).Some?
            ==> HeldIds(clients[r := client]) == HeldIds(clients) + {Exclusive(client.phase).value}
    ensures HeldBy(clients, r).Some? && Exclusive(client.phase).None?
            ==> HeldBy(clients, r).value in HeldIds(clients)
                && HeldIds(clients[r := client]) == HeldIds(clients) - {HeldBy(clients, r).value}
  {
    var after := clients[r := client];
    forall q | q in clients && Exclusive(clients[q].phase).Some?
      ensures Exclusive(clients[q].phase).value in HeldIds(clients)
      ensures q != r ==> Exclusive(clients[q].phase).value in HeldIds(after)
    {
      assert q != r ==> after[q] == clients[q];
    }
    if Exclusive(client.phase).Some? {
      assert Exclusive(after[r].phase).value in HeldIds(after);
    }
    forall c | c in HeldIds(after)
      ensures c in HeldIds(clients) || Exclusive(client.phase) == Some(c)
      ensures Exclusive(client.phase).None? ==> HeldBy(clients, r) != Some(c)
    {
      var q :| q in after && Exclusive(after[q].phase).Some? && Exclusive(after[q].phase).value == c;
      assert q != r ==> after[q] == clients[q];
    }
    forall c | c in HeldIds(clients)
      ensures c in HeldIds(after) || HeldBy(clients, r) == Some(c)
    {
      var q :| q in clients && Exclusive(clients[q].phase).Some? && Exclusive(clients[q].phase).value == c;
    }
  }

  /** A step that touches no shared count keeps the counts. */
  lemma CountsUnshared(cfg: Settings, clients: map<RequestId, Client>, shared: map<ContainerId, nat>, r: RequestId, client: Client)
    requires CountsOk(cfg, clients, shared)
    requires r in clients ==> !clients[r].phase.Sharing?
    requires !client.phase.Sharing?
    ensures CountsOk(cfg, clients[r := client], shared)
  {
    forall c ensures |SharersOf(clients[r := client], c)| == Inflight(shared, c) {
      MoveSharers(clients, r, client, c);
      assert SharersOf(clients[r := client], c) == SharersOf(clients, c);
    }
  }

  lemma CountsShare(cfg: Settings, clients: map<RequestId, Client>, shared: map<ContainerId, nat>, r: RequestId, client: Client)
    requires CountsOk(cfg, clients, shared)
    requires r in clients && !clients[r].phase.Sharing? && client.phase.Sharing?
    requires Inflight(shared, client.phase.c) < cfg.perContainer
    ensures CountsOk(cfg, clients[r := client], shared[client.phase.c := Inflight(shared, client.phase.c) + 1])
  {
    var id := client.phase.c;
    var after := shared[id := Inflight(shared, id) + 1];
    forall c
      ensures |SharersOf(clients[r := client], c)| == Inflight(after, c)
      ensures Inflight(after, c) <= cfg.perContainer
    {
      CountsShareAt(cfg, clients, shared, r, client, c);
      assert Inflight(shared, c) <= cfg.perContainer;
    }
  }

  lemma CountsShareAt(cfg: Settings, clients: map<RequestId, Client>, shared: map<ContainerId, nat>, r: RequestId, client: Client, c: ContainerId)
    requires CountsOk(cfg, clients, shared)
    requires r in clients && !clients[r].phase.Sharing? && client.phase.Sharing?
    ensures |SharersOf(clients[r := client], c)|
         == Inflight(shared[client.phase.c := Inflight(shared, client.phase.c) + 1], c)
  {
    MoveSharers(clients, r, client, c);
    assert |SharersOf(clients, c)| == Inflight(shared, c);
    assert r !in SharersOf(clients, c);
    assert SharersOf(clients, c) - {r} == SharersOf(clients, c);
  }

  lemma CountsUnshare(cfg: Settings, clients: map<RequestId, Client>, s: PoolState, r: RequestId, client: Client)
    requires CountsOk(cfg, clients, s.shared)
    requires r in clients && clients[r].phase.Sharing? && !client.phase.Sharing?
    ensures clients[r].phase.c in s.shared
    ensures CountsOk(cfg, clients[r := client], ReleaseSharedSpec(s, clients[r].phase.c).shared)
  {
    var id := clients[r].phase.c;
    assert r in SharersOf(clients, id);
    assert |SharersOf(clients, id)| == Inflight(s.shared, id);
    var after := ReleaseSharedSpec(s, id).shared;
    assert Inflight(after, id) == Inflight(s.shared, id) - 1;
    assert forall c :: c != id ==> Inflight(after, c) == Inflight(s.shared, c);
    forall c ensures |SharersOf(clients[r := client], c)| == Inflight(after, c) {
      MoveSharers(clients, r, client, c);
      if c != id {
        assert r !in SharersOf(clients, c);
        assert SharersOf(clients[r := client], c) == SharersOf(clients, c);
      } else {
        assert SharersOf(clients[r := client], c) == SharersOf(clients, c) - {r};
      }
    }
  }

  /** Moving one request between phases that hold the same container, or none. */
  lemma ClientMove(cfg: Settings, s: System, r: RequestId, p: Phase)
    requires ClientInv(cfg, s) && r in s.clients
    requires !s.clients[r].phase.Sharing? && !p.Sharing?
    requires Exclusive(p) == Exclusive(s.clients[r].phase)
    ensures ClientInv(cfg, To(s, r, p))
  {
    var client := s.clients[r].(phase := p);
    CountsUnshared(cfg, s.clients, s.pool.shared, r, client);
    MoveHolders(s.clients, r, client);
    assert Exclusive(p).Some? ==> Exclusive(p).value in HeldIds(s.clients);
  }

  lemma ArriveKeepsClients(cfg: Settings, s: System, r: RequestId, q: Request)
    requires ClientInv(cfg, s) && r !in s.clients
    ensures ClientInv(cfg, Apply(cfg, s, Arrive(r, q)))
  {
    CountsUnshared(cfg, s.clients, s.pool.shared, r, Client(q, Arrived));
    MoveHolders(s.clients, r, Client(q, Arrived));
  }

  lemma TrySharedEffect(cfg: Settings, s: System, r: RequestId, now: real)
    requires Enabled(cfg, s, TryShared(r, now))
    ensures var t := Apply(cfg, s, TryShared(r, now));
            && r in s.clients && s.clients[r].phase.Arrived? && r in t.clients
            && t.clients == s.clients[r := t.clients[r]]
            && (t.clients[r].phase.Sharing? || t.clients[r].phase.SharedTried?)
            && t.pool.all == s.pool.all && t.pool.leased == s.pool.leased
            && t.stale == s.stale && t.taken == s.taken && t.alive == s.alive
            && (t.clients[r].phase.Sharing? ==>
                  var c := t.clients[r].phase.c;
                  && Inflight(s.pool.shared, c) < cfg.perContainer
                  && t.pool.shared == s.pool.shared[c := Inflight(s.pool.shared, c) + 1])
            && (!t.clients[r].phase.Sharing? ==> t.pool.shared == s.pool.shared)
  {}

  lemma TrySharedCounts(cfg: Settings, s: System, r: RequestId, now: real)
    requires CountsOk(cfg, s.clients, s.pool.shared) && Enabled(cfg, s, TryShared(r, now))
    ensures var t := Apply(cfg, s, TryShared(r, now)); CountsOk(cfg, t.clients, t.pool.shared)
  {
    hide Apply, Enabled, AcquireSharedSpec, CountsOk;
    TrySharedEffect(cfg, s, r, now);
    var client := Apply(cfg, s, TryShared(r, now)).clients[r];
    if client.phase.Sharing? {
      CountsShare(cfg, s.clients, s.pool.shared, r, client);
    } else {
      CountsUnshared(cfg, s.clients, s.pool.shared, r, client);
    }
  }

  lemma TrySharedKeepsClients(cfg: Settings, s: System, r: RequestId, now: real)
    requires ClientInv(cfg, s) && Enabled(cfg, s, TryShared(r, now))
    ensures ClientInv(cfg, Apply(cfg, s, TryShared(r, now)))
  {
    hide Apply, Enabled, AcquireSharedSpec, CountsOk, HoldersOk, LeasesOk, HeldIds, SharersOf, Inflight;
    TrySharedCounts(cfg, s, r, now);
    TrySharedEffect(cfg, s, r, now);
    var client := Apply(cfg, s, TryShared(r, now)).clients[r];
    MoveHolders(s.clients, r, client);
  }

  lemma EndSharedKeepsClients(cfg: Settings, s: System, r: RequestId)
    requires ClientInv(cfg, s) && Enabled(cfg, s, EndShared(r))
    ensures ClientInv(cfg, Apply(cfg, s, EndShared(r)))
  {
    var client := s.clients[r].(phase := Finished);
    hide CountsOk, HoldersOk, HeldIds, LeasesOk;
    CountsUnshare(cfg, s.clients, s.pool, r, client);
    MoveHolders(s.clients, r, client);
  }

  lemma LeaseEffect(cfg: Settings, s: System, r: RequestId, now: real)
    requires Enabled(cfg, s, Lease(r, now))
    ensures var t := Apply(cfg, s, Lease(r, now));
            var (pool, c) := AcquireSpec(cfg.pool, s.pool, now);
            && r in s.clients && Occupies(s.clients[r].phase).None? && r in t.clients
            && t.clients == s.clients[r := t.clients[r]]
            && t.clients[r].phase == (if c.Some? then Leased(c.value.id) else if s.clients[r].request.command then Finished else OnTemp)
            && t.pool == pool
            && t.stale == s.stale && t.taken == s.taken && t.alive == s.alive
  {}

  /** Taking a pooled container out on a lease, for a request or for good. */
  lemma LeasesTake(held: set<ContainerId>, pooled: set<ContainerId>, leased: set<ContainerId>,
                   stale: set<ContainerId>, taken: set<ContainerId>, alive: set<ContainerId>)
    requires LeasesOk(held, pooled, leased, stale, taken, alive)
    ensures forall c :: c in pooled ==> LeasesOk(held + {c}, pooled - {c}, leased + {c}, stale, taken, alive)
    ensures forall c :: c in pooled ==> LeasesOk(held, pooled - {c}, leased + {c}, stale, taken + {c}, alive)
  {
    forall c | c in pooled
      ensures LeasesOk(held + {c}, pooled - {c}, leased + {c}, stale, taken, alive)
      ensures LeasesOk(held, pooled - {c}, leased + {c}, stale, taken + {c}, alive)
    {
    }
  }

  lemma PooledNotHeld(cfg: Settings, s: System)
    requires ClientInv(cfg, s)
    ensures s.pool.all.Keys !! HeldIds(s.clients)
  {
    hide CountsOk, HoldersOk, HeldIds;
  }

  lemma LeaseKeepsClients(cfg: Settings, s: System, r: RequestId, now: real)
    requires cfg.pool.Ok() && PoolInv(cfg, s) && ClientInv(cfg, s) && Enabled(cfg, s, Lease(r, now))
    ensures ClientInv(cfg, Apply(cfg, s, Lease(r, now)))
  {
    hide Apply, Enabled, AcquireSpec, AcquireSharedSpec, PoolInv, TableOk, CountsOk, HoldersOk, LeasesOk, HeldIds, SharersOf;
    LeaseEffect(cfg, s, r, now);
    AcquireKeepsPool(cfg, s, now);
    var client := Apply(cfg, s, Lease(r, now)).clients[r];
    CountsUnshared(cfg, s.clients, s.pool.shared, r, client);
    PooledNotHeld(cfg, s);
    MoveHolders(s.clients, r, client);
    LeasesTake(HeldIds(s.clients), s.pool.all.Keys, s.pool.leased.Keys, s.stale, s.taken, s.alive);
  }

  lemma TakeEffect(cfg: Settings, s: System, now: real)
    ensures var t := Apply(cfg, s, HandOut(now));
            var (pool, c) := AcquireSpec(cfg.pool, s.pool, now);
            && t.pool == pool && t.clients == s.clients && t.stale == s.stale && t.alive == s.alive
            && t.taken == if c.Some? then s.taken + {c.value.id} else s.taken
  {}

  lemma TakeKeepsClients(cfg: Settings, s: System, now: real)
    requires cfg.pool.Ok() && PoolInv(cfg, s) && ClientInv(cfg, s)
    ensures ClientInv(cfg, Apply(cfg, s, HandOut(now)))
  {
    hide Apply, Enabled, AcquireSpec, AcquireSharedSpec, PoolInv, TableOk, CountsOk, HoldersOk, LeasesOk, HeldIds, SharersOf;
    TakeEffect(cfg, s, now);
    AcquireKeepsPool(cfg, s, now);
    LeasesTake(HeldIds(s.clients), s.pool.all.Keys, s.pool.leased.Keys, s.stale, s.taken, s.alive);
  }

  lemma GiveBackEffect(cfg: Settings, s: System, r: RequestId, healthy: bool, now: real)
    requires Enabled(cfg, s, GiveBack(r, healthy, now))
    requires s.pool.all.Keys !! s.pool.leased.Keys
    requires s.clients[r].phase.c in s.pool.leased
    ensures var t := Apply(cfg, s, GiveBack(r, healthy, now));
            var c := s.clients[r].phase.c;
            && t.clients == s.clients[r := s.clients[r].(phase := Finished)]
            && t.pool.shared == s.pool.shared && t.stale == s.stale && t.taken == s.taken
            && t.pool.leased.Keys == s.pool.leased.Keys - {c}
            && (if Readmits(s.pool, c, healthy)
                then t.alive == s.alive && t.pool.all.Keys == s.pool.all.Keys + {c}
                else t.alive == s.alive - {c} && t.pool.all == s.pool.all)
  {}

  lemma HeldIsLeased(cfg: Settings, s: System, r: RequestId)
    requires ClientInv(cfg, s) && r in s.clients && Exclusive(s.clients[r].phase).Some?
    ensures var c := Exclusive(s.clients[r].phase).value;
            c in HeldIds(s.clients) && c in s.pool.leased && c in s.alive && c !in s.pool.all && c !in s.stale
    ensures s.pool.all.Keys !! s.pool.leased.Keys
  {
    hide CountsOk, HoldersOk;
  }

  /** Ending a lease, with the container back in the pool or gone. */
  lemma LeasesGiveBack(held: set<ContainerId>, pooled: set<ContainerId>, leased: set<ContainerId>,
                       stale: set<ContainerId>, taken: set<ContainerId>, alive: set<ContainerId>, c: ContainerId)
    requires LeasesOk(held, pooled, leased, stale, taken, alive) && c in held
    ensures LeasesOk(held - {c}, pooled + {c}, leased - {c}, stale, taken, alive)
    ensures LeasesOk(held - {c}, pooled, leased - {c}, stale, taken, alive - {c})
  {}

  lemma GiveBackKeepsClients(cfg: Settings, s: System, r: RequestId, healthy: bool, now: real)
    requires ClientInv(cfg, s) && Enabled(cfg, s, GiveBack(r, healthy, now))
    ensures ClientInv(cfg, Apply(cfg, s, GiveBack(r, healthy, now)))
  {
    assert r in s.clients && s.clients[r].phase.Cleaned?;
    HeldIsLeased(cfg, s, r);
    hide Apply, Enabled, ReleaseSpec, Readmits, TableOk, CountsOk, HoldersOk, LeasesOk, HeldIds, SharersOf;
    LeasesGiveBack(HeldIds(s.clients), s.pool.all.Keys, s.pool.leased.Keys, s.stale, s.taken, s.alive, s.clients[r].phase.c);
    GiveBackEffect(cfg, s, r, healthy, now);
    var client := Apply(cfg, s, GiveBack(r, healthy, now)).clients[r];
    CountsUnshared(cfg, s.clients, s.pool.shared, r, client);
    MoveHolders(s.clients, r, client);
  }

  lemma DestroyKeepsClients(cfg: Settings, s: System, r: RequestId)
    requires ClientInv(cfg, s) && Enabled(cfg, s, Destroy(r))
    ensures ClientInv(cfg, Apply(cfg, s, Destroy(r)))
  {
    HeldIsLeased(cfg, s, r);
    var client := s.clients[r].(phase := Finished);
    hide CountsOk, HoldersOk, HeldIds;
    CountsUnshared(cfg, s.clients, s.pool.shared, r, client);
    MoveHolders(s.clients, r, client);
  }

  lemma BackgroundEffect(cfg: Settings, s: System, step: Step)
    requires Enabled(cfg, s, step)
    requires step.Replenish? || step.Sweep? || step.RemoveSurplus?
    ensures var t := Apply(cfg, s, step);
            && t.clients == s.clients && t.pool.shared == s.pool.shared && t.pool.leased == s.pool.leased
            && t.stale == s.stale && t.taken == s.taken
  {}

  lemma BackgroundKeepsClients(cfg: Settings, s: System, step: Step)
    requires cfg.pool.Ok() && PoolInv(cfg, s) && ClientInv(cfg, s) && Enabled(cfg, s, step)
    requires step.Replenish? || step.Sweep? || step.RemoveSurplus?
    ensures ClientInv(cfg, Apply(cfg, s, step))
  {
    hide Apply, Enabled, TableOk, CountsOk, HoldersOk, HeldIds;
    BackgroundEffect(cfg, s, step);
    BackgroundPooled(cfg, s, step);
  }

  /** A background step changes what is pooled exactly as it changes what is alive. */
  ghost predicate SameChange(s: System, t: System) {
    && t.alive == s.alive - (s.pool.all.Keys - t.pool.all.Keys) + (t.pool.all.Keys - s.pool.all.Keys)
    && (t.pool.all.Keys - s.pool.all.Keys) !! s.used
    && s.pool.shared.Keys <= t.pool.all.Keys
  }

  lemma BackgroundPooled(cfg: Settings, s: System, step: Step)
    requires cfg.pool.Ok() && PoolInv(cfg, s) && Enabled(cfg, s, step)
    requires step.Replenish? || step.Sweep? || step.RemoveSurplus?
    ensures SameChange(s, Apply(cfg, s, step))
  {
    match step
    case Replenish(made) => ReplenishPooled(cfg, s, made);
    case Sweep(probe) => SweepPooled(cfg, s, probe);
    case RemoveSurplus => SurplusPooled(cfg, s);
  }

  lemma ReplenishPooled(cfg: Settings, s: System, made: seq<Container>)
    requires PoolInv(cfg, s) && Enabled(cfg, s, Step.Replenish(made))
    ensures SameChange(s, Apply(cfg, s, Step.Replenish(made)))
  {
    hide Distinct, AddAll;
    ReplenishKeepsPool(cfg, s, made);
  }

  lemma RemovalEffect(cfg: Settings, s: System, step: Step)
    requires Distinct(s.pool.available) && (step.Sweep? || step.RemoveSurplus?)
    ensures var t := Apply(cfg, s, step);
            && t.pool == (if step.Sweep? then SweepSpec(cfg.pool, s.pool, step.probe) else ShrinkSpec(s.pool))
            && t.alive == s.alive - (s.pool.all.Keys - t.pool.all.Keys)
  {
    hide SweepSpec, ShrinkSpec, Distinct;
  }

  lemma SharedInTable(s: PoolState)
    requires TableOk(s)
    ensures Distinct(s.available) && s.shared.Keys <= s.all.Keys
  {}

  lemma SweepPooled(cfg: Settings, s: System, probe: ContainerId -> Probe)
    requires TableOk(s.pool)
    ensures SameChange(s, Apply(cfg, s, Step.Sweep(probe)))
  {
    hide TableOk, Distinct, SweptIds, CheckedAll, Without, Index, Apply;
    SharedInTable(s.pool);
    RemovalEffect(cfg, s, Step.Sweep(probe));
    assert SweepSpec(cfg.pool, s.pool, probe).shared == s.pool.shared;
    SweepKeepsTable(cfg.pool, s.pool, probe);
    SharedInTable(SweepSpec(cfg.pool, s.pool, probe));
  }

  lemma SurplusPooled(cfg: Settings, s: System)
    requires TableOk(s.pool)
    ensures SameChange(s, Apply(cfg, s, RemoveSurplus))
  {
    hide TableOk, Distinct, ShrinkSpec, Apply;
    SharedInTable(s.pool);
    RemovalEffect(cfg, s, RemoveSurplus);
    ShrinkKeepsTable(s.pool);
  }

  /** Steps that keep a request's container, or move a request that holds none. */
  lemma InnerEffect(cfg: Settings, s: System, step: Step)
    requires Enabled(cfg, s, step)
    requires step.Inject? || step.Preload? || step.Execute? || step.RunCommand? || step.Cleanup? || step.EndTemp?
    ensures var t := Apply(cfg, s, step);
            && step.r in s.clients && step.r in t.clients
            && t.clients == s.clients[step.r := s.clients[step.r].(phase := t.clients[step.r].phase)]
            && t.pool == s.pool && t.stale == s.stale && t.taken == s.taken && t.alive == s.alive
            && Exclusive(t.clients[step.r].phase) == Exclusive(s.clients[step.r].phase)
            && !t.clients[step.r].phase.Sharing? && !s.clients[step.r].phase.Sharing?
  {
    hide InsideOf, SkipsPreload, InjectOk, PreloadOk, OwnOrOld;
  }

  lemma InnerKeepsClients(cfg: Settings, s: System, step: Step)
    requires ClientInv(cfg, s) && Enabled(cfg, s, step)
    requires step.Inject? || step.Preload? || step.Execute? || step.RunCommand? || step.Cleanup? || step.EndTemp?
    ensures ClientInv(cfg, Apply(cfg, s, step))
  {
    hide Apply, Enabled, CountsOk, HoldersOk, LeasesOk, HeldIds;
    InnerEffect(cfg, s, step);
    ClientMove(cfg, s, step.r, Apply(cfg, s, step).clients[step.r].phase);
  }

  lemma QuietKeepsClients(cfg: Settings, s: System, step: Step)
    requires ClientInv(cfg, s) && Enabled(cfg, s, step)
    requires step.RunShared? || step.CheckRoom? || step.Grow? || step.LowerTarget?
    ensures ClientInv(cfg, Apply(cfg, s, step))
  {
    hide CountsOk, HoldersOk, LeasesOk, HeldIds;
  }

  lemma ClientStep(cfg: Settings, s: System, step: Step)
    requires cfg.pool.Ok() && PoolInv(cfg, s) && ClientInv(cfg, s) && Enabled(cfg, s, step)
    ensures ClientInv(cfg, Apply(cfg, s, step))
  {
    assert step.Arrive? ==> step.r !in s.clients;
    hide *;
    match step
    case Arrive(r, q) => ArriveKeepsClients(cfg, s, r, q);
    case TryShared(r, now) => TrySharedKeepsClients(cfg, s, r, now);
    case EndShared(r) => EndSharedKeepsClients(cfg, s, r);
    case Lease(r, now) => LeaseKeepsClients(cfg, s, r, now);
    case GiveBack(r, healthy, now) => GiveBackKeepsClients(cfg, s, r, healthy, now);
    case Destroy(r) => DestroyKeepsClients(cfg, s, r);
    case HandOut(now) => TakeKeepsClients(cfg, s, now);
    case Replenish(made) => BackgroundKeepsClients(cfg, s, step);
    case Sweep(probe) => BackgroundKeepsClients(cfg, s, step);
    case RemoveSurplus => BackgroundKeepsClients(cfg, s, step);
    case Inject(_, _, _, _) => InnerKeepsClients(cfg, s, step);
    case Preload(_, _, _, _, _) => InnerKeepsClients(cfg, s, step);
    case Execute(_, _, _) => InnerKeepsClients(cfg, s, step);
    case RunCommand(_, _) => InnerKeepsClients(cfg, s, step);
    case Cleanup(_, _, _) => InnerKeepsClients(cfg, s, step);
    case EndTemp(_) => InnerKeepsClients(cfg, s, step);
    case _ => QuietKeepsClients(cfg, s, step);
  }

  // ---------- What is left inside a container ----------

  /** A step inside the container that request r holds: nobody else's container changes, and
      what it leaves is clean for r's next phase. */
  ghost predicate InsideEffect(s: System, t: System, r: RequestId) {
    && r in s.clients && r in t.clients && Exclusive(s.clients[r].phase).Some?
    && t.clients == s.clients[r := s.clients[r].(phase := t.clients[r].phase)]
    && !Unstarted(t, r)
    && CleanInPhase(t, r, t.clients[r].request, t.clients[r].phase)
    && (var c := Exclusive(s.clients[r].phase).value;
        && t.inside.Keys <= s.inside.Keys + {c}
        && (forall d :: d != c ==> InsideOf(t, d) == InsideOf(s, d))
        && OwnOrOld(r, FilesOf(s, c), FilesOf(t, c))
        && (DirtAccounted(InsideOf(s, c)) ==> DirtAccounted(InsideOf(t, c))))
    && t.used == s.used && t.pool == s.pool
  }

  lemma InjectLands(i: Inside, r: RequestId, q: Request, how: Transfer, after: set<Entry>)
    requires OnlyVisitors(i) && Own(i.files, r) == {} && InjectOk(r, q, false, how, i.files, after)
    ensures if q.dataFiles == {} then Landed(i, r, q, Archive) else Landed(i.(files := after), r, q, how)
  {
    forall e | e in i.files ensures e.owner != r {
      assert e !in Own(i.files, r);
    }
    hide OnlyVisitors;
    if q.dataFiles == {} {
      assert OnlyVisitors(i);
      NothingLanded(i, r, q);
    } else {
      OwnCopied(r, q.dataFiles, how, Kept(i.files), after);
      assert OnlyVisitors(i);
      OthersKept(i, r, q, how, after);
    }
  }

  lemma NothingLanded(i: Inside, r: RequestId, q: Request)
    requires OnlyVisitors(i) && Own(i.files, r) == {} && q.dataFiles == {}
    ensures Landed(i, r, q, Archive)
  {}

  /** Of its own, a request has exactly what was copied. */
  lemma OwnCopied(r: RequestId, files: set<DataFile>, how: Transfer, before: set<Entry>, after: set<Entry>)
    requires Copied(r, files, how, before, after) && forall e :: e in before ==> e.owner != r
    ensures Copied(r, files, how, {}, Own(after, r))
  {
    hide ArchiveNames, Creatable, Targets, Wild, Echoed, HasOperand;
    if how.Archive? {
      assert Own(after, r) == {} + Entries(r, ArchiveNames(files));
    } else if !Wild(files) {
      assert Own(after, r) == {} + Entries(r, how.partial + Targets(how.created));
    }
  }

  lemma OthersKept(i: Inside, r: RequestId, q: Request, how: Transfer, after: set<Entry>)
    requires OnlyVisitors(i) && q.dataFiles != {} && InjectOk(r, q, false, how, i.files, after)
    ensures forall e :: e in after && e.owner != r ==> e.owner in i.visitors && !e.regular
  {
    CopiedIsOwn(r, q.dataFiles, how, Kept(i.files), after);
    hide Copied;
  }

  /** What a step puts into r's container, told by the new contents alone. */
  lemma Changes(s: System, r: RequestId, i: Inside, p: Phase)
    requires r in s.clients && Exclusive(s.clients[r].phase).Some? && Exclusive(p) == Exclusive(s.clients[r].phase)
    requires var was := InsideOf(s, Exclusive(p).value);
             OwnOrOld(r, was.files, i.files) && (DirtAccounted(was) ==> DirtAccounted(i))
    requires CleanFor(i, r, s.clients[r].request, p)
    ensures InsideEffect(s, To(WithInside(s, Exclusive(p).value, i), r, p), r)
  {
    hide CleanFor, OwnOrOld, DirtAccounted;
  }

  lemma Stays(s: System, r: RequestId, p: Phase)
    requires r in s.clients && Exclusive(s.clients[r].phase).Some? && Exclusive(p) == Exclusive(s.clients[r].phase)
    requires CleanFor(InsideOf(s, Exclusive(p).value), r, s.clients[r].request, p)
    ensures InsideEffect(s, To(s, r, p), r)
  {
    hide CleanFor, DirtAccounted;
  }

  lemma InjectClean(cfg: Settings, s: System, step: Step)
    requires Enabled(cfg, s, step) && step.Inject?
    requires CleanInPhase(s, step.r, s.clients[step.r].request, s.clients[step.r].phase)
    ensures InsideEffect(s, Apply(cfg, s, step), step.r)
  {
    var r, q, c := step.r, s.clients[step.r].request, s.clients[step.r].phase.c;
    var i := InsideOf(s, c);
    hide OnlyVisitors, Own, Copied, Landed, Kept, InsideEffect, OwnOrOld;
    if step.raised {
      RaisedIsOwn(r, q, step.how, i.files, step.after);
      Changes(s, r, i.(files := step.after), Ran(c, Raised));
    } else {
      InjectLands(i, r, q, step.how, step.after);
      hide InjectOk;
      if q.dataFiles == {} {
        Stays(s, r, Injected(c, Archive));
      } else {
        InjectIsOwn(r, q, step.how, i.files, step.after);
        Changes(s, r, i.(files := step.after), Injected(c, step.how));
      }
    }
  }

  lemma RaisedIsOwn(r: RequestId, q: Request, how: Transfer, before: set<Entry>, after: set<Entry>)
    requires InjectOk(r, q, true, how, before, after)
    ensures OwnOrOld(r, before, after)
  {}

  lemma InjectIsOwn(r: RequestId, q: Request, how: Transfer, before: set<Entry>, after: set<Entry>)
    requires InjectOk(r, q, false, how, before, after)
    ensures q.dataFiles != {} ==> OwnOrOld(r, before, after)
  {
    if q.dataFiles != {} {
      CopiedIsOwn(r, q.dataFiles, how, Kept(before), after);
    }
  }

  lemma PreloadIsOwn(r: RequestId, q: Request, skips: bool, raised: bool, how: Transfer, before: set<Entry>, after: set<Entry>)
    requires PreloadOk(r, q, skips, raised, how, before, after)
    ensures q.preload != map[] && !skips ==> OwnOrOld(r, before, after)
  {
    if !raised && q.preload != map[] && !skips {
      CopiedIsOwn(r, Tables(q.preload), how, before, after);
    }
  }

  lemma PreloadClean(cfg: Settings, s: System, step: Step)
    requires Enabled(cfg, s, step) && step.Preload?
    requires CleanInPhase(s, step.r, s.clients[step.r].request, s.clients[step.r].phase)
    ensures InsideEffect(s, Apply(cfg, s, step), step.r)
  {
    var r, q, c := step.r, s.clients[step.r].request, s.clients[step.r].phase.c;
    var i := InsideOf(s, c);
    var skips := SkipsPreload(s, c, step.checkFailed);
    hide Own, Copied, HasParquet, InsideEffect, SkipsPreload;
    PreloadIsOwn(r, q, skips, step.raised, step.how, i.files, step.after);
    hide PreloadOk;
    if q.preload == map[] || skips {
      Stays(s, r, Ready(c));
    } else {
      Changes(s, r, i.(files := step.after), if step.raised then Ran(c, Raised) else Ready(c));
    }
  }

  lemma ExecuteClean(cfg: Settings, s: System, step: Step)
    requires Enabled(cfg, s, step) && (step.Execute? || step.RunCommand?)
    requires CleanInPhase(s, step.r, s.clients[step.r].request, s.clients[step.r].phase)
    ensures InsideEffect(s, Apply(cfg, s, step), step.r)
  {
    var r, c := step.r, s.clients[step.r].phase.c;
    var i := InsideOf(s, c);
    var x := if step.RunCommand? || step.outcome == Isolated then {} else {ContextOf(s.clients[r].request)};
    var p := Ran(c, if step.RunCommand? then Command else step.outcome);
    var j := i.(files := step.after, dirty := i.dirty + x, entered := i.entered + x);
    DirtGrows(i, j, x);
    hide OnlyVisitors, Own, ContextOf, InsideEffect, OwnOrOld, DirtAccounted;
    assert i.dirty + {} == i.dirty && i.entered + {} == i.entered;
    Changes(s, r, j, p);
  }

  lemma DirtGrows(i: Inside, j: Inside, x: set<string>)
    requires j.dirty == i.dirty + x && j.entered == i.entered + x
    ensures DirtAccounted(i) ==> DirtAccounted(j)
  {
    if DirtAccounted(i) {
      assert j.dirty - {DEFAULT} == (i.dirty - {DEFAULT}) + (x - {DEFAULT});
      assert j.entered - {DEFAULT} == (i.entered - {DEFAULT}) + (x - {DEFAULT});
    }
  }

  lemma CleanupClean(cfg: Settings, s: System, step: Step)
    requires Enabled(cfg, s, step) && step.Cleanup?
    requires CleanInPhase(s, step.r, s.clients[step.r].request, s.clients[step.r].phase)
    ensures InsideEffect(s, Apply(cfg, s, step), step.r)
  {
    var r, c, outcome := step.r, s.clients[step.r].phase.c, s.clients[step.r].phase.outcome;
    var i := InsideOf(s, c).(files := {}, visitors := {});
    hide InsideEffect;
    if outcome == Unhealthy || !step.workspaceOk {
      Stays(s, r, Cleaned(c, false));
    } else if outcome == Isolated {
      Changes(s, r, i, Cleaned(c, true));
    } else if outcome == Command || !step.kernelOk {
      Changes(s, r, i, Cleaned(c, step.kernelOk));
    } else {
      var j := i.(dirty := i.dirty - {DEFAULT});
      assert j.dirty - {DEFAULT} == i.dirty - {DEFAULT};
      Changes(s, r, j, Cleaned(c, true));
    }
  }

  lemma InsideIsClean(cfg: Settings, s: System, step: Step)
    requires Enabled(cfg, s, step)
    requires step.Inject? || step.Preload? || step.Execute? || step.RunCommand? || step.Cleanup?
    requires CleanInPhase(s, step.r, s.clients[step.r].request, s.clients[step.r].phase)
    ensures InsideEffect(s, Apply(cfg, s, step), step.r)
  {
    hide Apply, Enabled, CleanInPhase, InsideEffect;
    match step
    case Inject(_, _, _, _) => InjectClean(cfg, s, step);
    case Preload(_, _, _, _, _) => PreloadClean(cfg, s, step);
    case Execute(_, _, _) => ExecuteClean(cfg, s, step);
    case RunCommand(_, _) => ExecuteClean(cfg, s, step);
    case Cleanup(_, _, _) => CleanupClean(cfg, s, step);
  }

  lemma HeldIsUsed(cfg: Settings, s: System, r: RequestId)
    requires PoolInv(cfg, s) && ClientInv(cfg, s) && r in s.clients && Exclusive(s.clients[r].phase).Some?
    ensures Exclusive(s.clients[r].phase).value in s.used
    ensures Exclusive(s.clients[r].phase).value !in s.pool.all
  {
    hide TableOk, CountsOk, HoldersOk;
    HeldIsLeased(cfg, s, r);
  }

  lemma InsideKeepsClean(cfg: Settings, s: System, step: Step)
    requires PoolInv(cfg, s) && ClientInv(cfg, s) && CleanInv(s) && Enabled(cfg, s, step)
    requires step.Inject? || step.Preload? || step.Execute? || step.RunCommand? || step.Cleanup?
    ensures CleanInv(Apply(cfg, s, step))
  {
    hide CleanInPhase, PooledClean, OwnersStarted, DirtAccounted, PoolInv;
    assert step.r in s.clients && CleanInPhase(s, step.r, s.clients[step.r].request, s.clients[step.r].phase);
    assert Exclusive(s.clients[step.r].phase).Some?;
    assert HoldersOk(s.clients);
    hide Apply, Enabled, ClientInv, HoldersOk, CleanInv;
    InsideIsClean(cfg, s, step);
    HeldIsUsed(cfg, s, step.r);
    InsideEffectKeepsClean(s, Apply(cfg, s, step), step.r);
  }

  lemma InsideEffectKeepsClean(s: System, t: System, r: RequestId)
    requires CleanInv(s) && HoldersOk(s.clients) && InsideEffect(s, t, r)
    requires Exclusive(s.clients[r].phase).value in s.used
    requires Exclusive(s.clients[r].phase).value !in s.pool.all
    ensures CleanInv(t)
  {
    hide CleanFor, DirtAccounted, OnlyVisitors, Unspoiled;
    var c := Exclusive(s.clients[r].phase).value;
    forall q | q in t.clients ensures CleanInPhase(t, q, t.clients[q].request, t.clients[q].phase) {
      if q != r {
        assert t.clients[q] == s.clients[q];
        assert CleanInPhase(s, q, s.clients[q].request, s.clients[q].phase);
      }
    }
    assert RequestsClean(t);
    hide RequestsClean, CleanInPhase, HoldersOk;
    forall d | d in t.pool.all ensures Unspoiled(InsideOf(t, d)) && OnlyVisitors(InsideOf(t, d)) {
      assert InsideOf(t, d) == InsideOf(s, d);
    }
    forall d, e | e in FilesOf(t, d) ensures !Unstarted(t, e.owner) {
      if e.owner != r {
        assert e in FilesOf(s, d);
      }
    }
    forall d ensures DirtAccounted(InsideOf(t, d)) {
      assert DirtAccounted(InsideOf(s, d));
    }
  }

  /** A step after which every container holds what it held before. */
  lemma NothingInsideChanges(s: System, t: System, r: RequestId)
    requires CleanInv(s)
    requires t.inside == s.inside && s.used <= t.used
    requires forall q :: q in s.clients && q != r ==> q in t.clients
    requires forall q :: q in t.clients && q != r ==> q in s.clients && t.clients[q] == s.clients[q]
    requires r in t.clients ==> CleanInPhase(t, r, t.clients[r].request, t.clients[r].phase)
    requires Unstarted(t, r) ==> Unstarted(s, r)
    requires PooledClean(t)
    ensures CleanInv(t)
  {
    hide CleanFor, DirtAccounted, OnlyVisitors, Unspoiled;
    forall q | q in t.clients ensures CleanInPhase(t, q, t.clients[q].request, t.clients[q].phase) {
      if q != r {
        assert CleanInPhase(s, q, s.clients[q].request, s.clients[q].phase);
      }
    }
    forall d, e | e in FilesOf(t, d) ensures !Unstarted(t, e.owner) {
      assert e in FilesOf(s, d);
      assert Unstarted(t, e.owner) ==> Unstarted(s, e.owner);
    }
    forall d ensures DirtAccounted(InsideOf(t, d)) {
      assert DirtAccounted(InsideOf(s, d));
    }
  }

  lemma NewIsClean(s: System, c: ContainerId)
    requires c !in s.inside
    ensures Unspoiled(InsideOf(s, c)) && OnlyVisitors(InsideOf(s, c))
  {}

  lemma PooledCleanFrame(s: System, t: System, added: set<ContainerId>)
    requires CleanInv(s) && t.inside == s.inside
    requires t.pool.all.Keys <= s.pool.all.Keys + added && added !! s.used
    ensures PooledClean(t)
  {
    hide RequestsClean, OwnersStarted, DirtAccounted, Unspoiled, OnlyVisitors;
    forall c | c in t.pool.all ensures Unspoiled(InsideOf(t, c)) && OnlyVisitors(InsideOf(t, c)) {
      if c !in s.pool.all {
        assert c in added;
        NewIsClean(s, c);
      }
    }
  }

  lemma MovesKeepClean(cfg: Settings, s: System, step: Step)
    requires CleanInv(s) && Enabled(cfg, s, step)
    requires step.Arrive? || step.TryShared? || step.EndShared? || step.Destroy? || step.EndTemp?
    ensures CleanInv(Apply(cfg, s, step))
  {
    var t := Apply(cfg, s, step);
    MoveEffect(cfg, s, step);
    hide CleanInv, Apply, Enabled, PooledClean, CleanInPhase;
    PooledCleanFrame(s, t, {});
    NothingInsideChanges(s, t, step.r);
  }

  lemma MoveEffect(cfg: Settings, s: System, step: Step)
    requires Enabled(cfg, s, step)
    requires step.Arrive? || step.TryShared? || step.EndShared? || step.Destroy? || step.EndTemp?
    ensures var t := Apply(cfg, s, step);
            && t.inside == s.inside && t.used == s.used && t.pool.all == s.pool.all
            && step.r in t.clients && t.clients == s.clients[step.r := t.clients[step.r]]
            && CleanInPhase(t, step.r, t.clients[step.r].request, t.clients[step.r].phase)
            && (Unstarted(t, step.r) ==> Unstarted(s, step.r))
  {
    hide CleanFor;
  }

  lemma LeaseKeepsClean(cfg: Settings, s: System, r: RequestId, now: real)
    requires cfg.pool.Ok() && PoolInv(cfg, s) && CleanInv(s) && Enabled(cfg, s, Lease(r, now))
    ensures CleanInv(Apply(cfg, s, Lease(r, now)))
  {
    var t := Apply(cfg, s, Lease(r, now));
    assert Unstarted(s, r);
    hide PoolInv, AcquireSpec, Enabled, CleanInv;
    assert t.inside == s.inside && t.used == s.used;
    hide Apply, Unstarted;
    LeaseEffect(cfg, s, r, now);
    AcquireKeepsPool(cfg, s, now);
    PooledCleanFrame(s, t, {});
    if t.clients[r].phase.Leased? {
      PooledIsCleanFor(s, t.clients[r].phase.c, r, t.clients[r].request);
    }
    NothingInsideChanges(s, t, r);
  }

  /** A pooled container is clean for a request that has not entered any container. */
  lemma PooledIsCleanFor(s: System, c: ContainerId, r: RequestId, q: Request)
    requires CleanInv(s) && c in s.pool.all && Unstarted(s, r)
    ensures CleanFor(InsideOf(s, c), r, q, Leased(c))
  {
    forall e | e in FilesOf(s, c) ensures e.owner != r {
      assert !Unstarted(s, e.owner);
    }
    assert Own(FilesOf(s, c), r) == {};
  }

  lemma HandOutKeepsClean(cfg: Settings, s: System, now: real)
    requires cfg.pool.Ok() && PoolInv(cfg, s) && CleanInv(s)
    ensures CleanInv(Apply(cfg, s, HandOut(now)))
  {
    var t := Apply(cfg, s, HandOut(now));
    hide PoolInv, AcquireSpec, Enabled, CleanInv;
    assert t.inside == s.inside && t.used == s.used;
    hide Apply;
    TakeEffect(cfg, s, now);
    AcquireKeepsPool(cfg, s, now);
    PooledCleanFrame(s, t, {});
    NoClientMoves(s, t);
  }

  lemma NoClientMoves(s: System, t: System)
    requires CleanInv(s)
    requires t.inside == s.inside && s.used <= t.used
    requires t.clients == s.clients && PooledClean(t)
    ensures CleanInv(t)
  {
    hide CleanFor, DirtAccounted, OnlyVisitors, Unspoiled;
    forall q | q in t.clients ensures CleanInPhase(t, q, t.clients[q].request, t.clients[q].phase) {
      assert CleanInPhase(s, q, s.clients[q].request, s.clients[q].phase);
    }
    forall d, e | e in FilesOf(t, d) ensures !Unstarted(t, e.owner) {
      assert e in FilesOf(s, d) && !Unstarted(s, e.owner);
    }
    forall d ensures DirtAccounted(InsideOf(t, d)) {
      assert DirtAccounted(InsideOf(s, d));
    }
  }

  lemma GiveBackInside(cfg: Settings, s: System, r: RequestId, healthy: bool, now: real)
    requires CleanInv(s) && Enabled(cfg, s, GiveBack(r, healthy, now))
    ensures var t := Apply(cfg, s, GiveBack(r, healthy, now));
            && r in s.clients && s.clients[r].phase.Cleaned?
            && t.inside == s.inside && t.used == s.used
            && Unspoiled(InsideOf(s, s.clients[r].phase.c)) && OnlyVisitors(InsideOf(s, s.clients[r].phase.c))
  {
    hide ReleaseSpec, Readmits, PooledClean, OwnersStarted, DirtAccounted;
    assert CleanInPhase(s, r, s.clients[r].request, s.clients[r].phase);
  }

  lemma GiveBackKeepsClean(cfg: Settings, s: System, r: RequestId, healthy: bool, now: real)
    requires ClientInv(cfg, s) && CleanInv(s) && Enabled(cfg, s, GiveBack(r, healthy, now))
    ensures CleanInv(Apply(cfg, s, GiveBack(r, healthy, now)))
  {
    hide Apply, ClientInv, Unspoiled, OnlyVisitors, RequestsClean, OwnersStarted, DirtAccounted;
    GiveBackInside(cfg, s, r, healthy, now);
    var t := Apply(cfg, s, GiveBack(r, healthy, now));
    HeldIsLeased(cfg, s, r);
    GiveBackEffect(cfg, s, r, healthy, now);
    hide Enabled;
    forall d | d in t.pool.all ensures Unspoiled(InsideOf(t, d)) && OnlyVisitors(InsideOf(t, d)) {
      assert d == s.clients[r].phase.c || d in s.pool.all;
    }
    hide CleanInv;
    NothingInsideChanges(s, t, r);
  }

  lemma RunSharedKeepsClean(cfg: Settings, s: System, r: RequestId, after: set<Entry>)
    requires PoolInv(cfg, s) && ClientInv(cfg, s) && CleanInv(s) && Enabled(cfg, s, RunShared(r, after))
    ensures CleanInv(Apply(cfg, s, RunShared(r, after)))
  {
    var t := Apply(cfg, s, RunShared(r, after));
    var c := s.clients[r].phase.c;
    SharedIsPooled(cfg, s, r);
    assert s.pool.all.Keys !! HeldIds(s.clients) by { PooledNotHeld(cfg, s); }
    assert c in s.used;
    hide PoolInv, ClientInv;
    SharedEffectKeepsClean(s, t, r, c, after);
  }

  lemma SharedEffectKeepsClean(s: System, t: System, r: RequestId, c: ContainerId, after: set<Entry>)
    requires CleanInv(s) && c in s.pool.all && c in s.used && s.pool.all.Keys !! HeldIds(s.clients)
    requires r in s.clients && s.clients[r].phase == Sharing(c) && OwnOrOld(r, FilesOf(s, c), after)
    requires t == WithInside(s, c, InsideOf(s, c).(files := after, visitors := InsideOf(s, c).visitors + {r}))
    ensures CleanInv(t)
  {
    hide CleanFor;
    forall d ensures d != c ==> InsideOf(t, d) == InsideOf(s, d) {
    }
    forall q | q in t.clients ensures CleanInPhase(t, q, t.clients[q].request, t.clients[q].phase) {
      assert CleanInPhase(s, q, s.clients[q].request, s.clients[q].phase);
      if Exclusive(s.clients[q].phase).Some? {
        assert Exclusive(s.clients[q].phase).value in HeldIds(s.clients);
      }
    }
    forall d, e | e in FilesOf(t, d) ensures !Unstarted(t, e.owner) {
      if e.owner != r {
        assert e in FilesOf(s, d);
      }
    }
    forall d ensures DirtAccounted(InsideOf(t, d)) {
      assert DirtAccounted(InsideOf(s, d));
    }
  }

  /** The container of a shared request is in the pool and counted. */
  lemma SharedIsPooled(cfg: Settings, s: System, r: RequestId)
    requires PoolInv(cfg, s) && ClientInv(cfg, s) && r in s.clients && s.clients[r].phase.Sharing?
    ensures s.clients[r].phase.c in s.pool.shared
    ensures s.clients[r].phase.c in s.pool.all
    ensures s.clients[r].phase.c in s.alive
  {
    var c := s.clients[r].phase.c;
    assert r in SharersOf(s.clients, c);
    assert |SharersOf(s.clients, c)| == Inflight(s.pool.shared, c);
  }

  lemma BackgroundKeepsClean(cfg: Settings, s: System, step: Step)
    requires cfg.pool.Ok() && PoolInv(cfg, s) && CleanInv(s) && Enabled(cfg, s, step)
    requires step.Replenish? || step.Sweep? || step.RemoveSurplus?
    ensures CleanInv(Apply(cfg, s, step))
  {
    var t := Apply(cfg, s, step);
    BackgroundPooled(cfg, s, step);
    hide PoolInv, SweepSpec, ShrinkSpec, ReplenishSpec, CleanInv;
    assert t.inside == s.inside && s.used <= t.used && t.clients == s.clients;
    hide Apply, Enabled;
    PooledCleanFrame(s, t, t.pool.all.Keys - s.pool.all.Keys);
    NoClientMoves(s, t);
  }

  lemma TargetKeepsClean(cfg: Settings, s: System, step: Step)
    requires CleanInv(s) && Enabled(cfg, s, step)
    requires step.CheckRoom? || step.Grow? || step.LowerTarget?
    ensures CleanInv(Apply(cfg, s, step))
  {
    var t := Apply(cfg, s, step);
    hide CleanInv;
    assert t.inside == s.inside && t.used == s.used && t.clients == s.clients && t.pool.all == s.pool.all;
    hide Apply, Enabled;
    PooledCleanFrame(s, t, {});
    NoClientMoves(s, t);
  }

  lemma CleanStep(cfg: Settings, s: System, step: Step)
    requires cfg.pool.Ok() && PoolInv(cfg, s) && ClientInv(cfg, s) && CleanInv(s) && Enabled(cfg, s, step)
    ensures CleanInv(Apply(cfg, s, step))
  {
    hide *;
    match step
    case RunShared(r, after) => RunSharedKeepsClean(cfg, s, r, after);
    case Lease(r, now) => LeaseKeepsClean(cfg, s, r, now);
    case HandOut(now) => HandOutKeepsClean(cfg, s, now);
    case GiveBack(r, healthy, now) => GiveBackKeepsClean(cfg, s, r, healthy, now);
    case Inject(_, _, _, _) => InsideKeepsClean(cfg, s, step);
    case Preload(_, _, _, _, _) => InsideKeepsClean(cfg, s, step);
    case Execute(_, _, _) => InsideKeepsClean(cfg, s, step);
    case RunCommand(_, _) => InsideKeepsClean(cfg, s, step);
    case Cleanup(_, _, _) => InsideKeepsClean(cfg, s, step);
    case Replenish(_) => BackgroundKeepsClean(cfg, s, step);
    case Sweep(_) => BackgroundKeepsClean(cfg, s, step);
    case RemoveSurplus => BackgroundKeepsClean(cfg, s, step);
    case CheckRoom => TargetKeepsClean(cfg, s, step);
    case Grow(_) => TargetKeepsClean(cfg, s, step);
    case LowerTarget(_) => TargetKeepsClean(cfg, s, step);
    case _ => MovesKeepClean(cfg, s, step);
  }

  lemma NoSharingStep(cfg: Settings, s: System, step: Step)
    requires !cfg.sharing && NoSharing(s) && Enabled(cfg, s, step)
    ensures NoSharing(Apply(cfg, s, step))
  {
    hide Apply, Enabled, NoSharing;
    if step.Arrive? || step.Lease? || step.GiveBack? || step.Destroy? || step.EndTemp? {
      NoSharingMoves(cfg, s, step);
    } else if step.Inject? || step.Preload? || step.Execute? || step.RunCommand? || step.Cleanup? {
      NoSharingInside(cfg, s, step);
    } else {
      NoSharingElse(cfg, s, step);
    }
  }

  lemma NoSharingMoves(cfg: Settings, s: System, step: Step)
    requires !cfg.sharing && NoSharing(s) && Enabled(cfg, s, step)
    requires step.Arrive? || step.Lease? || step.GiveBack? || step.Destroy? || step.EndTemp?
    ensures NoSharing(Apply(cfg, s, step))
  {
    hide AcquireSpec, ReleaseSpec, Readmits;
    var t := Apply(cfg, s, step);
    assert step.r in t.clients;
    assert t.clients == s.clients[step.r := t.clients[step.r]];
    assert t.inside == s.inside;
    forall c ensures InsideOf(t, c).visitors == {} {
      assert InsideOf(s, c).visitors == {};
    }
  }

  lemma NoSharingInside(cfg: Settings, s: System, step: Step)
    requires !cfg.sharing && NoSharing(s) && Enabled(cfg, s, step)
    requires step.Inject? || step.Preload? || step.Execute? || step.RunCommand? || step.Cleanup?
    ensures NoSharing(Apply(cfg, s, step))
  {
    hide InjectOk, PreloadOk, SkipsPreload, OwnOrOld, ContextOf;
    var t := Apply(cfg, s, step);
    assert step.r in t.clients;
    assert t.clients == s.clients[step.r := t.clients[step.r]];
    forall c ensures InsideOf(t, c).visitors == {} {
      assert InsideOf(s, c).visitors == {};
      assert InsideOf(s, s.clients[step.r].phase.c).visitors == {};
    }
  }

  lemma NoSharingElse(cfg: Settings, s: System, step: Step)
    requires !cfg.sharing && NoSharing(s) && Enabled(cfg, s, step)
    requires step.TryShared? || step.RunShared? || step.EndShared? || step.HandOut? || step.Replenish? || step.Sweep?
             || step.CheckRoom? || step.Grow? || step.LowerTarget? || step.RemoveSurplus?
    ensures NoSharing(Apply(cfg, s, step))
  {
    hide AcquireSpec, SweepSpec, ShrinkSpec, ReplenishSpec, GrowSpec, LowerTargetSpec, Distinct, FreshFor;
    forall c ensures InsideOf(Apply(cfg, s, step), c).visitors == {} {
      assert InsideOf(s, c).visitors == {};
    }
  }

  // ---------- Every reachable system ----------

  lemma {:induction false} RunKeepsInv(cfg: Settings, s: System, steps: seq<Step>)
    requires Inv(cfg, s) && ValidRun(cfg, s, steps)
    ensures Inv(cfg, Run(cfg, s, steps))
    decreases |steps|
  {
    if steps != [] {
      InvStep(cfg, s, steps[0]);
      RunKeepsInv(cfg, Apply(cfg, s, steps[0]), steps[1..]);
    }
  }

  lemma InvStep(cfg: Settings, s: System, step: Step)
    requires Inv(cfg, s) && Enabled(cfg, s, step)
    ensures Inv(cfg, Apply(cfg, s, step))
  {
    hide Apply, Enabled, PoolInv, ClientInv, CleanInv, NoSharing;
    PoolStep(cfg, s, step);
    ClientStep(cfg, s, step);
    CleanStep(cfg, s, step);
    if !cfg.sharing {
      NoSharingStep(cfg, s, step);
    }
  }

  lemma InitInv(cfg: Settings, now: real)
    requires cfg.pool.Ok()
    ensures Inv(cfg, Init(cfg, now))
  {
    var s := Init(cfg, now);
    assert forall c :: SharersOf(s.clients, c) == {};
    assert Index([]) == map[];
  }
}
