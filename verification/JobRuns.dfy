/** The job manager over whole runs: submissions, cancellations and pruning interleaved with the
    tasks that run the jobs (app/services/job_manager.py). */
module JobRuns {
  import opened Basics
  import opened JobSpec

  /** Where a job's task is: not yet scheduled, waiting for a permit, inside the runner with a
      permit, or over. */
  datatype Phase = Unstarted | Waiting | Executing | Done

  /** `order` is the table in insertion order; `records` also keeps the records that were
      pruned, which their tasks may still hold. `requested` are the jobs whose task was told
      to stop. */
  datatype Manager = Manager(
    order: seq<JobId>,
    records: map<JobId, Job>,
    phase: map<JobId, Phase>,
    requested: set<JobId>,
    permits: nat)

  datatype Step =
    | Submit(id: JobId, timeout: int, session: Option<string>, now: real)
    | Prune(now: real)
    | Cancel(id: JobId, now: real)
    | Wait(id: JobId)
    | Enter(id: JobId, now: real)
    | Finish(id: JobId, ending: Ending, now: real)
    | Interrupt(id: JobId, now: real)

  function Init(cfg: Config): Manager {
    Manager([], map[], map[], {}, cfg.maxConcurrent)
  }

  predicate In(s: Manager, id: JobId, p: Phase) {
    id in s.phase && s.phase[id] == p
  }

  predicate Enabled(s: Manager, step: Step) {
    match step
    case Submit(id, _, _, _) => id !in s.records
    case Prune(_) => true
    case Cancel(_, _) => true
    case Wait(id) => In(s, id, Unstarted) && id !in s.requested
    case Enter(id, _) => (In(s, id, Unstarted) || In(s, id, Waiting)) && id !in s.requested && s.permits > 0 && id in s.records
    case Finish(id, _, _) => In(s, id, Executing) && id in s.records
    case Interrupt(id, _) => id in s.phase && !In(s, id, Done) && id in s.requested && id in s.records
  }

  function To(s: Manager, id: JobId, p: Phase, j: Job): Manager {
    s.(phase := s.phase[id := p], records := s.records[id := j])
  }

  function Apply(cfg: Config, s: Manager, step: Step): Manager
    requires Enabled(s, step)
  {
    match step
    case Submit(id, timeout, session, now) =>
      To(s.(order := PruneSpec(cfg, s.order, s.records, now) + [id]), id, Unstarted, NewJob(cfg, timeout, session, now))
    case Prune(now) => s.(order := PruneSpec(cfg, s.order, s.records, now))
    case Cancel(id, now) =>
      if id !in s.order || id !in s.records || Terminal(s.records[id].status) then s
      else
        s.(records := s.records[id := Stopped(s.records[id], now)],
           requested := if In(s, id, Done) then s.requested else s.requested + {id})
    case Wait(id) => s.(phase := s.phase[id := Waiting])
    case Enter(id, now) =>
      if s.records[id].status.Cancelled? then To(s, id, Done, Stamped(s.records[id], now))
      else To(s.(permits := s.permits - 1), id, Executing, Begun(s.records[id], now))
    case Finish(id, ending, now) =>
      To(s.(permits := s.permits + 1), id, Done, Ended(s.records[id], ending, now))
    case Interrupt(id, now) =>
      if In(s, id, Unstarted) then s.(phase := s.phase[id := Done])
      else
        To(s.(permits := if In(s, id, Executing) then s.permits + 1 else s.permits), id, Done,
           Interrupted(s.records[id], now))
  }

  predicate ValidRun(cfg: Config, s: Manager, steps: seq<Step>)
    decreases |steps|
  {
    steps == [] || (Enabled(s, steps[0]) && ValidRun(cfg, Apply(cfg, s, steps[0]), steps[1..]))
  }

  function Run(cfg: Config, s: Manager, steps: seq<Step>): Manager
    requires ValidRun(cfg, s, steps)
    decreases |steps|
  {
    if steps == [] then s else Run(cfg, Apply(cfg, s, steps[0]), steps[1..])
  }

  // ---------- The invariant ----------

  /** How the phase of a task, a stop request and the status of the record go together. */
  predicate Fits(s: Manager, id: JobId) {
    && (id in s.phase <==> id in s.records)
    && (id in s.order ==> id in s.records)
    && (id in s.requested ==> id in s.records)
    && (id in s.records ==>
          var j := s.records[id];
          && (Terminal(j.status) <==> j.finishedAt.Some?)
          && (!Terminal(j.status) ==> id in s.order)
          && (id in s.requested && s.phase[id] != Done ==> j.status.Cancelled?)
          && (id !in s.requested && s.phase[id] in {Unstarted, Waiting} ==> j.status.Queued?)
          && (id !in s.requested && s.phase[id].Executing? ==> j.status.Running?)
          && (s.phase[id].Done? ==> Terminal(j.status))
          && (s.phase[id] in {Unstarted, Waiting} ==> j.startedAt.None?))
  }

  function ExecutingIds(s: Manager): set<JobId> {
    set id | id in s.phase && s.phase[id].Executing?
  }

  function RunningIds(s: Manager): set<JobId> {
    set id | id in s.records && s.records[id].status.Running?
  }

  ghost predicate Inv(cfg: Config, s: Manager) {
    && NoDup(s.order)
    && (forall id :: Fits(s, id))
    && s.permits + |ExecutingIds(s)| == cfg.maxConcurrent
  }

  lemma InitInv(cfg: Config)
    ensures Inv(cfg, Init(cfg))
  {
    assert ExecutingIds(Init(cfg)) == {};
  }

  /** What pruning does to a table, as far as the invariant cares. */
  lemma PruneFits(cfg: Config, s: Manager, now: real)
    requires NoDup(s.order) && forall id :: Fits(s, id)
    ensures var t := s.(order := PruneSpec(cfg, s.order, s.records, now));
            NoDup(t.order) && (forall id :: Fits(t, id)) && ExecutingIds(t) == ExecutingIds(s)
  {
    var t := s.(order := PruneSpec(cfg, s.order, s.records, now));
    forall id | id in s.order ensures id in s.records {
      assert Fits(s, id);
    }
    PruneRetention(cfg, s.order, s.records, now);
    hide PruneSpec;
    forall id ensures Fits(t, id) {
      assert Fits(s, id);
    }
  }

  lemma MoveExecuting(s: Manager, id: JobId, p: Phase)
    ensures var t := s.(phase := s.phase[id := p]);
            |ExecutingIds(t)| == |ExecutingIds(s)| - (if In(s, id, Executing) then 1 else 0) + (if p.Executing? then 1 else 0)
  {
    var t := s.(phase := s.phase[id := p]);
    assert ExecutingIds(t) == (ExecutingIds(s) - {id}) + (if p.Executing? then {id} else {});
  }

  lemma AddFits(s: Manager, id: JobId, j: Job)
    requires NoDup(s.order) && (forall x :: Fits(s, x)) && id !in s.records
    requires j.status.Queued? && j.finishedAt.None? && j.startedAt.None?
    ensures var t := To(s.(order := s.order + [id]), id, Unstarted, j);
            NoDup(t.order) && (forall x :: Fits(t, x)) && ExecutingIds(t) == ExecutingIds(s)
  {
    var t := To(s.(order := s.order + [id]), id, Unstarted, j);
    assert Fits(s, id);
    forall x ensures Fits(t, x) {
      assert Fits(s, x);
    }
  }

  lemma SubmitInv(cfg: Config, s: Manager, step: Step)
    requires Inv(cfg, s) && Enabled(s, step) && step.Submit?
    ensures Inv(cfg, Apply(cfg, s, step))
  {
    PruneFits(cfg, s, step.now);
    hide PruneSpec, Fits, NoDup, ExecutingIds;
    AddFits(s.(order := PruneSpec(cfg, s.order, s.records, step.now)), step.id, NewJob(cfg, step.timeout, step.session, step.now));
  }

  lemma CancelInv(cfg: Config, s: Manager, step: Step)
    requires Inv(cfg, s) && step.Cancel?
    ensures Inv(cfg, Apply(cfg, s, step))
  {
    var t := Apply(cfg, s, step);
    forall id ensures Fits(t, id) {
      assert Fits(s, id);
    }
    assert ExecutingIds(t) == ExecutingIds(s);
  }

  lemma TaskInv(cfg: Config, s: Manager, step: Step)
    requires Inv(cfg, s) && Enabled(s, step) && (step.Wait? || step.Enter? || step.Finish? || step.Interrupt?)
    ensures Inv(cfg, Apply(cfg, s, step))
  {
    var t := Apply(cfg, s, step);
    assert Fits(s, step.id);
    MoveExecuting(s, step.id, t.phase[step.id]);
    assert ExecutingIds(t) == ExecutingIds(s.(phase := s.phase[step.id := t.phase[step.id]]));
    forall id ensures Fits(t, id) {
      assert Fits(s, id);
    }
  }

  lemma StepInv(cfg: Config, s: Manager, step: Step)
    requires Inv(cfg, s) && Enabled(s, step)
    ensures Inv(cfg, Apply(cfg, s, step))
  {
    match step
    case Submit(_, _, _, _) => SubmitInv(cfg, s, step);
    case Prune(now) => PruneFits(cfg, s, now);
    case Cancel(_, _) => CancelInv(cfg, s, step);
    case _ => TaskInv(cfg, s, step);
  }

  lemma {:induction false} RunInv(cfg: Config, s: Manager, steps: seq<Step>)
    requires Inv(cfg, s) && ValidRun(cfg, s, steps)
    ensures Inv(cfg, Run(cfg, s, steps))
    decreases |steps|
  {
    if steps != [] {
      hide Inv, Apply, Enabled;
      StepInv(cfg, s, steps[0]);
      RunInv(cfg, Apply(cfg, s, steps[0]), steps[1..]);
    }
  }

  function After(cfg: Config, steps: seq<Step>): Manager
    requires ValidRun(cfg, Init(cfg), steps)
  {
    Run(cfg, Init(cfg), steps)
  }

  lemma AfterInv(cfg: Config, steps: seq<Step>)
    requires ValidRun(cfg, Init(cfg), steps)
    ensures Inv(cfg, After(cfg, steps))
  {
    InitInv(cfg);
    RunInv(cfg, Init(cfg), steps);
  }

  // ---------- In every reachable state ----------

  /** Never more jobs than permits are running, counting also those that were told to stop and
      have not left the runner. */
  lemma RunningBounded(cfg: Config, steps: seq<Step>)
    requires ValidRun(cfg, Init(cfg), steps)
    ensures var s := After(cfg, steps);
            && |RunningIds(s)| <= |ExecutingIds(s)| == cfg.maxConcurrent - s.permits
  {
    AfterInv(cfg, steps);
    var s := After(cfg, steps);
    forall id | id in RunningIds(s) ensures id in ExecutingIds(s) {
      assert Fits(s, id);
    }
    SubsetSize(RunningIds(s), ExecutingIds(s));
  }

  /** A record has its finishing time exactly when its status is terminal, and an unfinished
      job is always in the table. */
  lemma FinishedExactly(cfg: Config, steps: seq<Step>, id: JobId)
    requires ValidRun(cfg, Init(cfg), steps) && id in After(cfg, steps).records
    ensures var j := After(cfg, steps).records[id];
            && (Terminal(j.status) <==> j.finishedAt.Some?)
            && (!Terminal(j.status) ==> id in After(cfg, steps).order)
  {
    AfterInv(cfg, steps);
    assert Fits(After(cfg, steps), id);
  }

  // ---------- How a status moves ----------

  predicate Forward(a: Status, b: Status) {
    || a == b
    || (a.Queued? && (b.Running? || b.Cancelled?))
    || (a.Running? && Terminal(b))
  }

  /** The runner came back although its task had been told to stop. */
  predicate Swallows(s: Manager, step: Step) {
    step.Finish? && step.id in s.requested
  }

  /** Every status moves forward, except that a cancelled job whose runner swallowed the
      cancellation becomes succeeded or failed. */
  lemma StatusMoves(cfg: Config, s: Manager, step: Step, id: JobId)
    requires Inv(cfg, s) && Enabled(s, step) && id in s.records
    ensures var t := Apply(cfg, s, step);
            && id in t.records
            && (if Swallows(s, step) && step.id == id
                then s.records[id].status.Cancelled? && (t.records[id].status.Succeeded? || t.records[id].status.Failed?)
                else Forward(s.records[id].status, t.records[id].status))
  {
    assert Fits(s, id);
  }

  /** A terminal status changes in a step if and only if in that step the job's runner ends
      after having swallowed the cancellation. */
  lemma TerminalChangesExactly(cfg: Config, s: Manager, step: Step, id: JobId)
    requires Inv(cfg, s) && Enabled(s, step) && id in s.records && Terminal(s.records[id].status)
    ensures id in Apply(cfg, s, step).records
    ensures Apply(cfg, s, step).records[id].status != s.records[id].status <==> (Swallows(s, step) && step.id == id)
    ensures Apply(cfg, s, step).records[id].finishedAt == s.records[id].finishedAt
  {
    assert Fits(s, id);
  }

  /** Somewhere along the run the runner of this job swallows its cancellation. */
  predicate SwallowedIn(cfg: Config, s: Manager, steps: seq<Step>, id: JobId)
    requires ValidRun(cfg, s, steps)
    decreases |steps|
  {
    steps != [] && ((Swallows(s, steps[0]) && steps[0].id == id) || SwallowedIn(cfg, Apply(cfg, s, steps[0]), steps[1..], id))
  }

  lemma DoneStep(cfg: Config, s: Manager, step: Step, id: JobId)
    requires Inv(cfg, s) && Enabled(s, step) && In(s, id, Done)
    ensures var t := Apply(cfg, s, step);
            In(t, id, Done) && id in s.records && id in t.records && t.records[id].status == s.records[id].status
  {
    assert Fits(s, id);
  }

  lemma {:induction false} DoneForever(cfg: Config, s: Manager, steps: seq<Step>, id: JobId)
    requires Inv(cfg, s) && ValidRun(cfg, s, steps) && In(s, id, Done)
    ensures var t := Run(cfg, s, steps);
            In(t, id, Done) && id in s.records && id in t.records && t.records[id].status == s.records[id].status
    decreases |steps|
  {
    if steps == [] {
      assert Fits(s, id);
    } else {
      hide Apply, Enabled, Inv;
      StepInv(cfg, s, steps[0]);
      DoneStep(cfg, s, steps[0], id);
      DoneForever(cfg, Apply(cfg, s, steps[0]), steps[1..], id);
    }
  }

  lemma SwallowEnds(cfg: Config, s: Manager, step: Step)
    requires Inv(cfg, s) && Enabled(s, step) && Swallows(s, step)
    ensures var t := Apply(cfg, s, step);
            In(t, step.id, Done) && step.id in t.records && !t.records[step.id].status.Cancelled?
            && s.records[step.id].status.Cancelled?
  {
    assert Fits(s, step.id);
  }

  /** Over a whole run: a terminal status is final if and only if the job's runner never
      swallows a cancellation on the way; the finishing time is final in any case. */
  lemma {:induction false} TerminalFinalExactly(cfg: Config, s: Manager, steps: seq<Step>, id: JobId)
    requires Inv(cfg, s) && ValidRun(cfg, s, steps) && id in s.records && Terminal(s.records[id].status)
    ensures id in Run(cfg, s, steps).records
    ensures Run(cfg, s, steps).records[id].status == s.records[id].status <==> !SwallowedIn(cfg, s, steps, id)
    ensures Run(cfg, s, steps).records[id].finishedAt == s.records[id].finishedAt
    decreases |steps|
  {
    if steps != [] {
      hide Apply, Enabled, Inv, Swallows;
      var t := Apply(cfg, s, steps[0]);
      StepInv(cfg, s, steps[0]);
      TerminalChangesExactly(cfg, s, steps[0], id);
      StatusMoves(cfg, s, steps[0], id);
      TerminalFinalExactly(cfg, t, steps[1..], id);
      if Swallows(s, steps[0]) && IdOf(steps[0]) == Some(id) {
        SwallowEnds(cfg, s, steps[0]);
        DoneForever(cfg, t, steps[1..], id);
      }
    }
  }

  function IdOf(step: Step): Option<JobId> {
    if step.Prune? then None else Some(step.id)
  }

  lemma {:induction false} Extend(cfg: Config, s: Manager, steps: seq<Step>, step: Step)
    requires ValidRun(cfg, s, steps) && Enabled(Run(cfg, s, steps), step)
    ensures ValidRun(cfg, s, steps + [step])
    ensures Run(cfg, s, steps + [step]) == Apply(cfg, Run(cfg, s, steps), step)
    decreases |steps|
  {
    if steps == [] {
      assert steps + [step] == [step];
      assert [step][1..] == [];
    } else {
      hide Apply, Enabled;
      assert (steps + [step])[1..] == steps[1..] + [step];
      Extend(cfg, Apply(cfg, s, steps[0]), steps[1..], step);
    }
  }

  const ONE: Config := Config(1, 10, 10.0, 10)

  lemma CancelledWhileRunning() returns (steps: seq<Step>)
    ensures ValidRun(ONE, Init(ONE), steps)
    ensures var s := After(ONE, steps);
            "a" in s.records && s.records["a"].status.Cancelled? && "a" in s.requested && In(s, "a", Executing)
  {
    var s0 := Init(ONE);
    assert PruneSpec(ONE, [], s0.records, 1.0) == [];
    hide PruneSpec;
    var s1 := Apply(ONE, s0, Submit("a", 1, None, 1.0));
    assert s1.order == [] + ["a"] == ["a"];
    hide ValidRun, Run;
    Start();
    Extend(ONE, s0, [], Submit("a", 1, None, 1.0));
    steps := [] + [Submit("a", 1, None, 1.0)];
    Extend(ONE, s0, steps, Enter("a", 2.0));
    steps := steps + [Enter("a", 2.0)];
    Extend(ONE, s0, steps, Cancel("a", 3.0));
    steps := steps + [Cancel("a", 3.0)];
  }

  lemma Start()
    ensures ValidRun(ONE, Init(ONE), []) && Run(ONE, Init(ONE), []) == Init(ONE)
  {}

  /** A runner that swallows its cancellation turns a cancelled job into a succeeded one. */
  lemma SwallowedCancelRevives()
    ensures exists cfg, steps, last, id ::
              && ValidRun(cfg, Init(cfg), steps) && id in After(cfg, steps).records
              && After(cfg, steps).records[id].status.Cancelled?
              && Enabled(After(cfg, steps), last)
              && id in Apply(cfg, After(cfg, steps), last).records
              && Apply(cfg, After(cfg, steps), last).records[id].status.Succeeded?
  {
    var steps := CancelledWhileRunning();
    hide ValidRun, Run, Init;
    var last := Finish("a", Answer(true, ""), 4.0);
    assert Apply(ONE, After(ONE, steps), last).records["a"].status.Succeeded?;
  }

  /** A job cancelled before its task had a permit never runs, whatever happens afterwards. */
  lemma {:induction false} CancelledBeforeRunningNeverStarts(cfg: Config, s: Manager, steps: seq<Step>, id: JobId)
    requires Inv(cfg, s) && ValidRun(cfg, s, steps)
    requires id in s.records && id in s.requested && s.records[id].startedAt.None? && !In(s, id, Executing)
    ensures var t := Run(cfg, s, steps);
            && id in t.records && t.records[id].status.Cancelled? == s.records[id].status.Cancelled?
            && t.records[id].startedAt.None? && !In(t, id, Executing)
    decreases |steps|
  {
    if steps != [] {
      NeverStartsStep(cfg, s, steps[0], id);
      hide Apply, Enabled, Inv;
      StepInv(cfg, s, steps[0]);
      CancelledBeforeRunningNeverStarts(cfg, Apply(cfg, s, steps[0]), steps[1..], id);
    }
  }

  lemma NeverStartsStep(cfg: Config, s: Manager, step: Step, id: JobId)
    requires Inv(cfg, s) && Enabled(s, step)
    requires id in s.records && id in s.requested && s.records[id].startedAt.None? && !In(s, id, Executing)
    ensures var t := Apply(cfg, s, step);
            && id in t.records && id in t.requested && t.records[id].startedAt.None? && !In(t, id, Executing)
            && t.records[id].status.Cancelled? == s.records[id].status.Cancelled?
  {
    assert Fits(s, id);
  }

  // ---------- The table ----------

  /** After a submission the table holds at most as many records as the limit, or as jobs were
      alive before it, and one more. */
  lemma SubmitKeepsSize(cfg: Config, s: Manager, step: Step)
    requires Inv(cfg, s) && Enabled(s, step) && step.Submit?
    ensures var t := Apply(cfg, s, step);
            |t.order| <= Max(cfg.maxEntries, |LiveIds(s.order, s.records)|) + 1
  {
    forall id | id in s.order ensures id in s.records {
      assert Fits(s, id);
    }
    PrunedSize(cfg, s.order, s.records, step.now);
  }
}
