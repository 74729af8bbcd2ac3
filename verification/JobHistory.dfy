/** What the record of a job says, replayed from the steps of a whole run
    (app/services/job_manager.py). */
module JobHistory {
  import opened Basics
  import opened JobSpec
  import opened JobRuns

  /** The first step from position `from` on that passes the test. */
  function First(steps: seq<Step>, from: nat, test: Step -> bool): (r: Option<nat>)
    ensures r.Some? ==> from <= r.value < |steps| && test(steps[r.value])
                        && forall h :: from <= h < r.value ==> !test(steps[h])
    ensures r.None? ==> forall h :: from <= h < |steps| ==> !test(steps[h])
  {
    if steps == [] then None
    else
      var last := |steps| - 1;
      var before := First(steps[..last], from, test);
      if before.Some? then before
      else if from <= last && test(steps[last]) then Some(last)
      else None
  }

  function Finishes(id: JobId): Step -> bool {
    (e: Step) => e.Finish? && e.id == id
  }

  function Cancels(id: JobId): Step -> bool {
    (e: Step) => e.Cancel? && e.id == id
  }

  function Enters(id: JobId): Step -> bool {
    (e: Step) => e.Enter? && e.id == id
  }

  predicate SubmittedAt(steps: seq<Step>, id: JobId, i: nat) {
    i < |steps| && steps[i].Submit? && steps[i].id == id
  }

  /** The record of a job submitted at position i, told from the first time its task entered the
      runner, the first cancellation asked for, and the runner's return, as far as they came. */
  ghost function Told(cfg: Config, steps: seq<Step>, id: JobId, i: nat): Job
    requires SubmittedAt(steps, id, i)
  {
    var asked := steps[i];
    var entered := First(steps, i, Enters(id));
    var cancelled := First(steps, i, Cancels(id));
    var finished := First(steps, i, Finishes(id));
    var stopped := if cancelled.Some? && (finished.None? || cancelled.value < finished.value) then cancelled else finished;
    Job(if asked.timeout < 1 || cfg.maxTimeout < 1 then 1
        else if asked.timeout > cfg.maxTimeout then cfg.maxTimeout
        else asked.timeout,
        asked.session,
        asked.now,
        if finished.Some? then (if Success(steps[finished.value].ending) then Succeeded else Failed)
        else if cancelled.Some? then Cancelled
        else if entered.Some? then Running
        else Queued,
        if entered.Some? then Some(steps[entered.value].now) else None,
        if stopped.Some? then Some(steps[stopped.value].now) else None,
        if finished.Some? && Complaint(steps[finished.value].ending).Some? then Complaint(steps[finished.value].ending)
        else if stopped.Some? && stopped != finished then Some("cancelled")
        else None)
  }

  predicate Success(ending: Ending) {
    ending.Answer? && ending.success
  }

  /** The error text an ending brings. */
  function Complaint(ending: Ending): Option<string> {
    match ending
    case Answer(true, _) => None
    case Answer(false, "") => Some("execution failed")
    case Answer(false, text) => Some(text)
    case Other => None
    case Raised(text) => Some(text)
  }

  // ---------- One more step ----------

  lemma {:induction false} Unextend(cfg: Config, s: Manager, steps: seq<Step>)
    requires ValidRun(cfg, s, steps) && steps != []
    ensures var before := steps[..|steps| - 1];
            && ValidRun(cfg, s, before)
            && Enabled(Run(cfg, s, before), steps[|steps| - 1])
            && Run(cfg, s, steps) == Apply(cfg, Run(cfg, s, before), steps[|steps| - 1])
    decreases |steps|
  {
    hide Apply, Enabled;
    var before := steps[..|steps| - 1];
    if |steps| > 1 {
      Unextend(cfg, Apply(cfg, s, steps[0]), steps[1..]);
      assert steps[1..][..|steps| - 2] == before[1..];
    } else {
      assert before == [] && steps[1..] == [];
      assert Run(cfg, Apply(cfg, s, steps[0]), steps[1..]) == Apply(cfg, s, steps[0]);
    }
  }

  /** A job just submitted. */
  lemma ToldAtFirst(cfg: Config, s: Manager, steps: seq<Step>, id: JobId, i: nat)
    requires SubmittedAt(steps, id, i) && i == |steps| - 1 && Enabled(s, steps[i])
    ensures var t := Apply(cfg, s, steps[i]); id in t.records && t.records[id] == Told(cfg, steps, id, i)
  {
    hide PruneSpec;
  }

  /** A step that is none of the three tells nothing new. */
  lemma ToldSame(cfg: Config, steps: seq<Step>, id: JobId, i: nat)
    requires SubmittedAt(steps, id, i) && i < |steps| - 1
    requires var e := steps[|steps| - 1]; !Enters(id)(e) && !Cancels(id)(e) && !Finishes(id)(e)
    ensures Told(cfg, steps, id, i) == Told(cfg, steps[..|steps| - 1], id, i)
  {
    hide Enters, Cancels, Finishes;
  }

  lemma ToldEntered(cfg: Config, steps: seq<Step>, id: JobId, i: nat)
    requires SubmittedAt(steps, id, i) && i < |steps| - 1 && Enters(id)(steps[|steps| - 1])
    requires Told(cfg, steps[..|steps| - 1], id, i).status.Queued?
    ensures Told(cfg, steps, id, i)
         == Told(cfg, steps[..|steps| - 1], id, i).(status := Running, startedAt := Some(steps[|steps| - 1].now))
  {}

  lemma ToldCancelled(cfg: Config, steps: seq<Step>, id: JobId, i: nat)
    requires SubmittedAt(steps, id, i) && i < |steps| - 1 && Cancels(id)(steps[|steps| - 1])
    ensures var j := Told(cfg, steps[..|steps| - 1], id, i);
            Told(cfg, steps, id, i)
            == if Terminal(j.status) then j
               else j.(status := Cancelled, error := Some("cancelled"), finishedAt := Some(steps[|steps| - 1].now))
  {}

  lemma ToldFinished(cfg: Config, steps: seq<Step>, id: JobId, i: nat)
    requires SubmittedAt(steps, id, i) && i < |steps| - 1 && Finishes(id)(steps[|steps| - 1])
    requires var j := Told(cfg, steps[..|steps| - 1], id, i); j.status.Running? || j.status.Cancelled?
    ensures Told(cfg, steps, id, i)
         == Ended(Told(cfg, steps[..|steps| - 1], id, i), steps[|steps| - 1].ending, steps[|steps| - 1].now)
  {}

  /** What a cancelled record says. */
  lemma ToldStopped(cfg: Config, steps: seq<Step>, id: JobId, i: nat)
    requires SubmittedAt(steps, id, i) && Told(cfg, steps, id, i).status.Cancelled?
    ensures var j := Told(cfg, steps, id, i); j.error == Some("cancelled") && j.finishedAt.Some?
  {}

  /** One more step on the record. */
  lemma ToldStep(cfg: Config, s: Manager, steps: seq<Step>, id: JobId, i: nat)
    requires SubmittedAt(steps, id, i) && i < |steps| - 1
    requires Inv(cfg, s) && Enabled(s, steps[|steps| - 1])
    requires id in s.records && s.records[id] == Told(cfg, steps[..|steps| - 1], id, i)
    ensures var t := Apply(cfg, s, steps[|steps| - 1]); id in t.records && t.records[id] == Told(cfg, steps, id, i)
  {
    hide PruneSpec, Told, Ended;
    assert Fits(s, id);
    hide Inv, NoDup;
    var e := steps[|steps| - 1];
    if Enters(id)(e) {
      ToldEntered(cfg, steps, id, i);
    } else if Cancels(id)(e) {
      ToldCancelled(cfg, steps, id, i);
    } else if Finishes(id)(e) {
      ToldFinished(cfg, steps, id, i);
    } else {
      ToldSame(cfg, steps, id, i);
      if s.records[id].status.Cancelled? {
        ToldStopped(cfg, steps, id, i);
      }
    }
  }

  /** In every reachable state every record is the one its history tells. */
  lemma {:induction false} RecordReplaysHistory(cfg: Config, steps: seq<Step>, id: JobId, i: nat)
    requires ValidRun(cfg, Init(cfg), steps) && SubmittedAt(steps, id, i)
    ensures var s := After(cfg, steps); id in s.records && s.records[id] == Told(cfg, steps, id, i)
  {
    Unextend(cfg, Init(cfg), steps);
    var before := steps[..|steps| - 1];
    var s := After(cfg, before);
    hide Apply, Enabled, Told, Run, ValidRun, Inv;
    if i == |steps| - 1 {
      ToldAtFirst(cfg, s, steps, id, i);
    } else {
      assert SubmittedAt(before, id, i);
      RecordReplaysHistory(cfg, before, id, i);
      AfterInv(cfg, before);
      ToldStep(cfg, s, steps, id, i);
    }
  }

  /** A task comes back from its runner at most once. */
  lemma {:induction false} FinishesOnce(cfg: Config, steps: seq<Step>, id: JobId, i: nat, k: nat)
    requires ValidRun(cfg, Init(cfg), steps) && SubmittedAt(steps, id, i)
    requires i < k < |steps| && Finishes(id)(steps[k])
    ensures First(steps, i, Finishes(id)) == Some(k)
  {
    hide *;
    if k == |steps| - 1 {
      LastFinish(cfg, steps, id, i);
    } else {
      Unextend(cfg, Init(cfg), steps);
      WithoutLast(steps, id, i, k);
      FinishesOnce(cfg, steps[..|steps| - 1], id, i, k);
      FirstStays(steps, i, Finishes(id));
    }
  }

  lemma WithoutLast(steps: seq<Step>, id: JobId, i: nat, k: nat)
    requires SubmittedAt(steps, id, i) && i < k < |steps| - 1 && Finishes(id)(steps[k])
    ensures SubmittedAt(steps[..|steps| - 1], id, i) && Finishes(id)(steps[..|steps| - 1][k])
  {}

  lemma LastFinish(cfg: Config, steps: seq<Step>, id: JobId, i: nat)
    requires ValidRun(cfg, Init(cfg), steps) && SubmittedAt(steps, id, i)
    requires i < |steps| - 1 && Finishes(id)(steps[|steps| - 1])
    ensures First(steps, i, Finishes(id)) == Some(|steps| - 1)
  {
    var before := steps[..|steps| - 1];
    assert SubmittedAt(before, id, i);
    hide *;
    Unextend(cfg, Init(cfg), steps);
    RecordReplaysHistory(cfg, before, id, i);
    AfterFits(cfg, before, id);
    InRunner(After(cfg, before), steps[|steps| - 1], id);
    FirstFinish(cfg, steps, id, i);
  }

  lemma FirstStays(steps: seq<Step>, from: nat, test: Step -> bool)
    requires steps != [] && First(steps[..|steps| - 1], from, test).Some?
    ensures First(steps, from, test) == First(steps[..|steps| - 1], from, test)
  {}

  lemma AfterFits(cfg: Config, steps: seq<Step>, id: JobId)
    requires ValidRun(cfg, Init(cfg), steps)
    ensures Run(cfg, Init(cfg), steps) == After(cfg, steps) && Fits(After(cfg, steps), id)
  {
    AfterInv(cfg, steps);
  }

  lemma InRunner(s: Manager, step: Step, id: JobId)
    requires Enabled(s, step) && Finishes(id)(step) && Fits(s, id)
    ensures id in s.records && !s.records[id].status.Succeeded? && !s.records[id].status.Failed?
  {}

  lemma FirstFinish(cfg: Config, steps: seq<Step>, id: JobId, i: nat)
    requires SubmittedAt(steps, id, i) && i < |steps| - 1 && Finishes(id)(steps[|steps| - 1])
    requires var j := Told(cfg, steps[..|steps| - 1], id, i); !j.status.Succeeded? && !j.status.Failed?
    ensures First(steps, i, Finishes(id)) == Some(|steps| - 1)
  {
    hide Finishes, Cancels, Enters;
  }

  /** A record says succeeded exactly when its runner came back with an answer that says so, and
      failed exactly when it came back in any other way, then with the text that brought. */
  lemma OutcomeExactly(cfg: Config, steps: seq<Step>, id: JobId, i: nat)
    requires ValidRun(cfg, Init(cfg), steps) && SubmittedAt(steps, id, i)
    ensures id in After(cfg, steps).records
    ensures var j := After(cfg, steps).records[id];
            && (j.status.Succeeded? <==>
                  exists k :: i < k < |steps| && Finishes(id)(steps[k]) && steps[k].ending.Answer? && steps[k].ending.success)
            && (j.status.Failed? <==>
                  exists k :: i < k < |steps| && Finishes(id)(steps[k])
                              && !(steps[k].ending.Answer? && steps[k].ending.success))
            && (forall k :: i < k < |steps| && Finishes(id)(steps[k]) && Complaint(steps[k].ending).Some?
                            ==> j.error == Complaint(steps[k].ending))
  {
    RecordReplaysHistory(cfg, steps, id, i);
    hide Run, ValidRun, Complaint, Finishes;
    forall k | i < k < |steps| && Finishes(id)(steps[k]) ensures First(steps, i, Finishes(id)) == Some(k) {
      FinishesOnce(cfg, steps, id, i, k);
    }
    if First(steps, i, Finishes(id)).Some? {
      SubmitIsNoFinish(steps, id, i);
    }
  }

  lemma SubmitIsNoFinish(steps: seq<Step>, id: JobId, i: nat)
    requires SubmittedAt(steps, id, i)
    ensures First(steps, i, Finishes(id)) != Some(i)
  {}
}
