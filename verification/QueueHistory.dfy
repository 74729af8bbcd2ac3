/** What the queue tells its callers, computed from the steps of a whole run
    (app/services/execution_queue.py): the average execution time, the limit and the estimates. */
module QueueHistory {
  import opened Basics
  import opened QueueSpec
  import opened QueueRuns

  /** How long the executions of a run took, in the order in which they ended; `started` has the
      starts before it. A start at time 0 is taken for none. */
  function Durations(steps: seq<Step>, started: map<TicketId, real>): seq<real>
    decreases |steps|
  {
    if steps == [] then []
    else
      match steps[0]
      case Start(id, now) => Durations(steps[1..], started[id := now])
      case Finish(id, now) =>
        (if id in started && started[id] != 0.0 then [now - started[id]] else []) + Durations(steps[1..], started)
      case _ => Durations(steps[1..], started)
  }

  /** The limit last set by a run that begins with the given one; less than 1 counts as 1. */
  function LimitSet(steps: seq<Step>, limit: nat): nat {
    if steps == [] then limit
    else
      var last := steps[|steps| - 1];
      if !last.Resize? then LimitSet(steps[..|steps| - 1], limit)
      else if last.n < 1 then 1
      else last.n
  }

  /** The starts on record are those of the steps. */
  ghost predicate Known(s: Queue, started: map<TicketId, real>) {
    forall id :: id in s.t.executing ==> id in started && started[id] == s.t.executing[id]
  }

  lemma ObservedStep(s: Queue, step: Step, rest: seq<Step>, started: map<TicketId, real>)
    requires Agree(s) && Known(s, started) && Enabled(s, step)
    ensures var more := if step.Start? then started[step.id := step.now] else started;
            && Known(Apply(s, step), more)
            && Apply(s, step).observed + Durations(rest, more) == s.observed + Durations([step] + rest, started)
  {
    hide Drop, UpdatedAverage, Members, Waiters, NoDup;
    assert ([step] + rest)[1..] == rest;
  }

  lemma {:induction false} ObservedAreDurations(s: Queue, steps: seq<Step>, started: map<TicketId, real>, init: real)
    requires Inv(s, init) && ValidRun(s, steps) && Known(s, started)
    ensures Run(s, steps).observed == s.observed + Durations(steps, started)
    decreases |steps|
  {
    if steps != [] {
      var step, rest := steps[0], steps[1..];
      assert steps == [step] + rest;
      InvStep(s, step, init);
      ObservedStep(s, step, rest, started);
      hide Apply, Enabled, PermitLaw, CountLaw, Agree, Durations;
      ObservedAreDurations(Apply(s, step), rest, if step.Start? then started[step.id := step.now] else started, init);
    } else {
      assert s.observed + [] == s.observed;
    }
  }

  lemma LimitStep(s: Queue, step: Step)
    requires Enabled(s, step)
    ensures Apply(s, step).t.max == if !step.Resize? then s.t.max else if step.n < 1 then 1 else step.n
  {
    hide Drop, UpdatedAverage, Members, Waiters, Measured;
  }

  lemma {:induction false} LimitIsSet(s: Queue, steps: seq<Step>)
    requires ValidRun(s, steps)
    ensures Run(s, steps).t.max == LimitSet(steps, s.t.max)
    decreases |steps|
  {
    if steps != [] {
      LimitStep(s, steps[0]);
      hide Apply, Enabled;
      LimitIsSet(Apply(s, steps[0]), steps[1..]);
      LimitOfTail(steps, s.t.max);
    }
  }

  lemma {:induction false} LimitOfTail(steps: seq<Step>, limit: nat)
    requires steps != []
    ensures LimitSet(steps, limit) == LimitSet(steps[1..], LimitSet([steps[0]], limit))
    decreases |steps|
  {
    if |steps| > 1 {
      var before := steps[..|steps| - 1];
      assert steps[1..][..|steps| - 2] == before[1..];
      LimitOfTail(before, limit);
    } else {
      assert steps == [steps[0]] && steps[1..] == [];
    }
  }

  /** In every reachable state the average is the initial value and all execution times of the
      run weighted by their age, and lies between their extremes. */
  lemma AverageInEveryState(max: nat, init: real, now: real, steps: seq<Step>, lo: real, hi: real)
    requires max >= 1 && ValidRun(Init(max, init, now), steps)
    requires lo <= init <= hi && AllBetween(Durations(steps, map[]), lo, hi)
    ensures var avg := Run(Init(max, init, now), steps).t.avg;
            var times := Durations(steps, map[]);
            && avg == Power(0.7, |times|) * init + Weighted(times)
            && lo <= avg <= hi
            && (forall i :: 0 <= i < |times| ==> times[i] >= 0.0)
  {
    hide Agree, PermitLaw, CountLaw, Apply, Enabled, ValidRun, Run, Average, AllBetween, Power, Weighted, Durations;
    AfterInv(max, init, now, steps);
    InitInv(max, init, now);
    ObservedAreDurations(Init(max, init, now), steps, map[], init);
    var times := Durations(steps, map[]);
    assert [] + times == times;
    AverageClosedForm(init, times);
    AverageBetween(init, times, lo, hi);
  }

  /** In every reachable state the ticket at a position is told as many average executions as it
      takes rounds of the limit last set to reach it. */
  lemma EstimateInEveryState(max: nat, init: real, now: real, steps: seq<Step>, position: nat, rounds: nat)
    requires max >= 1 && ValidRun(Init(max, init, now), steps)
    requires rounds >= 1 && (rounds - 1) * LimitSet(steps, max) < position <= rounds * LimitSet(steps, max)
    ensures var t := Run(Init(max, init, now), steps).t;
            var times := Durations(steps, map[]);
            && t.max == LimitSet(steps, max) >= 1
            && EstimateWait(position, t.max, t.avg) == rounds as real * (Power(0.7, |times|) * init + Weighted(times))
  {
    hide Agree, PermitLaw, CountLaw, Apply, Enabled, ValidRun, Run, Average, AllBetween, Power, Weighted, Durations, EstimateWait, LimitSet;
    AfterInv(max, init, now, steps);
    LimitIsSet(Init(max, init, now), steps);
    InitInv(max, init, now);
    ObservedAreDurations(Init(max, init, now), steps, map[], init);
    var times := Durations(steps, map[]);
    assert [] + times == times;
    AverageClosedForm(init, times);
    EstimateByRounds(position, LimitSet(steps, max), Run(Init(max, init, now), steps).t.avg, rounds);
  }
}
