/** Requests passing through the execution queue (app/services/execution_queue.py).

    A request that times out while queued leaves the wait list, is counted, and then runs the
    same `finally` block as everybody else: it releases a permit it never took. */
module QueueRuns {
  import opened Basics
  import opened QueueSpec

  /** Waiting for the semaphore; holding a permit before, while and after it is listed as
      executing; timed out and not yet removed, removed, or through the `finally` section but
      still to release; left. */
  datatype Phase = Waiting | Granted | Executing | Finishing | Expired | Dropped | Unreleased | Left

  /** `missed` counts the permits a shrink failed to take, `unearned` the releases of timed-out
      requests, `observed` the execution times that entered the average. */
  datatype Queue = Queue(
    t: Tables,
    phase: map<TicketId, Phase>,
    clock: real,
    missed: nat,
    unearned: nat,
    observed: seq<real>)

  datatype Step =
    | Enqueue(id: TicketId)
    | Grant(id: TicketId)
    | Start(id: TicketId, now: real)
    | Finish(id: TicketId, now: real)
    | Release(id: TicketId)
    | Expire(id: TicketId)
    | DropExpired(id: TicketId)
    | FinishExpired(id: TicketId, now: real)
    | ReleaseExpired(id: TicketId)
    | Resize(n: int, taken: nat)

  predicate Is(s: Queue, id: TicketId, p: Phase) {
    id in s.phase && s.phase[id] == p
  }

  /** The tickets that wait for the semaphore, in its order: first come, first served. */
  function Waiters(s: Queue): seq<TicketId> {
    Select(s.t.waiting, Members(s.phase, {Waiting}))
  }

  predicate IsNext(s: Queue, id: TicketId) {
    Waiters(s) != [] && Waiters(s)[0] == id
  }

  predicate Enabled(s: Queue, step: Step) {
    match step
    case Enqueue(id) => id !in s.phase
    case Grant(id) => Is(s, id, Waiting) && s.t.permits > 0 && IsNext(s, id)
    case Start(id, now) => Is(s, id, Granted) && s.clock <= now
    case Finish(id, now) => Is(s, id, Executing) && s.clock <= now
    case Release(id) => Is(s, id, Finishing)
    case Expire(id) => Is(s, id, Waiting)
    case DropExpired(id) => Is(s, id, Expired)
    case FinishExpired(id, now) => Is(s, id, Dropped) && s.clock <= now
    case ReleaseExpired(id) => Is(s, id, Unreleased)
    case Resize(n, taken) => taken <= s.t.permits && taken <= Lowered(s.t, n)
  }

  function Apply(s: Queue, step: Step): Queue
    requires Enabled(s, step)
  {
    match step
    case Enqueue(id) => s.(t := EnqueueSpec(s.t, id), phase := s.phase[id := Waiting])
    case Grant(id) => s.(t := s.t.(permits := s.t.permits - 1), phase := s.phase[id := Granted])
    case Start(id, now) => s.(t := StartSpec(s.t, id, now), phase := s.phase[id := Executing], clock := now)
    case Finish(id, now) =>
      s.(t := FinishSpec(s.t, id, now), phase := s.phase[id := Finishing], clock := now,
         observed := if Measured(s.t, id) then s.observed + [now - s.t.executing[id]] else s.observed)
    case Release(id) => s.(t := ReleaseSpec(s.t), phase := s.phase[id := Left])
    case Expire(id) => s.(phase := s.phase[id := Expired])
    case DropExpired(id) => s.(t := TimeoutSpec(s.t, id), phase := s.phase[id := Dropped])
    case FinishExpired(id, now) => s.(t := FinishSpec(s.t, id, now), phase := s.phase[id := Unreleased], clock := now)
    case ReleaseExpired(id) => s.(t := ReleaseSpec(s.t), phase := s.phase[id := Left], unearned := s.unearned + 1)
    case Resize(n, taken) =>
      s.(t := ResizeSpec(s.t, n, taken), missed := s.missed + (Lowered(s.t, n) - taken))
  }

  function Init(max: nat, avg: real, now: real): Queue {
    Queue(Tables(max, max, avg, [], map[], 0, 0, 0), map[], now, 0, 0, [])
  }

  predicate ValidRun(s: Queue, steps: seq<Step>)
    decreases |steps|
  {
    steps == [] || (Enabled(s, steps[0]) && ValidRun(Apply(s, steps[0]), steps[1..]))
  }

  function Run(s: Queue, steps: seq<Step>): Queue
    requires ValidRun(s, steps)
    decreases |steps|
  {
    if steps == [] then s else Run(Apply(s, steps[0]), steps[1..])
  }

  // ---------- Counting requests by phase ----------

  function Members(phase: map<TicketId, Phase>, ps: set<Phase>): set<TicketId> {
    set id | id in phase && phase[id] in ps
  }

  function Indicator(b: bool): nat {
    if b then 1 else 0
  }

  const HOLDING: set<Phase> := {Granted, Executing, Finishing}
  const LISTED: set<Phase> := {Waiting, Granted, Expired}
  const COUNTED: set<Phase> := {Dropped, Unreleased}

  lemma MoveCount(phase: map<TicketId, Phase>, id: TicketId, p: Phase, ps: set<Phase>)
    ensures |Members(phase[id := p], ps)|
         == |Members(phase, ps)| - Indicator(id in phase && phase[id] in ps) + Indicator(p in ps)
  {
    var before, after := Members(phase, ps), Members(phase[id := p], ps);
    assert after == (before - {id}) + (if p in ps then {id} else {});
  }

  // ---------- The invariant ----------

  /** The tables and the phases tell the same story. */
  ghost predicate Agree(s: Queue) {
    && NoDup(s.t.waiting)
    && (forall id :: id in s.t.waiting <==> id in s.phase && s.phase[id] in LISTED)
    && (forall id :: id in s.t.executing <==> Is(s, id, Executing))
    && (forall id :: id in s.t.executing ==> s.t.executing[id] <= s.clock)
  }

  /** Permits: the law with its two drift terms. */
  ghost predicate PermitLaw(s: Queue) {
    s.t.permits + |Members(s.phase, HOLDING)| == s.t.max + s.unearned + s.missed
  }

  ghost predicate CountLaw(s: Queue) {
    && s.t.enqueued == |s.t.waiting| + |s.t.executing| + s.t.executed + |Members(s.phase, {Dropped})|
    && s.t.timedOut == s.unearned + |Members(s.phase, COUNTED)|
  }

  ghost predicate AverageLaw(s: Queue, init: real) {
    && s.t.avg == Average(init, s.observed)
    && (forall i :: 0 <= i < |s.observed| ==> s.observed[i] >= 0.0)
  }

  ghost predicate Inv(s: Queue, init: real) {
    s.t.max >= 1 && Agree(s) && PermitLaw(s) && CountLaw(s) && AverageLaw(s, init)
  }

  lemma InitInv(max: nat, init: real, now: real)
    requires max >= 1
    ensures Inv(Init(max, init, now), init)
  {
    var s := Init(max, init, now);
    assert Members(s.phase, HOLDING) == {} && Members(s.phase, {Dropped}) == {} && Members(s.phase, COUNTED) == {};
  }

  lemma DropMembers(waiting: seq<TicketId>, id: TicketId)
    requires NoDup(waiting)
    ensures NoDup(Drop(waiting, id))
    ensures forall x :: x in Drop(waiting, id) <==> x in waiting && x != id
  {
    DropRemoves(waiting, id);
    forall x | x != id ensures x in Drop(waiting, id) <==> x in waiting {
      DropKeepsOrder(waiting, id, x);
    }
  }

  lemma DropKeepsAgreement(s: Queue, step: Step)
    requires Agree(s) && Enabled(s, step) && (step.Start? || step.DropExpired?)
    ensures Agree(Apply(s, step)) && step.id in s.t.waiting
  {
    hide Drop;
    DropMembers(s.t.waiting, step.id);
  }

  lemma EnqueueKeepsAgreement(s: Queue, step: Step)
    requires Agree(s) && Enabled(s, step) && step.Enqueue?
    ensures Agree(Apply(s, step))
  {}

  lemma PhaseKeepsAgreement(s: Queue, step: Step)
    requires Agree(s) && Enabled(s, step) && !step.Enqueue? && !step.Start? && !step.DropExpired?
    ensures Agree(Apply(s, step))
  {
    hide UpdatedAverage, EstimateWait;
    assert Apply(s, step).t.waiting == s.t.waiting;
    hide NoDup;
  }

  lemma AgreeStep(s: Queue, step: Step)
    requires Agree(s) && Enabled(s, step)
    ensures Agree(Apply(s, step))
    ensures step.Start? || step.DropExpired? ==> step.id in s.t.waiting
  {
    hide Agree, Apply;
    if step.Start? || step.DropExpired? {
      DropKeepsAgreement(s, step);
    } else if step.Enqueue? {
      EnqueueKeepsAgreement(s, step);
    } else {
      PhaseKeepsAgreement(s, step);
    }
  }

  lemma PermitStep(s: Queue, step: Step)
    requires PermitLaw(s) && Enabled(s, step)
    ensures PermitLaw(Apply(s, step))
  {
    if !step.Resize? {
      MoveCount(s.phase, step.id, Apply(s, step).phase[step.id], HOLDING);
    }
  }

  lemma TimedOutCount(s: Queue, step: Step)
    requires Enabled(s, step) && s.t.timedOut == s.unearned + |Members(s.phase, COUNTED)|
    ensures var t := Apply(s, step); t.t.timedOut == t.unearned + |Members(t.phase, COUNTED)|
  {
    if !step.Resize? {
      MoveCount(s.phase, step.id, Apply(s, step).phase[step.id], COUNTED);
    }
  }

  lemma WaitingCount(s: Queue, step: Step)
    requires Agree(s) && Enabled(s, step)
    ensures |Apply(s, step).t.waiting|
         == |s.t.waiting| + Indicator(step.Enqueue?) - Indicator(step.Start? || step.DropExpired?)
  {
    hide UpdatedAverage, Drop;
    if step.Start? || step.DropExpired? {
      DropRemoves(s.t.waiting, step.id);
    }
  }

  lemma ExecutingCount(s: Queue, step: Step)
    requires Agree(s) && Enabled(s, step)
    ensures |Apply(s, step).t.executing| == |s.t.executing| + Indicator(step.Start?) - Indicator(step.Finish?)
  {
    hide UpdatedAverage, Drop, NoDup;
    var t := Apply(s, step);
    if step.Start? {
      assert t.t.executing.Keys == s.t.executing.Keys + {step.id};
    } else if step.Finish? || step.FinishExpired? {
      assert t.t.executing.Keys == s.t.executing.Keys - {step.id};
    }
    assert |t.t.executing| == |t.t.executing.Keys| && |s.t.executing| == |s.t.executing.Keys|;
  }

  lemma DroppedCount(s: Queue, step: Step)
    requires Enabled(s, step)
    ensures |Members(Apply(s, step).phase, {Dropped})|
         == |Members(s.phase, {Dropped})| + Indicator(step.DropExpired?) - Indicator(step.FinishExpired?)
  {
    if !step.Resize? {
      MoveCount(s.phase, step.id, Apply(s, step).phase[step.id], {Dropped});
    }
  }

  lemma CountStep(s: Queue, step: Step)
    requires Agree(s) && CountLaw(s) && Enabled(s, step)
    ensures CountLaw(Apply(s, step))
  {
    TimedOutCount(s, step);
    WaitingCount(s, step);
    ExecutingCount(s, step);
    DroppedCount(s, step);
    hide Members, UpdatedAverage, Drop, Agree;
  }

  lemma AverageStep(s: Queue, step: Step, init: real)
    requires Agree(s) && AverageLaw(s, init) && Enabled(s, step)
    ensures AverageLaw(Apply(s, step), init)
  {
    if step.Finish? && Measured(s.t, step.id) {
      var x := step.now - s.t.executing[step.id];
      assert (s.observed + [x])[..|s.observed|] == s.observed;
    }
  }

  lemma InvStep(s: Queue, step: Step, init: real)
    requires Inv(s, init) && Enabled(s, step)
    ensures Inv(Apply(s, step), init)
  {
    hide Agree, PermitLaw, CountLaw, AverageLaw;
    AgreeStep(s, step);
    PermitStep(s, step);
    CountStep(s, step);
    AverageStep(s, step, init);
  }

  lemma {:induction false} RunInv(s: Queue, steps: seq<Step>, init: real)
    requires Inv(s, init) && ValidRun(s, steps)
    ensures Inv(Run(s, steps), init)
    decreases |steps|
  {
    if steps != [] {
      hide Inv, Enabled, Apply;
      InvStep(s, steps[0], init);
      RunInv(Apply(s, steps[0]), steps[1..], init);
    }
  }

  // ---------- Permits ----------

  lemma AfterInv(max: nat, init: real, now: real, steps: seq<Step>)
    requires max >= 1 && ValidRun(Init(max, init, now), steps)
    ensures Inv(Run(Init(max, init, now), steps), init)
  {
    InitInv(max, init, now);
    RunInv(Init(max, init, now), steps, init);
  }

  /** The exact permit law: permits and holders add up to the limit plus the timed-out requests
      that have already released, plus the permits shrinking failed to take. */
  lemma PermitsExactly(max: nat, init: real, now: real, steps: seq<Step>)
    requires max >= 1 && ValidRun(Init(max, init, now), steps)
    ensures var s := Run(Init(max, init, now), steps);
            && s.t.permits + |Members(s.phase, HOLDING)| + |Members(s.phase, COUNTED)| == s.t.max + s.t.timedOut + s.missed
            && |s.t.executing| <= |Members(s.phase, HOLDING)|
  {
    AfterInv(max, init, now, steps);
    var s := Run(Init(max, init, now), steps);
    ExecutingHold(s);
  }

  lemma ExecutingHold(s: Queue)
    requires Agree(s)
    ensures |s.t.executing| <= |Members(s.phase, HOLDING)|
  {
    assert s.t.executing.Keys <= Members(s.phase, HOLDING);
    SubsetSize(s.t.executing.Keys, Members(s.phase, HOLDING));
    assert |s.t.executing| == |s.t.executing.Keys|;
  }

  /** The concurrency limit governs the permits exactly while no timed-out request has released
      and no shrink has missed a permit; then no more than `max` requests execute. */
  lemma LimitHoldsExactly(max: nat, init: real, now: real, steps: seq<Step>)
    requires max >= 1 && ValidRun(Init(max, init, now), steps)
    ensures var s := Run(Init(max, init, now), steps);
            && (s.t.permits + |Members(s.phase, HOLDING)| == s.t.max <==> s.unearned == 0 && s.missed == 0)
            && (s.t.timedOut == 0 && s.missed == 0 ==> |s.t.executing| <= s.t.max)
            && |s.t.executing| <= s.t.max + s.t.timedOut + s.missed
  {
    AfterInv(max, init, now, steps);
    ExecutingHold(Run(Init(max, init, now), steps));
  }

  /** No request times out, and a resize that lowers the limit takes all its permits. */
  predicate QuietRun(s: Queue, steps: seq<Step>)
    requires ValidRun(s, steps)
    decreases |steps|
  {
    steps == [] ||
    (!steps[0].Expire? && (steps[0].Resize? ==> steps[0].taken == Lowered(s.t, steps[0].n)) && QuietRun(Apply(s, steps[0]), steps[1..]))
  }

  predicate NobodyExpired(s: Queue) {
    forall id :: id in s.phase ==> s.phase[id] !in COUNTED + {Expired}
  }

  lemma {:induction false} QuietRunDrift(s: Queue, steps: seq<Step>)
    requires ValidRun(s, steps) && QuietRun(s, steps) && NobodyExpired(s)
    ensures var t := Run(s, steps); t.unearned == s.unearned && t.missed == s.missed && NobodyExpired(t)
    decreases |steps|
  {
    if steps != [] {
      QuietRunDrift(Apply(s, steps[0]), steps[1..]);
    }
  }

  /** The intended law, on every run that avoids the two departures. */
  lemma QuietRunsKeepTheLimit(max: nat, init: real, now: real, steps: seq<Step>)
    requires max >= 1 && ValidRun(Init(max, init, now), steps) && QuietRun(Init(max, init, now), steps)
    ensures var s := Run(Init(max, init, now), steps);
            s.t.permits + |Members(s.phase, HOLDING)| == s.t.max && |s.t.executing| <= s.t.max
  {
    AfterInv(max, init, now, steps);
    QuietRunDrift(Init(max, init, now), steps);
    ExecutingHold(Run(Init(max, init, now), steps));
  }

  /** Every enqueued request is waiting, executing, accounted for as executed, or between the
      two sections of a timeout. */
  lemma RequestsConserved(max: nat, init: real, now: real, steps: seq<Step>)
    requires max >= 1 && ValidRun(Init(max, init, now), steps)
    ensures var s := Run(Init(max, init, now), steps);
            && s.t.enqueued == |s.t.waiting| + |s.t.executing| + s.t.executed + |Members(s.phase, {Dropped})|
            && s.t.timedOut == s.unearned + |Members(s.phase, COUNTED)|
  {
    AfterInv(max, init, now, steps);
  }

  // ---------- Order and estimates ----------

  lemma PositionStep(s: Queue, step: Step, id: TicketId)
    requires Agree(s) && Enabled(s, step)
    requires id in s.t.waiting && id in Apply(s, step).t.waiting
    ensures PositionOf(Apply(s, step).t.waiting, id) <= PositionOf(s.t.waiting, id)
  {
    match step
    case Enqueue(other) => AppendKeepsPosition(s.t.waiting, other, id);
    case Start(other, _) =>
      DropRemoves(s.t.waiting, other);
      DropKeepsOrder(s.t.waiting, other, id);
    case DropExpired(other) =>
      DropRemoves(s.t.waiting, other);
      DropKeepsOrder(s.t.waiting, other, id);
    case _ =>
  }

  /** A ticket that has left the queue never comes back. */
  lemma {:induction false} GoneForGood(s: Queue, steps: seq<Step>, id: TicketId, init: real)
    requires Inv(s, init) && ValidRun(s, steps) && id in s.phase && id !in s.t.waiting
    ensures id !in Run(s, steps).t.waiting
    decreases |steps|
  {
    if steps != [] {
      InvStep(s, steps[0], init);
      GoneForGood(Apply(s, steps[0]), steps[1..], id, init);
    }
  }

  /** While a ticket waits its position never increases. */
  lemma {:induction false} PositionsNeverIncrease(s: Queue, steps: seq<Step>, id: TicketId, init: real)
    requires Inv(s, init) && ValidRun(s, steps)
    requires id in s.t.waiting && id in Run(s, steps).t.waiting
    ensures PositionOf(Run(s, steps).t.waiting, id) <= PositionOf(s.t.waiting, id)
    decreases |steps|
  {
    if steps != [] {
      var t := Apply(s, steps[0]);
      InvStep(s, steps[0], init);
      if id !in t.t.waiting {
        GoneForGood(t, steps[1..], id, init);
      }
      PositionStep(s, steps[0], id);
      PositionsNeverIncrease(t, steps[1..], id, init);
    }
  }

  lemma EstimatesOrdered(max: nat, init: real, now: real, steps: seq<Step>, i: nat, j: nat)
    requires max >= 1 && init >= 0.0 && ValidRun(Init(max, init, now), steps)
    requires i <= j
    ensures var s := Run(Init(max, init, now), steps);
            s.t.max >= 1 && s.t.avg >= 0.0
            && EstimateWait(i, s.t.max, s.t.avg) <= EstimateWait(j, s.t.max, s.t.avg)
  {
    AfterInv(max, init, now, steps);
    var s := Run(Init(max, init, now), steps);
    NonNegativeAverage(init, s.observed);
    EstimatesGrow(i, j, s.t.max, s.t.avg);
  }

  lemma {:induction false} NonNegativeAverage(init: real, times: seq<real>)
    requires init >= 0.0 && forall i :: 0 <= i < |times| ==> times[i] >= 0.0
    ensures Average(init, times) >= 0.0
  {
    if times != [] {
      NonNegativeAverage(init, times[..|times| - 1]);
    }
  }

  // ---------- A run that exceeds the limit ----------

  lemma {:induction false} Extend(s: Queue, steps: seq<Step>, step: Step)
    requires ValidRun(s, steps) && Enabled(Run(s, steps), step)
    ensures ValidRun(s, steps + [step])
    ensures Run(s, steps + [step]) == Apply(Run(s, steps), step)
    decreases |steps|
  {
    if steps == [] {
      assert [] + [step] == [step] && [step][1..] == [];
    } else {
      assert (steps + [step])[1..] == steps[1..] + [step];
      Extend(Apply(s, steps[0]), steps[1..], step);
    }
  }

  const START: Queue := Init(1, 5.0, 0.0)

  lemma OneWaiter(s: Queue, id: TicketId)
    requires s.t.waiting == [id] && Is(s, id, Waiting)
    ensures IsNext(s, id)
  {
    SelectAll(s.t.waiting, Members(s.phase, {Waiting}));
  }

  const FIRST_RUNS: seq<Step> := [Enqueue(0), Grant(0), Start(0, 1.0)]

  /** A request that finds nobody waiting and a permit free: it comes, */
  lemma ComesAlone(s: Queue, id: TicketId)
    requires s.t.waiting == [] && id !in s.phase && s.t.permits > 0
    ensures Enabled(s, Enqueue(id))
    ensures var s1 := Apply(s, Enqueue(id));
            && Enabled(s1, Grant(id)) && Is(s1, id, Waiting)
            && s1 == s.(t := s.t.(waiting := [id], enqueued := s.t.enqueued + 1), phase := s.phase[id := Waiting])
  {
    OneWaiter(Apply(s, Enqueue(id)), id);
    hide Waiters, Members;
  }

  /** and it starts. */
  lemma StartsAlone(s: Queue, id: TicketId, now: real)
    requires s.t.waiting == [id] && Is(s, id, Waiting) && Enabled(s, Grant(id)) && s.clock <= now
    ensures var s1 := Apply(s, Grant(id));
            && Enabled(s1, Start(id, now))
            && var s2 := Apply(s1, Start(id, now));
               && s2.t == s.t.(waiting := [], permits := s.t.permits - 1, executing := s.t.executing[id := now])
               && s2 == s.(t := s2.t, phase := s.phase[id := Granted][id := Executing], clock := now)
  {
    hide Waiters, Members;
    assert [id][1..] == [];
  }

  lemma FirstRuns()
    ensures ValidRun(START, FIRST_RUNS)
    ensures Run(START, FIRST_RUNS) == Queue(Tables(0, 1, 5.0, [], map[0 := 1.0], 1, 0, 0), map[0 := Executing], 1.0, 0, 0, [])
  {
    assert ValidRun(START, []) && Run(START, []) == START;
    ComesAlone(START, 0);
    StartsAlone(Apply(START, Enqueue(0)), 0, 1.0);
    assert map[0 := Waiting][0 := Granted][0 := Executing] == map[0 := Executing];
    hide Apply, Enabled, ValidRun, Run;
    Extend(START, [], Enqueue(0));
    var w1 := [] + [Enqueue(0)];
    Extend(START, w1, Grant(0));
    var w2 := w1 + [Grant(0)];
    Extend(START, w2, Start(0, 1.0));
    assert w2 + [Start(0, 1.0)] == FIRST_RUNS;
  }

  const SECOND_EXPIRES: seq<Step> := [Enqueue(1), Expire(1), DropExpired(1), FinishExpired(1, 2.0), ReleaseExpired(1)]

  lemma SecondExpires()
    ensures ValidRun(START, FIRST_RUNS + SECOND_EXPIRES)
    ensures Run(START, FIRST_RUNS + SECOND_EXPIRES)
         == Queue(Tables(1, 1, 5.0, [], map[0 := 1.0], 2, 1, 1), map[0 := Executing, 1 := Left], 2.0, 0, 1, [])
  {
    FirstRuns();
    var w3 := FIRST_RUNS;
    Extend(START, w3, Enqueue(1));
    var w4 := w3 + [Enqueue(1)];
    Extend(START, w4, Expire(1));
    var w5 := w4 + [Expire(1)];
    Extend(START, w5, DropExpired(1));
    var w6 := w5 + [DropExpired(1)];
    Extend(START, w6, FinishExpired(1, 2.0));
    var w7 := w6 + [FinishExpired(1, 2.0)];
    Extend(START, w7, ReleaseExpired(1));
    assert w7 + [ReleaseExpired(1)] == FIRST_RUNS + SECOND_EXPIRES;
  }

  /** With a limit of one, a request that times out in the queue lets a third one start beside
      the first. */
  lemma TimeoutAdmitsTwo()
    ensures exists steps :: ValidRun(START, steps) && Run(START, steps).t.max == 1 && |Run(START, steps).t.executing| == 2
  {
    hide *;
    SecondExpires();
    var w8 := FIRST_RUNS + SECOND_EXPIRES;
    ComesAlone(Run(START, w8), 2);
    StartsAlone(Apply(Run(START, w8), Enqueue(2)), 2, 3.0);
    Extend(START, w8, Enqueue(2));
    var w9 := w8 + [Enqueue(2)];
    Extend(START, w9, Grant(2));
    var w10 := w9 + [Grant(2)];
    Extend(START, w10, Start(2, 3.0));
    var w11 := w10 + [Start(2, 3.0)];
    var t := Run(START, w11).t;
    assert t.executing.Keys == {0, 2} && |t.executing| == |t.executing.Keys|;
  }
}
