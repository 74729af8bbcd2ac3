/** How far the limit of the execution queue can be exceeded, and in which order requests wait
    (app/services/execution_queue.py). */
module QueueLimits {
  import opened Basics
  import opened QueueSpec
  import opened QueueRuns

  // ---------- The ceiling ----------

  /** Nobody else times out and the limit stays as it is. */
  predicate Steady(steps: seq<Step>) {
    forall i :: 0 <= i < |steps| ==> !steps[i].Expire? && !steps[i].Resize?
  }

  /** The requests that have timed out and will still release a permit. */
  const DOOMED: set<Phase> := {Expired, Dropped, Unreleased}

  /** The limit, plus the permits given away by timeouts and missed by shrinking, plus those that
      requests already timed out are still going to give away. */
  function Ceiling(s: Queue): nat {
    s.t.max + s.unearned + s.missed + |Members(s.phase, DOOMED)|
  }

  lemma CeilingStep(s: Queue, step: Step)
    requires Enabled(s, step) && !step.Expire? && !step.Resize?
    ensures Ceiling(Apply(s, step)) == Ceiling(s) && Apply(s, step).t.max == s.t.max
  {
    MoveCount(s.phase, step.id, Apply(s, step).phase[step.id], DOOMED);
  }

  lemma {:induction false} CeilingStays(s: Queue, steps: seq<Step>)
    requires ValidRun(s, steps) && Steady(steps)
    ensures Ceiling(Run(s, steps)) == Ceiling(s) && Run(s, steps).t.max == s.t.max
    decreases |steps|
  {
    if steps != [] {
      hide Apply, Enabled, Ceiling;
      CeilingStep(s, steps[0]);
      var rest := steps[1..];
      assert forall i :: 0 <= i < |rest| ==> rest[i] == steps[i + 1];
      CeilingStays(Apply(s, steps[0]), rest);
    }
  }

  /** No steady continuation takes the executing requests above the ceiling. */
  lemma NeverAboveCeiling(s: Queue, steps: seq<Step>, init: real)
    requires Inv(s, init) && ValidRun(s, steps) && Steady(steps)
    ensures |Run(s, steps).t.executing| <= Ceiling(s)
  {
    CeilingStays(s, steps);
    RunInv(s, steps, init);
    var t := Run(s, steps);
    hide ValidRun, Run, Members, AverageLaw, CountLaw;
    ExecutingHold(t);
  }

  // ---------- Reaching it ----------

  /** How many steps are still needed until every permit in use belongs to an executing request. */
  function Work(s: Queue): nat {
    3 * |Members(s.phase, {Expired})| + 2 * |Members(s.phase, {Dropped})| + |Members(s.phase, {Unreleased, Finishing, Granted})|
  }

  /** The next step of a request on its way out, or on its way in with a permit. */
  function NextStep(s: Queue, id: TicketId): Step
    requires id in s.phase && s.phase[id] in {Expired, Dropped, Unreleased, Finishing, Granted}
  {
    match s.phase[id]
    case Expired => DropExpired(id)
    case Dropped => FinishExpired(id, s.clock)
    case Unreleased => ReleaseExpired(id)
    case Finishing => Release(id)
    case _ => Start(id, s.clock)
  }

  lemma WorkStep(s: Queue, id: TicketId)
    requires id in s.phase && s.phase[id] in {Expired, Dropped, Unreleased, Finishing, Granted}
    ensures Enabled(s, NextStep(s, id)) && Work(Apply(s, NextStep(s, id))) < Work(s)
    ensures !NextStep(s, id).Expire? && !NextStep(s, id).Resize?
  {
    var p := Apply(s, NextStep(s, id)).phase[id];
    MoveCount(s.phase, id, p, {Expired});
    MoveCount(s.phase, id, p, {Dropped});
    MoveCount(s.phase, id, p, {Unreleased, Finishing, Granted});
  }

  lemma RunCons(s: Queue, step: Step, rest: seq<Step>)
    requires Enabled(s, step) && ValidRun(Apply(s, step), rest)
    ensures ValidRun(s, [step] + rest)
    ensures Run(s, [step] + rest) == Run(Apply(s, step), rest)
    ensures Steady(rest) && !step.Expire? && !step.Resize? ==> Steady([step] + rest)
  {
    assert ([step] + rest)[1..] == rest;
  }

  /** The first waiter gets a free permit and starts. */
  lemma FirstWaiter(s: Queue, id: TicketId)
    requires s.t.permits > 0 && Waiters(s) != [] && Waiters(s)[0] == id
    ensures Enabled(s, Grant(id))
    ensures var s1 := Apply(s, Grant(id));
            && Enabled(s1, Start(id, s1.clock))
            && var s2 := Apply(s1, Start(id, s1.clock));
               s2.t.permits == s.t.permits - 1 && Work(s2) == Work(s)
  {
    assert id in Waiters(s);
    var p := s.phase[id := Granted];
    PassedBy(s.phase, id, {Expired});
    PassedBy(s.phase, id, {Dropped});
    MoveCount(s.phase, id, Granted, {Unreleased, Finishing, Granted});
    MoveCount(p, id, Executing, {Unreleased, Finishing, Granted});
    hide Members, Select;
  }

  lemma PassedBy(phase: map<TicketId, Phase>, id: TicketId, ps: set<Phase>)
    requires id in phase && phase[id] !in ps && Granted !in ps && Executing !in ps
    ensures |Members(phase[id := Granted][id := Executing], ps)| == |Members(phase, ps)|
  {
    MoveCount(phase, id, Granted, ps);
    MoveCount(phase[id := Granted], id, Executing, ps);
  }

  /** When nobody waits a new request may come. */
  lemma Newcomer(s: Queue, id: TicketId)
    requires id !in s.phase
    ensures Enabled(s, Enqueue(id))
    ensures var t := Apply(s, Enqueue(id)); t.t.permits == s.t.permits && Work(t) == Work(s) && Waiters(t) != []
  {
    var t := Apply(s, Enqueue(id));
    MoveCount(s.phase, id, Waiting, {Expired});
    MoveCount(s.phase, id, Waiting, {Dropped});
    MoveCount(s.phase, id, Waiting, {Unreleased, Finishing, Granted});
    assert t.t.waiting[|s.t.waiting|] == id;
    assert id in Waiters(t);
  }

  /** Nothing is left to do: every holder is listed as executing and no permit is free. */
  lemma NothingLeft(s: Queue)
    requires Agree(s) && PermitLaw(s) && s.t.permits == 0
    requires forall id :: id in s.phase ==> s.phase[id] !in {Expired, Dropped, Unreleased, Finishing, Granted}
    ensures |s.t.executing| == Ceiling(s)
  {
    assert Members(s.phase, DOOMED) == {};
    assert Members(s.phase, HOLDING) == s.t.executing.Keys;
    assert |s.t.executing| == |s.t.executing.Keys|;
  }

  lemma Onward(s: Queue, step: Step, init: real)
    requires Inv(s, init) && Enabled(s, step) && !step.Expire? && !step.Resize?
    ensures Inv(Apply(s, step), init) && Ceiling(Apply(s, step)) == Ceiling(s)
  {
    hide Inv, Ceiling, Enabled, Apply;
    InvStep(s, step, init);
    CeilingStep(s, step);
  }

  /** Every reachable state has a steady continuation that reaches its ceiling: whoever is on the
      way out leaves, whoever holds a permit starts, those who wait take the free permits in their
      order, and then new requests do. */
  lemma ReachCeiling(s: Queue, init: real) returns (steps: seq<Step>)
    requires Inv(s, init)
    ensures ValidRun(s, steps) && Steady(steps)
    ensures |Run(s, steps).t.executing| == Ceiling(s)
    decreases Work(s), s.t.permits, Waiters(s) == []
  {
    if id :| id in s.phase && s.phase[id] in {Expired, Dropped, Unreleased, Finishing, Granted} {
      hide Apply, Enabled, Work, Ceiling, Inv, Waiters;
      WorkStep(s, id);
      Onward(s, NextStep(s, id), init);
      var rest := ReachCeiling(Apply(s, NextStep(s, id)), init);
      RunCons(s, NextStep(s, id), rest);
      steps := [NextStep(s, id)] + rest;
    } else if s.t.permits > 0 && Waiters(s) != [] {
      var id := Waiters(s)[0];
      hide Apply, Enabled, Work, Ceiling, Inv;
      FirstWaiter(s, id);
      hide Waiters;
      var s1 := Apply(s, Grant(id));
      Onward(s, Grant(id), init);
      Onward(s1, Start(id, s1.clock), init);
      var rest := ReachCeiling(Apply(s1, Start(id, s1.clock)), init);
      RunCons(s1, Start(id, s1.clock), rest);
      RunCons(s, Grant(id), [Start(id, s1.clock)] + rest);
      steps := [Grant(id)] + ([Start(id, s1.clock)] + rest);
    } else if s.t.permits > 0 {
      var id := FreshTicket(s);
      hide Apply, Enabled, Work, Ceiling, Inv, Waiters;
      Newcomer(s, id);
      Onward(s, Enqueue(id), init);
      var rest := ReachCeiling(Apply(s, Enqueue(id)), init);
      RunCons(s, Enqueue(id), rest);
      steps := [Enqueue(id)] + rest;
    } else {
      steps := [];
      NothingLeft(s);
    }
  }

  lemma FreshTicket(s: Queue) returns (id: TicketId)
    ensures id !in s.phase
  {
    id := FreshNat(s.phase.Keys);
  }

  /** In every reachable state: some steady continuation has as many requests executing as the
      ceiling says, none has more; so the limit holds on all of them if and only if no permit was
      given away or missed and no timed-out request is still about to give one away. */
  lemma LimitKeptExactly(max: nat, init: real, now: real, steps: seq<Step>)
    requires max >= 1 && ValidRun(Init(max, init, now), steps)
    ensures var s := Run(Init(max, init, now), steps);
            && (exists more :: ValidRun(s, more) && Steady(more) && |Run(s, more).t.executing| == Ceiling(s))
            && (forall more :: ValidRun(s, more) && Steady(more) ==> |Run(s, more).t.executing| <= Ceiling(s))
            && ((forall more :: ValidRun(s, more) && Steady(more) ==> |Run(s, more).t.executing| <= s.t.max)
                <==> s.unearned == 0 && s.missed == 0 && Members(s.phase, DOOMED) == {})
  {
    AfterInv(max, init, now, steps);
    var s := Run(Init(max, init, now), steps);
    hide ValidRun, Run, Inv, Steady, Members;
    var more := ReachCeiling(s, init);
    forall m | ValidRun(s, m) && Steady(m) ensures |Run(s, m).t.executing| <= Ceiling(s) {
      NeverAboveCeiling(s, m, init);
    }
    assert |Members(s.phase, DOOMED)| == 0 <==> Members(s.phase, DOOMED) == {};
  }

  // ---------- Order ----------

  /** The tickets in the order of their arrival. */
  function Arrivals(steps: seq<Step>): seq<TicketId> {
    if steps == [] then []
    else (if steps[0].Enqueue? then [steps[0].id] else []) + Arrivals(steps[1..])
  }

  function SetOf(ids: seq<TicketId>): set<TicketId> {
    set id | id in ids
  }

  lemma {:induction false} SelectDropped(ids: seq<TicketId>, id: TicketId, keep: set<TicketId>)
    requires id !in keep
    ensures Select(Drop(ids, id), keep) == Select(ids, keep)
  {
    hide NoDup, Select;
    if ids != [] {
      assert ids == [ids[0]] + ids[1..];
      SelectPlus([ids[0]], ids[1..], keep);
      SelectOne(ids[0], keep);
      if ids[0] != id {
        SelectPlus([ids[0]], Drop(ids[1..], id), keep);
        SelectDropped(ids[1..], id, keep);
      }
    }
  }

  lemma SelectOne(id: TicketId, keep: set<TicketId>)
    ensures Select([id], keep) == if id in keep then [id] else []
  {
    assert [id][..0] == [];
  }

  lemma {:induction false} WaitingFollows(s: Queue, steps: seq<Step>, init: real)
    requires Inv(s, init) && ValidRun(s, steps)
    ensures var w := Run(s, steps).t.waiting; w == Select(s.t.waiting + Arrivals(steps), SetOf(w))
    decreases |steps|
  {
    hide Select, Inv;
    if steps == [] {
      assert s.t.waiting + [] == s.t.waiting;
      SelectAll(s.t.waiting, SetOf(s.t.waiting));
    } else {
      var t, rest := Apply(s, steps[0]), steps[1..];
      InvStep(s, steps[0], init);
      WaitingFollows(t, rest, init);
      var keep := SetOf(Run(s, steps).t.waiting);
      ArrivalStep(s, steps[0], rest, keep, init);
    }
  }

  lemma ArrivalStep(s: Queue, step: Step, rest: seq<Step>, keep: set<TicketId>, init: real)
    requires Inv(s, init) && Enabled(s, step) && ValidRun(Apply(s, step), rest)
    requires keep == SetOf(Run(Apply(s, step), rest).t.waiting)
    ensures Select(Apply(s, step).t.waiting + Arrivals(rest), keep)
         == Select(s.t.waiting + ((if step.Enqueue? then [step.id] else []) + Arrivals(rest)), keep)
  {
    hide Select, Arrivals, Inv;
    var w, later := s.t.waiting, Arrivals(rest);
    assert [] + later == later;
    if step.Start? || step.DropExpired? {
      LeavesForGood(s, step, rest, init);
      hide Apply, Enabled, Run, ValidRun;
      SelectPlus(Drop(w, step.id), later, keep);
      SelectPlus(w, later, keep);
      SelectDropped(w, step.id, keep);
    } else {
      OthersWait(s, step);
      hide Apply, Enabled, Run, ValidRun;
      if step.Enqueue? {
        Assoc(w, [step.id], later);
      }
    }
  }

  lemma OthersWait(s: Queue, step: Step)
    requires Enabled(s, step) && !step.Start? && !step.DropExpired?
    ensures Apply(s, step).t.waiting == if step.Enqueue? then s.t.waiting + [step.id] else s.t.waiting
  {
    hide UpdatedAverage;
  }

  lemma LeavesForGood(s: Queue, step: Step, rest: seq<Step>, init: real)
    requires Inv(s, init) && Enabled(s, step) && (step.Start? || step.DropExpired?) && ValidRun(Apply(s, step), rest)
    ensures step.id !in Run(Apply(s, step), rest).t.waiting
    ensures Apply(s, step).t.waiting == Drop(s.t.waiting, step.id)
  {
    InvStep(s, step, init);
    DropRemoves(s.t.waiting, step.id);
    GoneForGood(Apply(s, step), rest, step.id, init);
  }

  /** In every reachable state the tickets that wait stand in the order of their arrival. */
  lemma WaitingInArrivalOrder(max: nat, init: real, now: real, steps: seq<Step>)
    requires max >= 1 && ValidRun(Init(max, init, now), steps)
    ensures var w := Run(Init(max, init, now), steps).t.waiting;
            w == Select(Arrivals(steps), SetOf(w))
  {
    InitInv(max, init, now);
    WaitingFollows(Init(max, init, now), steps, init);
    assert [] + Arrivals(steps) == Arrivals(steps);
  }

  // ---------- Who gets a permit when ----------

  /** The tickets in the order in which they got their permits. */
  function Grants(steps: seq<Step>): seq<TicketId> {
    if steps == [] then []
    else (if steps[0].Grant? then [steps[0].id] else []) + Grants(steps[1..])
  }

  /** A ticket arrives once and is granted a permit only while it waits. */
  lemma {:induction false} OnlyOnce(s: Queue, steps: seq<Step>, id: TicketId)
    requires ValidRun(s, steps) && id in s.phase
    ensures id !in Arrivals(steps)
    ensures s.phase[id] != Waiting ==> id !in Grants(steps)
    decreases |steps|
  {
    if steps != [] {
      PhaseStays(s, steps[0], id);
      hide Apply, Enabled;
      OnlyOnce(Apply(s, steps[0]), steps[1..], id);
    }
  }

  lemma PhaseStays(s: Queue, step: Step, id: TicketId)
    requires Enabled(s, step) && id in s.phase
    ensures id in Apply(s, step).phase
    ensures s.phase[id] != Waiting ==> Apply(s, step).phase[id] != Waiting
    ensures step.Enqueue? ==> step.id != id
    ensures step.Grant? && step.id == id ==> s.phase[id] == Waiting && Apply(s, step).phase[id] != Waiting
  {
    hide Waiters;
  }

  /** What a step does to those who wait for the semaphore. */
  lemma WaitersAfter(s: Queue, step: Step)
    requires Agree(s) && Enabled(s, step)
    ensures var w := Waiters(Apply(s, step));
            && (step.Enqueue? ==> w == Waiters(s) + [step.id])
            && (step.Grant? ==> Waiters(s) == [step.id] + w && step.id !in w)
            && (step.Expire? ==> w == Select(Waiters(s), SetOf(Waiters(s)) - {step.id}))
            && (!step.Enqueue? && !step.Grant? && !step.Expire? ==> w == Waiters(s))
  {
    var t := Apply(s, step);
    var before, after := Members(s.phase, {Waiting}), Members(t.phase, {Waiting});
    if step.Enqueue? {
      SelectSame(s.t.waiting, before, after);
      SelectLast(s.t.waiting, step.id, after);
    } else if step.Grant? || step.Expire? {
      assert t.t.waiting == s.t.waiting && after == before - {step.id};
      LeavesWaiters(s.t.waiting, before, step.id);
    } else if step.Start? || step.DropExpired? {
      SelectDropped(s.t.waiting, step.id, before);
      DropMembers(s.t.waiting, step.id);
      SelectSame(t.t.waiting, before, after);
    } else {
      assert t.t.waiting == s.t.waiting;
      SelectSame(s.t.waiting, before, after);
    }
  }

  lemma LeavesWaiters(w: seq<TicketId>, keep: set<TicketId>, id: TicketId)
    requires NoDup(w)
    ensures var before, after := Select(w, keep), Select(w, keep - {id});
            && after == Select(before, SetOf(before) - {id})
            && (before != [] && before[0] == id ==> before == [id] + after && id !in after)
  {
    hide Select;
    var before, after := Select(w, keep), Select(w, keep - {id});
    SelectTwice(w, keep, keep - {id});
    assert keep * (keep - {id}) == keep - {id};
    SelectSame(before, keep - {id}, SetOf(before) - {id});
    if before != [] && before[0] == id {
      var rest := before[1..];
      NotInRest(before);
      assert before == [id] + rest;
      FirstOut(id, rest);
    }
  }

  lemma NotInRest(w: seq<TicketId>)
    requires NoDup(w) && w != []
    ensures w[0] !in w[1..]
  {}

  lemma FirstOut(id: TicketId, rest: seq<TicketId>)
    requires id !in rest
    ensures Select([id] + rest, SetOf([id] + rest) - {id}) == rest
  {
    hide Select;
    var keep := SetOf([id] + rest) - {id};
    SelectPlus([id], rest, keep);
    SelectOne(id, keep);
    SelectAll(rest, keep);
  }

  lemma {:induction false} GrantsFollow(s: Queue, steps: seq<Step>, init: real)
    requires Inv(s, init) && ValidRun(s, steps)
    ensures Grants(steps) == Select(Waiters(s) + Arrivals(steps), SetOf(Grants(steps)))
    decreases |steps|
  {
    if steps == [] {
      SelectNone(Waiters(s) + Arrivals(steps));
      assert SetOf(Grants(steps)) == {};
    } else {
      var t, rest := Apply(s, steps[0]), steps[1..];
      InvStep(s, steps[0], init);
      GrantsFollow(t, rest, init);
      hide Run, Waiters, Select, Agree, PermitLaw, CountLaw, AverageLaw, Apply, Enabled;
      GrantStep(s, steps[0], rest);
    }
  }

  lemma {:induction false} SelectNone(w: seq<TicketId>)
    ensures Select(w, {}) == []
  {
    hide NoDup;
    if w != [] {
      SelectNone(w[..|w| - 1]);
    }
  }

  lemma GrantStep(s: Queue, step: Step, rest: seq<Step>)
    requires Agree(s) && Enabled(s, step) && ValidRun(Apply(s, step), rest)
    requires Grants(rest) == Select(Waiters(Apply(s, step)) + Arrivals(rest), SetOf(Grants(rest)))
    ensures var grants := (if step.Grant? then [step.id] else []) + Grants(rest);
            grants == Select(Waiters(s) + ((if step.Enqueue? then [step.id] else []) + Arrivals(rest)), SetOf(grants))
  {
    hide *;
    WaitersAfter(s, step);
    GoneFromWaiters(s, step, rest);
    var w, later, more := Waiters(Apply(s, step)), Arrivals(rest), Grants(rest);
    assert [] + more == more && [] + later == later;
    if step.Enqueue? {
      Assoc(Waiters(s), [step.id], later);
    } else if step.Grant? {
      GrantedFirst(step.id, w, later, more);
    } else if step.Expire? {
      ExpiredSkipped(step.id, Waiters(s), later, more);
    }
  }

  lemma GoneFromWaiters(s: Queue, step: Step, rest: seq<Step>)
    requires Enabled(s, step) && ValidRun(Apply(s, step), rest)
    ensures step.Grant? || step.Expire? ==> step.id !in Arrivals(rest) && step.id !in Grants(rest)
  {
    if step.Grant? || step.Expire? {
      assert step.id in Apply(s, step).phase && Apply(s, step).phase[step.id] != Waiting;
      hide Apply, Enabled, ValidRun;
      OnlyOnce(Apply(s, step), rest, step.id);
    }
  }

  lemma GrantedFirst(id: TicketId, w: seq<TicketId>, later: seq<TicketId>, more: seq<TicketId>)
    requires id !in w && id !in later && more == Select(w + later, SetOf(more))
    ensures [id] + more == Select(([id] + w) + later, SetOf([id] + more))
  {
    hide Select;
    var keep := SetOf([id] + more);
    Assoc([id], w, later);
    SelectPlus([id], w + later, keep);
    SelectOne(id, keep);
    SelectSame(w + later, keep, SetOf(more));
  }

  lemma ExpiredSkipped(id: TicketId, w: seq<TicketId>, later: seq<TicketId>, more: seq<TicketId>)
    requires id !in more && more == Select(Select(w, SetOf(w) - {id}) + later, SetOf(more))
    ensures more == Select(w + later, SetOf(more))
  {
    hide Select;
    var keep, others := SetOf(more), SetOf(w) - {id};
    SelectPlus(Select(w, others), later, keep);
    SelectPlus(w, later, keep);
    SelectTwice(w, others, keep);
    SelectSame(w, others * keep, keep);
  }

  /** On every run the permits are given out in the order of arrival. */
  lemma GrantedInArrivalOrder(max: nat, init: real, now: real, steps: seq<Step>)
    requires max >= 1 && ValidRun(Init(max, init, now), steps)
    ensures Grants(steps) == Select(Arrivals(steps), SetOf(Grants(steps)))
  {
    InitInv(max, init, now);
    GrantsFollow(Init(max, init, now), steps, init);
    assert Waiters(Init(max, init, now)) == [];
    assert [] + Arrivals(steps) == Arrivals(steps);
  }
}
