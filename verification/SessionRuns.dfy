/** The session store over whole runs with failing writes and crashes
    (app/services/session_store.py).

    An operation changes memory, then its write reaches the table; the process may die before,
    between and after, and starts again from the rows it finds. */
module SessionRuns {
  import opened Basics
  import opened SessionSpec

  /** What the holder of the store's lock is still waiting for. */
  datatype Pending = Idle | Writing(write: Write) | Cleaning(id: SessionId, rest: seq<SessionId>)

  /** `rewritten` are the ids whose row was written since the last start, `failed` those whose
      last write since then was lost. */
  datatype Store = Store(
    memory: map<SessionId, Session>,
    rows: map<SessionId, Row>,
    pending: Pending,
    rewritten: set<SessionId>,
    failed: set<SessionId>,
    clock: real)

  datatype Step =
    | Begin(op: Operation)
    | BeginCleanup(ids: seq<SessionId>, now: real)
    | Commit(ok: bool)
    | Crash(now: real)

  function IdSet(ids: seq<SessionId>): set<SessionId> {
    set id | id in ids
  }

  function Start(rows: map<SessionId, Row>, limits: Limits, now: real): Store {
    Store(Restored(rows, limits, now), Surviving(rows, limits, now), Idle, {}, {}, now)
  }

  predicate Enabled(s: Store, limits: Limits, step: Step) {
    match step
    case Begin(op) => s.pending.Idle? && (op.RemoveFile? || op.Delete? || s.clock <= op.now)
    case BeginCleanup(ids, now) =>
      s.pending.Idle? && s.clock <= now && NoDup(ids) && IdSet(ids) == ExpiredIds(s.memory, limits, now)
    case Commit(_) => !s.pending.Idle?
    case Crash(now) => s.clock <= now
  }

  /** The next removal of a cleanup, or its end. */
  function Continue(s: Store, rest: seq<SessionId>): Store {
    if rest == [] then s.(pending := Idle)
    else s.(memory := s.memory - {rest[0]}, pending := Cleaning(rest[0], rest[1..]))
  }

  function Written(s: Store, write: Write, ok: bool): Store {
    if write.Nothing? then s
    else s.(rows := RowsAfter(s.rows, s.memory, write, ok),
            rewritten := if ok then s.rewritten + {write.id} else s.rewritten,
            failed := if ok then s.failed - {write.id} else s.failed + {write.id})
  }

  function Apply(s: Store, limits: Limits, step: Step): Store
    requires Enabled(s, limits, step)
  {
    match step
    case Begin(op) =>
      var write := WriteOf(s.memory, op);
      s.(memory := MemoryAfter(s.memory, op),
         pending := if write.Nothing? then Idle else Writing(write),
         clock := if op.RemoveFile? || op.Delete? then s.clock else op.now)
    case BeginCleanup(ids, now) => Continue(s.(clock := now), ids)
    case Commit(ok) =>
      (match s.pending
       case Writing(write) => Written(s, write, ok).(pending := Idle)
       case Cleaning(id, rest) => Continue(Written(s, Erase(id), ok), rest))
    case Crash(now) => Start(s.rows, limits, now)
  }

  predicate ValidRun(s: Store, limits: Limits, steps: seq<Step>)
    decreases |steps|
  {
    steps == [] || (Enabled(s, limits, steps[0]) && ValidRun(Apply(s, limits, steps[0]), limits, steps[1..]))
  }

  function Run(s: Store, limits: Limits, steps: seq<Step>): Store
    requires ValidRun(s, limits, steps)
    decreases |steps|
  {
    if steps == [] then s else Run(Apply(s, limits, steps[0]), limits, steps[1..])
  }

  // ---------- Rows follow memory ----------

  function InFlight(p: Pending): set<SessionId> {
    match p
    case Idle => {}
    case Writing(write) => if write.Nothing? then {} else {write.id}
    case Cleaning(id, _) => {id}
  }

  /** The row of a session agrees with memory, up to the sandbox a restart has cleared. */
  predicate Agrees(s: Store, id: SessionId) {
    && (id in s.memory <==> id in s.rows)
    && (id in s.memory ==>
          && s.rows[id].Readable?
          && s.memory[id] == if id in s.rewritten then s.rows[id].session else Unbound(s.rows[id].session))
  }

  ghost predicate Inv(s: Store) {
    && (forall id :: id !in s.failed && id !in InFlight(s.pending) ==> Agrees(s, id))
    && (s.pending.Writing? ==> !s.pending.write.Nothing?)
    && (s.pending.Writing? && s.pending.write.Put? ==> s.pending.write.id in s.memory)
    && (s.pending.Writing? && s.pending.write.Erase? ==> s.pending.write.id !in s.memory)
    && (s.pending.Cleaning? ==> s.pending.id !in s.memory)
  }

  lemma StartInv(rows: map<SessionId, Row>, limits: Limits, now: real)
    ensures Inv(Start(rows, limits, now))
  {}

  lemma BeginInv(s: Store, limits: Limits, op: Operation)
    requires Inv(s) && Enabled(s, limits, Begin(op))
    ensures Inv(Apply(s, limits, Begin(op)))
  {
    hide Changed;
    var t := Apply(s, limits, Begin(op));
    forall id | id !in t.failed && id !in InFlight(t.pending) ensures Agrees(t, id) {
      assert Agrees(s, id);
    }
  }

  lemma ContinueInv(s: Store, rest: seq<SessionId>)
    requires forall id :: id !in s.failed ==> Agrees(s, id)
    ensures Inv(Continue(s, rest))
  {
    var t := Continue(s, rest);
    forall id | id !in t.failed && id !in InFlight(t.pending) ensures Agrees(t, id) {
      assert Agrees(s, id);
    }
  }

  lemma WrittenAgrees(s: Store, write: Write, ok: bool)
    requires !write.Nothing?
    requires forall id :: id !in s.failed && id != write.id ==> Agrees(s, id)
    requires if write.Put? then write.id in s.memory else write.id !in s.memory
    ensures var t := Written(s, write, ok); forall id :: id !in t.failed ==> Agrees(t, id)
  {
    var t := Written(s, write, ok);
    forall id | id !in t.failed ensures Agrees(t, id) {
      if id != write.id {
        assert Agrees(s, id);
      }
    }
  }

  lemma CommitInv(s: Store, limits: Limits, ok: bool)
    requires Inv(s) && Enabled(s, limits, Commit(ok))
    ensures Inv(Apply(s, limits, Commit(ok)))
  {
    match s.pending
    case Writing(write) =>
      WrittenAgrees(s, write, ok);
      var t := Written(s, write, ok);
      forall id | id !in t.failed ensures Agrees(t.(pending := Idle), id) {
        assert Agrees(t, id);
      }
    case Cleaning(id, rest) =>
      WrittenAgrees(s, Erase(id), ok);
      ContinueInv(Written(s, Erase(id), ok), rest);
  }

  lemma StepInv(s: Store, limits: Limits, step: Step)
    requires Inv(s) && Enabled(s, limits, step)
    ensures Inv(Apply(s, limits, step))
  {
    match step
    case Begin(op) => BeginInv(s, limits, op);
    case BeginCleanup(ids, now) =>
      var t := s.(clock := now);
      forall id | id !in t.failed ensures Agrees(t, id) {
        assert Agrees(s, id);
      }
      ContinueInv(t, ids);
    case Commit(ok) => CommitInv(s, limits, ok);
    case Crash(now) => StartInv(s.rows, limits, now);
  }

  lemma {:induction false} RunInv(s: Store, limits: Limits, steps: seq<Step>)
    requires Inv(s) && ValidRun(s, limits, steps)
    ensures Inv(Run(s, limits, steps))
    decreases |steps|
  {
    if steps != [] {
      hide Inv, Apply, Enabled;
      StepInv(s, limits, steps[0]);
      RunInv(Apply(s, limits, steps[0]), limits, steps[1..]);
    }
  }

  predicate NoLostWrites(steps: seq<Step>) {
    forall i :: 0 <= i < |steps| && steps[i].Commit? ==> steps[i].ok
  }

  lemma {:induction false} NothingFails(s: Store, limits: Limits, steps: seq<Step>)
    requires s.failed == {} && ValidRun(s, limits, steps) && NoLostWrites(steps)
    ensures Run(s, limits, steps).failed == {}
    decreases |steps|
  {
    if steps != [] {
      var rest := steps[1..];
      assert forall i :: 0 <= i < |rest| ==> rest[i] == steps[i + 1];
      NothingFails(Apply(s, limits, steps[0]), limits, rest);
    }
  }

  /** A store that starts on the rows and then goes through the steps. */
  function After(rows: map<SessionId, Row>, limits: Limits, start: real, steps: seq<Step>): Store
    requires ValidRun(Start(rows, limits, start), limits, steps)
  {
    Run(Start(rows, limits, start), limits, steps)
  }

  /** Whatever was in the table at first and however often the process died: a session whose
      last write was not lost, and is not on its way, has exactly the row that memory says. */
  lemma RowsFollowMemory(rows: map<SessionId, Row>, limits: Limits, start: real, steps: seq<Step>, id: SessionId)
    requires ValidRun(Start(rows, limits, start), limits, steps)
    requires id !in After(rows, limits, start, steps).failed
    requires id !in InFlight(After(rows, limits, start, steps).pending)
    ensures Agrees(After(rows, limits, start, steps), id)
  {
    StartInv(rows, limits, start);
    RunInv(Start(rows, limits, start), limits, steps);
  }

  /** If no write is ever lost, then between operations the table has the same keys as memory
      and the same sessions, except for the sandbox of those not rewritten since the last start. */
  lemma TableMirrorsMemory(rows: map<SessionId, Row>, limits: Limits, start: real, steps: seq<Step>)
    requires ValidRun(Start(rows, limits, start), limits, steps) && NoLostWrites(steps)
    requires After(rows, limits, start, steps).pending.Idle?
    ensures var s := After(rows, limits, start, steps);
            && s.rows.Keys == s.memory.Keys
            && (forall id :: id in s.memory ==>
                  && s.rows[id].Readable?
                  && Unbound(s.memory[id]) == Unbound(s.rows[id].session)
                  && (id in s.rewritten ==> s.memory[id] == s.rows[id].session)
                  && (id !in s.rewritten ==> s.memory[id].sandbox.None?))
  {
    hide Apply, Enabled;
    NothingFails(Start(rows, limits, start), limits, steps);
    StartInv(rows, limits, start);
    RunInv(Start(rows, limits, start), limits, steps);
    var s := After(rows, limits, start, steps);
    hide Run, ValidRun;
    forall id
      ensures id in s.memory <==> id in s.rows
      ensures id in s.memory ==> s.rows[id].Readable? && Unbound(s.memory[id]) == Unbound(s.rows[id].session)
      ensures id in s.memory && id in s.rewritten ==> s.memory[id] == s.rows[id].session
      ensures id in s.memory && id !in s.rewritten ==> s.memory[id].sandbox.None?
    {
      assert Agrees(s, id);
    }
  }

  /** An undisturbed operation is its memory step followed by its write: what the methods of
      the store do in one call. */
  lemma OneCallTwoSteps(s: Store, limits: Limits, op: Operation, ok: bool)
    requires Inv(s) && Enabled(s, limits, Begin(op))
    ensures var begun := Apply(s, limits, Begin(op));
            var t := if begun.pending.Idle? then begun else Apply(begun, limits, Commit(ok));
            && t.pending.Idle?
            && t.memory == MemoryAfter(s.memory, op)
            && t.rows == RowsAfter(s.rows, t.memory, WriteOf(s.memory, op), ok)
  {
    hide Changed;
  }

  // ---------- Crashes ----------

  /** What a restart should bring back: the unexpired sessions, without their sandboxes. */
  function Recovered(memory: map<SessionId, Session>, limits: Limits, now: real): (r: map<SessionId, Session>)
    ensures forall id :: id in r <==>
              && id in memory
              && now <= memory[id].lastActivity + limits.maxIdle as real
              && now <= memory[id].createdAt + limits.maxSession as real
    ensures forall id :: id in r ==> r[id] == memory[id].(sandbox := None)
  {
    var live := memory - ExpiredIds(memory, limits, now);
    map id | id in live :: Unbound(live[id])
  }

  /** In every reachable state, whatever is in flight or was lost: a restart brings back a
      settled session exactly when it has not expired, and then without its sandbox. */
  lemma RestartBringsBack(s: Store, limits: Limits, now: real, id: SessionId)
    requires Inv(s) && id !in s.failed && id !in InFlight(s.pending)
    ensures var t := Start(s.rows, limits, now);
            && (id in t.memory <==>
                  && id in s.memory
                  && now <= s.memory[id].lastActivity + limits.maxIdle as real
                  && now <= s.memory[id].createdAt + limits.maxSession as real)
            && (id in t.memory ==> t.memory[id] == s.memory[id].(sandbox := None))
  {
    assert Agrees(s, id);
  }

  lemma SameSessions(a: map<SessionId, Session>, b: map<SessionId, Session>)
    requires forall id :: (id in a <==> id in b) && (id in a ==> a[id] == b[id])
    ensures a == b
  {}

  lemma RestartIsRecovery(s: Store, limits: Limits, now: real)
    requires Inv(s) && s.failed == {} && s.pending.Idle?
    ensures Start(s.rows, limits, now).memory == Recovered(s.memory, limits, now)
  {
    hide Start, Recovered, Expired;
    var t := Start(s.rows, limits, now);
    forall id
      ensures id in t.memory <==> id in Recovered(s.memory, limits, now)
      ensures id in t.memory ==> t.memory[id] == Recovered(s.memory, limits, now)[id]
    {
      RestartBringsBack(s, limits, now, id);
    }
    SameSessions(t.memory, Recovered(s.memory, limits, now));
  }

  /** Without lost writes, dying between two operations loses nothing but expired sessions and
      sandbox bindings. */
  lemma RestartExactly(rows: map<SessionId, Row>, limits: Limits, start: real, steps: seq<Step>, now: real)
    requires ValidRun(Start(rows, limits, start), limits, steps) && NoLostWrites(steps)
    requires After(rows, limits, start, steps).pending.Idle? && After(rows, limits, start, steps).clock <= now
    ensures var s := After(rows, limits, start, steps);
            Apply(s, limits, Crash(now)).memory == Recovered(s.memory, limits, now)
  {
    NothingFails(Start(rows, limits, start), limits, steps);
    StartInv(rows, limits, start);
    RunInv(Start(rows, limits, start), limits, steps);
    RestartIsRecovery(After(rows, limits, start, steps), limits, now);
  }

  /** Dying during an operation loses at most that operation: before the commit the restart
      brings back what was there before it, after the commit what is there after it. */
  lemma CrashLosesAtMostOneOperation(rows: map<SessionId, Row>, limits: Limits, start: real, steps: seq<Step>,
                                     op: Operation, now: real)
    requires ValidRun(Start(rows, limits, start), limits, steps) && NoLostWrites(steps)
    requires Enabled(After(rows, limits, start, steps), limits, Begin(op))
    requires Apply(After(rows, limits, start, steps), limits, Begin(op)).clock <= now
    ensures var s := After(rows, limits, start, steps);
            var begun := Apply(s, limits, Begin(op));
            && Apply(begun, limits, Crash(now)).memory == Recovered(s.memory, limits, now)
            && (begun.pending.Writing? ==>
                  Apply(Apply(begun, limits, Commit(true)), limits, Crash(now)).memory
                  == Recovered(MemoryAfter(s.memory, op), limits, now))
            && (begun.pending.Idle? ==> MemoryAfter(s.memory, op) == s.memory)
  {
    NothingFails(Start(rows, limits, start), limits, steps);
    StartInv(rows, limits, start);
    RunInv(Start(rows, limits, start), limits, steps);
    var s := After(rows, limits, start, steps);
    hide Run, ValidRun;
    CrashInside(s, limits, op, now);
  }

  lemma CrashInside(s: Store, limits: Limits, op: Operation, now: real)
    requires Inv(s) && s.failed == {} && Enabled(s, limits, Begin(op))
    requires Apply(s, limits, Begin(op)).clock <= now
    ensures var begun := Apply(s, limits, Begin(op));
            && Apply(begun, limits, Crash(now)).memory == Recovered(s.memory, limits, now)
            && (begun.pending.Writing? ==>
                  Apply(Apply(begun, limits, Commit(true)), limits, Crash(now)).memory
                  == Recovered(MemoryAfter(s.memory, op), limits, now))
            && (begun.pending.Idle? ==> MemoryAfter(s.memory, op) == s.memory)
  {
    var begun := Apply(s, limits, Begin(op));
    assert begun.rows == s.rows && begun.failed == {};
    BeginInv(s, limits, op);
    hide Start, Restored, Surviving, Recovered, Changed, Expired, Inv;
    RestartIsRecovery(s, limits, now);
    if begun.pending.Writing? {
      var done := Apply(begun, limits, Commit(true));
      CommitInv(begun, limits, true);
      assert done.failed == {} && done.pending.Idle? && done.memory == begun.memory;
      RestartIsRecovery(done, limits, now);
    }
  }

  // ---------- Cleaning up ----------

  /** Every row of `before` that is missing now belonged to a session expired at that time. */
  ghost predicate OnlyExpiredErased(before: map<SessionId, Row>, rows: map<SessionId, Row>, gone: set<SessionId>) {
    && (forall id :: id in rows ==> id in before && rows[id] == before[id])
    && (forall id :: id in before && id !in rows ==> id in gone)
  }

  lemma ErasedRowsDoNotMatter(before: map<SessionId, Row>, rows: map<SessionId, Row>, gone: set<SessionId>,
                              limits: Limits, now: real, later: real)
    requires OnlyExpiredErased(before, rows, gone) && now <= later
    requires forall id :: id in gone && id in before ==> !Survives(before[id], limits, now)
    ensures Restored(rows, limits, later) == Restored(before, limits, later)
  {
    hide Restored, Expired;
    forall id | id in before && id in gone ensures !Survives(before[id], limits, later) {
      assert !Survives(before[id], limits, now);
      if before[id].Readable? {
        ExpiredStays(before[id].session, limits, now, later);
      }
    }
    SameSessions(Restored(rows, limits, later), Restored(before, limits, later));
  }

  lemma {:induction false} CleanupRun(s: Store, limits: Limits, steps: seq<Step>, before: map<SessionId, Row>,
                                      memory: map<SessionId, Session>, gone: set<SessionId>)
    requires ValidRun(s, limits, steps) && forall i :: 0 <= i < |steps| ==> steps[i].Commit?
    requires OnlyExpiredErased(before, s.rows, gone)
    requires s.pending.Cleaning? ==> s.pending.id in gone && IdSet(s.pending.rest) <= gone && NoDup(s.pending.rest)
    requires !s.pending.Writing?
    requires s.memory == memory - (gone - if s.pending.Cleaning? then IdSet(s.pending.rest) else {})
    ensures var t := Run(s, limits, steps);
            && OnlyExpiredErased(before, t.rows, gone)
            && !t.pending.Writing?
            && (t.pending.Idle? ==> t.memory == memory - gone)
    decreases |steps|
  {
    if steps != [] {
      var rest := steps[1..];
      assert forall i :: 0 <= i < |rest| ==> rest[i] == steps[i + 1];
      assert steps[0].Commit?;
      var t := Apply(s, limits, steps[0]);
      CleanupCommit(s, limits, steps[0], before, memory, gone);
      hide Apply, Enabled, OnlyExpiredErased;
      CleanupRun(t, limits, rest, before, memory, gone);
    }
  }

  lemma CleanupCommit(s: Store, limits: Limits, step: Step, before: map<SessionId, Row>,
                      memory: map<SessionId, Session>, gone: set<SessionId>)
    requires Enabled(s, limits, step) && step.Commit? && s.pending.Cleaning?
    requires OnlyExpiredErased(before, s.rows, gone)
    requires s.pending.id in gone && IdSet(s.pending.rest) <= gone && NoDup(s.pending.rest)
    requires s.memory == memory - (gone - IdSet(s.pending.rest))
    ensures var t := Apply(s, limits, step);
            && OnlyExpiredErased(before, t.rows, gone)
            && !t.pending.Writing?
            && (t.pending.Cleaning? ==> t.pending.id in gone && IdSet(t.pending.rest) <= gone && NoDup(t.pending.rest))
            && t.memory == memory - (gone - if t.pending.Cleaning? then IdSet(t.pending.rest) else {})
  {
    var ids := s.pending.rest;
    if ids != [] {
      TailSet(ids);
      assert gone - IdSet(ids[1..]) == (gone - IdSet(ids)) + {ids[0]};
    }
  }

  /** A cleanup runs to its end, or the process dies after any of its deletions, lost or not:
      the restart brings back the same sessions as if it had never begun, and a finished
      cleanup has removed exactly the expired ones from memory. */
  lemma CleanupIsCrashSafe(s: Store, limits: Limits, ids: seq<SessionId>, now: real, commits: seq<Step>, later: real)
    requires Inv(s) && s.failed == {} && Enabled(s, limits, BeginCleanup(ids, now)) && now <= later
    requires ValidRun(Apply(s, limits, BeginCleanup(ids, now)), limits, commits)
    requires forall i :: 0 <= i < |commits| ==> commits[i].Commit?
    ensures var t := Run(Apply(s, limits, BeginCleanup(ids, now)), limits, commits);
            && Start(t.rows, limits, later).memory == Recovered(s.memory, limits, later)
            && (t.pending.Idle? ==>
                  && t.memory == s.memory - (s.memory.Keys - t.memory.Keys)
                  && forall id :: id in t.memory <==>
                       && id in s.memory
                       && now <= s.memory[id].lastActivity + limits.maxIdle as real
                       && now <= s.memory[id].createdAt + limits.maxSession as real)
  {
    var begun := Apply(s, limits, BeginCleanup(ids, now));
    var gone := IdSet(ids);
    if ids != [] {
      TailSet(ids);
      assert gone - IdSet(ids[1..]) == {ids[0]};
    }
    assert OnlyExpiredErased(s.rows, begun.rows, gone);
    forall id | id in gone && id in s.rows ensures !Survives(s.rows[id], limits, now) {
      assert Agrees(s, id);
    }
    RestartIsRecovery(s, limits, later);
    hide Apply, Enabled, OnlyExpiredErased, Survives, Expired, Inv;
    CleanupRun(begun, limits, commits, s.rows, s.memory, gone);
    ErasedRowsDoNotMatter(s.rows, Run(begun, limits, commits).rows, gone, limits, now, later);
  }

  lemma TailSet(ids: seq<SessionId>)
    requires ids != [] && NoDup(ids)
    ensures IdSet(ids[1..]) == IdSet(ids) - {ids[0]}
    ensures NoDup(ids[1..])
  {
    assert ids == [ids[0]] + ids[1..];
  }
}
