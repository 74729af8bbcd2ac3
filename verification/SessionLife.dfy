/** How long a session lives and what its record says, replayed from the steps of a run
    (app/services/session_store.py). */
module SessionLife {
  import opened Basics
  import opened Sorting
  import opened SessionSpec
  import opened SessionRuns

  // ---------- The limits ----------

  /** A start brings back exactly the sessions with a readable row that are within both limits,
      without their sandboxes, and leaves exactly their rows. */
  lemma StartsExactly(rows: map<SessionId, Row>, limits: Limits, now: real, id: SessionId)
    ensures var s := Start(rows, limits, now);
            && (id in s.memory <==>
                  && id in rows && rows[id].Readable?
                  && now <= rows[id].session.lastActivity + limits.maxIdle as real
                  && now <= rows[id].session.createdAt + limits.maxSession as real)
            && (id in s.rows <==> id in s.memory)
            && (id in s.memory ==> s.memory[id] == rows[id].session.(sandbox := None) && s.rows[id] == rows[id])
  {}

  /** The step files a new session under the id. */
  predicate Creates(s: Store, step: Step, id: SessionId) {
    step.Begin? && step.op.Create? && Target(s.memory, step.op) == id
  }

  predicate NeverCreated(s: Store, limits: Limits, steps: seq<Step>, id: SessionId)
    requires ValidRun(s, limits, steps)
    decreases |steps|
  {
    steps == [] || (!Creates(s, steps[0], id) && NeverCreated(Apply(s, limits, steps[0]), limits, steps[1..], id))
  }

  /** In memory and in the table the session counts from that time. */
  predicate CreatedAt(s: Store, id: SessionId, born: real) {
    && (id in s.memory ==> s.memory[id].createdAt == born)
    && (id in s.rows && s.rows[id].Readable? ==> s.rows[id].session.createdAt == born)
  }

  lemma CreatedAtStep(s: Store, limits: Limits, step: Step, id: SessionId, born: real)
    requires Enabled(s, limits, step) && !Creates(s, step, id) && CreatedAt(s, id, born)
    ensures CreatedAt(Apply(s, limits, step), id, born)
  {
    hide Expired, DropFirst, NoDup;
  }

  lemma {:induction false} CreatedAtStays(s: Store, limits: Limits, steps: seq<Step>, id: SessionId, born: real)
    requires ValidRun(s, limits, steps) && NeverCreated(s, limits, steps, id) && CreatedAt(s, id, born)
    ensures CreatedAt(Run(s, limits, steps), id, born)
    decreases |steps|
  {
    if steps != [] {
      CreatedAtStep(s, limits, steps[0], id, born);
      hide Apply, Enabled, Creates, CreatedAt;
      CreatedAtStays(Apply(s, limits, steps[0]), limits, steps[1..], id, born);
    }
  }

  /** Whatever is done to a session (activity, bindings, files, metadata, lost writes, crashes),
      it does not outlive the limit counted from its creation: after that a lookup finds it
      expired, a restart does not bring it back, and a cleanup that runs to its end removes it. */
  lemma NothingOutlivesTheLimit(s: Store, limits: Limits, steps: seq<Step>, id: SessionId, now: real)
    requires Inv(s) && id in s.memory && id !in s.failed && id !in InFlight(s.pending)
    requires ValidRun(s, limits, steps) && NeverCreated(s, limits, steps, id)
    requires now > s.memory[id].createdAt + limits.maxSession as real
    ensures var t := Run(s, limits, steps);
            && (id in t.memory ==> t.memory[id].createdAt == s.memory[id].createdAt && Expired(t.memory[id], limits, now))
            && id !in Start(t.rows, limits, now).memory
            && (id in t.memory ==> id in ExpiredIds(t.memory, limits, now))
  {
    assert Agrees(s, id);
    CreatedAtStays(s, limits, steps, id, s.memory[id].createdAt);
  }

  // ---------- The fields of a record ----------

  /** The record stays the same one: the process does not die, and the session is neither
      removed nor created anew. */
  predicate Kept(s: Store, limits: Limits, steps: seq<Step>, id: SessionId)
    requires ValidRun(s, limits, steps)
    decreases |steps|
  {
    id in s.memory &&
    (steps == [] ||
     (!steps[0].Crash? && !Creates(s, steps[0], id) && Kept(Apply(s, limits, steps[0]), limits, steps[1..], id)))
  }

  /** The operations of the run on the session. */
  function OperationsOn(steps: seq<Step>, id: SessionId): seq<Operation> {
    if steps == [] then []
    else
      (if steps[0].Begin? && !steps[0].op.Create? && steps[0].op.id == id then [steps[0].op] else [])
      + OperationsOn(steps[1..], id)
  }

  /** The record after the operations in turn. */
  function Replayed(was: Session, ops: seq<Operation>): Session
    requires forall i :: 0 <= i < |ops| ==> !ops[i].Create? && !ops[i].Delete?
  {
    if ops == [] then was else Changed(Replayed(was, ops[..|ops| - 1]), ops[|ops| - 1])
  }

  predicate Updates(ops: seq<Operation>) {
    forall i :: 0 <= i < |ops| ==> !ops[i].Create? && !ops[i].Delete?
  }

  lemma {:induction false} ReplayedFrom(was: Session, op: Operation, ops: seq<Operation>)
    requires Updates([op] + ops)
    ensures Updates(ops) && !op.Create? && !op.Delete?
    ensures Replayed(was, [op] + ops) == Replayed(Changed(was, op), ops)
    decreases |ops|
  {
    hide Changed;
    var all := [op] + ops;
    assert all[0] == op && forall i :: 0 <= i < |ops| ==> all[i + 1] == ops[i];
    if ops == [] {
      assert all[..0] == [];
    } else {
      assert all[..|all| - 1] == [op] + ops[..|ops| - 1];
      ReplayedFrom(was, op, ops[..|ops| - 1]);
    }
  }

  /** One step on the record. */
  lemma RecordStep(s: Store, limits: Limits, step: Step, id: SessionId)
    requires Enabled(s, limits, step) && !step.Crash? && !Creates(s, step, id)
    requires id in s.memory && id in Apply(s, limits, step).memory
    ensures Updates(OperationsOn([step], id))
    ensures Apply(s, limits, step).memory[id] == Replayed(s.memory[id], OperationsOn([step], id))
  {
    hide Expired, NoDup;
    OneOperation(step, id);
    if step.Begin? && !step.op.Create? && step.op.id == id {
      assert [step.op][..0] == [];
      Unlisted(s.memory[id], step.op);
    }
  }

  lemma OneOperation(step: Step, id: SessionId)
    ensures OperationsOn([step], id) == if step.Begin? && !step.op.Create? && step.op.id == id then [step.op] else []
  {
    assert [step][1..] == [];
  }

  /** Removing a name that is not listed changes nothing. */
  lemma {:induction false} Unlisted(was: Session, op: Operation)
    ensures op.RemoveFile? && op.file !in was.dataFiles ==> Changed(was, op) == was
  {
    if op.RemoveFile? && op.file !in was.dataFiles {
      NothingDropped(was.dataFiles, op.file);
    }
  }

  lemma {:induction false} NothingDropped(files: seq<string>, file: string)
    requires file !in files
    ensures DropFirst(files, file) == files
  {
    if files != [] {
      NothingDropped(files[1..], file);
    }
  }

  /** As long as it is the same one, a record is what the operations on it made of it. */
  lemma {:induction false} RecordReplaysOperations(s: Store, limits: Limits, steps: seq<Step>, id: SessionId)
    requires ValidRun(s, limits, steps) && Kept(s, limits, steps, id)
    ensures var t := Run(s, limits, steps);
            && id in t.memory && Updates(OperationsOn(steps, id))
            && t.memory[id] == Replayed(s.memory[id], OperationsOn(steps, id))
    decreases |steps|
  {
    if steps != [] {
      var step, rest := steps[0], steps[1..];
      var u := Apply(s, limits, step);
      assert Kept(u, limits, rest, id);
      RecordReplaysOperations(u, limits, rest, id);
      RecordStep(s, limits, step, id);
      hide Apply, Enabled, Creates, Changed;
      assert [step][1..] == [];
      var one := OperationsOn([step], id);
      var more := OperationsOn(rest, id);
      assert OperationsOn(steps, id) == one + more;
      if one == [] {
        assert one + more == more;
      } else {
        assert one == [one[0]] && one[..0] == [];
        ReplayedFrom(s.memory[id], one[0], more);
      }
    }
  }

  /** When something was last done to the session; taking a file away does not count. */
  function LastTime(ops: seq<Operation>, was: real): real
    requires Updates(ops)
  {
    if ops == [] then was
    else
      var last := ops[|ops| - 1];
      if last.RemoveFile? then LastTime(ops[..|ops| - 1], was) else last.now
  }

  /** The sandbox last bound. */
  function LastBinding(ops: seq<Operation>, was: Option<string>): Option<string> {
    if ops == [] then was
    else
      var last := ops[|ops| - 1];
      if last.Bind? then Some(last.sandbox) else LastBinding(ops[..|ops| - 1], was)
  }

  /** What the key was last set to. */
  function LastSet(ops: seq<Operation>, key: string, was: Option<string>): Option<string> {
    if ops == [] then was
    else
      var last := ops[|ops| - 1];
      if last.Merge? && key in last.metadata then Some(last.metadata[key]) else LastSet(ops[..|ops| - 1], key, was)
  }

  function Entry(metadata: map<string, string>, key: string): Option<string> {
    if key in metadata then Some(metadata[key]) else None
  }

  /** Whether the file was added and not taken away since. */
  predicate LastAdded(ops: seq<Operation>, file: string, was: bool) {
    if ops == [] then was
    else
      var last := ops[|ops| - 1];
      if last.AddFile? && last.file == file then true
      else if last.RemoveFile? && last.file == file then false
      else LastAdded(ops[..|ops| - 1], file, was)
  }

  /** The scalar fields of a record and its metadata, each from the last operation on it. */
  lemma {:induction false} FieldsReplayed(was: Session, ops: seq<Operation>, key: string)
    requires Updates(ops)
    ensures var r := Replayed(was, ops);
            && r.createdAt == was.createdAt
            && r.lastActivity == LastTime(ops, was.lastActivity)
            && r.sandbox == LastBinding(ops, was.sandbox)
            && Entry(r.metadata, key) == LastSet(ops, key, Entry(was.metadata, key))
  {
    if ops != [] {
      hide DropFirst;
      FieldsReplayed(was, ops[..|ops| - 1], key);
    }
  }

  lemma {:induction false} DropFirstFiles(files: seq<string>, file: string)
    requires NoDup(files)
    ensures NoDup(DropFirst(files, file))
    ensures forall f :: f in DropFirst(files, file) <==> f in files && f != file
  {
    if files != [] {
      var rest := files[1..];
      assert forall i :: 0 <= i < |rest| ==> rest[i] == files[i + 1];
      assert files[0] !in rest;
      DropFirstFiles(rest, file);
    }
  }

  /** A list of files without repetitions stays one, and lists exactly those last added. */
  lemma {:induction false} FilesReplayed(was: Session, ops: seq<Operation>, file: string)
    requires Updates(ops) && NoDup(was.dataFiles)
    ensures NoDup(Replayed(was, ops).dataFiles)
    ensures file in Replayed(was, ops).dataFiles <==> LastAdded(ops, file, file in was.dataFiles)
  {
    if ops != [] {
      var before := Replayed(was, ops[..|ops| - 1]);
      var last := ops[|ops| - 1];
      FilesReplayed(was, ops[..|ops| - 1], file);
      hide Replayed, LastAdded;
      if last.RemoveFile? {
        DropFirstFiles(before.dataFiles, last.file);
      }
      hide DropFirst;
      OneChange(was, ops, file);
    }
  }

  lemma OneChange(was: Session, ops: seq<Operation>, file: string)
    requires Updates(ops) && ops != []
    ensures Replayed(was, ops) == Changed(Replayed(was, ops[..|ops| - 1]), ops[|ops| - 1])
    ensures LastAdded(ops, file, file in was.dataFiles)
            == if ops[|ops| - 1].AddFile? && ops[|ops| - 1].file == file then true
               else if ops[|ops| - 1].RemoveFile? && ops[|ops| - 1].file == file then false
               else LastAdded(ops[..|ops| - 1], file, file in was.dataFiles)
  {
    hide Changed;
  }

  lemma {:induction false} DropFirstOrder(files: seq<string>, file: string, f: string, g: string)
    requires Before(files, f, g) && f != file && g != file
    ensures Before(DropFirst(files, file), f, g)
  {
    var i, j :| 0 <= i < j < |files| && files[i] == f && files[j] == g;
    if files[0] == file {
      assert files[1..][i - 1] == f && files[1..][j - 1] == g;
    } else {
      var rest := files[1..];
      var dropped := DropFirst(rest, file);
      if i > 0 {
        assert rest[i - 1] == f && rest[j - 1] == g;
        DropFirstOrder(rest, file, f, g);
        var a, b :| 0 <= a < b < |dropped| && dropped[a] == f && dropped[b] == g;
        assert ([files[0]] + dropped)[a + 1] == f && ([files[0]] + dropped)[b + 1] == g;
      } else {
        assert rest[j - 1] == g;
        StaysListed(rest, file, g);
        var b :| 0 <= b < |dropped| && dropped[b] == g;
        assert ([files[0]] + dropped)[0] == f && ([files[0]] + dropped)[b + 1] == g;
      }
    }
  }

  lemma {:induction false} StaysListed(files: seq<string>, file: string, g: string)
    requires g in files && g != file
    ensures g in DropFirst(files, file)
  {
    if files[0] != file && files[0] != g {
      StaysListed(files[1..], file, g);
    }
  }

  /** The name is not taken away by any of the operations. */
  predicate NotRemoved(ops: seq<Operation>, file: string) {
    forall i :: 0 <= i < |ops| ==> !(ops[i].RemoveFile? && ops[i].file == file)
  }

  /** Files stay in the order in which they were added: two that were listed keep theirs, and
      new ones come behind those listed. */
  lemma {:induction false} FileOrderReplayed(was: Session, ops: seq<Operation>, f: string, g: string)
    requires Updates(ops) && f in was.dataFiles && NotRemoved(ops, f) && NotRemoved(ops, g)
    ensures f in Replayed(was, ops).dataFiles
    ensures Before(was.dataFiles, f, g) ==> Before(Replayed(was, ops).dataFiles, f, g)
    ensures g !in was.dataFiles && g in Replayed(was, ops).dataFiles ==> Before(Replayed(was, ops).dataFiles, f, g)
  {
    if ops != [] {
      var before := Replayed(was, ops[..|ops| - 1]);
      var last := ops[|ops| - 1];
      FileOrderReplayed(was, ops[..|ops| - 1], f, g);
      OneChange(was, ops, f);
      hide Replayed, Before, LastAdded;
      if last.RemoveFile? {
        StaysListed(before.dataFiles, last.file, f);
        DropKeepsNames(before.dataFiles, last.file);
        if Before(before.dataFiles, f, g) {
          DropFirstOrder(before.dataFiles, last.file, f, g);
        }
      } else if last.AddFile? && last.file !in before.dataFiles {
        BeforeLast(before.dataFiles, last.file, f, g);
      }
    }
  }

  lemma {:induction false} DropKeepsNames(files: seq<string>, file: string)
    ensures forall f :: f in DropFirst(files, file) ==> f in files
  {
    if files != [] {
      DropKeepsNames(files[1..], file);
    }
  }

  // ---------- Creation and answers ----------

  /** A new session: under the id asked for unless that is taken, created and active now, with
      nothing in it but its metadata; no other session is touched. */
  lemma CreatedFresh(memory: map<SessionId, Session>, asked: Option<SessionId>, generated: SessionId,
                     metadata: map<string, string>, now: real)
    ensures var op := Create(asked, generated, metadata, now);
            var id := Target(memory, op);
            var after := MemoryAfter(memory, op);
            && (asked.Some? && asked.value !in memory ==> id == asked.value)
            && (asked.None? || asked.value in memory ==> id == generated)
            && id in after && after[id] == Session(None, now, now, [], metadata)
            && after - {id} == memory - {id}
  {}

  /** Taking away a file or a session answers true exactly when it changes something, the other
      operations exactly when the session exists. */
  lemma AnswersExactly(memory: map<SessionId, Session>, op: Operation)
    requires !op.Create?
    ensures Succeeds(memory, op)
            <==> if op.RemoveFile? || op.Delete? then MemoryAfter(memory, op) != memory else op.id in memory
  {
    if op.RemoveFile? && op.id in memory {
      var files := memory[op.id].dataFiles;
      DropFirstTakesOne(files, op.file);
      if op.file in files {
        assert multiset(files)[op.file] > 0;
        assert multiset(DropFirst(files, op.file)) != multiset(files);
        assert Changed(memory[op.id], op) != memory[op.id];
      }
    }
  }
}
