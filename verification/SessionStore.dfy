/** The session store as the object that keeps the records and writes them through
    (app/services/session_store.py).

    Every method runs under the store's lock from beginning to end; `ok` says whether its write
    reached the database. */
module SessionStore {
  import opened Basics
  import opened SessionSpec

  class SessionInfo {
    const id: SessionId
    const createdAt: real
    var sandboxId: Option<string>
    var lastActivity: real
    var dataFiles: seq<string>
    var metadata: map<string, string>

    function View(): Session
      reads this
    {
      Session(sandboxId, createdAt, lastActivity, dataFiles, metadata)
    }

    constructor (id: SessionId, s: Session)
      ensures this.id == id && View() == s
    {
      this.id, createdAt := id, s.createdAt;
      sandboxId, lastActivity, dataFiles, metadata := s.sandbox, s.lastActivity, s.dataFiles, s.metadata;
    }

    method IsExpired(limits: Limits, now: real) returns (expired: bool)
      ensures expired <==> now > lastActivity + limits.maxIdle as real || now > createdAt + limits.maxSession as real
      ensures expired <==> Expired(View(), limits, now)
    {
      var idle := now - lastActivity;
      if idle > limits.maxIdle as real {
        return true;
      }
      var total := now - createdAt;
      return total > limits.maxSession as real;
    }
  }

  ghost function Views(sessions: map<SessionId, SessionInfo>): (r: map<SessionId, Session>)
    reads sessions.Values
    ensures r.Keys == sessions.Keys
  {
    map id | id in sessions :: sessions[id].View()
  }

  /** Every record is filed under its own id, so no two keys share a record. */
  ghost predicate Filed(sessions: map<SessionId, SessionInfo>) {
    forall id :: id in sessions ==> sessions[id].id == id
  }

  lemma ViewsAdd(sessions: map<SessionId, SessionInfo>, session: SessionInfo)
    ensures Views(sessions[session.id := session]) == Views(sessions)[session.id := session.View()]
  {}

  class SessionStore {
    const limits: Limits
    const persistent: bool
    var sessions: map<SessionId, SessionInfo>
    var rows: map<SessionId, Row>

    ghost function Memory(): map<SessionId, Session>
      reads this, sessions.Values
    {
      Views(sessions)
    }

    ghost predicate Valid()
      reads this
    {
      Filed(sessions)
    }

    /** Starts on a table of rows and restores the sessions that have not expired. */
    constructor (limits: Limits, persistent: bool, rows: map<SessionId, Row>, now: real)
      ensures Valid() && this.limits == limits && this.persistent == persistent
      ensures Memory() == if persistent then Restored(rows, limits, now) else map[]
      ensures this.rows == if persistent then Surviving(rows, limits, now) else rows
    {
      this.limits, this.persistent, this.rows := limits, persistent, rows;
      sessions := map[];
      new;
      if persistent {
        LoadPersistedSessions(now);
      }
    }

    /** One row at start-up: restored without its sandbox, or dropped. */
    method Restore(id: SessionId, row: Row, now: real) returns (restored: bool)
      requires Valid()
      modifies `sessions
      ensures restored <==> Survives(row, limits, now)
      ensures Memory() == if restored then old(Memory())[id := Unbound(row.session)] else old(Memory())
      ensures Valid()
    {
      if row.Unreadable? {
        return false;
      }
      var session := new SessionInfo(id, row.session);
      var expired := session.IsExpired(limits, now);
      if expired {
        return false;
      }
      session.sandboxId := None;
      sessions := sessions[id := session];
      assert Memory() == old(Memory())[id := session.View()];
      return true;
    }

    /** `_load_persisted_sessions`: one pass over the rows; if any was dropped, the table is cut
        down to the restored ids. */
    method LoadPersistedSessions(now: real)
      requires sessions == map[]
      modifies this
      ensures Valid()
      ensures Memory() == Restored(old(rows), limits, now)
      ensures rows == Surviving(old(rows), limits, now)
      ensures forall id :: id in Memory() <==>
                && id in old(rows) && old(rows)[id].Readable?
                && now <= old(rows)[id].session.lastActivity + limits.maxIdle as real
                && now <= old(rows)[id].session.createdAt + limits.maxSession as real
    {
      var dropped := 0;
      var rest := rows.Keys;
      assert Memory() == Restored(Read(rows, rest), limits, now);
      hide Restored, Surviving, Survives, Views;
      while rest != {}
        invariant Valid() && rows == old(rows) && rest <= rows.Keys
        invariant Memory() == Restored(Read(rows, rest), limits, now)
        invariant dropped >= 0
        invariant dropped == 0 ==> forall id :: id in rows && id !in rest ==> Survives(rows[id], limits, now)
        decreases rest
      {
        var id :| id in rest;
        ReadStep(rows, rest, id);
        RestoredGrows(Read(rows, rest), id, rows[id], limits, now);
        var restored := Restore(id, rows[id], now);
        rest := rest - {id};
        if !restored {
          dropped := dropped + 1;
        }
      }
      assert Read(rows, {}) == rows;
      SurvivingKeys(rows, limits, now);
      SurvivesExactly(rows, limits, now);
      if dropped > 0 {
        rows := rows - (rows.Keys - sessions.Keys);
      }
    }

    /** The write of one session through to its row. */
    method Persist(session: SessionInfo, ok: bool)
      modifies `rows
      ensures rows == if persistent && ok then old(rows)[session.id := Readable(session.View())] else old(rows)
    {
      if !persistent {
        return;
      }
      var data := Readable(Session(session.sandboxId, session.createdAt, session.lastActivity, session.dataFiles, session.metadata));
      if ok {
        rows := rows[session.id := data];
      }
    }

    method DeletePersisted(id: SessionId, ok: bool)
      modifies `rows
      ensures rows == if persistent && ok then old(rows) - {id} else old(rows)
    {
      if persistent && ok {
        rows := rows - {id};
      }
    }

    method CreateSession(asked: Option<SessionId>, generated: SessionId, metadata: map<string, string>, now: real, ok: bool)
      returns (session: SessionInfo)
      requires Valid()
      modifies `sessions, `rows
      ensures var op := Create(asked, generated, metadata, now);
              && Memory() == MemoryAfter(old(Memory()), op)
              && rows == RowsAfter(old(rows), Memory(), WriteOf(old(Memory()), op), persistent && ok)
              && session.id == Target(old(Memory()), op) && sessions == old(sessions)[session.id := session]
      ensures Valid() && fresh(session)
    {
      hide Views;
      var id := if asked.Some? then asked.value else generated;
      if asked.Some? && id in sessions {
        id := generated;
      }
      session := new SessionInfo(id, Session(None, now, now, [], metadata));
      sessions := sessions[id := session];
      Persist(session, ok);
      ViewsAdd(old(sessions), session);
      assert Views(old(sessions)) == old(Memory());
    }

    /** The session, unless it is missing or expired; an expired one stays in place. */
    method GetSession(id: SessionId, now: real) returns (session: SessionInfo?)
      requires Valid()
      ensures session != null <==>
                && id in Memory()
                && now <= Memory()[id].lastActivity + limits.maxIdle as real
                && now <= Memory()[id].createdAt + limits.maxSession as real
      ensures session != null ==> session == sessions[id] && session.View() == Memory()[id]
    {
      if id !in sessions {
        return null;
      }
      var expired := sessions[id].IsExpired(limits, now);
      return if expired then null else sessions[id];
    }

    method UpdateActivity(id: SessionId, now: real, ok: bool) returns (found: bool)
      requires Valid()
      modifies `rows, sessions.Values
      ensures Performed(Touch(id, now), ok, found, old(Memory()), old(rows), old(sessions))
    {
      if id !in sessions {
        return false;
      }
      var session := sessions[id];
      session.lastActivity := now;
      Persist(session, ok);
      assert Memory() == old(Memory())[id := session.View()];
      return true;
    }

    method UpdateSandboxId(id: SessionId, sandbox: string, now: real, ok: bool) returns (found: bool)
      requires Valid()
      modifies `rows, sessions.Values
      ensures Performed(Bind(id, sandbox, now), ok, found, old(Memory()), old(rows), old(sessions))
    {
      if id !in sessions {
        return false;
      }
      var session := sessions[id];
      session.sandboxId := Some(sandbox);
      session.lastActivity := now;
      Persist(session, ok);
      assert Memory() == old(Memory())[id := session.View()];
      return true;
    }

    method AddDataFile(id: SessionId, file: string, now: real, ok: bool) returns (found: bool)
      requires Valid()
      modifies `rows, sessions.Values
      ensures Performed(AddFile(id, file, now), ok, found, old(Memory()), old(rows), old(sessions))
    {
      if id !in sessions {
        return false;
      }
      var session := sessions[id];
      if file !in session.dataFiles {
        session.dataFiles := session.dataFiles + [file];
      }
      session.lastActivity := now;
      assert session.View() == Changed(old(session.View()), AddFile(id, file, now));
      Persist(session, ok);
      assert Memory() == old(Memory())[id := session.View()];
      return true;
    }

    method RemoveDataFile(id: SessionId, file: string, ok: bool) returns (removed: bool)
      requires Valid()
      modifies `rows, sessions.Values
      ensures Performed(RemoveFile(id, file), ok, removed, old(Memory()), old(rows), old(sessions))
    {
      hide DropFirst;
      if id !in sessions {
        return false;
      }
      var session := sessions[id];
      if file in session.dataFiles {
        session.dataFiles := DropFirst(session.dataFiles, file);
        assert session.View() == Changed(old(session.View()), RemoveFile(id, file));
        hide Changed;
        Persist(session, ok);
        assert Memory() == old(Memory())[id := session.View()];
        return true;
      }
      return false;
    }

    method UpdateMetadata(id: SessionId, metadata: map<string, string>, now: real, ok: bool) returns (found: bool)
      requires Valid()
      modifies `rows, sessions.Values
      ensures Performed(Merge(id, metadata, now), ok, found, old(Memory()), old(rows), old(sessions))
    {
      if id !in sessions {
        return false;
      }
      var session := sessions[id];
      session.metadata := session.metadata + metadata;
      session.lastActivity := now;
      Persist(session, ok);
      assert Memory() == old(Memory())[id := session.View()];
      return true;
    }

    method DeleteSession(id: SessionId, ok: bool) returns (found: bool)
      requires Valid()
      modifies this
      ensures var op := Delete(id);
              && found == Succeeds(old(Memory()), op)
              && Memory() == MemoryAfter(old(Memory()), op)
              && rows == RowsAfter(old(rows), Memory(), WriteOf(old(Memory()), op), persistent && ok)
              && Valid()
    {
      if id in sessions {
        sessions := sessions - {id};
        DeletePersisted(id, ok);
        assert Memory() == old(Memory()) - {id};
        return true;
      }
      return false;
    }

    /** What an operation on a stored record has done, given the state it started from. */
    ghost predicate Performed(op: Operation, ok: bool, answer: bool, memory: map<SessionId, Session>,
                              before: map<SessionId, Row>, held: map<SessionId, SessionInfo>)
      reads this, sessions.Values
    {
      && answer == Succeeds(memory, op)
      && Memory() == MemoryAfter(memory, op)
      && rows == RowsAfter(before, Memory(), WriteOf(memory, op), persistent && ok)
      && sessions == held
      && Valid()
    }

    /** First loop of `cleanup_expired`. */
    method ListExpired(now: real) returns (ids: seq<SessionId>)
      ensures forall i, j :: 0 <= i < j < |ids| ==> ids[i] != ids[j]
      ensures (set id | id in ids) == ExpiredIds(Memory(), limits, now)
    {
      hide Expired;
      ids := [];
      var rest := sessions;
      while rest != map[]
        invariant rest.Keys <= sessions.Keys && (forall id :: id in rest ==> rest[id] == sessions[id])
        invariant forall i, j :: 0 <= i < j < |ids| ==> ids[i] != ids[j]
        invariant forall id :: id in ids <==> id in sessions && id !in rest && Expired(sessions[id].View(), limits, now)
        decreases |rest|
      {
        var id :| id in rest;
        assert (rest - {id}).Keys == rest.Keys - {id};
        var expired := rest[id].IsExpired(limits, now);
        rest := rest - {id};
        if expired {
          ids := ids + [id];
        }
      }
    }

    /** Second loop of `cleanup_expired`. */
    method RemoveListed(ids: seq<SessionId>, ok: SessionId -> bool)
      modifies `sessions, `rows
      ensures sessions == old(sessions) - First(ids, |ids|)
      ensures rows == old(rows) - Erased(First(ids, |ids|), persistent, ok)
    {
      var i := 0;
      while i < |ids|
        invariant 0 <= i <= |ids|
        invariant sessions == old(sessions) - First(ids, i)
        invariant rows == old(rows) - Erased(First(ids, i), persistent, ok)
      {
        assert First(ids, i + 1) == First(ids, i) + {ids[i]};
        sessions := sessions - {ids[i]};
        DeletePersisted(ids[i], ok(ids[i]));
        i := i + 1;
      }
    }

    /** Removes the expired sessions one by one; `ok` tells for each whether its row went too. */
    method CleanupExpired(now: real, ok: SessionId -> bool) returns (count: nat)
      requires Valid()
      modifies `sessions, `rows
      ensures count == |ExpiredIds(old(Memory()), limits, now)|
      ensures Memory() == old(Memory()) - ExpiredIds(old(Memory()), limits, now)
      ensures forall id :: id in Memory() <==>
                && id in old(Memory())
                && now <= old(Memory())[id].lastActivity + limits.maxIdle as real
                && now <= old(Memory())[id].createdAt + limits.maxSession as real
      ensures rows == old(rows) - Erased(ExpiredIds(old(Memory()), limits, now), persistent, ok)
      ensures Valid()
    {
      ExpiredIdsExactly(Memory(), limits, now);
      hide ExpiredIds;
      var ids := ListExpired(now);
      CountIds(ids);
      assert First(ids, |ids|) == set id | id in ids;
      RemoveListed(ids, ok);
      count := |ids|;
    }
  }

  /** The ids whose row a cleanup manages to erase. */
  function Erased(ids: set<SessionId>, persistent: bool, ok: SessionId -> bool): set<SessionId> {
    set id | id in ids && persistent && ok(id)
  }

  /** The rows already read when those of `rest` are still to come. */
  function Read(rows: map<SessionId, Row>, rest: set<SessionId>): map<SessionId, Row> {
    rows - rest
  }

  lemma ReadStep(rows: map<SessionId, Row>, rest: set<SessionId>, id: SessionId)
    requires id in rest && rest <= rows.Keys
    ensures id !in Read(rows, rest)
    ensures Read(rows, rest - {id}) == Read(rows, rest)[id := rows[id]]
  {}

  lemma RestoredGrows(done: map<SessionId, Row>, id: SessionId, row: Row, limits: Limits, now: real)
    requires id !in done
    ensures Survives(row, limits, now) ==> row.Readable?
    ensures Restored(done[id := row], limits, now)
         == if Survives(row, limits, now) then Restored(done, limits, now)[id := Unbound(row.session)]
            else Restored(done, limits, now)
  {
    hide Restored;
  }

  lemma SurvivingKeys(rows: map<SessionId, Row>, limits: Limits, now: real)
    ensures Surviving(rows, limits, now) == rows - (rows.Keys - Restored(rows, limits, now).Keys)
    ensures (forall id :: id in rows ==> Survives(rows[id], limits, now)) ==> Surviving(rows, limits, now) == rows
  {}

  lemma SurvivesExactly(rows: map<SessionId, Row>, limits: Limits, now: real)
    ensures forall id :: id in Restored(rows, limits, now) <==>
              && id in rows && rows[id].Readable?
              && now <= rows[id].session.lastActivity + limits.maxIdle as real
              && now <= rows[id].session.createdAt + limits.maxSession as real
  {}

  lemma ExpiredIdsExactly(memory: map<SessionId, Session>, limits: Limits, now: real)
    ensures forall id :: id in memory && id !in ExpiredIds(memory, limits, now) <==>
              && id in memory
              && now <= memory[id].lastActivity + limits.maxIdle as real
              && now <= memory[id].createdAt + limits.maxSession as real
  {}

  function First(ids: seq<SessionId>, n: nat): set<SessionId>
    requires n <= |ids|
  {
    set k | 0 <= k < n :: ids[k]
  }

  lemma {:induction false} CountIds(ids: seq<SessionId>)
    requires forall i, j :: 0 <= i < j < |ids| ==> ids[i] != ids[j]
    ensures |set id | id in ids| == |ids|
  {
    var all := set id | id in ids;
    if ids == [] {
      assert all == {};
    } else {
      var n := |ids| - 1;
      CountIds(ids[..n]);
      assert all == (set id | id in ids[..n]) + {ids[n]};
    }
  }
}
