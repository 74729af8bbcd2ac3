/** Sessions kept in memory and written through to a table of rows
    (app/services/session_store.py): one function for every operation. */
module SessionSpec {
  import opened Basics

  type SessionId = string

  datatype Session = Session(
    sandbox: Option<string>,
    createdAt: real,
    lastActivity: real,
    dataFiles: seq<string>,
    metadata: map<string, string>)

  /** A stored row: its JSON decodes to a session, or it does not. */
  datatype Row = Readable(session: Session) | Unreadable

  datatype Limits = Limits(maxIdle: int, maxSession: int)

  datatype Operation =
    | Create(asked: Option<SessionId>, generated: SessionId, metadata: map<string, string>, now: real)
    | Touch(id: SessionId, now: real)
    | Bind(id: SessionId, sandbox: string, now: real)
    | AddFile(id: SessionId, file: string, now: real)
    | RemoveFile(id: SessionId, file: string)
    | Merge(id: SessionId, metadata: map<string, string>, now: real)
    | Delete(id: SessionId)

  /** What an operation sends to the table once it has changed memory. */
  datatype Write = Put(id: SessionId) | Erase(id: SessionId) | Nothing

  predicate Expired(s: Session, limits: Limits, now: real) {
    now - s.lastActivity > limits.maxIdle as real || now - s.createdAt > limits.maxSession as real
  }

  lemma ExpiredStays(s: Session, limits: Limits, now: real, later: real)
    requires Expired(s, limits, now) && now <= later
    ensures Expired(s, limits, later)
  {}

  function DropFirst(files: seq<string>, file: string): seq<string> {
    if files == [] then []
    else if files[0] == file then files[1..]
    else [files[0]] + DropFirst(files[1..], file)
  }

  lemma {:induction false} DropFirstTakesOne(files: seq<string>, file: string)
    ensures multiset(DropFirst(files, file)) == multiset(files) - multiset{file}
  {
    if files != [] {
      assert files == [files[0]] + files[1..];
      DropFirstTakesOne(files[1..], file);
    }
  }

  /** The id a new session gets: the one asked for unless it is taken. */
  function ChosenId(memory: map<SessionId, Session>, asked: Option<SessionId>, generated: SessionId): SessionId {
    if asked.None? || asked.value in memory then generated else asked.value
  }

  /** The session an operation is about. */
  function Target(memory: map<SessionId, Session>, op: Operation): SessionId {
    if op.Create? then ChosenId(memory, op.asked, op.generated) else op.id
  }

  function Changed(s: Session, op: Operation): Session
    requires !op.Create? && !op.Delete?
  {
    match op
    case Touch(_, now) => s.(lastActivity := now)
    case Bind(_, sandbox, now) => s.(sandbox := Some(sandbox), lastActivity := now)
    case AddFile(_, file, now) =>
      s.(dataFiles := if file in s.dataFiles then s.dataFiles else s.dataFiles + [file], lastActivity := now)
    case RemoveFile(_, file) => s.(dataFiles := DropFirst(s.dataFiles, file))
    case Merge(_, metadata, now) => s.(metadata := s.metadata + metadata, lastActivity := now)
  }

  /** Whether the operation finds what it needs; otherwise it changes nothing and answers False. */
  predicate Succeeds(memory: map<SessionId, Session>, op: Operation) {
    match op
    case Create(_, _, _, _) => true
    case RemoveFile(id, file) => id in memory && file in memory[id].dataFiles
    case _ => op.id in memory
  }

  function MemoryAfter(memory: map<SessionId, Session>, op: Operation): map<SessionId, Session> {
    if !Succeeds(memory, op) then memory
    else
      match op
      case Create(asked, generated, metadata, now) =>
        memory[ChosenId(memory, asked, generated) := Session(None, now, now, [], metadata)]
      case Delete(id) => memory - {id}
      case _ => memory[op.id := Changed(memory[op.id], op)]
  }

  function WriteOf(memory: map<SessionId, Session>, op: Operation): Write {
    if !Succeeds(memory, op) then Nothing
    else if op.Delete? then Erase(op.id)
    else Put(Target(memory, op))
  }

  /** A write reaches the table or is lost: a failure is only logged. */
  function RowsAfter(rows: map<SessionId, Row>, memory: map<SessionId, Session>, write: Write, ok: bool): map<SessionId, Row> {
    if !ok then rows
    else
      match write
      case Put(id) => if id in memory then rows[id := Readable(memory[id])] else rows
      case Erase(id) => rows - {id}
      case Nothing => rows
  }

  function ExpiredIds(memory: map<SessionId, Session>, limits: Limits, now: real): set<SessionId> {
    set id | id in memory && Expired(memory[id], limits, now)
  }

  // ---------- Starting up ----------

  predicate Survives(row: Row, limits: Limits, now: real) {
    row.Readable? && !Expired(row.session, limits, now)
  }

  function Dropped(rows: map<SessionId, Row>, limits: Limits, now: real): set<SessionId> {
    set id | id in rows && !Survives(rows[id], limits, now)
  }

  /** The rows a start leaves: all of them, or without every row that was not restored. */
  function Surviving(rows: map<SessionId, Row>, limits: Limits, now: real): (r: map<SessionId, Row>)
    ensures forall id :: id in r <==> id in rows && Survives(rows[id], limits, now)
    ensures forall id :: id in r ==> r[id] == rows[id]
  {
    rows - Dropped(rows, limits, now)
  }

  function Unbound(s: Session): Session {
    s.(sandbox := None)
  }

  function Sessions(rows: map<SessionId, Row>): map<SessionId, Session>
    requires forall id :: id in rows ==> rows[id].Readable?
  {
    map id | id in rows :: Unbound(rows[id].session)
  }

  /** The sessions a start restores; their sandboxes are gone. */
  function Restored(rows: map<SessionId, Row>, limits: Limits, now: real): (r: map<SessionId, Session>)
    ensures forall id :: id in r <==> id in rows && Survives(rows[id], limits, now)
    ensures forall id :: id in r ==> rows[id].Readable? && r[id] == Unbound(rows[id].session)
  {
    Sessions(Surviving(rows, limits, now))
  }
}
