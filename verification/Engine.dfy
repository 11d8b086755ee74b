/** The type table under concurrency: transactions as interleaved steps over committed rows, row locks,
    the two table locks that conflict, the id sequence and pending writes (READ COMMITTED,
    sections 13.2.1 and 13.3.1 of the PostgreSQL documentation).
    A statement that has to wait is a step that is not enabled yet; any transaction may abort at any
    time, which covers lock timeouts, deadlock victims, failed checks and lost connections. */
module Engine {
  import opened Types
  import opened Validation
  import opened Atomic
  import Sql

  type Tid = nat

  datatype Phase =
    | Started
    | Locked(doc: Doc)      // SELECT ... FOR UPDATE has returned `doc`
    | Inserted(newId: int)  // the new row is pending
    | Done(found: Doc)      // the row statement is over, with or without a pending write
    | Holding               // the replacement lock is held
    | Loading(loaded: nat)  // the table is cleared and `loaded` file rows are pending
    | SeqSet                // the sequence is set; only the commit is left

  /** A running transaction. An insert's `op.id` is a placeholder until the sequence gives an id. */
  datatype Tx = Tx(op: Op, phase: Phase, dels: set<int>, puts: Rows)

  datatype State = State(
    rows: Rows,                  // committed
    nextId: int,                 // the sequence; not transactional
    rowLocks: map<int, Tid>,
    exclusive: set<Tid>,         // holders of ROW EXCLUSIVE on the table
    replacing: Option<Tid>,      // holder of SHARE ROW EXCLUSIVE
    txs: map<Tid, Tx>,
    log: seq<Op>)                // committed operations in commit order

  datatype Event =
    | Begin(t: Tid, op: Op)
    | LockRow(t: Tid)
    | WriteRow(t: Tid)
    | InsertRow(t: Tid)
    | BurnId
    | LockTable(t: Tid)
    | DeleteAll(t: Tid)
    | LoadBatch(t: Tid, n: nat)
    | SetSeq(t: Tid, max: int)
    | Commit(t: Tid)
    | Abort(t: Tid)

  function Init(rows: Rows, nextId: int): State {
    State(rows, nextId, map[], {}, None, map[], [])
  }

  /** The table as transaction `tx` sees it: committed rows under its own deletions and writes. */
  function View(rows: Rows, tx: Tx): Rows {
    (rows - tx.dels) + tx.puts
  }

  /** The primary key admits `id`: not visible to the writer, not pending anywhere. */
  predicate FreeId(s: State, t: Tid, id: int)
    requires t in s.txs
  {
    && id !in View(s.rows, s.txs[t])
    && forall u | u in s.txs :: id !in s.txs[u].puts
  }

  function With(s: State, t: Tid, tx: Tx): State {
    s.(txs := s.txs[t := tx])
  }

  /** A write on the table needs ROW EXCLUSIVE, which the replacement lock of another transaction bars. */
  predicate Writable(s: State) { s.replacing.None? }

  function Wrote(s: State, t: Tid, tx: Tx): State {
    With(s, t, tx).(exclusive := s.exclusive + {t})
  }

  function StepLockRow(s: State, t: Tid): Option<State>
    requires t in s.txs
  {
    var tx := s.txs[t];
    if tx.op.OnRow() && tx.phase == Started && tx.op.id in s.rows && tx.op.id !in s.rowLocks
    then Some(With(s, t, tx.(phase := Locked(s.rows[tx.op.id]))).(rowLocks := s.rowLocks[tx.op.id := t]))
    else None
  }

  ghost function StepWriteRow(s: State, t: Tid): Option<State>
    requires t in s.txs
  {
    var tx := s.txs[t];
    if !tx.phase.Locked? || !tx.op.OnRow() then None
    else
      var doc := tx.phase.doc;
      var over := tx.(phase := Done(doc));
      match tx.op
      case UpdateOp(fields, id, version, patch, who, now) =>
        var merged := doc.data + patch;
        if doc.status != Active || doc.version != version || !Conforms(fields, merged) || !Writable(s)
        then None
        else AfterWrite(s, t, over, Sql.UpdateDocData(s.rows, id, version, merged, who, now), true)
      case DeleteOp(id, who, now) =>
        if doc.status != Active then Some(With(s, t, over))
        else if !Writable(s) then None
        else AfterWrite(s, t, over, Sql.UpdateDocStatus(s.rows, id, Active, Deleted, who, now), false)
      case RestoreOp(id, who, now) =>
        if doc.status != Deleted then Some(With(s, t, over))
        else if !Writable(s) then None
        else AfterWrite(s, t, over, Sql.UpdateDocStatus(s.rows, id, Deleted, Active, who, now), false)
  }

  /** Takes up a row statement's result. No row is a version conflict for an update and
      "not moved" for a status change. */
  function AfterWrite(s: State, t: Tid, over: Tx, w: Sql.Written, rowRequired: bool): Option<State> {
    match w
    case Row(d) => Some(Wrote(s, t, over.(puts := map[d.id := d])))
    case NoRow => if rowRequired then None else Some(Wrote(s, t, over))
    case TooWide => None
  }

  function WithId(op: Op, id: int): Op
    requires op.InsertOp?
  {
    InsertOp(op.fields, id, op.data, op.who, op.now)
  }

  function StepInsertRow(s: State, t: Tid): Option<State>
    requires t in s.txs
  {
    var tx := s.txs[t];
    if !tx.op.InsertOp? || tx.phase != Started || !Writable(s) then None
    else
      var id := s.nextId;
      match Sql.InsertDoc(id, tx.op.data, tx.op.who, tx.op.now)
      case Row(d) =>
        if 0 < id <= MAX_INT64 && FreeId(s, t, id)
        then Some(Wrote(s, t, Tx(WithId(tx.op, id), Inserted(id), {}, map[id := d])).(nextId := id + 1))
        else None
      case _ => None
  }

  function StepLockTable(s: State, t: Tid): Option<State>
    requires t in s.txs
  {
    var tx := s.txs[t];
    if tx.op.ImportOp? && tx.phase == Started && s.replacing.None? && s.exclusive == {}
    then Some(With(s, t, tx.(phase := Holding)).(replacing := Some(t)))
    else None
  }

  /** DELETE of every row its snapshot shows; it needs the lock of each. */
  function StepDeleteAll(s: State, t: Tid): Option<State>
    requires t in s.txs
  {
    var tx := s.txs[t];
    if tx.op.ImportOp? && tx.phase == Holding && (forall id | id in s.rows :: id !in s.rowLocks)
    then Some(With(s, t, tx.(phase := Loading(0), dels := s.rows.Keys))
              .(rowLocks := s.rowLocks + (map id | id in s.rows :: t)))
    else None
  }

  predicate BatchFree(s: State, t: Tid, batch: seq<FileDoc>)
    requires t in s.txs
  {
    forall i | 0 <= i < |batch| :: FreeId(s, t, batch[i].id)
  }

  ghost function StepLoadBatch(s: State, t: Tid, n: nat): Option<State>
    requires t in s.txs
  {
    var tx := s.txs[t];
    if !tx.op.ImportOp? || !tx.phase.Loading? || n < 1 || tx.phase.loaded + n > |tx.op.file| then None
    else
      var k := tx.phase.loaded;
      var batch := tx.op.file[k..k + n];
      if RowsAcceptable(tx.op.fields, batch) && BatchFree(s, t, batch)
      then Some(With(s, t, tx.(phase := Loading(k + n), puts := tx.puts + Load(batch, tx.op.now))))
      else None
  }

  function StepSetSeq(s: State, t: Tid, max: int): Option<State>
    requires t in s.txs
  {
    var tx := s.txs[t];
    if tx.op.ImportOp? && tx.phase == Loading(|tx.op.file|) && IsMaxId(View(s.rows, tx), max) && max < MAX_INT64
    then Some(With(s, t, tx.(phase := SeqSet)).(nextId := max + 1))
    else None
  }

  /** Ends a transaction: its locks go, its pending writes are dropped. */
  function Release(s: State, t: Tid): State {
    s.(txs := s.txs - {t},
       rowLocks := map id | id in s.rowLocks && s.rowLocks[id] != t :: s.rowLocks[id],
       exclusive := s.exclusive - {t},
       replacing := if s.replacing == Some(t) then None else s.replacing)
  }

  predicate Committable(tx: Tx) {
    tx.phase.Done? || tx.phase.Inserted? || tx.phase == SeqSet
  }

  function StepCommit(s: State, t: Tid): Option<State>
    requires t in s.txs
  {
    var tx := s.txs[t];
    if Committable(tx)
    then Some(Release(s, t).(rows := View(s.rows, tx), log := s.log + [tx.op]))
    else None
  }

  ghost function Step(s: State, e: Event): Option<State> {
    match e
    case Begin(t, op) =>
      // inserts are validated, and updates have their version checked, before the transaction begins
      if t in s.txs || (op.InsertOp? && !Conforms(op.fields, op.data)) || (op.UpdateOp? && op.version < 1)
      then None
      else Some(With(s, t, Tx(op, Started, {}, map[])))
    // an insert that fails after nextval has used up an id; it held ROW EXCLUSIVE
    case BurnId => if Writable(s) then Some(s.(nextId := s.nextId + 1)) else None
    case LockRow(t) => if t in s.txs then StepLockRow(s, t) else None
    case WriteRow(t) => if t in s.txs then StepWriteRow(s, t) else None
    case InsertRow(t) => if t in s.txs then StepInsertRow(s, t) else None
    case LockTable(t) => if t in s.txs then StepLockTable(s, t) else None
    case DeleteAll(t) => if t in s.txs then StepDeleteAll(s, t) else None
    case LoadBatch(t, n) => if t in s.txs then StepLoadBatch(s, t, n) else None
    case SetSeq(t, max) => if t in s.txs then StepSetSeq(s, t, max) else None
    case Commit(t) => if t in s.txs then StepCommit(s, t) else None
    case Abort(t) => if t in s.txs then Some(Release(s, t)) else None
  }
}
