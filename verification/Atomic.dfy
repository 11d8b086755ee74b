/** The reference table: every operation as one atomic step on the committed rows.
    The interleaved engine, the imperative table and all history theorems are stated against it. */
module Atomic {
  import opened Types
  import opened Validation

  /** A committed operation. `fields` is the schema the writer validated against,
      `now` the start time of its transaction. */
  datatype Op =
    | InsertOp(fields: seq<Field>, id: int, data: Data, who: string, now: Time)
    | UpdateOp(fields: seq<Field>, id: int, version: int, patch: Data, who: string, now: Time)
    | DeleteOp(id: int, who: string, now: Time)
    | RestoreOp(id: int, who: string, now: Time)
    | ImportOp(fields: seq<Field>, file: seq<FileDoc>, now: Time)
  {
    /** Update, soft delete and restore work on one existing row. */
    predicate OnRow() { UpdateOp? || DeleteOp? || RestoreOp? }
  }

  function NewRow(id: int, data: Data, who: string, now: Time): Doc {
    Doc(id, 1, Active, data, Operator(who), Operator(who), now, now)
  }

  /** What a row operation makes of the row it finds; `None` when it refuses. */
  ghost function RowEffect(op: Op, doc: Doc): Option<Doc>
    requires op.OnRow()
  {
    match op
    case UpdateOp(fields, _, version, patch, who, now) =>
      if doc.status == Active && 1 <= version == doc.version && Conforms(fields, doc.data + patch)
         && |who| <= OPERATOR_WIDTH
      then Some(Doc(doc.id, version + 1, Active, doc.data + patch,
                    doc.createdBy, Operator(who), doc.createdAt, now))
      else None
    case DeleteOp(_, who, now) =>
      if doc.status != Active then Some(doc)
      else if |who| > OPERATOR_WIDTH then None
      else Some(Doc(doc.id, doc.version + 1, Deleted, doc.data,
                    doc.createdBy, Operator(who), doc.createdAt, now))
    case RestoreOp(_, who, now) =>
      if doc.status != Deleted then Some(doc)
      else if |who| > OPERATOR_WIDTH then None
      else Some(Doc(doc.id, doc.version + 1, Active, doc.data,
                    doc.createdBy, Operator(who), doc.createdAt, now))
  }

  // ---------- import ----------

  /** An absent `data` is stored as the empty object. */
  function FileData(d: FileDoc): Data {
    if d.data.Some? then d.data.value else map[]
  }

  ghost predicate FileRowOk(fields: seq<Field>, d: FileDoc) {
    && d.id > 0
    && d.status in {Unset, Active, Deleted}
    && Conforms(fields, FileData(d))
  }

  /** What the batched INSERT can store besides its uniqueness check. */
  predicate Storable(d: FileDoc) {
    |d.createdBy| <= OPERATOR_WIDTH && |d.updatedBy| <= OPERATOR_WIDTH
  }

  predicate DistinctIds(file: seq<FileDoc>) {
    forall i, j | 0 <= i < j < |file| :: file[i].id != file[j].id
  }

  ghost predicate RowsAcceptable(fields: seq<Field>, file: seq<FileDoc>) {
    && (forall i | 0 <= i < |file| :: FileRowOk(fields, file[i]) && Storable(file[i]))
    && DistinctIds(file)
  }

  lemma SliceAcceptable(fields: seq<Field>, file: seq<FileDoc>, k: nat, n: nat)
    requires k + n <= |file|
    ensures RowsAcceptable(fields, file) ==> RowsAcceptable(fields, file[k..k + n])
  {
  }

  /** The files an import accepts: every row good, ids distinct, and MAX(id) + 1 still a 64-bit id. */
  ghost predicate ImportAccepts(fields: seq<Field>, file: seq<FileDoc>) {
    && RowsAcceptable(fields, file)
    && (forall i | 0 <= i < |file| :: file[i].id < MAX_INT64)
  }

  /** A file row as stored: version 1, defaults filled in. */
  function Normalise(d: FileDoc, now: Time): Doc {
    Doc(d.id, 1, if d.status == Unset then Active else d.status, FileData(d),
        Operator(d.createdBy), Operator(d.updatedBy),
        if d.createdAt == ZERO_TIME then now else d.createdAt,
        if d.updatedAt == ZERO_TIME then now else d.updatedAt)
  }

  function Load(file: seq<FileDoc>, now: Time): Rows {
    if file == [] then map[]
    else
      var last := file[|file| - 1];
      Load(file[..|file| - 1], now)[last.id := Normalise(last, now)]
  }

  /** The largest id of a file is that of one of its rows, or 0 for an empty file. */
  lemma IsMaxIdIff(fields: seq<Field>, file: seq<FileDoc>, now: Time, max: int)
    requires RowsAcceptable(fields, file)
    ensures IsMaxId(Load(file, now), max) <==>
              if file == [] then max == 0
              else (exists i :: 0 <= i < |file| && file[i].id == max) && forall i | 0 <= i < |file| :: file[i].id <= max
  {
    LoadIsFile(file, now);
  }

  /** `max` is COALESCE(MAX(id), 0). */
  predicate IsMaxId(rows: Rows, max: int) {
    && (forall id | id in rows :: id <= max)
    && (max in rows || (max == 0 && rows == map[]))
  }

  lemma {:induction false} LoadOnlyFile(file: seq<FileDoc>, now: Time)
    ensures forall id | id in Load(file, now) :: exists i :: 0 <= i < |file| && file[i].id == id
  {
    if file != [] {
      var n := |file| - 1;
      LoadOnlyFile(file[..n], now);
      assert forall i | 0 <= i < n :: file[..n][i] == file[i];
    }
  }

  lemma {:induction false} LoadWholeFile(file: seq<FileDoc>, now: Time)
    requires DistinctIds(file)
    ensures forall i | 0 <= i < |file| ::
              file[i].id in Load(file, now) && Load(file, now)[file[i].id] == Normalise(file[i], now)
  {
    if file != [] {
      var n := |file| - 1;
      LoadWholeFile(file[..n], now);
      assert forall i | 0 <= i < n :: file[..n][i] == file[i] && file[i].id != file[n].id;
    }
  }

  lemma {:induction false} LoadCounts(file: seq<FileDoc>, now: Time)
    requires DistinctIds(file)
    ensures |Load(file, now)| == |file|
  {
    if file != [] {
      var n := |file| - 1;
      LoadCounts(file[..n], now);
      LoadOnlyFile(file[..n], now);
      assert forall i | 0 <= i < n :: file[..n][i] == file[i];
      assert file[n].id !in Load(file[..n], now);
    }
  }

  /** With distinct ids the loaded table holds exactly the file's rows. */
  lemma LoadIsFile(file: seq<FileDoc>, now: Time)
    requires DistinctIds(file)
    ensures forall i | 0 <= i < |file| ::
              file[i].id in Load(file, now) && Load(file, now)[file[i].id] == Normalise(file[i], now)
    ensures forall id | id in Load(file, now) :: exists i :: 0 <= i < |file| && file[i].id == id
    ensures |Load(file, now)| == |file|
  {
    LoadOnlyFile(file, now);
    LoadWholeFile(file, now);
    LoadCounts(file, now);
  }

  lemma {:induction false} LoadAppend(a: seq<FileDoc>, b: seq<FileDoc>, now: Time)
    ensures Load(a + b, now) == Load(a, now) + Load(b, now)
  {
    if b == [] {
      assert a + b == a;
    } else {
      var n := |b| - 1;
      assert (a + b)[..|a + b| - 1] == a + b[..n];
      LoadAppend(a, b[..n], now);
    }
  }

  // ---------- the ids of a file ----------

  predicate AllBelow(rows: Rows, n: int) { forall id | id in rows :: id < n }

  /** No stored id lies beyond all ids of the file. */
  predicate IdsCovered(rows: Rows, file: seq<FileDoc>) {
    forall id | id in rows :: id <= 0 || exists i :: 0 <= i < |file| && id <= file[i].id
  }

  lemma MaxOfFilePositive(fields: seq<Field>, file: seq<FileDoc>, now: Time, max: int)
    requires RowsAcceptable(fields, file) && IsMaxId(Load(file, now), max)
    ensures max >= 0
    ensures file != [] ==> exists i :: 0 <= i < |file| && file[i].id == max
  {
    LoadIsFile(file, now);
    if file != [] {
      var i :| 0 <= i < |file| && file[i].id == max;
      assert FileRowOk(fields, file[i]);
    }
  }

  lemma BelowMaxIff(fields: seq<Field>, file: seq<FileDoc>, now: Time, rows: Rows, max: int)
    requires RowsAcceptable(fields, file) && IsMaxId(Load(file, now), max)
    ensures AllBelow(rows, max + 1) <==> IdsCovered(rows, file)
  {
    LoadIsFile(file, now);
    MaxOfFilePositive(fields, file, now, max);
    if file == [] { assert max == 0; }
  }

  // ---------- serial histories ----------

  ghost function Apply(rows: Rows, op: Op): Option<Rows> {
    match op
    case InsertOp(fields, id, data, who, now) =>
      if 0 < id && id !in rows && Conforms(fields, data) && |who| <= OPERATOR_WIDTH
      then Some(rows[id := NewRow(id, data, who, now)]) else None
    case ImportOp(fields, file, now) =>
      if ImportAccepts(fields, file) then Some(Load(file, now)) else None
    case _ =>
      if op.id !in rows then None
      else match RowEffect(op, rows[op.id])
           case Some(doc) => Some(rows[op.id := doc])
           case None => None
  }

  /** An import succeeds exactly when all ids are positive, distinct and short of the last 64-bit one, all
      statuses are legal or empty, all operators fit and all data conforms, absent data as the empty row. */
  lemma ImportSucceedsIff(rows: Rows, fields: seq<Field>, file: seq<FileDoc>, now: Time)
    ensures Apply(rows, ImportOp(fields, file, now)).Some? <==>
              && (forall d | d in file ::
                    && 1 <= d.id < 0x7FFF_FFFF_FFFF_FFFF
                    && (d.status == Unset || d.status == Active || d.status == Deleted)
                    && |d.createdBy| <= 64 && |d.updatedBy| <= 64
                    && Conforms(fields, if d.data == None then map[] else d.data.value))
              && (forall i, j | 0 <= i < |file| && 0 <= j < |file| && i != j :: file[i].id != file[j].id)
  {
    if Apply(rows, ImportOp(fields, file, now)).Some? {
      assert forall i | 0 <= i < |file| :: FileRowOk(fields, file[i]) && Storable(file[i]);
    }
  }

  /** Runs committed operations one at a time; `None` as soon as one of them is refused. */
  ghost function Replay(rows: Rows, log: seq<Op>): Option<Rows> {
    if log == [] then Some(rows)
    else match Replay(rows, log[..|log| - 1])
         case Some(r) => Apply(r, log[|log| - 1])
         case None => None
  }

  lemma ReplayStep(rows: Rows, log: seq<Op>, op: Op)
    ensures Replay(rows, log + [op]) ==
            match Replay(rows, log) case Some(r) => Apply(r, op) case None => None
  {
    assert (log + [op])[..|log + [op]| - 1] == log;
  }

  lemma {:induction false} ReplaySplit(rows: Rows, a: seq<Op>, b: seq<Op>)
    ensures Replay(rows, a + b) == match Replay(rows, a) case Some(r) => Replay(r, b) case None => None
  {
    if b == [] {
      assert a + b == a;
    } else {
      var n := |b| - 1;
      assert (a + b)[..|a + b| - 1] == a + b[..n];
      ReplaySplit(rows, a, b[..n]);
    }
  }

  // ---------- what every stored row satisfies ----------

  predicate StoredOk(id: int, doc: Doc) {
    && doc.id == id > 0 && doc.version >= 1
    && doc.status in {Active, Deleted}
    && 1 <= |doc.createdBy| <= OPERATOR_WIDTH && 1 <= |doc.updatedBy| <= OPERATOR_WIDTH
    && doc.createdAt != ZERO_TIME && doc.updatedAt != ZERO_TIME
  }

  /** Rows are kept under their own ids. */
  predicate RowIdsOk(rows: Rows) {
    forall id | id in rows :: rows[id].id == id
  }

  ghost predicate TableOk(rows: Rows) {
    forall id | id in rows :: StoredOk(id, rows[id])
  }

  lemma {:induction false} LoadIds(file: seq<FileDoc>, now: Time)
    ensures RowIdsOk(Load(file, now))
  {
    if file != [] { LoadIds(file[..|file| - 1], now); }
  }

  lemma {:induction false} ReplayKeepsRowIds(rows: Rows, log: seq<Op>)
    requires RowIdsOk(rows) && Replay(rows, log).Some?
    ensures RowIdsOk(Replay(rows, log).value)
  {
    if log != [] {
      var n := |log| - 1;
      ReplayKeepsRowIds(rows, log[..n]);
      if log[n].ImportOp? { LoadIds(log[n].file, log[n].now); }
    }
  }

  predicate PositiveIds(rows: Rows) { forall id | id in rows :: id > 0 }

  lemma {:induction false} ReplayKeepsPositiveIds(rows: Rows, log: seq<Op>)
    requires PositiveIds(rows) && Replay(rows, log).Some?
    ensures PositiveIds(Replay(rows, log).value)
  {
    if log != [] {
      var n := |log| - 1;
      ReplayKeepsPositiveIds(rows, log[..n]);
      if log[n].ImportOp? { LoadedIdsPositive(log[n].fields, log[n].file, log[n].now); }
    }
  }

  lemma LoadedIdsPositive(fields: seq<Field>, file: seq<FileDoc>, now: Time)
    requires RowsAcceptable(fields, file)
    ensures PositiveIds(Load(file, now))
  {
    LoadOnlyFile(file, now);
    assert forall i | 0 <= i < |file| :: FileRowOk(fields, file[i]);
  }

  lemma ApplyKeepsTableOk(rows: Rows, op: Op)
    requires TableOk(rows) && op.now != ZERO_TIME && Apply(rows, op).Some?
    ensures TableOk(Apply(rows, op).value)
  {
    if op.ImportOp? {
      var rows' := Load(op.file, op.now);
      LoadIsFile(op.file, op.now);
      forall id | id in rows' ensures StoredOk(id, rows'[id]) {
        var i :| 0 <= i < |op.file| && op.file[i].id == id;
        assert FileRowOk(op.fields, op.file[i]) && Storable(op.file[i]);
      }
    }
  }

  /** Every committed history keeps ids positive, statuses legal, operators non-empty and times set. */
  lemma {:induction false} ReplayKeepsTableOk(rows: Rows, log: seq<Op>)
    requires TableOk(rows) && Replay(rows, log).Some?
    requires forall i | 0 <= i < |log| :: log[i].now != ZERO_TIME
    ensures TableOk(Replay(rows, log).value)
  {
    if log != [] {
      var n := |log| - 1;
      ReplayKeepsTableOk(rows, log[..n]);
      ApplyKeepsTableOk(Replay(rows, log[..n]).value, log[n]);
    }
  }
}
