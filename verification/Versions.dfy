/** What the optimistic lock guarantees over committed histories, import epoch by import epoch. */
module Versions {
  import opened Types
  import opened Validation
  import opened Compat
  import opened Atomic
  import Sql

  predicate NoImport(log: seq<Op>) {
    forall i | 0 <= i < |log| :: !log[i].ImportOp?
  }

  predicate Targets(op: Op, id: int) { op.OnRow() && op.id == id }

  /** Status of row `id` after the log, from its status before. */
  function StatusAfter(log: seq<Op>, id: int, s: Status): Status {
    if log == [] then s
    else
      var before := StatusAfter(log[..|log| - 1], id, s);
      var op := log[|log| - 1];
      if !Targets(op, id) then before
      else if op.DeleteOp? && before == Active then Deleted
      else if op.RestoreOp? && before == Deleted then Active
      else before
  }

  /** How many operations of the log change row `id`: every update, and every delete or restore
      that flips the status. */
  function Changes(log: seq<Op>, id: int, s: Status): nat {
    if log == [] then 0
    else
      var n := |log| - 1;
      var before := StatusAfter(log[..n], id, s);
      Changes(log[..n], id, s) +
      if Targets(log[n], id) && (log[n].UpdateOp?
                                 || (log[n].DeleteOp? && before == Active)
                                 || (log[n].RestoreOp? && before == Deleted))
      then 1 else 0
  }

  /** The patches of the updates on row `id`, merged in commit order. */
  function MergedData(log: seq<Op>, id: int, data: Data): Data {
    if log == [] then data
    else
      var n := |log| - 1;
      var before := MergedData(log[..n], id, data);
      if Targets(log[n], id) && log[n].UpdateOp? then before + log[n].patch else before
  }

  /** Within an epoch a row is what its committed changes made of it, in commit order. */
  lemma {:induction false} RowIsFoldOfChanges(rows: Rows, log: seq<Op>, id: int)
    requires NoImport(log) && Replay(rows, log).Some? && id in rows
    ensures var r := Replay(rows, log).value;
            && id in r
            && r[id].id == rows[id].id
            && r[id].version == rows[id].version + Changes(log, id, rows[id].status)
            && r[id].status == StatusAfter(log, id, rows[id].status)
            && r[id].data == MergedData(log, id, rows[id].data)
            && r[id].createdAt == rows[id].createdAt && r[id].createdBy == rows[id].createdBy
            && (Changes(log, id, rows[id].status) == 0 ==> r[id] == rows[id])
  {
    if log != [] {
      RowIsFoldOfChanges(rows, log[..|log| - 1], id);
    }
  }

  /** Version = 1 + number of committed changes, counted from the row's insertion. */
  lemma InsertedRowVersion(rows: Rows, ins: Op, log: seq<Op>)
    requires ins.InsertOp? && NoImport(log) && Replay(rows, [ins] + log).Some?
    ensures var r := Replay(rows, [ins] + log).value;
            && ins.id in r
            && r[ins.id].version == 1 + Changes(log, ins.id, Active)
            && r[ins.id].status == StatusAfter(log, ins.id, Active)
            && r[ins.id].data == MergedData(log, ins.id, ins.data)
  {
    ReplaySplit(rows, [ins], log);
    ReplayStep(rows, [], ins);
    assert [] + [ins] == [ins];
    RowIsFoldOfChanges(Replay(rows, [ins]).value, log, ins.id);
  }

  /** Within an epoch (id, version) determines the whole row. */
  lemma VersionDeterminesRow(rows: Rows, a: seq<Op>, b: seq<Op>, id: int)
    requires Replay(rows, a + b).Some? && NoImport(b)
    requires Replay(rows, a).Some? && id in Replay(rows, a).value
    ensures id in Replay(rows, a + b).value
    ensures Replay(rows, a + b).value[id].version == Replay(rows, a).value[id].version ==>
              Replay(rows, a + b).value[id] == Replay(rows, a).value[id]
  {
    ReplaySplit(rows, a, b);
    RowIsFoldOfChanges(Replay(rows, a).value, b, id);
  }

  /** The version predicate is a guard of its own: a writer that read the row earlier and kept no lock on
      it is refused by the UPDATE exactly when the row has changed since. Likewise the status predicate. */
  lemma PredicatesGuardAlone(rows: Rows, log: seq<Op>, id: int, data: Data, from: Status, to: Status,
                             who: string, now: Time)
    requires NoImport(log) && Replay(rows, log).Some? && id in rows
    ensures var r, read := Replay(rows, log).value, rows[id];
            && (Sql.UpdateDocData(r, id, read.version, data, who, now).NoRow? <==> Changes(log, id, read.status) > 0)
            && (Sql.UpdateDocStatus(r, id, from, to, who, now).NoRow? <==> StatusAfter(log, id, read.status) != from)
  {
    RowIsFoldOfChanges(rows, log, id);
  }

  /** No lost update: of two updates of one row in one epoch, the later one has seen the earlier. */
  lemma AtMostOneUpdatePerVersion(rows: Rows, u: Op, b: seq<Op>, w: Op)
    requires u.UpdateOp? && w.UpdateOp? && u.id == w.id && NoImport(b)
    requires Replay(rows, [u] + b + [w]).Some?
    ensures w.version > u.version
    ensures w.version == u.version + 1 + Changes(b, u.id, Active)
  {
    ReplayStep(rows, [u] + b, w);
    ReplaySplit(rows, [u], b);
    ReplayStep(rows, [], u);
    assert [] + [u] == [u];
    RowIsFoldOfChanges(Replay(rows, [u]).value, b, u.id);
  }

  // ---------- across an import ----------

  function StatusLoaded(d: FileDoc): Status {
    if d.status == Unset then Active else d.status
  }

  /** What a row imported as `d` has become after `b`: its version, status and data. */
  lemma ImportedRowAfter(rows: Rows, imp: Op, b: seq<Op>, i: nat)
    requires imp.ImportOp? && NoImport(b) && i < |imp.file| && Replay(rows, [imp] + b).Some?
    ensures var r, d := Replay(rows, [imp] + b).value, imp.file[i];
            && d.id in r
            && r[d.id].version == 1 + Changes(b, d.id, StatusLoaded(d))
            && r[d.id].status == StatusAfter(b, d.id, StatusLoaded(d))
            && r[d.id].data == MergedData(b, d.id, FileData(d))
  {
    ReplaySplit(rows, [imp], b);
    ReplayStep(rows, [], imp);
    assert [] + [imp] == [imp];
    LoadIsFile(imp.file, imp.now);
    RowIsFoldOfChanges(Load(imp.file, imp.now), b, imp.file[i].id);
  }

  /** The update commits on a row that began with `status` and `data` at version 1 and has since seen
      `changes`: its version is 1 plus those changes, the row is active, the merge conforms and the
      operator fits. */
  ghost predicate UpdateFits(u: Op, status: Status, data: Data, changes: seq<Op>)
    requires u.UpdateOp?
  {
    && u.version == 1 + Changes(changes, u.id, status)
    && StatusAfter(changes, u.id, status) == Active
    && Conforms(u.fields, MergedData(changes, u.id, data) + u.patch)
    && |u.who| <= OPERATOR_WIDTH
  }

  lemma FitsAfterImport(rows: Rows, imp: Op, b: seq<Op>, i: nat, u: Op)
    requires imp.ImportOp? && NoImport(b) && i < |imp.file| && Replay(rows, [imp] + b).Some?
    requires u.UpdateOp? && u.id == imp.file[i].id
    ensures Replay(rows, [imp] + b + [u]).Some? <==> UpdateFits(u, StatusLoaded(imp.file[i]), FileData(imp.file[i]), b)
  {
    ImportedRowAfter(rows, imp, b, i);
    ReplayStep(rows, [imp] + b, u);
  }

  lemma FitsAfterInsert(rows: Rows, before: seq<Op>, ins: Op, b: seq<Op>, u: Op)
    requires ins.InsertOp? && NoImport(b) && Replay(rows, before + ([ins] + b)).Some?
    requires u.UpdateOp? && u.id == ins.id
    ensures Replay(rows, before + ([ins] + b) + [u]).Some? <==> UpdateFits(u, Active, ins.data, b)
  {
    ReplaySplit(rows, before, [ins] + b);
    InsertedRowVersion(Replay(rows, before).value, ins, b);
    ReplayStep(rows, before + ([ins] + b), u);
  }

  lemma {:induction false} AbsentStaysAbsent(rows: Rows, log: seq<Op>, id: int)
    requires NoImport(log) && Replay(rows, log).Some? && id !in rows
    requires forall k | 0 <= k < |log| :: !(log[k].InsertOp? && log[k].id == id)
    ensures id !in Replay(rows, log).value
  {
    if log != [] { AbsentStaysAbsent(rows, log[..|log| - 1], id); }
  }

  lemma RefusedWithoutRow(rows: Rows, imp: Op, b: seq<Op>, u: Op)
    requires imp.ImportOp? && NoImport(b) && Replay(rows, [imp] + b).Some? && u.UpdateOp?
    requires forall i | 0 <= i < |imp.file| :: imp.file[i].id != u.id
    requires forall k | 0 <= k < |b| :: !(b[k].InsertOp? && b[k].id == u.id)
    ensures Replay(rows, [imp] + b + [u]).None?
  {
    ReplaySplit(rows, [imp], b);
    ReplayStep(rows, [], imp);
    assert [] + [imp] == [imp];
    LoadOnlyFile(imp.file, imp.now);
    AbsentStaysAbsent(Load(imp.file, imp.now), b, u.id);
    ReplayStep(rows, [imp] + b, u);
  }

  /** When an update commits that arrives after an import and further operations, whatever its client had
      read before. A row of the file counts its changes since the import; a row inserted since, whose id
      the rewound sequence may have drawn again, counts them since its insertion; for any other id there is
      no row. */
  lemma CrossImportVersionCheck(rows: Rows, imp: Op, b: seq<Op>, u: Op)
    requires imp.ImportOp? && NoImport(b) && Replay(rows, [imp] + b).Some? && u.UpdateOp?
    ensures var commits := Replay(rows, [imp] + b + [u]).Some?;
            && (forall i | 0 <= i < |imp.file| && imp.file[i].id == u.id ::
                  commits <==> UpdateFits(u, StatusLoaded(imp.file[i]), FileData(imp.file[i]), b))
            && (forall k | 0 <= k < |b| && b[k].InsertOp? && b[k].id == u.id ::
                  commits <==> UpdateFits(u, Active, b[k].data, b[k + 1..]))
            && (commits ==>
                  || (exists i :: 0 <= i < |imp.file| && imp.file[i].id == u.id)
                  || (exists k :: 0 <= k < |b| && b[k].InsertOp? && b[k].id == u.id))
  {
    forall i | 0 <= i < |imp.file| && imp.file[i].id == u.id
      ensures Replay(rows, [imp] + b + [u]).Some?
              <==> UpdateFits(u, StatusLoaded(imp.file[i]), FileData(imp.file[i]), b)
    {
      FitsAfterImport(rows, imp, b, i, u);
    }
    forall k | 0 <= k < |b| && b[k].InsertOp? && b[k].id == u.id
      ensures Replay(rows, [imp] + b + [u]).Some? <==> UpdateFits(u, Active, b[k].data, b[k + 1..])
    {
      assert [imp] + b == [imp] + b[..k] + ([b[k]] + b[k + 1..]);
      FitsAfterInsert(rows, [imp] + b[..k], b[k], b[k + 1..], u);
    }
    if (forall i | 0 <= i < |imp.file| :: imp.file[i].id != u.id)
       && (forall k | 0 <= k < |b| :: !(b[k].InsertOp? && b[k].id == u.id)) {
      RefusedWithoutRow(rows, imp, b, u);
    }
  }

  /** In particular an update holding version 1 commits over a freshly imported active row. */
  lemma VersionOneOverwritesImport(rows: Rows, imp: Op, i: nat, u: Op)
    requires imp.ImportOp? && ImportAccepts(imp.fields, imp.file) && i < |imp.file|
    requires u.UpdateOp? && u.id == imp.file[i].id && u.version == 1 && |u.who| <= OPERATOR_WIDTH
    requires imp.file[i].status != Deleted && Conforms(u.fields, FileData(imp.file[i]) + u.patch)
    ensures Replay(rows, [imp] + [u]).Some?
    ensures u.id in Replay(rows, [imp] + [u]).value
    ensures Replay(rows, [imp] + [u]).value[u.id].data == FileData(imp.file[i]) + u.patch
  {
    ReplayStep(rows, [], imp);
    assert [] + [imp] == [imp] && [imp] + [] == [imp];
    assert FileRowOk(imp.fields, imp.file[i]);
    CrossImportVersionCheck(rows, imp, [], u);
    ImportedRowAfter(rows, imp, [], i);
    ReplayStep(rows, [imp], u);
  }

  const QTY := Field("qty", IntT, false, false, 0, 0)

  function QtyRow(n: int): Data { map["qty" := Num(n as real)] }

  lemma QtyRowConforms(n: int)
    ensures Conforms([QTY], QtyRow(n))
  {
    KnownIsDeclared([QTY], QTY);
  }

  /** The documented "read-modify-write across an import always conflicts" is false: here a client
      that read version 1 before the import overwrites a row it has never seen. */
  lemma CrossImportOverwrites()
    ensures var rows := map[1 := NewRow(1, QtyRow(1), "a", 1)];
            var imp := ImportOp([QTY], [FileDoc(1, 1, Active, Some(QtyRow(2)), "a", "a", 1, 1)], 2);
            var u := UpdateOp([QTY], 1, rows[1].version, QtyRow(3), "b", 3);
            && Replay(rows, [imp] + [u]).Some?
            && 1 in Replay(rows, [imp] + [u]).value
            && Replay(rows, [imp] + [u]).value[1].data == QtyRow(3)
  {
    var rows := map[1 := NewRow(1, QtyRow(1), "a", 1)];
    var imp := ImportOp([QTY], [FileDoc(1, 1, Active, Some(QtyRow(2)), "a", "a", 1, 1)], 2);
    var u := UpdateOp([QTY], 1, 1, QtyRow(3), "b", 3);
    QtyRowConforms(2);
    QtyRowConforms(3);
    assert QtyRow(2) + QtyRow(3) == QtyRow(3);
    VersionOneOverwritesImport(rows, imp, 0, u);
  }

  /** The history of a client that read row 2 at version 1, after which an import dropped that row and an
      insert drew its id again. */
  const REUSE_ROWS: Rows := map[1 := NewRow(1, QtyRow(1), "a", 1), 2 := NewRow(2, QtyRow(2), "a", 1)]
  const REUSE_IMPORT: Op := ImportOp([QTY], [FileDoc(1, 1, Active, Some(QtyRow(1)), "a", "a", 1, 1)], 2)
  const REUSE_INSERT: Op := InsertOp([QTY], 2, QtyRow(7), "b", 3)
  const REUSE_UPDATE: Op := UpdateOp([QTY], 2, 1, QtyRow(3), "c", 4)

  /** The second way in which the promised conflict fails: the client overwrites an unrelated new row. */
  lemma CrossImportReusesId()
    ensures REUSE_ROWS[REUSE_UPDATE.id].version == REUSE_UPDATE.version
    ensures forall d | d in REUSE_IMPORT.file :: d.id != REUSE_UPDATE.id
    ensures var log := [REUSE_IMPORT] + [REUSE_INSERT] + [REUSE_UPDATE];
            && Replay(REUSE_ROWS, log).Some?
            && 2 in Replay(REUSE_ROWS, log).value
            && Replay(REUSE_ROWS, log).value[2].data == QtyRow(3)
  {
    QtyRowConforms(1);
    QtyRowConforms(3);
    QtyRowConforms(7);
    var imp, ins, u := REUSE_IMPORT, REUSE_INSERT, REUSE_UPDATE;
    ReplayStep(REUSE_ROWS, [], imp);
    assert [] + [imp] == [imp];
    LoadOnlyFile(imp.file, imp.now);
    ReplayStep(REUSE_ROWS, [imp], ins);
    ReplayStep(REUSE_ROWS, [imp] + [ins], u);
    assert QtyRow(7) + QtyRow(3) == QtyRow(3);
  }

  // ---------- rows that no update can repair ----------

  /** A row that carries a key outside every schema the updates validate against stays as it is in
      that key, and no update of it commits, until an import replaces it. */
  lemma {:induction false} RemovedKeyBlocksUpdates(rows: Rows, log: seq<Op>, id: int, k: string)
    requires NoImport(log) && Replay(rows, log).Some?
    requires id in rows && k in rows[id].data
    requires forall i | 0 <= i < |log| :: log[i].UpdateOp? ==> k !in KnownFields(log[i].fields)
    ensures forall i | 0 <= i < |log| :: !(log[i].UpdateOp? && log[i].id == id)
    ensures id in Replay(rows, log).value && Replay(rows, log).value[id].data == rows[id].data
  {
    if log != [] {
      var n := |log| - 1;
      RemovedKeyBlocksUpdates(rows, log[..n], id, k);
      var op := log[n];
      var before := Replay(rows, log[..n]).value;
      if op.UpdateOp? && op.id in before {
        ForeignKeyRefused(op.fields, before[op.id].data + op.patch, k);
      }
    }
  }

  lemma ForeignKeyRefused(fields: seq<Field>, data: Data, k: string)
    ensures k in data && k !in KnownFields(fields) ==> !Conforms(fields, data)
  {
    assert k in data ==> (k !in KnownFields(fields) ==> !KeyOk(fields, k, data[k]));
  }

  /** Whether some update of a row can commit is decided by its status and its keys alone. */
  lemma UpdatableIff(rows: Rows, fields: seq<Field>, id: int, who: string, now: Time)
    requires TableOk(rows) && id in rows && WellFormed(fields) && |who| <= OPERATOR_WIDTH
    ensures (exists patch: Data :: Apply(rows, UpdateOp(fields, id, rows[id].version, patch, who, now)).Some?)
            <==> rows[id].status == Active && rows[id].data.Keys <= KnownFields(fields).Keys
  {
    var v := rows[id].version;
    assert StoredOk(id, rows[id]);
    RepairableIff(fields, rows[id].data);
    if rows[id].status == Active && rows[id].data.Keys <= KnownFields(fields).Keys {
      var patch: Data :| Conforms(fields, rows[id].data + patch);
      assert RowEffect(UpdateOp(fields, id, v, patch, who, now), rows[id]).Some?;
      assert Apply(rows, UpdateOp(fields, id, v, patch, who, now)).Some?;
    }
  }
}
