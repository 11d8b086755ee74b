/** Who changed a row and when: the audit columns over committed histories, imports and interleaved runs. */
module Audit {
  import opened Types
  import opened Validation
  import opened Atomic
  import opened Versions
  import opened Runs
  import opened Engine
  import opened EngineProof
  import opened EngineTheorems

  /** An operator and the start time of his transaction. */
  datatype Signature = Signature(who: string, at: Time)

  /** The last operation of the log that changed row `id`: an update, or a delete or restore that flipped
      its status. */
  function LastChange(log: seq<Op>, id: int, s: Status): Option<Signature> {
    if log == [] then None
    else
      var n := |log| - 1;
      var before, op := StatusAfter(log[..n], id, s), log[n];
      if op.UpdateOp? && op.id == id then Some(Signature(op.who, op.now))
      else if op.DeleteOp? && op.id == id && before == Active then Some(Signature(op.who, op.now))
      else if op.RestoreOp? && op.id == id && before == Deleted then Some(Signature(op.who, op.now))
      else LastChange(log[..n], id, s)
  }

  /** An empty operator is recorded as "system". */
  predicate SignedBy(name: string, at: Time, sig: Signature) {
    name == (if sig.who == "" then "system" else sig.who) && at == sig.at
  }

  /** Without imports a row's updated_by and updated_at are those of the last operation that changed it,
      and its created_by and created_at never change. */
  lemma {:induction false} AuditFollowsChanges(rows: Rows, log: seq<Op>, id: int)
    requires NoImport(log) && Replay(rows, log).Some? && id in rows
    ensures id in Replay(rows, log).value
    ensures var first, row, last := rows[id], Replay(rows, log).value[id], LastChange(log, id, rows[id].status);
            && row.createdBy == first.createdBy && row.createdAt == first.createdAt
            && (last.Some? ==> SignedBy(row.updatedBy, row.updatedAt, last.value))
            && (last.None? ==> row.updatedBy == first.updatedBy && row.updatedAt == first.updatedAt)
  {
    if log != [] {
      var n := |log| - 1;
      AuditFollowsChanges(rows, log[..n], id);
      RowIsFoldOfChanges(rows, log[..n], id);
    }
  }

  /** An inserted row is created and last changed by its inserter, until another operation changes it. */
  lemma InsertedRowAudit(rows: Rows, ins: Op, log: seq<Op>)
    requires ins.InsertOp? && NoImport(log) && Replay(rows, [ins] + log).Some?
    ensures ins.id in Replay(rows, [ins] + log).value
    ensures var row, inserter := Replay(rows, [ins] + log).value[ins.id], Signature(ins.who, ins.now);
            var last := LastChange(log, ins.id, Active);
            && SignedBy(row.createdBy, row.createdAt, inserter)
            && SignedBy(row.updatedBy, row.updatedAt, if last.Some? then last.value else inserter)
  {
    ReplaySplit(rows, [ins], log);
    ReplayStep(rows, [], ins);
    assert [] + [ins] == [ins];
    AuditFollowsChanges(Replay(rows, [ins]).value, log, ins.id);
  }

  /** What a committed import stores for a file row, column by column: version 1, an open status as active,
      absent data as the empty row, and the file's operators and times, of which only those it leaves
      empty are filled, with "system" and the time of the import. */
  lemma ImportedColumns(rows: Rows, imp: Op, i: nat)
    requires imp.ImportOp? && i < |imp.file| && Apply(rows, imp).Some?
    ensures imp.file[i].id in Apply(rows, imp).value
    ensures var row, d := Apply(rows, imp).value[imp.file[i].id], imp.file[i];
            && row.id == d.id && row.version == 1
            && row.status == (if d.status == Unset then Active else d.status)
            && row.data == (if d.data == None then map[] else d.data.value)
            && row.createdBy == (if d.createdBy == "" then "system" else d.createdBy)
            && row.updatedBy == (if d.updatedBy == "" then "system" else d.updatedBy)
            && row.createdAt == (if d.createdAt == ZERO_TIME then imp.now else d.createdAt)
            && row.updatedAt == (if d.updatedAt == ZERO_TIME then imp.now else d.updatedAt)
  {
    LoadIsFile(imp.file, imp.now);
  }

  /** In every interleaved run: a row inserted after the last import is signed by its inserter and by the
      last transaction to commit a change of it. */
  lemma EveryRunSignsRows(rows0: Rows, nextId: int, run: seq<Event>, s: State, i: nat)
    requires Reaches(rows0, nextId, run, s) && i < |s.log| && s.log[i].InsertOp? && NoImport(s.log[i + 1..])
    ensures s.log[i].id in s.rows
    ensures var row, inserter := s.rows[s.log[i].id], Signature(s.log[i].who, s.log[i].now);
            var last := LastChange(s.log[i + 1..], s.log[i].id, Active);
            && SignedBy(row.createdBy, row.createdAt, inserter)
            && SignedBy(row.updatedBy, row.updatedAt, if last.Some? then last.value else inserter)
  {
    ReachableInv(rows0, nextId, run, s);
    assert s.log == s.log[..i] + ([s.log[i]] + s.log[i + 1..]);
    ReplaySplit(rows0, s.log[..i], [s.log[i]] + s.log[i + 1..]);
    InsertedRowAudit(Replay(rows0, s.log[..i]).value, s.log[i], s.log[i + 1..]);
  }
}
