/** The converse of serializability: the steps, duplicate checks included, can produce every serial history. */
module EngineComplete {
  import opened Types
  import opened Validation
  import opened Atomic
  import opened Engine
  import opened Runs
  import opened EngineProof
  import opened Unique
  import opened Versions

  /** The unique key in the definition that an operation's writer has read. */
  type Keys = Op -> seq<string>

  /** The duplicate check passes at the moment of the row statement. The service may make it earlier,
      so the steps with this guard are some of the steps that it can take. */
  ghost predicate DupChecked(keyOf: Keys, s: State, e: Event) {
    (e.InsertRow? || e.WriteRow?) && e.t in s.txs ==>
      PassesDupCheck(s.rows, keyOf(s.txs[e.t].op), s.txs[e.t].op)
  }

  ghost function CheckedStep(keyOf: Keys, s: State, e: Event): Option<State> {
    if DupChecked(keyOf, s, e) then Step(s, e) else None
  }

  ghost function Checked(keyOf: Keys): (State, Event) -> Option<State> {
    (s: State, e: Event) => CheckedStep(keyOf, s, e)
  }

  /** What is proved of every run holds of the runs with checks. */
  lemma {:induction false} CheckedRunIsRun(keyOf: Keys, s: State, run: seq<Event>)
    requires Exec(Checked(keyOf), s, run).Some?
    ensures Exec(Step, s, run) == Exec(Checked(keyOf), s, run)
  {
    if run != [] { CheckedRunIsRun(keyOf, s, run[..|run| - 1]); }
  }

  lemma Then(keyOf: Keys, s0: State, m: State, e: Event, s: State)
    requires Can(Checked(keyOf), s0, m) && Step(m, e) == Some(s) && DupChecked(keyOf, m, e)
    ensures Can(Checked(keyOf), s0, s)
  {
    CanThen(Checked(keyOf), s0, m, e, s);
  }

  /** No transaction is running. */
  function Idle(rows: Rows, nextId: int, log: seq<Op>): State {
    State(rows, nextId, map[], {}, None, map[], log)
  }

  function MaxFileId(file: seq<FileDoc>): int {
    if file == [] then 0
    else
      var m, id := MaxFileId(file[..|file| - 1]), file[|file| - 1].id;
      if id > m then id else m
  }

  lemma {:induction false} MaxFileIdIsMax(file: seq<FileDoc>, now: Time)
    requires forall i | 0 <= i < |file| :: file[i].id > 0
    ensures IsMaxId(Load(file, now), MaxFileId(file)) && MaxFileId(file) >= 0
    ensures MaxFileId(file) == 0 || exists i :: 0 <= i < |file| && file[i].id == MaxFileId(file)
  {
    if file != [] { MaxFileIdIsMax(file[..|file| - 1], now); }
  }

  /** The sequence after one operation that ran alone. */
  function SeqAfterOp(nextId: int, op: Op): int {
    if op.InsertOp? then nextId + 1 else if op.ImportOp? then MaxFileId(op.file) + 1 else nextId
  }

  /** `op` can run alone: it passes the duplicate check, the reference table takes it, and an insert has
      the id of the sequence. */
  ghost predicate Runnable(keyOf: Keys, rows: Rows, nextId: int, op: Op) {
    && RowIdsOk(rows) && CheckedApply(rows, keyOf(op), op).Some?
    && (op.InsertOp? ==> op.id == nextId <= MAX_INT64)
  }

  /** The commit of the only transaction leaves no lock behind. */
  lemma CommitEndsIdle(s: State, t: Tid)
    requires s.txs.Keys == {t} && Committable(s.txs[t])
    requires s.exclusive <= {t} && s.replacing in {None, Some(t)} && forall id | id in s.rowLocks :: s.rowLocks[id] == t
    ensures Step(s, Commit(t)) == Some(Idle(View(s.rows, s.txs[t]), s.nextId, s.log + [s.txs[t].op]))
  {
    var end := Release(s, t);
    assert forall id :: id !in end.rowLocks;
    assert end == Idle(s.rows, s.nextId, s.log);
  }

  lemma InsertRunsAlone(keyOf: Keys, rows: Rows, nextId: int, log: seq<Op>, op: Op, t: Tid)
    requires op.InsertOp? && Runnable(keyOf, rows, nextId, op)
    ensures Can(Checked(keyOf), Idle(rows, nextId, log), Idle(Apply(rows, op).value, nextId + 1, log + [op]))
  {
    var s0 := Idle(rows, nextId, log);
    CanStay(Checked(keyOf), s0);
    var s1 := Step(s0, Begin(t, op)).value;
    Then(keyOf, s0, s0, Begin(t, op), s1);
    assert FreeId(s1, t, nextId);
    var s2 := Step(s1, InsertRow(t)).value;
    Then(keyOf, s0, s1, InsertRow(t), s2);
    assert View(s2.rows, s2.txs[t]) == Apply(rows, op).value;
    CommitEndsIdle(s2, t);
    Then(keyOf, s0, s2, Commit(t), Idle(Apply(rows, op).value, nextId + 1, log + [op]));
  }

  lemma RowOpRunsAlone(keyOf: Keys, rows: Rows, nextId: int, log: seq<Op>, op: Op, t: Tid)
    requires op.OnRow() && Runnable(keyOf, rows, nextId, op)
    ensures Can(Checked(keyOf), Idle(rows, nextId, log), Idle(Apply(rows, op).value, nextId, log + [op]))
  {
    var s0 := Idle(rows, nextId, log);
    CanStay(Checked(keyOf), s0);
    var s1 := Step(s0, Begin(t, op)).value;
    Then(keyOf, s0, s0, Begin(t, op), s1);
    var s2 := Step(s1, LockRow(t)).value;
    Then(keyOf, s0, s1, LockRow(t), s2);
    RowStatementRuns(s2, t);
    var s3 := Step(s2, WriteRow(t)).value;
    Then(keyOf, s0, s2, WriteRow(t), s3);
    WriteRowMatches(s2, t, s3);
    WriteRowFrame(s2, t, s3);
    WriteRowKeepsOp(s2, t, s3);
    CommitIsAtomic(s3, t);
    CommitEndsIdle(s3, t);
    Then(keyOf, s0, s3, Commit(t), Idle(Apply(rows, op).value, nextId, log + [op]));
  }

  /** The row statement is not refused when the reference table takes the operation. */
  lemma RowStatementRuns(s: State, t: Tid)
    requires t in s.txs && s.txs[t].phase.Locked? && s.txs[t].op.OnRow() && Writable(s)
    requires s.txs[t].op.id in s.rows && s.txs[t].phase.doc == s.rows[s.txs[t].op.id]
    requires RowEffect(s.txs[t].op, s.txs[t].phase.doc).Some?
    ensures StepWriteRow(s, t).Some?
  {
  }

  /** The table is cleared and the first `k` rows of the file are in. */
  function Loaded(before: State, op: Op, t: Tid, k: nat): State
    requires op.ImportOp? && k <= |op.file|
  {
    before.(rowLocks := map id | id in before.rows :: t, replacing := Some(t),
            txs := map[t := Tx(op, Loading(k), before.rows.Keys, Load(op.file[..k], op.now))])
  }

  lemma ImportClears(keyOf: Keys, s0: State, op: Op, t: Tid)
    requires op.ImportOp? && s0 == Idle(s0.rows, s0.nextId, s0.log)
    ensures Can(Checked(keyOf), s0, Loaded(s0, op, t, 0))
  {
    CanStay(Checked(keyOf), s0);
    var s1 := Step(s0, Begin(t, op)).value;
    Then(keyOf, s0, s0, Begin(t, op), s1);
    var s2 := Step(s1, LockTable(t)).value;
    Then(keyOf, s0, s1, LockTable(t), s2);
    var s3 := Step(s2, DeleteAll(t)).value;
    Then(keyOf, s0, s2, DeleteAll(t), s3);
    assert op.file[..0] == [];
    assert s3.rowLocks == Loaded(s0, op, t, 0).rowLocks;
    assert s3 == Loaded(s0, op, t, 0);
  }

  lemma SliceIsFree(file: seq<FileDoc>, now: Time, k: nat, batch: seq<FileDoc>)
    requires DistinctIds(file) && k + |batch| <= |file| && batch == file[k..k + |batch|]
    ensures forall i | 0 <= i < |batch| :: batch[i].id !in Load(file[..k], now)
  {
    var a := file[..k];
    LoadIsFile(a, now);
    assert forall i, j | 0 <= i < |batch| && 0 <= j < |a| :: a[j].id != batch[i].id;
  }

  lemma SliceLoads(file: seq<FileDoc>, now: Time, k: nat, n: nat)
    requires k + n <= |file|
    ensures Load(file[..k + n], now) == Load(file[..k], now) + Load(file[k..k + n], now)
  {
    SlicesJoin(file, k, k + n);
    LoadAppend(file[..k], file[k..k + n], now);
  }

  lemma NewIdsAreFree(s: State, t: Tid, batch: seq<FileDoc>)
    requires s.txs.Keys == {t} && s.txs[t].dels == s.rows.Keys
    requires forall i | 0 <= i < |batch| :: batch[i].id !in s.txs[t].puts
    ensures BatchFree(s, t, batch)
  {
    assert View(s.rows, s.txs[t]) == s.txs[t].puts;
  }

  lemma BatchIsFree(s0: State, op: Op, t: Tid, k: nat, n: nat)
    requires op.ImportOp? && RowsAcceptable(op.fields, op.file) && k + n <= |op.file|
    ensures BatchFree(Loaded(s0, op, t, k), t, op.file[k..k + n])
  {
    SliceIsFree(op.file, op.now, k, op.file[k..k + n]);
    NewIdsAreFree(Loaded(s0, op, t, k), t, op.file[k..k + n]);
  }

  lemma BatchStep(s: State, op: Op, t: Tid, k: nat, n: nat)
    requires op.ImportOp? && n >= 1 && k + n <= |op.file|
    requires t in s.txs && s.txs[t] == Tx(op, Loading(k), s.rows.Keys, s.txs[t].puts)
    requires RowsAcceptable(op.fields, op.file[k..k + n]) && BatchFree(s, t, op.file[k..k + n])
    ensures Step(s, LoadBatch(t, n))
         == Some(With(s, t, Tx(op, Loading(k + n), s.rows.Keys, s.txs[t].puts + Load(op.file[k..k + n], op.now))))
  {
  }

  /** One more batch goes in, of whatever size. */
  lemma BatchRuns(s0: State, op: Op, t: Tid, k: nat, n: nat)
    requires op.ImportOp? && RowsAcceptable(op.fields, op.file) && n >= 1 && k + n <= |op.file|
    ensures Step(Loaded(s0, op, t, k), LoadBatch(t, n)) == Some(Loaded(s0, op, t, k + n))
  {
    SliceAcceptable(op.fields, op.file, k, n);
    BatchIsFree(s0, op, t, k, n);
    BatchStep(Loaded(s0, op, t, k), op, t, k, n);
    SliceLoads(op.file, op.now, k, n);
    LoadedAgain(s0, op, t, k, n, Load(op.file[..k + n], op.now));
  }

  lemma LoadedAgain(s0: State, op: Op, t: Tid, k: nat, n: nat, puts: Rows)
    requires op.ImportOp? && k + n <= |op.file| && puts == Load(op.file[..k + n], op.now)
    ensures With(Loaded(s0, op, t, k), t, Tx(op, Loading(k + n), s0.rows.Keys, puts)) == Loaded(s0, op, t, k + n)
  {
    assert With(Loaded(s0, op, t, k), t, Tx(op, Loading(k + n), s0.rows.Keys, puts)).txs
        == Loaded(s0, op, t, k + n).txs;
  }

  ghost predicate GoodFile(op: Op) {
    op.ImportOp? && RowsAcceptable(op.fields, op.file)
  }

  ghost predicate CanHaveLoaded(keyOf: Keys, s0: State, op: Op, t: Tid, k: nat) {
    op.ImportOp? && k <= |op.file| && Can(Checked(keyOf), s0, Loaded(s0, op, t, k))
  }

  lemma CanLoad(keyOf: Keys, s0: State, op: Op, t: Tid, k: nat, n: nat)
    requires GoodFile(op) && n >= 1 && k + n <= |op.file| && CanHaveLoaded(keyOf, s0, op, t, k)
    ensures CanHaveLoaded(keyOf, s0, op, t, k + n)
  {
    BatchRuns(s0, op, t, k, n);
    Then(keyOf, s0, Loaded(s0, op, t, k), LoadBatch(t, n), Loaded(s0, op, t, k + n));
  }

  /** With any batch size, batch after batch, until the file is in. */
  lemma {:induction false} BatchesRun(keyOf: Keys, s0: State, op: Op, t: Tid, k: nat, batchRows: nat)
    requires GoodFile(op) && batchRows >= 1 && CanHaveLoaded(keyOf, s0, op, t, k)
    ensures CanHaveLoaded(keyOf, s0, op, t, |op.file|)
    decreases |op.file| - k
  {
    var left := |op.file| - k;
    if left > 0 {
      var n := if left < batchRows then left else batchRows;
      CanLoad(keyOf, s0, op, t, k, n);
      BatchesRun(keyOf, s0, op, t, k + n, batchRows);
    }
  }

  lemma SequenceFollows(op: Op)
    requires op.ImportOp? && ImportAccepts(op.fields, op.file)
    ensures IsMaxId(Load(op.file, op.now), MaxFileId(op.file)) && MaxFileId(op.file) < MAX_INT64
  {
    assert forall i | 0 <= i < |op.file| :: FileRowOk(op.fields, op.file[i]);
    MaxFileIdIsMax(op.file, op.now);
  }

  lemma CommitFinishes(keyOf: Keys, s0: State, s: State, t: Tid)
    requires Can(Checked(keyOf), s0, s) && s.txs.Keys == {t} && Committable(s.txs[t])
    requires s.exclusive <= {t} && s.replacing in {None, Some(t)} && forall id | id in s.rowLocks :: s.rowLocks[id] == t
    ensures Can(Checked(keyOf), s0, Idle(View(s.rows, s.txs[t]), s.nextId, s.log + [s.txs[t].op]))
  {
    CommitEndsIdle(s, t);
    Then(keyOf, s0, s, Commit(t), Idle(View(s.rows, s.txs[t]), s.nextId, s.log + [s.txs[t].op]));
  }

  /** The sequence is set; only the commit is left. */
  function Sequenced(before: State, op: Op, t: Tid, max: int): State
    requires op.ImportOp?
  {
    before.(rowLocks := map id | id in before.rows :: t, replacing := Some(t), nextId := max + 1,
            txs := map[t := Tx(op, SeqSet, before.rows.Keys, Load(op.file, op.now))])
  }

  lemma SequenceStep(before: State, op: Op, t: Tid, max: int)
    requires op.ImportOp? && IsMaxId(Load(op.file, op.now), max) && max < MAX_INT64
    ensures Step(Loaded(before, op, t, |op.file|), SetSeq(t, max)) == Some(Sequenced(before, op, t, max))
  {
    var s := Loaded(before, op, t, |op.file|);
    assert op.file[..|op.file|] == op.file;
    assert View(s.rows, s.txs[t]) == s.txs[t].puts;
    assert Step(s, SetSeq(t, max)).value.txs == Sequenced(before, op, t, max).txs;
  }

  lemma SequencedFinishes(keyOf: Keys, s0: State, op: Op, t: Tid, max: int)
    requires op.ImportOp? && s0 == Idle(s0.rows, s0.nextId, s0.log)
    requires Can(Checked(keyOf), s0, Sequenced(s0, op, t, max))
    ensures Can(Checked(keyOf), s0, Idle(Load(op.file, op.now), max + 1, s0.log + [op]))
  {
    var s := Sequenced(s0, op, t, max);
    assert View(s.rows, s.txs[t]) == Load(op.file, op.now);
    CommitFinishes(keyOf, s0, s, t);
  }

  /** An acceptable file goes through, whatever the batch size. */
  lemma ImportRunsAlone(keyOf: Keys, rows: Rows, nextId: int, log: seq<Op>, op: Op, t: Tid, batchRows: nat)
    requires op.ImportOp? && ImportAccepts(op.fields, op.file) && batchRows >= 1
    ensures Can(Checked(keyOf), Idle(rows, nextId, log),
                Idle(Load(op.file, op.now), MaxFileId(op.file) + 1, log + [op]))
  {
    var s0, max := Idle(rows, nextId, log), MaxFileId(op.file);
    ImportClears(keyOf, s0, op, t);
    BatchesRun(keyOf, s0, op, t, 0, batchRows);
    SequenceFollows(op);
    SequenceStep(s0, op, t, max);
    Then(keyOf, s0, Loaded(s0, op, t, |op.file|), SetSeq(t, max), Sequenced(s0, op, t, max));
    SequencedFinishes(keyOf, s0, op, t, max);
  }

  function SeqAfter(nextId: int, log: seq<Op>): int {
    if log == [] then nextId else SeqAfterOp(SeqAfter(nextId, log[..|log| - 1]), log[|log| - 1])
  }

  /** Every insert carries the id that the sequence had reached. */
  predicate Drawn(nextId: int, log: seq<Op>) {
    forall i | 0 <= i < |log| && log[i].InsertOp? :: log[i].id == SeqAfter(nextId, log[..i]) <= MAX_INT64
  }

  /** Every operation of the history passes the duplicate check on the rows it finds. */
  ghost predicate DupFree(keyOf: Keys, rows0: Rows, log: seq<Op>) {
    forall i | 0 <= i < |log| :: Replay(rows0, log[..i]).Some? ==>
      PassesDupCheck(Replay(rows0, log[..i]).value, keyOf(log[i]), log[i])
  }

  /** A serial history that starts from `rows0` and the sequence `nextId`. */
  ghost predicate Serial(keyOf: Keys, rows0: Rows, nextId: int, log: seq<Op>) {
    RowIdsOk(rows0) && Replay(rows0, log).Some? && DupFree(keyOf, rows0, log) && Drawn(nextId, log)
  }

  /** Where a serial history ends: nothing running, its rows, its sequence, its log. */
  ghost function EndOf(rows0: Rows, nextId: int, log: seq<Op>): State
    requires Replay(rows0, log).Some?
  {
    Idle(Replay(rows0, log).value, SeqAfter(nextId, log), log)
  }

  lemma SerialFront(keyOf: Keys, rows0: Rows, nextId: int, log: seq<Op>)
    requires Serial(keyOf, rows0, nextId, log) && log != []
    ensures var front := log[..|log| - 1];
            && Serial(keyOf, rows0, nextId, front)
            && Runnable(keyOf, Replay(rows0, front).value, SeqAfter(nextId, front), log[|log| - 1])
  {
    var front := log[..|log| - 1];
    assert forall i | 0 <= i < |front| :: front[..i] == log[..i];
    ReplayKeepsRowIds(rows0, front);
  }

  /** Whatever serial history the reference table takes behind the duplicate checks, the checked steps can
      produce: no guard, lock or statement of theirs refuses more. */
  lemma {:induction false} SerialHistoryIsARun(keyOf: Keys, rows0: Rows, nextId: int, log: seq<Op>)
    requires Serial(keyOf, rows0, nextId, log)
    ensures Can(Checked(keyOf), Init(rows0, nextId), EndOf(rows0, nextId, log))
  {
    if log == [] {
      CanStay(Checked(keyOf), Init(rows0, nextId));
    } else {
      var front := log[..|log| - 1];
      SerialFront(keyOf, rows0, nextId, log);
      SerialHistoryIsARun(keyOf, rows0, nextId, front);
      LastRuns(keyOf, rows0, nextId, front, log[|log| - 1], log);
      CanChain(Checked(keyOf), Init(rows0, nextId), EndOf(rows0, nextId, front), EndOf(rows0, nextId, log));
    }
  }

  lemma LastRuns(keyOf: Keys, rows0: Rows, nextId: int, front: seq<Op>, op: Op, log: seq<Op>)
    requires Replay(rows0, front).Some? && Replay(rows0, log).Some? && log == front + [op]
    requires Runnable(keyOf, Replay(rows0, front).value, SeqAfter(nextId, front), op)
    ensures Can(Checked(keyOf), EndOf(rows0, nextId, front), EndOf(rows0, nextId, log))
  {
    assert log[..|log| - 1] == front;
    OpRunsAlone(keyOf, Replay(rows0, front).value, SeqAfter(nextId, front), front, op);
  }

  lemma OpRunsAlone(keyOf: Keys, rows: Rows, nextId: int, log: seq<Op>, op: Op)
    requires Runnable(keyOf, rows, nextId, op)
    ensures Can(Checked(keyOf), Idle(rows, nextId, log),
                Idle(Apply(rows, op).value, SeqAfterOp(nextId, op), log + [op]))
  {
    if op.InsertOp? {
      InsertRunsAlone(keyOf, rows, nextId, log, op, 0);
    } else if op.ImportOp? {
      ImportRunsAlone(keyOf, rows, nextId, log, op, 0, 1);
    } else {
      RowOpRunsAlone(keyOf, rows, nextId, log, op, 0);
    }
  }

  /** The history in which an id is drawn again after an import, and a client that read the dropped row
      overwrites the new one, is one that the steps produce. */
  lemma IdReuseIsARun()
    ensures var keyless: Keys := (op: Op) => [];
            var log := [REUSE_IMPORT] + [REUSE_INSERT] + [REUSE_UPDATE];
            exists s :: Can(Checked(keyless), Init(REUSE_ROWS, 3), s) && s.log == log
                        && 2 in s.rows && s.rows[2].data == QtyRow(3)
  {
    var keyless: Keys := (op: Op) => [];
    var log := [REUSE_IMPORT] + [REUSE_INSERT] + [REUSE_UPDATE];
    CrossImportReusesId();
    assert log[..1] == [REUSE_IMPORT] && log[..1][..0] == [];
    assert MaxFileId(REUSE_IMPORT.file) == 1 by { assert REUSE_IMPORT.file[..0] == []; }
    assert SeqAfter(3, log[..1]) == 2;
    SerialHistoryIsARun(keyless, REUSE_ROWS, 3, log);
  }

  // ---------- the documented limit of the duplicate check ----------

  /** Two inserts of the same data overlap: both have passed the check and are pending. */
  function Overlapping(fields: seq<Field>, data: Data, who: string, now: Time): State {
    var op1, op2 := InsertOp(fields, 1, data, who, now), InsertOp(fields, 2, data, who, now);
    State(map[], 3, map[], {0, 1}, None,
          map[0 := Tx(op1, Inserted(1), {}, map[1 := NewRow(1, data, who, now)]),
              1 := Tx(op2, Inserted(2), {}, map[2 := NewRow(2, data, who, now)])], [])
  }

  /** One more insert is pending. */
  function Joining(s: State, t: Tid, op: Op): State
    requires op.InsertOp?
  {
    var id := s.nextId;
    Wrote(s, t, Tx(WithId(op, id), Inserted(id), {}, map[id := NewRow(id, op.data, op.who, op.now)])).(nextId := id + 1)
  }

  lemma InsertJoins(keyOf: Keys, s0: State, s: State, t: Tid, op: Op)
    requires Can(Checked(keyOf), s0, s) && s.rows == map[] && t !in s.txs && Writable(s)
    requires 0 < s.nextId <= MAX_INT64 && forall u | u in s.txs :: s.nextId !in s.txs[u].puts
    requires op.InsertOp? && Conforms(op.fields, op.data) && |op.who| <= OPERATOR_WIDTH
    ensures Can(Checked(keyOf), s0, Joining(s, t, op))
  {
    var s1 := Step(s, Begin(t, op)).value;
    Then(keyOf, s0, s, Begin(t, op), s1);
    var s2 := Step(s1, InsertRow(t)).value;
    Then(keyOf, s0, s1, InsertRow(t), s2);
    assert s2.txs == Joining(s, t, op).txs;
  }

  lemma InsertsOverlap(keyOf: Keys, fields: seq<Field>, data: Data, who: string, now: Time)
    requires Conforms(fields, data) && |who| <= OPERATOR_WIDTH
    ensures Can(Checked(keyOf), Init(map[], 1), Overlapping(fields, data, who, now))
  {
    var s0, op := Init(map[], 1), InsertOp(fields, 0, data, who, now);
    CanStay(Checked(keyOf), s0);
    InsertJoins(keyOf, s0, s0, 0, op);
    InsertJoins(keyOf, s0, Joining(s0, 0, op), 1, op);
    var s := Joining(Joining(s0, 0, op), 1, op);
    assert s.txs == Overlapping(fields, data, who, now).txs && s.exclusive == {0, 1};
  }

  lemma BothCommit(s: State, fields: seq<Field>, data: Data, who: string, now: Time)
    requires s == Overlapping(fields, data, who, now)
    ensures Step(s, Commit(0)).Some? && Step(Step(s, Commit(0)).value, Commit(1)).Some?
    ensures Step(Step(s, Commit(0)).value, Commit(1)).value.rows
            == map[1 := NewRow(1, data, who, now), 2 := NewRow(2, data, who, now)]
  {
  }

  /** The check is a SELECT before the write: two overlapping inserts of any row with a complete key can
      both pass it and leave two active rows with that key. */
  lemma OverlappingInsertsClash(keyOf: Keys, unique: seq<string>, fields: seq<Field>, data: Data,
                                who: string, now: Time)
    requires Conforms(fields, data) && |who| <= OPERATOR_WIDTH && unique != [] && KeyComplete(unique, data)
    ensures exists s :: Can(Checked(keyOf), Init(map[], 1), s) && !KeysUnique(s.rows, unique)
  {
    var s0, s := Init(map[], 1), Overlapping(fields, data, who, now);
    InsertsOverlap(keyOf, fields, data, who, now);
    BothCommit(s, fields, data, who, now);
    var s1 := Step(s, Commit(0)).value;
    Then(keyOf, s0, s, Commit(0), s1);
    var s2 := Step(s1, Commit(1)).value;
    Then(keyOf, s0, s1, Commit(1), s2);
    assert Clash(unique, s2.rows[1], s2.rows[2]);
  }
}
