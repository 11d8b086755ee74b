/** Every interleaving refines the reference table. */
module EngineProof {
  import opened Types
  import opened Validation
  import opened Atomic
  import opened Engine
  import opened Runs
  import Sql

  predicate OwnsRow(s: State, t: Tid, id: int) {
    id in s.rows && id in s.rowLocks && s.rowLocks[id] == t
  }

  ghost predicate LoadingOk(s: State, t: Tid, tx: Tx, k: nat) {
    && tx.op.ImportOp? && s.replacing == Some(t)
    && tx.dels == s.rows.Keys && (forall id | id in s.rows :: OwnsRow(s, t, id))
    && k <= |tx.op.file|
    && RowsAcceptable(tx.op.fields, tx.op.file[..k])
    && tx.puts == Load(tx.op.file[..k], tx.op.now)
  }

  /** What a transaction's phase says about the rest of the state. */
  ghost predicate TxOk(s: State, t: Tid, tx: Tx) {
    match tx.phase
    case Started =>
      && tx.dels == {} && tx.puts == map[]
      && (tx.op.InsertOp? ==> Conforms(tx.op.fields, tx.op.data))
      && (tx.op.UpdateOp? ==> tx.op.version >= 1)
    case Locked(doc) =>
      && tx.dels == {} && tx.puts == map[] && tx.op.OnRow()
      && (tx.op.UpdateOp? ==> tx.op.version >= 1)
      && OwnsRow(s, t, tx.op.id) && s.rows[tx.op.id] == doc
    case Inserted(id) =>
      && tx.dels == {} && tx.op.InsertOp? && tx.op.id == id && t in s.exclusive
      && 0 < id && id !in s.rows
      && Conforms(tx.op.fields, tx.op.data) && |tx.op.who| <= OPERATOR_WIDTH
      && tx.puts == map[id := NewRow(id, tx.op.data, tx.op.who, tx.op.now)]
    case Done(doc) =>
      && tx.dels == {} && tx.op.OnRow()
      && OwnsRow(s, t, tx.op.id) && s.rows[tx.op.id] == doc
      && RowEffect(tx.op, doc).Some?
      && (|| (tx.puts == map[] && RowEffect(tx.op, doc).value == doc)
          || (tx.puts == map[tx.op.id := RowEffect(tx.op, doc).value] && t in s.exclusive))
    case Holding =>
      tx.dels == {} && tx.puts == map[] && tx.op.ImportOp? && s.replacing == Some(t)
    case Loading(k) => LoadingOk(s, t, tx, k)
    case SeqSet =>
      && tx.op.ImportOp? && LoadingOk(s, t, tx, |tx.op.file|)
      && ImportAccepts(tx.op.fields, tx.op.file)
      && IsMaxId(tx.puts, s.nextId - 1)
  }

  ghost predicate TxsOk(s: State) {
    forall t | t in s.txs :: TxOk(s, t, s.txs[t])
  }

  /** Ids handed out by the sequence and not yet committed are pairwise different. */
  predicate FreshIdsDistinct(s: State) {
    forall t, u | t in s.txs && u in s.txs && t != u && s.txs[t].phase.Inserted? && s.txs[u].phase.Inserted? ::
      s.txs[t].phase.newId != s.txs[u].phase.newId
  }

  ghost predicate Inv(rows0: Rows, s: State) {
    && Replay(rows0, s.log) == Some(s.rows)
    && RowIdsOk(s.rows)
    && s.exclusive <= s.txs.Keys
    && (s.replacing.Some? ==> s.exclusive == {})
    && TxsOk(s)
    && FreshIdsDistinct(s)
  }

  /** A step that leaves the committed rows alone and takes nothing from `u` keeps `u`'s promises. */
  lemma Frame(s: State, s': State, u: Tid, ux: Tx)
    requires TxOk(s, u, ux) && s'.rows == s.rows
    requires forall id | OwnsRow(s, u, id) :: OwnsRow(s', u, id)
    requires u in s.exclusive ==> u in s'.exclusive
    requires s.replacing == Some(u) ==> s'.replacing == Some(u)
    requires ux.phase == SeqSet ==> s'.nextId == s.nextId
    ensures TxOk(s', u, ux)
  {
  }

  lemma OthersKeep(s: State, s': State, t: Tid)
    requires TxsOk(s) && s'.rows == s.rows && s'.txs.Keys - {t} <= s.txs.Keys
    requires forall u | u in s'.txs && u != t :: s'.txs[u] == s.txs[u]
    requires forall u, id | u != t && OwnsRow(s, u, id) :: OwnsRow(s', u, id)
    requires forall u | u != t :: u in s.exclusive ==> u in s'.exclusive
    requires s.replacing.Some? && s.replacing.value != t ==> s'.replacing == s.replacing
    requires s'.nextId == s.nextId || s.replacing in {None, Some(t)}
    requires t in s'.txs ==> TxOk(s', t, s'.txs[t])
    ensures TxsOk(s')
  {
    forall u | u in s'.txs && u != t ensures TxOk(s', u, s'.txs[u]) {
      assert TxOk(s, u, s.txs[u]);
      Frame(s, s', u, s.txs[u]);
    }
  }

  lemma LockRowKeepsInv(rows0: Rows, s: State, t: Tid, s': State)
    requires Inv(rows0, s) && t in s.txs && StepLockRow(s, t) == Some(s')
    ensures Inv(rows0, s')
  {
    assert TxOk(s, t, s.txs[t]);
    OthersKeep(s, s', t);
  }

  /** The UPDATE statement, which reads the row afresh, writes what the operation makes of the row
      that was locked: the row lock has kept the two the same. */
  lemma WriteRowMatches(s: State, t: Tid, s': State)
    requires t in s.txs && TxOk(s, t, s.txs[t]) && RowIdsOk(s.rows) && StepWriteRow(s, t) == Some(s')
    ensures TxOk(s', t, s'.txs[t])
  {
    var tx := s.txs[t];
    match tx.op {
      case UpdateOp(fields, id, version, patch, who, now) =>
        var w := Sql.UpdateDocData(s.rows, id, version, tx.phase.doc.data + patch, who, now);
        assert w == Sql.Row(RowEffect(tx.op, tx.phase.doc).value);
      case DeleteOp(id, who, now) =>
      case RestoreOp(id, who, now) =>
    }
  }

  /** What a row statement leaves alone. */
  lemma WriteRowFrame(s: State, t: Tid, s': State)
    requires t in s.txs && StepWriteRow(s, t) == Some(s')
    ensures s'.rows == s.rows && s'.log == s.log && s'.nextId == s.nextId
    ensures s'.rowLocks == s.rowLocks && s'.replacing == s.replacing
    ensures t in s'.txs && s'.txs == s.txs[t := s'.txs[t]] && s'.txs[t].phase.Done?
    ensures s'.exclusive == s.exclusive || (s'.exclusive == s.exclusive + {t} && s.replacing.None?)
  {
  }

  lemma WriteRowKeepsInv(rows0: Rows, s: State, t: Tid, s': State)
    requires Inv(rows0, s) && t in s.txs && StepWriteRow(s, t) == Some(s')
    ensures Inv(rows0, s')
  {
    assert TxOk(s, t, s.txs[t]);
    WriteRowMatches(s, t, s');
    WriteRowFrame(s, t, s');
    OthersKeep(s, s', t);
  }

  lemma InsertStepKeepsInv(rows0: Rows, s: State, t: Tid, s': State)
    requires Inv(rows0, s) && t in s.txs && StepInsertRow(s, t) == Some(s')
    ensures Inv(rows0, s')
  {
    var tx := s.txs[t];
    assert TxOk(s, t, tx);
    assert FreeId(s, t, s.nextId);
    OthersKeep(s, s', t);
    forall u | u in s.txs && s.txs[u].phase.Inserted? ensures s.txs[u].phase.newId != s.nextId {
      assert TxOk(s, u, s.txs[u]);
      assert s.nextId !in s.txs[u].puts;
    }
  }

  lemma LockTableKeepsInv(rows0: Rows, s: State, t: Tid, s': State)
    requires Inv(rows0, s) && t in s.txs && StepLockTable(s, t) == Some(s')
    ensures Inv(rows0, s')
  {
    assert TxOk(s, t, s.txs[t]);
    OthersKeep(s, s', t);
  }

  lemma DeleteAllKeepsInv(rows0: Rows, s: State, t: Tid, s': State)
    requires Inv(rows0, s) && t in s.txs && StepDeleteAll(s, t) == Some(s')
    ensures Inv(rows0, s')
  {
    assert TxOk(s, t, s.txs[t]);
    assert s'.txs[t].op.file[..0] == [];
    OthersKeep(s, s', t);
  }

  lemma AcceptableAppend(fields: seq<Field>, a: seq<FileDoc>, b: seq<FileDoc>)
    requires RowsAcceptable(fields, a) && RowsAcceptable(fields, b)
    requires forall i, j | 0 <= i < |a| && 0 <= j < |b| :: a[i].id != b[j].id
    ensures RowsAcceptable(fields, a + b)
  {
    var c := a + b;
    assert forall i | 0 <= i < |c| :: c[i] == if i < |a| then a[i] else b[i - |a|];
  }

  /** A batch whose ids are free extends an acceptable prefix to an acceptable prefix. */
  lemma PrefixGrows(fields: seq<Field>, a: seq<FileDoc>, b: seq<FileDoc>, now: Time)
    requires RowsAcceptable(fields, a) && RowsAcceptable(fields, b)
    requires forall j | 0 <= j < |b| :: b[j].id !in Load(a, now)
    ensures RowsAcceptable(fields, a + b)
    ensures Load(a + b, now) == Load(a, now) + Load(b, now)
  {
    LoadAppend(a, b, now);
    LoadIsFile(a, now);
    AcceptableAppend(fields, a, b);
  }

  lemma FreeIdsNotLoaded(s: State, t: Tid, batch: seq<FileDoc>)
    requires t in s.txs && BatchFree(s, t, batch)
    ensures forall j | 0 <= j < |batch| :: batch[j].id !in s.txs[t].puts
  {
    forall j | 0 <= j < |batch| ensures batch[j].id !in s.txs[t].puts {
      assert FreeId(s, t, batch[j].id);
    }
  }

  lemma SlicesJoin<T>(s: seq<T>, i: nat, j: nat)
    requires i <= j <= |s|
    ensures s[..j] == s[..i] + s[i..j]
  {
  }

  lemma NextPrefix(s: State, t: Tid, op: Op, k: nat, n: nat)
    requires t in s.txs && op.ImportOp? && k + n <= |op.file|
    requires RowsAcceptable(op.fields, op.file[..k]) && s.txs[t].puts == Load(op.file[..k], op.now)
    requires RowsAcceptable(op.fields, op.file[k..k + n]) && BatchFree(s, t, op.file[k..k + n])
    ensures RowsAcceptable(op.fields, op.file[..k + n])
    ensures Load(op.file[..k + n], op.now) == s.txs[t].puts + Load(op.file[k..k + n], op.now)
  {
    FreeIdsNotLoaded(s, t, op.file[k..k + n]);
    PrefixGrows(op.fields, op.file[..k], op.file[k..k + n], op.now);
    SlicesJoin(op.file, k, k + n);
  }

  /** What one batch does to the state. */
  lemma BatchEffect(s: State, t: Tid, n: nat, s': State)
    requires t in s.txs && StepLoadBatch(s, t, n) == Some(s')
    ensures s.txs[t].op.ImportOp? && s.txs[t].phase.Loading? && s.txs[t].phase.loaded + n <= |s.txs[t].op.file|
    ensures var tx, k := s.txs[t], s.txs[t].phase.loaded;
            var batch := tx.op.file[k..k + n];
            && RowsAcceptable(tx.op.fields, batch) && BatchFree(s, t, batch)
            && s' == With(s, t, Tx(tx.op, Loading(k + n), tx.dels, tx.puts + Load(batch, tx.op.now)))
  {
  }

  lemma BatchLoads(s: State, t: Tid, n: nat, s': State)
    requires t in s.txs && TxOk(s, t, s.txs[t]) && StepLoadBatch(s, t, n) == Some(s')
    ensures TxOk(s', t, s'.txs[t])
  {
    var tx, k := s.txs[t], s.txs[t].phase.loaded;
    BatchEffect(s, t, n, s');
    NextPrefix(s, t, tx.op, k, n);
    LoadingMoves(s, t, k, n, tx.puts + Load(tx.op.file[k..k + n], tx.op.now));
  }

  lemma LoadingMoves(s: State, t: Tid, k: nat, n: nat, puts: Rows)
    requires t in s.txs && LoadingOk(s, t, s.txs[t], k) && k + n <= |s.txs[t].op.file|
    requires RowsAcceptable(s.txs[t].op.fields, s.txs[t].op.file[..k + n])
    requires puts == Load(s.txs[t].op.file[..k + n], s.txs[t].op.now)
    ensures var tx := Tx(s.txs[t].op, Loading(k + n), s.txs[t].dels, puts); LoadingOk(With(s, t, tx), t, tx, k + n)
  {
    var s' := With(s, t, Tx(s.txs[t].op, Loading(k + n), s.txs[t].dels, puts));
    assert forall id | OwnsRow(s, t, id) :: OwnsRow(s', t, id);
  }

  lemma LoadBatchKeepsInv(rows0: Rows, s: State, t: Tid, n: nat, s': State)
    requires Inv(rows0, s) && t in s.txs && StepLoadBatch(s, t, n) == Some(s')
    ensures Inv(rows0, s')
  {
    assert TxOk(s, t, s.txs[t]);
    BatchLoads(s, t, n, s');
    OthersKeep(s, s', t);
  }

  lemma SetSeqKeepsInv(rows0: Rows, s: State, t: Tid, max: int, s': State)
    requires Inv(rows0, s) && t in s.txs && StepSetSeq(s, t, max) == Some(s')
    ensures Inv(rows0, s')
  {
    var tx := s.txs[t];
    assert TxOk(s, t, tx);
    assert View(s.rows, tx) == tx.puts;
    MaxBoundsFile(tx.op, tx.puts, max);
    assert LoadingOk(s', t, s'.txs[t], |tx.op.file|);
    OthersKeep(s, s', t);
  }

  lemma MaxBoundsFile(op: Op, puts: Rows, max: int)
    requires op.ImportOp? && RowsAcceptable(op.fields, op.file[..|op.file|])
    requires puts == Load(op.file[..|op.file|], op.now) && IsMaxId(puts, max) && max < MAX_INT64
    ensures ImportAccepts(op.fields, op.file)
  {
    assert op.file[..|op.file|] == op.file;
    LoadIsFile(op.file, op.now);
  }

  /** The heart of the refinement: what a transaction makes visible is what its operation does,
      run alone on the rows committed at that moment. */
  lemma CommitIsAtomic(s: State, t: Tid)
    requires t in s.txs && TxOk(s, t, s.txs[t]) && Committable(s.txs[t])
    ensures Apply(s.rows, s.txs[t].op) == Some(View(s.rows, s.txs[t]))
  {
    var tx := s.txs[t];
    match tx.phase
    case Done(doc) =>
      assert View(s.rows, tx) == s.rows[tx.op.id := RowEffect(tx.op, doc).value];
    case Inserted(id) =>
      assert View(s.rows, tx) == s.rows[id := NewRow(id, tx.op.data, tx.op.who, tx.op.now)];
    case SeqSet =>
      assert tx.op.file[..|tx.op.file|] == tx.op.file;
      assert View(s.rows, tx) == tx.puts;
  }

  /** While a transaction with pending writes commits, no other one loses what its phase promises. */
  lemma CommitPreservesOther(s: State, t: Tid, s': State, u: Tid)
    requires TxsOk(s) && FreshIdsDistinct(s) && RowIdsOk(s.rows)
    requires s.replacing.Some? ==> s.exclusive == {}
    requires t in s.txs && StepCommit(s, t) == Some(s') && u in s.txs && u != t
    ensures TxOk(s', u, s'.txs[u])
  {
    assert TxOk(s, t, s.txs[t]) && TxOk(s, u, s.txs[u]);
    var ux := s.txs[u];
    if ux.phase.Locked? || ux.phase.Done? {
      LockedRowStays(s, t, s', u);
    } else if ux.phase.Loading? || ux.phase == SeqSet || ux.phase == Holding {
      RowsStayForImport(s, t, s', u);
    }
  }

  /** A locked row is not touched by another transaction's commit. */
  lemma LockedRowStays(s: State, t: Tid, s': State, u: Tid)
    requires t in s.txs && u in s.txs && u != t && TxOk(s, t, s.txs[t]) && TxOk(s, u, s.txs[u])
    requires StepCommit(s, t) == Some(s') && (s.txs[u].phase.Locked? || s.txs[u].phase.Done?)
    ensures s.txs[u].op.OnRow() && OwnsRow(s', u, s.txs[u].op.id)
    ensures s'.rows[s.txs[u].op.id] == s.rows[s.txs[u].op.id]
    ensures u in s.exclusive ==> u in s'.exclusive
  {
    var id := s.txs[u].op.id;
    assert s.rowLocks[id] == u;
    assert s.txs[t].phase == SeqSet ==> OwnsRow(s, t, id);
  }

  /** Under an import's lock no commit changes the rows. */
  lemma RowsStayForImport(s: State, t: Tid, s': State, u: Tid)
    requires t in s.txs && u in s.txs && u != t && TxOk(s, t, s.txs[t]) && s.replacing == Some(u)
    requires s.exclusive == {} && StepCommit(s, t) == Some(s')
    ensures s'.rows == s.rows && s'.nextId == s.nextId && s'.replacing == Some(u)
    ensures forall id | OwnsRow(s, u, id) :: OwnsRow(s', u, id)
  {
    assert t !in s.exclusive;
    assert View(s.rows, s.txs[t]) == s.rows;
  }

  lemma CommitKeepsInv(rows0: Rows, s: State, t: Tid, s': State)
    requires Inv(rows0, s) && t in s.txs && StepCommit(s, t) == Some(s')
    ensures Inv(rows0, s')
  {
    CommitIsAtomic(s, t);
    ReplayStep(rows0, s.log, s.txs[t].op);
    forall u | u in s'.txs ensures TxOk(s', u, s'.txs[u]) {
      CommitPreservesOther(s, t, s', u);
    }
    assert RowIdsOk(s'.rows) by {
      assert TxOk(s, t, s.txs[t]);
      if s.txs[t].phase == SeqSet { LoadIds(s.txs[t].op.file, s.txs[t].op.now); }
    }
  }

  lemma AbortKeepsInv(rows0: Rows, s: State, t: Tid)
    requires Inv(rows0, s) && t in s.txs
    ensures Inv(rows0, Release(s, t))
  {
    OthersKeep(s, Release(s, t), t);
  }

  lemma BurnIdKeepsInv(rows0: Rows, s: State)
    requires Inv(rows0, s) && Writable(s)
    ensures Inv(rows0, s.(nextId := s.nextId + 1))
  {
    forall u | u in s.txs ensures TxOk(s.(nextId := s.nextId + 1), u, s.txs[u]) {
      assert TxOk(s, u, s.txs[u]);
      Frame(s, s.(nextId := s.nextId + 1), u, s.txs[u]);
    }
  }

  lemma StepKeepsInv(rows0: Rows, s: State, e: Event, s': State)
    requires Inv(rows0, s) && Step(s, e) == Some(s')
    ensures Inv(rows0, s')
  {
    match e
    case LockRow(t) => LockRowKeepsInv(rows0, s, t, s');
    case WriteRow(t) => WriteRowKeepsInv(rows0, s, t, s');
    case InsertRow(t) => InsertStepKeepsInv(rows0, s, t, s');
    case LockTable(t) => LockTableKeepsInv(rows0, s, t, s');
    case DeleteAll(t) => DeleteAllKeepsInv(rows0, s, t, s');
    case LoadBatch(t, n) => LoadBatchKeepsInv(rows0, s, t, n, s');
    case SetSeq(t, max) => SetSeqKeepsInv(rows0, s, t, max, s');
    case Commit(t) => CommitKeepsInv(rows0, s, t, s');
    case Abort(t) => AbortKeepsInv(rows0, s, t);
    case Begin(t, op) => OthersKeep(s, s', t);
    case BurnId => BurnIdKeepsInv(rows0, s);
  }

  /** Where operations come from: a transaction's operation is the one it began with, up to the id an
      insert is given, and the log takes operations from transactions. */
  lemma StepOps(s: State, e: Event, s': State)
    requires Step(s, e) == Some(s')
    ensures forall t | t in s'.txs ::
              || (t in s.txs && (s'.txs[t].op == s.txs[t].op
                                 || (s.txs[t].op.InsertOp? && s'.txs[t].op == WithId(s.txs[t].op, s.nextId))))
              || (e.Begin? && e.t == t && e.op == s'.txs[t].op)
    ensures s'.log == s.log || (e.Commit? && e.t in s.txs && s'.log == s.log + [s.txs[e.t].op])
  {
    match e
    case WriteRow(t) => WriteRowFrame(s, t, s'); WriteRowKeepsOp(s, t, s');
    case _ =>
  }

  lemma WriteRowKeepsOp(s: State, t: Tid, s': State)
    requires t in s.txs && StepWriteRow(s, t) == Some(s')
    ensures t in s'.txs && s'.txs[t].op == s.txs[t].op
  {
  }

  lemma {:induction false} RunKeepsInv(rows0: Rows, s: State, run: seq<Event>)
    requires Inv(rows0, s) && Exec(Step, s, run).Some?
    ensures Inv(rows0, Exec(Step, s, run).value)
  {
    if run != [] {
      var n := |run| - 1;
      RunKeepsInv(rows0, s, run[..n]);
      StepKeepsInv(rows0, Exec(Step, s, run[..n]).value, run[n], Exec(Step, s, run).value);
    }
  }

  lemma InitInv(rows0: Rows, nextId: int)
    requires RowIdsOk(rows0)
    ensures Inv(rows0, Init(rows0, nextId))
  {
  }

  /** Serializability in commit order: after any interleaving the committed rows are those of running
      the committed operations one at a time, and none of them is refused there. */
  lemma EveryRunIsSerial(rows0: Rows, nextId: int, run: seq<Event>)
    requires RowIdsOk(rows0) && Exec(Step, Init(rows0, nextId), run).Some?
    ensures var s := Exec(Step, Init(rows0, nextId), run).value; Replay(rows0, s.log) == Some(s.rows)
  {
    InitInv(rows0, nextId);
    RunKeepsInv(rows0, Init(rows0, nextId), run);
  }
}
