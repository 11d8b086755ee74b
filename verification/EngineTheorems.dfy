/** Guarantees of the interleaved table, for every run: atomic replacement, no lost update,
    and a sequence that stays ahead of the stored ids. */
module EngineTheorems {
  import opened Types
  import opened Validation
  import opened Atomic
  import opened Versions
  import opened Engine
  import opened Runs
  import opened EngineProof

  ghost predicate Reaches(rows0: Rows, nextId: int, run: seq<Event>, s: State) {
    RowIdsOk(rows0) && Exec(Step, Init(rows0, nextId), run) == Some(s)
  }

  lemma ReachableInv(rows0: Rows, nextId: int, run: seq<Event>, s: State)
    requires Reaches(rows0, nextId, run, s)
    ensures Inv(rows0, s)
  {
    InitInv(rows0, nextId);
    RunKeepsInv(rows0, Init(rows0, nextId), run);
  }

  // ---------- atomic replacement ----------

  /** While an import holds its lock no other transaction has anything pending and no other import
      has passed its own lock statement. */
  lemma NothingPendingWhileReplacing(rows0: Rows, nextId: int, run: seq<Event>, s: State, t: Tid, u: Tid)
    requires Reaches(rows0, nextId, run, s) && s.replacing == Some(t) && u in s.txs && u != t
    ensures s.txs[u].puts == map[] && s.txs[u].dels == {}
    ensures s.txs[u].op.ImportOp? ==> s.txs[u].phase == Started
  {
    ReachableInv(rows0, nextId, run, s);
    assert TxOk(s, u, s.txs[u]);
  }

  /** From its lock to its end an import has the table to itself: whatever the others do, the
      committed rows stay as they were, so an import that aborts has changed nothing. */
  lemma {:induction false} RowsFrozenWhileReplacing(rows0: Rows, s: State, t: Tid, run: seq<Event>)
    requires Inv(rows0, s) && s.replacing == Some(t) && t in s.txs
    requires Commit(t) !in run && Abort(t) !in run && Exec(Step, s, run).Some?
    ensures var s' := Exec(Step, s, run).value;
            s'.rows == s.rows && s'.replacing == Some(t) && t in s'.txs && s'.txs[t].op == s.txs[t].op
  {
    if run != [] {
      var n := |run| - 1;
      assert run[n] in run;
      RowsFrozenWhileReplacing(rows0, s, t, run[..n]);
      RunKeepsInv(rows0, s, run[..n]);
      OneStepFrozen(rows0, Exec(Step, s, run[..n]).value, t, run[n], Exec(Step, s, run).value);
    }
  }

  lemma OneStepFrozen(rows0: Rows, s: State, t: Tid, e: Event, s': State)
    requires Inv(rows0, s) && s.replacing == Some(t) && t in s.txs
    requires e != Commit(t) && e != Abort(t) && Step(s, e) == Some(s')
    ensures s'.rows == s.rows && s'.replacing == Some(t) && t in s'.txs && s'.txs[t].op == s.txs[t].op
  {
    if e.Commit? {
      assert TxOk(s, e.t, s.txs[e.t]);
      assert View(s.rows, s.txs[e.t]) == s.rows;
    }
    if e.WriteRow? { WriteRowFrame(s, e.t, s'); }
  }

  lemma SeqSetFacts(s: State, t: Tid)
    requires t in s.txs && TxOk(s, t, s.txs[t]) && s.txs[t].phase == SeqSet
    ensures s.txs[t].op.ImportOp? && ImportAccepts(s.txs[t].op.fields, s.txs[t].op.file)
    ensures s.txs[t].puts == Load(s.txs[t].op.file, s.txs[t].op.now)
    ensures s.txs[t].dels == s.rows.Keys && View(s.rows, s.txs[t]) == s.txs[t].puts
    ensures IsMaxId(s.txs[t].puts, s.nextId - 1) && s.replacing == Some(t)
  {
    assert s.txs[t].op.file[..|s.txs[t].op.file|] == s.txs[t].op.file;
  }

  /** The rows are the file's rows as normalised, each once, and no others. */
  ghost predicate IsTableOf(rows: Rows, file: seq<FileDoc>, now: Time) {
    && |rows| == |file|
    && (forall i | 0 <= i < |file| :: file[i].id in rows && rows[file[i].id] == Normalise(file[i], now))
    && (forall id | id in rows :: exists i :: 0 <= i < |file| && file[i].id == id)
  }

  /** A committing import makes the table exactly its file: it deleted every committed row, every file
      row is there as normalised, nothing else is, and the next id is the largest stored id plus one. */
  lemma ImportCommitIsReplacement(rows0: Rows, nextId: int, run: seq<Event>, s: State, t: Tid, s': State)
    requires Reaches(rows0, nextId, run, s) && t in s.txs && s.txs[t].op.ImportOp?
    requires Step(s, Commit(t)) == Some(s')
    ensures var op := s.txs[t].op;
            && ImportAccepts(op.fields, op.file)
            && s.txs[t].dels == s.rows.Keys
            && IsTableOf(s'.rows, op.file, op.now)
            && IsMaxId(s'.rows, s'.nextId - 1)
            && s'.replacing == None
  {
    ReachableInv(rows0, nextId, run, s);
    assert TxOk(s, t, s.txs[t]);
    CommitReplaces(s, t, s');
    LoadIsFile(s.txs[t].op.file, s.txs[t].op.now);
  }

  lemma CommitReplaces(s: State, t: Tid, s': State)
    requires t in s.txs && s.txs[t].op.ImportOp? && TxOk(s, t, s.txs[t]) && StepCommit(s, t) == Some(s')
    ensures s.txs[t].phase == SeqSet && s.txs[t].dels == s.rows.Keys
    ensures ImportAccepts(s.txs[t].op.fields, s.txs[t].op.file)
    ensures s'.rows == Load(s.txs[t].op.file, s.txs[t].op.now) && s'.replacing == None
    ensures IsMaxId(s'.rows, s'.nextId - 1)
  {
    SeqSetFacts(s, t);
  }

  // ---------- which statements wait for which ----------

  /** While an import holds its table lock, no other transaction can insert, write a row or take the table
      lock, but rows can be read and locked as ever. */
  lemma ImportLockConflicts(s: State, t: Tid, u: Tid)
    requires t in s.txs && s.replacing == Some(u) && u != t
    ensures Step(s, InsertRow(t)).None? && Step(s, LockTable(t)).None?
    ensures Step(s, WriteRow(t)).Some? ==> Step(s, WriteRow(t)).value.txs[t].puts == s.txs[t].puts
    ensures Step(s, LockRow(t)).Some? <==> Step(s.(replacing := None), LockRow(t)).Some?
    ensures Step(s, Commit(t)).Some? <==> Step(s.(replacing := None), Commit(t)).Some?
  {
  }

  /** The import waits for running writes of the table and for another import, not for row locks; clearing
      the table waits for the row locks. */
  lemma ImportWaitsFor(s: State, t: Tid)
    requires t in s.txs && s.txs[t].op.ImportOp?
    ensures s.txs[t].phase == Started ==>
              (Step(s, LockTable(t)).Some? <==> s.exclusive == {} && s.replacing == None)
    ensures s.txs[t].phase == Holding ==>
              (Step(s, DeleteAll(t)).Some? <==> forall id | id in s.rows :: id !in s.rowLocks)
  {
  }

  /** A row lock is granted exactly when the row is there and nobody has it. */
  lemma RowLockGrantedIff(s: State, t: Tid)
    requires t in s.txs && (s.txs[t].op.UpdateOp? || s.txs[t].op.DeleteOp? || s.txs[t].op.RestoreOp?)
    requires s.txs[t].phase == Started
    ensures Step(s, LockRow(t)).Some? <==> s.txs[t].op.id in s.rows && s.txs[t].op.id !in s.rowLocks
    ensures Step(s, LockRow(t)).Some? ==>
              && Step(s, LockRow(t)).value.txs[t].phase == Locked(s.rows[s.txs[t].op.id])
              && Step(s, LockRow(t)).value.rowLocks == s.rowLocks[s.txs[t].op.id := t]
  {
  }

  // ---------- no lost update ----------

  lemma RunIsSerialAt(rows0: Rows, nextId: int, run: seq<Event>, s: State, i: nat, j: nat)
    requires Reaches(rows0, nextId, run, s) && i <= j <= |s.log|
    ensures Replay(rows0, s.log[..i]).Some?
    ensures Replay(Replay(rows0, s.log[..i]).value, s.log[i..j]).Some?
  {
    ReachableInv(rows0, nextId, run, s);
    ReplaySlice(rows0, s.log, i, j);
  }

  lemma ReplaySlice(rows0: Rows, log: seq<Op>, i: nat, j: nat)
    requires i <= j <= |log| && Replay(rows0, log).Some?
    ensures Replay(rows0, log[..i]).Some?
    ensures Replay(Replay(rows0, log[..i]).value, log[i..j]).Some?
  {
    PrefixReplays(rows0, log, j);
    SlicesJoin(log, i, j);
    ReplaySplit(rows0, log[..i], log[i..j]);
  }

  lemma PrefixReplays(rows0: Rows, log: seq<Op>, j: nat)
    requires j <= |log| && Replay(rows0, log).Some?
    ensures Replay(rows0, log[..j]).Some?
  {
    assert log == log[..j] + log[j..];
    ReplaySplit(rows0, log[..j], log[j..]);
  }

  lemma SliceEnds(log: seq<Op>, i: nat, j: nat)
    requires i < j < |log|
    ensures log[i..j + 1] == [log[i]] + log[i + 1..j] + [log[j]]
  {
  }

  /** In every run, of two committed updates of one row with no import between them, the later one
      named the version that the earlier one and the changes in between had produced. */
  lemma RunHasNoLostUpdate(rows0: Rows, nextId: int, run: seq<Event>, s: State, i: nat, j: nat)
    requires Reaches(rows0, nextId, run, s) && i < j < |s.log|
    requires s.log[i].UpdateOp? && s.log[j].UpdateOp? && s.log[i].id == s.log[j].id
    requires NoImport(s.log[i + 1..j])
    ensures s.log[j].version == s.log[i].version + 1 + Changes(s.log[i + 1..j], s.log[i].id, Active)
  {
    RunIsSerialAt(rows0, nextId, run, s, i, j + 1);
    SliceEnds(s.log, i, j);
    AtMostOneUpdatePerVersion(Replay(rows0, s.log[..i]).value, s.log[i], s.log[i + 1..j], s.log[j]);
  }

  // ---------- the id sequence ----------

  /** The sequence is ahead of every id, committed or pending; an import between setval and commit
      answers for its own rows only. */
  predicate SeqAhead(s: State) {
    (forall t | t in s.txs :: s.txs[t].phase != SeqSet) ==>
      && s.nextId > 0
      && AllBelow(s.rows, s.nextId)
      && forall t | t in s.txs && s.txs[t].phase.Inserted? :: s.txs[t].phase.newId < s.nextId
  }

  /** A rollback does not undo setval. An import that aborts after it does harm when its file's ids stop
      short of the stored ones, which are then back in force. */
  predicate HarmfulAbort(s: State, e: Event) {
    && e.Abort? && e.t in s.txs && s.txs[e.t].phase == SeqSet && s.txs[e.t].op.ImportOp?
    && !IdsCovered(s.rows, s.txs[e.t].op.file)
  }

  ghost predicate NoHarmfulAborts(s: State, run: seq<Event>) {
    forall k | 0 <= k < |run| ::
      Exec(Step, s, run[..k]).Some? ==> !HarmfulAbort(Exec(Step, s, run[..k]).value, run[k])
  }

  /** A step that leaves the rows alone, draws no id and ends no import. */
  lemma QuietKeepsSeqAhead(s: State, s': State)
    requires SeqAhead(s) && s'.rows == s.rows && s'.nextId >= s.nextId
    requires forall u | u in s.txs && s.txs[u].phase == SeqSet :: u in s'.txs && s'.txs[u].phase == SeqSet
    requires forall u | u in s'.txs && s'.txs[u].phase.Inserted? :: u in s.txs && s.txs[u].phase == s'.txs[u].phase
    ensures SeqAhead(s')
  {
  }

  /** A step keeps the sequence ahead if and only if it is no harmful abort. */
  lemma StepKeepsSeqAheadIff(rows0: Rows, s: State, e: Event, s': State)
    requires Inv(rows0, s) && SeqAhead(s) && Step(s, e) == Some(s')
    ensures SeqAhead(s') <==> !HarmfulAbort(s, e)
  {
    if e.Abort? && s.txs[e.t].phase == SeqSet {
      assert TxOk(s, e.t, s.txs[e.t]);
      LateAbortKeepsSeqAheadIff(rows0, s, e.t);
    } else if e.Commit? || e.InsertRow? || e.SetSeq? {
      IdStepKeepsSeqAhead(rows0, s, e, s');
    } else if e.Begin? || e.BurnId? || e.Abort? {
      EdgeStepKeepsSeqAhead(s, e, s');
    } else {
      LocalStepIsQuiet(s, e, s');
      QuietKeepsSeqAhead(s, s');
    }
  }

  lemma IdStepKeepsSeqAhead(rows0: Rows, s: State, e: Event, s': State)
    requires Inv(rows0, s) && SeqAhead(s) && Step(s, e) == Some(s')
    requires e.Commit? || e.InsertRow? || e.SetSeq?
    ensures SeqAhead(s')
  {
    match e
    case Commit(t) => CommitKeepsSeqAhead(rows0, s, t, s');
    case InsertRow(t) => InsertKeepsSeqAhead(rows0, s, t, s');
    case SetSeq(t, _) => assert s'.txs[t].phase == SeqSet;
  }

  lemma EdgeStepKeepsSeqAhead(s: State, e: Event, s': State)
    requires SeqAhead(s) && Step(s, e) == Some(s')
    requires e.Begin? || e.BurnId? || e.Abort?
    requires e.Abort? ==> s.txs[e.t].phase != SeqSet
    ensures SeqAhead(s')
  {
    QuietKeepsSeqAhead(s, s');
  }

  lemma LocalStepIsQuiet(s: State, e: Event, s': State)
    requires Step(s, e) == Some(s')
    requires e.WriteRow? || e.LoadBatch? || e.LockRow? || e.LockTable? || e.DeleteAll?
    ensures s'.rows == s.rows && s'.nextId == s.nextId
    ensures e.t in s.txs && e.t in s'.txs && s'.txs == s.txs[e.t := s'.txs[e.t]]
    ensures s.txs[e.t].phase != SeqSet && !s'.txs[e.t].phase.Inserted?
  {
    match e
    case WriteRow(t) => WriteRowFrame(s, t, s');
    case LoadBatch(t, n) => LoadBatchQuiet(s, t, n, s');
    case _ =>
  }

  lemma LoadBatchQuiet(s: State, t: Tid, n: nat, s': State)
    requires t in s.txs && StepLoadBatch(s, t, n) == Some(s')
    ensures s'.rows == s.rows && s'.nextId == s.nextId
    ensures t in s'.txs && s'.txs == s.txs[t := s'.txs[t]] && s.txs[t].phase.Loading? && s'.txs[t].phase.Loading?
  {
  }

  lemma InsertKeepsSeqAhead(rows0: Rows, s: State, t: Tid, s': State)
    requires Inv(rows0, s) && SeqAhead(s) && t in s.txs && StepInsertRow(s, t) == Some(s')
    ensures SeqAhead(s')
  {
    assert s.nextId > 0 && s'.nextId == s.nextId + 1 && s'.rows == s.rows;
    forall u | u in s.txs ensures s.txs[u].phase != SeqSet {
      assert TxOk(s, u, s.txs[u]);
    }
  }

  lemma CommitKeepsSeqAhead(rows0: Rows, s: State, t: Tid, s': State)
    requires Inv(rows0, s) && SeqAhead(s) && t in s.txs && StepCommit(s, t) == Some(s')
    ensures SeqAhead(s')
  {
    var tx := s.txs[t];
    assert TxOk(s, t, tx);
    if tx.phase == SeqSet {
      ImportCommitSetsSeqAhead(s, t, s');
    } else if forall u | u in s.txs :: s.txs[u].phase != SeqSet {
      RowCommitStaysBelow(s, t, s');
    } else {
      OtherTxsRemain(s, t, s');
    }
  }

  lemma OtherTxsRemain(s: State, t: Tid, s': State)
    requires t in s.txs && StepCommit(s, t) == Some(s')
    ensures forall u | u in s.txs && u != t :: u in s'.txs && s'.txs[u] == s.txs[u]
  {
  }

  lemma ImportCommitSetsSeqAhead(s: State, t: Tid, s': State)
    requires TxsOk(s) && (s.replacing.Some? ==> s.exclusive == {})
    requires t in s.txs && s.txs[t].phase == SeqSet && StepCommit(s, t) == Some(s')
    ensures SeqAhead(s')
  {
    SeqSetFacts(s, t);
    MaxOfFilePositive(s.txs[t].op.fields, s.txs[t].op.file, s.txs[t].op.now, s.nextId - 1);
    forall u | u in s'.txs ensures !s'.txs[u].phase.Inserted? {
      assert TxOk(s, u, s.txs[u]);
    }
  }

  lemma RowCommitStaysBelow(s: State, t: Tid, s': State)
    requires t in s.txs && TxOk(s, t, s.txs[t]) && s.txs[t].phase != SeqSet && StepCommit(s, t) == Some(s')
    requires AllBelow(s.rows, s.nextId) && (s.txs[t].phase.Inserted? ==> s.txs[t].phase.newId < s.nextId)
    ensures AllBelow(s'.rows, s.nextId)
  {
    assert s'.rows.Keys == s.rows.Keys + s.txs[t].puts.Keys;
  }

  /** After any run without a harmful abort the sequence is ahead of every stored and pending id, ... */
  lemma {:induction false} RunKeepsSeqAhead(rows0: Rows, s: State, run: seq<Event>)
    requires Inv(rows0, s) && SeqAhead(s) && Exec(Step, s, run).Some? && NoHarmfulAborts(s, run)
    ensures SeqAhead(Exec(Step, s, run).value)
  {
    if run != [] {
      var n := |run| - 1;
      forall k | 0 <= k < n
        ensures Exec(Step, s, run[..n][..k]).Some? ==>
                  !HarmfulAbort(Exec(Step, s, run[..n][..k]).value, run[..n][k])
      {
        assert run[..n][..k] == run[..k];
      }
      RunKeepsSeqAhead(rows0, s, run[..n]);
      RunKeepsInv(rows0, s, run[..n]);
      StepKeepsSeqAheadIff(rows0, Exec(Step, s, run[..n]).value, run[n], Exec(Step, s, run).value);
    }
  }

  /** ... so the id that the next insert draws is free. */
  lemma NextIdIsFree(rows0: Rows, nextId: int, run: seq<Event>, s: State, t: Tid)
    requires Reaches(rows0, nextId, run, s) && NoHarmfulAborts(Init(rows0, nextId), run)
    requires 0 < nextId && AllBelow(rows0, nextId)
    requires t in s.txs && s.txs[t].op.InsertOp? && s.txs[t].phase == Started && Writable(s)
    ensures FreeId(s, t, s.nextId)
  {
    ReachableInv(rows0, nextId, run, s);
    InitInv(rows0, nextId);
    RunKeepsSeqAhead(rows0, Init(rows0, nextId), run);
    assert TxOk(s, t, s.txs[t]);
    forall u | u in s.txs ensures s.txs[u].phase != SeqSet {
      assert TxOk(s, u, s.txs[u]);
    }
    forall u | u in s.txs ensures s.nextId !in s.txs[u].puts {
      assert TxOk(s, u, s.txs[u]);
    }
  }

  /** An import that aborts after setval leaves the sequence ahead if and only if no stored id exceeds
      all its file's ids. */
  lemma LateAbortKeepsSeqAheadIff(rows0: Rows, s: State, t: Tid)
    requires Inv(rows0, s) && t in s.txs && s.txs[t].phase == SeqSet
    ensures s.txs[t].op.ImportOp?
    ensures SeqAhead(Release(s, t)) <==> IdsCovered(s.rows, s.txs[t].op.file)
  {
    assert TxOk(s, t, s.txs[t]);
    SeqSetFacts(s, t);
    var s', op := Release(s, t), s.txs[t].op;
    MaxOfFilePositive(op.fields, op.file, op.now, s.nextId - 1);
    forall u | u in s'.txs ensures s'.txs[u].phase != SeqSet && !s'.txs[u].phase.Inserted? {
      assert TxOk(s, u, s.txs[u]);
    }
    assert SeqAhead(s') <==> AllBelow(s.rows, s.nextId);
    BelowMaxIff(op.fields, op.file, op.now, s.rows, s.nextId - 1);
  }

  const ONE_ROW: Rows := map[1 := NewRow(1, map[], "a", 1)]
  const EMPTY_IMPORT: Op := ImportOp([], [], 1)

  /** An empty import has set the sequence back to 1 and not committed. */
  const REWOUND: State :=
    State(ONE_ROW, 1, map[1 := 0], {}, Some(0), map[0 := Tx(EMPTY_IMPORT, SeqSet, {1}, map[])], [])

  const LOCKED: State := Init(ONE_ROW, 2).(replacing := Some(0), txs := map[0 := Tx(EMPTY_IMPORT, Holding, {}, map[])])

  lemma LockedIsReachable()
    ensures Exec(Step, Init(ONE_ROW, 2), [Begin(0, EMPTY_IMPORT), LockTable(0)]) == Some(LOCKED)
  {
    var s0 := Init(ONE_ROW, 2);
    var e1, e2 := Begin(0, EMPTY_IMPORT), LockTable(0);
    assert [] + [e1] == [e1] && [e1] + [e2] == [e1, e2];
    ExecStep(Step, s0, [], e1);
    ExecStep(Step, s0, [e1], e2);
    assert Exec(Step, s0, [e1, e2]).value.txs == LOCKED.txs;
  }

  /** A run in which a delete holds the row and an import the table: each now waits for the other. */
  lemma RowLockUnderImportLock()
    ensures exists run, s :: Exec(Step, Init(ONE_ROW, 2), run) == Some(s) && s.replacing == Some(0)
                             && s.rowLocks == map[1 := 1]
                             && Step(s, WriteRow(1)).None? && Step(s, DeleteAll(0)).None?
  {
    var run := [Begin(0, EMPTY_IMPORT), LockTable(0)];
    LockedIsReachable();
    assert Exec(Step, Init(ONE_ROW, 2), run) == Some(LOCKED);
    BothLocked();
    var s1 := Step(LOCKED, Begin(1, DeleteOp(1, "", 1))).value;
    ExecStep(Step, Init(ONE_ROW, 2), run, Begin(1, DeleteOp(1, "", 1)));
    ExecStep(Step, Init(ONE_ROW, 2), run + [Begin(1, DeleteOp(1, "", 1))], LockRow(1));
    var s2 := Step(s1, LockRow(1)).value;
  }

  lemma BothLocked()
    ensures var s1 := Step(LOCKED, Begin(1, DeleteOp(1, "", 1)));
            && s1.Some?
            && var s2 := Step(s1.value, LockRow(1));
               && s2.Some? && s2.value.replacing == Some(0) && s2.value.rowLocks == map[1 := 1]
               && Step(s2.value, WriteRow(1)).None? && Step(s2.value, DeleteAll(0)).None?
  {
    var s1 := Step(LOCKED, Begin(1, DeleteOp(1, "", 1))).value;
    RowLockGrantedIff(s1, 1);
    var s2 := Step(s1, LockRow(1)).value;
    assert 1 in s2.rows && 1 in s2.rowLocks;
    assert s2.txs[0].phase == Holding;
  }

  lemma RewoundFromLocked()
    ensures Step(LOCKED, DeleteAll(0)).Some?
    ensures Step(Step(LOCKED, DeleteAll(0)).value, SetSeq(0, 0)) == Some(REWOUND)
  {
    assert ONE_ROW.Keys == {1};
    var s := Step(LOCKED, DeleteAll(0)).value;
    assert s.rowLocks == map[1 := 0];
    assert s.txs[0].dels == {1} && View(s.rows, s.txs[0]) == map[];
    assert Step(s, SetSeq(0, 0)).value.txs == REWOUND.txs;
  }

  lemma RewoundIsReachable()
    ensures Exec(Step, Init(ONE_ROW, 2), [Begin(0, EMPTY_IMPORT), LockTable(0)] + [DeleteAll(0)] + [SetSeq(0, 0)])
            == Some(REWOUND)
  {
    LockedIsReachable();
    RewoundFromLocked();
    var s0, run := Init(ONE_ROW, 2), [Begin(0, EMPTY_IMPORT), LockTable(0)];
    ExecStep(Step, s0, run, DeleteAll(0));
    ExecStep(Step, s0, run + [DeleteAll(0)], SetSeq(0, 0));
  }

  /** When it aborts there, the next insert draws an id in use and cannot be written. */
  lemma LateAbortMakesInsertCollide(op: Op)
    requires op.InsertOp? && Conforms(op.fields, op.data)
    ensures var s := Release(REWOUND, 0);
            && Step(REWOUND, Abort(0)) == Some(s)
            && s.nextId in s.rows
            && Step(s, Begin(1, op)).Some?
            && Step(Step(s, Begin(1, op)).value, InsertRow(1)) == None
  {
    var s := Step(Release(REWOUND, 0), Begin(1, op)).value;
    assert 1 in View(s.rows, s.txs[1]);
    assert !FreeId(s, 1, 1);
  }
}
