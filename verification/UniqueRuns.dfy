/** Key uniqueness over interleaved runs, with the duplicate check as a step of its own that any number of
    other steps may follow before the row statement. Keys stay unique as long as no two transactions that
    have passed the check are about to leave the same key; two that are can break it. */
module UniqueRuns {
  import opened Types
  import opened Validation
  import opened Atomic
  import opened Versions
  import opened Runs
  import opened Engine
  import opened EngineProof
  import opened Unique
  import opened EngineComplete

  /** `passed` are the running transactions that have made their check. A delete has nothing to check. */
  datatype Checking = Checking(table: State, passed: set<Tid>)

  datatype Move = Check(t: Tid) | TableStep(e: Event)

  /** An insert checks in its transaction, the others after they have locked their row. */
  predicate AtCheck(tx: Tx) {
    (tx.op.InsertOp? && tx.phase == Started) || (tx.op.OnRow() && tx.phase.Locked?)
  }

  ghost function Moved(keyOf: Keys, c: Checking, m: Move): Option<Checking> {
    match m
    case Check(t) =>
      if t in c.table.txs && AtCheck(c.table.txs[t])
         && PassesDupCheck(c.table.rows, keyOf(c.table.txs[t].op), c.table.txs[t].op)
      then Some(c.(passed := c.passed + {t})) else None
    case TableStep(e) =>
      if (e.InsertRow? || e.WriteRow?) && e.t !in c.passed then None
      else match Step(c.table, e)
           case Some(s) => Some(Checking(s, c.passed * s.txs.Keys))
           case None => None
  }

  ghost function Moves(keyOf: Keys): (Checking, Move) -> Option<Checking> {
    (c: Checking, m: Move) => Moved(keyOf, c, m)
  }

  function Fresh(rows0: Rows, nextId: int): Checking { Checking(Init(rows0, nextId), {}) }

  /** The row that a transaction has written, or is about to write after its check. */
  ghost function Candidate(tx: Tx, passed: bool): Option<Doc> {
    if tx.op.ImportOp? then None
    else if tx.op.id in tx.puts then Some(tx.puts[tx.op.id])
    else if !passed then None
    else if tx.op.InsertOp? then
      if tx.phase == Started && |tx.op.who| <= OPERATOR_WIDTH
      then Some(NewRow(0, tx.op.data, tx.op.who, tx.op.now)) else None
    else
      match tx.phase
      case Locked(doc) => (match RowEffect(tx.op, doc)
                           case Some(d) => if d == doc then None else Some(d)
                           case None => None)
      case _ => None
  }

  ghost function CandidateOf(c: Checking, t: Tid): Option<Doc>
    requires t in c.table.txs
  {
    Candidate(c.table.txs[t], t in c.passed)
  }

  /** The row that the candidate replaces; ids in use are positive. */
  function Replaces(tx: Tx): int {
    if tx.op.ImportOp? || (tx.op.InsertOp? && tx.op.id !in tx.puts) then 0 else tx.op.id
  }

  /** The row would not repeat a complete key of any active row besides the one it replaces. */
  predicate Harmless(rows: Rows, unique: seq<string>, replaced: int, d: Doc) {
    forall id | id in rows && id != replaced :: !Clash(unique, d, rows[id])
  }

  ghost predicate Rivals(c: Checking, unique: seq<string>, t: Tid, u: Tid)
    requires t in c.table.txs && u in c.table.txs
  {
    && t != u && CandidateOf(c, t).Some? && CandidateOf(c, u).Some?
    && Clash(unique, CandidateOf(c, t).value, CandidateOf(c, u).value)
  }

  ghost predicate NoRivals(c: Checking, unique: seq<string>) {
    forall t, u | t in c.table.txs && u in c.table.txs :: !Rivals(c, unique, t, u)
  }

  /** Every writer checks a key all of whose fields are in `unique`: its own key, or an older one that
      evolutions have only added to. */
  ghost predicate ChecksPartOf(keyOf: Keys, unique: seq<string>) {
    forall op :: AddsFields(keyOf(op), unique)
  }

  ghost predicate KeysSafe(c: Checking, unique: seq<string>) {
    && KeysUnique(c.table.rows, unique)
    && forall t | t in c.table.txs && CandidateOf(c, t).Some? ::
         Harmless(c.table.rows, unique, Replaces(c.table.txs[t]), CandidateOf(c, t).value)
  }

  /** Who is among the checked ones. */
  predicate PassedOk(c: Checking) {
    && (forall t | t in c.passed :: t in c.table.txs && !(c.table.txs[t].op.OnRow() && c.table.txs[t].phase == Started))
    && (forall t | t in c.table.txs && !c.table.txs[t].op.ImportOp? && c.table.txs[t].puts != map[] :: t in c.passed)
  }

  ghost predicate CInv(rows0: Rows, c: Checking) {
    Inv(rows0, c.table) && PositiveIds(c.table.rows) && PassedOk(c)
  }

  lemma MoveKeepsCInv(rows0: Rows, keyOf: Keys, c: Checking, m: Move, c': Checking)
    requires PositiveIds(rows0) && CInv(rows0, c) && Moved(keyOf, c, m) == Some(c')
    ensures CInv(rows0, c')
  {
    if m.TableStep? {
      StepKeepsInv(rows0, c.table, m.e, c'.table);
      ReplayKeepsPositiveIds(rows0, c'.table.log);
      OtherKeepsPassedOk(c, m.e, c');
    }
  }

  lemma OtherKeepsPassedOk(c: Checking, e: Event, c': Checking)
    requires PassedOk(c) && Step(c.table, e) == Some(c'.table) && c'.passed == c.passed * c'.table.txs.Keys
    requires e.InsertRow? || e.WriteRow? ==> e.t in c.passed
    ensures PassedOk(c')
  {
    if e.InsertRow? || e.WriteRow? {
      WriteEffect(c.table, e, c'.table);
    } else {
      OtherStepKeepsTxs(c.table, e, c'.table);
    }
  }

  /** A row statement changes its own transaction only. */
  lemma WriteEffect(s: State, e: Event, s': State)
    requires (e.InsertRow? || e.WriteRow?) && Step(s, e) == Some(s')
    ensures e.t in s.txs && e.t in s'.txs && s'.rows == s.rows && s'.txs == s.txs[e.t := s'.txs[e.t]]
    ensures s'.txs[e.t].phase != Started
    ensures s'.txs[e.t].op == s.txs[e.t].op
            || (s.txs[e.t].op.InsertOp? && s'.txs[e.t].op == WithId(s.txs[e.t].op, s.nextId))
  {
    if e.WriteRow? {
      WriteRowFrame(s, e.t, s');
      WriteRowKeepsOp(s, e.t, s');
    }
  }

  /** What the other steps do to transactions: they leave them alone, let them begin or end, lock a row,
      or belong to an import. */
  lemma OtherStepKeepsTxs(s: State, e: Event, s': State)
    requires Step(s, e) == Some(s') && !e.InsertRow? && !e.WriteRow?
    ensures !e.Commit? ==> s'.rows == s.rows
    ensures forall u | u in s'.txs && u in s.txs && !s'.txs[u].op.ImportOp? ::
              || s'.txs[u] == s.txs[u]
              || (s.txs[u].phase == Started && s.txs[u].op.OnRow() && s'.txs[u].op == s.txs[u].op
                  && s'.txs[u].phase.Locked? && s'.txs[u].puts == s.txs[u].puts)
    ensures forall u | u in s'.txs && u in s.txs :: s'.txs[u].op == s.txs[u].op
    ensures forall u | u in s'.txs && u !in s.txs :: s'.txs[u].phase == Started && s'.txs[u].puts == map[]
    ensures forall u | u in s.txs && u !in s'.txs :: (e.Commit? || e.Abort?) && e.t == u
  {
  }

  // ---------- every move keeps the keys safe ----------

  lemma CheckIsHarmless(rows: Rows, unique: seq<string>, replaced: int, d: Doc)
    requires unique != [] && (d.status == Active ==> !DupConflict(rows, unique, d.data, replaced))
    ensures Harmless(rows, unique, replaced, d)
  {
    forall id | id in rows && id != replaced ensures !Clash(unique, d, rows[id]) {
      NewRowDoesNotClash(rows, unique, replaced, d, id);
    }
  }

  lemma CheckKeepsKeys(rows0: Rows, keyOf: Keys, unique: seq<string>, c: Checking, t: Tid, c': Checking)
    requires CInv(rows0, c) && KeysSafe(c, unique) && unique != [] && ChecksPartOf(keyOf, unique)
    requires Moved(keyOf, c, Check(t)) == Some(c')
    ensures KeysSafe(c', unique)
  {
    var tx := c.table.txs[t];
    assert TxOk(c.table, t, tx);
    NarrowerPasses(c.table.rows, keyOf(tx.op), unique, tx.op);
    if CandidateOf(c', t).Some? {
      CheckIsHarmless(c.table.rows, unique, Replaces(tx), CandidateOf(c', t).value);
    }
    forall u | u in c'.table.txs && u != t ensures CandidateOf(c', u) == CandidateOf(c, u) {}
  }

  /** The row statement writes what the check was about, or leaves the row as it is. */
  lemma WriteKeepsCandidate(rows0: Rows, c: Checking, e: Event, c': Checking)
    requires CInv(rows0, c) && CInv(rows0, c') && (e.InsertRow? || e.WriteRow?) && e.t in c.passed
    requires Step(c.table, e) == Some(c'.table) && e.t in c.table.txs && e.t in c'.table.txs
    ensures var before, after := CandidateOf(c, e.t), CandidateOf(c', e.t);
            after.Some? ==>
              || (before.Some? && before.value.data == after.value.data && before.value.status == after.value.status
                  && (Replaces(c.table.txs[e.t]) == 0 || Replaces(c.table.txs[e.t]) == Replaces(c'.table.txs[e.t])))
              || (Replaces(c'.table.txs[e.t]) in c.table.rows
                  && after.value == c.table.rows[Replaces(c'.table.txs[e.t])])
  {
    assert TxOk(c.table, e.t, c.table.txs[e.t]);
    assert TxOk(c'.table, e.t, c'.table.txs[e.t]);
    WriteEffect(c.table, e, c'.table);
  }

  lemma WriteKeepsKeys(rows0: Rows, unique: seq<string>, c: Checking, e: Event, c': Checking)
    requires CInv(rows0, c) && CInv(rows0, c') && KeysSafe(c, unique) && unique != []
    requires (e.InsertRow? || e.WriteRow?) && e.t in c.passed
    requires Step(c.table, e) == Some(c'.table) && c'.passed == c.passed * c'.table.txs.Keys
    ensures KeysSafe(c', unique)
  {
    WriteEffect(c.table, e, c'.table);
    WriteKeepsCandidate(rows0, c, e, c');
    var after := CandidateOf(c', e.t);
    if after.Some? {
      forall id | id in c.table.rows && id != Replaces(c'.table.txs[e.t])
        ensures !Clash(unique, after.value, c.table.rows[id])
      {
      }
    }
    forall u | u in c'.table.txs && u != e.t ensures CandidateOf(c', u) == CandidateOf(c, u) {}
  }

  lemma ClashSymmetric(unique: seq<string>, a: Doc, b: Doc)
    ensures Clash(unique, a, b) <==> Clash(unique, b, a)
  {
  }

  lemma PutHarmless(rows: Rows, unique: seq<string>, id: int, d: Doc)
    requires KeysUnique(rows, unique) && Harmless(rows, unique, id, d)
    ensures KeysUnique(rows[id := d], unique)
  {
    var rows' := rows[id := d];
    forall a, b | a in rows' && b in rows' && a != b && unique != [] ensures !Clash(unique, rows'[a], rows'[b]) {
      if a != id && b != id {
        assert !Clash(unique, rows[a], rows[b]);
      } else {
        ClashSymmetric(unique, rows'[a], rows'[b]);
      }
    }
  }

  /** What a commit without an import makes of the rows: the candidate takes its place, or nothing changes. */
  lemma CommitPutsCandidate(rows0: Rows, c: Checking, t: Tid, c': Checking)
    requires CInv(rows0, c) && t in c.table.txs && !c.table.txs[t].op.ImportOp?
    requires StepCommit(c.table, t) == Some(c'.table)
    ensures var tx := c.table.txs[t];
            c'.table.rows == if tx.op.id in tx.puts then c.table.rows[tx.op.id := tx.puts[tx.op.id]] else c.table.rows
    ensures c'.table.txs == c.table.txs - {t}
  {
    var tx := c.table.txs[t];
    assert TxOk(c.table, t, tx);
    assert c.table.rows - {} == c.table.rows;
  }

  lemma CommitKeepsKeys(rows0: Rows, unique: seq<string>, c: Checking, t: Tid, c': Checking)
    requires CInv(rows0, c) && KeysSafe(c, unique) && NoRivals(c, unique)
    requires t in c.table.txs && !c.table.txs[t].op.ImportOp? && StepCommit(c.table, t) == Some(c'.table)
    requires c'.passed == c.passed * c'.table.txs.Keys
    ensures KeysSafe(c', unique)
  {
    CommitPutsCandidate(rows0, c, t, c');
    var tx := c.table.txs[t];
    if tx.op.id in tx.puts {
      PutHarmless(c.table.rows, unique, tx.op.id, tx.puts[tx.op.id]);
    }
    forall u | u in c'.table.txs && CandidateOf(c', u).Some?
      ensures Harmless(c'.table.rows, unique, Replaces(c'.table.txs[u]), CandidateOf(c', u).value)
    {
      assert CandidateOf(c', u) == CandidateOf(c, u);
      assert !Rivals(c, unique, u, t);
    }
  }

  lemma OtherKeepsKeys(rows0: Rows, unique: seq<string>, c: Checking, e: Event, c': Checking)
    requires CInv(rows0, c) && KeysSafe(c, unique) && !e.Commit? && !e.InsertRow? && !e.WriteRow?
    requires Step(c.table, e) == Some(c'.table) && c'.passed == c.passed * c'.table.txs.Keys
    ensures KeysSafe(c', unique)
  {
    OtherStepKeepsTxs(c.table, e, c'.table);
    forall u | u in c'.table.txs && CandidateOf(c', u).Some?
      ensures Harmless(c'.table.rows, unique, Replaces(c'.table.txs[u]), CandidateOf(c', u).value)
    {
      assert u in c.table.txs && CandidateOf(c', u) == CandidateOf(c, u);
      assert Replaces(c'.table.txs[u]) == Replaces(c.table.txs[u]);
    }
  }

  lemma MoveKeepsKeys(rows0: Rows, keyOf: Keys, unique: seq<string>, c: Checking, m: Move, c': Checking)
    requires PositiveIds(rows0) && CInv(rows0, c) && KeysSafe(c, unique) && NoRivals(c, unique)
    requires unique != [] && ChecksPartOf(keyOf, unique)
    requires Moved(keyOf, c, m) == Some(c') && NoImport(c'.table.log)
    ensures KeysSafe(c', unique)
  {
    if m.Check? {
      CheckKeepsKeys(rows0, keyOf, unique, c, m.t, c');
    } else if m.e.Commit? {
      assert c'.table.log[|c.table.log|] == c.table.txs[m.e.t].op;
      CommitKeepsKeys(rows0, unique, c, m.e.t, c');
    } else if m.e.InsertRow? || m.e.WriteRow? {
      MoveKeepsCInv(rows0, keyOf, c, m, c');
      WriteKeepsKeys(rows0, unique, c, m.e, c');
    } else {
      OtherKeepsKeys(rows0, unique, c, m.e, c');
    }
  }

  // ---------- runs ----------

  /** No two transactions were rivals in any state that the run has left. */
  ghost predicate NeverRivals(keyOf: Keys, unique: seq<string>, c0: Checking, run: seq<Move>) {
    forall k | 0 <= k < |run| ::
      Exec(Moves(keyOf), c0, run[..k]).Some? ==> NoRivals(Exec(Moves(keyOf), c0, run[..k]).value, unique)
  }

  ghost predicate UniqueStart(rows0: Rows, unique: seq<string>) {
    RowIdsOk(rows0) && PositiveIds(rows0) && KeysUnique(rows0, unique)
  }

  lemma {:induction false} RunKeepsCInv(rows0: Rows, nextId: int, keyOf: Keys, run: seq<Move>)
    requires RowIdsOk(rows0) && PositiveIds(rows0) && Exec(Moves(keyOf), Fresh(rows0, nextId), run).Some?
    ensures CInv(rows0, Exec(Moves(keyOf), Fresh(rows0, nextId), run).value)
  {
    if run == [] {
      InitInv(rows0, nextId);
    } else {
      var n, c0 := |run| - 1, Fresh(rows0, nextId);
      RunKeepsCInv(rows0, nextId, keyOf, run[..n]);
      MoveKeepsCInv(rows0, keyOf, Exec(Moves(keyOf), c0, run[..n]).value, run[n], Exec(Moves(keyOf), c0, run).value);
    }
  }

  lemma MoveGrowsLog(keyOf: Keys, c: Checking, m: Move, c': Checking)
    requires Moved(keyOf, c, m) == Some(c') && NoImport(c'.table.log)
    ensures NoImport(c.table.log)
  {
    if m.TableStep? { StepOps(c.table, m.e, c'.table); }
    assert forall i | 0 <= i < |c.table.log| :: c.table.log[i] == c'.table.log[i];
  }

  /** A run with duplicate checks in which no import commits keeps keys unique as long as no two
      transactions past their checks are about to leave the same complete key. */
  lemma {:induction false} CheckedRunKeepsKeys(rows0: Rows, nextId: int, keyOf: Keys, unique: seq<string>,
                                               run: seq<Move>)
    requires UniqueStart(rows0, unique) && unique != [] && ChecksPartOf(keyOf, unique)
    requires Exec(Moves(keyOf), Fresh(rows0, nextId), run).Some?
    requires NoImport(Exec(Moves(keyOf), Fresh(rows0, nextId), run).value.table.log)
    requires NeverRivals(keyOf, unique, Fresh(rows0, nextId), run)
    ensures KeysSafe(Exec(Moves(keyOf), Fresh(rows0, nextId), run).value, unique)
  {
    var c0 := Fresh(rows0, nextId);
    if run != [] {
      var n := |run| - 1;
      var front := run[..n];
      var c, c' := Exec(Moves(keyOf), c0, front).value, Exec(Moves(keyOf), c0, run).value;
      assert forall k | 0 <= k < n :: front[..k] == run[..k];
      MoveGrowsLog(keyOf, c, run[n], c');
      CheckedRunKeepsKeys(rows0, nextId, keyOf, unique, front);
      RunKeepsCInv(rows0, nextId, keyOf, front);
      MoveKeepsKeys(rows0, keyOf, unique, c, run[n], c');
    }
  }

  /** At most one transaction is between its check and its end. */
  predicate OneAtATime(c: Checking) {
    forall t, u | t in c.passed && u in c.passed :: t == u
  }

  /** In particular when the stretches from check to commit do not overlap. */
  lemma SeparateWritesKeepKeys(rows0: Rows, nextId: int, keyOf: Keys, unique: seq<string>, run: seq<Move>)
    requires UniqueStart(rows0, unique) && ChecksPartOf(keyOf, unique)
    requires Exec(Moves(keyOf), Fresh(rows0, nextId), run).Some?
    requires NoImport(Exec(Moves(keyOf), Fresh(rows0, nextId), run).value.table.log)
    requires forall k | 0 <= k < |run| :: Exec(Moves(keyOf), Fresh(rows0, nextId), run[..k]).Some? ==>
               OneAtATime(Exec(Moves(keyOf), Fresh(rows0, nextId), run[..k]).value)
    ensures KeysUnique(Exec(Moves(keyOf), Fresh(rows0, nextId), run).value.table.rows, unique)
  {
    var c0 := Fresh(rows0, nextId);
    forall k | 0 <= k < |run| && Exec(Moves(keyOf), c0, run[..k]).Some?
      ensures NoRivals(Exec(Moves(keyOf), c0, run[..k]).value, unique)
    {
      RunKeepsCInv(rows0, nextId, keyOf, run[..k]);
    }
    if unique != [] { CheckedRunKeepsKeys(rows0, nextId, keyOf, unique, run); }
  }

  // ---------- the condition is needed ----------

  /** Nothing keeps row statements from going through: no import has the table, and the sequence is ahead
      with `draws` ids left. */
  predicate ReadyFor(s: State, draws: nat) {
    && Writable(s) && 0 < s.nextId && s.nextId + draws <= MAX_INT64 + 1
    && AllBelow(s.rows, s.nextId)
    && forall u | u in s.txs :: AllBelow(s.txs[u].puts, s.nextId)
  }

  /** Everything but transaction `t` is as it was. */
  predicate OnlyChanged(s: State, t: Tid, s': State) {
    && s'.rows == s.rows && s'.txs.Keys == s.txs.Keys
    && forall u | u in s.txs && u != t :: s'.txs[u] == s.txs[u]
  }

  predicate Written(tx: Tx, like: Doc) {
    && !tx.op.ImportOp? && tx.op.id in tx.puts && Committable(tx)
    && tx.puts[tx.op.id].data == like.data && tx.puts[tx.op.id].status == like.status
  }

  lemma CandidateIsWritable(rows0: Rows, c: Checking, t: Tid, e: Event)
    requires CInv(rows0, c) && ReadyFor(c.table, 1) && t in c.table.txs && CandidateOf(c, t).Some?
    requires c.table.txs[t].op.id !in c.table.txs[t].puts
    requires e == if c.table.txs[t].op.InsertOp? then InsertRow(t) else WriteRow(t)
    ensures t in c.passed && Step(c.table, e).Some?
    ensures Written(Step(c.table, e).value.txs[t], CandidateOf(c, t).value)
    ensures Step(c.table, e).value.nextId <= c.table.nextId + 1
  {
    var s, tx := c.table, c.table.txs[t];
    assert TxOk(s, t, tx);
    if tx.op.InsertOp? {
      assert FreeId(s, t, s.nextId);
    } else {
      RowStatementRuns(s, t);
      var s' := Step(s, e).value;
      WriteRowMatches(s, t, s');
      WriteRowFrame(s, t, s');
      WriteRowKeepsOp(s, t, s');
    }
  }

  lemma CandidateWrites(rows0: Rows, keyOf: Keys, c: Checking, t: Tid, n: nat) returns (c': Checking)
    requires PositiveIds(rows0) && CInv(rows0, c) && ReadyFor(c.table, n + 1)
    requires t in c.table.txs && CandidateOf(c, t).Some?
    ensures Can(Moves(keyOf), c, c') && CInv(rows0, c') && ReadyFor(c'.table, n) && c'.passed == c.passed
    ensures OnlyChanged(c.table, t, c'.table) && Written(c'.table.txs[t], CandidateOf(c, t).value)
  {
    var tx := c.table.txs[t];
    CanStay(Moves(keyOf), c);
    if tx.op.id in tx.puts {
      assert TxOk(c.table, t, tx);
      c' := c;
    } else {
      var e := if tx.op.InsertOp? then InsertRow(t) else WriteRow(t);
      CandidateIsWritable(rows0, c, t, e);
      WriteEffect(c.table, e, Step(c.table, e).value);
      c' := Checking(Step(c.table, e).value, c.passed);
      assert c.passed * c'.table.txs.Keys == c.passed;
      CanThen(Moves(keyOf), c, c, TableStep(e), c');
      MoveKeepsCInv(rows0, keyOf, c, TableStep(e), c');
      WriteKeepsReady(c.table, e, c'.table, n);
    }
  }

  lemma WriteKeepsReady(s: State, e: Event, s': State, n: nat)
    requires ReadyFor(s, n + 1) && (e.InsertRow? || e.WriteRow?) && Step(s, e) == Some(s')
    requires RowIdsOk(s.rows)
    ensures ReadyFor(s', n)
  {
    WriteEffect(s, e, s');
    if e.WriteRow? {
      WriteRowFrame(s, e.t, s');
      WrittenIdInUse(s, e.t, s');
    }
  }

  lemma WrittenIdInUse(s: State, t: Tid, s': State)
    requires t in s.txs && RowIdsOk(s.rows) && StepWriteRow(s, t) == Some(s')
    ensures t in s'.txs && forall id | id in s'.txs[t].puts :: id in s.rows || id in s.txs[t].puts
  {
  }

  /** Two transactions never have the same row pending. */
  lemma PendingIdsDiffer(s: State, t: Tid, u: Tid, a: Doc, b: Doc)
    requires t in s.txs && u in s.txs && t != u && TxsOk(s) && FreshIdsDistinct(s)
    requires Written(s.txs[t], a) && Written(s.txs[u], b)
    ensures s.txs[t].op.id != s.txs[u].op.id
  {
    assert TxOk(s, t, s.txs[t]) && TxOk(s, u, s.txs[u]);
  }

  lemma CandidateCommits(rows0: Rows, keyOf: Keys, c: Checking, t: Tid, like: Doc) returns (c': Checking)
    requires PositiveIds(rows0) && CInv(rows0, c) && t in c.table.txs && Written(c.table.txs[t], like)
    ensures Can(Moves(keyOf), c, c') && CInv(rows0, c') && c'.table.txs == c.table.txs - {t}
    ensures var i := c.table.txs[t].op.id; c'.table.rows == c.table.rows[i := c.table.txs[t].puts[i]]
  {
    var s := Step(c.table, Commit(t)).value;
    c' := Checking(s, c.passed * s.txs.Keys);
    CanStay(Moves(keyOf), c);
    CanThen(Moves(keyOf), c, c, TableStep(Commit(t)), c');
    CommitPutsCandidate(rows0, c, t, c');
    MoveKeepsCInv(rows0, keyOf, c, TableStep(Commit(t)), c');
  }

  lemma BothCommitted(rows0: Rows, keyOf: Keys, c: Checking, t: Tid, u: Tid, a: Doc, b: Doc) returns (c': Checking)
    requires PositiveIds(rows0) && CInv(rows0, c) && t in c.table.txs && u in c.table.txs && t != u
    requires Written(c.table.txs[t], a) && Written(c.table.txs[u], b)
    ensures Can(Moves(keyOf), c, c')
    ensures var i, j := c.table.txs[t].op.id, c.table.txs[u].op.id;
            c'.table.rows == c.table.rows[i := c.table.txs[t].puts[i]][j := c.table.txs[u].puts[j]]
  {
    var c1 := CandidateCommits(rows0, keyOf, c, t, a);
    assert c1.table.txs[u] == c.table.txs[u];
    c' := CandidateCommits(rows0, keyOf, c1, u, b);
    CanChain(Moves(keyOf), c, c1, c');
  }

  /** Whenever two transactions are rivals and row statements go through, both can commit and leave a
      complete key held twice. */
  lemma RivalsCanClash(rows0: Rows, keyOf: Keys, unique: seq<string>, c: Checking, t: Tid, u: Tid)
    requires PositiveIds(rows0) && CInv(rows0, c) && unique != [] && ReadyFor(c.table, 2)
    requires t in c.table.txs && u in c.table.txs && Rivals(c, unique, t, u)
    ensures exists c' :: Can(Moves(keyOf), c, c') && !KeysUnique(c'.table.rows, unique)
  {
    var a, b := CandidateOf(c, t).value, CandidateOf(c, u).value;
    var c1 := CandidateWrites(rows0, keyOf, c, t, 1);
    assert CandidateOf(c1, u) == Some(b);
    var c2 := CandidateWrites(rows0, keyOf, c1, u, 0);
    assert c2.table.txs[t] == c1.table.txs[t];
    PendingIdsDiffer(c2.table, t, u, a, b);
    var c3 := BothCommitted(rows0, keyOf, c2, t, u, a, b);
    CanChain(Moves(keyOf), c, c1, c2);
    CanChain(Moves(keyOf), c, c2, c3);
    var i, j := c2.table.txs[t].op.id, c2.table.txs[u].op.id;
    assert Clash(unique, c3.table.rows[i], c3.table.rows[j]);
  }

  // ---------- how these runs relate to the others ----------

  /** A run with checks, seen without them, is a run of the table: what is proved of all runs holds. */
  lemma {:induction false} MovesAreSteps(keyOf: Keys, c: Checking, run: seq<Move>)
    requires Exec(Moves(keyOf), c, run).Some?
    ensures Can(Step, c.table, Exec(Moves(keyOf), c, run).value.table)
  {
    if run == [] {
      CanStay(Step, c.table);
    } else {
      var n := |run| - 1;
      MovesAreSteps(keyOf, c, run[..n]);
      var b, d := Exec(Moves(keyOf), c, run[..n]).value, Exec(Moves(keyOf), c, run).value;
      if run[n].TableStep? { CanThen(Step, c.table, b.table, run[n].e, d.table); }
    }
  }

  /** A check at the moment of the row statement is a check followed by that statement, so every history
      that the checked steps produce is produced here too. */
  lemma {:induction false} CheckedStepsAreMoves(keyOf: Keys, s: State, run: seq<Event>)
    requires Exec(Checked(keyOf), s, run).Some?
    ensures exists c' :: Can(Moves(keyOf), Checking(s, {}), c') && c'.table == Exec(Checked(keyOf), s, run).value
  {
    var c0 := Checking(s, {});
    if run == [] {
      CanStay(Moves(keyOf), c0);
    } else {
      var n := |run| - 1;
      CheckedStepsAreMoves(keyOf, s, run[..n]);
      var b, d := Exec(Checked(keyOf), s, run[..n]).value, Exec(Checked(keyOf), s, run).value;
      var c :| Can(Moves(keyOf), c0, c) && c.table == b;
      var e := run[n];
      var c1 := c;
      if e.InsertRow? || e.WriteRow? {
        c1 := c.(passed := c.passed + {e.t});
        CanThen(Moves(keyOf), c0, c, Check(e.t), c1);
      }
      CanThen(Moves(keyOf), c0, c1, TableStep(e), Checking(d, c1.passed * d.txs.Keys));
    }
  }
}
