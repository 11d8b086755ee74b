/** The registry of one type: register, evolve and deprecate as interleaved transactions over its
    metadata row and its append-only history. */
module Registry {
  import opened Types
  import opened Runs
  import opened Validation

  type Tid = nat

  datatype Schema = Schema(fields: seq<Field>, unique: seq<string>)

  datatype HistoryOp = Register | Evolve | Deprecate

  /** `id` is drawn from the history sequence; `at` is the start time of the writing transaction. */
  datatype Entry = Entry(id: int, op: HistoryOp, schema: Schema, at: Time)

  datatype MetaRow = MetaRow(schema: Schema, deprecated: bool, version: int)

  datatype Request = RegisterReq(schema: Schema) | EvolveReq(schema: Schema, version: int) | DeprecateReq

  datatype Phase =
    | Begun
    | Read                   // deprecate has read an active row, without a lock
    | Moved(row: MetaRow)    // the metadata statement has changed the row, not yet visible
    | Recorded(row: MetaRow, entry: Entry)
    | NotMoved               // deprecate's statement found the row deprecated already

  datatype Tx = Tx(req: Request, at: Time, phase: Phase)

  datatype State = State(
    meta: Option<MetaRow>, history: seq<Entry>,  // committed
    nextEntryId: int,                            // shared with all other types
    holder: Option<Tid>,                         // lock on the metadata row or on its unique name
    txs: map<Tid, Tx>,
    clock: Time)                                 // when the last transaction began

  datatype Event =
    | Begin(t: Tid, req: Request, at: Time)
    | ReadStatus(t: Tid)
    | ChangeMeta(t: Tid)
    | Record(t: Tid)
    | OtherTypeRecords
    | Commit(t: Tid)
    | Abort(t: Tid)

  const INIT: State := State(None, [], 1, None, map[], ZERO_TIME)

  predicate Valid(schema: Schema) {
    WellFormed(schema.fields) && UniqueOk(schema.fields, schema.unique)
  }

  /** Evolve's first look at the type happens here, outside its transaction and without a lock. */
  predicate MayBegin(s: State, req: Request) {
    match req
    case RegisterReq(schema) => Valid(schema)
    case EvolveReq(schema, _) => Valid(schema) && s.meta.Some? && !s.meta.value.deprecated
    case DeprecateReq => true
  }

  /** The row the metadata statement leaves: the INSERT, the UPDATE WHERE version AND active, the UPDATE
      WHERE active. `None` when it fails or matches no row. */
  function Changed(meta: Option<MetaRow>, req: Request): Option<MetaRow> {
    match req
    case RegisterReq(schema) =>
      if meta.None? then Some(MetaRow(schema, false, 1)) else None
    case EvolveReq(schema, version) =>
      if meta.Some? && meta.value.version == version && !meta.value.deprecated
      then Some(meta.value.(schema := schema, version := meta.value.version + 1)) else None
    case DeprecateReq =>
      if meta.Some? && !meta.value.deprecated then Some(meta.value.(deprecated := true)) else None
  }

  function OpOf(req: Request): HistoryOp {
    match req
    case RegisterReq(_) => Register
    case EvolveReq(_, _) => Evolve
    case DeprecateReq => Deprecate
  }

  /** Register and evolve record the schema they were given; deprecate reads the row again under its
      lock and records what it finds. */
  function RecordedSchema(req: Request, row: MetaRow): Schema {
    match req
    case RegisterReq(schema) => schema
    case EvolveReq(schema, _) => schema
    case DeprecateReq => row.schema
  }

  function Put(s: State, t: Tid, tx: Tx): State { s.(txs := s.txs[t := tx]) }

  function Release(s: State, t: Tid): State {
    s.(txs := s.txs - {t}, holder := if s.holder == Some(t) then None else s.holder)
  }

  function StepTx(s: State, e: Event, t: Tid): Option<State>
    requires t in s.txs
  {
    var tx := s.txs[t];
    match e
    case ReadStatus(_) =>
      if tx.req == DeprecateReq && tx.phase == Begun && s.meta.Some? && !s.meta.value.deprecated
      then Some(Put(s, t, tx.(phase := Read))) else None
    case ChangeMeta(_) =>
      if s.holder.Some? || tx.phase != (if tx.req == DeprecateReq then Read else Begun) then None
      else (match Changed(s.meta, tx.req)
            case Some(row) => Some(Put(s, t, tx.(phase := Moved(row))).(holder := Some(t)))
            case None => if tx.req == DeprecateReq then Some(Put(s, t, tx.(phase := NotMoved))) else None)
    case Record(_) =>
      if !tx.phase.Moved? then None
      else
        var entry := Entry(s.nextEntryId, OpOf(tx.req), RecordedSchema(tx.req, tx.phase.row), tx.at);
        Some(Put(s, t, tx.(phase := Recorded(tx.phase.row, entry))).(nextEntryId := s.nextEntryId + 1))
    case Commit(_) =>
      (match tx.phase
       case Recorded(row, entry) => Some(Release(s, t).(meta := Some(row), history := s.history + [entry]))
       case NotMoved => Some(Release(s, t))
       case _ => None)
    case Abort(_) => Some(Release(s, t))
    case _ => None
  }

  function Step(s: State, e: Event): Option<State> {
    match e
    case Begin(t, req, at) =>
      if t !in s.txs && MayBegin(s, req) && s.clock <= at
      then Some(Put(s, t, Tx(req, at, Begun)).(clock := at)) else None
    case OtherTypeRecords => Some(s.(nextEntryId := s.nextEntryId + 1))
    case _ => if e.t in s.txs then StepTx(s, e, e.t) else None
  }

  // ---------- the registry invariant ----------

  function Evolves(history: seq<Entry>): nat {
    if history == [] then 0
    else Evolves(history[..|history| - 1]) + if history[|history| - 1].op == Evolve then 1 else 0
  }

  function Last(history: seq<Entry>): Entry
    requires history != []
  {
    history[|history| - 1]
  }

  /** One register, then evolves, then at most one final deprecate, which keeps the schema it ends. */
  predicate HistoryShape(history: seq<Entry>) {
    && (history != [] ==> history[0].op == Register)
    && (forall i | 0 < i < |history| :: history[i].op != Register)
    && (forall i | 0 <= i < |history| - 1 :: history[i].op != Deprecate)
    && (forall i | 0 < i < |history| :: history[i].op == Deprecate ==> history[i].schema == history[i - 1].schema)
    && (forall i | 0 <= i < |history| :: 0 < history[i].id)
    && (forall i, j | 0 <= i < j < |history| :: history[i].id < history[j].id)
    && (forall i | 0 <= i < |history| :: Valid(history[i].schema))
  }

  /** The metadata row says what the history says. */
  predicate Agrees(meta: Option<MetaRow>, history: seq<Entry>) {
    match meta
    case None => history == []
    case Some(row) =>
      && history != []
      && row.schema == Last(history).schema
      && row.version == 1 + Evolves(history)
      && (row.deprecated <==> Last(history).op == Deprecate)
  }

  predicate TxOk(s: State, t: Tid, tx: Tx) {
    && (tx.req.RegisterReq? ==> Valid(tx.req.schema))
    && (tx.req.EvolveReq? ==> Valid(tx.req.schema))
    && match tx.phase
       case Moved(row) => s.holder == Some(t) && Changed(s.meta, tx.req) == Some(row)
       case Recorded(row, entry) =>
         && s.holder == Some(t) && Changed(s.meta, tx.req) == Some(row)
         && entry.op == OpOf(tx.req) && entry.schema == row.schema
         && 0 < entry.id < s.nextEntryId && forall i | 0 <= i < |s.history| :: s.history[i].id < entry.id
       case _ => true
  }

  predicate Inv(s: State) {
    && HistoryShape(s.history)
    && Agrees(s.meta, s.history)
    && 0 < s.nextEntryId && (forall i | 0 <= i < |s.history| :: s.history[i].id < s.nextEntryId)
    && forall t | t in s.txs :: TxOk(s, t, s.txs[t])
  }

  /** What a transaction records is the schema that its own statement has left in the row. */
  lemma ChangedRecordsItsSchema(meta: Option<MetaRow>, req: Request, row: MetaRow)
    requires Changed(meta, req) == Some(row)
    ensures RecordedSchema(req, row) == row.schema
  {
  }

  lemma CommitKeepsInv(s: State, t: Tid, s': State)
    requires Inv(s) && t in s.txs && StepTx(s, Commit(t), t) == Some(s')
    ensures Inv(s')
  {
    assert TxOk(s, t, s.txs[t]);
    forall u | u in s'.txs ensures TxOk(s', u, s'.txs[u]) {
      CommitKeepsOther(s, t, s', u);
    }
    CommitKeepsHistory(s, t, s');
  }

  lemma CommitKeepsHistory(s: State, t: Tid, s': State)
    requires Inv(s) && t in s.txs && StepTx(s, Commit(t), t) == Some(s')
    ensures HistoryShape(s'.history) && Agrees(s'.meta, s'.history) && s'.nextEntryId == s.nextEntryId
    ensures forall i | 0 <= i < |s'.history| :: s'.history[i].id < s'.nextEntryId
  {
    var tx := s.txs[t];
    assert TxOk(s, t, tx);
    if tx.phase.Recorded? {
      AppendKeepsShape(s.meta, s.history, tx.req, tx.phase.row, tx.phase.entry);
    }
  }

  /** The committing transaction holds the lock, so no other has a change of its own. */
  lemma CommitKeepsOther(s: State, t: Tid, s': State, u: Tid)
    requires t in s.txs && u in s.txs && u != t
    requires TxOk(s, t, s.txs[t]) && TxOk(s, u, s.txs[u])
    requires StepTx(s, Commit(t), t) == Some(s')
    ensures TxOk(s', u, s'.txs[u])
  {
  }

  lemma AppendKeepsShape(meta: Option<MetaRow>, h: seq<Entry>, req: Request, row: MetaRow, entry: Entry)
    requires HistoryShape(h) && Agrees(meta, h) && Changed(meta, req) == Some(row)
    requires req.RegisterReq? || req.EvolveReq? ==> Valid(req.schema)
    requires entry.op == OpOf(req) && entry.schema == row.schema && 0 < entry.id
    requires forall i | 0 <= i < |h| :: h[i].id < entry.id
    ensures HistoryShape(h + [entry]) && Agrees(Some(row), h + [entry])
  {
    AppendAgrees(meta, h, req, row, entry);
    AppendExtendsShape(h, entry);
  }

  lemma AppendAgrees(meta: Option<MetaRow>, h: seq<Entry>, req: Request, row: MetaRow, entry: Entry)
    requires Agrees(meta, h) && Changed(meta, req) == Some(row)
    requires entry.op == OpOf(req) && entry.schema == row.schema
    ensures Agrees(Some(row), h + [entry])
    ensures entry.op == Register <==> h == []
    ensures h != [] ==> Last(h).op != Deprecate
    ensures entry.op == Deprecate ==> h != [] && entry.schema == Last(h).schema
  {
    assert (h + [entry])[..|h + [entry]| - 1] == h;
  }

  lemma AppendExtendsShape(h: seq<Entry>, entry: Entry)
    requires HistoryShape(h) && Valid(entry.schema) && 0 < entry.id
    requires entry.op == Register <==> h == []
    requires h != [] ==> Last(h).op != Deprecate
    requires entry.op == Deprecate ==> h != [] && entry.schema == Last(h).schema
    requires forall i | 0 <= i < |h| :: h[i].id < entry.id
    ensures HistoryShape(h + [entry])
  {
    var h' := h + [entry];
    assert h'[|h|] == entry && forall i | 0 <= i < |h| :: h'[i] == h[i];
  }

  /** A step of `t` that commits nothing. */
  lemma OthersKeep(s: State, s': State, t: Tid)
    requires Inv(s) && s'.meta == s.meta && s'.history == s.history && s'.nextEntryId >= s.nextEntryId
    requires s'.txs.Keys - {t} <= s.txs.Keys && forall u | u in s'.txs && u != t :: s'.txs[u] == s.txs[u]
    requires s.holder.Some? && s.holder.value != t ==> s'.holder == s.holder
    requires t in s'.txs ==> TxOk(s', t, s'.txs[t])
    ensures Inv(s')
  {
    forall u | u in s'.txs && u != t ensures TxOk(s', u, s'.txs[u]) {
      assert TxOk(s, u, s.txs[u]);
    }
  }

  lemma StepKeepsInv(s: State, e: Event, s': State)
    requires Inv(s) && Step(s, e) == Some(s')
    ensures Inv(s')
  {
    match e
    case Commit(t) => CommitKeepsInv(s, t, s');
    case OtherTypeRecords =>
      forall u | u in s'.txs ensures TxOk(s', u, s'.txs[u]) {
        assert TxOk(s, u, s.txs[u]);
      }
    case Begin(t, req, at) => OthersKeep(s, s', t);
    case _ => TxStepKeepsInv(s, e, e.t, s');
  }

  lemma TxStepKeepsInv(s: State, e: Event, t: Tid, s': State)
    requires Inv(s) && !e.Commit? && t in s.txs && StepTx(s, e, t) == Some(s')
    ensures Inv(s')
  {
    var tx := s.txs[t];
    assert TxOk(s, t, tx);
    if e.Record? { ChangedRecordsItsSchema(s.meta, tx.req, tx.phase.row); }
    OthersKeep(s, s', t);
  }

  lemma {:induction false} RunKeepsInv(s: State, run: seq<Event>)
    requires Inv(s) && Exec(Step, s, run).Some?
    ensures Inv(Exec(Step, s, run).value)
  {
    if run != [] {
      var n := |run| - 1;
      RunKeepsInv(s, run[..n]);
      StepKeepsInv(Exec(Step, s, run[..n]).value, run[n], Exec(Step, s, run).value);
    }
  }

  /** Transactions begin in time order, and an evolve begins after its type is there. A deprecate looks
      for the type only after it has begun, so its time is not bound to the registration's. */
  predicate HistoryTimes(history: seq<Entry>) {
    && (forall i | 0 <= i < |history| :: ZERO_TIME <= history[i].at)
    && (forall i | 0 < i < |history| && history[i].op == Evolve :: history[0].at <= history[i].at)
  }

  predicate TxTimes(s: State, tx: Tx) {
    && ZERO_TIME <= tx.at <= s.clock
    && (tx.req.EvolveReq? ==> s.history != [] && s.history[0].at <= tx.at)
    && (tx.phase.Recorded? ==> tx.phase.entry.at == tx.at && tx.phase.entry.op == OpOf(tx.req))
  }

  predicate Times(s: State) {
    && ZERO_TIME <= s.clock
    && HistoryTimes(s.history)
    && (s.history != [] ==> s.history[0].at <= s.clock)
    && forall t | t in s.txs :: TxTimes(s, s.txs[t])
  }

  lemma StepKeepsTimes(s: State, e: Event, s': State)
    requires Agrees(s.meta, s.history) && Times(s) && Step(s, e) == Some(s')
    ensures Times(s')
  {
    if e.Commit? {
      CommitKeepsTimes(s, e.t, s');
    } else {
      assert s'.history == s.history;
      forall t | t in s'.txs ensures TxTimes(s', s'.txs[t]) {
        assert t in s.txs ==> TxTimes(s, s.txs[t]);
      }
    }
  }

  lemma CommitKeepsTimes(s: State, t: Tid, s': State)
    requires Times(s) && t in s.txs && StepTx(s, Commit(t), t) == Some(s')
    ensures Times(s')
  {
    assert TxTimes(s, s.txs[t]);
    assert s.history != [] ==> s'.history[0] == s.history[0];
    forall i | 0 <= i < |s.history| ensures s'.history[i] == s.history[i] {}
    forall u | u in s'.txs ensures TxTimes(s', s'.txs[u]) {
      assert TxTimes(s, s.txs[u]);
    }
  }

  lemma {:induction false} RunKeepsTimes(s: State, run: seq<Event>)
    requires Inv(s) && Times(s) && Exec(Step, s, run).Some?
    ensures Times(Exec(Step, s, run).value)
  {
    if run != [] {
      var n := |run| - 1;
      RunKeepsInv(s, run[..n]);
      RunKeepsTimes(s, run[..n]);
      StepKeepsTimes(Exec(Step, s, run[..n]).value, run[n], Exec(Step, s, run).value);
    }
  }

  /** In every reachable state the history, in insertion order, has its shape and times and accounts for
      the current definition and version. */
  lemma EveryRunAgrees(run: seq<Event>)
    requires Exec(Step, INIT, run).Some?
    ensures var s := Exec(Step, INIT, run).value;
            HistoryShape(s.history) && HistoryTimes(s.history) && Agrees(s.meta, s.history)
  {
    RunKeepsInv(INIT, run);
    RunKeepsTimes(INIT, run);
  }

  lemma {:induction false} ShapeCountsEvolves(h: seq<Entry>)
    requires HistoryShape(h) && h != []
    ensures 1 + Evolves(h) == if h[|h| - 1].op == Deprecate && |h| > 1 then |h| - 1 else |h|
  {
    var n := |h| - 1;
    if n > 0 {
      assert forall i | 0 <= i < n :: h[..n][i] == h[i];
      assert h[n - 1].op != Deprecate && h[n].op != Register;
      ShapeCountsEvolves(h[..n]);
    } else {
      assert h[..0] == [] && Evolves(h[..0]) == 0;
    }
  }

  /** The version of a type is the length of its history, in which a deprecate does not count. */
  lemma VersionIsHistoryLength(run: seq<Event>)
    requires Exec(Step, INIT, run).Some? && Exec(Step, INIT, run).value.meta.Some?
    ensures var s := Exec(Step, INIT, run).value;
            s.meta.value.version == if s.meta.value.deprecated then |s.history| - 1 else |s.history|
  {
    EveryRunAgrees(run);
    ShapeCountsEvolves(Exec(Step, INIT, run).value.history);
  }

  /** Every schema in the history is one that registration and evolution accept. */
  lemma EverySchemaIsValid(run: seq<Event>, i: nat)
    requires Exec(Step, INIT, run).Some? && i < |Exec(Step, INIT, run).value.history|
    ensures var schema := Exec(Step, INIT, run).value.history[i].schema;
            WellFormed(schema.fields) && UniqueOk(schema.fields, schema.unique)
  {
    EveryRunAgrees(run);
  }

  // ---------- the optimistic lock of evolutions ----------

  /** What a request commits: a register founds the type, an evolve names the version in force and brings
      its own schema, a deprecate ends an active type and keeps its schema. */
  lemma CommitFitsHistory(run: seq<Event>, t: Tid, s': State)
    requires Exec(Step, INIT, run).Some? && t in Exec(Step, INIT, run).value.txs
    requires Step(Exec(Step, INIT, run).value, Commit(t)) == Some(s')
    requires s'.history != Exec(Step, INIT, run).value.history
    ensures var h, req := Exec(Step, INIT, run).value.history, Exec(Step, INIT, run).value.txs[t].req;
            && |s'.history| == |h| + 1 && h <= s'.history
            && var e := s'.history[|h|];
               && (req.RegisterReq? ==> h == [] && e.op == Register && e.schema == req.schema)
               && (req.EvolveReq? ==> h != [] && h[|h| - 1].op != Deprecate && req.version == 1 + Evolves(h)
                                      && e.op == Evolve && e.schema == req.schema)
               && (req.DeprecateReq? ==> h != [] && h[|h| - 1].op != Deprecate
                                         && e.op == Deprecate && e.schema == h[|h| - 1].schema)
  {
    RunKeepsInv(INIT, run);
    var s := Exec(Step, INIT, run).value;
    assert TxOk(s, t, s.txs[t]);
  }

  lemma {:induction false} EvolvesGrow(h: seq<Entry>, longer: seq<Entry>)
    requires h <= longer
    ensures Evolves(h) <= Evolves(longer)
  {
    if |h| < |longer| {
      assert h <= longer[..|longer| - 1];
      EvolvesGrow(h, longer[..|longer| - 1]);
    } else {
      assert h == longer;
    }
  }

  /** Event `i` of the run commits an evolve that named `version`. */
  ghost predicate EvolveCommits(run: seq<Event>, i: nat, version: int) {
    && i < |run| && run[i].Commit? && Exec(Step, INIT, run[..i]).Some? && Exec(Step, INIT, run[..i + 1]).Some?
    && var s := Exec(Step, INIT, run[..i]).value;
       && run[i].t in s.txs && s.txs[run[i].t].req.EvolveReq? && s.txs[run[i].t].req.version == version
       && Exec(Step, INIT, run[..i + 1]).value.history != s.history
  }

  /** No lost evolution: of two committed evolves the later one named a higher version, so no two of
      them had started from the same one. */
  lemma EvolvesNameRisingVersions(run: seq<Event>, i: nat, j: nat, v: int, w: int)
    requires Exec(Step, INIT, run).Some? && i < j && EvolveCommits(run, i, v) && EvolveCommits(run, j, w)
    ensures v < w
  {
    StepOfRun(Step, INIT, run, i);
    StepOfRun(Step, INIT, run, j);
    var before, after, later := Exec(Step, INIT, run[..i]).value, Exec(Step, INIT, run[..i + 1]).value,
                                Exec(Step, INIT, run[..j]).value;
    CommitFitsHistory(run[..i], run[i].t, after);
    CommitFitsHistory(run[..j], run[j].t, Exec(Step, INIT, run[..j + 1]).value);
    assert after.history[..|after.history| - 1] == before.history;
    HistoryBetween(run, i + 1, j);
    EvolvesGrow(after.history, later.history);
  }

  lemma HistoryBetween(run: seq<Event>, i: nat, j: nat)
    requires i <= j <= |run| && Exec(Step, INIT, run).Some?
    ensures Exec(Step, INIT, run[..i]).Some? && Exec(Step, INIT, run[..j]).Some?
    ensures Exec(Step, INIT, run[..i]).value.history <= Exec(Step, INIT, run[..j]).value.history
  {
    PrefixRuns(Step, INIT, run, i);
    PrefixRuns(Step, INIT, run, j);
    assert run[..j] == run[..i] + run[i..j];
    ExecSplit(Step, INIT, run[..i], run[i..j]);
    HistoryIsAppendOnly(Exec(Step, INIT, run[..i]).value, run[i..j]);
  }

  /** A deprecated type is final: nothing that runs later changes its row or its history. */
  lemma {:induction false} DeprecatedIsFinal(s: State, run: seq<Event>)
    requires Inv(s) && s.meta.Some? && s.meta.value.deprecated && Exec(Step, s, run).Some?
    ensures Exec(Step, s, run).value.meta == s.meta && Exec(Step, s, run).value.history == s.history
  {
    if run != [] {
      var n := |run| - 1;
      DeprecatedIsFinal(s, run[..n]);
      RunKeepsInv(s, run[..n]);
      var r := Exec(Step, s, run[..n]).value;
      var e := run[n];
      if e.Commit? { assert TxOk(r, e.t, r.txs[e.t]); }
    }
  }

  lemma StepAppends(s: State, e: Event, s': State)
    requires Step(s, e) == Some(s')
    ensures s.history <= s'.history
  {
  }

  /** Committed history never shrinks or changes. */
  lemma {:induction false} HistoryIsAppendOnly(s: State, run: seq<Event>)
    requires Exec(Step, s, run).Some?
    ensures s.history <= Exec(Step, s, run).value.history
  {
    if run != [] {
      HistoryIsAppendOnly(s, run[..|run| - 1]);
    }
  }

  // ---------- the order in which history is listed ----------

  /** ORDER BY created_at DESC, id DESC. */
  predicate ListedBefore(a: Entry, b: Entry) {
    a.at > b.at || (a.at == b.at && a.id > b.id)
  }

  /** The listing is newest change first exactly when the changes' transactions began in commit order. */
  lemma ListingIsChangeOrderIff(run: seq<Event>)
    requires Exec(Step, INIT, run).Some?
    ensures var h := Exec(Step, INIT, run).value.history;
            (forall i, j | 0 <= i < j < |h| :: ListedBefore(h[j], h[i]))
            <==> (forall i, j | 0 <= i < j < |h| :: h[i].at <= h[j].at)
  {
    RunKeepsInv(INIT, run);
    var h := Exec(Step, INIT, run).value.history;
    forall i, j | 0 <= i < j < |h| ensures ListedBefore(h[j], h[i]) <==> h[i].at <= h[j].at {
      assert h[i].id < h[j].id;
    }
  }

  /** No evolve is listed below the registration. */
  lemma EvolvesListedAboveRegister(run: seq<Event>, i: nat)
    requires Exec(Step, INIT, run).Some? && i < |Exec(Step, INIT, run).value.history|
    requires Exec(Step, INIT, run).value.history[i].op == Evolve
    ensures var h := Exec(Step, INIT, run).value.history; ListedBefore(h[i], h[0])
  {
    EveryRunAgrees(run);
    var h := Exec(Step, INIT, run).value.history;
    assert h[0].id < h[i].id;
  }
}
