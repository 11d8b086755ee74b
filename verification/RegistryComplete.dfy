/** Which histories a type can have: exactly those of the registry's shape and times. */
module RegistryComplete {
  import opened Types
  import opened Runs
  import opened Validation
  import opened Registry

  /** The metadata row that a history accounts for. */
  function RowOf(h: seq<Entry>): Option<MetaRow> {
    if h == [] then None
    else Some(MetaRow(Last(h).schema, Last(h).op == Deprecate, 1 + Evolves(h)))
  }

  /** The request that writes `e` after `h`. */
  function RequestFor(h: seq<Entry>, e: Entry): Request {
    match e.op
    case Register => RegisterReq(e.schema)
    case Evolve => EvolveReq(e.schema, 1 + Evolves(h))
    case Deprecate => DeprecateReq
  }

  lemma RequestFits(h: seq<Entry>, e: Entry)
    requires HistoryShape(h + [e])
    ensures Changed(RowOf(h), RequestFor(h, e)) == RowOf(h + [e])
    ensures e.op == Deprecate ==> RowOf(h).Some? && !RowOf(h).value.deprecated
  {
    var h' := h + [e];
    assert h'[..|h'| - 1] == h;
    assert forall i | 0 <= i < |h| :: h'[i] == h[i];
    assert h'[|h|] == e;
    assert |h| > 0 ==> Last(h) == h'[|h| - 1] && Last(h).op != Deprecate;
    assert h == [] ==> Evolves(h) == 0;
  }

  // ---------- a waiting transaction runs to its end ----------

  /** Transaction `i` is about to write `e` after `h`; others may have begun. */
  predicate AtTurn(s: State, i: Tid, h: seq<Entry>, e: Entry) {
    && s.history == h && s.meta == RowOf(h) && s.holder.None? && s.nextEntryId == e.id
    && i in s.txs && s.txs[i] == Tx(RequestFor(h, e), e.at, Begun)
  }

  function InPhase(s: State, i: Tid, h: seq<Entry>, e: Entry, phase: Phase): State {
    s.(holder := Some(i), txs := s.txs[i := Tx(RequestFor(h, e), e.at, phase)])
  }

  function Written(s: State, i: Tid, h: seq<Entry>, e: Entry): State {
    s.(meta := RowOf(h + [e]), history := h + [e], nextEntryId := e.id + 1, txs := s.txs - {i})
  }

  lemma MetaChanges(s0: State, s: State, i: Tid, h: seq<Entry>, e: Entry)
    requires HistoryShape(h + [e]) && AtTurn(s, i, h, e) && Can(Step, s0, s)
    ensures Can(Step, s0, InPhase(s, i, h, e, Moved(RowOf(h + [e]).value)))
  {
    RequestFits(h, e);
    var req, moved := RequestFor(h, e), InPhase(s, i, h, e, Moved(RowOf(h + [e]).value));
    if req.DeprecateReq? {
      var looked := s.(txs := s.txs[i := Tx(req, e.at, Read)]);
      CanThen(Step, s0, s, ReadStatus(i), looked);
      assert Step(looked, ChangeMeta(i)).value.txs == moved.txs;
      CanThen(Step, s0, looked, ChangeMeta(i), moved);
    } else {
      CanThen(Step, s0, s, ChangeMeta(i), moved);
    }
  }

  lemma EntryRuns(s0: State, s: State, i: Tid, h: seq<Entry>, e: Entry)
    requires HistoryShape(h + [e]) && AtTurn(s, i, h, e) && Can(Step, s0, s)
    ensures Can(Step, s0, Written(s, i, h, e))
  {
    MetaChanges(s0, s, i, h, e);
    var row := RowOf(h + [e]).value;
    var recorded := InPhase(s, i, h, e, Recorded(row, e)).(nextEntryId := e.id + 1);
    RecordStep(s, i, h, e, row);
    CanThen(Step, s0, InPhase(s, i, h, e, Moved(row)), Record(i), recorded);
    CommitStep(s, i, h, e, row);
    CanThen(Step, s0, recorded, Commit(i), Written(s, i, h, e));
  }

  lemma RecordStep(s: State, i: Tid, h: seq<Entry>, e: Entry, row: MetaRow)
    requires s.nextEntryId == e.id && row.schema == e.schema
    ensures Step(InPhase(s, i, h, e, Moved(row)), Record(i))
         == Some(InPhase(s, i, h, e, Recorded(row, e)).(nextEntryId := e.id + 1))
  {
    assert Step(InPhase(s, i, h, e, Moved(row)), Record(i)).value.txs == InPhase(s, i, h, e, Recorded(row, e)).txs;
  }

  lemma CommitStep(s: State, i: Tid, h: seq<Entry>, e: Entry, row: MetaRow)
    requires s.history == h && s.holder.None? && RowOf(h + [e]) == Some(row)
    ensures Step(InPhase(s, i, h, e, Recorded(row, e)).(nextEntryId := e.id + 1), Commit(i))
         == Some(Written(s, i, h, e))
  {
    assert InPhase(s, i, h, e, Recorded(row, e)).txs - {i} == s.txs - {i};
  }

  // ---------- one schedule for a whole history ----------

  /** The first `k` entries of `h` are committed, and the transactions of the entries in `begun` wait. */
  function Waiting(h: seq<Entry>, k: nat, nextEntryId: int, begun: set<nat>, clock: Time): State
    requires k <= |h| && forall i | i in begun :: i < |h|
  {
    State(RowOf(h[..k]), h[..k], nextEntryId, None,
          map i | i in begun :: Tx(RequestFor(h[..i], h[i]), h[i].at, Begun), clock)
  }

  lemma EntryBegins(s0: State, h: seq<Entry>, k: nat, next: int, begun: set<nat>, clock: Time, i: nat)
    requires k <= |h| && i < |h| && i !in begun && clock <= h[i].at && (forall j | j in begun :: j < |h|)
    requires MayBegin(Waiting(h, k, next, begun, clock), RequestFor(h[..i], h[i]))
    requires Can(Step, s0, Waiting(h, k, next, begun, clock))
    ensures Can(Step, s0, Waiting(h, k, next, begun + {i}, h[i].at))
  {
    var s, s' := Waiting(h, k, next, begun, clock), Waiting(h, k, next, begun + {i}, h[i].at);
    var e := Begin(i, RequestFor(h[..i], h[i]), h[i].at);
    assert Step(s, e).value.txs == s'.txs;
    CanThen(Step, s0, s, e, s');
  }

  /** Ids that other types have used. */
  lemma {:induction false} IdsPass(s0: State, s: State, goal: int)
    requires s.nextEntryId <= goal && Can(Step, s0, s)
    ensures Can(Step, s0, s.(nextEntryId := goal))
    decreases goal - s.nextEntryId
  {
    if s.nextEntryId < goal {
      var s' := s.(nextEntryId := s.nextEntryId + 1);
      CanThen(Step, s0, s, OtherTypeRecords, s');
      IdsPass(s0, s', goal);
    }
  }

  function NextIdAfter(h: seq<Entry>, k: nat): int
    requires k <= |h|
  {
    if k == 0 then 1 else h[k - 1].id + 1
  }

  lemma PrefixShape(h: seq<Entry>, k: nat)
    requires HistoryShape(h) && k <= |h|
    ensures HistoryShape(h[..k])
  {
  }

  lemma WaitingIsAtTurn(h: seq<Entry>, k: nat, begun: set<nat>, clock: Time)
    requires k < |h| && k in begun && forall j | j in begun :: j < |h|
    ensures AtTurn(Waiting(h, k, h[k].id, begun, clock), k, h[..k], h[k])
  {
  }

  lemma WrittenIsWaiting(h: seq<Entry>, k: nat, begun: set<nat>, clock: Time)
    requires k < |h| && k in begun && forall j | j in begun :: j < |h|
    ensures Written(Waiting(h, k, h[k].id, begun, clock), k, h[..k], h[k])
         == Waiting(h, k + 1, h[k].id + 1, begun - {k}, clock)
  {
    assert h[..k + 1] == h[..k] + [h[k]];
    assert Waiting(h, k, h[k].id, begun, clock).txs - {k} == Waiting(h, k + 1, h[k].id + 1, begun - {k}, clock).txs;
  }

  lemma NextIdFits(h: seq<Entry>, k: nat)
    requires HistoryShape(h) && k < |h|
    ensures NextIdAfter(h, k) <= h[k].id && HistoryShape(h[..k] + [h[k]])
  {
    assert h[..k + 1] == h[..k] + [h[k]];
    PrefixShape(h, k + 1);
  }

  lemma EntryEnds(s0: State, h: seq<Entry>, k: nat, begun: set<nat>, clock: Time)
    requires HistoryShape(h) && k < |h| && k in begun && forall j | j in begun :: j < |h|
    requires Can(Step, s0, Waiting(h, k, NextIdAfter(h, k), begun, clock))
    ensures Can(Step, s0, Waiting(h, k + 1, NextIdAfter(h, k + 1), begun - {k}, clock))
  {
    NextIdFits(h, k);
    IdsPass(s0, Waiting(h, k, NextIdAfter(h, k), begun, clock), h[k].id);
    var s := Waiting(h, k, h[k].id, begun, clock);
    WaitingIsAtTurn(h, k, begun, clock);
    EntryRuns(s0, s, k, h[..k], h[k]);
    WrittenIsWaiting(h, k, begun, clock);
  }

  /** The waiting transactions commit in history order. */
  lemma {:induction false} EntriesEnd(s0: State, h: seq<Entry>, k: nat, begun: set<nat>, clock: Time)
    requires HistoryShape(h) && k <= |h| && begun == Range(k, |h|)
    requires Can(Step, s0, Waiting(h, k, NextIdAfter(h, k), begun, clock))
    ensures Can(Step, s0, Waiting(h, |h|, NextIdAfter(h, |h|), {}, clock))
    decreases |h| - k
  {
    if k < |h| {
      EntryEnds(s0, h, k, begun, clock);
      EntriesEnd(s0, h, k + 1, begun - {k}, clock);
    } else {
      assert begun == {};
    }
  }

  function Range(a: nat, b: nat): (r: set<nat>)
    ensures forall j: nat :: j in r <==> a <= j < b
    decreases b - a
  {
    if a >= b then {} else {a} + Range(a + 1, b)
  }

  function Earliest(h: seq<Entry>, todo: set<nat>, upTo: nat): (i: nat)
    requires upTo <= |h| && (forall j | j in todo :: j < upTo) && todo != {}
    ensures i in todo && forall j | j in todo :: h[i].at <= h[j].at
  {
    var last := upTo - 1;
    if last !in todo then Earliest(h, todo, last)
    else if todo == {last} then last
    else
      var i := Earliest(h, todo - {last}, last);
      if h[i].at <= h[last].at then i else last
  }

  /** The type is registered; everything else begins in the order of its times. */
  lemma {:induction false} RestBegins(s0: State, h: seq<Entry>, begun: set<nat>, todo: set<nat>, clock: Time)
      returns (end: Time)
    requires HistoryShape(h) && 0 < |h| && begun !! todo && (forall j | j in begun :: 0 < j < |h|)
    requires forall j | j in todo :: 0 < j < |h| && clock <= h[j].at
    requires Can(Step, s0, Waiting(h, 1, NextIdAfter(h, 1), begun, clock))
    ensures Can(Step, s0, Waiting(h, 1, NextIdAfter(h, 1), begun + todo, end))
    decreases |todo|
  {
    if todo == {} {
      assert begun + todo == begun;
      end := clock;
    } else {
      var i := Earliest(h, todo, |h|);
      assert h[..1] == [h[0]];
      EntryBegins(s0, h, 1, NextIdAfter(h, 1), begun, clock, i);
      assert begun + {i} + (todo - {i}) == begun + todo;
      end := RestBegins(s0, h, begun + {i}, todo - {i}, h[i].at);
    }
  }

  /** The deprecate begins before the registration when its time says so. */
  predicate DeprecateFirst(h: seq<Entry>) {
    |h| > 1 && Last(h).op == Deprecate && Last(h).at < h[0].at
  }

  lemma RegistrationRuns(h: seq<Entry>)
    requires HistoryShape(h) && HistoryTimes(h) && h != []
    ensures var begun: set<nat> := if DeprecateFirst(h) then {|h| - 1} else {};
            Can(Step, INIT, Waiting(h, 1, NextIdAfter(h, 1), begun, h[0].at))
  {
    var n := |h| - 1;
    CanStay(Step, INIT);
    assert Waiting(h, 0, 1, {}, ZERO_TIME) == INIT;
    if DeprecateFirst(h) {
      EntryBegins(INIT, h, 0, 1, {}, ZERO_TIME, n);
      assert {} + {n} == {n};
      EntryBegins(INIT, h, 0, 1, {n}, h[n].at, 0);
      assert {n} + {0} - {0} == {n};
      EntryEnds(INIT, h, 0, {n} + {0}, h[0].at);
    } else {
      EntryBegins(INIT, h, 0, 1, {}, ZERO_TIME, 0);
      assert {} + {0} - {0} == {};
      EntryEnds(INIT, h, 0, {} + {0}, h[0].at);
    }
  }

  lemma ShapedHistoryRuns(h: seq<Entry>)
    requires HistoryShape(h) && HistoryTimes(h)
    ensures exists s :: Can(Step, INIT, s) && s.history == h
  {
    if h == [] {
      CanStay(Step, INIT);
    } else {
      var begun: set<nat> := if DeprecateFirst(h) then {|h| - 1} else {};
      var todo := Range(1, |h|) - begun;
      RegistrationRuns(h);
      var clock := RestBegins(INIT, h, begun, todo, h[0].at);
      assert begun + todo == Range(1, |h|);
      EntriesEnd(INIT, h, 1, begun + todo, clock);
      assert h[..|h|] == h;
    }
  }

  ghost predicate CanHappen(h: seq<Entry>) {
    exists run: seq<Event> :: Exec(Step, INIT, run).Some? && Exec(Step, INIT, run).value.history == h
  }

  /** Some run commits the history `h` if and only if, in insertion order, it is one register, then
      evolves, then at most one deprecate that repeats the schema it ends, all of them valid, and no evolve
      began before the registration. */
  lemma HistoriesExactly(h: seq<Entry>)
    ensures CanHappen(h) <==> HistoryShape(h) && HistoryTimes(h)
  {
    if CanHappen(h) {
      var run: seq<Event> :| Exec(Step, INIT, run).Some? && Exec(Step, INIT, run).value.history == h;
      EveryRunAgrees(run);
    }
    if HistoryShape(h) && HistoryTimes(h) {
      ShapedHistoryRuns(h);
      var s :| Can(Step, INIT, s) && s.history == h;
      var run: seq<Event> :| Exec(Step, INIT, run) == Some(s);
    }
  }

  lemma RegistrationCanHappen(schema: Schema) returns (run: seq<Event>)
    requires WellFormed(schema.fields) && UniqueOk(schema.fields, schema.unique)
    ensures Exec(Step, INIT, run).Some? && Exec(Step, INIT, run).value.meta == Some(MetaRow(schema, false, 1))
  {
    var h := [Entry(1, Register, schema, ZERO_TIME)];
    HistoriesExactly(h);
    run :| Exec(Step, INIT, run).Some? && Exec(Step, INIT, run).value.history == h;
    EveryRunAgrees(run);
    assert h[..0] == [] && Evolves(h[..0]) == 0 && Evolves(h) == 0;
    assert Last(h) == h[0];
  }

  /** The listing can come out wrong: a deprecate that commits last, and records the evolved schema, can be
      listed below that evolve, and even below the registration. */
  lemma ListingCanInvertChanges(a: Schema, b: Schema, at: Time)
    requires Valid(a) && Valid(b) && ZERO_TIME < at
    ensures var register, evolve := Entry(1, Register, a, at), Entry(2, Evolve, b, at + 2);
            var late, early := Entry(3, Deprecate, b, at + 1), Entry(3, Deprecate, b, at - 1);
            && CanHappen([register, evolve, late]) && ListedBefore(evolve, late)
            && CanHappen([register, evolve, early]) && ListedBefore(register, early)
  {
    var register, evolve := Entry(1, Register, a, at), Entry(2, Evolve, b, at + 2);
    HistoriesExactly([register, evolve, Entry(3, Deprecate, b, at + 1)]);
    HistoriesExactly([register, evolve, Entry(3, Deprecate, b, at - 1)]);
  }
}
