/** The registry and the type table together. A data transaction validates against a definition that it
    read before it began, so what its rows satisfy is stated against the history of the type. */
module Joined {
  import opened Types
  import opened Validation
  import opened Compat
  import opened Atomic
  import opened Runs
  import Engine
  import EngineProof
  import Registry

  type Tid = nat

  /** `gates` holds the schema each writer has read and not yet used. */
  datatype State = State(registry: Registry.State, table: Engine.State, gates: map<Tid, seq<Field>>)

  datatype Event =
    | RegistryStep(r: Registry.Event)
    | Gate(t: Tid)
    | TableStep(e: Engine.Event)

  const INIT: State := State(Registry.INIT, Engine.Init(map[], 1), map[])

  predicate WritesContent(op: Op) { op.InsertOp? || op.UpdateOp? || op.ImportOp? }

  /** A content write begins with the schema its gate read; the gate refuses a deprecated type. */
  ghost predicate MayBegin(s: State, e: Engine.Event) {
    e.Begin? && WritesContent(e.op) ==> e.t in s.gates && e.op.fields == s.gates[e.t]
  }

  ghost function Step(s: State, e: Event): Option<State> {
    match e
    case RegistryStep(r) =>
      (match Registry.Step(s.registry, r)
       case Some(r') => Some(s.(registry := r'))
       case None => None)
    case Gate(t) =>
      var meta := s.registry.meta;
      if meta.Some? && !meta.value.deprecated
      then Some(s.(gates := s.gates[t := meta.value.schema.fields])) else None
    case TableStep(d) =>
      if !MayBegin(s, d) then None
      else match Engine.Step(s.table, d)
           case Some(t') => Some(s.(table := t'))
           case None => None
  }

  /** `fields` was the schema of the type at some point of its history. */
  predicate InHistory(history: seq<Registry.Entry>, fields: seq<Field>) {
    exists i | 0 <= i < |history| :: history[i].schema.fields == fields
  }

  ghost predicate RowInHistory(history: seq<Registry.Entry>, data: Data) {
    exists i | 0 <= i < |history| :: Conforms(history[i].schema.fields, data)
  }

  predicate OpInHistory(history: seq<Registry.Entry>, op: Op) {
    WritesContent(op) ==> InHistory(history, op.fields)
  }

  ghost predicate Inv(s: State) {
    var h := s.registry.history;
    && Registry.Inv(s.registry)
    && EngineProof.Inv(map[], s.table)
    && (forall t | t in s.gates :: InHistory(h, s.gates[t]))
    && (forall t | t in s.table.txs :: OpInHistory(h, s.table.txs[t].op))
    && (forall i | 0 <= i < |s.table.log| :: OpInHistory(h, s.table.log[i]))
  }

  lemma HistoryGrows(h: seq<Registry.Entry>, h': seq<Registry.Entry>, fields: seq<Field>)
    requires h <= h' && InHistory(h, fields)
    ensures InHistory(h', fields)
  {
    var i :| 0 <= i < |h| && h[i].schema.fields == fields;
    assert h'[i] == h[i];
  }

  lemma RegistryStepKeepsInv(s: State, r: Registry.Event, s': State)
    requires Inv(s) && Step(s, RegistryStep(r)) == Some(s')
    ensures Inv(s')
  {
    Registry.StepKeepsInv(s.registry, r, s'.registry);
    var h, h' := s.registry.history, s'.registry.history;
    Registry.StepAppends(s.registry, r, s'.registry);
    forall t | t in s.gates ensures InHistory(h', s.gates[t]) {
      HistoryGrows(h, h', s.gates[t]);
    }
    forall t | t in s.table.txs ensures OpInHistory(h', s.table.txs[t].op) {
      if WritesContent(s.table.txs[t].op) { HistoryGrows(h, h', s.table.txs[t].op.fields); }
    }
    forall i | 0 <= i < |s.table.log| ensures OpInHistory(h', s.table.log[i]) {
      if WritesContent(s.table.log[i]) { HistoryGrows(h, h', s.table.log[i].fields); }
    }
  }

  lemma TableStepKeepsInv(s: State, d: Engine.Event, s': State)
    requires Inv(s) && Step(s, TableStep(d)) == Some(s')
    ensures Inv(s')
  {
    EngineProof.StepKeepsInv(map[], s.table, d, s'.table);
    EngineProof.StepOps(s.table, d, s'.table);
    var h := s.registry.history;
    forall t | t in s'.table.txs ensures OpInHistory(h, s'.table.txs[t].op) {
      if t in s.table.txs { assert OpInHistory(h, s.table.txs[t].op); }
    }
    forall i | 0 <= i < |s'.table.log| ensures OpInHistory(h, s'.table.log[i]) {
      if i < |s.table.log| { assert OpInHistory(h, s.table.log[i]); }
    }
  }

  lemma {:induction false} RunKeepsInv(run: seq<Event>)
    requires Exec(Step, INIT, run).Some?
    ensures Inv(Exec(Step, INIT, run).value)
  {
    if run == [] {
      EngineProof.InitInv(map[], 1);
    } else {
      var n := |run| - 1;
      RunKeepsInv(run[..n]);
      var s, s' := Exec(Step, INIT, run[..n]).value, Exec(Step, INIT, run).value;
      match run[n]
      case RegistryStep(r) => RegistryStepKeepsInv(s, r, s');
      case TableStep(d) => TableStepKeepsInv(s, d, s');
      case Gate(t) => assert InHistory(s.registry.history, s'.gates[t]) by {
        assert Registry.Last(s.registry.history).schema.fields == s'.gates[t];
      }
    }
  }

  /** Replaying operations that each validated against some schema of the history leaves only rows that
      conform to some schema of the history. */
  lemma {:induction false} ReplayConforms(h: seq<Registry.Entry>, log: seq<Op>)
    requires Replay(map[], log).Some? && forall i | 0 <= i < |log| :: OpInHistory(h, log[i])
    ensures forall id | id in Replay(map[], log).value :: RowInHistory(h, Replay(map[], log).value[id].data)
  {
    if log != [] {
      var n := |log| - 1;
      ReplayConforms(h, log[..n]);
      var rows, op, rows' := Replay(map[], log[..n]).value, log[n], Replay(map[], log).value;
      forall id | id in rows' ensures RowInHistory(h, rows'[id].data) {
        ApplyConforms(h, rows, op, id);
      }
    }
  }

  lemma ApplyConforms(h: seq<Registry.Entry>, rows: Rows, op: Op, id: int)
    requires OpInHistory(h, op) && Apply(rows, op).Some? && id in Apply(rows, op).value
    requires forall k | k in rows :: RowInHistory(h, rows[k].data)
    ensures RowInHistory(h, Apply(rows, op).value[id].data)
  {
    if WritesContent(op) {
      var i :| 0 <= i < |h| && h[i].schema.fields == op.fields;
      if op.ImportOp? {
        LoadIsFile(op.file, op.now);
        var j :| 0 <= j < |op.file| && op.file[j].id == id;
        assert FileRowOk(op.fields, op.file[j]);
        assert Conforms(h[i].schema.fields, Apply(rows, op).value[id].data);
      } else if op.id == id {
        assert Conforms(h[i].schema.fields, Apply(rows, op).value[id].data);
      }
    }
  }

  /** In every reachable state, whatever registrations, evolutions, deprecations and data transactions
      interleave, each stored row validates under some schema recorded in the type's history. */
  lemma EveryRowConformsToHistory(run: seq<Event>)
    requires Exec(Step, INIT, run).Some?
    ensures var s := Exec(Step, INIT, run).value;
            forall id | id in s.table.rows :: RowInHistory(s.registry.history, s.table.rows[id].data)
  {
    RunKeepsInv(run);
    var s := Exec(Step, INIT, run).value;
    ReplayConforms(s.registry.history, s.table.log);
  }

  /** Compatible evolutions carry a row from any schema of the history to the last. */
  lemma {:induction false} CompatibleChain(h: seq<Registry.Entry>, i: nat, data: Data)
    requires i < |h| && Registry.HistoryShape(h) && Conforms(h[i].schema.fields, data)
    requires forall k | i < k < |h| :: Compatible(h[k - 1].schema.fields, h[k].schema.fields)
    ensures Conforms(Registry.Last(h).schema.fields, data)
    decreases |h| - i
  {
    if i < |h| - 1 {
      assert Registry.Valid(h[i].schema) && Registry.Valid(h[i + 1].schema);
      assert Compatible(h[i + 1 - 1].schema.fields, h[i + 1].schema.fields);
      CompatibleKeepsRows(h[i].schema.fields, h[i + 1].schema.fields, data);
      CompatibleChain(h, i + 1, data);
    }
  }

  predicate AllCompatible(h: seq<Registry.Entry>) {
    forall k | 0 < k < |h| :: Compatible(h[k - 1].schema.fields, h[k].schema.fields)
  }

  lemma RowReachesLast(h: seq<Registry.Entry>, data: Data)
    requires Registry.HistoryShape(h) && AllCompatible(h) && RowInHistory(h, data)
    ensures h != [] && Conforms(Registry.Last(h).schema.fields, data)
  {
    var i :| 0 <= i < |h| && Conforms(h[i].schema.fields, data);
    CompatibleChain(h, i, data);
  }

  /** The documented "compatible evolution needs no migration", under all interleavings: if every
      evolution was compatible, every stored row validates under the current schema. */
  lemma CompatibleEvolutionsNeedNoMigration(run: seq<Event>, id: int)
    requires Exec(Step, INIT, run).Some? && AllCompatible(Exec(Step, INIT, run).value.registry.history)
    requires id in Exec(Step, INIT, run).value.table.rows
    ensures var s := Exec(Step, INIT, run).value;
            s.registry.meta.Some? && Conforms(s.registry.meta.value.schema.fields, s.table.rows[id].data)
  {
    RunKeepsInv(run);
    EveryRowConformsToHistory(run);
    var s := Exec(Step, INIT, run).value;
    RowReachesLast(s.registry.history, s.table.rows[id].data);
  }
}
