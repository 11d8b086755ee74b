/** When the gate opens, and that the joined system can hold every row that a schema allows. */
module JoinedComplete {
  import opened Types
  import opened Validation
  import opened Atomic
  import opened Runs
  import opened Joined
  import Engine
  import EngineProof
  import Registry
  import RegistryComplete

  ghost function StateAfter(run: seq<Event>): State
    requires Exec(Step, INIT, run).Some?
  {
    Exec(Step, INIT, run).value
  }

  /** The gate of a content write lets through exactly the types that are registered and not deprecated,
      and hands the writer the fields of the last schema. */
  lemma GateOpensIff(run: seq<Event>, t: Tid)
    requires Exec(Step, INIT, run).Some?
    ensures var h := StateAfter(run).registry.history;
            && (Exec(Step, INIT, run + [Gate(t)]).Some? <==> h != [] && h[|h| - 1].op != Registry.Deprecate)
            && (Exec(Step, INIT, run + [Gate(t)]).Some? ==>
                  && t in StateAfter(run + [Gate(t)]).gates
                  && StateAfter(run + [Gate(t)]).gates[t] == h[|h| - 1].schema.fields)
  {
    RunKeepsInv(run);
    ExecStep(Step, INIT, run, Gate(t));
  }

  /** A content write begins only with the fields that its own gate has handed over. */
  lemma ContentWriteNeedsGate(run: seq<Event>, t: Tid, op: Op)
    requires Exec(Step, INIT, run).Some? && (op.InsertOp? || op.UpdateOp? || op.ImportOp?)
    requires Exec(Step, INIT, run + [TableStep(Engine.Begin(t, op))]).Some?
    ensures t in StateAfter(run).gates && op.fields == StateAfter(run).gates[t]
  {
    ExecStep(Step, INIT, run, TableStep(Engine.Begin(t, op)));
  }

  /** Soft delete and restore need no gate: they begin on deprecated types too. */
  lemma LifecycleNeedsNoGate(run: seq<Event>, t: Tid, op: Op)
    requires Exec(Step, INIT, run).Some? && (op.DeleteOp? || op.RestoreOp?)
    ensures Exec(Step, INIT, run + [TableStep(Engine.Begin(t, op))]).Some? <==> t !in StateAfter(run).table.txs
  {
    ExecStep(Step, INIT, run, TableStep(Engine.Begin(t, op)));
  }

  // ---------- tables that hold rows ----------

  lemma {:induction false} RegistryRuns(s: State, run: seq<Registry.Event>)
    requires Exec(Registry.Step, s.registry, run).Some?
    ensures Can(Step, s, s.(registry := Exec(Registry.Step, s.registry, run).value))
  {
    if run == [] {
      CanStay(Step, s);
    } else {
      var n := |run| - 1;
      RegistryRuns(s, run[..n]);
      CanThen(Step, s, s.(registry := Exec(Registry.Step, s.registry, run[..n]).value), RegistryStep(run[n]),
              s.(registry := Exec(Registry.Step, s.registry, run).value));
    }
  }

  lemma TypeCanBeRegistered(schema: Registry.Schema) returns (s: State)
    requires WellFormed(schema.fields) && UniqueOk(schema.fields, schema.unique)
    ensures Can(Step, INIT, s) && s == INIT.(registry := s.registry)
    ensures s.registry.meta == Some(Registry.MetaRow(schema, false, 1))
  {
    var run := RegistryComplete.RegistrationCanHappen(schema);
    RegistryRuns(INIT, run);
    s := INIT.(registry := Exec(Registry.Step, Registry.INIT, run).value);
  }

  /** For every valid schema and every row that conforms to it, some run registers the schema, passes the
      gate and stores the row. */
  lemma ConformingRowCanBeStored(schema: Registry.Schema, data: Data, who: string, now: Time)
    requires WellFormed(schema.fields) && UniqueOk(schema.fields, schema.unique)
    requires Conforms(schema.fields, data) && |who| <= 64
    ensures exists s :: Can(Step, INIT, s) && s.registry.meta.Some? && s.registry.meta.value.schema == schema
                        && s.table.rows.Keys == {1} && s.table.rows[1].data == data
                        && s.table.rows[1].status == Active
  {
    var s := TypeCanBeRegistered(schema);
    var gated := s.(gates := s.gates[0 := schema.fields]);
    CanThen(Step, INIT, s, Gate(0), gated);
    var stored := GatedInsertStores(gated, InsertOp(schema.fields, 0, data, who, now));
  }

  lemma GatedInsertStores(s: State, op: Op) returns (s': State)
    requires Can(Step, INIT, s) && s.table == Engine.Init(map[], 1) && op.InsertOp?
    requires 0 in s.gates && s.gates[0] == op.fields && Conforms(op.fields, op.data) && |op.who| <= 64
    ensures Can(Step, INIT, s') && s'.registry == s.registry
    ensures s'.table.rows.Keys == {1} && s'.table.rows[1].data == op.data && s'.table.rows[1].status == Active
  {
    InsertGoesThrough(op);
    var begun := Then(s, Engine.Begin(0, op));
    var inserted := Then(begun, Engine.InsertRow(0));
    s' := Then(inserted, Engine.Commit(0));
  }

  lemma InsertGoesThrough(op: Op)
    requires op.InsertOp? && Conforms(op.fields, op.data) && |op.who| <= 64
    ensures var t1 := Engine.Step(Engine.Init(map[], 1), Engine.Begin(0, op));
            && t1.Some?
            && var t2 := Engine.Step(t1.value, Engine.InsertRow(0));
               && t2.Some?
               && var t3 := Engine.Step(t2.value, Engine.Commit(0));
                  && t3.Some?
                  && t3.value.rows == map[1 := NewRow(1, op.data, op.who, op.now)]
  {
  }

  lemma Then(s: State, e: Engine.Event) returns (s': State)
    requires Can(Step, INIT, s) && MayBegin(s, e) && Engine.Step(s.table, e).Some?
    ensures s' == s.(table := Engine.Step(s.table, e).value) && Can(Step, INIT, s')
  {
    s' := s.(table := Engine.Step(s.table, e).value);
    CanThen(Step, INIT, s, TableStep(e), s');
  }
}
