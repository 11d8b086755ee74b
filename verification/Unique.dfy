/** Unique keys: the duplicate check by JSON containment, and what it guarantees for serial runs. */
module Unique {
  import opened Types
  import opened Validation
  import opened Compat
  import opened Atomic

  /** JSON containment of one value in another (the `@>` operator below the top level). */
  predicate Contains(v: Value, k: Value)
    decreases k, 0
  {
    match k
    case List(items) =>
      v.List? && forall i | 0 <= i < |items| :: SomeContains(v.items, items[i])
    case Obj(members) =>
      v.Obj? && forall m | m in members :: m in v.members && Contains(v.members[m], members[m])
    case _ => v == k
  }

  predicate SomeContains(vs: seq<Value>, k: Value)
    decreases k, 1
  {
    exists j | 0 <= j < |vs| :: Contains(vs[j], k)
  }

  lemma {:induction false} ContainsItself(v: Value)
    ensures Contains(v, v)
    decreases v
  {
    match v
    case List(items) =>
      forall i | 0 <= i < |items| ensures SomeContains(items, items[i]) {
        ContainsItself(items[i]);
      }
    case Obj(members) =>
      forall m | m in members ensures Contains(members[m], members[m]) {
        ContainsItself(members[m]);
      }
    case _ =>
  }

  /** A key counts only when every one of its fields is provided. */
  predicate KeyComplete(unique: seq<string>, data: Data) {
    forall i | 0 <= i < |unique| :: Provided(data, unique[i])
  }

  function KeyOf(unique: seq<string>, data: Data): Data
    requires KeyComplete(unique, data)
  {
    map k | k in unique :: data[k]
  }

  /** Containment of a whole key in a row. */
  predicate HoldsKey(row: Data, key: Data) {
    forall k | k in key :: k in row && Contains(row[k], key[k])
  }

  predicate IsHolder(rows: Rows, key: Data, excluded: int, id: int) {
    id in rows && id != excluded && rows[id].status == Active && HoldsKey(rows[id].data, key)
  }

  /** Some active row other than `excluded` already holds the key of `data`. */
  predicate HasDup(rows: Rows, unique: seq<string>, data: Data, excluded: int) {
    KeyComplete(unique, data) && exists id | id in rows :: IsHolder(rows, KeyOf(unique, data), excluded, id)
  }

  /** SELECT ... WHERE status = 'active' AND data @> key AND id <> excluded LIMIT 1: any holder will do. */
  method SelectHolder(rows: Rows, key: Data, excluded: int) returns (found: Option<int>)
    ensures found.Some? ==> IsHolder(rows, key, excluded, found.value)
    ensures found.None? ==> forall id | id in rows :: !IsHolder(rows, key, excluded, id)
  {
    var todo := rows.Items;
    while todo != {}
      invariant todo <= rows.Items
      invariant forall id | id in rows && (id, rows[id]) !in todo :: !IsHolder(rows, key, excluded, id)
    {
      var row :| row in todo;
      if IsHolder(rows, key, excluded, row.0) { return Some(row.0); }
      todo := todo - {row};
    }
    return None;
  }

  method FindActiveDupID(rows: Rows, unique: seq<string>, data: Data, excluded: int) returns (dup: Option<int>)
    ensures dup.Some? <==> HasDup(rows, unique, data, excluded)
    ensures dup.Some? ==> IsHolder(rows, KeyOf(unique, data), excluded, dup.value)
  {
    var key: Data := map[];
    for i := 0 to |unique|
      invariant KeyComplete(unique[..i], data)
      invariant key == KeyOf(unique[..i], data)
    {
      if unique[i] !in data || data[unique[i]].Null? {
        assert !Provided(data, unique[i]);
        return None;
      }
      key := key[unique[i] := data[unique[i]]];
      assert unique[..i + 1] == unique[..i] + [unique[i]];
    }
    assert unique[..|unique|] == unique;
    dup := SelectHolder(rows, key, excluded);
  }

  /** The check of a write: nothing to do without unique fields. */
  predicate DupConflict(rows: Rows, unique: seq<string>, data: Data, excluded: int) {
    unique != [] && HasDup(rows, unique, data, excluded)
  }

  /** An operation as the service runs it alone: the duplicate check, then the write. */
  predicate PassesDupCheck(rows: Rows, unique: seq<string>, op: Op) {
    match op
    case InsertOp(_, _, data, _, _) => !DupConflict(rows, unique, data, 0)
    case UpdateOp(_, id, _, patch, _, _) => id in rows ==> !DupConflict(rows, unique, rows[id].data + patch, id)
    case RestoreOp(id, _, _) =>
      id in rows && rows[id].status == Deleted ==> !DupConflict(rows, unique, rows[id].data, id)
    case _ => true
  }

  ghost function CheckedApply(rows: Rows, unique: seq<string>, op: Op): Option<Rows> {
    if PassesDupCheck(rows, unique, op) then Apply(rows, op) else None
  }

  predicate SameKey(unique: seq<string>, a: Data, b: Data)
    requires KeyComplete(unique, a) && KeyComplete(unique, b)
  {
    forall i | 0 <= i < |unique| :: a[unique[i]] == b[unique[i]]
  }

  predicate Clash(unique: seq<string>, a: Doc, b: Doc) {
    && a.status == Active && b.status == Active
    && KeyComplete(unique, a.data) && KeyComplete(unique, b.data)
    && SameKey(unique, a.data, b.data)
  }

  /** No two active rows agree on a fully provided key. */
  predicate KeysUnique(rows: Rows, unique: seq<string>) {
    unique != [] ==>
      forall a, b | a in rows && b in rows && a != b :: !Clash(unique, rows[a], rows[b])
  }

  lemma SameKeyIsHeld(unique: seq<string>, a: Data, b: Data)
    requires KeyComplete(unique, a) && KeyComplete(unique, b) && SameKey(unique, a, b)
    ensures HoldsKey(a, KeyOf(unique, b))
  {
    forall k | k in unique ensures k in a && Contains(a[k], b[k]) {
      var i :| 0 <= i < |unique| && unique[i] == k;
      assert Provided(a, unique[i]);
      ContainsItself(b[k]);
    }
  }

  lemma NewRowDoesNotClash(rows: Rows, unique: seq<string>, id: int, doc: Doc, other: int)
    requires doc.status == Active ==> !DupConflict(rows, unique, doc.data, id)
    requires unique != [] && other in rows && other != id
    ensures !Clash(unique, doc, rows[other]) && !Clash(unique, rows[other], doc)
  {
    if Clash(unique, doc, rows[other]) || Clash(unique, rows[other], doc) {
      SameKeyIsHeld(unique, rows[other].data, doc.data);
      assert IsHolder(rows, KeyOf(unique, doc.data), id, other);
    }
  }

  /** Putting one row that passed the check next to rows with unique keys keeps the keys unique. */
  lemma PutKeepsKeysUnique(rows: Rows, unique: seq<string>, id: int, doc: Doc)
    requires KeysUnique(rows, unique)
    requires doc.status == Active ==> !DupConflict(rows, unique, doc.data, id)
    ensures KeysUnique(rows[id := doc], unique)
  {
    var rows' := rows[id := doc];
    forall a, b | a in rows' && b in rows' && a != b && unique != []
      ensures !Clash(unique, rows'[a], rows'[b])
    {
      if a != id && b != id {
        assert !Clash(unique, rows[a], rows[b]);
      } else {
        NewRowDoesNotClash(rows, unique, id, doc, if a == id then b else a);
      }
    }
  }

  lemma CheckedApplyKeepsKeysUnique(rows: Rows, unique: seq<string>, op: Op)
    requires PositiveIds(rows) && KeysUnique(rows, unique) && !op.ImportOp? && CheckedApply(rows, unique, op).Some?
    ensures KeysUnique(CheckedApply(rows, unique, op).value, unique)
  {
    if op.InsertOp? {
      // ids in use are positive, so excluding id 0 excludes nothing
      PutKeepsKeysUnique(rows, unique, op.id, NewRow(op.id, op.data, op.who, op.now));
    } else {
      var doc := RowEffect(op, rows[op.id]).value;
      if op.DeleteOp? || (op.RestoreOp? && rows[op.id].status != Deleted) {
        UnchangedOrDeleted(rows, unique, op, doc);
      } else {
        PutKeepsKeysUnique(rows, unique, op.id, doc);
      }
    }
  }

  lemma UnchangedOrDeleted(rows: Rows, unique: seq<string>, op: Op, doc: Doc)
    requires op.OnRow() && op.id in rows && KeysUnique(rows, unique)
    requires doc == rows[op.id] || doc.status == Deleted
    ensures KeysUnique(rows[op.id := doc], unique)
  {
    if doc == rows[op.id] {
      assert rows[op.id := doc] == rows;
    } else {
      PutKeepsKeysUnique(rows, unique, op.id, doc);
    }
  }

  // ---------- what the check refuses ----------

  /** No list and no object: the values that a unique key of a well-formed schema can have. */
  predicate IsScalarValue(v: Value) { !v.List? && !v.Obj? }

  predicate ScalarKey(unique: seq<string>, data: Data) {
    forall k | k in unique && k in data :: IsScalarValue(data[k])
  }

  lemma ConformingKeyIsScalar(fields: seq<Field>, unique: seq<string>, data: Data)
    requires WellFormed(fields) && UniqueOk(fields, unique) && Conforms(fields, data)
    ensures ScalarKey(unique, data)
  {
    KnownNames(fields);
    forall k | k in unique && k in data ensures IsScalarValue(data[k]) {
      var i :| 0 <= i < |unique| && unique[i] == k;
      assert KeyOk(fields, k, data[k]);
      assert FieldOk(KnownFields(fields)[k]);
    }
  }

  /** Row `row` has the same values as `data` in the fields of the key. */
  predicate SameValues(unique: seq<string>, row: Data, data: Data) {
    forall k | k in unique && k in data :: k in row && row[k] == data[k]
  }

  /** The check refuses a write exactly when there is a key, the write provides all of it, and an active
      row other than the excluded one has exactly these values. */
  lemma DupConflictIff(rows: Rows, unique: seq<string>, data: Data, excluded: int)
    requires ScalarKey(unique, data)
    ensures DupConflict(rows, unique, data, excluded) <==>
              && unique != []
              && (forall k | k in unique :: k in data && data[k] != Null)
              && exists id | id in rows ::
                   id != excluded && rows[id].status == Active && SameValues(unique, rows[id].data, data)
  {
    if forall k | k in unique :: k in data && data[k] != Null {
      forall i | 0 <= i < |unique| ensures Provided(data, unique[i]) { assert unique[i] in unique; }
      forall id | id in rows
        ensures IsHolder(rows, KeyOf(unique, data), excluded, id)
                <==> id != excluded && rows[id].status == Active && SameValues(unique, rows[id].data, data)
      {
        HoldsScalarKeyIff(unique, rows[id].data, data);
      }
    } else {
      var k :| k in unique && !(k in data && data[k] != Null);
      var i :| 0 <= i < |unique| && unique[i] == k;
      assert !Provided(data, unique[i]);
    }
  }

  lemma HoldsScalarKeyIff(unique: seq<string>, row: Data, data: Data)
    requires KeyComplete(unique, data) && ScalarKey(unique, data)
    ensures HoldsKey(row, KeyOf(unique, data)) <==> SameValues(unique, row, data)
  {
    var key := KeyOf(unique, data);
    forall k | k in unique ensures k in data && k in key && key[k] == data[k] && IsScalarValue(data[k]) {
      var i :| 0 <= i < |unique| && unique[i] == k;
      assert Provided(data, unique[i]);
    }
    if SameValues(unique, row, data) {
      forall k | k in key ensures k in row && Contains(row[k], key[k]) { assert k in unique; }
    }
    if HoldsKey(row, key) {
      forall k | k in unique && k in data ensures k in row && row[k] == data[k] {
        assert k in key && Contains(row[k], key[k]);
      }
    }
  }

  /** For lists of scalars containment is inclusion: order and repetition do not matter. */
  lemma ListContainsIff(row: seq<Value>, key: seq<Value>)
    requires forall k | k in key :: IsScalarValue(k)
    ensures Contains(List(row), List(key)) <==> forall k | k in key :: k in row
  {
    forall i | 0 <= i < |key| ensures SomeContains(row, key[i]) <==> key[i] in row {
      assert key[i] in key;
      forall j | 0 <= j < |row| ensures Contains(row[j], key[i]) <==> row[j] == key[i] {}
    }
    if forall k | k in key :: k in row {
      assert forall i | 0 <= i < |key| :: key[i] in row;
    }
  }

  /** The data with which a write leaves an active row. */
  function WrittenData(rows: Rows, op: Op): Data
    requires !op.ImportOp? && (op.OnRow() ==> op.id in rows)
  {
    if op.InsertOp? then op.data
    else if op.UpdateOp? then rows[op.id].data + op.patch
    else rows[op.id].data
  }

  /** The check refuses exactly the writes after which two active rows would agree on a complete key. */
  lemma CheckRefusesExactly(rows: Rows, unique: seq<string>, op: Op)
    requires PositiveIds(rows) && KeysUnique(rows, unique) && !op.ImportOp? && Apply(rows, op).Some?
    requires ScalarKey(unique, WrittenData(rows, op))
    ensures PassesDupCheck(rows, unique, op) <==> KeysUnique(Apply(rows, op).value, unique)
  {
    if PassesDupCheck(rows, unique, op) {
      CheckedApplyKeepsKeysUnique(rows, unique, op);
    } else {
      var data, excluded := WrittenData(rows, op), if op.InsertOp? then 0 else op.id;
      DupConflictIff(rows, unique, data, excluded);
      var rows' := Apply(rows, op).value;
      var id :| id in rows && id != excluded && rows[id].status == Active && SameValues(unique, rows[id].data, data);
      forall i | 0 <= i < |unique|
        ensures Provided(data, unique[i]) && Provided(rows[id].data, unique[i])
        ensures rows[id].data[unique[i]] == data[unique[i]]
      {
        assert unique[i] in unique;
      }
      assert Clash(unique, rows'[op.id], rows'[id]);
    }
  }

  // ---------- serial runs with evolving keys ----------

  datatype SerialStep = Do(op: Op) | EvolveKeys(unique: seq<string>)

  /** A serial run from `rows` under `unique`: no imports, and every evolution only adds key fields. */
  ghost predicate SerialRun(rows: Rows, unique: seq<string>, steps: seq<SerialStep>)
    decreases |steps|
  {
    steps == [] ||
    match steps[0]
    case Do(op) =>
      && !op.ImportOp? && op.now != ZERO_TIME && CheckedApply(rows, unique, op).Some?
      && SerialRun(CheckedApply(rows, unique, op).value, unique, steps[1..])
    case EvolveKeys(wider) => wider != [] && AddsFields(unique, wider) && SerialRun(rows, wider, steps[1..])
  }

  predicate AddsFields(unique: seq<string>, wider: seq<string>) {
    unique != [] && forall i | 0 <= i < |unique| :: unique[i] in wider
  }

  ghost function RunEnd(rows: Rows, unique: seq<string>, steps: seq<SerialStep>): (Rows, seq<string>)
    requires SerialRun(rows, unique, steps)
    decreases |steps|
  {
    if steps == [] then (rows, unique)
    else match steps[0]
         case Do(op) => RunEnd(CheckedApply(rows, unique, op).value, unique, steps[1..])
         case EvolveKeys(wider) => RunEnd(rows, wider, steps[1..])
  }

  lemma WiderKeysStayUnique(rows: Rows, unique: seq<string>, wider: seq<string>)
    requires KeysUnique(rows, unique) && AddsFields(unique, wider)
    ensures KeysUnique(rows, wider)
  {
    forall a, b | a in rows && b in rows && a != b ensures !Clash(wider, rows[a], rows[b]) {
      if Clash(wider, rows[a], rows[b]) {
        forall i | 0 <= i < |unique|
          ensures Provided(rows[a].data, unique[i]) && Provided(rows[b].data, unique[i])
          ensures rows[a].data[unique[i]] == rows[b].data[unique[i]]
        {
          var j :| 0 <= j < |wider| && wider[j] == unique[i];
        }
        assert Clash(unique, rows[a], rows[b]);
      }
    }
  }

  /** A second value of each type, besides the blank one. */
  function OtherValue(t: FieldType): Value {
    match t
    case IntT => Num(1.0)
    case StringT => Str("a")
    case IntListT => List([Num(1.0)])
    case StringListT => List([Str("a")])
    case UnknownT(_) => Bool(true)
  }

  function Twins(a: Data, b: Data): Rows {
    map[1 := NewRow(1, a, "", 1), 2 := NewRow(2, b, "", 1)]
  }

  /** The rows are ones that the service can hold: each conforms to some schema of the type's history. */
  ghost predicate HeldUnder(schemas: seq<seq<Field>>, rows: Rows) {
    && TableOk(rows)
    && forall id | id in rows :: exists i :: 0 <= i < |schemas| && Conforms(schemas[i], rows[id].data)
  }

  /** Some schema of the history has all the fields of the key. */
  predicate KeyKnown(schemas: seq<seq<Field>>, unique: seq<string>) {
    exists i | 0 <= i < |schemas| :: KeyIn(schemas[i], unique)
  }

  predicate KeyIn(fields: seq<Field>, unique: seq<string>) {
    forall k | k in unique :: k in KnownFields(fields)
  }

  lemma OtherValueFits(F: seq<Field>, u: string)
    requires WellFormed(F) && u in KnownFields(F)
    ensures Conforms(F, BlankRow(F)[u := OtherValue(KnownFields(F)[u].ftype)])
    ensures BlankRow(F)[u] != OtherValue(KnownFields(F)[u].ftype)
  {
    KnownNames(F);
    var f := KnownFields(F)[u];
    assert FieldOk(f);
    assert ValueOk(f, OtherValue(f.ftype));
    BlankRowWith(F, f, OtherValue(f.ftype));
  }

  lemma TwinsHeld(schemas: seq<seq<Field>>, i: nat, a: Data, b: Data)
    requires i < |schemas| && Conforms(schemas[i], a) && Conforms(schemas[i], b)
    ensures HeldUnder(schemas, Twins(a, b))
  {
  }

  lemma TwinsUniqueIff(a: Data, b: Data, unique: seq<string>)
    requires unique != []
    ensures KeysUnique(Twins(a, b), unique)
            <==> !(KeyComplete(unique, a) && KeyComplete(unique, b) && SameKey(unique, a, b))
  {
    var rows := Twins(a, b);
    assert Clash(unique, rows[1], rows[2]) <==>
           KeyComplete(unique, a) && KeyComplete(unique, b) && SameKey(unique, a, b);
    assert Clash(unique, rows[2], rows[1]) <==> Clash(unique, rows[1], rows[2]);
  }

  lemma BlankRowProvides(F: seq<Field>, k: string)
    requires WellFormed(F)
    ensures Provided(BlankRow(F), k) <==> k in KnownFields(F)
  {
    KnownNames(F);
  }

  /** Two rows of a schema that agree on the new key and not on the old one. */
  lemma TwinRows(F: seq<Field>, unique: seq<string>, wider: seq<string>) returns (a: Data, b: Data)
    requires WellFormed(F) && KeyIn(F, wider) && !AddsFields(unique, wider)
    ensures Conforms(F, a) && Conforms(F, b)
    ensures forall k | k in wider :: Provided(a, k) && Provided(b, k) && a[k] == b[k]
    ensures unique != [] ==> exists k | k in unique :: !(Provided(a, k) && Provided(b, k) && a[k] == b[k])
  {
    a, b := BlankRow(F), BlankRow(F);
    BlankRowConforms(F);
    forall k | k in wider ensures Provided(a, k) { BlankRowProvides(F, k); }
    if unique != [] {
      var i :| 0 <= i < |unique| && unique[i] !in wider;
      var u := unique[i];
      assert u in unique;
      BlankRowProvides(F, u);
      if u in KnownFields(F) {
        OtherValueFits(F, u);
        b := b[u := OtherValue(KnownFields(F)[u].ftype)];
      }
    }
  }

  /** Under a schema with all fields of the new key: a table whose rows the old key tells apart, or does
      not apply to, and the new one does not. */
  lemma TwinsClash(schemas: seq<seq<Field>>, i: nat, unique: seq<string>, wider: seq<string>) returns (rows: Rows)
    requires i < |schemas| && WellFormed(schemas[i]) && KeyIn(schemas[i], wider)
    requires wider != [] && !AddsFields(unique, wider)
    ensures HeldUnder(schemas, rows) && KeysUnique(rows, unique) && !KeysUnique(rows, wider)
  {
    var a, b := TwinRows(schemas[i], unique, wider);
    rows := Twins(a, b);
    TwinsHeld(schemas, i, a, b);
    TwinsUniqueIff(a, b, wider);
    if unique != [] {
      TwinsUniqueIff(a, b, unique);
      var k :| k in unique && !(Provided(a, k) && Provided(b, k) && a[k] == b[k]);
      var j :| 0 <= j < |unique| && unique[j] == k;
    }
  }

  lemma UnknownKeyIsUnique(schemas: seq<seq<Field>>, rows: Rows, unique: seq<string>)
    requires HeldUnder(schemas, rows) && !KeyKnown(schemas, unique)
    ensures KeysUnique(rows, unique)
  {
    forall a | a in rows ensures !KeyComplete(unique, rows[a].data) {
      var i :| 0 <= i < |schemas| && Conforms(schemas[i], rows[a].data);
      var k :| k in unique && k !in KnownFields(schemas[i]);
      assert k in rows[a].data ==> KeyOk(schemas[i], k, rows[a].data[k]);
      var j :| 0 <= j < |unique| && unique[j] == k;
    }
  }

  /** The evolutions that keep the keys of every table the service can hold unique: those that drop the
      key, only add to one, or name a field that no schema so far has together with the others. */
  lemma KeysSurviveIff(schemas: seq<seq<Field>>, unique: seq<string>, wider: seq<string>)
    requires forall i | 0 <= i < |schemas| :: WellFormed(schemas[i])
    ensures (forall rows: Rows :: HeldUnder(schemas, rows) && KeysUnique(rows, unique) ==> KeysUnique(rows, wider))
            <==> wider == [] || AddsFields(unique, wider) || !KeyKnown(schemas, wider)
  {
    if wider == [] || AddsFields(unique, wider) || !KeyKnown(schemas, wider) {
      forall rows: Rows | HeldUnder(schemas, rows) && KeysUnique(rows, unique) ensures KeysUnique(rows, wider) {
        if !KeyKnown(schemas, wider) {
          UnknownKeyIsUnique(schemas, rows, wider);
        } else if wider != [] {
          WiderKeysStayUnique(rows, unique, wider);
        }
      }
    } else {
      var i :| 0 <= i < |schemas| && KeyIn(schemas[i], wider);
      var rows := TwinsClash(schemas, i, unique, wider);
    }
  }

  // ---------- writers that check a narrower key ----------

  /** A check of some of a key's fields is a check of the key. */
  lemma NarrowerCheckSuffices(rows: Rows, narrow: seq<string>, wide: seq<string>, data: Data, excluded: int)
    requires AddsFields(narrow, wide) && !DupConflict(rows, narrow, data, excluded)
    ensures !DupConflict(rows, wide, data, excluded)
  {
    if DupConflict(rows, wide, data, excluded) {
      forall i | 0 <= i < |narrow| ensures Provided(data, narrow[i]) {
        var j :| 0 <= j < |wide| && wide[j] == narrow[i];
      }
      var id :| id in rows && IsHolder(rows, KeyOf(wide, data), excluded, id);
      assert HoldsKey(rows[id].data, KeyOf(narrow, data));
      assert IsHolder(rows, KeyOf(narrow, data), excluded, id);
    }
  }

  lemma NarrowerPasses(rows: Rows, narrow: seq<string>, wide: seq<string>, op: Op)
    requires AddsFields(narrow, wide) && PassesDupCheck(rows, narrow, op)
    ensures PassesDupCheck(rows, wide, op)
  {
    if op.InsertOp? {
      NarrowerCheckSuffices(rows, narrow, wide, op.data, 0);
    } else if op.UpdateOp? && op.id in rows {
      NarrowerCheckSuffices(rows, narrow, wide, rows[op.id].data + op.patch, op.id);
    } else if op.RestoreOp? && op.id in rows && rows[op.id].status == Deleted {
      NarrowerCheckSuffices(rows, narrow, wide, rows[op.id].data, op.id);
    }
  }

  // ---------- serial histories ----------

  /** Serial uniqueness: after any import-free serial run no two active rows agree on a fully provided
      key, through every evolution that only adds key fields. */
  lemma {:induction false} SerialRunKeepsKeysUnique(rows: Rows, unique: seq<string>, steps: seq<SerialStep>)
    requires TableOk(rows) && KeysUnique(rows, unique) && SerialRun(rows, unique, steps)
    ensures KeysUnique(RunEnd(rows, unique, steps).0, RunEnd(rows, unique, steps).1)
    decreases |steps|
  {
    if steps != [] {
      match steps[0]
      case Do(op) =>
        assert forall k | k in rows :: StoredOk(k, rows[k]);
        CheckedApplyKeepsKeysUnique(rows, unique, op);
        ApplyKeepsTableOk(rows, op);
        SerialRunKeepsKeysUnique(Apply(rows, op).value, unique, steps[1..]);
      case EvolveKeys(wider) =>
        WiderKeysStayUnique(rows, unique, wider);
        SerialRunKeepsKeysUnique(rows, wider, steps[1..]);
    }
  }
}
