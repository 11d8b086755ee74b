/** Exporting a table and importing the file again. */
module RoundTrip {
  import opened Types
  import opened Validation
  import opened Atomic
  import opened Transfer
  import opened Importing

  /** All rows, deleted ones too, in id order. */
  ghost predicate IsExport(rows: Rows, docs: seq<Doc>) {
    && (forall i, j | 0 <= i < j < |docs| :: docs[i].id < docs[j].id)
    && (forall i | 0 <= i < |docs| :: docs[i].id in rows && rows[docs[i].id] == docs[i])
    && (forall id | id in rows :: exists i | 0 <= i < |docs| :: docs[i].id == id)
  }

  /** Every stored row still validates, and no id is the last 64-bit one. */
  ghost predicate Reimportable(fields: seq<Field>, rows: Rows) {
    forall id | id in rows :: Conforms(fields, rows[id].data) && id < MAX_INT64
  }

  function VersionsReset(rows: Rows): Rows {
    map id | id in rows :: rows[id].(version := 1)
  }

  /** Normalising an exported row changes its version and nothing else. */
  lemma NormaliseExported(id: int, d: Doc, now: Time)
    requires StoredOk(id, d)
    ensures Normalise(Exported(d), now) == d.(version := 1)
  {
  }

  lemma ExportIsAcceptableIff(rows: Rows, docs: seq<Doc>, fields: seq<Field>)
    requires TableOk(rows) && IsExport(rows, docs)
    ensures RowsAcceptable(fields, ExportedAll(docs)) <==> forall id | id in rows :: Conforms(fields, rows[id].data)
  {
    var file := ExportedAll(docs);
    forall i | 0 <= i < |docs|
      ensures FileRowOk(fields, file[i]) <==> Conforms(fields, rows[docs[i].id].data)
      ensures Storable(file[i])
    {
      assert StoredOk(docs[i].id, rows[docs[i].id]);
    }
    if RowsAcceptable(fields, file) {
      forall id | id in rows ensures Conforms(fields, rows[id].data) {
        var i :| 0 <= i < |docs| && docs[i].id == id;
        assert FileRowOk(fields, file[i]);
      }
    }
  }

  lemma ExportIdsFitIff(rows: Rows, docs: seq<Doc>)
    requires IsExport(rows, docs)
    ensures (forall i | 0 <= i < |docs| :: ExportedAll(docs)[i].id < MAX_INT64)
            <==> (forall id | id in rows :: id < MAX_INT64)
  {
    var file := ExportedAll(docs);
    if forall i | 0 <= i < |docs| :: file[i].id < MAX_INT64 {
      forall id | id in rows ensures id < MAX_INT64 {
        var i :| 0 <= i < |docs| && docs[i].id == id;
        assert file[i].id == id;
      }
    }
  }

  lemma ExportLoads(rows: Rows, docs: seq<Doc>, now: Time)
    requires TableOk(rows) && IsExport(rows, docs)
    ensures var file := ExportedAll(docs);
            && DistinctIds(file)
            && forall i | 0 <= i < |docs| ::
                 file[i].id == docs[i].id && Normalise(file[i], now) == rows[docs[i].id].(version := 1)
  {
    forall i | 0 <= i < |docs| ensures Normalise(Exported(docs[i]), now) == rows[docs[i].id].(version := 1) {
      NormaliseExported(docs[i].id, docs[i], now);
    }
  }

  lemma LoadOfExport(rows: Rows, docs: seq<Doc>, now: Time)
    requires TableOk(rows) && IsExport(rows, docs)
    ensures Load(ExportedAll(docs), now) == VersionsReset(rows)
  {
    var file := ExportedAll(docs);
    ExportLoads(rows, docs, now);
    LoadIsFile(file, now);
    SameRows(rows, docs, file, Load(file, now));
  }

  lemma SameRows(rows: Rows, docs: seq<Doc>, file: seq<FileDoc>, got: Rows)
    requires IsExport(rows, docs) && |file| == |docs|
    requires forall i | 0 <= i < |docs| ::
               file[i].id == docs[i].id && file[i].id in got && got[file[i].id] == rows[docs[i].id].(version := 1)
    requires forall id | id in got :: exists i :: 0 <= i < |file| && file[i].id == id
    ensures got == VersionsReset(rows)
  {
    var want := VersionsReset(rows);
    forall id | id in want ensures id in got && got[id] == want[id] {
      var i :| 0 <= i < |docs| && docs[i].id == id;
      assert file[i].id == id;
    }
    forall id | id in got ensures id in want {
      var i :| 0 <= i < |file| && file[i].id == id;
      assert docs[i].id == id;
    }
  }

  /** Export then import is the identity but for versions, exactly when every stored row still validates
      (and no id is the last 64-bit one); otherwise the import is refused. */
  lemma ExportThenImport(rows: Rows, docs: seq<Doc>, fields: seq<Field>, now: Time)
    requires TableOk(rows) && IsExport(rows, docs)
    ensures Apply(rows, ImportOp(fields, ExportedAll(docs), now)) ==
            if Reimportable(fields, rows) then Some(VersionsReset(rows)) else None
  {
    ExportIsAcceptableIff(rows, docs, fields);
    ExportIdsFitIff(rows, docs);
    LoadOfExport(rows, docs, now);
  }

  /** The same over the token stream, with whatever may follow the array. */
  lemma ExportThenImportStream(rows: Rows, docs: seq<Doc>, fields: seq<Field>, now: Time,
                               after: seq<Token>, end: Fail)
    requires TableOk(rows) && IsExport(rows, docs)
    ensures var parsed := ParseArray(Encoded(ExportedAll(docs)) + after, end);
            && parsed.Ok?
            && (FileAcceptable(fields, parsed) <==> forall id | id in rows :: Conforms(fields, rows[id].data))
            && Apply(rows, ImportOp(fields, parsed.value, now)) ==
               if Reimportable(fields, rows) then Some(VersionsReset(rows)) else None
  {
    DecodeEncoded(ExportedAll(docs), after, end);
    ExportIsAcceptableIff(rows, docs, fields);
    ExportThenImport(rows, docs, fields, now);
  }

  /** A whole export stream, as an importer of any table meets it. */
  lemma ExportedStream(rows: Rows, out: seq<Token>, fields: seq<Field>, now: Time, end: Fail)
    requires TableOk(rows) && exists docs :: IsExport(rows, docs) && out == Encoded(ExportedAll(docs))
    ensures var parsed := ParseArray(out, end);
            && parsed.Ok?
            && (ImportAccepts(fields, parsed.value) <==> Reimportable(fields, rows))
            && Load(parsed.value, now) == VersionsReset(rows)
  {
    var docs :| IsExport(rows, docs) && out == Encoded(ExportedAll(docs));
    assert out + [] == out;
    DecodeEncoded(ExportedAll(docs), [], end);
    ExportIsAcceptableIff(rows, docs, fields);
    ExportIdsFitIff(rows, docs);
    LoadOfExport(rows, docs, now);
  }

  predicate TimesSet(file: seq<FileDoc>) {
    forall i | 0 <= i < |file| :: file[i].createdAt != ZERO_TIME && file[i].updatedAt != ZERO_TIME
  }

  /** Importing one file again, at any later time and over any table, gives the same table, provided the
      file names all its times. */
  lemma {:induction false} ReimportIsIdempotent(file: seq<FileDoc>, first: Time, second: Time)
    requires TimesSet(file)
    ensures Load(file, first) == Load(file, second)
  {
    if file != [] {
      ReimportIsIdempotent(file[..|file| - 1], first, second);
    }
  }

  /** ... and only then, for files an import accepts. */
  lemma ReimportNeedsTimes(fields: seq<Field>, file: seq<FileDoc>, first: Time, second: Time)
    requires ImportAccepts(fields, file) && first != second
    ensures Load(file, first) == Load(file, second) <==> TimesSet(file)
  {
    if TimesSet(file) {
      ReimportIsIdempotent(file, first, second);
    } else {
      var i :| 0 <= i < |file| && (file[i].createdAt == ZERO_TIME || file[i].updatedAt == ZERO_TIME);
      LoadIsFile(file, first);
      LoadIsFile(file, second);
      assert Normalise(file[i], first) != Normalise(file[i], second);
    }
  }
}
