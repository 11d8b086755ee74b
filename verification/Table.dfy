/** One type's table as the service drives it, one request at a time. The methods that change rows are proved
    against their reference operations behind the gate and the duplicate check; export and listing against
    the predicates `IsExport` and `IsPage`. */
module Table {
  import opened Types
  import opened Validation
  import opened Atomic
  import opened Transfer
  import opened Importing
  import opened Unique
  import opened Filter
  import Paging
  import RoundTrip
  import Sql

  /** Row counts of an import, for the audit of the batch. */
  datatype ImportResult = ImportResult(rows: int, deleted: int, maxId: int)

  datatype ListPage = ListPage(docs: seq<Doc>, size: int, next: Option<Paging.Cursor>)

  function Refusal(http: int, code: Code): Error { Error(http, code, "", NoReason) }

  /** The operator as recorded. */
  function Signed(who: string): string {
    if |who| == 0 then "system" else who
  }

  /** A key conflict names the row that holds the key. */
  predicate DupRefusal(rows: Rows, unique: seq<string>, data: Data, excluded: int, e: Error) {
    && KeyComplete(unique, data) && e.reason.DuplicateOf?
    && e == Error(409, Conflict, "", e.reason)
    && IsHolder(rows, KeyOf(unique, data), excluded, e.reason.existing)
  }

  class TypeTable {
    var rows: Rows
    var nextId: int

    ghost predicate Valid()
      reads this
    {
      TableOk(rows) && 0 < nextId
    }

    /** No id in use is still to be drawn. Only an import whose commit fails can end this. */
    predicate SequenceAhead()
      reads this
    {
      AllBelow(rows, nextId)
    }

    constructor ()
      ensures rows == map[] && nextId == 1
      ensures Valid() && SequenceAhead()
    {
      rows, nextId := map[], 1;
    }

    /** The duplicate check of a write. */
    method CheckUniqueDup(def: Definition, data: Data, excluded: int) returns (e: Option<Error>)
      ensures e.Some? <==> DupConflict(rows, def.unique, data, excluded)
      ensures e.Some? ==> DupRefusal(rows, def.unique, data, excluded, e.value)
    {
      if |def.unique| == 0 { return None; }
      var dup := FindActiveDupID(rows, def.unique, data, excluded);
      if dup.Some? { return Some(Error(409, Conflict, "", DuplicateOf(dup.value))); }
      return None;
    }

    method Insert(def: Definition, history: seq<seq<Field>>, data: Data, who: string, now: Time)
      returns (r: Result<Doc, Error>)
      requires Valid() && now != ZERO_TIME
      modifies this
      ensures Valid() && (old(SequenceAhead()) ==> SequenceAhead())
      ensures var op := InsertOp(def.fields, old(nextId), data, who, now);
              && (r.Ok? <==> && !def.deprecated && old(nextId) <= MAX_INT64
                             && CheckedApply(old(rows), def.unique, op).Some?)
              && (r.Ok? ==> && Some(rows) == Apply(old(rows), op)
                            && nextId == old(nextId) + 1 && rows[old(nextId)] == r.value)
      ensures r.Ok? ==> r.value == Doc(old(nextId), 1, Active, data, Signed(who), Signed(who), now, now)
      ensures r.Err? ==> rows == old(rows) && nextId in {old(nextId), old(nextId) + 1}
      ensures def.deprecated ==> r == Err(Refusal(409, TypeDeprecated))
      ensures !def.deprecated && !Conforms(def.fields, data) ==>
                r.Err? && WriteRefusal(def.fields, data, history, false, r.error)
      ensures !def.deprecated && Conforms(def.fields, data) && DupConflict(old(rows), def.unique, data, 0) ==>
                r.Err? && DupRefusal(old(rows), def.unique, data, 0, r.error)
      ensures (!def.deprecated && Conforms(def.fields, data) && !DupConflict(old(rows), def.unique, data, 0)) ==>
                (|| r.Ok?
                 || (r == Err(Refusal(500, Internal))
                     && (|who| > OPERATOR_WIDTH || old(nextId) > MAX_INT64 || !old(SequenceAhead()))))
    {
      if def.deprecated { return Err(Refusal(409, TypeDeprecated)); }
      var invalid := ValidateForWrite(def.fields, data, history, false);
      if invalid.Some? { return Err(invalid.value); }
      var dup := CheckUniqueDup(def, data, 0);
      if dup.Some? { return Err(dup.value); }
      if nextId > MAX_INT64 { return Err(Refusal(500, Internal)); }
      var id := nextId;
      nextId := nextId + 1;
      var w := Sql.InsertDoc(id, data, who, now);
      if !w.Row? || id in rows { return Err(Refusal(500, Internal)); }
      rows := rows[id := w.doc];
      return Ok(w.doc);
    }

    method Update(def: Definition, history: seq<seq<Field>>, id: int, version: int, patch: Data,
                  who: string, now: Time)
      returns (r: Result<Doc, Error>)
      requires Valid() && now != ZERO_TIME
      modifies this`rows
      ensures Valid() && (old(SequenceAhead()) ==> SequenceAhead())
      ensures var op := UpdateOp(def.fields, id, version, patch, who, now);
              && (r.Ok? <==> !def.deprecated && CheckedApply(old(rows), def.unique, op).Some?)
              && (r.Ok? ==> Some(rows) == Apply(old(rows), op) && rows[id] == r.value)
      ensures r.Ok? ==> r.value == old(rows)[id].(version := version + 1, data := old(rows)[id].data + patch,
                                                  updatedBy := Signed(who), updatedAt := now)
      ensures r.Err? ==> rows == old(rows)
      ensures r.Err? ==> UpdateRefusal(old(rows), def, history, id, version, patch, who, r.error)
    {
      if def.deprecated { return Err(Refusal(409, TypeDeprecated)); }
      if version < 1 { return Err(Error(422, ValidationError, "version", NoReason)); }
      if id !in rows { return Err(Refusal(404, DataNotFound)); }
      var doc := rows[id];
      if doc.status != Active { return Err(Refusal(409, Conflict)); }
      if doc.version != version { return Err(Refusal(409, Conflict)); }
      var merged := MergeData(doc.data, patch);
      var invalid := ValidateForWrite(def.fields, merged, history, true);
      if invalid.Some? { return Err(invalid.value); }
      var dup := CheckUniqueDup(def, merged, id);
      if dup.Some? { return Err(dup.value); }
      assert StoredOk(id, doc);
      match Sql.UpdateDocData(rows, id, version, merged, who, now)
      case Row(d) => rows := rows[id := d]; return Ok(d);
      case NoRow => return Err(Refusal(409, Conflict));
      case TooWide => return Err(Refusal(500, Internal));
    }

    method SoftDelete(id: int, who: string, now: Time) returns (r: Result<Doc, Error>)
      requires Valid() && now != ZERO_TIME
      modifies this`rows
      ensures Valid() && (old(SequenceAhead()) ==> SequenceAhead())
      ensures var op := DeleteOp(id, who, now);
              && (r.Ok? <==> Apply(old(rows), op).Some?)
              && (r.Ok? ==> Some(rows) == Apply(old(rows), op) && rows[id] == r.value)
      ensures r.Err? ==> rows == old(rows)
      ensures r.Ok? && old(rows)[id].status == Active ==>
                r.value == old(rows)[id].(version := old(rows)[id].version + 1, status := Deleted,
                                          updatedBy := Signed(who), updatedAt := now)
      ensures r.Err? ==> r.error == if id !in old(rows) then Refusal(404, DataNotFound) else Refusal(500, Internal)
      ensures id in old(rows) && old(rows)[id].status == Deleted ==> rows == old(rows) && r == Ok(old(rows)[id])
    {
      if id !in rows { return Err(Refusal(404, DataNotFound)); }
      var doc := rows[id];
      assert StoredOk(id, doc);
      assert rows[id := doc] == rows;
      if doc.status == Active {
        match Sql.UpdateDocStatus(rows, id, Active, Deleted, who, now) {
          case Row(d) => rows := rows[id := d]; doc := d;
          case NoRow =>
          case TooWide => return Err(Refusal(500, Internal));
        }
      }
      return Ok(doc);
    }

    method Restore(def: Definition, id: int, who: string, now: Time) returns (r: Result<Doc, Error>)
      requires Valid() && now != ZERO_TIME
      modifies this`rows
      ensures Valid() && (old(SequenceAhead()) ==> SequenceAhead())
      ensures var op := RestoreOp(id, who, now);
              && (r.Ok? <==> CheckedApply(old(rows), def.unique, op).Some?)
              && (r.Ok? ==> Some(rows) == Apply(old(rows), op) && rows[id] == r.value)
      ensures r.Err? ==> rows == old(rows)
      ensures r.Ok? && old(rows)[id].status == Deleted ==>
                r.value == old(rows)[id].(version := old(rows)[id].version + 1, status := Active,
                                          updatedBy := Signed(who), updatedAt := now)
      ensures r.Err? ==>
                if id !in old(rows) then r.error == Refusal(404, DataNotFound)
                else if DupConflict(old(rows), def.unique, old(rows)[id].data, id)
                then DupRefusal(old(rows), def.unique, old(rows)[id].data, id, r.error)
                else r.error == Refusal(500, Internal)
      ensures id in old(rows) && old(rows)[id].status == Active ==> rows == old(rows) && r == Ok(old(rows)[id])
    {
      if id !in rows { return Err(Refusal(404, DataNotFound)); }
      var doc := rows[id];
      assert StoredOk(id, doc);
      assert rows[id := doc] == rows;
      if doc.status == Deleted {
        var dup := CheckUniqueDup(def, doc.data, id);
        if dup.Some? { return Err(dup.value); }
        match Sql.UpdateDocStatus(rows, id, Deleted, Active, who, now) {
          case Row(d) => rows := rows[id := d]; doc := d;
          case NoRow =>
          case TooWide => return Err(Refusal(500, Internal));
        }
      }
      return Ok(doc);
    }

    /** setval to MAX(id) + 1 of the new rows; an overflow fails and leaves the sequence alone. */
    method SetSequenceAfterImport(def: Definition, pending: Rows, ghost file: seq<FileDoc>, ghost now: Time)
      returns (max: Result<int, ImportFail>)
      requires RowsAcceptable(def.fields, file) && pending == Load(file, now)
      modifies this`nextId
      ensures max.Ok? <==> ImportAccepts(def.fields, file)
      ensures max.Ok? ==> IsMaxId(pending, max.value) && nextId == max.value + 1 > 0
      ensures max.Err? ==> nextId == old(nextId) && max.error.RowFail?
    {
      LoadIsFile(file, now);
      var m := MaxId(pending);
      MaxIdOverflows(def.fields, file, now, m);
      if m >= MAX_INT64 { return Err(RowFail(Refusal(500, Internal))); }
      nextId := m + 1;
      return Ok(m);
    }

    /** The full-replace import. `commits` is false when the final commit fails: the rows are then rolled
        back, the sequence is not. Nothing in the contract depends on the batch size. */
    method Import(def: Definition, dec: Decoder, batchRows: nat, now: Time, commits: bool)
      returns (r: Result<ImportResult, ImportFail>)
      requires Valid() && now != ZERO_TIME
      requires batchRows >= 1 && dec.pos == 0 && !dec.afterValue
      modifies this, dec
      ensures Valid()
      ensures r.Ok? ==> SequenceAhead()
      ensures r.Err? && old(SequenceAhead()) ==>
                (SequenceAhead() <==> (r == Err(CommitFail) ==> IdsCovered(rows, File(dec))))
      ensures r.Ok? <==> !def.deprecated && commits && Importable(def.fields, dec)
      ensures r.Ok? ==> ReplacedBy(old(rows), rows, nextId, def.fields, File(dec), now, r.value)
      ensures r.Err? ==> rows == old(rows)
      ensures r.Err? && nextId != old(nextId) ==>
                && r == Err(CommitFail) && !commits && Importable(def.fields, dec)
                && IsMaxId(Load(File(dec), now), nextId - 1)
      ensures r.Err? && r.error.FileFail? ==> ParseArray(dec.toks, dec.end) == Err(r.error.fail)
      ensures def.deprecated ==> r == Err(GateFail(Refusal(409, TypeDeprecated)))
    {
      if def.deprecated { return Err(GateFail(Refusal(409, TypeDeprecated))); }
      var deleted := |rows|;
      var session := new ImportSession(def.fields, now);
      var fail := DecodeBatches(dec, batchRows, session);
      if fail.Some? { return Err(fail.value); }
      ghost var file := session.loaded;
      var max := SetSequenceAfterImport(def, session.pending, file, now);
      if max.Err? { return Err(max.error); }
      LoadReplaces(rows, def.fields, file, now, max.value);
      BelowMaxIff(def.fields, file, now, rows, max.value);
      if !commits { return Err(CommitFail); }
      ApplyKeepsTableOk(rows, ImportOp(def.fields, file, now));
      rows := session.pending;
      return Ok(ImportResult(session.rowCount, deleted, max.value));
    }

    /** All rows in id order, streamed as a JSON array. `fault` is where and how the query breaks off, if
        it does. What a failed export has written no import accepts. */
    method Export(w: Sink, fault: Option<(nat, Error)>) returns (e: Option<Error>)
      requires Valid() && w.out == []
      modifies w
      ensures e.None? ==> exists docs :: RoundTrip.IsExport(rows, docs) && w.out == Encoded(ExportedAll(docs))
      ensures fault.None? && w.room.None? ==> e.None?
      ensures e.Some? ==> forall end :: ParseArray(w.out, end).Err?
    {
      TableHasRowIds();
      var sorted := SortById(rows);
      var it: DocIter;
      if fault.Some? && fault.value.0 <= |sorted| {
        it := new DocIter(sorted[..fault.value.0], Some(fault.value.1));
      } else {
        it := new DocIter(sorted, None);
      }
      e := EncodeDocs(w, it);
      forall end | e.Some? ensures ParseArray(w.out, end).Err? {
        CutShortIsRejected(w.out, ExportedAll(it.docs), end);
      }
    }

    lemma TableHasRowIds()
      requires TableOk(rows)
      ensures RowIdsOk(rows)
    {
      forall id | id in rows ensures rows[id].id == id { assert StoredOk(id, rows[id]); }
    }

    /** One list request: the page, its effective size, and the cursor of the next page. `text` is the
        text of a JSON value as a query compares it, `fold` the case folding of ILIKE. */
    method ListData(def: Definition, filter: ListFilter, text: Value -> string, fold: char -> char,
                    cur: Option<Paging.Cursor>, requested: int, defaultSize: int, maxSize: int)
      returns (r: Result<ListPage, Error>)
      requires Valid() && 0 < defaultSize <= maxSize
      ensures r.Ok? <==> FilterOk(def.fields, filter)
      ensures r.Err? ==> r.error == Error(422, ValidationError, Blamed(filter), NoReason)
      ensures r.Ok? ==> Paging.NewestFirst(r.value.docs, cur)
      ensures r.Ok? && filter == ListFilter("", "", "", filter.includeDeleted) && cur.None?
              && |r.value.docs| < r.value.size ==>
                forall id | id in rows ::
                  Paging.InPage(r.value.docs, id) <==>
                  rows[id].status == Active || (rows[id].status == Deleted && filter.includeDeleted)
      ensures r.Ok? ==>
                && 1 <= r.value.size <= maxSize
                && (1 <= requested <= maxSize ==> r.value.size == requested)
                && (requested == 0 ==> r.value.size == defaultSize)
                && r.value.next == Paging.NextCursor(r.value.docs, r.value.size)
                && exists scalars ::
                     && AreScalars(def.fields, scalars)
                     && var f := filter.(keyword := Trimmed(filter.keyword));
                        Paging.IsPage(rows, d => Selected(scalars, f, text, fold, d), cur,
                                      r.value.size, r.value.docs)
    {
      var size := Paging.HandlerPageSize(requested, defaultSize, maxSize);
      var limit := Paging.ServicePageSize(size, defaultSize, maxSize);
      var bad := CheckFilter(def.fields, filter);
      if bad.Some? { return Err(bad.value); }
      var f := filter.(keyword := Trimmed(filter.keyword));
      var scalars := ScalarFields(def.fields);
      TableHasRowIds();
      var page := Paging.ListDocs(rows, d => Selected(scalars, f, text, fold, d), cur, limit);
      Paging.PageIsNewestFirst(rows, d => Selected(scalars, f, text, fold, d), cur, limit, page);
      forall id | id in rows && Paging.InPage(page, id) ensures Selected(scalars, f, text, fold, rows[id]) {
        var i :| 0 <= i < |page| && page[i].id == id;
        assert Paging.Eligible(rows, d => Selected(scalars, f, text, fold, d), cur, page[i].id);
      }
      var next := None;
      if |page| == size {
        var last := page[|page| - 1];
        next := Some(Paging.Cursor(last.createdAt, last.id));
      }
      return Ok(ListPage(page, size, next));
    }
  }

  /** Why an update is refused, in the order of its checks. */
  ghost predicate UpdateRefusal(rows: Rows, def: Definition, history: seq<seq<Field>>, id: int, version: int,
                                patch: Data, who: string, e: Error)
  {
    if def.deprecated then e == Refusal(409, TypeDeprecated)
    else if version < 1 then e == Error(422, ValidationError, "version", NoReason)
    else if id !in rows then e == Refusal(404, DataNotFound)
    else if rows[id].status != Active || rows[id].version != version then e == Refusal(409, Conflict)
    else
      var merged := rows[id].data + patch;
      if !Conforms(def.fields, merged) then WriteRefusal(def.fields, merged, history, true, e)
      else if DupConflict(rows, def.unique, merged, id) then DupRefusal(rows, def.unique, merged, id, e)
      else |who| > OPERATOR_WIDTH && e == Refusal(500, Internal)
  }

  /** Exporting one table and importing the file into another, or into itself. */
  method ExportThenImport(source: TypeTable, target: TypeTable, def: Definition, batchRows: nat, now: Time)
    returns (r: Result<ImportResult, ImportFail>)
    requires source.Valid() && target.Valid() && now != ZERO_TIME && batchRows >= 1
    modifies target
    ensures target.Valid()
    ensures r.Ok? <==> !def.deprecated && RoundTrip.Reimportable(def.fields, old(source.rows))
    ensures target.rows == if r.Ok? then RoundTrip.VersionsReset(old(source.rows)) else old(target.rows)
  {
    var w := new Sink(None, false);
    var broken := source.Export(w, None);
    RoundTrip.ExportedStream(source.rows, w.out, def.fields, now, BadFile);
    var dec := new Decoder(w.out, BadFile);
    r := target.Import(def, dec, batchRows, now, true);
  }

  /** The documents of a well-formed stream. */
  function File(dec: Decoder): seq<FileDoc> {
    match ParseArray(dec.toks, dec.end) case Ok(docs) => docs case Err(_) => []
  }

  ghost predicate Importable(fields: seq<Field>, dec: Decoder) {
    ParseArray(dec.toks, dec.end).Ok? && ImportAccepts(fields, File(dec))
  }

  /** The rows, the sequence and the reported counts after a committed import. */
  ghost predicate ReplacedBy(before: Rows, after: Rows, nextId: int, fields: seq<Field>, file: seq<FileDoc>,
                             now: Time, counts: ImportResult)
  {
    && Some(after) == Apply(before, ImportOp(fields, file, now))
    && IsMaxId(after, counts.maxId) && nextId == counts.maxId + 1
    && counts.rows == |file| == |after|
    && counts.deleted == |before|
  }

  lemma LoadReplaces(before: Rows, fields: seq<Field>, file: seq<FileDoc>, now: Time, max: int)
    requires ImportAccepts(fields, file) && IsMaxId(Load(file, now), max)
    ensures ReplacedBy(before, Load(file, now), max + 1, fields, file, now,
                       ImportResult(|file|, |before|, max))
  {
    LoadIsFile(file, now);
  }

  /** The old row as a base, overwritten key by key. */
  method MergeData(base: Data, patch: Data) returns (merged: Data)
    ensures merged == base + patch
  {
    merged := map[];
    var todo := base.Keys;
    while todo != {}
      invariant todo <= base.Keys && merged == map k | k in base && k !in todo :: base[k]
    {
      var k :| k in todo;
      merged := merged[k := base[k]];
      todo := todo - {k};
    }
    assert merged == base;
    todo := patch.Keys;
    while todo != {}
      invariant todo <= patch.Keys && merged == base + (map k | k in patch && k !in todo :: patch[k])
    {
      var k :| k in todo;
      merged := merged[k := patch[k]];
      todo := todo - {k};
    }
    assert (map k | k in patch && k !in todo :: patch[k]) == patch;
  }

  /** COALESCE(MAX(id), 0); ids of an import are positive. */
  method MaxId(rows: Rows) returns (max: int)
    requires forall id | id in rows :: id > 0
    ensures IsMaxId(rows, max) && max >= 0
  {
    max := 0;
    var todo := rows.Items;
    while todo != {}
      invariant todo <= rows.Items && max >= 0
      invariant forall id | id in rows && (id, rows[id]) !in todo :: id <= max
      invariant max in rows || (max == 0 && forall id | id in rows :: (id, rows[id]) in todo)
    {
      var row :| row in todo;
      if row.0 > max { max := row.0; }
      todo := todo - {row};
    }
  }

  lemma MaxIdOverflows(fields: seq<Field>, file: seq<FileDoc>, now: Time, max: int)
    requires RowsAcceptable(fields, file) && IsMaxId(Load(file, now), max)
    ensures ImportAccepts(fields, file) <==> max < MAX_INT64
  {
    LoadIsFile(file, now);
    if max in Load(file, now) {
      var i :| 0 <= i < |file| && file[i].id == max;
    }
  }

  /** ORDER BY id. */
  method SortById(rows: Rows) returns (docs: seq<Doc>)
    requires RowIdsOk(rows)
    ensures RoundTrip.IsExport(rows, docs)
  {
    docs := [];
    var todo := rows.Items;
    while todo != {}
      invariant todo <= rows.Items
      invariant forall i, j | 0 <= i < j < |docs| :: docs[i].id < docs[j].id
      invariant forall i | 0 <= i < |docs| :: docs[i].id in rows && rows[docs[i].id] == docs[i]
      invariant forall i, r | 0 <= i < |docs| && r in todo :: docs[i].id < r.0
      invariant forall id | id in rows :: (id, rows[id]) in todo || Paging.InPage(docs, id)
    {
      var least := Least(todo);
      ghost var before := docs;
      docs := docs + [least.1];
      forall id | Paging.InPage(before, id) ensures Paging.InPage(docs, id) {
        var i :| 0 <= i < |before| && before[i].id == id;
        assert docs[i].id == id;
      }
      assert docs[|before|].id == least.0;
      todo := todo - {least};
    }
    forall id | id in rows ensures exists i | 0 <= i < |docs| :: docs[i].id == id {
      assert Paging.InPage(docs, id);
    }
  }

  method Least(todo: set<(int, Doc)>) returns (best: (int, Doc))
    requires todo != {}
    requires forall a, b | a in todo && b in todo && a != b :: a.0 != b.0
    ensures best in todo && forall r | r in todo && r != best :: best.0 < r.0
  {
    best :| best in todo;
    var rest := todo - {best};
    while rest != {}
      invariant rest <= todo && best in todo && best !in rest
      invariant forall r | r in todo && r !in rest && r != best :: best.0 < r.0
    {
      var r :| r in rest;
      rest := rest - {r};
      if r.0 < best.0 { best := r; }
    }
  }
}
