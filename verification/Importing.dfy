/** The import loop: the file is decoded in batches, each batch is checked row by row, completed in
    place and inserted; the first failure ends the import. */
module Importing {
  import opened Types
  import opened Validation
  import opened Atomic
  import opened Transfer

  datatype ImportFail = FileFail(fail: Fail) | RowFail(error: Error) | GateFail(error: Error) | CommitFail

  function Flatten(batches: seq<seq<FileDoc>>): seq<FileDoc> {
    if batches == [] then [] else batches[0] + Flatten(batches[1..])
  }

  lemma {:induction false} FlattenSnoc(batches: seq<seq<FileDoc>>, b: seq<FileDoc>)
    ensures Flatten(batches + [b]) == Flatten(batches) + b
  {
    if batches == [] {
      assert (batches + [b])[1..] == [];
    } else {
      assert (batches + [b])[1..] == batches[1..] + [b];
      FlattenSnoc(batches[1..], b);
    }
  }

  /** In order and non-empty, and all full except possibly the last. */
  predicate Batched(batches: seq<seq<FileDoc>>, n: nat) {
    && (forall i | 0 <= i < |batches| :: 0 < |batches[i]| <= n)
    && (forall i | 0 <= i < |batches| - 1 :: |batches[i]| == n)
  }

  /** A file row after the check loop has filled in what the file left open. */
  function Filled(d: FileDoc, now: Time): FileDoc {
    d.(status := if d.status == Unset then Active else d.status,
       createdAt := if d.createdAt == ZERO_TIME then now else d.createdAt,
       updatedAt := if d.updatedAt == ZERO_TIME then now else d.updatedAt)
  }

  /** The import transaction's side of the loop: the rows it sees in the cleared table. */
  class ImportSession {
    const fields: seq<Field>
    const now: Time
    var pending: Rows
    var rowCount: int
    ghost var loaded: seq<FileDoc>
    ghost var delivered: seq<seq<FileDoc>>

    ghost predicate Valid()
      reads this
    {
      && RowsAcceptable(fields, loaded)
      && pending == Load(loaded, now)
      && rowCount == |loaded|
      && Flatten(delivered) == loaded
    }

    constructor (fields: seq<Field>, now: Time)
      ensures this.fields == fields && this.now == now
      ensures Valid() && loaded == [] && delivered == [] && pending == map[]
    {
      this.fields, this.now := fields, now;
      pending, rowCount := map[], 0;
      loaded, delivered := [], [];
    }

    /** The check loop. It stops at the first bad row. */
    method CheckRows(batch: array<FileDoc>) returns (e: Option<Error>)
      modifies batch
      ensures e.None? <==> forall i | 0 <= i < batch.Length :: FileRowOk(fields, old(batch[i]))
      ensures e.None? ==> forall i | 0 <= i < batch.Length :: batch[i] == Filled(old(batch[i]), now)
      ensures e.Some? ==> e.value.http == 422 && e.value.code == ValidationError
    {
      var bad := Some(Error(422, ValidationError, "", NoReason));
      for i := 0 to batch.Length
        invariant forall j | 0 <= j < i :: FileRowOk(fields, old(batch[j])) && batch[j] == Filled(old(batch[j]), now)
        invariant forall j | i <= j < batch.Length :: batch[j] == old(batch[j])
      {
        if batch[i].id <= 0 { return bad; }
        if batch[i].status == Unset { batch[i] := batch[i].(status := Active); }
        if batch[i].status != Active && batch[i].status != Deleted { return bad; }
        if batch[i].createdAt == ZERO_TIME { batch[i] := batch[i].(createdAt := now); }
        if batch[i].updatedAt == ZERO_TIME { batch[i] := batch[i].(updatedAt := now); }
        var invalid := ValidateData(fields, FileData(batch[i]));
        if invalid.Some? { return bad; }
      }
      return None;
    }

    /** One INSERT per row; what it carries is the row as an import normalises it. */
    method QueueBatch(batch: array<FileDoc>, ghost docs: seq<FileDoc>) returns (queue: seq<Doc>)
      requires |docs| == batch.Length && forall i | 0 <= i < |docs| :: batch[i] == Filled(docs[i], now)
      ensures |queue| == |docs| && forall i | 0 <= i < |docs| :: queue[i] == Normalise(docs[i], now)
    {
      queue := [];
      for i := 0 to batch.Length
        invariant |queue| == i && forall j | 0 <= j < i :: queue[j] == Normalise(docs[j], now)
      {
        queue := queue + [Queued(batch[i])];
      }
    }

    /** The first `i` documents of the batch are in. */
    ghost predicate HasLoaded(docs: seq<FileDoc>, i: nat)
      reads this
    {
      && i <= |docs|
      && RowsAcceptable(fields, (loaded + docs)[..|loaded| + i])
      && pending == Load((loaded + docs)[..|loaded| + i], now)
    }

    /** One statement of the queue. */
    method InsertRow(row: Doc, ghost docs: seq<FileDoc>, ghost i: nat) returns (e: Option<Error>)
      requires i < |docs| && HasLoaded(docs, i)
      requires FileRowOk(fields, docs[i]) && row == Normalise(docs[i], now)
      modifies this`pending
      ensures e.None? ==> HasLoaded(docs, i + 1)
      ensures e.Some? ==> !RowsAcceptable(fields, loaded + docs) && e.value.http in {422, 500}
    {
      NextRow(fields, loaded, docs, i, now);
      if |row.createdBy| > OPERATOR_WIDTH || |row.updatedBy| > OPERATOR_WIDTH {
        return Some(Error(500, Internal, "", NoReason));
      }
      if row.id in pending { return Some(Error(422, ValidationError, "id", NoReason)); }
      pending := pending[row.id := row];
      return None;
    }

    /** The queued statements, one after the other, up to the first that fails. */
    method RunQueue(queue: seq<Doc>, ghost docs: seq<FileDoc>) returns (e: Option<Error>)
      requires HasLoaded(docs, 0) && |docs| == |queue|
      requires forall i | 0 <= i < |docs| :: FileRowOk(fields, docs[i]) && queue[i] == Normalise(docs[i], now)
      modifies this`pending
      ensures e.None? <==> RowsAcceptable(fields, loaded + docs)
      ensures e.None? ==> HasLoaded(docs, |docs|)
      ensures e.Some? ==> e.value.http in {422, 500}
    {
      for i := 0 to |queue|
        invariant HasLoaded(docs, i)
      {
        e := InsertRow(queue[i], docs, i);
        if e.Some? { return; }
      }
      assert (loaded + docs)[..|loaded| + |docs|] == loaded + docs;
      return None;
    }

    /** Queues the batch, then runs the queue; a repeated id or an operator name that does not
        fit its column fails. */
    method InsertImportBatch(batch: array<FileDoc>, ghost docs: seq<FileDoc>) returns (e: Option<Error>)
      requires RowsAcceptable(fields, loaded) && pending == Load(loaded, now) && |docs| == batch.Length
      requires forall i | 0 <= i < |docs| :: FileRowOk(fields, docs[i]) && batch[i] == Filled(docs[i], now)
      modifies this`pending
      ensures e.None? <==> RowsAcceptable(fields, loaded + docs)
      ensures e.None? ==> pending == Load(loaded + docs, now)
      ensures e.Some? ==> e.value.http in {422, 500}
    {
      var queue := QueueBatch(batch, docs);
      assert (loaded + docs)[..|loaded|] == loaded && (loaded + docs)[..|loaded| + |docs|] == loaded + docs;
      e := RunQueue(queue, docs);
    }

    /** The callback of one batch. */
    method Handle(batch: array<FileDoc>) returns (e: Option<Error>)
      requires Valid()
      modifies this, batch
      ensures e.None? <==> RowsAcceptable(fields, old(loaded + batch[..]))
      ensures e.None? ==> Valid() && loaded == old(loaded + batch[..]) && delivered == old(delivered) + [old(batch[..])]
      ensures e.Some? ==> e.value.http in {422, 500}
    {
      ghost var docs := batch[..];
      e := CheckRows(batch);
      if e.Some? {
        BadRowSpoils(fields, loaded, docs);
        return;
      }
      rowCount := rowCount + batch.Length;
      e := InsertImportBatch(batch, docs);
      if e.None? {
        loaded := loaded + docs;
        FlattenSnoc(delivered, docs);
        delivered := delivered + [docs];
      }
    }
  }

  /** The values one INSERT of the batch carries. */
  function Queued(d: FileDoc): Doc {
    Doc(d.id, 1, d.status, FileData(d), Operator(d.createdBy), Operator(d.updatedBy), d.createdAt, d.updatedAt)
  }

  lemma PrefixStep<T>(a: seq<T>, b: seq<T>, i: nat)
    requires i < |b|
    ensures (a + b)[..|a| + i + 1] == (a + b)[..|a| + i] + [b[i]]
  {
  }

  lemma LoadedIds(file: seq<FileDoc>, id: int, now: Time)
    requires DistinctIds(file)
    ensures id in Load(file, now) <==> exists i :: 0 <= i < |file| && file[i].id == id
  {
    LoadIsFile(file, now);
  }

  /** One more good row extends an acceptable file exactly when it can be stored and its id is new. */
  lemma AddRow(fields: seq<Field>, before: seq<FileDoc>, d: FileDoc, now: Time)
    requires RowsAcceptable(fields, before) && FileRowOk(fields, d)
    ensures RowsAcceptable(fields, before + [d]) <==> Storable(d) && d.id !in Load(before, now)
    ensures Load(before + [d], now) == Load(before, now)[d.id := Normalise(d, now)]
  {
    var after := before + [d];
    assert after[..|after| - 1] == before;
    LoadedIds(before, d.id, now);
    AddAcceptable(fields, before, d);
  }

  /** What the next row of a batch does to the file loaded so far. */
  lemma NextRow(fields: seq<Field>, loaded: seq<FileDoc>, docs: seq<FileDoc>, i: nat, now: Time)
    requires i < |docs| && FileRowOk(fields, docs[i]) && RowsAcceptable(fields, (loaded + docs)[..|loaded| + i])
    ensures var all, n, d := loaded + docs, |loaded| + i, docs[i];
            && (RowsAcceptable(fields, all[..n + 1]) <==> Storable(d) && d.id !in Load(all[..n], now))
            && Load(all[..n + 1], now) == Load(all[..n], now)[d.id := Normalise(d, now)]
            && (!RowsAcceptable(fields, all[..n + 1]) ==> !RowsAcceptable(fields, all))
  {
    PrefixStep(loaded, docs, i);
    AddRow(fields, (loaded + docs)[..|loaded| + i], docs[i], now);
    PrefixRefused(fields, loaded + docs, |loaded| + i + 1);
  }

  lemma AddAcceptable(fields: seq<Field>, before: seq<FileDoc>, d: FileDoc)
    requires RowsAcceptable(fields, before) && FileRowOk(fields, d)
    ensures RowsAcceptable(fields, before + [d])
            <==> Storable(d) && forall i | 0 <= i < |before| :: before[i].id != d.id
  {
    var after := before + [d];
    assert forall i | 0 <= i < |before| :: after[i] == before[i];
    assert after[|before|] == d;
  }

  lemma PrefixRefused(fields: seq<Field>, file: seq<FileDoc>, k: nat)
    requires k <= |file|
    ensures !RowsAcceptable(fields, file[..k]) ==> !RowsAcceptable(fields, file)
  {
    assert file[..k] == file[0..0 + k];
    SliceAcceptable(fields, file, 0, k);
  }

  lemma BadRowSpoils(fields: seq<Field>, loaded: seq<FileDoc>, docs: seq<FileDoc>)
    requires !(forall i | 0 <= i < |docs| :: FileRowOk(fields, docs[i]))
    ensures !RowsAcceptable(fields, loaded + docs)
  {
    var i :| 0 <= i < |docs| && !FileRowOk(fields, docs[i]);
    assert (loaded + docs)[|loaded| + i] == docs[i];
  }

  // ---------- the decoding loop ----------

  /** A parse that starts with documents already read. */
  function Prefixed(docs: seq<FileDoc>, r: Result<seq<FileDoc>, Fail>): Result<seq<FileDoc>, Fail> {
    match r case Ok(ds) => Ok(docs + ds) case Err(e) => Err(e)
  }

  lemma PrefixedStep(docs: seq<FileDoc>, d: FileDoc, r: Result<seq<FileDoc>, Fail>)
    ensures Prefixed(docs, match r case Ok(ds) => Ok([d] + ds) case Err(e) => Err(e)) == Prefixed(docs + [d], r)
  {
    if r.Ok? { assert docs + ([d] + r.value) == docs + [d] + r.value; }
  }

  /** The file the stream holds, and whether all of it can be imported. */
  ghost predicate FileAcceptable(fields: seq<Field>, parsed: Result<seq<FileDoc>, Fail>) {
    parsed.Ok? && RowsAcceptable(fields, parsed.value)
  }

  /** Fills one batch; it stops early only at the end of the array or on a malformed stream. */
  method ReadBatch(dec: Decoder, n: nat, ghost before: seq<FileDoc>, ghost parsed: Result<seq<FileDoc>, Fail>)
    returns (batch: seq<FileDoc>, fail: Option<Fail>)
    requires n >= 1 && dec.HasMore() && parsed == Prefixed(before, dec.Rest())
    modifies dec
    ensures dec.pos <= |dec.toks|
    ensures fail.None? ==> 0 < |batch| <= n && (|batch| == n || !dec.HasMore()) && dec.pos > old(dec.pos)
    ensures fail.None? ==> parsed == Prefixed(before + batch, dec.Rest())
    ensures fail.Some? ==> parsed == Err(fail.value)
  {
    batch, fail := [], None;
    assert before + batch == before;
    while |batch| < n && dec.HasMore()
      invariant dec.pos <= |dec.toks| && |batch| <= n
      invariant |batch| == 0 ==> dec.HasMore() && dec.pos == old(dec.pos)
      invariant |batch| > 0 ==> dec.pos > old(dec.pos)
      invariant parsed == Prefixed(before + batch, dec.Rest())
      decreases n - |batch|
    {
      var r := dec.Decode();
      if r.Err? { fail := Some(r.error); return; }
      PrefixedStep(before + batch, r.value, dec.Rest());
      assert before + batch + [r.value] == before + (batch + [r.value]);
      batch := batch + [r.value];
    }
  }

  predicate AllFull(batches: seq<seq<FileDoc>>, n: nat) {
    forall i | 0 <= i < |batches| :: |batches[i]| == n
  }

  /** One round of the loop: the next batch is read and handed over. */
  method DecodeBatch(dec: Decoder, n: nat, s: ImportSession, ghost parsed: Result<seq<FileDoc>, Fail>)
    returns (fail: Option<ImportFail>)
    requires n >= 1 && dec.HasMore() && s.Valid() && parsed == Prefixed(s.loaded, dec.Rest())
    requires Batched(s.delivered, n) && AllFull(s.delivered, n)
    modifies dec, s
    ensures dec.pos <= |dec.toks|
    ensures fail.None? ==> s.Valid() && dec.pos > old(dec.pos) && parsed == Prefixed(s.loaded, dec.Rest())
    ensures fail.None? ==> Batched(s.delivered, n) && (dec.HasMore() ==> AllFull(s.delivered, n))
    ensures fail.Some? ==> !FileAcceptable(s.fields, parsed)
    ensures fail.Some? ==> fail.value.RowFail? || (fail.value.FileFail? && parsed == Err(fail.value.fail))
  {
    ghost var loaded := s.loaded;
    var docs, bad := ReadBatch(dec, n, loaded, parsed);
    if bad.Some? { return Some(FileFail(bad.value)); }
    var batch := new FileDoc[|docs|](i requires 0 <= i < |docs| => docs[i]);
    assert batch[..] == docs;
    label handling:
    var e := s.Handle(batch);
    if e.Some? {
      RefusedPrefix(s.fields, loaded + docs, dec.Rest(), parsed);
      return Some(RowFail(e.value));
    }
    assert dec.Rest() == old@handling(dec.Rest());
    return None;
  }

  /** Decodes the array batch by batch into the session. It succeeds exactly when the whole stream
      parses and all its rows are acceptable, whatever the batch size. */
  method DecodeBatches(dec: Decoder, n: nat, s: ImportSession) returns (fail: Option<ImportFail>)
    requires n >= 1 && dec.pos == 0 && !dec.afterValue
    requires s.Valid() && s.loaded == [] && s.delivered == []
    modifies dec, s
    ensures fail.None? <==> FileAcceptable(s.fields, ParseArray(dec.toks, dec.end))
    ensures fail.None? ==>
              && s.Valid() && s.loaded == ParseArray(dec.toks, dec.end).value
              && Batched(s.delivered, n)
    ensures fail.Some? && fail.value.FileFail? ==> ParseArray(dec.toks, dec.end) == Err(fail.value.fail)
    ensures fail.Some? ==> fail.value.FileFail? || fail.value.RowFail?
  {
    ghost var parsed := ParseArray(dec.toks, dec.end);
    var open := dec.Open();
    if open.Some? { return Some(FileFail(open.value)); }
    assert parsed.Ok? ==> [] + parsed.value == parsed.value;
    while dec.HasMore()
      invariant dec.pos <= |dec.toks| && s.Valid()
      invariant parsed == Prefixed(s.loaded, dec.Rest())
      invariant Batched(s.delivered, n)
      invariant dec.HasMore() ==> AllFull(s.delivered, n)
      decreases |dec.toks| - dec.pos
    {
      fail := DecodeBatch(dec, n, s, parsed);
      if fail.Some? { return; }
    }
    var close := dec.Close();
    if close.Some? { return Some(FileFail(close.value)); }
    assert s.loaded + [] == s.loaded;
    return None;
  }

  lemma RefusedPrefix(fields: seq<Field>, docs: seq<FileDoc>, rest: Result<seq<FileDoc>, Fail>,
                      parsed: Result<seq<FileDoc>, Fail>)
    requires parsed == Prefixed(docs, rest) && !RowsAcceptable(fields, docs)
    ensures !FileAcceptable(fields, parsed)
  {
    if parsed.Ok? {
      assert parsed.value[..|docs|] == docs;
      PrefixRefused(fields, parsed.value, |docs|);
    }
  }

  lemma FlattenEmptyIff(a: seq<seq<FileDoc>>, n: nat)
    requires Batched(a, n)
    ensures Flatten(a) == [] <==> a == []
  {
  }

  /** Being in order, non-empty and full but for the last leaves one way to cut a file into batches. */
  lemma {:induction false} BatchingIsUnique(a: seq<seq<FileDoc>>, b: seq<seq<FileDoc>>, n: nat)
    requires Batched(a, n) && Batched(b, n) && Flatten(a) == Flatten(b)
    ensures a == b
  {
    FlattenEmptyIff(a, n);
    FlattenEmptyIff(b, n);
    if a != [] {
      FirstBatchLength(a, n);
      FirstBatchLength(b, n);
      assert a[0] == Flatten(a)[..|a[0]|] && b[0] == Flatten(b)[..|b[0]|];
      assert Flatten(a[1..]) == Flatten(a)[|a[0]|..] && Flatten(b[1..]) == Flatten(b)[|b[0]|..];
      BatchingIsUnique(a[1..], b[1..], n);
      assert a == [a[0]] + a[1..] && b == [b[0]] + b[1..];
    }
  }

  lemma FirstBatchLength(a: seq<seq<FileDoc>>, n: nat)
    requires Batched(a, n) && a != []
    ensures |a[0]| == if |Flatten(a)| < n then |Flatten(a)| else n
  {
    if |a| == 1 { assert Flatten(a[1..]) == []; }
  }
}
