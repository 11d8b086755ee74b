/** The streamed JSON array of an export file, at the level of tokens: brackets, commas and whole
    documents (array grammar of section 5 of RFC 8259). White space carries no token. */
module Transfer {
  import opened Types

  /** `Junk` is anything that is not a document where a document is due; `Cut` is a document that the
      stream ends in the middle of. */
  datatype Token = LBracket | RBracket | RBrace | Comma | DocTok(doc: FileDoc) | Junk | Cut

  /** How a decode fails: not a well-formed array (400), or the reader's size limit was hit (413). */
  datatype Fail = BadFile | TooLarge

  // ---------- the format ----------

  function Items(docs: seq<FileDoc>): seq<Token> {
    if docs == [] then []
    else if |docs| == 1 then [DocTok(docs[0])]
    else Items(docs[..|docs| - 1]) + [Comma, DocTok(docs[|docs| - 1])]
  }

  function Encoded(docs: seq<FileDoc>): seq<Token> {
    [LBracket] + Items(docs) + [RBracket]
  }

  /** What follows the opening bracket (`first`) or a document. Tokens after the closing bracket are
      not looked at. */
  function ParseItems(toks: seq<Token>, first: bool, end: Fail): Result<seq<FileDoc>, Fail>
    decreases |toks|, 1
  {
    if toks == [] then Err(end)
    else if toks[0] == RBracket then Ok([])
    else if toks[0] == RBrace then Err(BadFile)
    else if first then ParseItem(toks, end)
    else if toks[0] != Comma then Err(BadFile)
    else if |toks| == 1 then Err(end)
    else ParseItem(toks[1..], end)
  }

  function ParseItem(toks: seq<Token>, end: Fail): Result<seq<FileDoc>, Fail>
    requires toks != []
    decreases |toks|, 0
  {
    match toks[0]
    case DocTok(d) =>
      (match ParseItems(toks[1..], false, end)
       case Ok(ds) => Ok([d] + ds)
       case Err(e) => Err(e))
    case Cut => Err(end)
    case _ => Err(BadFile)
  }

  function ParseArray(toks: seq<Token>, end: Fail): Result<seq<FileDoc>, Fail> {
    if toks == [] then Err(end)
    else if toks[0] != LBracket then Err(BadFile)
    else ParseItems(toks[1..], true, end)
  }

  /** Items after the first, each with its comma in front. */
  function MoreItems(docs: seq<FileDoc>): seq<Token> {
    if docs == [] then [] else [Comma, DocTok(docs[0])] + MoreItems(docs[1..])
  }

  lemma {:induction false} MoreItemsAppend(docs: seq<FileDoc>, d: FileDoc)
    ensures MoreItems(docs + [d]) == MoreItems(docs) + [Comma, DocTok(d)]
  {
    if docs == [] {
      assert (docs + [d])[1..] == [];
    } else {
      assert (docs + [d])[1..] == docs[1..] + [d];
      MoreItemsAppend(docs[1..], d);
    }
  }

  lemma {:induction false} ItemsFromFront(docs: seq<FileDoc>)
    requires docs != []
    ensures Items(docs) == [DocTok(docs[0])] + MoreItems(docs[1..])
  {
    if |docs| > 1 {
      var n := |docs| - 1;
      ItemsFromFront(docs[..n]);
      assert docs[1..] == docs[..n][1..] + [docs[n]];
      MoreItemsAppend(docs[..n][1..], docs[n]);
    }
  }

  lemma {:induction false} ParseMoreIff(toks: seq<Token>, end: Fail, docs: seq<FileDoc>)
    ensures ParseItems(toks, false, end) == Ok(docs) <==> MoreItems(docs) + [RBracket] <= toks
    decreases |toks|
  {
    var enc := MoreItems(docs) + [RBracket];
    if docs == [] {
      assert enc == [RBracket];
      if |toks| >= 2 && toks[0] == Comma && toks[1].DocTok? { assert enc[0] != toks[0]; }
    } else {
      var rest := MoreItems(docs[1..]) + [RBracket];
      assert enc == [Comma, DocTok(docs[0])] + rest;
      if |toks| >= 2 && toks[0] == Comma && toks[1].DocTok? {
        assert toks[1..][1..] == toks[2..];
        ParseMoreIff(toks[2..], end, docs[1..]);
        PrefixAfterTwo(enc, rest, toks, docs[0]);
        FirstDoc(toks, end, docs);
      } else {
        assert enc[0] == Comma && enc[1] == DocTok(docs[0]);
      }
    }
  }

  lemma PrefixAfterTwo(enc: seq<Token>, rest: seq<Token>, toks: seq<Token>, d: FileDoc)
    requires enc == [Comma, DocTok(d)] + rest && |toks| >= 2
    ensures enc <= toks <==> toks[0] == Comma && toks[1] == DocTok(d) && rest <= toks[2..]
  {
    if toks[0] == Comma && toks[1] == DocTok(d) && rest <= toks[2..] {
      assert toks == [Comma, DocTok(d)] + toks[2..];
    }
    if enc <= toks {
      assert toks[0] == enc[0] && toks[1] == enc[1];
      assert toks[..|enc|] == enc;
      assert toks[2..][..|rest|] == rest;
    }
  }

  lemma FirstDoc(toks: seq<Token>, end: Fail, docs: seq<FileDoc>)
    requires |toks| >= 2 && toks[0] == Comma && toks[1].DocTok? && docs != []
    ensures ParseItems(toks, false, end) == Ok(docs)
            <==> toks[1].doc == docs[0] && ParseItems(toks[2..], false, end) == Ok(docs[1..])
  {
    assert toks[1..][1..] == toks[2..];
    var r := ParseItems(toks[2..], false, end);
    if r.Ok? {
      assert ParseItems(toks, false, end) == Ok([toks[1].doc] + r.value);
      assert ([toks[1].doc] + r.value)[1..] == r.value;
      assert docs == [docs[0]] + docs[1..];
    }
  }

  /** The decoder accepts exactly the streams that begin with an encoded array, and reads its documents. */
  lemma ParseOkIff(toks: seq<Token>, end: Fail, docs: seq<FileDoc>)
    ensures ParseArray(toks, end) == Ok(docs) <==> Encoded(docs) <= toks
  {
    var enc := Encoded(docs);
    if docs == [] {
      assert enc == [LBracket, RBracket];
      if |toks| >= 2 && toks[0] == LBracket {
        EmptyArray(toks, end);
        assert toks[..2] == [LBracket, toks[1]];
        PrefixHeads(enc, toks);
      }
    } else {
      ItemsFromFront(docs);
      var rest := MoreItems(docs[1..]) + [RBracket];
      assert enc == [LBracket, DocTok(docs[0])] + rest;
      if |toks| >= 2 && toks[0] == LBracket && toks[1].DocTok? {
        ParseMoreIff(toks[2..], end, docs[1..]);
        FirstOfArray(toks, end, docs);
        FrontPrefix(enc, rest, toks);
      } else {
        assert enc[0] == LBracket && enc[1] == DocTok(docs[0]);
        PrefixHeads(enc, toks);
        if |toks| >= 2 && toks[0] == LBracket { NoFirstDoc(toks, end); }
      }
    }
  }

  lemma PrefixHeads(a: seq<Token>, b: seq<Token>)
    ensures |a| >= 2 && a <= b ==> b[0] == a[0] && b[1] == a[1]
  {
  }

  lemma NoFirstDoc(toks: seq<Token>, end: Fail)
    requires |toks| >= 2 && toks[0] == LBracket && !toks[1].DocTok?
    ensures ParseArray(toks, end).Ok? ==> ParseArray(toks, end).value == []
  {
    assert toks[1..][0] == toks[1];
    assert ParseItem(toks[1..], end).Err?;
  }

  lemma EmptyArray(toks: seq<Token>, end: Fail)
    requires |toks| >= 2 && toks[0] == LBracket
    ensures ParseArray(toks, end) == Ok([]) <==> toks[1] == RBracket
  {
    assert toks[1..][0] == toks[1];
    var r := ParseItem(toks[1..], end);
    assert r.Ok? ==> r.value != [];
  }

  lemma FirstOfArray(toks: seq<Token>, end: Fail, docs: seq<FileDoc>)
    requires |toks| >= 2 && toks[0] == LBracket && toks[1].DocTok? && docs != []
    ensures ParseArray(toks, end) == Ok(docs)
            <==> toks[1].doc == docs[0] && ParseItems(toks[2..], false, end) == Ok(docs[1..])
  {
    assert toks[1..][0] == toks[1] && toks[1..][1..] == toks[2..];
    assert ParseArray(toks, end) == ParseItem(toks[1..], end);
    var r := ParseItems(toks[2..], false, end);
    if r.Ok? {
      assert ([toks[1].doc] + r.value)[1..] == r.value;
      assert docs == [docs[0]] + docs[1..];
    }
  }

  lemma FrontPrefix(enc: seq<Token>, rest: seq<Token>, toks: seq<Token>)
    requires |enc| >= 2 && |toks| >= 2 && enc == [enc[0], enc[1]] + rest
    ensures enc <= toks <==> enc[0] == toks[0] && enc[1] == toks[1] && rest <= toks[2..]
  {
    if enc[0] == toks[0] && enc[1] == toks[1] && rest <= toks[2..] {
      assert toks == [enc[0], enc[1]] + toks[2..];
    }
    if enc <= toks {
      assert enc[0] == toks[0] && enc[1] == toks[1];
      assert toks[..|enc|] == enc;
      assert toks[2..][..|rest|] == rest;
    }
  }

  /** Round trip: what was encoded is read back, whatever follows it. */
  lemma DecodeEncoded(docs: seq<FileDoc>, after: seq<Token>, end: Fail)
    ensures ParseArray(Encoded(docs) + after, end) == Ok(docs)
  {
    assert Encoded(docs) <= Encoded(docs) + after;
    ParseOkIff(Encoded(docs) + after, end, docs);
  }

  /** The stream of an array: brackets around, documents at the odd places, commas between them. */
  lemma {:induction false} EncodedShape(docs: seq<FileDoc>)
    ensures |Encoded(docs)| == if docs == [] then 2 else 2 * |docs| + 1
    ensures Encoded(docs)[0] == LBracket && Encoded(docs)[|Encoded(docs)| - 1] == RBracket
    ensures forall i | 0 <= i < |docs| :: Encoded(docs)[2 * i + 1] == DocTok(docs[i])
    ensures forall i | 1 <= i < |docs| :: Encoded(docs)[2 * i] == Comma
  {
    if |docs| > 1 {
      var n := |docs| - 1;
      EncodedShape(docs[..n]);
      var front := Encoded(docs[..n]);
      assert Encoded(docs) == front[..|front| - 1] + [Comma, DocTok(docs[n]), RBracket];
      assert forall i | 0 <= i < n :: docs[..n][i] == docs[i];
    }
  }

  /** A stream that ends between tokens fails as it ends: a malformed file is told from one that has run
      into the size limit. */
  lemma {:induction false} MoreItemsCut(docs: seq<FileDoc>, k: nat, end: Fail)
    requires k <= |MoreItems(docs)|
    ensures ParseItems(MoreItems(docs)[..k], false, end) == Err(end)
  {
    if k >= 2 {
      var toks, rest := MoreItems(docs)[..k], MoreItems(docs[1..])[..k - 2];
      assert toks == [Comma, DocTok(docs[0])] + rest;
      assert toks[1..][0] == DocTok(docs[0]) && toks[1..][1..] == rest;
      MoreItemsCut(docs[1..], k - 2, end);
    }
  }

  lemma CutFailsAsItEnds(docs: seq<FileDoc>, k: nat, end: Fail)
    requires k < |Encoded(docs)|
    ensures ParseArray(Encoded(docs)[..k], end) == Err(end)
  {
    var toks := Encoded(docs)[..k];
    if docs == [] {
      assert Encoded(docs) == [LBracket, RBracket];
    } else {
      ItemsFromFront(docs);
      if k >= 2 {
        var rest := MoreItems(docs[1..])[..k - 2];
        assert toks == [LBracket, DocTok(docs[0])] + rest;
        assert toks[1..] == [DocTok(docs[0])] + rest && toks[1..][1..] == rest;
        MoreItemsCut(docs[1..], k - 2, end);
        assert ParseItem(toks[1..], end) == Err(end);
      } else if k == 1 {
        assert toks == [LBracket] && toks[1..] == [];
      }
    }
  }

  /** A truncated file never decodes, whether it stops between tokens or inside a document. */
  lemma TruncatedIsRejected(docs: seq<FileDoc>, k: nat, end: Fail)
    requires k < |Encoded(docs)|
    ensures ParseArray(Encoded(docs)[..k], end).Err?
    ensures ParseArray(Encoded(docs)[..k] + [Cut], end).Err?
  {
    PrefixIsRejected(docs, k, Encoded(docs)[..k], end);
    PrefixIsRejected(docs, k, Encoded(docs)[..k] + [Cut], end);
  }

  lemma PrefixIsRejected(docs: seq<FileDoc>, k: nat, toks: seq<Token>, end: Fail)
    requires k < |Encoded(docs)| && toks in {Encoded(docs)[..k], Encoded(docs)[..k] + [Cut]}
    ensures ParseArray(toks, end).Err?
  {
    var enc := Encoded(docs);
    if ParseArray(toks, end).Ok? {
      var got := ParseArray(toks, end).value;
      ParseOkIff(toks, end, got);
      var short := Encoded(got);
      assert short[|short| - 1] == RBracket;
      assert short <= toks && |short| <= k;
      assert short <= enc;
      ParseOkIff(enc, end, got);
      ParseOkIff(enc, end, docs);
      assert false;
    }
  }

  // ---------- the encoder ----------

  /** The file row names every column of the stored one, its version included. */
  predicate ShowsRow(d: FileDoc, row: Doc) {
    && d.id == row.id && d.version == row.version && d.status == row.status && d.data == Some(row.data)
    && d.createdBy == row.createdBy && d.updatedBy == row.updatedBy
    && d.createdAt == row.createdAt && d.updatedAt == row.updatedAt
  }

  /** A stored row as an export writes it. */
  function Exported(d: Doc): (shown: FileDoc)
    ensures ShowsRow(shown, d)
  {
    FileDoc(d.id, d.version, d.status, Some(d.data), d.createdBy, d.updatedBy, d.createdAt, d.updatedAt)
  }

  function ExportedAll(docs: seq<Doc>): (file: seq<FileDoc>)
    ensures |file| == |docs| && forall i | 0 <= i < |docs| :: file[i] == Exported(docs[i])
  {
    seq(|docs|, i requires 0 <= i < |docs| => Exported(docs[i]))
  }

  /** The pull iterator over a query's rows: it yields `docs` and then either the end or, when the query
      or the scan of a row breaks off there, `fault`. */
  class DocIter {
    const docs: seq<Doc>
    const fault: Option<Error>
    var pos: nat

    constructor (docs: seq<Doc>, fault: Option<Error>)
      ensures this.docs == docs && this.fault == fault && pos == 0
    {
      this.docs, this.fault := docs, fault;
      pos := 0;
    }

    method Next() returns (d: Result<Option<Doc>, Error>)
      requires pos <= |docs|
      modifies this
      ensures old(pos) < |docs| ==> d == Ok(Some(docs[old(pos)])) && pos == old(pos) + 1
      ensures old(pos) == |docs| ==> pos == old(pos) && d == if fault.Some? then Err(fault.value) else Ok(None)
    {
      if pos == |docs| {
        if fault.Some? { return Err(fault.value); }
        return Ok(None);
      }
      d := Ok(Some(docs[pos]));
      pos := pos + 1;
    }
  }

  /** The output stream. It takes `room` tokens and then breaks, possibly in the middle of a document. */
  class Sink {
    const room: Option<nat>
    const splits: bool
    var out: seq<Token>

    constructor (room: Option<nat>, splits: bool)
      ensures this.room == room && this.splits == splits && out == []
    {
      this.room, this.splits := room, splits;
      out := [];
    }

    predicate Takes(n: nat) { room.None? || n <= room.value }

    method Write(t: Token) returns (ok: bool)
      modifies this
      ensures ok <==> Takes(|old(out)| + 1)
      ensures ok ==> out == old(out) + [t]
      ensures !ok ==> out == old(out) || (t.DocTok? && out == old(out) + [Cut])
    {
      ok := room.None? || |out| < room.value;
      if ok {
        out := out + [t];
      } else if splits && t.DocTok? {
        out := out + [Cut];
      }
    }
  }

  /** A proper beginning of an encoded array, possibly ending inside a document. */
  ghost predicate CutShort(out: seq<Token>, docs: seq<FileDoc>) {
    exists k: nat :: k < |Encoded(docs)| && IsCutAt(out, docs, k)
  }

  predicate IsCutAt(out: seq<Token>, docs: seq<FileDoc>, k: nat)
    requires k <= |Encoded(docs)|
  {
    out == Encoded(docs)[..k] || out == Encoded(docs)[..k] + [Cut]
  }

  lemma {:induction false} ItemsPrefix(docs: seq<FileDoc>, k: nat)
    requires k <= |docs|
    ensures Items(docs[..k]) <= Items(docs)
    ensures k < |docs| ==> Items(docs[..k]) + (if k == 0 then [] else [Comma]) + [DocTok(docs[k])] <= Items(docs)
    decreases |docs|
  {
    if k < |docs| {
      var n := |docs| - 1;
      if k < n {
        assert docs[..n][..k] == docs[..k];
        ItemsPrefix(docs[..n], k);
        assert Items(docs[..n]) <= Items(docs);
      }
    } else {
      assert docs[..k] == docs;
    }
  }

  /** What has been written when `k` documents are out. */
  function Begun(docs: seq<FileDoc>, k: nat): seq<Token>
    requires k <= |docs|
  {
    [LBracket] + Items(docs[..k])
  }

  lemma BegunIsPrefix(docs: seq<FileDoc>, k: nat)
    requires k <= |docs|
    ensures |Begun(docs, k)| < |Encoded(docs)| && Begun(docs, k) == Encoded(docs)[..|Begun(docs, k)|]
    ensures 0 < k < |docs| ==> Begun(docs, k) + [Comma] == Encoded(docs)[..|Begun(docs, k)| + 1]
    ensures 0 < k < |docs| ==> |Begun(docs, k)| + 1 < |Encoded(docs)|
  {
    ItemsPrefix(docs, k);
  }

  /** Streams the array. Any error, of the query or of the stream, leaves a file that is cut short. */
  method EncodeDocs(w: Sink, it: DocIter) returns (e: Option<Error>)
    requires w.out == [] && it.pos == 0
    modifies w, it
    ensures e.None? <==> it.fault.None? && w.Takes(|Encoded(ExportedAll(it.docs))|)
    ensures e.None? ==> w.out == Encoded(ExportedAll(it.docs))
    ensures e.Some? ==> CutShort(w.out, ExportedAll(it.docs))
  {
    ghost var file := ExportedAll(it.docs);
    var broken := Some(Error(500, Internal, "", NoReason));
    assert Encoded(file)[..0] == [];
    var ok := w.Write(LBracket);
    if !ok { assert IsCutAt(w.out, file, 0); return broken; }
    var first := true;
    while true
      invariant it.pos <= |it.docs| && (first <==> it.pos == 0)
      invariant w.out == Begun(file, it.pos) && w.Takes(|w.out|)
      decreases |it.docs| - it.pos
    {
      ghost var k := it.pos;
      BegunIsPrefix(file, k);
      var d := it.Next();
      if d.Err? { assert IsCutAt(w.out, file, |Begun(file, k)|); return Some(d.error); }
      if d.value.None? { break; }
      BegunNext(file, k);
      if !first {
        ok := w.Write(Comma);
        if !ok { assert IsCutAt(w.out, file, |Begun(file, k)|); return broken; }
      }
      first := false;
      ghost var before := w.out;
      ok := w.Write(DocTok(Exported(d.value.value)));
      if !ok { assert IsCutAt(w.out, file, |before|); return broken; }
    }
    assert file[..|file|] == file;
    ok := w.Write(RBracket);
    if !ok { assert IsCutAt(w.out, file, |Begun(file, |file|)|); return broken; }
    return None;
  }

  lemma BegunNext(docs: seq<FileDoc>, k: nat)
    requires k < |docs|
    ensures Begun(docs, k + 1) == Begun(docs, k) + (if k == 0 then [] else [Comma]) + [DocTok(docs[k])]
    ensures |Begun(docs, k + 1)| <= |Encoded(docs)|
  {
    assert docs[..k + 1][..k] == docs[..k];
    BegunIsPrefix(docs, k + 1);
  }

  /** Whatever export broke off, the file it leaves is refused. */
  lemma CutShortIsRejected(out: seq<Token>, docs: seq<FileDoc>, end: Fail)
    requires CutShort(out, docs)
    ensures ParseArray(out, end).Err?
  {
    var k: nat :| k < |Encoded(docs)| && IsCutAt(out, docs, k);
    TruncatedIsRejected(docs, k, end);
  }

  // ---------- the streaming decoder ----------

  /** A token stream read from the front. `afterValue` says that a document has just been read, so that
      a comma is due. */
  class Decoder {
    const toks: seq<Token>
    const end: Fail
    var pos: nat
    var afterValue: bool

    constructor (toks: seq<Token>, end: Fail)
      ensures this.toks == toks && this.end == end && pos == 0 && !afterValue
    {
      this.toks, this.end := toks, end;
      pos, afterValue := 0, false;
    }

    ghost function Rest(): Result<seq<FileDoc>, Fail>
      requires pos <= |toks|
      reads this
    {
      ParseItems(toks[pos..], !afterValue, end)
    }

    method Open() returns (fail: Option<Fail>)
      requires pos == 0 && !afterValue
      modifies this
      ensures pos <= |toks| && !afterValue
      ensures fail.None? ==> pos == 1 && ParseArray(toks, end) == Rest()
      ensures fail.Some? ==> ParseArray(toks, end) == Err(fail.value)
    {
      if |toks| == 0 { return Some(end); }
      if toks[0] != LBracket { return Some(BadFile); }
      pos := 1;
      return None;
    }

    predicate HasMore()
      reads this
    {
      pos < |toks| && toks[pos] != RBracket && toks[pos] != RBrace
    }

    method Decode() returns (r: Result<FileDoc, Fail>)
      requires HasMore()
      modifies this
      ensures pos <= |toks|
      ensures r.Ok? ==> pos > old(pos) && afterValue
      ensures r.Ok? ==> old(Rest()) == match Rest() case Ok(ds) => Ok([r.value] + ds) case Err(e) => Err(e)
      ensures r.Err? ==> old(Rest()) == Err(r.error)
    {
      assert toks[pos..][0] == toks[pos];
      if afterValue {
        if toks[pos] != Comma { return Err(BadFile); }
        pos := pos + 1;
        afterValue := false;
        if pos == |toks| { return Err(end); }
        assert toks[old(pos)..][1..] == toks[pos..];
      }
      assert toks[pos..][0] == toks[pos] && toks[pos..][1..] == toks[pos + 1..];
      assert old(Rest()) == ParseItem(toks[pos..], end);
      match toks[pos]
      case DocTok(d) =>
        pos := pos + 1;
        afterValue := true;
        return Ok(d);
      case Cut => return Err(end);
      case _ => return Err(BadFile);
    }

    method Close() returns (fail: Option<Fail>)
      requires pos <= |toks| && !HasMore()
      modifies this
      ensures fail.None? <==> old(Rest()) == Ok([])
      ensures fail.Some? ==> old(Rest()) == Err(fail.value)
    {
      if pos == |toks| { return Some(end); }
      if toks[pos] != RBracket { return Some(BadFile); }
      pos := pos + 1;
      return None;
    }
  }
}
