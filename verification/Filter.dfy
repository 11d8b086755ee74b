/** The filter of a list request: its checks, and the rows that the query's WHERE clause lets through. */
module Filter {
  import opened Types
  import opened Validation
  import opened Like

  const KEYWORD_MAX_BYTES: int := 100

  /** Unicode white space. */
  predicate IsSpace(c: char) {
    var n := c as int;
    || 0x09 <= n <= 0x0D || n == 0x20 || n == 0x85 || n == 0xA0 || n == 0x1680
    || 0x2000 <= n <= 0x200A || n == 0x2028 || n == 0x2029 || n == 0x202F || n == 0x205F || n == 0x3000
  }

  function TrimLeft(s: string): string {
    if s != "" && IsSpace(s[0]) then TrimLeft(s[1..]) else s
  }

  function TrimRight(s: string): string {
    if s != "" && IsSpace(s[|s| - 1]) then TrimRight(s[..|s| - 1]) else s
  }

  function Trimmed(s: string): string { TrimRight(TrimLeft(s)) }

  predicate AllSpace(s: string) { forall i | 0 <= i < |s| :: IsSpace(s[i]) }

  predicate NoOuterSpace(s: string) { s != "" ==> !IsSpace(s[0]) && !IsSpace(s[|s| - 1]) }

  lemma {:induction false} TrimLeftTakesSpace(s: string) returns (before: string)
    ensures s == before + TrimLeft(s) && AllSpace(before)
    ensures TrimLeft(s) != "" ==> !IsSpace(TrimLeft(s)[0])
  {
    before := "";
    if s != "" && IsSpace(s[0]) {
      var rest := TrimLeftTakesSpace(s[1..]);
      before := [s[0]] + rest;
    }
  }

  lemma {:induction false} TrimRightTakesSpace(s: string) returns (after: string)
    ensures s == TrimRight(s) + after && AllSpace(after)
    ensures TrimRight(s) != "" ==> !IsSpace(TrimRight(s)[|TrimRight(s)| - 1])
  {
    after := "";
    if s != "" && IsSpace(s[|s| - 1]) {
      var rest := TrimRightTakesSpace(s[..|s| - 1]);
      after := rest + [s[|s| - 1]];
    }
  }

  /** Trimming takes white space off both ends, all of it and nothing else. */
  lemma TrimmedTakesOuterSpace(s: string) returns (before: string, after: string)
    ensures s == before + Trimmed(s) + after
    ensures AllSpace(before) && AllSpace(after) && NoOuterSpace(Trimmed(s))
  {
    before := TrimLeftTakesSpace(s);
    after := TrimRightTakesSpace(TrimLeft(s));
    assert Trimmed(s) != "" ==> Trimmed(s)[0] == TrimLeft(s)[0];
  }

  function Utf8Width(c: char): nat {
    var n := c as int;
    if n < 0x80 then 1 else if n < 0x800 then 2 else if n < 0x1_0000 then 3 else 4
  }

  /** Length in bytes. */
  function Utf8Length(s: string): nat {
    if s == "" then 0 else Utf8Width(s[0]) + Utf8Length(s[1..])
  }

  predicate IsAscii(s: string) { forall i | 0 <= i < |s| :: s[i] as int < 0x80 }

  lemma {:induction false} Utf8LengthBounds(s: string)
    ensures |s| <= Utf8Length(s) <= 4 * |s|
    ensures Utf8Length(s) == |s| <==> IsAscii(s)
  {
    if s != "" {
      Utf8LengthBounds(s[1..]);
      assert IsAscii(s) <==> s[0] as int < 0x80 && IsAscii(s[1..]);
    }
  }

  /** The limit, announced in characters, counts bytes. The two agree exactly for keywords that fit in
      bytes or are too long even in characters: for all of ASCII, not for 34 three-byte characters. */
  lemma KeywordLimitCountsBytes(k: string)
    ensures (Utf8Length(k) <= KEYWORD_MAX_BYTES <==> |k| <= KEYWORD_MAX_BYTES)
            <==> Utf8Length(k) <= KEYWORD_MAX_BYTES || |k| > KEYWORD_MAX_BYTES
    ensures Utf8Length(k) <= KEYWORD_MAX_BYTES ==> |k| <= KEYWORD_MAX_BYTES
    ensures IsAscii(k) ==> (Utf8Length(k) <= KEYWORD_MAX_BYTES <==> |k| <= KEYWORD_MAX_BYTES)
    ensures |k| >= 34 && (forall i | 0 <= i < |k| :: Utf8Width(k[i]) == 3) ==> Utf8Length(k) > KEYWORD_MAX_BYTES
  {
    Utf8LengthBounds(k);
    if forall i | 0 <= i < |k| :: Utf8Width(k[i]) == 3 { ThreeByteLength(k); }
  }

  lemma {:induction false} ThreeByteLength(k: string)
    requires forall i | 0 <= i < |k| :: Utf8Width(k[i]) == 3
    ensures Utf8Length(k) == 3 * |k|
  {
    if k != "" { ThreeByteLength(k[1..]); }
  }

  /** Empty strings stand for parameters that were not given. */
  datatype ListFilter = ListFilter(keyword: string, field: string, value: string, includeDeleted: bool)

  predicate IsScalar(f: Field) { f.ftype.IntT? || f.ftype.StringT? }

  /** The first field of that name. */
  function Named(fields: seq<Field>, name: string): Option<Field> {
    if fields == [] then None
    else if fields[0].name == name then Some(fields[0])
    else Named(fields[1..], name)
  }

  predicate Paired(f: ListFilter) { f.field != "" <==> f.value != "" }

  predicate KeywordFits(f: ListFilter) { Utf8Length(Trimmed(f.keyword)) <= KEYWORD_MAX_BYTES }

  /** The keyword is short enough, `field` and `value` come together, and the field is a scalar one of the
      schema. */
  predicate FilterOk(fields: seq<Field>, f: ListFilter) {
    && KeywordFits(f) && Paired(f)
    && (f.field != "" ==> Named(fields, f.field).Some? && IsScalar(Named(fields, f.field).value))
  }

  /** The field that a refusal names. */
  function Blamed(f: ListFilter): string {
    if !KeywordFits(f) then "q" else if !Paired(f) then "field" else f.field
  }

  method CheckFilter(fields: seq<Field>, f: ListFilter) returns (e: Option<Error>)
    ensures e.None? <==> FilterOk(fields, f)
    ensures e.Some? ==> e.value == Error(422, ValidationError, Blamed(f), NoReason)
  {
    if Utf8Length(Trimmed(f.keyword)) > KEYWORD_MAX_BYTES { return Some(Error(422, ValidationError, "q", NoReason)); }
    if (f.field != "") != (f.value != "") { return Some(Error(422, ValidationError, "field", NoReason)); }
    if f.field == "" { return None; }
    var hit := None;
    for i := 0 to |fields|
      invariant hit.None? && Named(fields, f.field) == Named(fields[i..], f.field)
    {
      if fields[i].name == f.field { hit := Some(fields[i]); break; }
      assert fields[i..][1..] == fields[i + 1..];
    }
    if hit.None? || !IsScalar(hit.value) { return Some(Error(422, ValidationError, f.field, NoReason)); }
    return None;
  }

  predicate IsScalarName(fields: seq<Field>, name: string) {
    exists i | 0 <= i < |fields| :: fields[i].name == name && IsScalar(fields[i])
  }

  ghost predicate AreScalars(fields: seq<Field>, names: seq<string>) {
    forall n :: n in names <==> IsScalarName(fields, n)
  }

  /** The columns a keyword is looked up in. */
  method ScalarFields(fields: seq<Field>) returns (names: seq<string>)
    ensures AreScalars(fields, names)
  {
    names := [];
    for i := 0 to |fields|
      invariant forall n :: n in names <==> exists j | 0 <= j < i :: fields[j].name == n && IsScalar(fields[j])
    {
      if IsScalar(fields[i]) { names := names + [fields[i].name]; }
    }
  }

  predicate StatusListed(f: ListFilter, s: Status) {
    s == Active || (f.includeDeleted && s == Deleted)
  }

  /** data->>field ILIKE pattern: an absent key and a JSON null give no text. */
  predicate TextLike(data: Data, name: string, pattern: string, text: Value -> string, fold: char -> char) {
    Provided(data, name) && Matches(Folded(fold, pattern), Folded(fold, text(data[name])))
  }

  /** The WHERE clause, but for the cursor. Without scalar fields there is no keyword condition at all. */
  predicate Selected(scalars: seq<string>, f: ListFilter, text: Value -> string, fold: char -> char, d: Doc) {
    && StatusListed(f, d.status)
    && (f.keyword == "" || scalars == []
        || exists i | 0 <= i < |scalars| :: TextLike(d.data, scalars[i], KeywordPattern(f.keyword), text, fold))
    && (f.field == "" || (Provided(d.data, f.field) && text(d.data[f.field]) == f.value))
  }

  /** `g` is an int or string field, and its text in the row contains the keyword, up to case. */
  ghost predicate KeywordIn(g: Field, data: Data, keyword: string, text: Value -> string, fold: char -> char) {
    && (g.ftype == IntT || g.ftype == StringT) && g.name in data && data[g.name] != Null
    && exists before, after ::
         Folded(fold, text(data[g.name])) == before + Folded(fold, keyword) + after
  }

  /** A list request shows a row exactly when it is active, or deleted and deleted rows are asked for, the
      keyword occurs literally in one of its int or string fields (a schema without any ignores it), and
      the named field has the value. */
  lemma SelectedIff(fields: seq<Field>, scalars: seq<string>, f: ListFilter, text: Value -> string,
                    fold: char -> char, d: Doc)
    requires KeepsPatternChars(fold) && AreScalars(fields, scalars)
    ensures Selected(scalars, f, text, fold, d) <==>
              && (d.status == Active || (d.status == Deleted && f.includeDeleted))
              && (|| f.keyword == ""
                  || (forall g | g in fields :: g.ftype != IntT && g.ftype != StringT)
                  || (exists g | g in fields :: KeywordIn(g, d.data, f.keyword, text, fold)))
              && (f.field == "" || (f.field in d.data && d.data[f.field] != Null && text(d.data[f.field]) == f.value))
  {
    var pattern := KeywordPattern(f.keyword);
    forall g | g in fields && g.name in scalars && IsScalar(g)
      ensures TextLike(d.data, g.name, pattern, text, fold) <==> KeywordIn(g, d.data, f.keyword, text, fold)
    {
      KeywordInIff(g, d.data, f.keyword, text, fold);
    }
    NoScalarsIff(fields, scalars);
    SomeScalarLikeIff(fields, scalars, d.data, pattern, f.keyword, text, fold);
  }

  lemma KeywordInIff(g: Field, data: Data, keyword: string, text: Value -> string, fold: char -> char)
    requires KeepsPatternChars(fold) && IsScalar(g)
    ensures TextLike(data, g.name, KeywordPattern(keyword), text, fold) <==> KeywordIn(g, data, keyword, text, fold)
  {
    if Provided(data, g.name) {
      KeywordSearchIsLiteral(fold, keyword, text(data[g.name]));
      ContainsIff(Folded(fold, text(data[g.name])), Folded(fold, keyword));
    }
  }

  lemma ContainsIff(s: string, k: string)
    ensures (exists i: nat :: ContainsAt(s, k, i)) <==> exists before, after :: s == before + k + after
  {
    if i: nat :| ContainsAt(s, k, i) {
      assert s == s[..i] + k + s[i + |k|..];
    }
    if before, after :| s == before + k + after {
      assert ContainsAt(s, k, |before|);
    }
  }

  lemma SomeScalarLikeIff(fields: seq<Field>, scalars: seq<string>, data: Data, pattern: string, keyword: string,
                          text: Value -> string, fold: char -> char)
    requires AreScalars(fields, scalars)
    requires forall g | g in fields && g.name in scalars && IsScalar(g) ::
               TextLike(data, g.name, pattern, text, fold) <==> KeywordIn(g, data, keyword, text, fold)
    ensures (exists i | 0 <= i < |scalars| :: TextLike(data, scalars[i], pattern, text, fold))
            <==> exists g | g in fields :: KeywordIn(g, data, keyword, text, fold)
  {
    if i :| 0 <= i < |scalars| && TextLike(data, scalars[i], pattern, text, fold) {
      assert IsScalarName(fields, scalars[i]);
      var j :| 0 <= j < |fields| && fields[j].name == scalars[i] && IsScalar(fields[j]);
      assert KeywordIn(fields[j], data, keyword, text, fold);
    }
    if g :| g in fields && KeywordIn(g, data, keyword, text, fold) {
      var j :| 0 <= j < |fields| && fields[j] == g;
      assert IsScalarName(fields, g.name);
      var i :| 0 <= i < |scalars| && scalars[i] == g.name;
    }
  }

  /** For a schema with distinct names a filter is legal exactly when its keyword has at most 100 bytes and
      it names no field and no value, or a value and an int or string field of the schema. */
  lemma FilterOkIff(fields: seq<Field>, f: ListFilter)
    requires DistinctNames(fields)
    ensures FilterOk(fields, f) <==>
              && Utf8Length(Trimmed(f.keyword)) <= 100
              && (|| (f.field == "" && f.value == "")
                  || (f.field != "" && f.value != ""
                      && exists g | g in fields :: g.name == f.field && (g.ftype == IntT || g.ftype == StringT)))
  {
    NamedIsFirst(fields, f.field);
    if g :| g in fields && g.name == f.field && IsScalar(g) {
      var i :| 0 <= i < |fields| && fields[i] == g;
    }
  }

  lemma {:induction false} NamedIsFirst(fields: seq<Field>, name: string)
    requires DistinctNames(fields)
    ensures forall g | g in fields && g.name == name :: Named(fields, name) == Some(g)
    ensures Named(fields, name).Some? ==> Named(fields, name).value in fields && Named(fields, name).value.name == name
  {
    if fields != [] {
      assert forall i | 0 <= i < |fields| - 1 :: fields[1..][i] == fields[i + 1];
      NamedIsFirst(fields[1..], name);
      assert forall g | g in fields :: g == fields[0] || g in fields[1..];
    }
  }

  const SPACES: seq<int> :=
    [0x09, 0x0A, 0x0B, 0x0C, 0x0D, 0x20, 0x85, 0xA0, 0x1680,
     0x2000, 0x2001, 0x2002, 0x2003, 0x2004, 0x2005, 0x2006, 0x2007, 0x2008, 0x2009, 0x200A,
     0x2028, 0x2029, 0x202F, 0x205F, 0x3000]

  /** The widths of UTF-8, and the characters that count as white space. */
  lemma Characters()
    ensures forall c: char :: c as int <= 0x7F ==> Utf8Length([c]) == 1
    ensures forall c: char :: 0x80 <= c as int <= 0x7FF ==> Utf8Length([c]) == 2
    ensures forall c: char :: 0x800 <= c as int <= 0xFFFF ==> Utf8Length([c]) == 3
    ensures forall c: char :: 0x1_0000 <= c as int ==> Utf8Length([c]) == 4
    ensures forall c: char :: IsSpace(c) <==> c as int in SPACES
  {
    assert Utf8Length("") == 0;
    forall c: char ensures Utf8Length([c]) == Utf8Width(c) {
      assert [c][1..] == "";
    }
  }

  lemma NoScalarsIff(fields: seq<Field>, scalars: seq<string>)
    requires AreScalars(fields, scalars)
    ensures scalars == [] <==> forall g | g in fields :: g.ftype != IntT && g.ftype != StringT
  {
    if scalars != [] { assert IsScalarName(fields, scalars[0]); }
    if g :| g in fields && IsScalar(g) {
      var j :| 0 <= j < |fields| && fields[j] == g;
      assert IsScalarName(fields, g.name);
    }
  }
}
