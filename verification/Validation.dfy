/** Row and schema validation: the checks as methods, each proved against a declarative predicate. */
module Validation {
  import opened Types

  const STRING_MAX_CHARS_DEFAULT: int := 255
  const STRING_MAX_CHARS_MAX: int := 65535
  const LIST_MAX_ITEMS_DEFAULT: int := 100
  const LIST_MAX_ITEMS_MAX: int := 65535
  const FIELD_NAME_MAX_LEN: int := 63

  const RESERVED_FIELDS: set<string> :=
    {"id", "version", "status", "created_at", "updated_at", "created_by", "updated_by", "data"}

  // ---------- row validation ----------

  function StringLimit(f: Field): int {
    if f.maxChars > 0 then f.maxChars else STRING_MAX_CHARS_DEFAULT
  }

  function ListLimit(f: Field): int {
    if f.maxListItems > 0 then f.maxListItems else LIST_MAX_ITEMS_DEFAULT
  }

  predicate IsJsonInt(v: Value) {
    v.Num? && v.n == v.n.Floor as real
  }

  predicate ShortString(f: Field, v: Value) {
    v.Str? && |v.s| <= StringLimit(f)
  }

  /** What a value must be to stand under field `f`; null always may. */
  predicate ValueOk(f: Field, v: Value) {
    v.Null? ||
    match f.ftype
    case IntT => IsJsonInt(v)
    case StringT => ShortString(f, v)
    case IntListT =>
      v.List? && |v.items| <= ListLimit(f) && forall i | 0 <= i < |v.items| :: IsJsonInt(v.items[i])
    case StringListT =>
      v.List? && |v.items| <= ListLimit(f) && forall i | 0 <= i < |v.items| :: ShortString(f, v.items[i])
    case UnknownT(_) => true
  }

  /** Name lookup as the validator builds it: a later duplicate wins. */
  function KnownFields(fields: seq<Field>): map<string, Field> {
    if fields == [] then map[]
    else
      var last := fields[|fields| - 1];
      KnownFields(fields[..|fields| - 1])[last.name := last]
  }

  lemma {:induction false} KnownNames(fields: seq<Field>)
    ensures forall k | k in KnownFields(fields) ::
              KnownFields(fields)[k] in fields && KnownFields(fields)[k].name == k
    ensures forall f | f in fields :: f.name in KnownFields(fields)
  {
    if fields != [] { KnownNames(fields[..|fields| - 1]); }
  }

  predicate KeyOk(fields: seq<Field>, k: string, v: Value) {
    k in KnownFields(fields) && ValueOk(KnownFields(fields)[k], v)
  }

  predicate Provided(data: Data, name: string) {
    name in data && !data[name].Null?
  }

  /** The rows a schema accepts: only its own keys, well typed, every required one provided. */
  ghost predicate Conforms(fields: seq<Field>, data: Data) {
    && (forall k | k in data :: KeyOk(fields, k, data[k]))
    && (forall f | f in fields && f.required :: Provided(data, f.name))
  }

  /** An error tells the truth about the row it refuses. */
  ghost predicate Truthful(fields: seq<Field>, data: Data, e: Error) {
    && e.http == 422
    && match e.reason
       case MissingRequired =>
         && e.code == ValidationError
         && (forall k | k in data :: KeyOk(fields, k, data[k]))
         && (exists f | f in fields :: f.required && f.name == e.field)
         && !Provided(data, e.field)
       case UnknownField =>
         && e.code == ValidationError
         && e.field in data && e.field !in KnownFields(fields) && e.field !in RESERVED_FIELDS
       case DuplicateOf(_) => false
       case NoReason =>
         if e.code == ReservedField
         then e.field in data && e.field !in KnownFields(fields) && e.field in RESERVED_FIELDS
         else
           && e.code == ValidationError
           && e.field in data && e.field in KnownFields(fields)
           && !ValueOk(KnownFields(fields)[e.field], data[e.field])
  }

  function BadValue(f: Field): Error {
    Error(422, ValidationError, f.name, NoReason)
  }

  predicate IsWhole(v: Value, n: int) { v == Num(n as real) }

  /** A whole number, however it is written; a fraction is none. */
  ghost predicate Whole(v: Value) { exists n :: IsWhole(v, n) }

  lemma WholeIff(v: Value)
    ensures IsJsonInt(v) <==> Whole(v)
  {
    if IsJsonInt(v) { assert IsWhole(v, v.n.Floor); }
  }

  /** What each type accepts besides null: whole numbers, strings of at most max_chars characters (255 when
      it is not set), lists of at most max_list_items such elements (100 when it is not set). */
  lemma ValueOkIff(f: Field, v: Value)
    requires !f.ftype.UnknownT?
    ensures var chars, count := if f.maxChars >= 1 then f.maxChars else 255,
                                if f.maxListItems >= 1 then f.maxListItems else 100;
            ValueOk(f, v) <==>
              || v == Null
              || (f.ftype == IntT && Whole(v))
              || (f.ftype == StringT && v.Str? && |v.s| <= chars)
              || (f.ftype == IntListT && v.List? && |v.items| <= count && forall x | x in v.items :: Whole(x))
              || (f.ftype == StringListT && v.List? && |v.items| <= count
                  && forall x | x in v.items :: x.Str? && |x.s| <= chars)
  {
    WholeIff(v);
    if v.List? {
      forall x | x in v.items ensures IsJsonInt(x) <==> Whole(x) { WholeIff(x); }
    }
  }

  /** With distinct names a row conforms exactly when each of its keys is a field whose value fits and each
      required field is there and not null. */
  lemma ConformsIff(fields: seq<Field>, data: Data)
    requires DistinctNames(fields)
    ensures Conforms(fields, data) <==>
              && (forall k | k in data :: exists f :: f in fields && f.name == k && ValueOk(f, data[k]))
              && (forall f | f in fields && f.required :: f.name in data && data[f.name] != Null)
  {
    KnownNames(fields);
    forall f | f in fields ensures KnownFields(fields)[f.name] == f { KnownIsDeclared(fields, f); }
    forall k | k in data
      ensures KeyOk(fields, k, data[k]) <==> exists f :: f in fields && f.name == k && ValueOk(f, data[k])
    {
      if KeyOk(fields, k, data[k]) { assert KnownFields(fields)[k] in fields; }
    }
  }

  method CheckValue(f: Field, v: Value) returns (e: Option<Error>)
    ensures e.None? <==> ValueOk(f, v)
    ensures e.Some? ==> e.value == BadValue(f)
  {
    if v.Null? { return None; }
    match f.ftype {
    case IntT =>
      if !IsJsonInt(v) { return Some(BadValue(f)); }
    case StringT =>
      if !v.Str? { return Some(BadValue(f)); }
      if |v.s| > StringLimit(f) { return Some(BadValue(f)); }
    case IntListT =>
      if !v.List? { return Some(BadValue(f)); }
      if |v.items| > ListLimit(f) { return Some(BadValue(f)); }
      for i := 0 to |v.items|
        invariant forall j | 0 <= j < i :: IsJsonInt(v.items[j])
      {
        if !IsJsonInt(v.items[i]) { return Some(BadValue(f)); }
      }
    case StringListT =>
      if !v.List? { return Some(BadValue(f)); }
      if |v.items| > ListLimit(f) { return Some(BadValue(f)); }
      for i := 0 to |v.items|
        invariant forall j | 0 <= j < i :: ShortString(f, v.items[j])
      {
        var el := v.items[i];
        if !el.Str? { return Some(BadValue(f)); }
        if |el.s| > StringLimit(f) { return Some(BadValue(f)); }
      }
    case UnknownT(_) =>
    }
    return None;
  }

  /** The name index both validators build by filling a map. */
  method IndexFields(fields: seq<Field>) returns (known: map<string, Field>)
    ensures known == KnownFields(fields)
  {
    known := map[];
    for i := 0 to |fields|
      invariant known == KnownFields(fields[..i])
    {
      known := known[fields[i].name := fields[i]];
      assert fields[..i + 1][..i] == fields[..i];
    }
    assert fields[..|fields|] == fields;
  }

  /** The row check. The key loop visits the map in an arbitrary order. */
  method ValidateData(fields: seq<Field>, data: Data) returns (e: Option<Error>)
    ensures e.None? <==> Conforms(fields, data)
    ensures e.Some? ==> Truthful(fields, data, e.value)
  {
    var known := IndexFields(fields);
    KnownNames(fields);
    var todo := data.Keys;
    while todo != {}
      invariant todo <= data.Keys
      invariant forall k | k in data && k !in todo :: KeyOk(fields, k, data[k])
    {
      var k :| k in todo;
      if k !in known {
        if k in RESERVED_FIELDS { return Some(Error(422, ReservedField, k, NoReason)); }
        return Some(Error(422, ValidationError, k, UnknownField));
      }
      var bad := CheckValue(known[k], data[k]);
      if bad.Some? { return bad; }
      todo := todo - {k};
    }
    for i := 0 to |fields|
      invariant forall j | 0 <= j < i :: fields[j].required ==> Provided(data, fields[j].name)
    {
      var f := fields[i];
      if (f.name !in data || data[f.name].Null?) && f.required {
        return Some(Error(422, ValidationError, f.name, MissingRequired));
      }
    }
    return None;
  }

  // ---------- lazy-migration error mapping ----------

  ghost predicate ExistedInHistory(history: seq<seq<Field>>, name: string) {
    exists i, j | 0 <= i < |history| && 0 <= j < |history[i]| :: history[i][j].name == name
  }

  method FieldExistedInHistory(history: seq<seq<Field>>, name: string) returns (found: bool)
    ensures found <==> ExistedInHistory(history, name)
  {
    for i := 0 to |history|
      invariant forall a, b | 0 <= a < i && 0 <= b < |history[a]| :: history[a][b].name != name
    {
      for j := 0 to |history[i]|
        invariant forall b | 0 <= b < j :: history[i][b].name != name
      {
        if history[i][j].name == name { return true; }
      }
    }
    return false;
  }

  /** What a write path's validation error says: its code tells exactly what a client must repair. */
  ghost predicate WriteRefusal(fields: seq<Field>, data: Data, history: seq<seq<Field>>, isUpdate: bool, e: Error) {
    && e.http == 422
    && (e.code == FieldDeprecated ==>
          && e.field in data && e.field !in KnownFields(fields)
          && e.field !in RESERVED_FIELDS && ExistedInHistory(history, e.field))
    && (e.code == NewRequiredField ==>
          && isUpdate
          && (exists f | f in fields :: f.required && f.name == e.field)
          && !Provided(data, e.field)
          && (forall k | k in data :: KeyOk(fields, k, data[k])))
    && (e.code !in {FieldDeprecated, NewRequiredField} ==> Truthful(fields, data, e))
    && (e.reason == UnknownField ==> !ExistedInHistory(history, e.field))
    && (e.reason == MissingRequired ==> !isUpdate)
  }

  /** Validation as a write path sees it: the row check, its error mapped through the field history. */
  method ValidateForWrite(fields: seq<Field>, data: Data, history: seq<seq<Field>>, isUpdate: bool)
    returns (e: Option<Error>)
    ensures e.None? <==> Conforms(fields, data)
    ensures e.Some? ==> WriteRefusal(fields, data, history, isUpdate, e.value)
  {
    e := ValidateData(fields, data);
    if e.None? { return; }
    if e.value.reason == MissingRequired {
      if isUpdate { e := Some(Error(422, NewRequiredField, e.value.field, NoReason)); }
    } else if e.value.reason == UnknownField {
      var existed := FieldExistedInHistory(history, e.value.field);
      if existed { e := Some(Error(422, FieldDeprecated, e.value.field, NoReason)); }
    }
  }

  // ---------- schema validation ----------

  /** The identifier whitelist: a lower-case letter, then at most 62 lower-case letters, digits or underscores. */
  predicate FieldNameOk(name: string) {
    && 1 <= |name| <= FIELD_NAME_MAX_LEN
    && 'a' <= name[0] <= 'z'
    && forall i | 1 <= i < |name| :: 'a' <= name[i] <= 'z' || '0' <= name[i] <= '9' || name[i] == '_'
  }

  predicate IsListType(t: FieldType) { t.IntListT? || t.StringListT? }

  predicate IsTextType(t: FieldType) { t.StringT? || t.StringListT? }

  predicate FieldOk(f: Field) {
    && FieldNameOk(f.name)
    && f.name !in RESERVED_FIELDS
    && !f.ftype.UnknownT?
    && (f.maxChars != 0 ==> IsTextType(f.ftype) && 0 < f.maxChars <= STRING_MAX_CHARS_MAX)
    && (f.maxListItems != 0 ==> IsListType(f.ftype) && 0 < f.maxListItems <= LIST_MAX_ITEMS_MAX)
  }

  predicate DistinctNames(fields: seq<Field>) {
    forall i, j | 0 <= i < j < |fields| :: fields[i].name != fields[j].name
  }

  predicate WellFormed(fields: seq<Field>) {
    && fields != []
    && (forall i | 0 <= i < |fields| :: FieldOk(fields[i]))
    && DistinctNames(fields)
  }

  /** What each type may limit: a string its characters, an int list its items, a string list both, an
      int nothing; a limit is 0 for the default or at most 65535. No field has the name of a column. */
  lemma FieldOkIff(f: Field)
    requires FieldNameOk(f.name)
    ensures FieldOk(f) <==>
              && f.name !in ["id", "version", "status", "created_at", "updated_at", "created_by", "updated_by", "data"]
              && (|| (f.ftype == IntT && f.maxChars == 0 && f.maxListItems == 0)
                  || (f.ftype == StringT && 0 <= f.maxChars <= 65535 && f.maxListItems == 0)
                  || (f.ftype == IntListT && f.maxChars == 0 && 0 <= f.maxListItems <= 65535)
                  || (f.ftype == StringListT && 0 <= f.maxChars <= 65535 && 0 <= f.maxListItems <= 65535))
  {
  }

  predicate Lower(c: char) { 'a' <= c <= 'z' }

  predicate DigitOrUnderscore(c: char) { '0' <= c <= '9' || c == '_' }

  /** Names grow from one lower-case letter by lower-case letters, digits and underscores, up to 63. */
  lemma FieldNamesGrow(name: string, c: char)
    ensures FieldNameOk([c]) <==> Lower(c)
    ensures name != "" ==>
              (FieldNameOk(name + [c]) <==> FieldNameOk(name) && |name| <= 62 && (Lower(c) || DigitOrUnderscore(c)))
    ensures !FieldNameOk("")
  {
    var longer := name + [c];
    assert longer[|name|] == c && forall i | 0 <= i < |name| :: longer[i] == name[i];
  }

  method ValidateFields(fields: seq<Field>) returns (e: Option<Error>)
    ensures e.None? <==> WellFormed(fields)
    ensures e.Some? ==> e.value.http == 422 && e.value.code in {ValidationError, ReservedField}
    ensures e.Some? && e.value.code == ReservedField ==>
              exists i | 0 <= i < |fields| :: fields[i].name in RESERVED_FIELDS
  {
    var bad := Some(Error(422, ValidationError, "fields", NoReason));
    if |fields| == 0 { return bad; }
    var seen: set<string> := {};
    for i := 0 to |fields|
      invariant seen == set j | 0 <= j < i :: fields[j].name
      invariant forall j | 0 <= j < i :: FieldOk(fields[j])
      invariant DistinctNames(fields[..i])
    {
      var f := fields[i];
      if !FieldNameOk(f.name) { return bad; }
      if f.name in RESERVED_FIELDS { return Some(Error(422, ReservedField, "fields", NoReason)); }
      if f.ftype.UnknownT? { return bad; }
      if f.maxChars != 0 {
        if f.ftype == IntT || f.ftype == IntListT { return bad; }
        if f.maxChars < 0 || f.maxChars > STRING_MAX_CHARS_MAX { return bad; }
      }
      if f.maxListItems != 0 {
        if f.ftype == IntT || f.ftype == StringT { return bad; }
        if f.maxListItems < 0 || f.maxListItems > LIST_MAX_ITEMS_MAX { return bad; }
      }
      if f.name in seen {
        var j :| 0 <= j < i && fields[j].name == f.name;
        assert !DistinctNames(fields);
        return bad;
      }
      seen := seen + {f.name};
    }
    assert fields[..|fields|] == fields;
    return None;
  }

  /** Unique keys are distinct scalar fields of the schema. */
  predicate UniqueOk(fields: seq<Field>, unique: seq<string>) {
    && (forall i | 0 <= i < |unique| ::
          unique[i] in KnownFields(fields) && !IsListType(KnownFields(fields)[unique[i]].ftype))
    && (forall i, j | 0 <= i < j < |unique| :: unique[i] != unique[j])
  }

  /** Why a name cannot be in the unique key. */
  predicate BadUniqueName(fields: seq<Field>, unique: seq<string>, name: string) {
    && name in unique
    && (|| name !in KnownFields(fields)
        || IsListType(KnownFields(fields)[name].ftype)
        || exists i, j | 0 <= i < j < |unique| :: unique[i] == name == unique[j])
  }

  method ValidateUniqueFields(fields: seq<Field>, unique: seq<string>) returns (e: Option<Error>)
    ensures e.None? <==> UniqueOk(fields, unique)
    ensures e.Some? ==> && e.value == Error(422, ValidationError, e.value.field, NoReason)
                        && BadUniqueName(fields, unique, e.value.field)
  {
    if |unique| == 0 { return None; }
    var known := IndexFields(fields);
    var seen: set<string> := {};
    for i := 0 to |unique|
      invariant seen == set j | 0 <= j < i :: unique[j]
      invariant UniqueOk(fields, unique[..i])
    {
      var name := unique[i];
      var bad := Some(Error(422, ValidationError, name, NoReason));
      if name !in known { return bad; }
      if IsListType(known[name].ftype) { return bad; }
      if name in seen {
        assert exists j | 0 <= j < i :: unique[j] == name == unique[i];
        return bad;
      }
      seen := seen + {name};
    }
    assert unique[..|unique|] == unique;
    return None;
  }

  /** The lookup returns the last field of a name. */
  lemma {:induction false} KnownIsLast(fields: seq<Field>, i: nat)
    requires i < |fields| && forall j | i < j < |fields| :: fields[j].name != fields[i].name
    ensures fields[i].name in KnownFields(fields) && KnownFields(fields)[fields[i].name] == fields[i]
  {
    var n := |fields| - 1;
    if i < n { KnownIsLast(fields[..n], i); }
  }

  /** With distinct names the lookup returns each declared field itself. */
  lemma KnownIsDeclared(fields: seq<Field>, f: Field)
    requires DistinctNames(fields) && f in fields
    ensures f.name in KnownFields(fields) && KnownFields(fields)[f.name] == f
  {
    var i :| 0 <= i < |fields| && fields[i] == f;
    KnownIsLast(fields, i);
  }

  lemma {:induction false} DistinctIff<T>(s: seq<T>)
    ensures |set x | x in s| <= |s|
    ensures |set x | x in s| == |s| <==> forall i, j | 0 <= i < j < |s| :: s[i] != s[j]
  {
    if s != [] {
      var n := |s| - 1;
      var front := set x | x in s[..n];
      DistinctIff(s[..n]);
      assert (set x | x in s) == front + {s[n]};
      assert forall i | 0 <= i < n :: s[..n][i] == s[i];
      if s[n] in front {
        var i :| 0 <= i < n && s[i] == s[n];
        assert (set x | x in s) == front;
      }
    }
  }

  /** The unique keys of a well-formed schema: as many different names as entries, each of an int or
      string field. */
  lemma UniqueOkIff(fields: seq<Field>, unique: seq<string>)
    requires WellFormed(fields)
    ensures UniqueOk(fields, unique) <==>
              && |set k | k in unique| == |unique|
              && forall k | k in unique ::
                   exists f :: f in fields && f.name == k && (f.ftype == IntT || f.ftype == StringT)
  {
    KnownNames(fields);
    DistinctIff(unique);
    forall f | f in fields ensures KnownFields(fields)[f.name] == f && FieldOk(f) { KnownIsDeclared(fields, f); }
    forall k | k in unique
      ensures (k in KnownFields(fields) && !IsListType(KnownFields(fields)[k].ftype))
              <==> exists f :: f in fields && f.name == k && (f.ftype == IntT || f.ftype == StringT)
    {
      if k in KnownFields(fields) { assert KnownFields(fields)[k] in fields; }
    }
    if UniqueOk(fields, unique) {
      forall k | k in unique ensures k in KnownFields(fields) && !IsListType(KnownFields(fields)[k].ftype) {
        var i :| 0 <= i < |unique| && unique[i] == k;
      }
    } else {
      assert forall i | 0 <= i < |unique| :: unique[i] in unique;
    }
  }

  /** A schema has at least one field, as many different names as fields, and every field is in order. */
  lemma WellFormedIff(fields: seq<Field>)
    ensures WellFormed(fields) <==>
              && |fields| >= 1
              && |set n | n in Names(fields)| == |fields|
              && forall f | f in fields :: FieldOk(f)
  {
    DistinctIff(Names(fields));
    if forall f | f in fields :: FieldOk(f) {
      assert forall i | 0 <= i < |fields| :: fields[i] in fields;
    }
  }

  function Names(fields: seq<Field>): (names: seq<string>)
    ensures |names| == |fields| && forall i | 0 <= i < |fields| :: names[i] == fields[i].name
  {
    seq(|fields|, i requires 0 <= i < |fields| => fields[i].name)
  }
}
