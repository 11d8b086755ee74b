/** Schema evolution as an exact order on schemas, and which stored rows an update can still repair. */
module Compat {
  import opened Types
  import opened Validation

  /** `g` may replace `f`: same type, nothing newly required, no smaller effective limit. */
  predicate NoNarrower(f: Field, g: Field) {
    && g.ftype == f.ftype
    && (g.required ==> f.required)
    && (IsTextType(f.ftype) ==> StringLimit(f) <= StringLimit(g))
    && (IsListType(f.ftype) ==> ListLimit(f) <= ListLimit(g))
  }

  predicate Compatible(F: seq<Field>, G: seq<Field>) {
    && (forall f | f in F :: f.name in KnownFields(G) && NoNarrower(f, KnownFields(G)[f.name]))
    && (forall g | g in G :: g.name in KnownFields(F) || !g.required)
  }

  /** The smallest value of a type; it fits every limit. */
  function BlankValue(t: FieldType): Value {
    match t
    case IntT => Num(0.0)
    case StringT => Str("")
    case IntListT => List([])
    case StringListT => List([])
    case UnknownT(_) => Bool(false)
  }

  /** A row that provides every field of the schema. */
  function BlankRow(F: seq<Field>): Data {
    map k | k in KnownFields(F) :: BlankValue(KnownFields(F)[k].ftype)
  }

  lemma BlankRowConforms(F: seq<Field>)
    ensures Conforms(F, BlankRow(F))
  {
    KnownNames(F);
  }

  /** One field of the blank row may be set to any value that the field accepts. */
  lemma BlankRowWith(F: seq<Field>, f: Field, v: Value)
    requires DistinctNames(F) && f in F && ValueOk(f, v) && !v.Null?
    ensures Conforms(F, BlankRow(F)[f.name := v])
  {
    KnownNames(F);
    KnownIsDeclared(F, f);
  }

  lemma BlankRowWithout(F: seq<Field>, f: Field)
    requires DistinctNames(F) && f in F && !f.required
    ensures Conforms(F, BlankRow(F) - {f.name})
  {
    KnownNames(F);
    var d := BlankRow(F) - {f.name};
    forall h | h in F && h.required ensures Provided(d, h.name) {
      KnownIsDeclared(F, h);
      KnownIsDeclared(F, f);
    }
  }

  lemma CompatibleKeepsRows(F: seq<Field>, G: seq<Field>, data: Data)
    requires WellFormed(F) && WellFormed(G) && Compatible(F, G) && Conforms(F, data)
    ensures Conforms(G, data)
  {
    KnownNames(F);
    KnownNames(G);
    forall k | k in data ensures KeyOk(G, k, data[k]) {
      var f := KnownFields(F)[k];
      assert KeyOk(F, k, data[k]);
    }
    forall g | g in G && g.required ensures Provided(data, g.name) {
      KnownIsDeclared(G, g);
      assert KnownFields(F)[g.name] in F;
    }
  }

  /** A value `f` accepts and `g` refuses, when `g` has another type or a smaller limit. */
  function Separator(f: Field, g: Field): (v: Value)
    requires FieldOk(f) && FieldOk(g)
    requires g.ftype != f.ftype
          || (IsTextType(f.ftype) && StringLimit(f) > StringLimit(g))
          || (IsListType(f.ftype) && ListLimit(f) > ListLimit(g))
    ensures ValueOk(f, v) && !ValueOk(g, v) && !v.Null?
  {
    if f.ftype == g.ftype then
      if IsTextType(f.ftype) && StringLimit(f) > StringLimit(g) then
        var long := Str(seq(StringLimit(f), _ => 'a'));
        if f.ftype == StringT then long else RefusedElement(g, long)
      else
        List(seq(ListLimit(f), _ => if f.ftype == IntListT then Num(0.0) else Str("")))
    else if f.ftype == IntListT && g.ftype == StringListT then RefusedElement(g, Num(0.0))
    else if f.ftype == StringListT && g.ftype == IntListT then RefusedElement(g, Str(""))
    else BlankValue(f.ftype)
  }

  function RefusedElement(g: Field, el: Value): (v: Value)
    ensures v == List([el])
    ensures g.ftype == StringListT && !ShortString(g, el) ==> !ValueOk(g, v)
    ensures g.ftype == IntListT && !IsJsonInt(el) ==> !ValueOk(g, v)
  {
    var v := List([el]);
    assert v.items[0] == el;
    v
  }

  /** An incompatible evolution always loses some row. */
  lemma IncompatibleLosesRow(F: seq<Field>, G: seq<Field>) returns (data: Data)
    requires WellFormed(F) && WellFormed(G) && !Compatible(F, G)
    ensures Conforms(F, data) && !Conforms(G, data)
  {
    KnownNames(F);
    KnownNames(G);
    BlankRowConforms(F);
    data := BlankRow(F);
    if f :| f in F && !(f.name in KnownFields(G) && NoNarrower(f, KnownFields(G)[f.name])) {
      KnownIsDeclared(F, f);
      if f.name !in KnownFields(G) {
        assert f.name in data && !KeyOk(G, f.name, data[f.name]);
        return;
      }
      var g := KnownFields(G)[f.name];
      if g.ftype == f.ftype && g.required && !f.required {
        BlankRowWithout(F, f);
        data := BlankRow(F) - {f.name};
        assert !Provided(data, g.name);
        return;
      }
      assert FieldOk(f) && FieldOk(g);
      var v := Separator(f, g);
      BlankRowWith(F, f, v);
      data := BlankRow(F)[f.name := v];
      assert !KeyOk(G, f.name, data[f.name]);
    } else {
      var g :| g in G && g.name !in KnownFields(F) && g.required;
      assert !Provided(data, g.name);
    }
  }

  /** The exact order: an evolution keeps every row valid if and only if it is compatible. */
  lemma CompatibleIffKeepsEveryRow(F: seq<Field>, G: seq<Field>)
    requires WellFormed(F) && WellFormed(G)
    ensures Compatible(F, G) <==> forall data: Data :: Conforms(F, data) ==> Conforms(G, data)
  {
    if Compatible(F, G) {
      forall data: Data | Conforms(F, data) ensures Conforms(G, data) {
        CompatibleKeepsRows(F, G, data);
      }
    } else {
      var data := IncompatibleLosesRow(F, G);
    }
  }

  /** The update's merge can repair a row exactly when the row carries no key outside the schema. */
  lemma RepairableIff(F: seq<Field>, stored: Data)
    requires WellFormed(F)
    ensures (exists patch: Data :: Conforms(F, stored + patch)) <==> stored.Keys <= KnownFields(F).Keys
  {
    if stored.Keys <= KnownFields(F).Keys {
      BlankRowConforms(F);
      assert stored + BlankRow(F) == BlankRow(F);
      assert Conforms(F, stored + BlankRow(F));
    } else {
      var k :| k in stored && k !in KnownFields(F);
      forall patch: Data ensures !Conforms(F, stored + patch) {
        assert k in stored + patch && !KeyOk(F, k, (stored + patch)[k]);
      }
    }
  }
}
