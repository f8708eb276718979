/**
  The enum the generator emits for one field-type definition, and the
  meaning of every operation it binds to that enum: construction from a
  base-type value or an `i64`, the numeric accessors, `is_named_variant`,
  `Display` and `Serialize`.
 */
module FieldTypes {
  import opened Optional
  import opened IntTypes
  import opened Decimal
  import opened FormatStrings

  /** One named value of a field type: `ident` names the enum case, `name` is what `Display` prints. */
  datatype Variant = Variant(ident: string, name: string, value: int)

  /**
    One entry of the profile's type catalog. `ident`, `otherIdent` (the name
    of the fallback case), `baseType` and `isTrueEnum` are supplied by the
    profile parser; `variants` keeps the catalog's declaration order.
   */
  datatype FieldTypeDefinition = FieldTypeDefinition(
    name: string,
    ident: string,
    otherIdent: string,
    baseType: IntType,
    isTrueEnum: bool,
    variants: seq<Variant>)

  /**
    The generator prints each variant value as a `syn::Index` literal, whose
    number is a `u32`: any other value makes generation panic.
   */
  predicate LiteralEmittable(v: int) {
    0 <= v <= 0xFFFF_FFFF
  }

  /**
    The conditions on a definition's numbers and names under which the
    generator runs and its code compiles, as far as this model sees them
    (identifiers are abstract, so their validity and clashes are not checked):
    - every value can be emitted as a literal (see `LiteralEmittable`);
    - every value lies in the base type's range, or the literal in
      `match value { .. }` would overflow;
    - values are distinct, because the variants come from a map keyed by value;
    - the base type is not `i64`, or the two `From` impls would be the same
      impl, `From<i64>`, twice;
    - every name is a valid argument-free format string, since `Display`
      passes it to `write!` as the format (see `FormatLiteral`).
   */
  predicate WellFormed(f: FieldTypeDefinition) {
    && f.baseType != I64
    && (forall i :: 0 <= i < |f.variants| ==> FormatLiteral(f.variants[i].name).Some?)
    && (forall i :: 0 <= i < |f.variants| ==> LiteralEmittable(f.variants[i].value))
    && (forall i :: 0 <= i < |f.variants| ==> InRange(f.baseType, f.variants[i].value))
    && (forall i, j :: 0 <= i < j < |f.variants| ==> f.variants[i].value != f.variants[j].value)
  }

  /** A definition with one variant is well formed when that variant's value and name are. */
  lemma SingleVariantWellFormed(f: FieldTypeDefinition)
    requires |f.variants| == 1 && f.baseType != I64
    requires LiteralEmittable(f.variants[0].value) && InRange(f.baseType, f.variants[0].value)
    requires FormatLiteral(f.variants[0].name).Some?
    ensures WellFormed(f)
  {
    assert forall i :: 0 <= i < |f.variants| ==> FormatLiteral(f.variants[i].name).Some?;
    assert forall i :: 0 <= i < |f.variants| ==> LiteralEmittable(f.variants[i].value);
    assert forall i :: 0 <= i < |f.variants| ==> InRange(f.baseType, f.variants[i].value);
  }

  predicate Declares(f: FieldTypeDefinition, v: int) {
    exists i :: 0 <= i < |f.variants| && f.variants[i].value == v
  }

  /**
    A value of the generated enum: the case of the `index`-th declared
    variant, or the fallback case carrying a raw base-type value.
   */
  datatype FieldValue = Named(index: nat) | Other(raw: int)

  /** The values that exist in the generated Rust type. */
  predicate Valid(f: FieldTypeDefinition, x: FieldValue) {
    match x
    case Named(i) => i < |f.variants|
    case Other(v) => InRange(f.baseType, v)
  }

  /** The value `From` would produce for the number `x` stands for. */
  predicate Canonical(f: FieldTypeDefinition, x: FieldValue) {
    match x
    case Named(i) => i < |f.variants|
    case Other(v) => InRange(f.baseType, v) && !Declares(f, v)
  }

  /** The generated enum declaration: its cases in declaration order, then the fallback case and its payload type. */
  datatype EnumDecl = EnumDecl(ident: string, caseIdents: seq<string>, otherIdent: string, otherPayload: IntType)

  function CaseIdents(vs: seq<Variant>): (r: seq<string>)
    ensures |r| == |vs|
    ensures forall i :: 0 <= i < |vs| ==> r[i] == vs[i].ident
  {
    if |vs| == 0 then [] else [vs[0].ident] + CaseIdents(vs[1..])
  }

  /** Whether every value of `vs` can be printed as a literal. */
  function AllEmittable(vs: seq<Variant>): (b: bool)
    ensures b <==> forall i :: 0 <= i < |vs| ==> LiteralEmittable(vs[i].value)
  {
    if |vs| == 0 then true
    else LiteralEmittable(vs[0].value) && AllEmittable(vs[1..])
  }

  /** The outcome of generating the enum of one definition. */
  datatype Generated = NoType | Panics | Emitted(decl: EnumDecl)

  /**
    `field_type_enum`: no type at all for a definition without variants,
    which is checked before any literal is printed; a panic if a variant
    value cannot be printed as a literal; otherwise one case per variant,
    in declaration order, plus the fallback.
   */
  function FieldTypeEnum(f: FieldTypeDefinition): (r: Generated)
    ensures r.NoType? <==> |f.variants| == 0
    ensures r.Panics? <==>
      |f.variants| > 0 && exists i :: 0 <= i < |f.variants| && !LiteralEmittable(f.variants[i].value)
    ensures WellFormed(f) && |f.variants| > 0 ==> r.Emitted?
    ensures r.Emitted? ==> r.decl.ident == f.ident && r.decl.otherIdent == f.otherIdent
    ensures r.Emitted? ==> r.decl.otherPayload == f.baseType
    ensures r.Emitted? ==> |r.decl.caseIdents| == |f.variants|
    ensures r.Emitted? ==> forall i :: 0 <= i < |f.variants| ==> r.decl.caseIdents[i] == f.variants[i].ident
  {
    if |f.variants| == 0 then NoType
    else if !AllEmittable(f.variants) then Panics
    else Emitted(EnumDecl(f.ident, CaseIdents(f.variants), f.otherIdent, f.baseType))
  }

  /** The first of `vs[k..]` whose value is `v`: the arm a Rust `match` on literals selects. */
  function FirstMatch(vs: seq<Variant>, v: int, k: nat): (r: Option<nat>)
    requires k <= |vs|
    ensures r.Some? ==> k <= r.value < |vs| && vs[r.value].value == v
    ensures r.Some? ==> forall j :: k <= j < r.value ==> vs[j].value != v
    ensures r.None? ==> forall j :: k <= j < |vs| ==> vs[j].value != v
    decreases |vs| - k
  {
    if k == |vs| then None
    else if vs[k].value == v then Some(k)
    else FirstMatch(vs, v, k + 1)
  }

  /**
    `From<base_type>`: total; the declared variant with that value, or the
    fallback case carrying the value unmodified.
   */
  function From(f: FieldTypeDefinition, v: int): (r: FieldValue)
    requires InRange(f.baseType, v)
    ensures Canonical(f, r)
    ensures r.Named? <==> Declares(f, v)
    ensures r.Named? ==> f.variants[r.index].value == v
    ensures r.Other? ==> r.raw == v
  {
    match FirstMatch(f.variants, v, 0)
    case Some(i) => Named(i)
    case None => Other(v)
  }

  /** `From<i64>`: casts the number to the base type with `as`, then as `From<base_type>`. */
  function FromI64(f: FieldTypeDefinition, v: int): (r: FieldValue)
    requires InRange(I64, v)
    ensures Canonical(f, r)
    ensures InRange(f.baseType, v) ==> r == From(f, v)
    ensures r.Other? ==> r.raw == Cast(f.baseType, v)
  {
    From(f, Cast(f.baseType, v))
  }

  /** `as_<base_type>`: the number a value stands for. */
  function AsBase(f: FieldTypeDefinition, x: FieldValue): (r: int)
    requires WellFormed(f) && Valid(f, x)
    ensures InRange(f.baseType, r)
    ensures x.Named? ==> r == f.variants[x.index].value
    ensures x.Other? ==> r == x.raw
  {
    match x
    case Named(i) => f.variants[i].value
    case Other(v) => v
  }

  /** `as_i64`: `as_<base_type>` widened with `as i64`; a `u64` above `i64::MAX` wraps. */
  function AsI64(f: FieldTypeDefinition, x: FieldValue): (r: int)
    requires WellFormed(f) && Valid(f, x)
    ensures InRange(I64, r)
    ensures f.baseType != U64 ==> r == AsBase(f, x)
    ensures Cast(f.baseType, r) == AsBase(f, x)
  {
    CastThroughI64(f.baseType, AsBase(f, x));
    Cast(I64, AsBase(f, x))
  }

  /**
    The generated `is_named_variant(value: i64)`: a match of the raw `i64`
    whose arms are the declared values, each answering `true`. It does not
    cast to the base type first.
   */
  function IsNamedVariant(f: FieldTypeDefinition, value: int): (r: bool)
    requires InRange(I64, value)
    ensures r <==> Declares(f, value)
  {
    FirstMatch(f.variants, value, 0).Some?
  }

  const UnknownPrefix: string := "unknown_variant_"

  /**
    The generated `Display` implementation. A named case writes its name as
    a format string, so `{{` and `}}` print single braces. A name that is no
    valid format string leaves no code to run (the definition is not
    `WellFormed`); the model returns such a name unchanged.
   */
  function Display(f: FieldTypeDefinition, x: FieldValue): (r: string)
    requires Valid(f, x)
    ensures x.Named? && FormatLiteral(f.variants[x.index].name).Some? ==>
      FormatLiteral(f.variants[x.index].name) == Some(r) && f.variants[x.index].name == EscapeBraces(r)
    ensures x.Named? && NoBraces(f.variants[x.index].name) ==> r == f.variants[x.index].name
    ensures x.Other? ==> r == (if f.isTrueEnum then UnknownPrefix else "") + ToDecimal(x.raw)
    ensures x.Other? && f.isTrueEnum ==>
      |r| > |UnknownPrefix| && r[..|UnknownPrefix|] == UnknownPrefix
      && ParseDecimal(r[|UnknownPrefix|..]) == Some(x.raw)
    ensures x.Other? && !f.isTrueEnum ==> ParseDecimal(r) == Some(x.raw)
  {
    match x
    case Named(i) =>
      (match FormatLiteral(f.variants[i].name)
       case Some(t) =>
         FormatLiteralEscape(f.variants[i].name, t);
         t
       case None => f.variants[i].name)
    case Other(v) =>
      DecimalRoundTrip(v);
      if f.isTrueEnum then
        assert (UnknownPrefix + ToDecimal(v))[|UnknownPrefix|..] == ToDecimal(v);
        UnknownPrefix + ToDecimal(v)
      else ToDecimal(v)
  }

  /** What the generated `Serialize` implementation hands to the serializer. */
  datatype Serialized = SStr(s: string) | SNum(n: int)

  /**
    The generated `Serialize`: a true enum always serializes its display
    string; any other type serializes the fallback case as the raw number
    and a named case as its display string.
   */
  function Serialize(f: FieldTypeDefinition, x: FieldValue): (r: Serialized)
    requires Valid(f, x)
    ensures r.SNum? <==> x.Other? && !f.isTrueEnum
    ensures r.SNum? ==> r.n == x.raw
    ensures r.SStr? ==> r.s == Display(f, x)
  {
    if f.isTrueEnum then SStr(Display(f, x))
    else
      match x
      case Other(v) => SNum(v)
      case Named(_) => SStr(Display(f, x))
  }

  /**
    Recovers the raw number from the serialized form of a fallback value:
    the number itself, or the digits after the unknown-variant prefix.
   */
  function RawOfSerialized(s: Serialized): Option<int> {
    match s
    case SNum(n) => Some(n)
    case SStr(str) =>
      if |str| >= |UnknownPrefix| && str[..|UnknownPrefix|] == UnknownPrefix
      then ParseDecimal(str[|UnknownPrefix|..])
      else None
  }

  // ---------------------------------------------------------------------
  // Properties of the generated operations
  // ---------------------------------------------------------------------

  /** Construction is total and `as_<base_type>` returns exactly the number constructed from. */
  lemma FromAsBaseRoundTrip(f: FieldTypeDefinition, v: int)
    requires WellFormed(f) && InRange(f.baseType, v)
    ensures Valid(f, From(f, v))
    ensures AsBase(f, From(f, v)) == v
  {
  }

  /**
    The other direction: constructing from the number a value stands for
    gives the value back exactly when it is canonical, i.e. when it is not
    a fallback case holding a declared value.
   */
  lemma AsBaseFromRoundTrip(f: FieldTypeDefinition, x: FieldValue)
    requires WellFormed(f) && Valid(f, x)
    ensures From(f, AsBase(f, x)) == x <==> Canonical(f, x)
  {
    var r := From(f, AsBase(f, x));
    if x.Named? {
      assert r.Named? && f.variants[r.index].value == f.variants[x.index].value;
    }
  }

  /**
    A declared variant is constructed from its value and displays the text
    its name prints as a format string; a brace-free name displays as itself.
   */
  lemma DeclaredVariantFidelity(f: FieldTypeDefinition, i: nat)
    requires WellFormed(f) && i < |f.variants|
    ensures From(f, f.variants[i].value) == Named(i)
    ensures FormatLiteral(f.variants[i].name) == Some(Display(f, From(f, f.variants[i].value)))
    ensures NoBraces(f.variants[i].name) ==> Display(f, From(f, f.variants[i].value)) == f.variants[i].name
  {
    var r := From(f, f.variants[i].value);
    assert r.Named? && f.variants[r.index].value == f.variants[i].value;
  }

  /** An undeclared number becomes the fallback case carrying it unmodified. */
  lemma UndeclaredIsOther(f: FieldTypeDefinition, v: int)
    requires InRange(f.baseType, v) && !Declares(f, v)
    ensures From(f, v) == Other(v)
  {
  }

  /** `is_named_variant` and construction agree on every base-type value that is also an `i64`. */
  lemma IsNamedVariantAgreesWithFrom(f: FieldTypeDefinition, v: int)
    requires InRange(f.baseType, v) && InRange(I64, v)
    ensures IsNamedVariant(f, v) <==> From(f, v).Named?
    ensures IsNamedVariant(f, v) <==> FromI64(f, v).Named?
  {
  }

  /**
    How the fallback case displays: the unknown-variant label for a true
    enum, the bare decimal otherwise. This holds for every fallback value,
    including one built directly around a declared number, and in
    particular for what `From` makes of an undeclared number.
   */
  lemma OtherDisplay(f: FieldTypeDefinition, v: int)
    requires InRange(f.baseType, v)
    ensures f.isTrueEnum ==> Display(f, Other(v)) == UnknownPrefix + ToDecimal(v)
    ensures !f.isTrueEnum ==> Display(f, Other(v)) == ToDecimal(v)
    ensures !Declares(f, v) ==> Display(f, From(f, v)) == Display(f, Other(v))
  {
  }

  /** The serialization policy, stated for every constructed value. */
  lemma SerializePolicy(f: FieldTypeDefinition, v: int)
    requires InRange(f.baseType, v)
    ensures f.isTrueEnum ==> Serialize(f, From(f, v)) == SStr(Display(f, From(f, v)))
    ensures !f.isTrueEnum && !Declares(f, v) ==> Serialize(f, From(f, v)) == SNum(v)
    ensures Declares(f, v) ==> Serialize(f, From(f, v)) == SStr(Display(f, From(f, v)))
  {
  }

  /** The raw number of a fallback value survives serialization, under either policy. */
  lemma SerializedFallbackKeepsRaw(f: FieldTypeDefinition, x: FieldValue)
    requires Valid(f, x) && x.Other?
    ensures RawOfSerialized(Serialize(f, x)) == Some(x.raw)
  {
  }

  /**
    `as_i64` followed by `From<i64>` is the same as constructing from the
    base-type number: no base type loses information through `i64`.
   */
  lemma AsI64FromI64RoundTrip(f: FieldTypeDefinition, x: FieldValue)
    requires WellFormed(f) && Valid(f, x)
    ensures FromI64(f, AsI64(f, x)) == From(f, AsBase(f, x))
    ensures Canonical(f, x) ==> FromI64(f, AsI64(f, x)) == x
  {
    AsBaseFromRoundTrip(f, x);
  }

  /** `From<i64>` on an out-of-range number constructs from its truncation. */
  lemma FromI64Truncates(f: FieldTypeDefinition, v: int)
    requires WellFormed(f) && InRange(I64, v)
    ensures AsBase(f, FromI64(f, v)) == Cast(f.baseType, v)
  {
    FromAsBaseRoundTrip(f, Cast(f.baseType, v));
  }
}
