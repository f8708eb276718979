/**
  The generated `FieldDataType` registry: one tag per base scalar type of
  the profile followed by one tag per catalog definition, and the three
  dispatch functions that route a tag to the generated enum it names.
 */
module Registry {
  import opened Optional
  import opened IntTypes
  import opened Decimal
  import opened FieldTypes
  import opened FormatStrings

  /** The profile's base scalar types, each a registry tag of its own. */
  datatype BaseScalar =
    | Bool | SInt8 | UInt8 | SInt16 | UInt16 | SInt32 | UInt32 | String | Float32
    | Float64 | UInt8z | UInt16z | UInt32z | Byte | SInt64 | UInt64 | UInt64z

  /** The base scalar tags in the order the registry declares them. */
  const BaseScalars: seq<BaseScalar> := [
    Bool, SInt8, UInt8, SInt16, UInt16, SInt32, UInt32, String, Float32,
    Float64, UInt8z, UInt16z, UInt32z, Byte, SInt64, UInt64, UInt64z
  ]

  /** A registry tag: a base scalar, or the `index`-th definition of the catalog. */
  datatype FieldDataType = Base(scalar: BaseScalar) | Defined(index: nat)

  /** The tags that exist for a given catalog. */
  predicate ValidTag(catalog: seq<FieldTypeDefinition>, tag: FieldDataType) {
    tag.Defined? ==> tag.index < |catalog|
  }

  function DefinedTags(n: nat): (r: seq<FieldDataType>)
    ensures |r| == n
    ensures forall i :: 0 <= i < n ==> r[i] == Defined(i)
  {
    if n == 0 then [] else DefinedTags(n - 1) + [Defined(n - 1)]
  }

  /** Where a base scalar sits among the registry's declared cases. */
  function ScalarIndex(b: BaseScalar): (k: nat)
    ensures k < |BaseScalars| && BaseScalars[k] == b
  {
    match b
    case Bool => 0
    case SInt8 => 1
    case UInt8 => 2
    case SInt16 => 3
    case UInt16 => 4
    case SInt32 => 5
    case UInt32 => 6
    case String => 7
    case Float32 => 8
    case Float64 => 9
    case UInt8z => 10
    case UInt16z => 11
    case UInt32z => 12
    case Byte => 13
    case SInt64 => 14
    case UInt64 => 15
    case UInt64z => 16
  }

  /** No base scalar is declared twice. */
  lemma ScalarsDistinct(k: nat, l: nat)
    requires k < l < |BaseScalars|
    ensures BaseScalars[k] != BaseScalars[l]
  {
    assert forall j | 0 <= j < |BaseScalars| :: ScalarIndex(BaseScalars[j]) == j;
  }

  /**
    The cases of `FieldDataType` in declaration order: the 17 base scalars,
    then one per definition of the catalog, whether or not it has variants.
   */
  function Tags(catalog: seq<FieldTypeDefinition>): (r: seq<FieldDataType>)
    ensures |r| == |BaseScalars| + |catalog|
    ensures forall k :: 0 <= k < |BaseScalars| ==> r[k] == Base(BaseScalars[k])
    ensures forall i :: 0 <= i < |catalog| ==> r[|BaseScalars| + i] == Defined(i)
  {
    seq(|BaseScalars|, k requires 0 <= k < |BaseScalars| => Base(BaseScalars[k])) + DefinedTags(|catalog|)
  }

  /** The registry is a closed union: every tag of the catalog is declared, and nothing else is. */
  lemma TagsComplete(catalog: seq<FieldTypeDefinition>, tag: FieldDataType)
    ensures tag in Tags(catalog) <==> ValidTag(catalog, tag)
  {
    var ts := Tags(catalog);
    if ValidTag(catalog, tag) {
      match tag
      case Base(b) =>
        assert ts[ScalarIndex(b)] == tag;
      case Defined(i) =>
        assert ts[|BaseScalars| + i] == tag;
    }
  }

  /** The names whose definitions are never reported as enum types. */
  const EnumDenylist: set<string> := {"date_time", "local_date_time"}

  /** Whether a definition gets an arm in the three dispatch functions. */
  predicate Dispatched(f: FieldTypeDefinition) {
    |f.variants| > 0 && f.name !in EnumDenylist
  }

  /**
    The indices of `catalog[k..]` that survive both filters, in catalog
    order: the dispatch arms the generator emits.
   */
  function DispatchArmsFrom(catalog: seq<FieldTypeDefinition>, k: nat): (r: seq<nat>)
    requires k <= |catalog|
    ensures forall j :: 0 <= j < |r| ==> k <= r[j] < |catalog| && Dispatched(catalog[r[j]])
    ensures forall i :: k <= i < |catalog| && Dispatched(catalog[i]) ==> i in r
    ensures forall j, l :: 0 <= j < l < |r| ==> r[j] < r[l]
    decreases |catalog| - k
  {
    if k == |catalog| then []
    else if Dispatched(catalog[k]) then [k] + DispatchArmsFrom(catalog, k + 1)
    else DispatchArmsFrom(catalog, k + 1)
  }

  function DispatchArms(catalog: seq<FieldTypeDefinition>): seq<nat> {
    DispatchArmsFrom(catalog, 0)
  }

  /** The first arm of a `match self` over `FieldDataType` that names `tag`; `None` is the `_` arm. */
  function MatchArm(arms: seq<nat>, tag: FieldDataType): (r: Option<nat>)
    ensures r.Some? ==> tag == Defined(r.value) && r.value in arms
    ensures r.None? ==> !(tag.Defined? && tag.index in arms)
  {
    if |arms| == 0 then None
    else if tag == Defined(arms[0]) then Some(arms[0])
    else MatchArm(arms[1..], tag)
  }

  /** The generated `FieldDataType::is_enum_type`. */
  predicate IsEnumType(catalog: seq<FieldTypeDefinition>, tag: FieldDataType)
    ensures IsEnumType(catalog, tag) <==>
      tag.Defined? && tag.index < |catalog| && Dispatched(catalog[tag.index])
  {
    MatchArm(DispatchArms(catalog), tag).Some?
  }

  /** The generated `FieldDataType::is_named_variant`. */
  function RegistryIsNamedVariant(catalog: seq<FieldTypeDefinition>, tag: FieldDataType, value: int): (r: bool)
    requires InRange(I64, value)
    ensures r <==> IsEnumType(catalog, tag) && IsNamedVariant(catalog[tag.index], value)
  {
    match MatchArm(DispatchArms(catalog), tag)
    case Some(i) => IsNamedVariant(catalog[i], value)
    case None => false
  }

  const UndefinedPrefix: string := "Undefined"

  /** The generated `get_field_variant_as_string`. */
  function GetFieldVariantAsString(catalog: seq<FieldTypeDefinition>, tag: FieldDataType, value: int): (r: string)
    requires InRange(I64, value)
    ensures IsEnumType(catalog, tag) ==>
      r == Display(catalog[tag.index], FromI64(catalog[tag.index], value))
    ensures !IsEnumType(catalog, tag) ==> r == UndefinedPrefix + ToDecimal(value)
  {
    match MatchArm(DispatchArms(catalog), tag)
    case Some(i) => Display(catalog[i], FromI64(catalog[i], value))
    case None => UndefinedPrefix + ToDecimal(value)
  }

  // ---------------------------------------------------------------------
  // Properties of the registry
  // ---------------------------------------------------------------------

  /** No base scalar tag is an enum type, has named variants, or gets a variant string. */
  lemma BaseTagsNeverDispatch(catalog: seq<FieldTypeDefinition>, b: BaseScalar, value: int)
    requires InRange(I64, value)
    ensures !IsEnumType(catalog, Base(b))
    ensures !RegistryIsNamedVariant(catalog, Base(b), value)
    ensures GetFieldVariantAsString(catalog, Base(b), value) == UndefinedPrefix + ToDecimal(value)
  {
  }

  /**
    A definition without variants has no generated type and is never an
    enum type, though it still has a registry tag; a denylisted one keeps
    its generated type but is routed like a base scalar.
   */
  lemma ExcludedDefinitions(catalog: seq<FieldTypeDefinition>, i: nat, value: int)
    requires i < |catalog| && InRange(I64, value)
    requires |catalog[i].variants| == 0 || catalog[i].name in EnumDenylist
    ensures Defined(i) in Tags(catalog)
    ensures |catalog[i].variants| == 0 ==> FieldTypeEnum(catalog[i]).NoType?
    ensures !IsEnumType(catalog, Defined(i))
    ensures !RegistryIsNamedVariant(catalog, Defined(i), value)
    ensures GetFieldVariantAsString(catalog, Defined(i), value) == UndefinedPrefix + ToDecimal(value)
  {
    TagsComplete(catalog, Defined(i));
  }

  /**
    Generation never skips the definition of an enum tag: it emits that
    definition's type, or panics when the definition is not well formed.
   */
  lemma EnumTypesAreGenerated(catalog: seq<FieldTypeDefinition>, tag: FieldDataType)
    requires IsEnumType(catalog, tag)
    ensures !FieldTypeEnum(catalog[tag.index]).NoType?
    ensures WellFormed(catalog[tag.index]) ==> FieldTypeEnum(catalog[tag.index]).Emitted?
  {
  }

  /**
    For an enum tag and a number of its base type, the registry's two
    value functions agree: the value is a named variant exactly when the
    string is what that variant's name prints.
   */
  lemma RegistryNamedVariantString(catalog: seq<FieldTypeDefinition>, tag: FieldDataType, value: int)
    requires IsEnumType(catalog, tag)
    requires WellFormed(catalog[tag.index])
    requires InRange(I64, value) && InRange(catalog[tag.index].baseType, value)
    ensures RegistryIsNamedVariant(catalog, tag, value) <==>
      exists j :: 0 <= j < |catalog[tag.index].variants| &&
        catalog[tag.index].variants[j].value == value &&
        FormatLiteral(catalog[tag.index].variants[j].name) == Some(GetFieldVariantAsString(catalog, tag, value))
    ensures !RegistryIsNamedVariant(catalog, tag, value) ==>
      GetFieldVariantAsString(catalog, tag, value) ==
        if catalog[tag.index].isTrueEnum then UnknownPrefix + ToDecimal(value) else ToDecimal(value)
  {
    var f := catalog[tag.index];
    IsNamedVariantAgreesWithFrom(f, value);
    if RegistryIsNamedVariant(catalog, tag, value) {
      var x := From(f, value);
      DeclaredVariantFidelity(f, x.index);
    } else {
      OtherDisplay(f, value);
    }
  }
}
