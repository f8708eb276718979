/**
  Example definitions, made up for illustration in the shape of FIT profile
  entries, and what the generated code does with particular numbers.
 */
module Scenarios {
  import opened Optional
  import opened IntTypes
  import opened Decimal
  import opened FieldTypes
  import opened Registry
  import opened FormatStrings

  /** `display_measure`: a true enum over `u16` with two declared units. */
  const DisplayMeasure: FieldTypeDefinition := FieldTypeDefinition(
    "display_measure", "DisplayMeasure", "UnknownVariant", U16, true,
    [Variant("Metric", "metric", 0), Variant("Statute", "statute", 1)])

  /** A non-enum quantity over `i8` with one named sentinel, `i8::MAX`. */
  const Temperature: FieldTypeDefinition := FieldTypeDefinition(
    "temperature", "Temperature", "Value", I8, false,
    [Variant("Invalid", "invalid", 127)])

  /** The same quantity with a negative sentinel, which the generator cannot print. */
  const NegativeSentinel: FieldTypeDefinition := FieldTypeDefinition(
    "temperature", "Temperature", "Value", I8, false,
    [Variant("Invalid", "invalid", -127)])

  /** `date_time`: has named breakpoints but is kept out of the enum dispatch. */
  const DateTime: FieldTypeDefinition := FieldTypeDefinition(
    "date_time", "DateTime", "Value", U32, false,
    [Variant("Min", "min", 0x1000_0000)])

  /** A `u64` type whose fallback can hold numbers beyond `i64::MAX`. */
  const Wide: FieldTypeDefinition := FieldTypeDefinition(
    "wide", "Wide", "Value", U64, false, [Variant("Zero", "zero", 0)])

  /** A name that escapes a brace, as the format string of `write!` requires. */
  const Braced: FieldTypeDefinition := FieldTypeDefinition(
    "braced", "Braced", "Value", U8, false, [Variant("Open", "a{{b", 1)])

  /** A name with a placeholder: the generated `write!` lacks its argument. */
  const Placeholder: FieldTypeDefinition := FieldTypeDefinition(
    "placeholder", "Placeholder", "Value", U8, false, [Variant("Open", "x{}", 1)])

  const Catalog: seq<FieldTypeDefinition> := [DisplayMeasure, Temperature, DateTime]

  lemma DisplayMeasureScenario()
    ensures Display(DisplayMeasure, From(DisplayMeasure, 0)) == "metric"
    ensures Display(DisplayMeasure, From(DisplayMeasure, 7)) == "unknown_variant_7"
    ensures Serialize(DisplayMeasure, From(DisplayMeasure, 7)) == SStr("unknown_variant_7")
    ensures Display(DisplayMeasure, Other(0)) == "unknown_variant_0"
  {
    assert From(DisplayMeasure, 0) == Named(0);
    assert NoBraces(DisplayMeasure.variants[0].name);
    assert From(DisplayMeasure, 7) == Other(7);
    assert ToDecimal(7) == "7" && ToDecimal(0) == "0";
    assert UnknownPrefix + "7" == "unknown_variant_7";
    assert UnknownPrefix + "0" == "unknown_variant_0";
  }

  lemma TemperatureScenario()
    ensures Display(Temperature, From(Temperature, 127)) == "invalid"
    ensures Display(Temperature, From(Temperature, 20)) == "20"
    ensures Serialize(Temperature, From(Temperature, 20)) == SNum(20)
  {
    assert From(Temperature, 127) == Named(0);
    assert NoBraces(Temperature.variants[0].name);
    assert From(Temperature, 20) == Other(20);
    assert NatDigits(20) == NatDigits(2) + [DigitChar(0)];
    assert ToDecimal(20) == "20";
  }

  /**
    `From<i64>` casts to the base type but `is_named_variant` does not: on
    a `u16` type, 65536 is no named variant, yet the registry renders it as
    the name of the variant with value 0.
   */
  lemma NamedVariantDoesNotCast()
    ensures !RegistryIsNamedVariant(Catalog, Defined(0), 0x1_0000)
    ensures GetFieldVariantAsString(Catalog, Defined(0), 0x1_0000) == "metric"
  {
    assert Dispatched(Catalog[0]);
    assert Cast(U16, 0x1_0000) == 0;
    assert From(DisplayMeasure, 0) == Named(0);
    assert FromI64(DisplayMeasure, 0x1_0000) == Named(0);
    assert NoBraces(DisplayMeasure.variants[0].name);
  }

  const U64Max: int := 0xFFFF_FFFF_FFFF_FFFF

  /** A `u64` fallback above `i64::MAX` comes out of `as_i64` negative. */
  lemma WideAsI64Wraps()
    ensures WellFormed(Wide) && AsI64(Wide, Other(U64Max)) == -1
  {
    WideWellFormed();
    assert AsBase(Wide, Other(U64Max)) == U64Max;
    CastPeriodic(I64, -1);
    assert Cast(I64, U64Max) == -1;
  }

  /** `From<i64>` of that negative number restores the `u64` fallback. */
  lemma WideFromI64Restores()
    ensures FromI64(Wide, -1) == Other(U64Max)
  {
    CastPeriodic(U64, -1);
    WideMaxUndeclared();
    UndeclaredIsOther(Wide, U64Max);
  }

  lemma WideWellFormed()
    ensures WellFormed(Wide)
  {
    assert NoBraces(Wide.variants[0].name);
    SingleVariantWellFormed(Wide);
  }

  lemma TemperatureWellFormed()
    ensures WellFormed(Temperature)
  {
    assert NoBraces(Temperature.variants[0].name);
    SingleVariantWellFormed(Temperature);
  }

  lemma WideMaxUndeclared()
    ensures !Declares(Wide, U64Max)
  {
    assert |Wide.variants| == 1 && Wide.variants[0].value == 0;
  }

  lemma RegistryScenario()
    ensures IsEnumType(Catalog, Defined(0)) && IsEnumType(Catalog, Defined(1))
    ensures !IsEnumType(Catalog, Defined(2))
    ensures GetFieldVariantAsString(Catalog, Defined(2), 0x1000_0000) == UndefinedPrefix + ToDecimal(0x1000_0000)
  {
    assert Dispatched(Catalog[0]) && Dispatched(Catalog[1]);
    assert Catalog[2].name in EnumDenylist;
  }

  /** The registry renders a declared value of `temperature` as its name. */
  lemma RegistryNamedScenario()
    ensures GetFieldVariantAsString(Catalog, Defined(1), 127) == "invalid"
  {
    assert Dispatched(Catalog[1]);
    assert From(Temperature, 127) == Named(0);
    assert NoBraces(Temperature.variants[0].name);
  }

  /**
    A negative variant value makes generation panic: the literal is parsed
    as a `syn::Index`, which holds only a `u32`.
   */
  lemma NegativeValuePanics()
    ensures FieldTypeEnum(NegativeSentinel).Panics?
    ensures FieldTypeEnum(Temperature).Emitted?
  {
    assert !LiteralEmittable(NegativeSentinel.variants[0].value);
    TemperatureWellFormed();
  }

  /**
    A variant name is a format string: `a{{b` displays as `a{b`, while
    `x{}` asks for an argument the generated `write!` does not pass, so
    its definition is not well formed.
   */
  lemma BracedNameScenario()
    ensures WellFormed(Braced) && Display(Braced, From(Braced, 1)) == "a{b"
    ensures !WellFormed(Placeholder)
  {
    BraceExamples();
    assert Braced.variants[0].name == "a{{b";
    SingleVariantWellFormed(Braced);
    assert From(Braced, 1) == Named(0);
    assert !FormatLiteral(Placeholder.variants[0].name).Some?;
  }
}
