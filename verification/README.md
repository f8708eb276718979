# FIT profile field types, modelled in Dafny

The `generate-fit-profile` tool of fitparse-rs reads the FIT profile's type
catalog and emits Rust code for it. For every field-type definition that has
named values it emits an enum: one case per declared variant, plus one
fallback case that carries a raw number of the definition's base type. It
binds these operations to the enum:

- `From<base_type>` and `From<i64>`;
- `as_<base_type>` and `as_i64`;
- `is_named_variant`;
- `Display` and `Serialize`.

It also emits the `FieldDataType` registry. The registry has one tag per
base scalar type and one per definition. Three dispatch functions route a
tag to its generated enum: `is_enum_type`, `is_named_variant` and
`get_field_variant_as_string`.

This project models what that emitted code does at run time. It does not
model the token streams that produce the code. The model is made of pure
Dafny functions over an abstract field-type definition, and the lemmas
relate those functions to each other.

Modules:

- `Optional` (`optional.dfy`): the option type the lookups and parsers return.
- `IntTypes` (`int_types.dfy`): the eight Rust integer base types, their
  ranges, and Rust's `as` cast as two's-complement truncation.
- `Decimal` (`decimal.dfy`): integers rendered as Rust's `{}` formats them,
  and a parser that inverts that rendering.
- `FormatStrings` (`format_strings.dfy`): what an argument-free Rust format
  string prints, and the escaping that produces one.
- `FieldTypes` (`field_types.dfy`): one definition, its generated enum
  value `Named(index) | Other(raw)`, and every generated operation.
- `Registry` (`registry.dfy`): the `FieldDataType` tags, the dispatch
  filter, and the three dispatch functions.
- `Scenarios` (`scenarios.dfy`): made-up example definitions, shaped like
  FIT profile entries, and what the generated code does with particular
  numbers.

Points of the code that shape the model:

- The registry declares a tag for every definition of the catalog,
  including definitions without variants (`field_types.rs:216`).
- Fallback display and serialization branch on the definition's
  `is_true_enum` flag, which the profile parser supplies (`field_types.rs:91`,
  `:139`). The registry instead filters on a fixed name denylist
  (`date_time`, `local_date_time`) and on non-empty variants
  (`field_types.rs:217-225`). The model keeps these two classifications
  separate, and `isTrueEnum` is an input field of the definition.
- The generated `is_named_variant` matches the raw `i64` against the
  declared values, while `From<i64>` first casts the number to the base
  type. For an `i64` outside the base type's range the two can therefore
  disagree. `Scenarios.NamedVariantDoesNotCast` shows such a number: 65536
  on a `u16` type is not a named variant, yet the registry renders it as a
  variant's name. Inside the range they agree
  (`FieldTypes.IsNamedVariantAgreesWithFrom`).
- The arms of `as_<base_type>` and of `From<base_type>` print the variant
  values through `bare_number_literal` (`field_types.rs:51`, `:115`). It
  parses the number as a `syn::Index`, a `u32` (`field_types.rs:28-30`). A
  negative value or one above `u32::MAX` therefore makes generation panic,
  although the comment at `field_types.rs:26-27` expects negative values to
  work. The arms of `is_named_variant` instead print the keys as `i64`
  literals (`field_types.rs:33-37`), which would not panic. `FieldTypes.FieldTypeEnum` models this panic,
  `FieldTypes.WellFormed` excludes such values, and
  `Scenarios.NegativeValuePanics` shows one.
- A named case's `Display` arm is `write!(f, #name)` (`field_types.rs:89`):
  the name becomes the format string, so `{{` and `}}` print one brace
  each, and any other brace leaves a placeholder without an argument,
  which does not compile. `FieldTypes.Display` prints a name through
  `FormatStrings.FormatLiteral`, and `FieldTypes.WellFormed` requires every
  name to be a valid format string.
- A base type of `i64` would make the two `From` impls
  (`field_types.rs:120`, `:129`) the same impl twice, which does not
  compile, so `FieldTypes.WellFormed` excludes it.

## Model

| member | source | states |
|---|---|---|
| IntTypes.Cast | generate-fit-profile/src/field_types.rs:129-133 | `value as base_type` always lands in the target range, is the identity on numbers already in range, and changes every number outside it |
| IntTypes.CastPeriodic | generate-fit-profile/src/field_types.rs:129-133 | the cast only depends on the number modulo 2^width |
| IntTypes.CastThroughI64 | generate-fit-profile/src/field_types.rs:64-66 | widening any base-type value to `i64` and casting back is lossless; it only changes `u64` values above `i64::MAX` |
| Decimal.ToDecimal | generate-fit-profile/src/field_types.rs:92-94 | `format!("{}", v)` of an integer: a leading `-` exactly for negative numbers, then digits only |
| Decimal.NatDigits | generate-fit-profile/src/field_types.rs:92-94 | the digits of a natural number have no leading zero, except for zero itself |
| Decimal.DecimalRoundTrip | generate-fit-profile/src/field_types.rs:92-94 | the decimal rendering used by the fallback display parses back to the number |
| Decimal.DecimalInjective | generate-fit-profile/src/field_types.rs:92-94 | two numbers render the same exactly when they are equal |
| FormatStrings.FormatLiteral | generate-fit-profile/src/field_types.rs:89 | a format string without braces prints itself; whatever a format string prints is no longer than it |
| FormatStrings.EscapeBraces | generate-fit-profile/src/field_types.rs:89 | doubling the braces of a text gives a format string at least as long, and changes nothing in a brace-free text |
| FormatStrings.FormatLiteralEscape | generate-fit-profile/src/field_types.rs:89 | a format string prints a text exactly when it is that text with every brace doubled, so each text has one format string and no other compiles to it |
| FormatStrings.BraceExamples | generate-fit-profile/src/field_types.rs:89 | `a{{b` prints `a{b`, and `x{}` does not compile |
| FieldTypes.CaseIdents | generate-fit-profile/src/field_types.rs:185-188 | the case identifiers are the variants' identifiers, one each, in declaration order |
| FieldTypes.FieldTypeEnum | generate-fit-profile/src/field_types.rs:179-207 | no type is generated iff the definition has no variants; generation panics iff some variant value cannot be printed as a `u32` literal (`LiteralEmittable`, `field_types.rs:28-30`); otherwise one case per variant in declaration order, plus a fallback carrying the base type, and every well-formed non-empty definition is emitted |
| FieldTypes.FirstMatch | generate-fit-profile/src/field_types.rs:122-124 | the selected arm is the first declared variant with that value; no arm is selected iff none has it |
| FieldTypes.From | generate-fit-profile/src/field_types.rs:119-127 | construction is total and canonical: a named case iff the value is declared, and that case has the value; otherwise the fallback carries the value unmodified |
| FieldTypes.FromI64 | generate-fit-profile/src/field_types.rs:129-133 | equals `From` for in-range numbers; a fallback result carries the number cast to the base type |
| FieldTypes.AsBase | generate-fit-profile/src/field_types.rs:55-62 | a named case returns its declared value and the fallback its payload unchanged, always within the base type's range |
| FieldTypes.AsI64 | generate-fit-profile/src/field_types.rs:64-66 | the result is an `i64`; it equals `as_<base_type>` for every base type except `u64`, and casting it back gives `as_<base_type>` |
| FieldTypes.Display | generate-fit-profile/src/field_types.rs:83-107 | a named case whose name is a valid format string shows what that format string prints, so its name is the shown text with braces doubled, and a brace-free name shows as itself; a fallback shows exactly `unknown_variant_` plus the `{}` decimal of its payload for a true enum and the bare decimal otherwise, and those digits parse back to the payload |
| FieldTypes.Serialize | generate-fit-profile/src/field_types.rs:137-159 | the result is a number iff the value is a fallback of a non-true-enum type, and then it is the raw value; otherwise it is the display string |
| FieldTypes.FromAsBaseRoundTrip | generate-fit-profile/src/field_types.rs:109-126 | for every number of the base type, `as_<base_type>(from(v)) == v`, for named and fallback results alike |
| FieldTypes.AsBaseFromRoundTrip | generate-fit-profile/src/field_types.rs:55-62 | `from(as_<base_type>(x)) == x` exactly when `x` is canonical, i.e. not a fallback holding a declared value |
| FieldTypes.DeclaredVariantFidelity | generate-fit-profile/src/field_types.rs:83-89 | constructing from a declared variant's value yields that variant, which displays what its name prints as a format string, and a brace-free name as itself |
| FieldTypes.UndeclaredIsOther | generate-fit-profile/src/field_types.rs:122-124 | an undeclared number becomes the fallback case carrying it |
| FieldTypes.IsNamedVariant | generate-fit-profile/src/field_types.rs:32-41 | the generated `match` answers `true` exactly when the `i64` equals one of the declared values |
| FieldTypes.IsNamedVariantAgreesWithFrom | generate-fit-profile/src/field_types.rs:32-41 | for numbers of the base type, `is_named_variant` holds iff `From` and `From<i64>` produce a named case |
| FieldTypes.OtherDisplay | generate-fit-profile/src/field_types.rs:90-95 | every fallback value, including one holding a declared number, displays as `unknown_variant_<v>` for a true enum and as the bare decimal otherwise; `From` of an undeclared number displays the same way |
| FieldTypes.SerializePolicy | generate-fit-profile/src/field_types.rs:137-150 | a true enum always serializes its display string; otherwise an undeclared number serializes as itself and a declared one as its display string |
| FieldTypes.SerializedFallbackKeepsRaw | generate-fit-profile/src/field_types.rs:139-147 | the raw number of a fallback value can be recovered from its serialized form under either policy |
| FieldTypes.AsI64FromI64RoundTrip | generate-fit-profile/src/field_types.rs:129-133 | `From<i64>(as_i64(x))` equals construction from `as_<base_type>(x)`, and gives back every canonical `x` |
| FieldTypes.FromI64Truncates | generate-fit-profile/src/field_types.rs:129-133 | the value constructed from an `i64` stands for that number truncated to the base type |
| Registry.Tags | generate-fit-profile/src/field_types.rs:241-244 | the registry declares the 17 base scalar tags, then one tag per definition in catalog order |
| Registry.TagsComplete | generate-fit-profile/src/field_types.rs:241-244 | a tag is declared in the registry exactly when it exists for the catalog: every base scalar and every definition index, and nothing else |
| Registry.ScalarsDistinct | generate-fit-profile/src/field_types.rs:210-213 | the 17 base scalar tags are pairwise different |
| Registry.DispatchArmsFrom | generate-fit-profile/src/field_types.rs:220-225 | the dispatch arms are exactly the definitions with variants and a name outside the denylist, in catalog order |
| Registry.MatchArm | generate-fit-profile/src/field_types.rs:248-252 | a tag selects an arm iff it is a definition tag among the arms, and then it selects that definition |
| Registry.IsEnumType | generate-fit-profile/src/field_types.rs:226-253 | `is_enum_type` holds exactly for definition tags whose definition has variants and is not denylisted |
| Registry.RegistryIsNamedVariant | generate-fit-profile/src/field_types.rs:254-259 | delegates to the definition's `is_named_variant` for enum tags and is false for every other tag |
| Registry.GetFieldVariantAsString | generate-fit-profile/src/field_types.rs:261-266 | total; for an enum tag it displays `From<i64>` of the number, for every other tag it is `Undefined` followed by the decimal |
| Registry.BaseTagsNeverDispatch | generate-fit-profile/src/field_types.rs:210-215 | no base scalar tag is an enum type or has named variants, and each renders as `Undefined<v>` |
| Registry.ExcludedDefinitions | generate-fit-profile/src/field_types.rs:217-225 | a definition without variants or with a denylisted name still has a tag, but it is routed like a base scalar; without variants it also has no generated type |
| Registry.EnumTypesAreGenerated | generate-fit-profile/src/field_types.rs:220-222 | generation never skips an enum tag's definition: it emits the type or panics, and it emits the type whenever the definition is well formed |
| Registry.RegistryNamedVariantString | generate-fit-profile/src/field_types.rs:229-234 | for an enum tag and a number of its base type, the registry reports a named variant iff the rendered string is what the name of the variant with that value prints; otherwise the string is the fallback display |
| Scenarios.DisplayMeasureScenario | generate-fit-profile/src/field_types.rs:90-92 | `display_measure`: 0 displays `metric`; 7 displays and serializes as `unknown_variant_7`; a fallback built around 0 displays `unknown_variant_0` |
| Scenarios.TemperatureScenario | generate-fit-profile/src/field_types.rs:137-150 | non-enum `temperature`: 127 displays `invalid`; 20 displays `20` and serializes as the number 20 |
| Scenarios.NamedVariantDoesNotCast | generate-fit-profile/src/field_types.rs:35-39 | on a `u16` type, 65536 is not a named variant, yet the registry renders it as the name of value 0 |
| Scenarios.WideAsI64Wraps | generate-fit-profile/src/field_types.rs:64-66 | for a well-formed `u64` type, a fallback of `u64::MAX` gives `as_i64() == -1` |
| Scenarios.WideFromI64Restores | generate-fit-profile/src/field_types.rs:129-133 | `From<i64>(-1)` on a `u64` type is the fallback holding `u64::MAX` |
| Scenarios.RegistryScenario | generate-fit-profile/src/field_types.rs:217-234 | `date_time` has variants but is not an enum type and renders as `Undefined<v>`; the other definitions dispatch to their types |
| Scenarios.RegistryNamedScenario | generate-fit-profile/src/field_types.rs:261-266 | the registry renders the declared value 127 of `temperature` as `invalid` |
| Scenarios.BracedNameScenario | generate-fit-profile/src/field_types.rs:89 | a variant named `a{{b` is well formed and displays `a{b`; one named `x{}` makes the definition ill formed |
| Scenarios.NegativeValuePanics | generate-fit-profile/src/field_types.rs:28-30 | a definition with the value -127 makes generation panic, while the same definition with 127 is emitted |

## Left out

- Writing the generated file (`write_types_file`): this is I/O. It includes
  the version header, the crate attributes and the `use` lines.
- Emission order of the enums in the output file: this is textual only, and
  each enum's content is modelled by `FieldTypes.FieldTypeEnum`.
- Token-stream construction (`quote!`, `format_ident!`, `syn::parse_str`):
  the model states what the emitted code means, not how its text is built.
- The panics on an unparsable base type string or on a fallback name that
  is not an identifier (`field_types.rs:21`, `format_ident!`): base types
  and identifiers are abstract values here. The panic on a variant value
  outside `0..=u32::MAX` is modelled (`FieldTypes.FieldTypeEnum`). A panic
  in any one definition aborts the whole file; the file is not modelled.
- Doc comments and derive or lint attributes: they are decoration. This
  includes the derived `Debug`, `PartialEq`, `Ord` and `Hash` impls.
- Base types `bool`, `f32`, `f64`, `String` and byte arrays: only the eight
  bounded integer types are modelled.
- The profile parser's accessors `is_true_enum`, `ident`,
  `other_value_field_name` and `base_type`: they are input fields of
  `FieldTypeDefinition`. The parser is not part of this model.
- FieldTypes.Display: a name that is not a valid format string leaves
  generated code that does not compile, so there is nothing to display.
  The model returns such a name unchanged and promises nothing about it.
- FieldTypes.Serialize: `SNum` carries only the number. It does not record
  which `serialize_<base_type>` method of the serializer receives it, and
  the serializer's own output format is not modelled.
- Registry tags are identified by catalog position. The generated enum
  names them by the definitions' identifiers, so the model assumes these
  are distinct from each other and from the 17 base scalar names. A clash
  would be a compile error in the generated code.
- Duplicate variant values: definitions are assumed to have distinct
  values (`FieldTypes.WellFormed`), because the parser keys variants by
  value. `From` is still first-match-wins, as the generated `match` is.
