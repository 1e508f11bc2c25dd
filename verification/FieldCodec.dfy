/**
  Integer fields: how a value becomes the bits of a field, and what the bits mean
  when they are read. The width of the machine's integers is a parameter: in Go
  it is 64, and nothing but that the field's type is no wider depends on it.
 */
module FieldCodec {
  import opened Bits
  import opened BitStream
  import opened DataStream
  import opened FieldSpecs
  import opened Wrappers

  /** The Go integer type a field has: its width, and the sign of its spec. */
  predicate ProperWidth(spec: FieldSpec, width: nat, word: nat) {
    1 <= spec.bitLength <= width <= word
  }

  /** T(x) */
  function Convert(x: int, signed: bool, width: nat): int
    requires width >= 1
  {
    if signed then ToSigned(Wrap(x, width), width) else Wrap(x, width)
  }

  predicate Holds(x: int, signed: bool, width: nat)
    requires width >= 1
  {
    if signed then FitsSigned(x, width) else 0 <= x < Pow2(width)
  }

  lemma ConvertOfHeld(x: int, signed: bool, width: nat)
    requires width >= 1 && Holds(x, signed, width)
    ensures Convert(x, signed, width) == x
  {
    if signed { SignedOfFitting(x, width); } else { WrapOfFitting(x, width); }
  }

  function MinWire(spec: FieldSpec): int
    requires spec.bitLength >= 1
  {
    if spec.isSigned then 0 - Pow2(spec.bitLength - 1) else 0
  }

  /** The largest wire value that is neither reserved nor out of the field's bits. */
  function MaxWire(spec: FieldSpec): int
    requires spec.bitLength >= 1
  {
    Top(spec.bitLength, spec.isSigned) - spec.reservedCount
  }

  function Clamp(x: int, low: int, high: int): int {
    var capped := if x > high then high else x;
    if capped < low then low else capped
  }

  /** WriteRaw's signed branch in words of this width: offset, clamp, and the field's bits of the result. */
  function RawSigned(value: int, spec: FieldSpec, word: nat): nat
    requires 1 <= spec.bitLength && 1 <= word
  {
    var signedVal := Convert(value, true, word);
    var shifted := if spec.offset != 0 then Convert(signedVal - spec.offset, true, word) else signedVal;
    And(Wrap(Clamp(shifted, MinWire(spec), MaxWire(spec)), word), Pow2(spec.bitLength) - 1)
  }

  /** WriteRaw's unsigned branch: offset in signed arithmetic, and pinned to the maximum if there are reserved values. */
  function RawUnsigned(value: int, spec: FieldSpec, word: nat): nat
    requires 1 <= word
  {
    var raw := Wrap(value, word);
    var shifted := if spec.offset != 0 then Wrap(Convert(raw, true, word) - spec.offset, word) else raw;
    if spec.reservedCount > 0 && shifted > spec.maxRawValue then spec.maxRawValue else shifted
  }

  /** The number WriteRaw hands to putNumberRaw. */
  function RawOf(value: Option<int>, spec: FieldSpec, word: nat): Result<nat>
    requires 1 <= spec.bitLength <= word
  {
    if value.None? then
      if spec.reservedCount == 0 then Err else Ok(spec.missingValue)
    else Ok(if spec.isSigned then RawSigned(value.value, spec, word) else RawUnsigned(value.value, spec, word))
  }

  /** The field's bits after WriteRaw. */
  function Encode(value: Option<int>, spec: FieldSpec, word: nat): Result<nat>
    requires 1 <= spec.bitLength <= word
  {
    var raw := RawOf(value, spec, word);
    if raw == Err then Err else Ok(Low(raw.value, spec.bitLength))
  }

  /** Sign extension of an unsigned word, read as a signed one. */
  function SignExtend(v: nat, bitLength: nat, word: nat): int
    requires 1 <= bitLength <= word
  {
    var extended := if bitLength < word && And(v, Shl(1, bitLength - 1)) != 0
                    then Or(v, Low(Shl(Pow2(word) - 1, bitLength), word)) else v;
    ToSigned(Wrap(extended, word), word)
  }

  /** getNullableNumberRaw, on the bits it has read: missing and invalid are both nil. */
  function Nullable(v: nat, spec: FieldSpec): Option<nat>
    requires 1 <= spec.bitLength
  {
    if spec.isSigned && And(v, Shl(1, spec.bitLength - 1)) > 0 then Some(v)
    else if v > spec.maxRawValue then None else Some(v)
  }

  /** applySignedOffset */
  function AddSigned(value: int, offset: int, word: nat): Result<int>
    requires 1 <= word
  {
    if offset > 0 && value > Pow2(word - 1) - 1 - offset then Err
    else if offset < 0 && value < (0 - Pow2(word - 1)) - offset then Err
    else Ok(value + offset)
  }

  /** applyUnsignedOffset */
  function AddUnsigned(value: nat, offset: int, word: nat): Result<int> {
    if offset < 0 then
      if value < (0 - (offset + 1)) + 1 then Err else Ok(value - ((0 - (offset + 1)) + 1))
    else if value > Pow2(word) - 1 - offset then Err
    else Ok(value + offset)
  }

  /** ReadRaw, on the bits it has read. */
  function Decode(v: nat, spec: FieldSpec, width: nat, word: nat): Result<Option<int>>
    requires ProperWidth(spec, width, word)
  {
    if spec.reservedCount > 0 && Nullable(v, spec).None? then Ok(None)
    else
      var value := if spec.isSigned then SignExtend(v, spec.bitLength, word) else v;
      var shifted := if spec.offset == 0 then Ok(value)
                     else if spec.isSigned then AddSigned(value, spec.offset, word) else AddUnsigned(v, spec.offset, word);
      if shifted == Err then Err else Ok(Some(Convert(shifted.value, spec.isSigned, width)))
  }

  /** The number a bit pattern stands for before the offset is added. */
  function WireValue(v: nat, spec: FieldSpec): int
    requires spec.bitLength >= 1
  {
    if spec.isSigned then ToSigned(v, spec.bitLength) else v
  }

  /** A generated spec with a type that can hold the field's bits, and an offset that a machine integer can be. */
  predicate ProperSpec(spec: FieldSpec, width: nat, word: nat) {
    && ProperWidth(spec, width, word) && FitsSigned(spec.offset, word)
    && (spec.isSigned ==> spec.bitLength >= 2)
    && MaxWire(spec) >= 0
    && (spec.reservedCount > 0 ==>
          spec.maxRawValue == MaxWire(spec) && spec.missingValue == Top(spec.bitLength, spec.isSigned))
  }

  /** Specs of the generator are proper. */
  lemma GeneratedIsProper(field: PgnField, width: nat)
    requires ProperField(field) && field.bitLength <= width <= 64
    ensures ProperSpec(GeneratedSpec(field), width, 64)
  {
    if field.reservedType {
      GeneratedConstants(field);
    }
    RoomForReserved(field);
  }
}
