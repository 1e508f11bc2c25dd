/** Field descriptions: machine integers of the codec and the constants the generator computes for each field. */
module FieldSpecs {
  import opened Bits

  /** x converted to an n-bit unsigned integer */
  function Wrap(x: int, n: nat): (u: nat)
    ensures u < Pow2(n)
  {
    x % Pow2(n)
  }

  /** An n-bit word read as two's complement. */
  function ToSigned(u: nat, n: nat): int
    requires n >= 1
  {
    if u < Pow2(n - 1) then u else u - Pow2(n)
  }

  predicate FitsSigned(x: int, n: nat)
    requires n >= 1
  {
    0 - Pow2(n - 1) <= x < Pow2(n - 1)
  }

  lemma WrapOfFitting(x: int, n: nat)
    requires 0 <= x < Pow2(n)
    ensures Wrap(x, n) == x
  {
    LowFits(x, n);
  }

  lemma NegativeWraps(x: int, m: nat)
    requires 0 - m < x < 0
    ensures x % m == x + m
  {
    RemainderOfNegative(x, m, x + m);
  }

  lemma RemainderOfNegative(v: int, m: nat, r: nat)
    requires m > 0 && r < m && v == (-1) * m + r
    ensures v % m == r
  {
  }

  lemma SignedOfFitting(x: int, n: nat)
    requires n >= 1 && FitsSigned(x, n)
    ensures ToSigned(Wrap(x, n), n) == x
    ensures Wrap(x, n) == if x >= 0 then x else x + Pow2(n)
  {
    if x >= 0 { WrapOfFitting(x, n); } else { NegativeWraps(x, Pow2(n)); }
  }

  /** What the catalog says about a field. */
  datatype PgnField = PgnField(bitLength: nat, signed: bool, reservedType: bool, offset: int)

  /** What the codec is generated with. */
  datatype FieldSpec = FieldSpec(
    bitLength: nat, maxRawValue: nat, missingValue: nat, offset: int, isSigned: bool, reservedCount: nat)

  /** getReservedValueCount */
  function ReservedValueCount(field: PgnField): nat {
    if !field.reservedType then 0
    else if field.bitLength == 0 then 0
    else if field.bitLength >= 4 then 2 else 1
  }

  /** uint64(0xFFFFFFFFFFFFFFFF) */
  function AllOnes(): nat {
    Pow2(64) - 1
  }

  /** calcMaxRawValue */
  function MaxRawValue(field: PgnField): nat
    requires field.bitLength <= 64
  {
    if field.bitLength == 0 then 0
    else if !field.reservedType then 0
    else
      var maxRawVal := Shr(AllOnes(), 64 - field.bitLength);
      if field.signed then Shr(maxRawVal, 1) else maxRawVal
  }

  /** calcMaxValidRawValue, in a uint64 */
  function MaxValidRawValue(field: PgnField): nat
    requires field.bitLength <= 64
  {
    if field.bitLength == 0 || !field.reservedType then 0
    else Wrap(MaxRawValue(field) - ReservedValueCount(field), 64)
  }

  /** calcMissingValue */
  function MissingValue(field: PgnField): nat
    requires field.bitLength <= 64
  {
    if ReservedValueCount(field) == 0 then 0
    else
      var missing := Shr(AllOnes(), 64 - field.bitLength);
      if field.signed then Shr(missing, 1) else missing
  }

  function GeneratedSpec(field: PgnField): FieldSpec
    requires field.bitLength <= 64
  {
    FieldSpec(field.bitLength, MaxValidRawValue(field), MissingValue(field), field.offset, field.signed,
              ReservedValueCount(field))
  }

  /** The largest number the field's bits hold: all ones, without the sign bit. */
  function Top(bitLength: nat, signed: bool): nat
    requires bitLength >= 1
  {
    if signed then Pow2(bitLength - 1) - 1 else Pow2(bitLength) - 1
  }

  lemma ShiftedOnes(n: nat, k: nat)
    requires k <= n
    ensures Shr(Pow2(n) - 1, k) == Pow2(n - k) - 1
  {
    var shifted, ones := Shr(Pow2(n) - 1, k), Pow2(n - k) - 1;
    forall i: nat ensures BitAt(shifted, i) <==> BitAt(ones, i) {
      BitOfShr(Pow2(n) - 1, k, i);
      BitOfOnes(n, i + k);
      BitOfOnes(n - k, i);
    }
    SameBitsSameNumber(shifted, ones);
  }

  /** A field with a length of its own, as the codec's callers have it. */
  predicate ProperField(field: PgnField) {
    && 1 <= field.bitLength <= 64 && (field.signed ==> field.bitLength >= 2)
    && FitsSigned(field.offset, 64)
  }

  lemma {:induction false} PowersOutgrow(n: nat)
    ensures Pow2(n) >= n + 1
  {
    if n > 0 { PowersOutgrow(n - 1); }
  }

  lemma RoomInWord(field: PgnField, word: nat)
    requires 1 <= field.bitLength <= word && (field.signed ==> field.bitLength >= 2)
    ensures ReservedValueCount(field) <= Top(field.bitLength, field.signed) < Pow2(word)
  {
    var bits := if field.signed then field.bitLength - 1 else field.bitLength;
    PowersOutgrow(bits);
    if bits < word { PowersGrow(bits, word); }
  }

  lemma RoomForReserved(field: PgnField)
    requires ProperField(field)
    ensures ReservedValueCount(field) <= Top(field.bitLength, field.signed) < Pow2(64)
  {
    RoomInWord(field, 64);
  }

  lemma RawValuesAreTop(field: PgnField)
    requires ProperField(field) && field.reservedType
    ensures MissingValue(field) == MaxRawValue(field) == Top(field.bitLength, field.signed)
  {
    ShiftedOnes(64, 64 - field.bitLength);
    if field.signed { ShiftedOnes(field.bitLength, 1); }
  }

  /** A field of another type, or without a length, reserves nothing, and its constants say so. */
  lemma UnreservedConstants(field: PgnField)
    requires field.bitLength <= 64 && (!field.reservedType || field.bitLength == 0)
    ensures var spec := GeneratedSpec(field);
            spec.reservedCount == 0 && spec.missingValue == 0 && spec.maxRawValue == 0
  {
  }

  /**
    The generated constants: missing is the field's top value, and the valid
    values end one or two below it.
   */
  lemma GeneratedConstants(field: PgnField)
    requires ProperField(field) && field.reservedType
    ensures var spec := GeneratedSpec(field);
            && spec.missingValue == Top(field.bitLength, field.signed)
            && spec.maxRawValue == Top(field.bitLength, field.signed) - spec.reservedCount
            && 1 <= spec.reservedCount <= 2 && (spec.reservedCount == 2 <==> field.bitLength >= 4)
  {
    RawValuesAreTop(field);
    RoomForReserved(field);
    WrapOfFitting(Top(field.bitLength, field.signed) - ReservedValueCount(field), 64);
  }
}
