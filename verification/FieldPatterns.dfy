/** When a field's bit pattern survives being read and written. */
module FieldPatterns {
  import opened Bits
  import opened FieldCodec
  import opened FieldRoundTrips
  import opened FieldSpecs
  import opened WordArithmetic
  import opened Wrappers

  /** A pattern that is read as a value, and the value. */
  predicate ReadsAs(v: nat, spec: FieldSpec, width: nat, word: nat, value: int)
    requires ProperWidth(spec, width, word)
  {
    v < Pow2(spec.bitLength) && Decode(v, spec, width, word) == Ok(Some(value))
  }

  /** What a pattern that is read as a value says. */
  lemma PatternIsRead(v: nat, spec: FieldSpec, width: nat, word: nat, value: int)
    requires ProperSpec(spec, width, word) && ReadsAs(v, spec, width, word, value)
    ensures var wire := WireValue(v, spec);
            && MinWire(spec) <= wire <= MaxWire(spec) && Wrap(wire, spec.bitLength) == v
            && Holds(wire + spec.offset, spec.isSigned, word)
            && value == Convert(wire + spec.offset, spec.isSigned, width)
  {
    DecodeMeans(v, spec, width, word);
    PatternFits(v, spec, word);
  }

  lemma ReadValueFits(v: nat, spec: FieldSpec, width: nat, word: nat, value: int)
    requires ProperSpec(spec, width, word) && ReadsAs(v, spec, width, word, value)
    ensures Holds(value, spec.isSigned, width) && (WireValue(v, spec) + spec.offset - value) % Pow2(width) == 0
  {
    PatternIsRead(v, spec, width, word, value);
    ConvertHolds(WireValue(v, spec) + spec.offset, spec.isSigned, width);
    ConvertTurns(WireValue(v, spec) + spec.offset, spec.isSigned, width);
  }

  /** A pattern that is read is written back as it was exactly when the value's wire value is the pattern's. */
  lemma PatternSurvivesExactly(v: nat, spec: FieldSpec, width: nat, word: nat, value: int)
    requires ProperSpec(spec, width, word) && ReadsAs(v, spec, width, word, value)
    ensures Encode(Some(value), spec, word) == Ok(v) <==> WrittenWire(value, spec, word) == WireValue(v, spec)
  {
    PatternIsRead(v, spec, width, word, value);
    ReadValueFits(v, spec, width, word, value);
    ValueIsWritten(value, spec, width, word);
    WireFits(spec, width, word, WrittenWire(value, spec, word));
  }

  /** A pattern that reads as a value without being cut to the Go type is written back as it was. */
  lemma PatternSurvives(v: nat, spec: FieldSpec, width: nat, word: nat, value: int)
    requires ProperSpec(spec, width, word) && ReadsAs(v, spec, width, word, value)
    requires Holds(WireValue(v, spec) + spec.offset, spec.isSigned, width)
    ensures Encode(Some(value), spec, word) == Ok(v)
  {
    PatternIsRead(v, spec, width, word, value);
    ConvertOfHeld(WireValue(v, spec) + spec.offset, spec.isSigned, width);
    NearIsExact(value, spec, width, word);
    PatternSurvivesExactly(v, spec, width, word, value);
  }

  /** The distance of a value to the offset as the machine computes it. */
  function Shifted(value: int, spec: FieldSpec, word: nat): int
    requires word >= 1
  {
    Convert(value - spec.offset, spec.isSigned, word)
  }

  /** The number that a cut value is written as: the end of the range on the side its distance to the offset is on. */
  function FarEnd(value: int, spec: FieldSpec, word: nat): int
    requires 1 <= spec.bitLength <= word
  {
    if Shifted(value, spec, word) > MaxWire(spec) then MaxWire(spec) else MinWire(spec)
  }

  lemma ShiftedTurns(wire: int, value: int, spec: FieldSpec, width: nat, word: nat)
    requires 1 <= width <= word && (wire + spec.offset - value) % Pow2(width) == 0
    ensures (wire - Shifted(value, spec, word)) % Pow2(width) == 0
  {
    var shifted := Shifted(value, spec, word);
    ConvertTurns(value - spec.offset, spec.isSigned, word);
    WideTurnsAreTurns(value - spec.offset - shifted, width, word);
    TurnsAddUp(wire + spec.offset - value, value - spec.offset - shifted, Pow2(width));
  }

  /** Wire values in the field's range are values of its Go type. */
  lemma RangeFits(x: int, spec: FieldSpec, width: nat, word: nat)
    requires ProperSpec(spec, width, word) && MinWire(spec) <= x <= MaxWire(spec)
    ensures Holds(x, spec.isSigned, width)
  {
    WireFits(spec, width, word, x);
    HeldInWider(x, spec.isSigned, spec.bitLength, width);
  }

  /** The machine's distance of a cut value to the offset is not in the field's range. */
  lemma CutMisses(v: nat, spec: FieldSpec, width: nat, word: nat, value: int)
    requires ProperSpec(spec, width, word) && ReadsAs(v, spec, width, word, value)
    requires !Holds(WireValue(v, spec) + spec.offset, spec.isSigned, width)
    ensures !(MinWire(spec) <= Shifted(value, spec, word) <= MaxWire(spec))
  {
    var wire, shifted := WireValue(v, spec), Shifted(value, spec, word);
    PatternIsRead(v, spec, width, word, value);
    ReadValueFits(v, spec, width, word, value);
    if MinWire(spec) <= shifted <= MaxWire(spec) {
      RangeFits(wire, spec, width, word);
      RangeFits(shifted, spec, width, word);
      ShiftedTurns(wire, value, spec, width, word);
      HeldAndSame(wire, shifted, spec.isSigned, width);
      UnshiftedIsSame(wire, value, spec, width, word);
      assert false;
    }
  }

  /** A value whose machine distance to the offset is the wire value is that wire value plus the offset. */
  lemma UnshiftedIsSame(wire: int, value: int, spec: FieldSpec, width: nat, word: nat)
    requires 1 <= width <= word && Holds(value, spec.isSigned, width)
    requires Holds(wire + spec.offset, spec.isSigned, word) && Shifted(value, spec, word) == wire
    ensures wire + spec.offset == value
  {
    HeldInWider(value, spec.isSigned, width, word);
    ConvertTurns(value - spec.offset, spec.isSigned, word);
    HeldAndSame(value, wire + spec.offset, spec.isSigned, word);
  }

  /** A cut value of a spec that clamps is written as an end of its range. */
  lemma CutIsClamped(v: nat, spec: FieldSpec, width: nat, word: nat, value: int)
    requires ProperSpec(spec, width, word) && ReadsAs(v, spec, width, word, value)
    requires !Holds(WireValue(v, spec) + spec.offset, spec.isSigned, width)
    requires spec.isSigned || spec.reservedCount > 0
    ensures WrittenWire(value, spec, word) == FarEnd(value, spec, word)
  {
    CutMisses(v, spec, width, word, value);
  }

  /** Without reserved values an unsigned pattern survives even a cut. */
  lemma UnreservedSurvives(v: nat, spec: FieldSpec, width: nat, word: nat, value: int)
    requires ProperSpec(spec, width, word) && ReadsAs(v, spec, width, word, value)
    requires !spec.isSigned && spec.reservedCount == 0
    ensures WrittenWire(value, spec, word) == WireValue(v, spec)
  {
    ReadValueFits(v, spec, width, word, value);
    ShiftedTurns(v, value, spec, width, word);
    WideTurnsAreTurns(v - Shifted(value, spec, word), spec.bitLength, width);
    SameRemainder(v, Shifted(value, spec, word), Pow2(spec.bitLength));
    LowFits(v, spec.bitLength);
  }

  /**
    Exactly when a pattern survives, for every spec: if its value needs no cut to
    the Go type, or nothing clamps it, or it is the end it is clamped to.
   */
  lemma PatternSurvivesIff(v: nat, spec: FieldSpec, width: nat, word: nat, value: int)
    requires ProperSpec(spec, width, word) && ReadsAs(v, spec, width, word, value)
    ensures var wire := WireValue(v, spec);
            Encode(Some(value), spec, word) == Ok(v)
            <==> || Holds(wire + spec.offset, spec.isSigned, width)
                 || (!spec.isSigned && spec.reservedCount == 0)
                 || wire == FarEnd(value, spec, word)
  {
    PatternSurvivesExactly(v, spec, width, word, value);
    if Holds(WireValue(v, spec) + spec.offset, spec.isSigned, width) {
      PatternSurvives(v, spec, width, word, value);
    } else if !spec.isSigned && spec.reservedCount == 0 {
      UnreservedSurvives(v, spec, width, word, value);
    } else {
      CutIsClamped(v, spec, width, word, value);
    }
  }

  /** Cutting a value to a type that holds the offset leaves it at the far end of the range. */
  lemma CutChangesEnds(v: nat, spec: FieldSpec, width: nat, word: nat, value: int)
    requires ProperSpec(spec, width, word) && ReadsAs(v, spec, width, word, value)
    requires spec.isSigned && FitsSigned(spec.offset, width) && !FitsSigned(WireValue(v, spec) + spec.offset, width)
    ensures WireValue(v, spec) != FarEnd(value, spec, word)
  {
    var wire := WireValue(v, spec);
    PatternIsRead(v, spec, width, word, value);
    ReadValueFits(v, spec, width, word, value);
    EndsFit(spec, width, word);
    PowersGrow(width - 1, word - 1);
    OneTurn(wire + spec.offset, value, width);
    ConvertOfHeld(value - spec.offset, true, word);
  }

  /** A number one addition out of a signed type is one turn away from the value it is cut to. */
  lemma OneTurn(x: int, value: int, width: nat)
    requires width >= 1 && FitsSigned(value, width) && (x - value) % Pow2(width) == 0
    requires 0 - Pow2(width) <= x < Pow2(width) && !FitsSigned(x, width)
    ensures value == if x >= 0 then x - Pow2(width) else x + Pow2(width)
  {
    var turned := if x >= 0 then x - Pow2(width) else x + Pow2(width);
    IsMultiple(turned - x, if x >= 0 then -1 else 1, Pow2(width));
    TurnsAddUp(turned - x, x - value, Pow2(width));
    HeldAndSame(turned, value, true, width);
  }

  /** With a signed offset of the field's own type, a pattern survives exactly when its value needs no cut. */
  lemma SignedPatternSurvivesIff(v: nat, spec: FieldSpec, width: nat, word: nat, value: int)
    requires ProperSpec(spec, width, word) && ReadsAs(v, spec, width, word, value)
    requires spec.isSigned && FitsSigned(spec.offset, width)
    ensures Encode(Some(value), spec, word) == Ok(v) <==> FitsSigned(WireValue(v, spec) + spec.offset, width)
  {
    PatternSurvivesIff(v, spec, width, word, value);
    if !FitsSigned(WireValue(v, spec) + spec.offset, width) {
      CutChangesEnds(v, spec, width, word, value);
    }
  }

  /** A pattern of a generated field that is read as nil is above the valid values, and nil is written as the missing one. */
  lemma NilPattern(v: nat, field: PgnField, width: nat)
    requires ProperField(field) && field.bitLength <= width <= 64 && v < Pow2(field.bitLength)
    requires Decode(v, GeneratedSpec(field), width, 64) == Ok(None)
    ensures var spec := GeneratedSpec(field);
            && field.reservedType
            && spec.missingValue + 1 - spec.reservedCount <= v <= spec.missingValue
            && Encode(None, spec, 64) == Ok(spec.missingValue)
  {
    var spec := GeneratedSpec(field);
    GeneratedIsProper(field, width);
    DecodeMeans(v, spec, width, 64);
    NilRoundTrips(spec, width, 64);
  }

  /** The catalog's power fields: signed, 32 bits, offset -2000000000. */
  function PowerField(): PgnField {
    PgnField(32, true, true, -2000000000)
  }

  lemma PowerFieldIsProper()
    ensures ProperField(PowerField()) && ProperSpec(GeneratedSpec(PowerField()), 32, 64)
    ensures MaxWire(GeneratedSpec(PowerField())) == 0x7fff_fffd && MinWire(GeneratedSpec(PowerField())) == -0x8000_0000
    ensures FitsSigned(-2000000000, 32)
  {
    PowersOfTwo();
    PowersGrow(31, 63);
    GeneratedIsProper(PowerField(), 32);
    GeneratedConstants(PowerField());
  }

  /** Their patterns survive from a wire value on, and from no other. */
  lemma PowerPatterns(v: nat, value: int)
    requires ReadsAs(v, GeneratedSpec(PowerField()), 32, 64, value)
    ensures Encode(Some(value), GeneratedSpec(PowerField()), 64) == Ok(v)
            <==> WireValue(v, GeneratedSpec(PowerField())) >= -147483648
  {
    var spec := GeneratedSpec(PowerField());
    PowerFieldIsProper();
    PatternIsRead(v, spec, 32, 64, value);
    SignedPatternSurvivesIff(v, spec, 32, 64, value);
    PowersOfTwo();
  }

  /** One of the patterns that is lost: it is read as a number, and the number is written as another pattern. */
  lemma PowerPatternIsLost() returns (value: int)
    ensures ReadsAs(0x8000_0000, GeneratedSpec(PowerField()), 32, 64, value)
    ensures Encode(Some(value), GeneratedSpec(PowerField()), 64) != Ok(0x8000_0000)
  {
    var spec := GeneratedSpec(PowerField());
    PowerFieldIsProper();
    PowersOfTwo();
    PowersGrow(32, 63);
    DecodeMeans(0x8000_0000, spec, 32, 64);
    value := Convert(-0x8000_0000 - 2000000000, true, 32);
    PowerPatterns(0x8000_0000, value);
  }

  /** An unsigned eight-bit field with reserved values, as a commanded address is, reads as nil or as an address. */
  lemma AddressFieldIsReal(v: nat)
    requires v < 256
    ensures var field := PgnField(8, false, true, 0);
            Decode(v, GeneratedSpec(field), 8, 64) == if v <= 253 then Ok(Some(v)) else Ok(None)
  {
    var field := PgnField(8, false, true, 0);
    PowersOfTwo();
    PowersGrow(8, 64);
    GeneratedIsProper(field, 8);
    GeneratedConstants(field);
    DecodeMeans(v, GeneratedSpec(field), 8, 64);
    if v <= 253 { ConvertOfHeld(v, false, 8); }
  }
}
