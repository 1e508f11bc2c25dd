/** When a field's value survives being written and read. */
module FieldRoundTrips {
  import opened Bits
  import opened FieldCodec
  import opened FieldSpecs
  import opened WordArithmetic
  import opened Wrappers

  /** Wire values within the field's range fit its bits, and are what the bits say. */
  lemma WireFits(spec: FieldSpec, width: nat, word: nat, wire: int)
    requires ProperSpec(spec, width, word) && MinWire(spec) <= wire <= MaxWire(spec)
    ensures Holds(wire, spec.isSigned, spec.bitLength) && Holds(wire, spec.isSigned, word)
    ensures WireValue(Wrap(wire, spec.bitLength), spec) == wire
  {
    HeldInWider(wire, spec.isSigned, spec.bitLength, word);
    if spec.isSigned {
      SignedOfFitting(wire, spec.bitLength);
    } else {
      WrapOfFitting(wire, spec.bitLength);
    }
  }

  /** The distance to the offset in machine arithmetic, clamped to the range as WriteRaw clamps it. */
  function WrittenWire(value: int, spec: FieldSpec, word: nat): int
    requires 1 <= spec.bitLength <= word
  {
    if spec.isSigned then Clamp(Convert(value - spec.offset, true, word), MinWire(spec), MaxWire(spec))
    else if spec.reservedCount == 0 then Low(Wrap(value - spec.offset, word), spec.bitLength)
    else Clamp(Wrap(value - spec.offset, word), 0, MaxWire(spec))
  }

  lemma SignedRaw(value: int, spec: FieldSpec, word: nat)
    requires 2 <= spec.bitLength <= word && spec.isSigned && MaxWire(spec) >= 0 && Holds(value, true, word)
    ensures Low(RawSigned(value, spec, word), spec.bitLength) == Wrap(WrittenWire(value, spec, word), spec.bitLength)
  {
    ConvertOfHeld(value, true, word);
    MaskedWire(WrittenWire(value, spec, word), spec.bitLength, word);
  }

  /** Going through the signed type does not change a difference modulo the word. */
  lemma UnsignedShift(value: nat, offset: int, word: nat)
    requires word >= 1
    ensures Wrap(Convert(value, true, word) - offset, word) == Wrap(value - offset, word)
  {
    ConvertTurns(value, true, word);
    SameRemainder(value - offset, Convert(value, true, word) - offset, Pow2(word));
  }

  lemma UnsignedRaw(value: int, spec: FieldSpec, word: nat)
    requires 1 <= spec.bitLength <= word && !spec.isSigned && MaxWire(spec) >= 0 && Holds(value, false, word)
    requires spec.reservedCount > 0 ==> spec.maxRawValue == MaxWire(spec)
    ensures RawUnsigned(value, spec, word) ==
              if spec.reservedCount == 0 then Wrap(value - spec.offset, word)
              else Clamp(Wrap(value - spec.offset, word), 0, MaxWire(spec))
  {
    WrapOfFitting(value, word);
    UnsignedShift(value, spec.offset, word);
  }

  /** The bits of a written value are those of its wire value, which is in the field's range. */
  lemma ValueIsWritten(value: int, spec: FieldSpec, width: nat, word: nat)
    requires ProperSpec(spec, width, word) && Holds(value, spec.isSigned, width)
    ensures MinWire(spec) <= WrittenWire(value, spec, word) <= MaxWire(spec)
    ensures Encode(Some(value), spec, word) == Ok(Wrap(WrittenWire(value, spec, word), spec.bitLength))
  {
    HeldInWider(value, spec.isSigned, width, word);
    if spec.isSigned {
      SignedRaw(value, spec, word);
    } else {
      UnsignedRaw(value, spec, word);
      LowFits(WrittenWire(value, spec, word), spec.bitLength);
    }
  }

  /** In range, the wire value is the plain distance to the offset. */
  lemma NearIsExact(value: int, spec: FieldSpec, width: nat, word: nat)
    requires ProperSpec(spec, width, word) && MinWire(spec) <= value - spec.offset <= MaxWire(spec)
    ensures WrittenWire(value, spec, word) == value - spec.offset
  {
    WireFits(spec, width, word, value - spec.offset);
    if spec.isSigned {
      ConvertOfHeld(value - spec.offset, true, word);
    } else {
      WrapOfFitting(value - spec.offset, word);
      LowFits(value - spec.offset, spec.bitLength);
    }
  }

  lemma AddUnsignedMeans(value: nat, offset: int, word: nat)
    requires value < Pow2(word)
    ensures AddUnsigned(value, offset, word) == if 0 <= value + offset < Pow2(word) then Ok(value + offset) else Err
  {
  }

  lemma AddSignedMeans(value: int, offset: int, word: nat)
    requires word >= 1 && FitsSigned(value, word) && FitsSigned(offset, word)
    ensures AddSigned(value, offset, word) == if FitsSigned(value + offset, word) then Ok(value + offset) else Err
  {
  }

  lemma NullableMeans(v: nat, spec: FieldSpec, width: nat, word: nat)
    requires ProperSpec(spec, width, word) && v < Pow2(spec.bitLength) && spec.reservedCount > 0
    ensures Nullable(v, spec).None? <==> WireValue(v, spec) > MaxWire(spec)
  {
    if spec.isSigned { SignTest(v, spec.bitLength); }
  }

  lemma PatternFits(v: nat, spec: FieldSpec, word: nat)
    requires 1 <= spec.bitLength <= word && v < Pow2(spec.bitLength)
    ensures Holds(WireValue(v, spec), spec.isSigned, spec.bitLength) && Holds(WireValue(v, spec), spec.isSigned, word)
    ensures Wrap(WireValue(v, spec), spec.bitLength) == v
  {
    HeldInWider(WireValue(v, spec), spec.isSigned, spec.bitLength, word);
    if spec.isSigned {
      SignedOfFitting(ToSigned(v, spec.bitLength), spec.bitLength);
    } else {
      WrapOfFitting(v, spec.bitLength);
    }
  }

  /** What reading a pattern gives, whatever the spec: nil above the valid values, else the wire value plus the offset. */
  lemma DecodeMeans(v: nat, spec: FieldSpec, width: nat, word: nat)
    requires ProperSpec(spec, width, word) && v < Pow2(spec.bitLength)
    ensures var wire := WireValue(v, spec);
            Decode(v, spec, width, word) ==
              if spec.reservedCount > 0 && wire > MaxWire(spec) then Ok(None)
              else if !Holds(wire + spec.offset, spec.isSigned, word) then Err
              else Ok(Some(Convert(wire + spec.offset, spec.isSigned, width)))
  {
    PatternFits(v, spec, word);
    if spec.reservedCount > 0 { NullableMeans(v, spec, width, word); }
    if spec.isSigned {
      ExtensionIsTwosComplement(v, spec.bitLength, word);
      AddSignedMeans(WireValue(v, spec), spec.offset, word);
    } else {
      AddUnsignedMeans(v, spec.offset, word);
    }
  }

  /** What the bits of a valid wire value are read as. */
  lemma WireIsRead(wire: int, spec: FieldSpec, width: nat, word: nat)
    requires ProperSpec(spec, width, word) && MinWire(spec) <= wire <= MaxWire(spec)
    ensures Decode(Wrap(wire, spec.bitLength), spec, width, word) ==
              if Holds(wire + spec.offset, spec.isSigned, word)
              then Ok(Some(Convert(wire + spec.offset, spec.isSigned, width))) else Err
  {
    WireFits(spec, width, word, wire);
    DecodeMeans(Wrap(wire, spec.bitLength), spec, width, word);
  }

  /**
    Exactly when a value survives, for every spec: the wire value that is
    written, plus the offset, must be a machine integer, and must miss the value
    by whole turns of the field's type.
   */
  lemma ValueSurvivesExactly(value: int, spec: FieldSpec, width: nat, word: nat)
    requires ProperSpec(spec, width, word) && Holds(value, spec.isSigned, width)
    ensures Encode(Some(value), spec, word).Ok?
    ensures var read := WrittenWire(value, spec, word) + spec.offset;
            Decode(Encode(Some(value), spec, word).value, spec, width, word) == Ok(Some(value))
            <==> Holds(read, spec.isSigned, word) && (read - value) % Pow2(width) == 0
  {
    var wire := WrittenWire(value, spec, word);
    ValueIsWritten(value, spec, width, word);
    WireIsRead(wire, spec, width, word);
    ConvertHits(wire + spec.offset, value, spec.isSigned, width);
  }

  /** Every value whose distance to the offset is in the field's valid range survives, negative or not. */
  lemma ValueRoundTrips(value: int, spec: FieldSpec, width: nat, word: nat)
    requires ProperSpec(spec, width, word) && Holds(value, spec.isSigned, width)
    requires MinWire(spec) <= value - spec.offset <= MaxWire(spec)
    ensures Encode(Some(value), spec, word).Ok?
    ensures Decode(Encode(Some(value), spec, word).value, spec, width, word) == Ok(Some(value))
  {
    NearIsExact(value, spec, width, word);
    HeldInWider(value, spec.isSigned, width, word);
    ValueSurvivesExactly(value, spec, width, word);
  }

  /** The offset is a value of the field's own type, or not positive for an unsigned one; the catalog's all are. */
  predicate OwnOffset(spec: FieldSpec, width: nat)
    requires width >= 1
  {
    if spec.isSigned then FitsSigned(spec.offset, width) else spec.offset <= 0
  }

  lemma EndsFit(spec: FieldSpec, width: nat, word: nat)
    requires ProperSpec(spec, width, word) && spec.isSigned
    ensures 0 - Pow2(width - 1) <= MinWire(spec) < 0 <= MaxWire(spec) < Pow2(width - 1)
  {
    if spec.bitLength < width { PowersGrow(spec.bitLength - 1, width - 1); }
  }

  /** In a type narrower than the word, a signed value out of range is written as the nearer end. */
  lemma FarIsClamped(value: int, spec: FieldSpec, width: nat, word: nat)
    requires ProperSpec(spec, width, word) && spec.isSigned && width < word
    requires FitsSigned(value, width) && FitsSigned(spec.offset, width)
    ensures WrittenWire(value, spec, word) == Clamp(value - spec.offset, MinWire(spec), MaxWire(spec))
  {
    PowersGrow(width - 1, word - 1);
    ConvertOfHeld(value - spec.offset, true, word);
  }

  lemma FarIsNoTurn(value: int, spec: FieldSpec, width: nat, word: nat)
    requires ProperSpec(spec, width, word) && spec.isSigned && width < word
    requires FitsSigned(value, width) && FitsSigned(spec.offset, width)
    requires (WrittenWire(value, spec, word) + spec.offset - value) % Pow2(width) == 0
    ensures MinWire(spec) <= value - spec.offset <= MaxWire(spec)
  {
    var wire := WrittenWire(value, spec, word);
    FarIsClamped(value, spec, width, word);
    EndsFit(spec, width, word);
    CloseAndSame(wire, value - spec.offset, Pow2(width));
  }

  /** What is read, when it needs no cut to the type, is the value itself if it is a whole number of turns away. */
  lemma UncutIsExact(value: int, spec: FieldSpec, width: nat, word: nat)
    requires ProperSpec(spec, width, word) && Holds(value, spec.isSigned, width)
    requires Holds(WrittenWire(value, spec, word) + spec.offset, spec.isSigned, width)
    requires (WrittenWire(value, spec, word) + spec.offset - value) % Pow2(width) == 0
    ensures MinWire(spec) <= value - spec.offset <= MaxWire(spec)
  {
    ValueIsWritten(value, spec, width, word);
    HeldAndSame(WrittenWire(value, spec, word) + spec.offset, value, spec.isSigned, width);
  }

  /** With an offset of its own type, a value survives exactly when its distance to the offset is in the valid range. */
  lemma ValueSurvivesIff(value: int, spec: FieldSpec, width: nat, word: nat)
    requires ProperSpec(spec, width, word) && OwnOffset(spec, width) && Holds(value, spec.isSigned, width)
    ensures Encode(Some(value), spec, word).Ok?
    ensures Decode(Encode(Some(value), spec, word).value, spec, width, word) == Ok(Some(value))
            <==> MinWire(spec) <= value - spec.offset <= MaxWire(spec)
  {
    ValueSurvivesExactly(value, spec, width, word);
    if MinWire(spec) <= value - spec.offset <= MaxWire(spec) {
      ValueRoundTrips(value, spec, width, word);
    } else {
      FarValueIsLost(value, spec, width, word);
    }
  }

  /** What is read needs no cut in a type of the word's width, nor in an unsigned one. */
  lemma NoCut(wire: int, spec: FieldSpec, width: nat, word: nat)
    requires ProperSpec(spec, width, word) && OwnOffset(spec, width) && (!spec.isSigned || width == word)
    requires MinWire(spec) <= wire <= MaxWire(spec) && Holds(wire + spec.offset, spec.isSigned, word)
    ensures Holds(wire + spec.offset, spec.isSigned, width)
  {
    if spec.bitLength < width { PowersGrow(spec.bitLength, width); }
  }

  lemma FarValueIsLost(value: int, spec: FieldSpec, width: nat, word: nat)
    requires ProperSpec(spec, width, word) && OwnOffset(spec, width) && Holds(value, spec.isSigned, width)
    requires !(MinWire(spec) <= value - spec.offset <= MaxWire(spec))
    ensures var read := WrittenWire(value, spec, word) + spec.offset;
            !(Holds(read, spec.isSigned, word) && (read - value) % Pow2(width) == 0)
  {
    var wire := WrittenWire(value, spec, word);
    ValueIsWritten(value, spec, width, word);
    if Holds(wire + spec.offset, spec.isSigned, word) && (wire + spec.offset - value) % Pow2(width) == 0 {
      if spec.isSigned && width < word {
        FarIsNoTurn(value, spec, width, word);
      } else {
        NoCut(wire, spec, width, word);
        UncutIsExact(value, spec, width, word);
      }
      assert false;
    }
  }

  /** The bits of the two ends of a signed range. */
  lemma EndsWrap(spec: FieldSpec)
    requires spec.bitLength >= 2 && spec.isSigned && MaxWire(spec) >= 0
    ensures Wrap(MaxWire(spec), spec.bitLength) == Pow2(spec.bitLength - 1) - 1 - spec.reservedCount
    ensures Wrap(MinWire(spec), spec.bitLength) == Pow2(spec.bitLength - 1)
  {
    WrapOfFitting(MaxWire(spec), spec.bitLength);
    SignedOfFitting(MinWire(spec), spec.bitLength);
  }

  /** A signed value out of range is written as the nearer end of it. */
  lemma SignedIsClamped(value: int, spec: FieldSpec, width: nat, word: nat)
    requires ProperSpec(spec, width, word) && spec.isSigned
    requires Holds(value, true, width) && Holds(value - spec.offset, true, word)
    ensures value - spec.offset < 0 - Pow2(spec.bitLength - 1) ==>
              Encode(Some(value), spec, word) == Ok(Pow2(spec.bitLength - 1))
    ensures value - spec.offset > Pow2(spec.bitLength - 1) - 1 - spec.reservedCount ==>
              Encode(Some(value), spec, word) == Ok(Pow2(spec.bitLength - 1) - 1 - spec.reservedCount)
  {
    ValueIsWritten(value, spec, width, word);
    ConvertOfHeld(value - spec.offset, true, word);
    EndsWrap(spec);
  }

  /** A distance below zero wraps to a number beyond every field narrower than the word. */
  lemma DistanceWraps(distance: int, spec: FieldSpec, width: nat, word: nat)
    requires ProperSpec(spec, width, word) && !spec.isSigned && Holds(distance, true, word)
    requires (distance < 0 && spec.bitLength < word) || distance > MaxWire(spec)
    ensures Wrap(distance, word) > MaxWire(spec)
  {
    SignedOfFitting(distance, word);
    if spec.bitLength < word { PowersGrow(spec.bitLength, word); }
  }

  /**
    An unsigned value beyond the range, or below it in a field narrower than the
    word, is written as the maximum.
   */
  lemma UnsignedIsPinned(value: int, spec: FieldSpec, width: nat, word: nat)
    requires ProperSpec(spec, width, word) && !spec.isSigned && spec.reservedCount > 0
    requires Holds(value, false, width) && Holds(value - spec.offset, true, word)
    requires || value - spec.offset > Pow2(spec.bitLength) - 1 - spec.reservedCount
             || (value < spec.offset && spec.bitLength < word)
    ensures Encode(Some(value), spec, word) == Ok(Pow2(spec.bitLength) - 1 - spec.reservedCount)
  {
    ValueIsWritten(value, spec, width, word);
    DistanceWraps(value - spec.offset, spec, width, word);
    WrapOfFitting(MaxWire(spec), spec.bitLength);
  }

  /** Without reserved values nothing is clamped: the low bits of the distance are written. */
  lemma UnreservedIsCut(value: int, spec: FieldSpec, width: nat, word: nat)
    requires ProperSpec(spec, width, word) && !spec.isSigned && spec.reservedCount == 0 && Holds(value, false, width)
    ensures Encode(Some(value), spec, word) == Ok((value - spec.offset) % Pow2(spec.bitLength))
  {
    ValueIsWritten(value, spec, width, word);
    LowFits(WrittenWire(value, spec, word), spec.bitLength);
    LowOfWrapped(value - spec.offset, spec.bitLength, word);
  }

  lemma LowOfWrapped(x: int, n: nat, word: nat)
    requires n <= word
    ensures Low(Wrap(x, word), n) == x % Pow2(n)
  {
    SameRemainder(x, Wrap(x, word), Pow2(word));
    LowFits(Wrap(x, word), word);
    WideTurnsAreTurns(x - Wrap(x, word), n, word);
    SameRemainder(x, Wrap(x, word), Pow2(n));
  }

  /** Nil is written as the missing value and read as nil; without reserved values it is refused. */
  lemma NilRoundTrips(spec: FieldSpec, width: nat, word: nat)
    requires ProperSpec(spec, width, word)
    ensures spec.reservedCount == 0 ==> Encode(None, spec, word) == Err
    ensures spec.reservedCount > 0 ==>
              Encode(None, spec, word) == Ok(Top(spec.bitLength, spec.isSigned))
              && Decode(Top(spec.bitLength, spec.isSigned), spec, width, word) == Ok(None)
  {
    if spec.reservedCount > 0 {
      LowFits(Top(spec.bitLength, spec.isSigned), spec.bitLength);
      DecodeMeans(Top(spec.bitLength, spec.isSigned), spec, width, word);
    }
  }
}
