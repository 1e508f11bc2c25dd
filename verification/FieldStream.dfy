/** WriteRaw and ReadRaw: integer fields written to and read from a stream. */
module FieldStream {
  import opened BinaryData
  import opened Bits
  import opened BitStream
  import opened DataStream
  import opened FieldCodec
  import opened FieldRoundTrips
  import opened FieldSpecs
  import opened Wrappers

  /** The widths of the Go integer types. */
  predicate GoWidth(width: nat) {
    width == 8 || width == 16 || width == 32 || width == 64
  }

  /** Writes one field at the cursor; nil without reserved values is refused, as is a field that does not fit. */
  method WriteRaw(s: DataStream, value: Option<int>, spec: FieldSpec) returns (ok: bool)
    requires s.Valid() && 1 <= spec.bitLength <= 64
    modifies s, s.data
    ensures s.Valid()
    ensures ok <==> RawOf(value, spec, 64).Ok? && spec.bitLength <= old(s.Room())
    ensures RawOf(value, spec, 64) == Err ==> s.data[..] == old(s.data[..]) && s.Cursor() == old(s.Cursor())
    ensures RawOf(value, spec, 64).Ok? ==>
              var n := Min(spec.bitLength, old(s.Room()));
              && s.Cursor() == old(s.Cursor()) + n
              && (if n == 0 then s.data[..] == old(s.data[..])
                  else s.data[..] == PutBits(old(s.data[..]), old(s.Cursor()), RawOf(value, spec, 64).value, n))
  {
    var outVal: nat;
    if value.None? {
      if spec.reservedCount == 0 {
        return false;
      }
      outVal := spec.missingValue;
    } else if spec.isSigned {
      outVal := SignedToRaw(value.value, spec);
    } else {
      outVal := Wrap(value.value, 64);
      if spec.offset != 0 {
        outVal := Wrap(Convert(outVal, true, 64) - spec.offset, 64);
      }
      if spec.reservedCount > 0 && outVal > spec.maxRawValue {
        outVal := spec.maxRawValue;
      }
    }
    ok := s.PutNumberRaw(outVal, spec.bitLength, 0);
  }

  method SignedToRaw(value: int, spec: FieldSpec) returns (rawValue: nat)
    requires 1 <= spec.bitLength <= 64 && spec.isSigned
    ensures rawValue == RawSigned(value, spec, 64)
  {
    var signedVal := Convert(value, true, 64);
    if spec.offset != 0 {
      signedVal := Convert(signedVal - spec.offset, true, 64);
    }
    var maxPositive := Pow2(spec.bitLength - 1) - 1;
    var minNegative := 0 - Pow2(spec.bitLength - 1);
    if spec.reservedCount > 0 {
      maxPositive := maxPositive - spec.reservedCount;
    }
    if signedVal > maxPositive {
      signedVal := maxPositive;
    }
    if signedVal < minNegative {
      signedVal := minNegative;
    }
    rawValue := And(Wrap(signedVal, 64), Pow2(spec.bitLength) - 1);
  }

  /** Reads one field at the cursor; a field that does not fit moves nothing. */
  method ReadRaw(s: DataStream, spec: FieldSpec, width: nat) returns (result: Result<Option<int>>)
    requires s.Valid() && 1 <= spec.bitLength && spec.bitLength <= width && GoWidth(width)
    modifies s
    ensures s.Valid()
    ensures spec.bitLength > 8 * s.data.Length - old(s.Cursor()) ==> result == Err && s.Cursor() == old(s.Cursor())
    ensures spec.bitLength <= 8 * s.data.Length - old(s.Cursor()) ==>
              result == Decode(GetBits(s.data[..], old(s.Cursor()), spec.bitLength), spec, width, 64)
              && s.Cursor() == old(s.Cursor()) + spec.bitLength
  {
    var read := s.GetNumberRaw(spec.bitLength);
    if read == Err {
      return Err;
    }
    BitsFitAWord(read.value, GetBits(s.data[..], old(s.Cursor()), spec.bitLength), spec.bitLength);
    if spec.reservedCount > 0 {
      var v := Nullable(read.value, spec);
      if v == None {
        return Ok(None);
      }
    }
    if spec.isSigned {
      var signedVal := SignExtend(read.value, spec.bitLength, 64);
      if spec.offset != 0 {
        var sum := AddSigned(signedVal, spec.offset, 64);
        if sum == Err {
          return Err;
        }
        signedVal := sum.value;
      }
      return Ok(Some(Convert(signedVal, true, width)));
    }
    var rawValue := read.value;
    if spec.offset != 0 {
      var sum := AddUnsigned(rawValue, spec.offset, 64);
      if sum == Err {
        return Err;
      }
      return Ok(Some(Convert(sum.value, false, width)));
    }
    return Ok(Some(Convert(rawValue, false, width)));
  }

  lemma BitsFitAWord(read: nat, bits: nat, n: nat)
    requires n <= 64 && bits < Pow2(n) && read == Low(bits, 64)
    ensures read == bits
  {
    if n < 64 { PowersGrow(n, 64); }
    LowFits(bits, 64);
  }

  /** A field written into a blank stretch of a stream reads back as what its bits mean. */
  lemma FieldArrives(data: seq<Byte>, pos: nat, value: Option<int>, spec: FieldSpec)
    requires 1 <= spec.bitLength <= 64 && Blank(data, pos, spec.bitLength) && RawOf(value, spec, 64).Ok?
    ensures Ok(GetBits(PutBits(data, pos, RawOf(value, spec, 64).value, spec.bitLength), pos, spec.bitLength))
            == Encode(value, spec, 64)
  {
    PutThenGet(data, pos, RawOf(value, spec, 64).value, spec.bitLength);
  }

  /**
    End to end, for specs of the generator: a value of the field's type in the
    field's valid range, or nil if the field has reserved values, written with
    WriteRaw into a blank stretch is what ReadRaw returns from there.
   */
  lemma FieldRoundTrip(data: seq<Byte>, pos: nat, value: Option<int>, field: PgnField, width: nat)
    requires ProperField(field) && GoWidth(width) && field.bitLength <= width
    requires Blank(data, pos, field.bitLength)
    requires var spec := GeneratedSpec(field);
             if value.None? then field.reservedType
             else Holds(value.value, field.signed, width) && MinWire(spec) <= value.value - field.offset <= MaxWire(spec)
    ensures var spec := GeneratedSpec(field);
            && RawOf(value, spec, 64).Ok?
            && var after := PutBits(data, pos, RawOf(value, spec, 64).value, field.bitLength);
               Decode(GetBits(after, pos, field.bitLength), spec, width, 64) == Ok(value)
  {
    var spec := GeneratedSpec(field);
    GeneratedIsProper(field, width);
    FieldArrives(data, pos, value, spec);
    match value
    case None => NilRoundTrips(spec, width, 64);
    case Some(v) => ValueRoundTrips(v, spec, width, 64);
  }
}
