/** Binary fields: whole bytes, of which the last one may be used in part. */
module BinaryData {
  import opened Bits
  import opened BitStream
  import FastPacket

  function Min(a: int, b: int): int {
    if a < b then a else b
  }

  /** math.Ceil(bits / 8) */
  function ByteCount(bits: nat): (n: nat)
    ensures 8 * n - 8 < bits <= 8 * n
  {
    (bits + 7) / 8
  }

  /** uint8(0xFF >> (8 - n)) */
  lemma LowMask(n: nat)
    requires n <= 8
    ensures Shr(0xFF, 8 - n) == Pow2(n) - 1
  {
    PowersOfTwo();
    var shifted, ones := Shr(Pow2(8) - 1, 8 - n), Pow2(n) - 1;
    forall i: nat ensures BitAt(shifted, i) <==> BitAt(ones, i) {
      BitOfShr(Pow2(8) - 1, 8 - n, i);
      BitOfOnes(8, i + (8 - n));
      BitOfOnes(n, i);
    }
    SameBitsSameNumber(shifted, ones);
  }

  lemma FitsByte(v: nat)
    requires forall i :: i >= 8 ==> !BitAt(v, i)
    ensures v < 256
  {
    forall i: nat ensures BitAt(Low(v, 8), i) <==> BitAt(v, i) {
      BitOfLow(v, 8, i);
    }
    SameBitsSameNumber(Low(v, 8), v);
    PowersOfTwo();
  }

  /** Bytes whose last one keeps only its odd low bits, if odd is not zero. */
  function Masked(bytes: seq<Byte>, odd: nat): (masked: seq<Byte>)
    requires odd < 8
    ensures |masked| == |bytes|
  {
    if odd == 0 || bytes == [] then bytes
    else
      MaskedByteFits(bytes[|bytes| - 1], odd);
      bytes[|bytes| - 1 := And(bytes[|bytes| - 1], Shr(0xFF, 8 - odd))]
  }

  lemma MaskedByteFits(b: Byte, odd: nat)
    requires odd <= 8
    ensures And(b, Shr(0xFF, 8 - odd)) == Low(b, odd) < 256
  {
    LowMask(odd);
    MaskIsLow(b, odd);
    forall i | i >= 8 ensures !BitAt(Low(b, odd), i) {
      BitOfLow(b, odd, i);
    }
    FitsByte(Low(b, odd));
  }

  lemma MaskTwice(b: Byte, odd: nat)
    requires odd <= 8
    ensures Low(Low(b, odd), odd) == Low(b, odd)
  {
    LowFits(Low(b, odd), odd);
  }

  /** Masking again changes nothing: what writeBinary leaves in the buffer reads back as it is. */
  lemma MaskedIsStable(bytes: seq<Byte>, odd: nat)
    requires odd < 8
    ensures Masked(Masked(bytes, odd), odd) == Masked(bytes, odd)
  {
    if odd != 0 && bytes != [] {
      MaskedByteFits(bytes[|bytes| - 1], odd);
      MaskedByteFits(Masked(bytes, odd)[|bytes| - 1], odd);
      MaskTwice(bytes[|bytes| - 1], odd);
    }
  }

  lemma MaskedInPlace(prefix: seq<Byte>, bytes: seq<Byte>, suffix: seq<Byte>, odd: nat)
    requires 0 < odd < 8 && bytes != []
    ensures (prefix + bytes + suffix)[|prefix| + |bytes| - 1 := Masked([bytes[|bytes| - 1]], odd)[0]]
            == prefix + Masked(bytes, odd) + suffix
  {
  }

  /** The bytes writeBinary wants to write, before the limit of the message length. */
  function WantedBytes(length: nat, bitLength: nat): nat {
    if bitLength == 0 then length % 0x1_0000 else ByteCount(bitLength)
  }

  /** MaxPGNLength, the largest fast packet, less bitOffset/8, in a uint16 */
  function ByteLimit(offset: nat): (limit: nat)
    ensures offset < 8 * FastPacket.MAX_PAYLOAD ==> limit == FastPacket.MAX_PAYLOAD - offset / 8
  {
    (FastPacket.MAX_PAYLOAD - offset / 8) % 0x1_0000
  }

  /** The first n bytes of a value, padded with zeros. */
  function FirstBytes(value: seq<Byte>, n: nat): (bytes: seq<Byte>)
    ensures |bytes| == n
    ensures forall i :: 0 <= i < n ==> bytes[i] == if i < |value| then value[i] else 0
  {
    if n == 0 then [] else FirstBytes(value, n - 1) + [if n <= |value| then value[n - 1] else 0]
  }

  /** Masking clears the bits from the odd ones of the last byte on, and no other. */
  lemma MaskedBits(bytes: seq<Byte>, odd: nat, k: nat)
    requires odd < 8 && k < 8 * |bytes|
    ensures StreamBit(Masked(bytes, odd), k) <==> StreamBit(bytes, k) && (odd == 0 || k < 8 * |bytes| - (8 - odd))
  {
    var last := |bytes| - 1;
    if odd != 0 && k / 8 == last {
      MaskedByteFits(bytes[last], odd);
      BitOfLow(bytes[last], odd, k % 8);
    }
  }

  /** How many bits n bytes hold of which the last one has this many, if not all. */
  function BitsIn(n: nat, odd: nat): (bits: nat)
    requires odd < 8 && (odd > 0 ==> n > 0)
    ensures odd == 0 ==> bits == 8 * n
    ensures odd > 0 ==> bits == 8 * n - (8 - odd)
  {
    if odd == 0 then 8 * n else 8 * n - (8 - odd)
  }

  /** The bytes hold these bits of the stream, zeros past them, in as few bytes as they need. */
  ghost predicate Holding(bytes: seq<Byte>, data: seq<Byte>, pos: nat, bits: nat) {
    && 8 * |bytes| - 8 < bits <= 8 * |bytes| && pos + bits <= 8 * |data|
    && forall k :: 0 <= k < 8 * |bytes| ==> (StreamBit(bytes, k) <==> k < bits && StreamBit(data, pos + k))
  }

  lemma CountedBits(bits: nat, room: int)
    ensures bits % 8 > 0 ==> ByteCount(bits) > 0
    ensures BitsIn(ByteCount(bits), bits % 8) == bits
    ensures ByteCount(bits) <= room <==> bits <= 8 * room
  {
  }

  lemma BitInSlice(data: seq<Byte>, at: nat, n: nat, k: nat)
    requires at + n <= |data| && k < 8 * n
    ensures StreamBit(data[at..at + n], k) <==> StreamBit(data, 8 * at + k)
  {
    assert data[at..at + n][k / 8] == data[at + k / 8];
  }

  /** A binary read, bit by bit. */
  lemma ReadBits(data: seq<Byte>, at: nat, n: nat, odd: nat, bytes: seq<Byte>)
    requires odd < 8 && (odd > 0 ==> n > 0) && at + n <= |data| && bytes == Masked(data[at..at + n], odd)
    ensures Holding(bytes, data, 8 * at, BitsIn(n, odd))
  {
    forall k | 0 <= k < 8 * |bytes| ensures StreamBit(bytes, k) <==> k < BitsIn(n, odd) && StreamBit(data, 8 * at + k) {
      MaskedBits(data[at..at + n], odd, k);
      BitInSlice(data, at, n, k);
    }
  }

  lemma FirstBytesBits(value: seq<Byte>, n: nat, k: nat)
    requires k < 8 * n
    ensures StreamBit(FirstBytes(value, n), k) <==> k < 8 * |value| && StreamBit(value, k)
  {
    if k >= 8 * |value| { ZeroHasNoBits(k % 8); }
  }

  /**
    From pos on, so many bytes have been overwritten: up to end with the bits of
    the value, zeros past it, and zeros from there on; nothing else has changed.
   */
  ghost predicate Overwritten(before: seq<Byte>, after: seq<Byte>, pos: nat, n: nat, end: nat, value: seq<Byte>) {
    && |after| == |before|
    && forall q :: 0 <= q < 8 * |before| ==>
         (StreamBit(after, q) <==>
            if pos <= q < pos + 8 * n then q < end && q - pos < 8 * |value| && StreamBit(value, q - pos)
            else StreamBit(before, q))
  }

  lemma WrittenBit(value: seq<Byte>, n: nat, odd: nat, k: nat)
    requires odd < 8 && (odd > 0 ==> n > 0) && k < 8 * n
    ensures StreamBit(Masked(FirstBytes(value, n), odd), k) <==>
              k < BitsIn(n, odd) && k < 8 * |value| && StreamBit(value, k)
  {
    MaskedBits(FirstBytes(value, n), odd, k);
    FirstBytesBits(value, n, k);
  }

  lemma BitBefore(prefix: seq<Byte>, rest: seq<Byte>, q: nat)
    requires q < 8 * |prefix|
    ensures StreamBit(prefix + rest, q) <==> StreamBit(prefix, q)
  {
  }

  lemma BitBehind(prefix: seq<Byte>, rest: seq<Byte>, k: nat)
    requires k < 8 * |rest|
    ensures StreamBit(prefix + rest, 8 * |prefix| + k) <==> StreamBit(rest, k)
  {
  }

  lemma BitBetween(prefix: seq<Byte>, middle: seq<Byte>, suffix: seq<Byte>, k: nat)
    requires k < 8 * |middle|
    ensures StreamBit(prefix + middle + suffix, 8 * |prefix| + k) <==> StreamBit(middle, k)
  {
    BitBefore(prefix + middle, suffix, 8 * |prefix| + k);
    BitBehind(prefix, middle, k);
  }

  /** Replacing the middle leaves the bits before it and behind it. */
  lemma BitAround(prefix: seq<Byte>, middle: seq<Byte>, other: seq<Byte>, suffix: seq<Byte>, q: nat)
    requires |middle| == |other| && q < 8 * |prefix + middle + suffix|
    requires q < 8 * |prefix| || q >= 8 * (|prefix| + |middle|)
    ensures StreamBit(prefix + middle + suffix, q) <==> StreamBit(prefix + other + suffix, q)
  {
    if q < 8 * |prefix| {
      BitBefore(prefix, middle, q);
      BitBefore(prefix, other, q);
      BitBefore(prefix + middle, suffix, q);
      BitBefore(prefix + other, suffix, q);
    } else {
      var k := q - 8 * |prefix + middle|;
      BitBehind(prefix + middle, suffix, k);
      BitBehind(prefix + other, suffix, k);
    }
  }

  lemma BitWithin(before: seq<Byte>, at: nat, value: seq<Byte>, n: nat, odd: nat, k: nat)
    requires odd < 8 && (odd > 0 ==> n > 0) && at + n <= |before| && k < 8 * n
    ensures StreamBit(before[..at] + Masked(FirstBytes(value, n), odd) + before[at + n..], 8 * at + k) <==>
              k < BitsIn(n, odd) && k < 8 * |value| && StreamBit(value, k)
  {
    BitBetween(before[..at], Masked(FirstBytes(value, n), odd), before[at + n..], k);
    WrittenBit(value, n, odd, k);
  }

  lemma BitWithout(before: seq<Byte>, at: nat, middle: seq<Byte>, q: nat)
    requires at + |middle| <= |before| && q < 8 * |before| && !(8 * at <= q < 8 * (at + |middle|))
    ensures StreamBit(before[..at] + middle + before[at + |middle|..], q) <==> StreamBit(before, q)
  {
    var n := |middle|;
    assert before == before[..at] + before[at..at + n] + before[at + n..];
    BitAround(before[..at], middle, before[at..at + n], before[at + n..], q);
  }

  /** A binary write, bit by bit. */
  lemma WriteOverwrites(before: seq<Byte>, at: nat, value: seq<Byte>, n: nat, odd: nat, after: seq<Byte>)
    requires odd < 8 && (odd > 0 ==> n > 0) && at + n <= |before|
    requires after == before[..at] + Masked(FirstBytes(value, n), odd) + before[at + n..]
    ensures Overwritten(before, after, 8 * at, n, 8 * at + BitsIn(n, odd), value)
  {
    forall q | 0 <= q < 8 * |before|
      ensures StreamBit(after, q) <==>
                if 8 * at <= q < 8 * at + 8 * n
                then q < 8 * at + BitsIn(n, odd) && q - 8 * at < 8 * |value| && StreamBit(value, q - 8 * at)
                else StreamBit(before, q)
    {
      if 8 * at <= q < 8 * at + 8 * n {
        BitWithin(before, at, value, n, odd, q - 8 * at);
      } else {
        BitWithout(before, at, Masked(FirstBytes(value, n), odd), q);
      }
    }
  }
}
