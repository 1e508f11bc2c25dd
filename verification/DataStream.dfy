/** The cursor-based reader and writer of message payloads. */
module DataStream {
  import opened BinaryData
  import opened Bits
  import opened BitStream
  import opened Wrappers

  /** The byte putNumberRaw ors in: the n low bits of the value, moved up to the cursor's bit. */
  function OutByte(value: nat, startBit: nat, n: nat): nat {
    Low(Shl(And(Low(value, 8), Shr(0xFF, 8 - Min(n, 8))), startBit), 8)
  }

  lemma OutByteBit(value: nat, startBit: nat, n: nat, i: nat)
    requires n <= 8 - startBit
    ensures BitAt(OutByte(value, startBit, n), i) <==> startBit <= i < startBit + n && BitAt(value, i - startBit)
  {
    LowMask(n);
    var masked := And(Low(value, 8), Pow2(n) - 1);
    BitOfLow(Shl(masked, startBit), 8, i);
    BitOfShl(masked, startBit, i);
    if i >= startBit {
      BitOfAnd(Low(value, 8), Pow2(n) - 1, i - startBit);
      BitOfLow(value, 8, i - startBit);
      BitOfOnes(n, i - startBit);
    }
  }

  lemma OredByteFits(b: Byte, value: nat, startBit: nat, n: nat)
    requires n <= 8 - startBit
    ensures Or(b, OutByte(value, startBit, n)) < 256
  {
    PowersOfTwo();
    OrStaysInWord(b, OutByte(value, startBit, n), 8);
  }

  /** Oring the byte in writes the n low bits of the value at the cursor. */
  lemma ChunkIsWritten(data: seq<Byte>, byteOffset: nat, startBit: nat, value: nat, n: nat)
    requires byteOffset < |data| && n <= 8 - startBit
    ensures Or(data[byteOffset], OutByte(value, startBit, n)) < 256
    ensures Written(data, data[byteOffset := Or(data[byteOffset], OutByte(value, startBit, n))],
                    8 * byteOffset + startBit, value, n)
  {
    OredByteFits(data[byteOffset], value, startBit, n);
    var after := data[byteOffset := Or(data[byteOffset], OutByte(value, startBit, n))];
    var pos := 8 * byteOffset + startBit;
    forall p | 0 <= p < 8 * |data|
      ensures StreamBit(after, p) <==> StreamBit(data, p) || (pos <= p < pos + n && BitAt(value, p - pos))
    {
      if p / 8 == byteOffset {
        BitOfOr(data[byteOffset], OutByte(value, startBit, n), p % 8);
        OutByteBit(value, startBit, n, p % 8);
      }
    }
  }

  lemma ShiftTwice(v: nat, a: nat, b: nat)
    ensures Shr(Shr(v, a), b) == Shr(v, a + b)
  {
    forall i: nat ensures BitAt(Shr(Shr(v, a), b), i) <==> BitAt(Shr(v, a + b), i) {
      BitOfShr(Shr(v, a), b, i);
      BitOfShr(v, a, i + b);
      BitOfShr(v, a + b, i);
    }
    SameBitsSameNumber(Shr(Shr(v, a), b), Shr(v, a + b));
  }

  /** The bits getNumberRaw takes out of one byte. */
  function InByte(b: Byte, startBit: nat, n: nat): nat {
    if n < 8 then And(Shr(b, startBit), Shr(0xFF, 8 - Min(n, 8))) else Shr(b, startBit)
  }

  lemma InByteBit(b: Byte, startBit: nat, n: nat, i: nat)
    requires n <= 8 - startBit
    ensures BitAt(InByte(b, startBit, n), i) <==> i < n && BitAt(b, startBit + i)
  {
    BitOfShr(b, startBit, i);
    if n < 8 {
      LowMask(n);
      BitOfAnd(Shr(b, startBit), Pow2(n) - 1, i);
      BitOfOnes(n, i);
    } else if i >= 8 {
      PowersOfTwo();
      NoBitsAbove(b, 8, startBit + i);
    }
  }

  /** What getNumberRaw has collected after the first done bits from pos on; a uint64 holds 64 of them. */
  ghost predicate Collected(data: seq<Byte>, pos: nat, done: nat, ret: nat) {
    && pos + done <= 8 * |data|
    && forall k: nat :: BitAt(ret, k) <==> k < done && k < 64 && StreamBit(data, pos + k)
  }

  lemma BitInByte(data: seq<Byte>, byteOffset: nat, k: nat)
    requires byteOffset < |data| && k < 8
    ensures StreamBit(data, 8 * byteOffset + k) <==> BitAt(data[byteOffset], k)
  {
  }

  lemma CollectChunk(data: seq<Byte>, pos: nat, done: nat, ret: nat, byteOffset: nat, bitOffset: nat, n: nat)
    requires Collected(data, pos, done, ret) && byteOffset < |data|
    requires pos + done == 8 * byteOffset + bitOffset && n <= 8 - bitOffset
    ensures Collected(data, pos, done + n, Or(ret, Low(Shl(InByte(data[byteOffset], bitOffset, n), done), 64)))
  {
    var b := InByte(data[byteOffset], bitOffset, n);
    forall k: nat
      ensures BitAt(Or(ret, Low(Shl(b, done), 64)), k) <==> k < done + n && k < 64 && StreamBit(data, pos + k)
    {
      BitOfOr(ret, Low(Shl(b, done), 64), k);
      BitOfLow(Shl(b, done), 64, k);
      BitOfShl(b, done, k);
      if k >= done {
        InByteBit(data[byteOffset], bitOffset, n, k - done);
        if k < done + n { BitInByte(data, byteOffset, bitOffset + (k - done)); }
      }
    }
  }

  lemma CollectedIsGet(data: seq<Byte>, pos: nat, n: nat, ret: nat)
    requires Collected(data, pos, n, ret)
    ensures ret == Low(GetBits(data, pos, n), 64)
  {
    forall k: nat ensures BitAt(ret, k) <==> BitAt(Low(GetBits(data, pos, n), 64), k) {
      BitOfLow(GetBits(data, pos, n), 64, k);
      GetBitsReads(data, pos, n, k);
    }
    SameBitsSameNumber(ret, Low(GetBits(data, pos, n), 64));
  }

  class DataStream {
    const data: array<Byte>
    var byteOffset: nat
    var bitOffset: nat

    /** The cursor is a uint16 byte and a bit in it. */
    predicate Valid()
      reads this
    {
      bitOffset < 8 && data.Length < 0x1_0000 && byteOffset < 0x1_0000
    }

    /** getBitOffset */
    function Cursor(): nat
      reads this
    {
      byteOffset * 8 + bitOffset
    }

    /** Bits between the cursor and the end of the buffer. */
    function Room(): nat
      reads this
    {
      if Cursor() <= 8 * data.Length then 8 * data.Length - Cursor() else 0
    }

    constructor (bytes: array<Byte>)
      requires bytes.Length < 0x1_0000
      ensures Valid() && data == bytes && Cursor() == 0
    {
      data, byteOffset, bitOffset := bytes, 0, 0;
    }

    method SetPosition(position: nat)
      requires position < 0x1_0000 && data.Length < 0x1_0000
      modifies this
      ensures Valid() && Cursor() == position
    {
      byteOffset := position / 8;
      bitOffset := position % 8;
    }

    /** GetData: the bytes before the cursor's byte. */
    method GetData() returns (bytes: seq<Byte>)
      requires byteOffset <= data.Length
      ensures bytes == data[..byteOffset]
    {
      bytes := data[..byteOffset];
    }

    method Advance(n: nat)
      requires Valid() && n <= 8 - bitOffset && Cursor() + n <= 8 * data.Length
      modifies this
      ensures Valid() && Cursor() == old(Cursor()) + n
    {
      bitOffset := bitOffset + n;
      if bitOffset >= 8 {
        bitOffset := bitOffset - 8;
        byteOffset := byteOffset + 1;
      }
    }

    /** One turn of putNumberRaw's loop: the bits that go into the byte under the cursor. */
    method PutChunk(value: nat, n: nat)
      requires Valid() && byteOffset < data.Length && n <= 8 - bitOffset
      modifies this, data
      ensures Valid() && Cursor() == old(Cursor()) + n
      ensures Written(old(data[..]), data[..], old(Cursor()), value, n)
    {
      ChunkIsWritten(data[..], byteOffset, bitOffset, value, n);
      ghost var before := data[..];
      data[byteOffset] := Or(data[byteOffset], OutByte(value, bitOffset, n));
      assert data[..] == before[byteOffset := data[byteOffset]];
      Advance(n);
    }

    /**
      Ors the bits of a value in at the cursor. A stated offset that is not the
      cursor's is refused outright; running off the end is noticed only after
      the bits that fit have been written.
     */
    method PutNumberRaw(value: nat, bitLength: nat, offset: nat) returns (ok: bool)
      requires Valid()
      modifies this, data
      ensures Valid()
      ensures ok <==> (offset == 0 || offset == old(Cursor())) && bitLength <= old(Room())
      ensures var n := if offset == 0 || offset == old(Cursor()) then Min(bitLength, old(Room())) else 0;
              && Cursor() == old(Cursor()) + n
              && (n > 0 ==> data[..] == PutBits(old(data[..]), old(Cursor()), value, n))
              && (n == 0 ==> data[..] == old(data[..]))
    {
      if Cursor() != offset && offset != 0 {
        return false;
      }
      ghost var start, before := Cursor(), data[..];
      var left, rest := bitLength, value;
      while left > 0
        invariant Valid() && 0 <= left <= bitLength
        invariant Cursor() == start + (bitLength - left)
        invariant left < bitLength ==> Cursor() <= 8 * data.Length
        invariant rest == Shr(value, bitLength - left)
        invariant Written(before, data[..], start, value, bitLength - left)
        invariant left == bitLength ==> data[..] == before
        decreases left
      {
        if byteOffset >= data.Length {
          if left < bitLength { WrittenIsPut(before, data[..], start, value, bitLength - left); }
          return false;
        }
        var bitsToWrite := Min(8 - bitOffset, left);
        ghost var sofar, done := data[..], bitLength - left;
        PutChunk(rest, bitsToWrite);
        WrittenTogether(before, sofar, data[..], start, value, done, bitsToWrite);
        ShiftTwice(value, done, bitsToWrite);
        rest := Shr(rest, bitsToWrite);
        left := left - bitsToWrite;
      }
      if bitLength > 0 { WrittenIsPut(before, data[..], start, value, bitLength); }
      return true;
    }

    /** Reads a number at the cursor; a read that does not fit fails and moves nothing. */
    method GetNumberRaw(bitLength: nat) returns (result: Result<nat>)
      requires Valid()
      modifies this
      ensures Valid()
      ensures bitLength > 8 * data.Length - old(Cursor()) ==> result == Err && Cursor() == old(Cursor())
      ensures bitLength <= 8 * data.Length - old(Cursor()) ==>
                result == Ok(Low(GetBits(data[..], old(Cursor()), bitLength), 64))
                && Cursor() == old(Cursor()) + bitLength
    {
      if bitLength > 8 * data.Length - Cursor() {
        return Err;
      }
      ghost var start := Cursor();
      var ret, outBitOffset, left := 0, 0, bitLength;
      NothingCollected(data[..], start);
      while left > 0
        invariant Valid() && 0 <= left <= bitLength && outBitOffset == bitLength - left
        invariant Cursor() == start + outBitOffset
        invariant Collected(data[..], start, outBitOffset, ret)
        decreases left
      {
        var bitsToGrab := Min(8 - bitOffset, left);
        CollectChunk(data[..], start, outBitOffset, ret, byteOffset, bitOffset, bitsToGrab);
        var b := InByte(data[byteOffset], bitOffset, bitsToGrab);
        ret := Or(ret, Low(Shl(b, outBitOffset), 64));
        outBitOffset := outBitOffset + bitsToGrab;
        left := left - bitsToGrab;
        Advance(bitsToGrab);
      }
      CollectedIsGet(data[..], start, bitLength, ret);
      return Ok(ret);
    }

    method StoreBytes(bytes: seq<Byte>)
      requires Valid() && bitOffset == 0 && byteOffset + |bytes| <= data.Length
      modifies this, data
      ensures Valid() && bitOffset == 0 && byteOffset == old(byteOffset) + |bytes|
      ensures data[..] == old(data[..byteOffset]) + bytes + old(data[byteOffset + |bytes|..])
    {
      ghost var start := byteOffset;
      for index := 0 to |bytes|
        invariant Valid() && bitOffset == 0 && byteOffset == start + index
        invariant forall i :: 0 <= i < data.Length ==>
                    data[i] == if start <= i < start + index then bytes[i - start] else old(data[i])
      {
        data[byteOffset] := bytes[index];
        byteOffset := byteOffset + 1;
      }
    }

    /** Steps back into the last byte and clears all but its odd low bits. */
    method DropHighBits(odd: nat)
      requires Valid() && bitOffset == 0 && 0 < byteOffset <= data.Length && 0 < odd < 8
      modifies this, data
      ensures Valid() && Cursor() == old(Cursor()) - (8 - odd)
      ensures data[..] == old(data[..])[old(byteOffset) - 1 := Masked([old(data[byteOffset - 1])], odd)[0]]
    {
      byteOffset := byteOffset - 1;
      bitOffset := odd;
      MaskedByteFits(data[byteOffset], odd);
      data[byteOffset] := And(data[byteOffset], Shr(0xFF, 8 - odd));
    }

    /** Bytes at an aligned cursor; of the last one only the odd low bits. */
    method StoreMasked(bytes: seq<Byte>, odd: nat)
      requires Valid() && bitOffset == 0 && byteOffset + |bytes| <= data.Length && odd < 8 && (odd > 0 ==> bytes != [])
      modifies this, data
      ensures Valid() && Cursor() == old(Cursor()) + 8 * |bytes| - (if odd == 0 then 0 else 8 - odd)
      ensures data[..] == old(data[..byteOffset]) + Masked(bytes, odd) + old(data[byteOffset + |bytes|..])
    {
      ghost var prefix, suffix := data[..byteOffset], data[byteOffset + |bytes|..];
      StoreBytes(bytes);
      if odd != 0 {
        DropHighBits(odd);
        MaskedInPlace(prefix, bytes, suffix, odd);
      }
    }

    /** The first n bytes of a value, bit by bit. */
    method StoreValue(value: seq<Byte>, n: nat, odd: nat)
      requires Valid() && bitOffset == 0 && byteOffset + n <= data.Length && odd < 8 && (odd > 0 ==> n > 0)
      modifies this, data
      ensures Valid() && Cursor() == old(Cursor()) + BitsIn(n, odd)
      ensures Overwritten(old(data[..]), data[..], old(Cursor()), n, Cursor(), value)
    {
      ghost var before, at := data[..], byteOffset;
      StoreMasked(FirstBytes(value, n), odd);
      WriteOverwrites(before, at, value, n, odd, data[..]);
    }

    /** Overwrites bytes at the cursor; the buffer must hold them, as the original indexes it unchecked. */
    method WriteBinary(value: seq<Byte>, bitLength: nat, offset: nat) returns (ok: bool)
      requires Valid() && bitLength < 0x1_0000 && offset < 0x1_0000
      requires byteOffset + Min(WantedBytes(|value|, bitLength), ByteLimit(offset)) <= data.Length
      modifies this, data
      ensures Valid()
      ensures ok <==>
                && old(Cursor()) % 8 == 0 && (offset == 0 || offset == old(Cursor()))
                && ((bitLength == 0 && |value| % 0x1_0000 == 0) || offset / 8 != 223)
      ensures !ok ==> data[..] == old(data[..]) && Cursor() == old(Cursor())
      ensures ok && 0 < bitLength <= 8 * (223 - offset / 8) ==> Cursor() == old(Cursor()) + bitLength
      ensures ok && bitLength == 0 && |value| <= 223 - offset / 8 ==> Cursor() == old(Cursor()) + 8 * |value|
      ensures ok ==>
                var n := Min(WantedBytes(|value|, bitLength), ByteLimit(offset));
                && Cursor() == old(Cursor()) + BitsIn(n, bitLength % 8)
                && Overwritten(old(data[..]), data[..], old(Cursor()), n, Cursor(), value)
    {
      if Cursor() != offset && offset != 0 {
        return false;
      }
      var numBytes := WantedBytes(|value|, bitLength);
      if numBytes > ByteLimit(offset) {
        numBytes := ByteLimit(offset);
        if numBytes == 0 {
          return false;
        }
      }
      if bitOffset != 0 {
        return false;
      }
      StoreValue(value, numBytes, bitLength % 8);
      return true;
    }

    /** Reads bytes at an aligned cursor; the last one is masked to the odd bits asked for. */
    method ReadBinaryData(bitLength: nat) returns (result: Result<seq<Byte>>)
      requires Valid() && bitLength < 0x1_0000
      modifies this
      ensures Valid()
      ensures result.Ok? <==> old(Cursor()) % 8 == 0 && bitLength <= 8 * data.Length - old(Cursor())
      ensures result == Err ==> Cursor() == old(Cursor())
      ensures result.Ok? ==>
                Cursor() == old(Cursor()) + bitLength && Holding(result.value, data[..], old(Cursor()), bitLength)
      ensures result.Ok? ==>
                result.value == Masked(data[old(byteOffset)..old(byteOffset) + ByteCount(bitLength)], bitLength % 8)
    {
      CountedBits(bitLength, data.Length - byteOffset);
      if bitOffset != 0 {
        return Err;
      }
      var numBytes := ByteCount(bitLength);
      if data.Length - byteOffset < numBytes {
        return Err;
      }
      var bytes := FetchMasked(numBytes, bitLength % 8);
      return Ok(bytes);
    }

    /** The next n bytes, the last one masked to the odd bits, if any, which are all the cursor takes of it. */
    method FetchMasked(n: nat, odd: nat) returns (bytes: seq<Byte>)
      requires Valid() && bitOffset == 0 && byteOffset + n <= data.Length && odd < 8 && (odd > 0 ==> n > 0)
      modifies this
      ensures Valid() && Cursor() == old(Cursor()) + BitsIn(n, odd)
      ensures bytes == Masked(data[old(byteOffset)..old(byteOffset) + n], odd)
      ensures Holding(bytes, data[..], old(Cursor()), BitsIn(n, odd))
    {
      ghost var at := byteOffset;
      bytes := FetchBytes(n);
      if odd != 0 {
        bytes := Masked(bytes, odd);
        bitOffset := bitOffset + odd;
        byteOffset := byteOffset - 1;
      }
      ReadBits(data[..], at, n, odd, bytes);
    }

    /** The next n bytes, copied one by one. */
    method FetchBytes(n: nat) returns (bytes: seq<Byte>)
      requires Valid() && bitOffset == 0 && byteOffset + n <= data.Length
      modifies this
      ensures Valid() && bitOffset == 0 && byteOffset == old(byteOffset) + n
      ensures bytes == data[old(byteOffset)..old(byteOffset) + n]
    {
      var arr := new Byte[n](_ => 0);
      ghost var start := byteOffset;
      for i := 0 to n
        invariant Valid() && bitOffset == 0 && byteOffset == start + i
        invariant forall j :: 0 <= j < i ==> arr[j] == data[start + j]
      {
        arr[i] := data[byteOffset];
        byteOffset := byteOffset + 1;
      }
      bytes := arr[..];
    }
  }

  /** What is written as a binary field and read from there again is the bits that were written. */
  method WriteAndReadBinary(s: DataStream, value: seq<Byte>, bitLength: nat) returns (back: seq<Byte>)
    requires s.Valid() && s.Cursor() % 8 == 0 && s.Cursor() < 0x1_0000
    requires 0 < bitLength <= 8 * 223 && s.Cursor() + bitLength <= 8 * s.data.Length
    modifies s, s.data
    ensures s.Valid() && s.Cursor() == old(s.Cursor()) + bitLength && 8 * |back| - 8 < bitLength <= 8 * |back|
    ensures forall k :: 0 <= k < 8 * |back| ==>
              (StreamBit(back, k) <==> k < bitLength && k < 8 * |value| && StreamBit(value, k))
  {
    var start := s.Cursor();
    var ok := s.WriteBinary(value, bitLength, 0);
    s.SetPosition(start);
    var read := s.ReadBinaryData(bitLength);
    back := read.value;
    forall k | 0 <= k < 8 * |back|
      ensures StreamBit(back, k) <==> k < bitLength && k < 8 * |value| && StreamBit(value, k)
    {
      assert k < bitLength ==> start + k < 8 * s.data.Length;
    }
  }

  lemma NothingCollected(data: seq<Byte>, pos: nat)
    requires pos <= 8 * |data|
    ensures Collected(data, pos, 0, 0)
  {
    forall k: nat ensures !BitAt(0, k) {
      ZeroHasNoBits(k);
    }
  }
}
