/** A byte buffer as a stream of bits, least significant bit of each byte first. */
module BitStream {
  import opened Bits

  predicate StreamBit(data: seq<Byte>, p: nat)
    requires p < 8 * |data|
  {
    BitAt(data[p / 8], p % 8)
  }

  /** The n bits from position pos on, as a number. */
  function GetBits(data: seq<Byte>, pos: nat, n: nat): (v: nat)
    requires pos + n <= 8 * |data|
    ensures v < Pow2(n)
    decreases n
  {
    if n == 0 then 0 else (if StreamBit(data, pos) then 1 else 0) + 2 * GetBits(data, pos + 1, n - 1)
  }

  /** Sets the bit at position p. */
  function Mark(data: seq<Byte>, p: nat): (after: seq<Byte>)
    requires p < 8 * |data|
    ensures |after| == |data|
  {
    ByteStays(data[p / 8], p % 8);
    data[p / 8 := Or(data[p / 8], Shl(1, p % 8))]
  }

  /** Sets, from position pos on, the bits that are set among the n low bits of v. */
  function PutBits(data: seq<Byte>, pos: nat, v: nat, n: nat): (after: seq<Byte>)
    requires pos + n <= 8 * |data|
    ensures |after| == |data|
    decreases n
  {
    if n == 0 then data
    else PutBits(if v % 2 == 1 then Mark(data, pos) else data, pos + 1, v / 2, n - 1)
  }

  /** The bits of the buffer after or-ing the n low bits of v in at pos. */
  ghost predicate Written(before: seq<Byte>, after: seq<Byte>, pos: nat, v: nat, n: nat) {
    && |after| == |before|
    && forall p :: 0 <= p < 8 * |before| ==>
         (StreamBit(after, p) <==> StreamBit(before, p) || (pos <= p < pos + n && BitAt(v, p - pos)))
  }

  lemma MarkSetsOneBit(data: seq<Byte>, p: nat, q: nat)
    requires p < 8 * |data| && q < 8 * |data|
    ensures StreamBit(Mark(data, p), q) <==> StreamBit(data, q) || q == p
  {
    SetBit(data[p / 8], p % 8, q % 8);
  }

  lemma {:induction false} PutBitsWrites(data: seq<Byte>, pos: nat, v: nat, n: nat)
    requires pos + n <= 8 * |data|
    ensures Written(data, PutBits(data, pos, v, n), pos, v, n)
    decreases n
  {
    if n > 0 {
      var first := if v % 2 == 1 then Mark(data, pos) else data;
      var after := PutBits(first, pos + 1, v / 2, n - 1);
      PutBitsWrites(first, pos + 1, v / 2, n - 1);
      forall p | 0 <= p < 8 * |data|
        ensures StreamBit(after, p) <==> StreamBit(data, p) || (pos <= p < pos + n && BitAt(v, p - pos))
      {
        if v % 2 == 1 { MarkSetsOneBit(data, pos, p); }
      }
    }
  }

  /** A number put together from its lowest bit and the rest. */
  lemma LowestBitFirst(bit: bool, rest: nat, k: nat)
    ensures BitAt((if bit then 1 else 0) + 2 * rest, k) <==> if k == 0 then bit else BitAt(rest, k - 1)
  {
  }

  lemma {:induction false} GetBitsReads(data: seq<Byte>, pos: nat, n: nat, k: nat)
    requires pos + n <= 8 * |data|
    ensures BitAt(GetBits(data, pos, n), k) <==> k < n && StreamBit(data, pos + k)
    decreases n
  {
    if n == 0 {
      ZeroHasNoBits(k);
    } else {
      var bit, rest := StreamBit(data, pos), GetBits(data, pos + 1, n - 1);
      assert GetBits(data, pos, n) == (if bit then 1 else 0) + 2 * rest;
      LowestBitFirst(bit, rest, k);
      if k > 0 { GetBitsReads(data, pos + 1, n - 1, k - 1); }
    }
  }

  lemma SameByte(a: Byte, b: Byte)
    requires forall k :: 0 <= k < 8 ==> (BitAt(a, k) <==> BitAt(b, k))
    ensures a == b
  {
    SameBitsSameWord(a, b, 8);
    PowersOfTwo();
    LowFits(a, 8);
    LowFits(b, 8);
  }

  /** The bits determine the buffer. */
  lemma SameBitsSameBuffer(a: seq<Byte>, b: seq<Byte>)
    requires |a| == |b| && forall p :: 0 <= p < 8 * |a| ==> (StreamBit(a, p) <==> StreamBit(b, p))
    ensures a == b
  {
    forall j | 0 <= j < |a| ensures a[j] == b[j] {
      forall k | 0 <= k < 8 ensures BitAt(a[j], k) <==> BitAt(b[j], k) {
        assert StreamBit(a, 8 * j + k) <==> StreamBit(b, 8 * j + k);
      }
      SameByte(a[j], b[j]);
    }
  }

  lemma WrittenIsPut(before: seq<Byte>, after: seq<Byte>, pos: nat, v: nat, n: nat)
    requires pos + n <= 8 * |before| && Written(before, after, pos, v, n)
    ensures after == PutBits(before, pos, v, n)
  {
    PutBitsWrites(before, pos, v, n);
    SameBitsSameBuffer(after, PutBits(before, pos, v, n));
  }

  lemma ReadIsGet(data: seq<Byte>, pos: nat, n: nat, v: nat)
    requires pos + n <= 8 * |data|
    requires forall k: nat :: BitAt(v, k) <==> k < n && StreamBit(data, pos + k)
    ensures v == GetBits(data, pos, n)
  {
    forall k: nat ensures BitAt(v, k) <==> BitAt(GetBits(data, pos, n), k) {
      GetBitsReads(data, pos, n, k);
    }
    SameBitsSameNumber(v, GetBits(data, pos, n));
  }

  /** Writing in two pieces is writing at once. */
  lemma WrittenTogether(d0: seq<Byte>, d1: seq<Byte>, d2: seq<Byte>, pos: nat, v: nat, m: nat, n: nat)
    requires Written(d0, d1, pos, v, m) && Written(d1, d2, pos + m, Shr(v, m), n)
    ensures Written(d0, d2, pos, v, m + n)
  {
    forall p | 0 <= p < 8 * |d0|
      ensures StreamBit(d2, p) <==> StreamBit(d0, p) || (pos <= p < pos + (m + n) && BitAt(v, p - pos))
    {
      assert StreamBit(d1, p) <==> StreamBit(d0, p) || (pos <= p < pos + m && BitAt(v, p - pos));
      if pos + m <= p { BitOfShr(v, m, p - (pos + m)); }
    }
  }

  /** No bit from pos on, for n bits, is set. */
  ghost predicate Blank(data: seq<Byte>, pos: nat, n: nat) {
    pos + n <= 8 * |data| && forall p :: pos <= p < pos + n ==> !StreamBit(data, p)
  }

  /** What was put into a blank stretch reads back, modulo its length. */
  lemma PutThenGet(data: seq<Byte>, pos: nat, v: nat, n: nat)
    requires Blank(data, pos, n)
    ensures GetBits(PutBits(data, pos, v, n), pos, n) == Low(v, n)
  {
    PutBitsWrites(data, pos, v, n);
    forall k: nat
      ensures BitAt(Low(v, n), k) <==> k < n && StreamBit(PutBits(data, pos, v, n), pos + k)
    {
      BitOfLow(v, n, k);
    }
    ReadIsGet(PutBits(data, pos, v, n), pos, n, Low(v, n));
  }

  lemma GetFromSameBits(a: seq<Byte>, b: seq<Byte>, pos: nat, n: nat)
    requires |a| == |b| && pos + n <= 8 * |a|
    requires forall p :: pos <= p < pos + n ==> (StreamBit(a, p) <==> StreamBit(b, p))
    ensures GetBits(a, pos, n) == GetBits(b, pos, n)
  {
    forall k: nat ensures BitAt(GetBits(a, pos, n), k) <==> k < n && StreamBit(b, pos + k) {
      GetBitsReads(a, pos, n, k);
    }
    ReadIsGet(b, pos, n, GetBits(a, pos, n));
  }

  /** A number and the bits it is written in. */
  datatype Field = Field(value: nat, length: nat)

  function TotalLength(fields: seq<Field>): nat {
    if fields == [] then 0 else fields[0].length + TotalLength(fields[1..])
  }

  /** A generated encoder: one field after the other. */
  function PutAll(data: seq<Byte>, pos: nat, fields: seq<Field>): (after: seq<Byte>)
    requires pos + TotalLength(fields) <= 8 * |data|
    ensures |after| == |data|
    decreases |fields|
  {
    if fields == [] then data
    else PutAll(PutBits(data, pos, fields[0].value, fields[0].length), pos + fields[0].length, fields[1..])
  }

  /** A generated decoder, with the same lengths. */
  function GetAll(data: seq<Byte>, pos: nat, fields: seq<Field>): seq<nat>
    requires pos + TotalLength(fields) <= 8 * |data|
    decreases |fields|
  {
    if fields == [] then []
    else [GetBits(data, pos, fields[0].length)] + GetAll(data, pos + fields[0].length, fields[1..])
  }

  function Truncated(fields: seq<Field>): seq<nat> {
    if fields == [] then [] else [Low(fields[0].value, fields[0].length)] + Truncated(fields[1..])
  }

  /** Fields are written within their own stretch of the stream. */
  lemma {:induction false} PutAllStaysWithin(data: seq<Byte>, pos: nat, fields: seq<Field>, p: nat)
    requires pos + TotalLength(fields) <= 8 * |data| && p < 8 * |data|
    requires p < pos || pos + TotalLength(fields) <= p
    ensures StreamBit(PutAll(data, pos, fields), p) <==> StreamBit(data, p)
    decreases |fields|
  {
    if fields != [] {
      PutBitsWrites(data, pos, fields[0].value, fields[0].length);
      PutAllStaysWithin(
        PutBits(data, pos, fields[0].value, fields[0].length), pos + fields[0].length, fields[1..], p);
    }
  }

  lemma RestIsBlank(data: seq<Byte>, pos: nat, fields: seq<Field>)
    requires fields != [] && Blank(data, pos, TotalLength(fields))
    ensures var n := fields[0].length;
            Blank(data, pos, n) && Blank(PutBits(data, pos, fields[0].value, n), pos + n, TotalLength(fields[1..]))
  {
    PutBitsWrites(data, pos, fields[0].value, fields[0].length);
  }

  /**
    Any list of fields written into a blank stretch, from any bit position on,
    reads back with the same lengths as each value modulo its length; nothing
    before the stretch changes.
   */
  lemma {:induction false} FieldsRoundTrip(data: seq<Byte>, pos: nat, fields: seq<Field>)
    requires Blank(data, pos, TotalLength(fields))
    ensures GetAll(PutAll(data, pos, fields), pos, fields) == Truncated(fields)
    ensures forall p :: 0 <= p < pos ==> (StreamBit(PutAll(data, pos, fields), p) <==> StreamBit(data, p))
    decreases |fields|
  {
    var after := PutAll(data, pos, fields);
    forall p | 0 <= p < pos ensures StreamBit(after, p) <==> StreamBit(data, p) {
      PutAllStaysWithin(data, pos, fields, p);
    }
    if fields != [] {
      var n := fields[0].length;
      var first := PutBits(data, pos, fields[0].value, n);
      RestIsBlank(data, pos, fields);
      FieldsRoundTrip(first, pos + n, fields[1..]);
      PutThenGet(data, pos, fields[0].value, n);
      GetFromSameBits(after, first, pos, n);
    }
  }
}
