/** The generated bit table of fast-packet PGNs: how it is built and how it is asked. */
module FastBits {
  import opened Bits

  const MIN_PGN: nat := 126208
  const MAX_PGN: nat := 131071
  const TABLE_LENGTH: nat := 608

  /** One PGN definition of the catalog; several may share a number. */
  datatype Definition = Definition(pgn: nat, fast: bool)

  predicate Bit(table: seq<Byte>, k: nat)
    requires k < 8 * |table|
  {
    BitAt(table[k / 8], k % 8)
  }

  /** Whether some of the first n definitions marks this number fast. */
  predicate MarkedFast(definitions: seq<Definition>, n: nat, pgn: nat)
    requires n <= |definitions|
  {
    exists i :: 0 <= i < n && definitions[i].fast && definitions[i].pgn == pgn
  }

  ghost predicate TableOf(table: seq<Byte>, definitions: seq<Definition>, n: nat)
    requires n <= |definitions|
  {
    |table| == TABLE_LENGTH
    && forall k :: 0 <= k < 8 * TABLE_LENGTH ==> (Bit(table, k) <==> MarkedFast(definitions, n, MIN_PGN + k))
  }

  /** IsFast, over whatever table the build has. */
  predicate IsFast(table: seq<Byte>, pgn: nat) {
    if pgn < MIN_PGN then false
    else if (pgn - MIN_PGN) / 8 >= |table| then false
    else And(table[(pgn - MIN_PGN) / 8], Shl(1, (pgn - MIN_PGN) % 8)) != 0
  }

  method GenerateFastBits(definitions: seq<Definition>) returns (bits: array<Byte>)
    ensures TableOf(bits[..], definitions, |definitions|)
  {
    bits := new Byte[TABLE_LENGTH](_ => 0);
    forall k | 0 <= k < 8 * TABLE_LENGTH ensures !Bit(bits[..], k) {
      ZeroHasNoBits(k % 8);
    }
    for n := 0 to |definitions|
      invariant TableOf(bits[..], definitions, n)
    {
      var pgn := definitions[n].pgn;
      ghost var before := bits[..];
      if MIN_PGN <= pgn <= MAX_PGN && definitions[n].fast {
        var bitIndex := pgn - MIN_PGN;
        var byteIndex, bitOffset := bitIndex / 8, bitIndex % 8;
        ByteStays(bits[byteIndex], bitOffset);
        bits[byteIndex] := Or(bits[byteIndex], Shl(1, bitOffset));
        assert bits[..] == before[byteIndex := Or(before[byteIndex], Shl(1, bitOffset))];
        MarkingIsExact(before, definitions, n, bitIndex);
      } else {
        NotMarking(before, definitions, n);
      }
    }
  }

  lemma MarkingIsExact(table: seq<Byte>, definitions: seq<Definition>, n: nat, bitIndex: nat)
    requires n < |definitions| && TableOf(table, definitions, n)
    requires definitions[n] == Definition(MIN_PGN + bitIndex, true) && bitIndex < 8 * TABLE_LENGTH
    requires Or(table[bitIndex / 8], Shl(1, bitIndex % 8)) < 256
    ensures TableOf(table[bitIndex / 8 := Or(table[bitIndex / 8], Shl(1, bitIndex % 8))], definitions, n + 1)
  {
    var after := table[bitIndex / 8 := Or(table[bitIndex / 8], Shl(1, bitIndex % 8))];
    forall k | 0 <= k < 8 * TABLE_LENGTH
      ensures Bit(after, k) <==> MarkedFast(definitions, n + 1, MIN_PGN + k)
    {
      SetBit(table[bitIndex / 8], bitIndex % 8, k % 8);
      assert Bit(after, k) <==> Bit(table, k) || k == bitIndex;
      assert MarkedFast(definitions, n + 1, MIN_PGN + k) <==> MarkedFast(definitions, n, MIN_PGN + k) || k == bitIndex;
    }
  }

  lemma NotMarking(table: seq<Byte>, definitions: seq<Definition>, n: nat)
    requires n < |definitions| && TableOf(table, definitions, n)
    requires !(MIN_PGN <= definitions[n].pgn <= MAX_PGN && definitions[n].fast)
    ensures TableOf(table, definitions, n + 1)
  {
    forall k | 0 <= k < 8 * TABLE_LENGTH
      ensures Bit(table, k) <==> MarkedFast(definitions, n + 1, MIN_PGN + k)
    {
      assert MarkedFast(definitions, n + 1, MIN_PGN + k) <==> MarkedFast(definitions, n, MIN_PGN + k);
    }
  }

  /** A number is fast exactly when it lies in the table's range and some definition marks it fast. */
  lemma IsFastMeansMarked(table: seq<Byte>, definitions: seq<Definition>, pgn: nat)
    requires TableOf(table, definitions, |definitions|)
    ensures IsFast(table, pgn) <==> 126208 <= pgn <= 131071 && MarkedFast(definitions, |definitions|, pgn)
  {
    if MIN_PGN <= pgn <= MAX_PGN {
      var k := pgn - MIN_PGN;
      MaskedBit(table[k / 8], k % 8);
      assert IsFast(table, pgn) <==> Bit(table, k);
    }
  }
}
