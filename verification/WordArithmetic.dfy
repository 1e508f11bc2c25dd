/** Machine words: sign tests, sign extension, truncation and wrap-around, for words of any width. */
module WordArithmetic {
  import opened Bits
  import opened FieldCodec
  import opened FieldSpecs

  lemma {:induction false} TopBitIsHalf(v: nat, n: nat)
    requires n >= 1 && v < Pow2(n)
    ensures BitAt(v, n - 1) <==> v >= Pow2(n - 1)
  {
    if n > 1 { TopBitIsHalf(v / 2, n - 1); }
  }

  /** v & (1 << (n - 1)) tells negative words from others. */
  lemma SignTest(v: nat, n: nat)
    requires n >= 1 && v < Pow2(n)
    ensures And(v, Shl(1, n - 1)) != 0 <==> v >= Pow2(n - 1)
  {
    MaskedBit(v, n - 1);
    TopBitIsHalf(v, n);
  }

  /** uint64(math.MaxUint64) << n */
  lemma HighOnes(n: nat, m: nat)
    requires n <= m
    ensures Low(Shl(Pow2(m) - 1, n), m) == Shl(Pow2(m - n) - 1, n) == Pow2(m) - Pow2(n)
  {
    var left, right := Low(Shl(Pow2(m) - 1, n), m), Shl(Pow2(m - n) - 1, n);
    forall i: nat ensures BitAt(left, i) <==> BitAt(right, i) {
      BitOfLow(Shl(Pow2(m) - 1, n), m, i);
      BitOfShl(Pow2(m) - 1, n, i);
      BitOfShl(Pow2(m - n) - 1, n, i);
      if i >= n {
        BitOfOnes(m, i - n);
        BitOfOnes(m - n, i - n);
      }
    }
    SameBitsSameNumber(left, right);
    PowersMultiply(m - n, n);
    TimesMinusOne(Pow2(m - n), Pow2(n));
  }

  lemma TimesMinusOne(a: nat, b: nat)
    requires a >= 1
    ensures (a - 1) * b == a * b - b
  {
  }

  lemma MultipleDrops(q: nat, m: nat, r: nat)
    requires r < m
    ensures (q * m + r) % m == r
  {
    var d, s := Divide(q * m + r, m);
    RemainderIsUnique(q, r, d, s, m);
  }

  /** A negative word of n bits, extended to m bits. */
  lemma ExtendedWord(v: nat, n: nat, m: nat)
    requires 1 <= n < m && Pow2(n - 1) <= v < Pow2(n)
    ensures ToSigned(Wrap(Or(v, Low(Shl(Pow2(m) - 1, n), m)), m), m) == v - Pow2(n)
  {
    PowersGrow(n, m);
    if n < m - 1 { PowersGrow(n, m - 1); }
    HighOnes(n, m);
    OrOfDisjoint(Pow2(m - n) - 1, v, n);
    WrapOfFitting(Pow2(m) - Pow2(n) + v, m);
  }

  lemma KeptWord(v: nat, n: nat, m: nat)
    requires 1 <= n <= m && v < Pow2(n) && (n == m || v < Pow2(n - 1))
    ensures ToSigned(Wrap(v, m), m) == ToSigned(v, n)
  {
    if n < m {
      PowersGrow(n, m);
      PowersGrow(n - 1, m - 1);
    }
    WrapOfFitting(v, m);
  }

  /** Sign extension reads a field's bits as two's complement of the field's own length. */
  lemma ExtensionIsTwosComplement(v: nat, n: nat, word: nat)
    requires 1 <= n <= word && v < Pow2(n)
    ensures SignExtend(v, n, word) == ToSigned(v, n)
  {
    SignTest(v, n);
    if n < word && v >= Pow2(n - 1) {
      ExtendedWord(v, n, word);
    } else {
      KeptWord(v, n, word);
    }
  }

  /** A negative number keeps its n low bits in any wider word. */
  lemma NegativeInWider(x: int, n: nat, m: nat)
    requires n <= m && 0 - Pow2(n) < x < 0
    ensures (x + Pow2(m)) % Pow2(n) == x + Pow2(n)
  {
    PowersMultiply(m - n, n);
    MultipleOfModulus(x, Pow2(n), Pow2(m - n), Pow2(m));
  }

  lemma MultipleOfModulus(x: int, p: nat, q: nat, product: nat)
    requires p >= 1 && q >= 1 && product == q * p && 0 - p < x < 0
    ensures (x + product) % p == x + p
  {
    TimesMinusOne(q, p);
    MultipleDrops(q - 1, p, x + p);
  }

  /** Masking a sign-extended number leaves the field's own bits of it. */
  lemma MaskedWire(x: int, n: nat, m: nat)
    requires 1 <= n <= m && FitsSigned(x, n)
    ensures Low(And(Wrap(x, m), Pow2(n) - 1), n) == Wrap(x, n)
  {
    MaskIsLow(Wrap(x, m), n);
    LowFits(Low(Wrap(x, m), n), n);
    HeldInWider(x, true, n, m);
    SignedOfFitting(x, m);
    SignedOfFitting(x, n);
    if x < 0 { NegativeInWider(x, n, m); } else { LowFits(x, n); }
  }

  lemma HeldInWider(x: int, signed: bool, width: nat, wider: nat)
    requires 1 <= width <= wider && Holds(x, signed, width)
    ensures Holds(x, signed, wider)
  {
    if width < wider {
      PowersGrow(width, wider);
      PowersGrow(width - 1, wider - 1);
    }
  }

  lemma SmallMultiple(k: int, m: nat)
    requires 0 - m < k * m < m
    ensures k == 0
  {
    var size: nat := if k >= 0 then k else 0 - k;
    if size >= 1 { TimesGrows(size, m); }
  }

  lemma TimesGrows(k: nat, m: nat)
    requires k >= 1
    ensures k * m >= m
  {
  }

  lemma Distribute(a: int, b: int, m: nat)
    ensures (a - b) * m == a * m - b * m
  {
  }

  lemma IntDivide(x: int, m: nat) returns (q: int, r: nat)
    requires m >= 1
    ensures x == q * m + r && r < m && q == x / m && r == x % m
  {
    q, r := x / m, x % m;
  }

  lemma UniqueRemainder(q: int, r: nat, p: int, s: nat, m: nat)
    requires r < m && s < m && q * m + r == p * m + s
    ensures r == s
  {
    Distribute(q, p, m);
    SmallMultiple(q - p, m);
  }

  lemma RemainderOfMultiple(k: int, m: nat)
    requires m >= 1
    ensures (k * m) % m == 0
  {
    var q, r := IntDivide(k * m, m);
    UniqueRemainder(q, r, k, 0, m);
  }

  /** Numbers leave the same remainder exactly when their distance leaves none. */
  lemma SameRemainder(x: int, y: int, m: nat)
    requires m >= 1
    ensures x % m == y % m <==> (x - y) % m == 0
  {
    var a, r := IntDivide(x, m);
    var b, s := IntDivide(y, m);
    var c, t := IntDivide(x - y, m);
    Distribute(a, b, m);
    Distribute(b, 0 - c, m);
    if r == s {
      UniqueRemainder(a - b, 0, c, t, m);
    } else if t == 0 {
      UniqueRemainder(b + c, s, a, r, m);
    }
  }

  /** Numbers less than a turn apart that leave the same remainder are the same. */
  lemma CloseAndSame(x: int, y: int, m: nat)
    requires m >= 1 && (x - y) % m == 0 && 0 - m < x - y < m
    ensures x == y
  {
    SmallMultiple((x - y) / m, m);
  }

  lemma IsMultiple(x: int, k: int, m: nat)
    requires m >= 1 && x == k * m
    ensures x % m == 0
  {
    RemainderOfMultiple(k, m);
  }

  lemma TurnsAddUp(x: int, y: int, m: nat)
    requires m >= 1 && x % m == 0 && y % m == 0
    ensures (x + y) % m == 0
  {
    var a, r := IntDivide(x, m);
    var b, s := IntDivide(y, m);
    Distribute(a, 0 - b, m);
    IsMultiple(x + y, a + b, m);
  }

  lemma TurnsOfProduct(x: int, p: nat, q: nat, product: nat)
    requires p >= 1 && product >= 1 && product == q * p && x % product == 0
    ensures x % p == 0
  {
    var k, r := IntDivide(x, product);
    Associate(k, q, p);
    RemainderOfMultiple(k * q, p);
  }

  /** A whole number of turns of a wide word is a whole number of turns of a narrower one. */
  lemma WideTurnsAreTurns(x: int, n: nat, word: nat)
    requires n <= word && x % Pow2(word) == 0
    ensures x % Pow2(n) == 0
  {
    PowersMultiply(word - n, n);
    TurnsOfProduct(x, Pow2(n), Pow2(word - n), Pow2(word));
  }

  lemma Associate(a: int, b: int, c: int)
    ensures a * (b * c) == (a * b) * c
  {
  }

  /** Converting to a type changes a number by whole turns, and gives the one number of the type that is. */
  lemma ConvertHits(x: int, y: int, signed: bool, n: nat)
    requires n >= 1 && Holds(y, signed, n)
    ensures Convert(x, signed, n) == y <==> (x - y) % Pow2(n) == 0
  {
    SameRemainder(x, y, Pow2(n));
    ConvertOfHeld(y, signed, n);
  }

  lemma ConvertHolds(x: int, signed: bool, n: nat)
    requires n >= 1
    ensures Holds(Convert(x, signed, n), signed, n)
  {
  }

  /** A converted number is the number it was, up to whole turns. */
  lemma ConvertTurns(x: int, signed: bool, n: nat)
    requires n >= 1
    ensures (x - Convert(x, signed, n)) % Pow2(n) == 0
  {
    ConvertHolds(x, signed, n);
    ConvertHits(x, Convert(x, signed, n), signed, n);
  }

  /** Two numbers of one type that are whole turns apart are the same. */
  lemma HeldAndSame(x: int, y: int, signed: bool, n: nat)
    requires n >= 1 && Holds(x, signed, n) && Holds(y, signed, n) && (x - y) % Pow2(n) == 0
    ensures x == y
  {
    CloseAndSame(x, y, Pow2(n));
  }
}
