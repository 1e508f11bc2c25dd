/**
  Unsigned machine integers as naturals, read bit by bit. Shifts and masks are
  defined by halving and doubling, so that every fact about them is a short induction.
 */
module Bits {

  type Byte = b: int | 0 <= b < 256

  /** A Go string: bytes, not characters. */
  type Text = seq<Byte>

  function Pow2(n: nat): (p: nat)
    ensures p >= 1
  {
    if n == 0 then 1 else 2 * Pow2(n - 1)
  }

  lemma QuotientIsNat(v: nat, m: nat)
    requires m > 0
    ensures v / m >= 0
  {
  }

  /** v >> w */
  function Shr(v: nat, w: nat): nat {
    QuotientIsNat(v, Pow2(w));
    v / Pow2(w)
  }

  /** v << w, without the truncation of a machine word */
  function Shl(v: nat, w: nat): nat {
    v * Pow2(w)
  }

  /** The conversion of v to an n-bit word */
  function Low(v: nat, n: nat): (low: nat)
    ensures low < Pow2(n)
  {
    v % Pow2(n)
  }

  /** Bit i of v, counted from the least significant. */
  predicate BitAt(v: nat, i: nat) {
    if i == 0 then v % 2 == 1 else BitAt(v / 2, i - 1)
  }

  /** v halved w times */
  function Halved(v: nat, w: nat): nat {
    if w == 0 then v else Halved(v / 2, w - 1)
  }

  /** v doubled w times */
  function Doubled(v: nat, w: nat): nat
    decreases w
  {
    if w == 0 then v else Doubled(2 * v, w - 1)
  }

  /** The number the n low bits of v make up */
  function LowBits(v: nat, n: nat): nat {
    if n == 0 then 0 else v % 2 + 2 * LowBits(v / 2, n - 1)
  }

  /** a | b */
  function Or(a: nat, b: nat): nat
    decreases a + b
  {
    if a == 0 && b == 0 then 0
    else (if a % 2 == 1 || b % 2 == 1 then 1 else 0) + 2 * Or(a / 2, b / 2)
  }

  /** a & b */
  function And(a: nat, b: nat): nat
  {
    if a == 0 || b == 0 then 0
    else (if a % 2 == 1 && b % 2 == 1 then 1 else 0) + 2 * And(a / 2, b / 2)
  }

  lemma {:induction false} ZeroHasNoBits(i: nat)
    ensures !BitAt(0, i)
  {
    if i > 0 { ZeroHasNoBits(i - 1); }
  }

  lemma {:induction false} BitOfOr(a: nat, b: nat, i: nat)
    ensures BitAt(Or(a, b), i) <==> BitAt(a, i) || BitAt(b, i)
  {
    if a == 0 && b == 0 {
      ZeroHasNoBits(i);
    } else if i > 0 {
      BitOfOr(a / 2, b / 2, i - 1);
    }
  }

  lemma {:induction false} BitOfAnd(a: nat, b: nat, i: nat)
    ensures BitAt(And(a, b), i) <==> BitAt(a, i) && BitAt(b, i)
  {
    if a == 0 || b == 0 {
      ZeroHasNoBits(i);
    } else if i > 0 {
      BitOfAnd(a / 2, b / 2, i - 1);
    }
  }

  lemma {:induction false} BitOfHalved(v: nat, w: nat, i: nat)
    ensures BitAt(Halved(v, w), i) <==> BitAt(v, i + w)
  {
    if w > 0 { BitOfHalved(v / 2, w - 1, i); }
  }

  lemma {:induction false} BitOfDoubled(v: nat, w: nat, i: nat)
    ensures BitAt(Doubled(v, w), i) <==> i >= w && BitAt(v, i - w)
    decreases w
  {
    if w > 0 {
      BitOfDoubled(2 * v, w - 1, i);
      if i >= w {
        assert BitAt(2 * v, i - w + 1) <==> BitAt(v, i - w);
      }
    }
  }

  lemma {:induction false} BitOfLowBits(v: nat, n: nat, i: nat)
    ensures BitAt(LowBits(v, n), i) <==> i < n && BitAt(v, i)
  {
    if n == 0 {
      ZeroHasNoBits(i);
    } else if i > 0 {
      BitOfLowBits(v / 2, n - 1, i - 1);
    }
  }

  lemma {:induction false} LowBitsFits(v: nat, n: nat)
    ensures LowBits(v, n) < Pow2(n)
    ensures v < Pow2(n) ==> LowBits(v, n) == v
  {
    if n > 0 { LowBitsFits(v / 2, n - 1); }
  }

  lemma {:induction false} LowBitsLeaveMultiple(v: nat, n: nat) returns (q: nat)
    ensures v == LowBits(v, n) + q * Pow2(n)
  {
    if n == 0 {
      q := v;
    } else {
      q := LowBitsLeaveMultiple(v / 2, n - 1);
      assert q * Pow2(n) == 2 * (q * Pow2(n - 1));
    }
  }

  lemma {:induction false} RemainderIsUnique(p: nat, r: nat, q: nat, s: nat, m: nat)
    requires r < m && s < m && p * m + r == q * m + s
    ensures r == s && p == q
  {
    OneMoreTimes(p, m);
    OneMoreTimes(q, m);
    if p > 0 && q > 0 {
      RemainderIsUnique(p - 1, r, q - 1, s, m);
    }
  }

  lemma OneMoreTimes(p: nat, m: nat)
    ensures p > 0 ==> p * m == (p - 1) * m + m >= m
  {
  }

  lemma Divide(v: nat, m: nat) returns (d: nat, r: nat)
    requires m > 0
    ensures d == v / m && r == v % m && r < m && d * m + r == v
  {
    d, r := v / m, v % m;
  }

  /** Keeping n low bits is reduction modulo 2^n. */
  lemma LowBitsIsMod(v: nat, n: nat)
    ensures LowBits(v, n) == v % Pow2(n)
  {
    LowBitsFits(v, n);
    var q := LowBitsLeaveMultiple(v, n);
    var d, r := Divide(v, Pow2(n));
    RemainderIsUnique(q, LowBits(v, n), d, r, Pow2(n));
  }

  /** Words of n bits are equal when their bits are. */
  lemma {:induction false} SameBitsSameLowBits(v: nat, w: nat, n: nat)
    requires forall i :: 0 <= i < n ==> (BitAt(v, i) <==> BitAt(w, i))
    ensures LowBits(v, n) == LowBits(w, n)
  {
    if n > 0 {
      assert BitAt(v, 0) <==> BitAt(w, 0);
      forall i | 0 <= i < n - 1 ensures BitAt(v / 2, i) <==> BitAt(w / 2, i) {
        assert BitAt(v, i + 1) <==> BitAt(w, i + 1);
      }
      SameBitsSameLowBits(v / 2, w / 2, n - 1);
    }
  }

  lemma {:induction false} NoBitsAbove(v: nat, n: nat, i: nat)
    requires v < Pow2(n) && i >= n
    ensures !BitAt(v, i)
  {
    if n == 0 {
      ZeroHasNoBits(i);
    } else {
      NoBitsAbove(v / 2, n - 1, i - 1);
    }
  }

  lemma {:induction false} OrStaysInWord(a: nat, b: nat, n: nat)
    requires a < Pow2(n) && b < Pow2(n)
    ensures Or(a, b) < Pow2(n)
  {
    if n > 0 { OrStaysInWord(a / 2, b / 2, n - 1); }
  }

  lemma {:induction false} OrWithZero(a: nat)
    ensures Or(a, 0) == a
  {
    if a > 0 { OrWithZero(a / 2); }
  }

  lemma {:induction false} DoubledStep(v: nat, w: nat)
    requires w > 0
    ensures Doubled(v, w) == 2 * Doubled(v, w - 1)
    decreases w
  {
    if w > 1 { DoubledStep(2 * v, w - 1); }
  }

  /** A number shifted out of the way of another is just added to it. */
  lemma {:induction false} OrOfDoubled(high: nat, low: nat, n: nat)
    requires low < Pow2(n)
    ensures Or(Doubled(high, n), low) == Doubled(high, n) + low
    decreases n
  {
    if n == 0 {
      OrWithZero(high);
    } else {
      DoubledStep(high, n);
      OrOfDoubled(high, low / 2, n - 1);
    }
  }

  /** Masking with n low ones keeps the n low bits. */
  lemma {:induction false} MaskIsLowBits(v: nat, n: nat)
    ensures And(v, Pow2(n) - 1) == LowBits(v, n)
  {
    if n > 0 {
      MaskIsLowBits(v / 2, n - 1);
      assert (Pow2(n) - 1) / 2 == Pow2(n - 1) - 1 && (Pow2(n) - 1) % 2 == 1;
      if v == 0 { LowBitsOfZero(n); }
    }
  }

  lemma {:induction false} LowBitsOfZero(n: nat)
    ensures LowBits(0, n) == 0
  {
    if n > 0 { LowBitsOfZero(n - 1); }
  }

  /** Numbers are equal when all their bits are. */
  lemma {:induction false} SameBitsSameNumber(v: nat, w: nat)
    requires forall i: nat :: BitAt(v, i) <==> BitAt(w, i)
    ensures v == w
    decreases v + w
  {
    if v != 0 || w != 0 {
      assert BitAt(v, 0) <==> BitAt(w, 0);
      forall i: nat ensures BitAt(v / 2, i) <==> BitAt(w / 2, i) {
        assert BitAt(v, i + 1) <==> BitAt(w, i + 1);
      }
      SameBitsSameNumber(v / 2, w / 2);
    }
  }

  lemma OrIsSymmetric(a: nat, b: nat)
    ensures Or(a, b) == Or(b, a)
  {
    forall i: nat ensures BitAt(Or(a, b), i) <==> BitAt(Or(b, a), i) {
      BitOfOr(a, b, i);
      BitOfOr(b, a, i);
    }
    SameBitsSameNumber(Or(a, b), Or(b, a));
  }

  lemma {:induction false} BitOfOnes(n: nat, i: nat)
    ensures BitAt(Pow2(n) - 1, i) <==> i < n
  {
    if n == 0 {
      ZeroHasNoBits(i);
    } else if i > 0 {
      BitOfOnes(n - 1, i - 1);
    }
  }

  lemma {:induction false} DoubledIsTimes(v: nat, w: nat)
    ensures Doubled(v, w) == v * Pow2(w)
    decreases w
  {
    if w > 0 { DoubledIsTimes(2 * v, w - 1); }
  }

  lemma {:induction false} HalvedIsDiv(v: nat, w: nat)
    ensures Halved(v, w) == v / Pow2(w)
  {
    if w > 0 {
      HalvedIsDiv(v / 2, w - 1);
      HalveThenDivide(v, Pow2(w - 1), Pow2(w));
    }
  }

  lemma HalveThenDivide(v: nat, m: nat, twice: nat)
    requires m > 0 && twice == 2 * m
    ensures v / 2 / m == v / twice
  {
    var d, r := Divide(v / 2, m);
    var e, s := Divide(v, twice);
    DoubleTimes(d, m, twice);
    RemainderIsUnique(d, 2 * r + v % 2, e, s, twice);
  }

  lemma DoubleTimes(d: nat, m: nat, twice: nat)
    requires twice == 2 * m
    ensures d * twice == 2 * (d * m)
  {
  }

  lemma BitOfShr(v: nat, w: nat, i: nat)
    ensures BitAt(Shr(v, w), i) <==> BitAt(v, i + w)
  {
    HalvedIsDiv(v, w);
    BitOfHalved(v, w, i);
  }

  lemma BitOfShl(v: nat, w: nat, i: nat)
    ensures BitAt(Shl(v, w), i) <==> i >= w && BitAt(v, i - w)
  {
    DoubledIsTimes(v, w);
    BitOfDoubled(v, w, i);
  }

  lemma BitOfLow(v: nat, n: nat, i: nat)
    ensures BitAt(Low(v, n), i) <==> i < n && BitAt(v, i)
  {
    LowBitsIsMod(v, n);
    BitOfLowBits(v, n, i);
  }

  /** Words of n bits are equal when their bits are. */
  lemma SameBitsSameWord(v: nat, w: nat, n: nat)
    requires forall i :: 0 <= i < n ==> (BitAt(v, i) <==> BitAt(w, i))
    ensures Low(v, n) == Low(w, n)
  {
    SameBitsSameLowBits(v, w, n);
    LowBitsIsMod(v, n);
    LowBitsIsMod(w, n);
  }

  lemma LowFits(v: nat, n: nat)
    requires v < Pow2(n)
    ensures Low(v, n) == v
  {
    LowBitsFits(v, n);
    LowBitsIsMod(v, n);
  }

  /** A number shifted out of the way of another is just added to it. */
  lemma OrOfDisjoint(high: nat, low: nat, n: nat)
    requires low < Pow2(n)
    ensures Or(Shl(high, n), low) == Shl(high, n) + low
    ensures Or(low, Shl(high, n)) == Shl(high, n) + low
  {
    DoubledIsTimes(high, n);
    OrOfDoubled(high, low, n);
    OrIsSymmetric(low, Shl(high, n));
  }

  /** Masking with n low ones keeps the n low bits. */
  lemma MaskIsLow(v: nat, n: nat)
    ensures And(v, Pow2(n) - 1) == Low(v, n)
  {
    MaskIsLowBits(v, n);
    LowBitsIsMod(v, n);
  }

  /** Masking with n ones at position s keeps the n-bit field there. */
  lemma MaskedField(v: nat, s: nat, n: nat)
    ensures And(v, Shl(Pow2(n) - 1, s)) == Shl(Low(Shr(v, s), n), s)
    ensures Shr(And(v, Shl(Pow2(n) - 1, s)), s) == Low(Shr(v, s), n)
  {
    var masked, field := And(v, Shl(Pow2(n) - 1, s)), Low(Shr(v, s), n);
    forall i: nat ensures BitAt(masked, i) <==> BitAt(Shl(field, s), i) {
      BitOfAnd(v, Shl(Pow2(n) - 1, s), i);
      BitOfShl(Pow2(n) - 1, s, i);
      BitOfShl(field, s, i);
      if i >= s {
        BitOfOnes(n, i - s);
        BitOfLow(Shr(v, s), n, i - s);
        BitOfShr(v, s, i - s);
      }
    }
    SameBitsSameNumber(masked, Shl(field, s));
    forall i: nat ensures BitAt(Shr(masked, s), i) <==> BitAt(field, i) {
      BitOfShr(masked, s, i);
      BitOfShl(field, s, i + s);
    }
    SameBitsSameNumber(Shr(masked, s), field);
  }

  lemma {:induction false} BitOfOne(i: nat)
    ensures BitAt(1, i) <==> i == 0
  {
    if i > 0 { ZeroHasNoBits(i - 1); }
  }

  /** v & (1 << k) tests bit k. */
  lemma MaskedBit(v: nat, k: nat)
    ensures And(v, Shl(1, k)) != 0 <==> BitAt(v, k)
  {
    forall i: nat ensures BitAt(And(v, Shl(1, k)), i) <==> BitAt(v, k) && i == k {
      BitOfAnd(v, Shl(1, k), i);
      BitOfShl(1, k, i);
      if i >= k { BitOfOne(i - k); }
    }
    if BitAt(v, k) {
      ZeroHasNoBits(k);
    } else {
      forall i: nat ensures BitAt(And(v, Shl(1, k)), i) <==> BitAt(0, i) {
        ZeroHasNoBits(i);
      }
      SameBitsSameNumber(And(v, Shl(1, k)), 0);
    }
  }

  /** v | (1 << k) sets bit k and no other. */
  lemma SetBit(v: nat, k: nat, i: nat)
    ensures BitAt(Or(v, Shl(1, k)), i) <==> BitAt(v, i) || i == k
  {
    BitOfOr(v, Shl(1, k), i);
    BitOfShl(1, k, i);
    if i >= k { BitOfOne(i - k); }
  }

  lemma {:induction false} PowersGrow(a: nat, b: nat)
    requires a < b
    ensures 2 * Pow2(a) <= Pow2(b)
    decreases b
  {
    if a + 1 < b { PowersGrow(a, b - 1); }
  }

  lemma {:induction false} PowersMultiply(a: nat, b: nat)
    ensures Pow2(a + b) == Pow2(a) * Pow2(b)
  {
    if a > 0 { PowersMultiply(a - 1, b); }
  }

  /** The powers the frame and identifier layouts use. */
  lemma PowersOfTwo()
    ensures Pow2(3) == 8 && Pow2(5) == 32 && Pow2(8) == 256 && Pow2(12) == 0x1000
    ensures Pow2(18) == 0x4_0000 && Pow2(26) == 0x400_0000 && Pow2(31) == 0x8000_0000 && Pow2(32) == 0x1_0000_0000
  {
    assert Pow2(1) == 2;
    assert Pow2(2) == 4;
    assert Pow2(4) == 16;
    PowersMultiply(4, 4);
    PowersMultiply(8, 4);
    PowersMultiply(5, 3);
    PowersMultiply(13, 5);
    PowersMultiply(18, 8);
    PowersMultiply(26, 5);
    PowersMultiply(8, 5);
  }

  /** Setting a bit of a byte leaves a byte. */
  lemma ByteStays(b: Byte, k: nat)
    requires k < 8
    ensures Or(b, Shl(1, k)) < 256
  {
    PowersOfTwo();
    PowersGrow(k, 8);
    OrStaysInWord(b, Shl(1, k), 8);
  }
}
