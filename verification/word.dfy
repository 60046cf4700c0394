/** Unsigned 32-bit words (`u32`).  A word is a `bv32`, so `^`, `&`, `|`, `>>` and `*` are the
    wrapping operations of the source; `Value` is the number a word stands for, and comparisons
    of words are comparisons of their values. */
module Word {

  /** The lowest bit of `x` as a number. */
  function Bit(x: bv32): (b: nat)
    ensures b <= 1
  {
    if x & 1 == 1 then 1 else 0
  }

  /** The number `x` stands for, read off one bit at a time. */
  function Value(x: bv32): nat
    decreases x
  {
    if x == 0 then 0 else 2 * Value(x >> 1) + Bit(x)
  }

  /** The word whose value is `n`, built one bit at a time (for `n < 2^32`). */
  function U32(n: nat): bv32
    decreases n
  {
    if n == 0 then 0 else Double(U32(n / 2), LowBit(n))
  }

  /** `y` shifted up by one bit, with `b` as the new lowest bit. */
  function Double(y: bv32, b: bv32): bv32
  {
    (y << 1) | b
  }

  const WORD_RANGE: nat := 0x1_0000_0000

  // Steps on single bits, each small enough for the solver to check by bit-blasting.

  lemma Unfold(x: bv32)
    requires x != 0
    ensures Value(x) == 2 * Value(x >> 1) + Bit(x)
  {
  }

  lemma ShiftNonZero(x: bv32)
    requires x != 0 && x & 1 == 0
    ensures x >> 1 != 0
  {
  }

  lemma Rebuild(x: bv32, y: bv32)
    requires Bit(x) == Bit(y) && x >> 1 == y >> 1
    ensures x == y
  {
  }

  lemma ParityEqual(a: nat, b: nat, c: nat, d: nat)
    requires b <= 1 && d <= 1 && 2 * a + b == 2 * c + d
    ensures a == c && b == d
  {
  }

  lemma ValuePositive(x: bv32)
    requires x != 0
    ensures Value(x) > 0
    decreases x
  {
    if x & 1 == 0 {
      ShiftNonZero(x);
      ValuePositive(x >> 1);
    }
  }

  lemma ValueHalf(x: bv32)
    requires x != 0
    ensures Value(x >> 1) < Value(x)
  {
    if x >> 1 == 0 {
      ValuePositive(x);
    } else {
      ValuePositive(x >> 1);
    }
  }

  /** Different words stand for different numbers. */
  lemma ValueInjective(x: bv32, y: bv32)
    requires Value(x) == Value(y)
    ensures x == y
    decreases Value(x)
  {
    if x == 0 || y == 0 {
      if x != 0 { ValuePositive(x); }
      if y != 0 { ValuePositive(y); }
      return;
    }
    Unfold(x);
    Unfold(y);
    ParityEqual(Value(x >> 1), Bit(x), Value(y >> 1), Bit(y));
    ValueHalf(x);
    ValueInjective(x >> 1, y >> 1);
    Rebuild(x, y);
  }

  lemma UpperLess(x: bv32, y: bv32, hx: bv32, hy: bv32)
    requires hx == x >> 1 && hy == y >> 1 && hx < hy
    ensures x < y
  {
  }

  lemma LowestLess(x: bv32, y: bv32)
    requires x >> 1 == y >> 1 && Bit(x) < Bit(y)
    ensures x < y
  {
  }

  lemma ZeroLess(y: bv32)
    requires y != 0
    ensures 0 < y
  {
  }

  lemma LessAsymmetric(x: bv32, y: bv32)
    requires y < x
    ensures !(x < y)
  {
  }

  lemma HalvesCompare(a: nat, b: nat, c: nat, d: nat)
    requires b <= 1 && d <= 1 && 2 * a + b < 2 * c + d
    ensures a < c || (a == c && b < d)
  {
  }

  /** A word of smaller value is a smaller word. */
  lemma {:induction false} ValueLess(x: bv32, y: bv32)
    requires Value(x) < Value(y)
    ensures x < y
    decreases Value(y), 1
  {
    assert y != 0;
    if x == 0 {
      ZeroLess(y);
    } else {
      ValueLessStep(x, y);
    }
  }

  lemma {:induction false} ValueLessStep(x: bv32, y: bv32)
    requires x != 0 && y != 0 && Value(x) < Value(y)
    ensures x < y
    decreases Value(y), 0
  {
    Unfold(x);
    Unfold(y);
    HalvesCompare(Value(x >> 1), Bit(x), Value(y >> 1), Bit(y));
    if Value(x >> 1) < Value(y >> 1) {
      var hx, hy := x >> 1, y >> 1;
      ValueHalf(y);
      ValueLess(hx, hy);
      UpperLess(x, y, hx, hy);
    } else {
      ValueInjective(x >> 1, y >> 1);
      LowestLess(x, y);
    }
  }

  /** The unsigned comparison `<` of two words is the comparison of their values. */
  lemma ValueOrder(x: bv32, y: bv32)
    ensures Value(x) < Value(y) ==> x < y
    ensures x < y ==> Value(x) < Value(y)
  {
    if Value(x) < Value(y) {
      ValueLess(x, y);
    } else if Value(y) < Value(x) {
      ValueLess(y, x);
      LessAsymmetric(x, y);
    } else {
      ValueInjective(x, y);
    }
  }

  lemma SubStep(x: bv32, w: bv32)
    requires x & w == x && x != 0
    ensures w != 0 && (x >> 1) & (w >> 1) == x >> 1 && Bit(x) <= Bit(w)
  {
  }

  lemma SubCombine(x: bv32, w: bv32)
    requires x != 0 && w != 0 && Bit(x) <= Bit(w) && Value(x >> 1) <= Value(w >> 1)
    ensures Value(x) <= Value(w)
  {
    Unfold(x);
    Unfold(w);
  }

  /** A word whose bits all lie within `w` is at most `w`. */
  lemma ValueSub(x: bv32, w: bv32)
    requires x & w == x
    ensures Value(x) <= Value(w)
    decreases Value(x)
  {
    if x == 0 {
      return;
    }
    SubStep(x, w);
    ValueHalf(x);
    ValueSub(x >> 1, w >> 1);
    SubCombine(x, w);
  }

  /** `w` has the form `2^k - 1`. */
  predicate AllOnes(w: bv32)
  {
    w & (w + 1) == 0
  }

  lemma OutsideStep(z: bv32, w: bv32)
    requires AllOnes(w) && w != 0 && z & w != z
    ensures z != 0 && AllOnes(w >> 1) && (z >> 1) & (w >> 1) != z >> 1 && Bit(w) == 1
  {
  }

  lemma OutsideNonZero(z: bv32, w: bv32)
    requires z & w != z
    ensures z != 0
  {
  }

  lemma OutsideCombine(z: bv32, w: bv32)
    requires z != 0 && w != 0 && Bit(w) == 1 && Value(z >> 1) > Value(w >> 1)
    ensures Value(z) > Value(w)
  {
    Unfold(z);
    Unfold(w);
  }

  /** A word with a bit above the all-ones word `w` is larger than `w`. */
  lemma ValueOutside(z: bv32, w: bv32)
    requires AllOnes(w) && z & w != z
    ensures Value(z) > Value(w)
    decreases Value(z), 1
  {
    OutsideNonZero(z, w);
    ValuePositive(z);
    if w != 0 {
      ValueOutsideStep(z, w);
    }
  }

  lemma ValueOutsideStep(z: bv32, w: bv32)
    requires AllOnes(w) && z & w != z && w != 0
    ensures Value(z) > Value(w)
    decreases Value(z), 0
  {
    OutsideStep(z, w);
    ValueHalf(z);
    ValueOutside(z >> 1, w >> 1);
    OutsideCombine(z, w);
  }

  /** For an all-ones `w`, being at most `w` and having no bit outside `w` are the same. */
  lemma WithinOnes(x: bv32, w: bv32)
    requires AllOnes(w)
    ensures Value(x) <= Value(w) ==> x & w == x
    ensures x & w == x ==> Value(x) <= Value(w)
  {
    if x & w != x {
      ValueOutside(x, w);
    } else {
      ValueSub(x, w);
    }
  }

  lemma PredStepOdd(l: bv32)
    requires l & 1 == 1 && l - 1 != 0
    ensures (l - 1) >> 1 == l >> 1 && Bit(l - 1) == 0 && Bit(l) == 1
  {
  }

  lemma PredStepEven(l: bv32)
    requires l != 0 && l & 1 == 0
    ensures l >> 1 != 0 && (l - 1) >> 1 == (l >> 1) - 1 && Bit(l - 1) == 1 && Bit(l) == 0 && l - 1 != 0
  {
  }

  /** Decrementing a non-zero word decrements its value. */
  lemma ValuePred(l: bv32)
    requires l != 0
    ensures Value(l - 1) + 1 == Value(l)
    decreases Value(l)
  {
    if l & 1 == 1 {
      if l - 1 == 0 {
        assert l == 1;
        Unfold(l);
      } else {
        PredStepOdd(l);
        Unfold(l);
        Unfold(l - 1);
      }
    } else {
      PredStepEven(l);
      ValueHalf(l);
      ValuePred(l >> 1);
      Unfold(l);
      Unfold(l - 1);
    }
  }

  /** The value of `0x7FFF_FFFF`, evaluated one bit at a time. */
  lemma ValueLowOnes()
    ensures Value(0x7FFF_FFFF) == 0x7FFF_FFFF
  {
    assert Value(0x1) == 0x1;
    assert Value(0x3) == 0x3;
    assert Value(0x7) == 0x7;
    assert Value(0xF) == 0xF;
    assert Value(0x1F) == 0x1F;
    assert Value(0x3F) == 0x3F;
    assert Value(0x7F) == 0x7F;
    assert Value(0xFF) == 0xFF;
    assert Value(0x1FF) == 0x1FF;
    assert Value(0x3FF) == 0x3FF;
    assert Value(0x7FF) == 0x7FF;
    assert Value(0xFFF) == 0xFFF;
    assert Value(0x1FFF) == 0x1FFF;
    assert Value(0x3FFF) == 0x3FFF;
    assert Value(0x7FFF) == 0x7FFF;
    assert Value(0xFFFF) == 0xFFFF;
    assert Value(0x1_FFFF) == 0x1_FFFF;
    assert Value(0x3_FFFF) == 0x3_FFFF;
    assert Value(0x7_FFFF) == 0x7_FFFF;
    assert Value(0xF_FFFF) == 0xF_FFFF;
    assert Value(0x1F_FFFF) == 0x1F_FFFF;
    assert Value(0x3F_FFFF) == 0x3F_FFFF;
    assert Value(0x7F_FFFF) == 0x7F_FFFF;
    assert Value(0xFF_FFFF) == 0xFF_FFFF;
    assert Value(0x1FF_FFFF) == 0x1FF_FFFF;
    assert Value(0x3FF_FFFF) == 0x3FF_FFFF;
    assert Value(0x7FF_FFFF) == 0x7FF_FFFF;
    assert Value(0xFFF_FFFF) == 0xFFF_FFFF;
    assert Value(0x1FFF_FFFF) == 0x1FFF_FFFF;
    assert Value(0x3FFF_FFFF) == 0x3FFF_FFFF;
  }

  /** Every word stands for a number below `2^32`. */
  lemma ValueBound(x: bv32)
    ensures Value(x) < WORD_RANGE
  {
    ValueLowOnes();
    if x & 0x7FFF_FFFF == x {
      ValueSub(x, 0x7FFF_FFFF);
    } else {
      assert x >> 1 == (x >> 1) & 0x7FFF_FFFF;
      ValueSub(x >> 1, 0x7FFF_FFFF);
      assert x != 0;
      Unfold(x);
    }
  }

  lemma DoubleStep(y: bv32, b: bv32)
    requires y >> 31 == 0 && (b == 0 || b == 1)
    ensures Double(y, b) >> 1 == y
    ensures Double(y, b) & 1 == b
  {
  }

  lemma DoubleNonZero(y: bv32, b: bv32)
    requires y >> 31 == 0 && (y != 0 || b == 1)
    ensures Double(y, b) != 0
  {
  }

  lemma HighClear(y: bv32)
    requires y & 0x7FFF_FFFF == y
    ensures y >> 31 == 0
  {
  }

  /** The lowest bit of `n`, as a word. */
  function LowBit(n: nat): (b: bv32)
    ensures b == 0 || b == 1
  {
    if n % 2 == 1 then 1 else 0
  }

  lemma U32Shift(n: nat)
    requires n != 0 && U32(n / 2) >> 31 == 0
    ensures U32(n) >> 1 == U32(n / 2) && U32(n) & 1 == LowBit(n)
  {
    DoubleStep(U32(n / 2), LowBit(n));
  }

  lemma BitOfLowBit(x: bv32, n: nat)
    requires x & 1 == LowBit(n)
    ensures Bit(x) == n % 2
  {
  }

  lemma U32Step(n: nat)
    requires n != 0 && U32(n / 2) >> 31 == 0
    ensures U32(n) >> 1 == U32(n / 2) && Bit(U32(n)) == n % 2
  {
    U32Shift(n);
    BitOfLowBit(U32(n), n);
  }

  lemma U32NonZero(n: nat)
    requires n != 0 && U32(n / 2) >> 31 == 0 && (U32(n / 2) != 0 || n % 2 == 1)
    ensures U32(n) != 0
  {
    DoubleNonZero(U32(n / 2), LowBit(n));
  }

  lemma HighClearValue(y: bv32)
    requires Value(y) < 0x8000_0000
    ensures y >> 31 == 0
  {
    ValueLowOnes();
    WithinOnes(y, 0x7FFF_FFFF);
    HighClear(y);
  }

  lemma ValueU32Step(n: nat)
    requires 0 < n < WORD_RANGE && Value(U32(n / 2)) == n / 2
    ensures Value(U32(n)) == n
  {
    var h := U32(n / 2);
    HighClearValue(h);
    U32Step(n);
    assert h != 0 || n % 2 == 1 by {
      if n / 2 != 0 {
        assert Value(h) != 0;
      }
    }
    U32NonZero(n);
    Unfold(U32(n));
    assert Value(U32(n)) == 2 * Value(h) + n % 2;
  }

  /** `U32` and `Value` are inverse on `[0, 2^32)`. */
  lemma ValueU32(n: nat)
    requires n < WORD_RANGE
    ensures Value(U32(n)) == n
    decreases n
  {
    if n != 0 {
      ValueU32(n / 2);
      ValueU32Step(n);
    }
  }

  lemma U32Value(x: bv32)
    ensures U32(Value(x)) == x
  {
    ValueBound(x);
    ValueU32(Value(x));
    ValueInjective(U32(Value(x)), x);
  }
}
