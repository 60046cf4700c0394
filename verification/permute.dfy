/** `permute` of `src/bin/3_1_shuffle_iterator.rs` (lines 22-62): Kensler's hash-based
    permutation of `[0, length)` by cycle walking.

    The mask `w` is the smallest all-ones word covering `length - 1`.  One pass of the loop
    (`Mix`) is one-to-one on the words within `w`, so it permutes that finite set and every
    start below `length` comes back below `length` within `Value(w) + 1` passes; the first such
    word (`Walk`) is therefore a one-to-one map of `[0, length)` to itself.  The final rotation
    by `seed` keeps it one-to-one only if the sum `i + seed` does not wrap around. */
module Permutation {
  import opened Word
  import opened Mixing
  import opened CycleWalk

  /** Lines 23-28: `length - 1` with every bit below its highest set bit switched on. */
  function Mask(length: bv32): bv32
  {
    var w0 := length - 1;
    var w1 := w0 | (w0 >> 1);
    var w2 := w1 | (w1 >> 2);
    var w3 := w2 | (w2 >> 4);
    var w4 := w3 | (w3 >> 8);
    w4 | (w4 >> 16)
  }

  lemma MaskAllOnes(length: bv32)
    ensures AllOnes(Mask(length))
  {
  }

  lemma MaskCoversBits(length: bv32)
    ensures (length - 1) & Mask(length) == length - 1
  {
  }

  lemma MaskTightBits(length: bv32)
    requires Mask(length) != 0
    ensures (length - 1) & (Mask(length) >> 1) != length - 1
    ensures AllOnes(Mask(length) >> 1)
  {
  }

  /** The mask is of the form `2^k - 1`, covers `length - 1`, and no smaller such word does. */
  lemma MaskShape(length: bv32)
    requires length != 0
    ensures AllOnes(Mask(length))
    ensures Value(length) <= Value(Mask(length)) + 1
    ensures Mask(length) != 0 ==> Value(Mask(length) >> 1) + 1 < Value(length)
  {
    MaskAllOnes(length);
    MaskCoversBits(length);
    ValueSub(length - 1, Mask(length));
    ValuePred(length);
    if Mask(length) != 0 {
      MaskTightBits(length);
      ValueOutside(length - 1, Mask(length) >> 1);
    }
  }

  lemma MaskZeroBits(length: bv32)
    ensures Mask(length) == 0 ==> length == 1
    ensures length == 1 ==> Mask(length) == 0
  {
  }

  /** The mask is zero exactly for a one-element range. */
  lemma MaskZero(length: bv32)
    ensures Mask(length) == 0 ==> Value(length) == 1
    ensures Value(length) == 1 ==> Mask(length) == 0
  {
    MaskZeroBits(length);
    if Value(length) == 1 {
      assert Value(1) == 1;
      ValueInjective(length, 1);
    }
    if length == 1 {
      assert Value(1) == 1;
    }
  }

  /** The loop's exit test, lines 56-58: `i < length` on unsigned words. */
  predicate Below(i: bv32, length: bv32)
  {
    Value(i) < Value(length)
  }

  /** The exit test as a predicate on words. */
  function Exit(length: bv32): bv32 -> bool
  {
    j => Below(j, length)
  }

  /** Every index below `length` lies within the mask. */
  lemma WithinMask(x: bv32, length: bv32)
    requires Below(x, length)
    ensures Within(x, Mask(length))
  {
    assert length != 0;
    MaskShape(length);
    WithinOnes(x, Mask(length));
  }

  // ---- The cycle walk, lines 30-59 ----

  /** One pass of the loop body, as a map on words. */
  function Pass(w: bv32, seed: bv32): bv32 -> bv32
  {
    i => Mix(i, w, seed)
  }

  /** For an all-ones `w`, a pass permutes the words within `w`. */
  lemma PassPermutes(w: bv32, seed: bv32)
    requires AllOnes(w)
    ensures PermutesWithin(Pass(w, seed), w)
  {
    forall x | Within(x, w)
      ensures Within(Pass(w, seed)(x), w)
    {
      MixWithin(x, w, seed);
    }
    forall x, y | Within(x, w) && Within(y, w) && Pass(w, seed)(x) == Pass(w, seed)(y)
      ensures x == y
    {
      MixInjective(x, y, w, seed);
    }
  }

  /** Lines 30-59 as a function: the first word below `length` on the walk from `idx`. */
  function Walk(idx: bv32, length: bv32, seed: bv32): bv32
  {
    WalkFrom(Pass(Mask(length), seed), Exit(length), idx, Value(Mask(length)))
  }

  /** The number of passes the loop makes. */
  function WalkPasses(idx: bv32, length: bv32, seed: bv32): nat
  {
    Passes(Pass(Mask(length), seed), Exit(length), idx, Value(Mask(length)))
  }

  /** The facts about the mask that the walk needs. */
  lemma WalkSetting(x: bv32, length: bv32, seed: bv32)
    requires Below(x, length)
    ensures PermutesWithin(Pass(Mask(length), seed), Mask(length))
    ensures Within(x, Mask(length))
  {
    MaskShape(length);
    PassPermutes(Mask(length), seed);
    WithinMask(x, length);
  }

  /** The loop stops after the first pass that lands below `length`, and it always gets there. */
  lemma WalkStops(idx: bv32, length: bv32, seed: bv32)
    requires Below(idx, length)
    ensures WalkPasses(idx, length, seed) >= 1
    ensures Walk(idx, length, seed) == Iter(Pass(Mask(length), seed), idx, WalkPasses(idx, length, seed))
    ensures Below(Walk(idx, length, seed), length)
    ensures forall k :: 1 <= k < WalkPasses(idx, length, seed) ==>
              !Below(Iter(Pass(Mask(length), seed), idx, k), length)
  {
    WalkSetting(idx, length, seed);
    WalkExits(Pass(Mask(length), seed), Exit(length), Mask(length), idx);
  }

  /** One more pass of the loop: either it lands below `length`, and that is the walk's end,
      or the walk goes on. */
  lemma WalkNext(idx: bv32, length: bv32, seed: bv32, n: nat)
    requires Below(idx, length) && n < WalkPasses(idx, length, seed)
    ensures Iter(Pass(Mask(length), seed), idx, n + 1) == Pass(Mask(length), seed)(Iter(Pass(Mask(length), seed), idx, n))
    ensures Below(Iter(Pass(Mask(length), seed), idx, n + 1), length) ==>
              Iter(Pass(Mask(length), seed), idx, n + 1) == Walk(idx, length, seed)
    ensures !Below(Iter(Pass(Mask(length), seed), idx, n + 1), length) ==> n + 1 < WalkPasses(idx, length, seed)
  {
    WalkSetting(idx, length, seed);
    WalkStep(Pass(Mask(length), seed), Exit(length), Mask(length), idx, n);
  }

  /** The walk is one-to-one on `[0, length)`. */
  lemma WalkOneToOne(x: bv32, y: bv32, length: bv32, seed: bv32)
    requires Below(x, length) && Below(y, length)
    requires Walk(x, length, seed) == Walk(y, length, seed)
    ensures x == y
  {
    WalkSetting(x, length, seed);
    WalkSetting(y, length, seed);
    WalkInjective(Pass(Mask(length), seed), Exit(length), Mask(length), x, y);
  }

  // ---- The rotation, line 61 ----

  /** Line 61 as written in release builds: `i + seed` wraps around at `2^32` before the
      remainder is taken (debug builds stop with an overflow panic instead). */
  function RotateWrapping(i: bv32, seed: bv32, length: bv32): bv32
    requires length != 0
  {
    assert Value(length) > 0 by { ValuePositive(length); }
    U32(((Value(i) + Value(seed)) % WORD_RANGE) % Value(length))
  }

  /** Line 61 with the sum computed without overflow. */
  function Rotate(i: bv32, seed: bv32, length: bv32): bv32
    requires length != 0
  {
    assert Value(length) > 0 by { ValuePositive(length); }
    U32((Value(i) + Value(seed)) % Value(length))
  }

  /** Adding the same `s` to two numbers of `[0, l)` keeps them apart modulo `l`. */
  lemma ShiftMod(a: int, b: int, s: int, l: int)
    requires 0 <= a < l && 0 <= b < l && 0 <= s
    requires (a + s) % l == (b + s) % l
    ensures a == b
  {
    var qa, qb := (a + s) / l, (b + s) / l;
    assert a + s == qa * l + (a + s) % l;
    assert b + s == qb * l + (b + s) % l;
    assert a - b == qa * l - qb * l;
    MulDiff(qa, qb, l);
    SmallMultiple(qa - qb, l);
  }

  lemma MulDiff(x: int, y: int, l: int)
    ensures x * l - y * l == (x - y) * l
  {
  }

  /** The only multiple of `l` strictly between `-l` and `l` is zero. */
  lemma SmallMultiple(d: int, l: int)
    requires 0 < l && -l < d * l < l
    ensures d == 0
  {
    if d >= 1 {
      MulAtLeast(d, l);
    } else if d <= -1 {
      MulAtLeast(-d, l);
    }
  }

  lemma MulAtLeast(d: int, l: int)
    requires 1 <= d && 0 < l
    ensures l <= d * l
  {
    assert d * l == (d - 1) * l + l;
    assert 0 <= (d - 1) * l;
  }

  /** The rotation (without overflow) is one-to-one on `[0, length)` and stays below `length`. */
  lemma RotateInjective(x: bv32, y: bv32, seed: bv32, length: bv32)
    requires Below(x, length) && Below(y, length)
    requires Rotate(x, seed, length) == Rotate(y, seed, length)
    ensures x == y
  {
    ValuePositive(length);
    ValueBound(length);
    ValueU32((Value(x) + Value(seed)) % Value(length));
    ValueU32((Value(y) + Value(seed)) % Value(length));
    ShiftMod(Value(x), Value(y), Value(seed), Value(length));
    ValueInjective(x, y);
  }

  lemma RotateBelow(i: bv32, seed: bv32, length: bv32)
    requires length != 0
    ensures Below(Rotate(i, seed, length), length)
    ensures Value(Rotate(i, seed, length)) == (Value(i) + Value(seed)) % Value(length)
  {
    ValuePositive(length);
    ValueBound(length);
    ValueU32((Value(i) + Value(seed)) % Value(length));
  }

  // ---- permute ----

  /** What `permute(idx, length, seed)` returns. */
  function PermuteSpec(idx: bv32, length: bv32, seed: bv32): bv32
    requires length != 0
  {
    Rotate(Walk(idx, length, seed), seed, length)
  }

  /** `permute` maps `[0, length)` into itself ... */
  lemma PermuteBelow(idx: bv32, length: bv32, seed: bv32)
    requires Below(idx, length)
    ensures length != 0 && Below(PermuteSpec(idx, length, seed), length)
  {
    RotateBelow(Walk(idx, length, seed), seed, length);
  }

  /** ... one-to-one, hence a permutation of `[0, length)`. */
  lemma PermuteInjective(x: bv32, y: bv32, length: bv32, seed: bv32)
    requires Below(x, length) && Below(y, length)
    requires PermuteSpec(x, length, seed) == PermuteSpec(y, length, seed)
    ensures x == y
  {
    WalkStops(x, length, seed);
    WalkStops(y, length, seed);
    RotateInjective(Walk(x, length, seed), Walk(y, length, seed), seed, length);
    WalkOneToOne(x, y, length, seed);
  }

  /** A one-element range has only the index 0. */
  lemma PermuteSingle(seed: bv32)
    ensures PermuteSpec(0, 1, seed) == 0
  {
    assert Value(1) == 1;
    PermuteBelow(0, 1, seed);
    var r := PermuteSpec(0, 1, seed);
    if r != 0 {
      ValuePositive(r);
    }
  }

  /** One pass of the loop body, lines 31-55, statement by statement. */
  method MixPass(i0: bv32, w: bv32, seed: bv32) returns (i: bv32)
    ensures i == Pass(w, seed)(i0)
  {
    RunLines31To35(i0, w, seed);
    RunLines36To40(i0, w, seed);
    RunLines41To45(i0, w, seed);
    RunLines46To49(i0, w, seed);
    RunLines51To52(i0, w, seed);
    i := i0;
    i := XorWith(i, seed);
    i := Times(i, 0xe170893d);
    i := XorWith(i, seed >> 16);
    i := XorShift4(i, w);
    i := XorWith(i, seed >> 8);
    i := Times(i, 0x0929eb3f);
    i := XorWith(i, seed >> 23);
    i := XorShift1(i, w);
    i := Times(i, 1 | (seed >> 27));
    i := Times(i, 0x6935fa69);
    i := XorShift11(i, w);
    i := Times(i, 0x74dcb303);
    i := XorShift2(i, w);
    i := Times(i, 0x9e501cc3);
    i := XorShift2(i, w);
    i := Times(i, 0xc860a3df);
    i := KeepBits(i, w);
    i := Fold5(i);
  }

  /** Lines 30-59: passes of the loop body until the word is below `length`. */
  method WalkLoop(idx: bv32, length: bv32, seed: bv32, w: bv32) returns (i: bv32)
    requires Below(idx, length) && w == Mask(length)
    ensures i == Walk(idx, length, seed)
  {
    i := idx;
    WalkStops(idx, length, seed);
    ghost var n: nat := 0;
    while true
      invariant n < WalkPasses(idx, length, seed) && i == Iter(Pass(w, seed), idx, n)
      decreases WalkPasses(idx, length, seed) - n
    {
      WalkNext(idx, length, seed, n);
      i := MixPass(i, w, seed);
      n := n + 1;
      ValueOrder(i, length);
      if i < length {
        break;
      }
    }
  }

  /** Lines 22-62, with the sum on line 61 computed without overflow. */
  method Permute(idx: bv32, length: bv32, seed: bv32) returns (r: bv32)
    requires Value(idx) < Value(length)
    ensures length != 0 && r == PermuteSpec(idx, length, seed)
    ensures Value(r) < Value(length)
  {
    var w := Mask(length);
    var i := WalkLoop(idx, length, seed, w);
    r := Rotate(i, seed, length);
    PermuteBelow(idx, length, seed);
  }

  // ---- Overflow on line 61 ----

  /** `permute` as written (release build): the wrapped sum on line 61. */
  function PermuteWrapping(idx: bv32, length: bv32, seed: bv32): bv32
    requires length != 0
  {
    RotateWrapping(Walk(idx, length, seed), seed, length)
  }

  /** Even wrapped, line 61 lands below `length`. */
  lemma RotateWrappingBelow(i: bv32, seed: bv32, length: bv32)
    requires length != 0
    ensures Below(RotateWrapping(i, seed, length), length)
  {
    ValuePositive(length);
    ValueBound(length);
    ValueU32(((Value(i) + Value(seed)) % WORD_RANGE) % Value(length));
  }

  /** When `length + seed` fits in a word, the sum on line 61 cannot wrap, and `permute` as
      written is `PermuteSpec`, a permutation of `[0, length)`. */
  lemma PermuteWrappingAgrees(idx: bv32, length: bv32, seed: bv32)
    requires Below(idx, length) && Value(length) + Value(seed) <= WORD_RANGE
    ensures length != 0 && PermuteWrapping(idx, length, seed) == PermuteSpec(idx, length, seed)
  {
    WalkStops(idx, length, seed);
    RotateNoWrap(Walk(idx, length, seed), seed, length);
  }

  /** Without a carry out of the top bit, the wrapped rotation is the rotation. */
  lemma RotateNoWrap(i: bv32, seed: bv32, length: bv32)
    requires length != 0 && Value(i) + Value(seed) < WORD_RANGE
    ensures RotateWrapping(i, seed, length) == Rotate(i, seed, length)
  {
    var s := Value(i) + Value(seed);
    ModExact(s, 0, s, WORD_RANGE);
  }

  lemma ValueAllOnes()
    ensures Value(0xFFFF_FFFF) == 0xFFFF_FFFF
  {
    ValueLowOnes();
    Unfold(0xFFFF_FFFF);
  }

  /** One pass from 1 with `w = 3` and `seed = 0xFFFF_FFFF`, statement group by statement group. */
  lemma MixOneAtSeedOnes()
    ensures Mix(1, 3, 0xFFFF_FFFF) == 1
  {
    RunLines31To35(1, 3, 0xFFFF_FFFF);
    TimesIsProduct(0xffff_fffe, 0xe170893d);
    assert Run(1, 3, 0xFFFF_FFFF, 4) == 0x3d1e_1279;
    RunLines36To40(1, 3, 0xFFFF_FFFF);
    TimesIsProduct(0x3de1_ed86, 0x0929eb3f);
    assert Run(1, 3, 0xFFFF_FFFF, 8) == 0x6019_7405;
    RunLines41To45(1, 3, 0xFFFF_FFFF);
    TimesIsProduct(0x6019_7405, 0x1f);
    TimesIsProduct(0xa315_0c9b, 0x6935fa69);
    assert Run(1, 3, 0xFFFF_FFFF, 11) == 0xa108_8993;
    RunLines46To49(1, 3, 0xFFFF_FFFF);
    TimesIsProduct(0xa108_8993, 0x74dcb303);
    TimesIsProduct(0xb19f_65b9, 0x9e501cc3);
    assert Run(1, 3, 0xFFFF_FFFF, 14) == 0xb35a_b7eb;
    RunLines51To52(1, 3, 0xFFFF_FFFF);
    TimesIsProduct(0xb35a_b7eb, 0xc860a3df);
    assert Run(1, 3, 0xFFFF_FFFF, 16) == 0x8f40_d6b5;
  }

  /** One pass from 2 with `w = 3` and `seed = 0xFFFF_FFFF`. */
  lemma MixTwoAtSeedOnes()
    ensures Mix(2, 3, 0xFFFF_FFFF) == 0
  {
    RunLines31To35(2, 3, 0xFFFF_FFFF);
    TimesIsProduct(0xffff_fffd, 0xe170893d);
    assert Run(2, 3, 0xFFFF_FFFF, 4) == 0x5bae_9bb6;
    RunLines36To40(2, 3, 0xFFFF_FFFF);
    TimesIsProduct(0x5b51_6449, 0x0929eb3f);
    assert Run(2, 3, 0xFFFF_FFFF, 8) == 0xd0c7_b108;
    RunLines41To45(2, 3, 0xFFFF_FFFF);
    TimesIsProduct(0xd0c7_b108, 0x1f);
    TimesIsProduct(0x482e_6ff8, 0x6935fa69);
    assert Run(2, 3, 0xFFFF_FFFF, 11) == 0xdabc_1cb8;
    RunLines46To49(2, 3, 0xFFFF_FFFF);
    TimesIsProduct(0xdabc_1cb8, 0x74dcb303);
    TimesIsProduct(0x2668_fe28, 0x9e501cc3);
    assert Run(2, 3, 0xFFFF_FFFF, 14) == 0xda45_f878;
    RunLines51To52(2, 3, 0xFFFF_FFFF);
    TimesIsProduct(0xda45_f878, 0xc860a3df);
    assert Run(2, 3, 0xFFFF_FFFF, 16) == 0x9d27_d888;
  }

  /** From 1 the loop stops after its first pass, on 1. */
  lemma WalkOneAtSeedOnes()
    ensures Walk(1, 3, 0xFFFF_FFFF) == 1
  {
    assert Value(3) == 3 && Value(1) == 1;
    assert Mask(3) == 3;
    MixOneAtSeedOnes();
    assert Exit(3)(1);
  }

  /** From 2 the loop stops after its first pass, on 0. */
  lemma WalkTwoAtSeedOnes()
    ensures Walk(2, 3, 0xFFFF_FFFF) == 0
  {
    assert Value(3) == 3 && Value(0) == 0;
    assert Mask(3) == 3;
    MixTwoAtSeedOnes();
    assert Exit(3)(0);
  }

  /** The sum on line 61 taken modulo 2^32 for `seed = 0xFFFF_FFFF`: 1 wraps to 0. */
  lemma WrappedSumAtSeedOnes()
    ensures (Value(1) + Value(0xFFFF_FFFF)) % WORD_RANGE == 0
    ensures (Value(0) + Value(0xFFFF_FFFF)) % WORD_RANGE == 0xFFFF_FFFF
  {
    ValueAllOnes();
    assert Value(1) == 1 && Value(0) == 0;
  }

  /** Line 61 (as written) once the wrapped sum and the length are known numbers. */
  lemma RotateWrappingAt(i: bv32, seed: bv32, length: bv32, sum: nat, len: nat)
    requires (Value(i) + Value(seed)) % WORD_RANGE == sum
    requires Value(length) == len && len > 0
    ensures length != 0 && RotateWrapping(i, seed, length) == U32(sum % len)
  {
  }

  /** The remainder is the unique `r` in `[0, l)` with `a = q * l + r`. */
  lemma ModExact(a: int, q: int, r: int, l: int)
    requires 0 <= r < l && a == q * l + r
    ensures a % l == r
  {
    assert a == (a / l) * l + a % l;
    MulDiff(q, a / l, l);
    SmallMultiple(q - a / l, l);
  }

  /** Line 61 as written for `seed = 0xFFFF_FFFF` and `length = 3`: 1 and 0 both give 0. */
  lemma RotateWrappingAtSeedOnes()
    ensures RotateWrapping(1, 0xFFFF_FFFF, 3) == 0
    ensures RotateWrapping(0, 0xFFFF_FFFF, 3) == 0
  {
    WrappedSumAtSeedOnes();
    assert Value(3) == 3;
    RotateWrappingAt(1, 0xFFFF_FFFF, 3, 0, 3);
    RotateWrappingAt(0, 0xFFFF_FFFF, 3, 0xFFFF_FFFF, 3);
    ModExact(0, 0, 0, 3);
    ModExact(0xFFFF_FFFF, 0x5555_5555, 0, 3);
    assert U32(0) == 0;
  }

  /** With `seed = 0xFFFF_FFFF` and `length = 3`, the indices 1 and 2 both land on 0:
      the wrapped sum makes `permute` miss index 2 and repeat index 0. */
  lemma PermuteWrappingCollides()
    ensures PermuteWrapping(1, 3, 0xFFFF_FFFF) == PermuteWrapping(2, 3, 0xFFFF_FFFF) == 0
  {
    WalkOneAtSeedOnes();
    WalkTwoAtSeedOnes();
    RotateWrappingAtSeedOnes();
  }
}
