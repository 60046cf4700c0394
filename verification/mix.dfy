/** One pass of the mixing loop of `permute` (`src/bin/3_1_shuffle_iterator.rs`, lines 31-55)
    and the proof that, for an all-ones mask `w`, it is one-to-one on the words with no bit
    outside `w`.

    Each step is one-to-one on the low bits selected by `w`: xor with a constant, multiplication
    by an odd constant, and `i ^= (i & w) >> k` (the bits of `i & w` can be recovered from the top
    down).  The last two steps keep only the bits of `w` and fold the word onto itself. */
module Mixing {
  import opened Word

  /** `x` and `y` agree on the bits of `w`. */
  predicate Agree(x: bv32, y: bv32, w: bv32)
  {
    x & w == y & w
  }

  /** One of the 33 all-ones words, listed so that the solver can check a fact about all of
      them one word at a time. */
  predicate MaskWord(w: bv32)
  {
    w in {0x0, 0x1, 0x3, 0x7, 0xF, 0x1F, 0x3F, 0x7F, 0xFF, 0x1FF, 0x3FF, 0x7FF, 0xFFF,
          0x1FFF, 0x3FFF, 0x7FFF, 0xFFFF, 0x1_FFFF, 0x3_FFFF, 0x7_FFFF, 0xF_FFFF,
          0x1F_FFFF, 0x3F_FFFF, 0x7F_FFFF, 0xFF_FFFF, 0x1FF_FFFF, 0x3FF_FFFF,
          0x7FF_FFFF, 0xFFF_FFFF, 0x1FFF_FFFF, 0x3FFF_FFFF, 0x7FFF_FFFF, 0xFFFF_FFFF}
  }

  /** Every all-ones word is listed in `MaskWord`. */
  lemma AllOnesIsMask(w: bv32)
    requires AllOnes(w)
    ensures MaskWord(w)
  {
  }

  // The steps of the loop body.

  function XorWith(i: bv32, c: bv32): bv32 { i ^ c }

  /** `i.wrapping_mul(c)`: `*` on `bv32` wraps around.  The product is reached through one
      step of recursion (`Multiply` with `delay` 1), so the solver expands it only in the proofs
      that call `TimesIsProduct`. */
  function Times(i: bv32, c: bv32): bv32 { Multiply(i, c, 1) }

  function Multiply(i: bv32, c: bv32, delay: nat): bv32
  {
    if delay == 0 then i * c else Multiply(i, c, delay - 1)
  }

  lemma TimesIsProduct(i: bv32, c: bv32)
    ensures Times(i, c) == i * c
  {
    assert Multiply(i, c, 1) == Multiply(i, c, 0);
  }

  function XorShift1(i: bv32, w: bv32): bv32 { i ^ ((i & w) >> 1) }

  function XorShift2(i: bv32, w: bv32): bv32 { i ^ ((i & w) >> 2) }

  function XorShift4(i: bv32, w: bv32): bv32 { i ^ ((i & w) >> 4) }

  function XorShift11(i: bv32, w: bv32): bv32 { i ^ ((i & w) >> 11) }

  /** Statement `k` of lines 31-52.  Like `Times`, it is reached through one step of recursion,
      so that a proof that mentions a pass of the loop expands the table of statements only
      when it calls `StatementIsLine`. */
  function Statement(k: nat, i: bv32, w: bv32, seed: bv32): bv32
  {
    StatementAfter(k, i, w, seed, 1)
  }

  function StatementAfter(k: nat, i: bv32, w: bv32, seed: bv32, delay: nat): bv32
  {
    if delay == 0 then Line(k, i, w, seed) else StatementAfter(k, i, w, seed, delay - 1)
  }

  lemma StatementIsLine(k: nat, i: bv32, w: bv32, seed: bv32)
    ensures Statement(k, i, w, seed) == Line(k, i, w, seed)
  {
    assert StatementAfter(k, i, w, seed, 1) == StatementAfter(k, i, w, seed, 0);
  }

  /** The `k`-th statement of lines 31-52, for `k` in `[0, 16)`, in order (lines 33, 38, 42, 44,
      47, 50 and 53 are comments). */
  function Line(k: nat, i: bv32, w: bv32, seed: bv32): bv32
  {
    match k
    case 0 => XorWith(i, seed)
    case 1 => Times(i, 0xe170893d)
    case 2 => XorWith(i, seed >> 16)
    case 3 => XorShift4(i, w)
    case 4 => XorWith(i, seed >> 8)
    case 5 => Times(i, 0x0929eb3f)
    case 6 => XorWith(i, seed >> 23)
    case 7 => XorShift1(i, w)
    case 8 => Times(i, 1 | (seed >> 27))
    case 9 => Times(i, 0x6935fa69)
    case 10 => XorShift11(i, w)
    case 11 => Times(i, 0x74dcb303)
    case 12 => XorShift2(i, w)
    case 13 => Times(i, 0x9e501cc3)
    case 14 => XorShift2(i, w)
    case _ => Times(i, 0xc860a3df)
  }

  /** The first `k` statements of lines 31-52 applied to `i`. */
  function Run(i: bv32, w: bv32, seed: bv32, k: nat): bv32
  {
    if k == 0 then i else Statement(k - 1, Run(i, w, seed, k - 1), w, seed)
  }

  /** Lines 54-55: keep the bits of `w`, then fold the word onto itself. */
  function Finish(i: bv32, w: bv32): bv32
  {
    Fold5(KeepBits(i, w))
  }

  function KeepBits(i: bv32, w: bv32): bv32 { i & w }

  function Fold5(j: bv32): bv32 { j ^ (j >> 5) }

  /** One pass of the loop body, lines 31-55. */
  function Mix(i: bv32, w: bv32, seed: bv32): bv32
  {
    Finish(Run(i, w, seed, 16), w)
  }

  // Each step can be undone on the bits of `w`.

  lemma XorWithCancel(x: bv32, y: bv32, c: bv32, w: bv32)
    requires Agree(XorWith(x, c), XorWith(y, c), w)
    ensures Agree(x, y, w)
  {
  }

  lemma SubLow(x: bv32, y: bv32, w: bv32)
    requires AllOnes(w) && Agree(x, y, w)
    ensures (x - y) & w == 0
  {
  }

  lemma OddCancel(d: bv32, w: bv32, c: bv32)
    requires AllOnes(w) && (d * c) & w == 0 && c & 1 == 1
    ensures d & w == 0
  {
  }

  lemma ZeroLow(x: bv32, y: bv32, w: bv32)
    requires AllOnes(w) && (y - x) & w == 0
    ensures Agree(x, y, w)
  {
  }

  /** `(x + d) * c - x * c == d * c`, stated so that the solver sees the products as terms. */
  ghost predicate OffsetFact(x: bv32, d: bv32, w: bv32, c: bv32)
    ensures OffsetFact(x, d, w, c)
    ensures AllOnes(w) && Agree((x + d) * c, x * c, w) ==> ((x + d) * c - x * c) & w == 0
  {
    if AllOnes(w) && Agree((x + d) * c, x * c, w) then SubLow((x + d) * c, x * c, w); true else true
  }

  lemma MulOffsetCancel(x: bv32, d: bv32, w: bv32, c: bv32)
    requires AllOnes(w) && c & 1 == 1 && Agree((x + d) * c, x * c, w)
    ensures d & w == 0
  {
    assert OffsetFact(x, d, w, c);
    OddCancel(d, w, c);
  }

  ghost predicate MulOffsetFact(x: bv32, d: bv32, w: bv32, c: bv32)
    ensures MulOffsetFact(x, d, w, c)
    ensures AllOnes(w) && c & 1 == 1 && Agree((x + d) * c, x * c, w) ==> d & w == 0
  {
    if AllOnes(w) && c & 1 == 1 && Agree((x + d) * c, x * c, w) then MulOffsetCancel(x, d, w, c); true else true
  }

  /** Multiplying by an odd constant is one-to-one on the bits of `w`. */
  lemma MulCancel(x: bv32, y: bv32, c: bv32, w: bv32)
    requires AllOnes(w) && c & 1 == 1 && Agree(x * c, y * c, w)
    ensures Agree(x, y, w)
  {
    assert Agree(y * c, x * c, w);
    assert MulOffsetFact(x, y - x, w, c);
    ZeroLow(x, y, w);
  }

  /** Multiplying by an odd constant is one-to-one on the bits of `w`. */
  lemma TimesCancel(x: bv32, y: bv32, c: bv32, w: bv32)
    requires AllOnes(w) && c & 1 == 1 && Agree(Times(x, c), Times(y, c), w)
    ensures Agree(x, y, w)
  {
    TimesIsProduct(x, c);
    TimesIsProduct(y, c);
    MulCancel(x, y, c, w);
  }

  lemma MaskedShift1(x: bv32, y: bv32, w: bv32)
    requires MaskWord(w)
    requires Agree(x ^ ((x & w) >> 1), y ^ ((y & w) >> 1), w)
    ensures Agree(x, y, w)
  {
  }

  lemma MaskedShift2(x: bv32, y: bv32, w: bv32)
    requires MaskWord(w)
    requires Agree(x ^ ((x & w) >> 2), y ^ ((y & w) >> 2), w)
    ensures Agree(x, y, w)
  {
  }

  lemma MaskedShift4(x: bv32, y: bv32, w: bv32)
    requires MaskWord(w)
    requires Agree(x ^ ((x & w) >> 4), y ^ ((y & w) >> 4), w)
    ensures Agree(x, y, w)
  {
  }

  lemma MaskedShift11(x: bv32, y: bv32, w: bv32)
    requires MaskWord(w)
    requires Agree(x ^ ((x & w) >> 11), y ^ ((y & w) >> 11), w)
    ensures Agree(x, y, w)
  {
  }

  lemma XorShift1Cancel(x: bv32, y: bv32, w: bv32)
    requires AllOnes(w) && Agree(XorShift1(x, w), XorShift1(y, w), w)
    ensures Agree(x, y, w)
  {
    AllOnesIsMask(w);
    MaskedShift1(x, y, w);
  }

  lemma XorShift2Cancel(x: bv32, y: bv32, w: bv32)
    requires AllOnes(w) && Agree(XorShift2(x, w), XorShift2(y, w), w)
    ensures Agree(x, y, w)
  {
    AllOnesIsMask(w);
    MaskedShift2(x, y, w);
  }

  lemma XorShift4Cancel(x: bv32, y: bv32, w: bv32)
    requires AllOnes(w) && Agree(XorShift4(x, w), XorShift4(y, w), w)
    ensures Agree(x, y, w)
  {
    AllOnesIsMask(w);
    MaskedShift4(x, y, w);
  }

  lemma XorShift11Cancel(x: bv32, y: bv32, w: bv32)
    requires AllOnes(w) && Agree(XorShift11(x, w), XorShift11(y, w), w)
    ensures Agree(x, y, w)
  {
    AllOnesIsMask(w);
    MaskedShift11(x, y, w);
  }

  /** Each statement can be undone on the bits of `w`. */
  lemma StatementCancel(k: nat, x: bv32, y: bv32, w: bv32, seed: bv32)
    requires AllOnes(w) && Agree(Statement(k, x, w, seed), Statement(k, y, w, seed), w)
    ensures Agree(x, y, w)
  {
    StatementIsLine(k, x, w, seed);
    StatementIsLine(k, y, w, seed);
    if k < 4 {
      CancelLines31To35(k, x, y, w, seed);
    } else if k < 8 {
      CancelLines36To40(k, x, y, w, seed);
    } else if k < 11 {
      CancelLines41To45(k, x, y, w, seed);
    } else if k < 14 {
      CancelLines46To49(k, x, y, w, seed);
    } else {
      CancelLines51To52(k, x, y, w, seed);
    }
  }

  lemma CancelLines31To35(k: nat, x: bv32, y: bv32, w: bv32, seed: bv32)
    requires k < 4 && AllOnes(w)
    requires Agree(Line(k, x, w, seed), Line(k, y, w, seed), w)
    ensures Agree(x, y, w)
  {
    if k == 0 {
      XorWithCancel(x, y, seed, w);
    } else if k == 1 {
      TimesCancel(x, y, 0xe170893d, w);
    } else if k == 2 {
      XorWithCancel(x, y, seed >> 16, w);
    } else {
      XorShift4Cancel(x, y, w);
    }
  }

  lemma CancelLines36To40(k: nat, x: bv32, y: bv32, w: bv32, seed: bv32)
    requires 4 <= k < 8 && AllOnes(w)
    requires Agree(Line(k, x, w, seed), Line(k, y, w, seed), w)
    ensures Agree(x, y, w)
  {
    if k == 4 {
      XorWithCancel(x, y, seed >> 8, w);
    } else if k == 5 {
      TimesCancel(x, y, 0x0929eb3f, w);
    } else if k == 6 {
      XorWithCancel(x, y, seed >> 23, w);
    } else {
      XorShift1Cancel(x, y, w);
    }
  }

  lemma CancelLines41To45(k: nat, x: bv32, y: bv32, w: bv32, seed: bv32)
    requires 8 <= k < 11 && AllOnes(w)
    requires Agree(Line(k, x, w, seed), Line(k, y, w, seed), w)
    ensures Agree(x, y, w)
  {
    if k == 8 {
      TimesCancel(x, y, 1 | (seed >> 27), w);
    } else if k == 9 {
      TimesCancel(x, y, 0x6935fa69, w);
    } else {
      XorShift11Cancel(x, y, w);
    }
  }

  lemma CancelLines46To49(k: nat, x: bv32, y: bv32, w: bv32, seed: bv32)
    requires 11 <= k < 14 && AllOnes(w)
    requires Agree(Line(k, x, w, seed), Line(k, y, w, seed), w)
    ensures Agree(x, y, w)
  {
    if k == 11 {
      TimesCancel(x, y, 0x74dcb303, w);
    } else if k == 12 {
      XorShift2Cancel(x, y, w);
    } else {
      TimesCancel(x, y, 0x9e501cc3, w);
    }
  }

  lemma CancelLines51To52(k: nat, x: bv32, y: bv32, w: bv32, seed: bv32)
    requires 14 <= k && AllOnes(w)
    requires Agree(Line(k, x, w, seed), Line(k, y, w, seed), w)
    ensures Agree(x, y, w)
  {
    if k == 14 {
      XorShift2Cancel(x, y, w);
    } else {
      TimesCancel(x, y, 0xc860a3df, w);
    }
  }

  /** So can any number of them. */
  lemma {:induction false} RunCancel(k: nat, x: bv32, y: bv32, w: bv32, seed: bv32)
    requires AllOnes(w) && Agree(Run(x, w, seed, k), Run(y, w, seed, k), w)
    ensures Agree(x, y, w)
  {
    if k > 0 {
      StatementCancel(k - 1, Run(x, w, seed, k - 1), Run(y, w, seed, k - 1), w, seed);
      RunCancel(k - 1, x, y, w, seed);
    }
  }

  /** Lines 31-35 as one expression. */
  lemma RunLines31To35(i: bv32, w: bv32, seed: bv32)
    ensures Run(i, w, seed, 4) == XorShift4(XorWith(Times(XorWith(i, seed), 0xe170893d), seed >> 16), w)
  {
    StatementIsLine(3, Run(i, w, seed, 3), w, seed);
    StatementIsLine(0, i, w, seed);
    assert Run(i, w, seed, 1) == XorWith(i, seed);
    StatementIsLine(1, Run(i, w, seed, 1), w, seed);
    assert Run(i, w, seed, 2) == Times(Run(i, w, seed, 1), 0xe170893d);
    StatementIsLine(2, Run(i, w, seed, 2), w, seed);
    assert Run(i, w, seed, 3) == XorWith(Run(i, w, seed, 2), seed >> 16);
  }

  /** Lines 36-40 as one expression. */
  lemma RunLines36To40(i: bv32, w: bv32, seed: bv32)
    ensures Run(i, w, seed, 8) ==
            XorShift1(XorWith(Times(XorWith(Run(i, w, seed, 4), seed >> 8), 0x0929eb3f), seed >> 23), w)
  {
    StatementIsLine(7, Run(i, w, seed, 7), w, seed);
    StatementIsLine(4, Run(i, w, seed, 4), w, seed);
    assert Run(i, w, seed, 5) == XorWith(Run(i, w, seed, 4), seed >> 8);
    StatementIsLine(5, Run(i, w, seed, 5), w, seed);
    assert Run(i, w, seed, 6) == Times(Run(i, w, seed, 5), 0x0929eb3f);
    StatementIsLine(6, Run(i, w, seed, 6), w, seed);
    assert Run(i, w, seed, 7) == XorWith(Run(i, w, seed, 6), seed >> 23);
  }

  /** Lines 41-45 as one expression. */
  lemma RunLines41To45(i: bv32, w: bv32, seed: bv32)
    ensures Run(i, w, seed, 11) ==
            XorShift11(Times(Times(Run(i, w, seed, 8), 1 | (seed >> 27)), 0x6935fa69), w)
  {
    StatementIsLine(10, Run(i, w, seed, 10), w, seed);
    StatementIsLine(8, Run(i, w, seed, 8), w, seed);
    assert Run(i, w, seed, 9) == Times(Run(i, w, seed, 8), 1 | (seed >> 27));
    StatementIsLine(9, Run(i, w, seed, 9), w, seed);
    assert Run(i, w, seed, 10) == Times(Run(i, w, seed, 9), 0x6935fa69);
  }

  /** Lines 46-49 as one expression. */
  lemma RunLines46To49(i: bv32, w: bv32, seed: bv32)
    ensures Run(i, w, seed, 14) ==
            Times(XorShift2(Times(Run(i, w, seed, 11), 0x74dcb303), w), 0x9e501cc3)
  {
    StatementIsLine(13, Run(i, w, seed, 13), w, seed);
    StatementIsLine(11, Run(i, w, seed, 11), w, seed);
    assert Run(i, w, seed, 12) == Times(Run(i, w, seed, 11), 0x74dcb303);
    StatementIsLine(12, Run(i, w, seed, 12), w, seed);
    assert Run(i, w, seed, 13) == XorShift2(Run(i, w, seed, 12), w);
  }

  /** Lines 51-52 as one expression. */
  lemma RunLines51To52(i: bv32, w: bv32, seed: bv32)
    ensures Run(i, w, seed, 16) == Times(XorShift2(Run(i, w, seed, 14), w), 0xc860a3df)
  {
    StatementIsLine(15, Run(i, w, seed, 15), w, seed);
    StatementIsLine(14, Run(i, w, seed, 14), w, seed);
    assert Run(i, w, seed, 15) == XorShift2(Run(i, w, seed, 14), w);
  }

  lemma Fold5Zero(d: bv32)
    requires Fold5(d) == 0
    ensures d == 0
  {
  }

  lemma Fold5Linear(x: bv32, y: bv32)
    ensures (x ^ (x >> 5)) ^ (y ^ (y >> 5)) == (x ^ y) ^ ((x ^ y) >> 5)
  {
  }

  lemma Fold5Injective(x: bv32, y: bv32)
    requires Fold5(x) == Fold5(y)
    ensures x == y
  {
    Fold5Linear(x, y);
    Fold5Zero(x ^ y);
  }

  lemma FinishCancel(a: bv32, b: bv32, w: bv32)
    requires Finish(a, w) == Finish(b, w)
    ensures Agree(a, b, w)
  {
    Fold5Injective(a & w, b & w);
  }

  /** A pass of the loop maps words within `w` to words within `w`. */
  lemma MixWithin(x: bv32, w: bv32, seed: bv32)
    requires AllOnes(w)
    ensures Mix(x, w, seed) & w == Mix(x, w, seed)
  {
    AllOnesIsMask(w);
  }

  /** A pass of the loop is one-to-one on the words within `w`. */
  lemma MixInjective(x: bv32, y: bv32, w: bv32, seed: bv32)
    requires AllOnes(w) && x & w == x && y & w == y
    requires Mix(x, w, seed) == Mix(y, w, seed)
    ensures x == y
  {
    FinishCancel(Run(x, w, seed, 16), Run(y, w, seed, 16), w);
    RunCancel(16, x, y, w, seed);
  }
}
