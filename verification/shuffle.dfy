/** The shuffle iterator of `src/bin/3_1_shuffle_iterator.rs`.

    The iterator borrows a slice and never copies or reorders it: its `k`-th call of `next()`
    yields `data[permute(k, len, seed)]`.  Because `permute` is one-to-one on `[0, len)`, the
    indices it visits are a rearrangement of `0, ..., len - 1`, so draining the iterator yields
    every element of the slice exactly once. */
module Shuffle {
  import opened Options
  import opened Word
  import opened Permutation

  // ---- Rearranging a sequence by a list of distinct indices ----

  /** No index occurs twice in `s`. */
  predicate Distinct(s: seq<nat>)
  {
    forall i, j :: 0 <= i < j < |s| ==> s[i] != s[j]
  }

  /** Every index in `s` is below `n`. */
  predicate AllBelow(s: seq<nat>, n: nat)
  {
    forall i :: 0 <= i < |s| ==> s[i] < n
  }

  /** The elements of `d` at the indices `s`, in the order of `s`. */
  function Pick<T>(d: seq<T>, s: seq<nat>): seq<T>
    requires AllBelow(s, |d|)
  {
    seq(|s|, i requires 0 <= i < |s| => d[s[i]])
  }

  /** `s` with its `k`-th entry taken out. */
  function Without<T>(s: seq<T>, k: nat): (r: seq<T>)
    requires k < |s|
    ensures |r| == |s| - 1
    ensures forall i :: 0 <= i < k ==> r[i] == s[i]
    ensures forall i :: k <= i < |r| ==> r[i] == s[i + 1]
  {
    s[..k] + s[k + 1..]
  }

  lemma WithoutDistinct(s: seq<nat>, k: nat)
    requires k < |s| && Distinct(s)
    ensures Distinct(Without(s, k))
  {
    var r := Without(s, k);
    forall i, j | 0 <= i < j < |r|
      ensures r[i] != r[j]
    {
      var i', j' := if i < k then i else i + 1, if j < k then j else j + 1;
      assert r[i] == s[i'] && r[j] == s[j'] && i' < j';
    }
  }

  /** Taking out the only occurrence of `n - 1` leaves indices below `n - 1`. */
  lemma WithoutTop(s: seq<nat>, n: nat, k: nat)
    requires k < |s| && Distinct(s) && AllBelow(s, n) && s[k] == n - 1
    ensures AllBelow(Without(s, k), n - 1)
  {
    var r := Without(s, k);
    forall i | 0 <= i < |r|
      ensures r[i] < n - 1
    {
      var i' := if i < k then i else i + 1;
      assert r[i] == s[i'] && i' != k;
    }
  }

  /** Pigeonhole: at most `m` distinct indices lie below `m`. */
  lemma {:induction false} DistinctBound(s: seq<nat>, m: nat)
    requires Distinct(s) && AllBelow(s, m)
    ensures |s| <= m
  {
    if s != [] {
      assert s[0] < m;
      if k :| 0 <= k < |s| && s[k] == m - 1 {
        WithoutDistinct(s, k);
        WithoutTop(s, m, k);
        DistinctBound(Without(s, k), m - 1);
      } else {
        assert AllBelow(s, m - 1);
        DistinctBound(s, m - 1);
      }
    }
  }

  /** `n` distinct indices below `n` take every value below `n`, in particular `n - 1`. */
  lemma HitsTop(s: seq<nat>, n: nat) returns (k: nat)
    requires 0 < n && |s| == n && Distinct(s) && AllBelow(s, n)
    ensures k < n && s[k] == n - 1
  {
    if forall i :: 0 <= i < |s| ==> s[i] != n - 1 {
      assert AllBelow(s, n - 1);
      DistinctBound(s, n - 1);
      assert false;
    }
    k :| 0 <= k < |s| && s[k] == n - 1;
  }

  /** Taking out the `k`-th entry takes one copy of it out of the multiset. */
  lemma WithoutMultiset<T>(p: seq<T>, k: nat)
    requires k < |p|
    ensures multiset(p) == multiset(Without(p, k)) + multiset{p[k]}
  {
    assert p == p[..k] + [p[k]] + p[k + 1..];
  }

  /** Leaving out index `k` before picking is leaving out the `k`-th pick. */
  lemma PickWithout<T>(d: seq<T>, s: seq<nat>, k: nat)
    requires k < |s| && 0 < |d| && AllBelow(s, |d|) && AllBelow(Without(s, k), |d| - 1)
    ensures Pick(d[..|d| - 1], Without(s, k)) == Without(Pick(d, s), k)
  {
  }

  /** Picking the elements of `d` at `|d|` distinct indices rearranges `d`. */
  lemma {:induction false} PickPermutes<T>(d: seq<T>, s: seq<nat>)
    requires |s| == |d| && Distinct(s) && AllBelow(s, |d|)
    ensures multiset(Pick(d, s)) == multiset(d)
    decreases |d|
  {
    var n := |d|;
    if n > 0 {
      var k := HitsTop(s, n);
      WithoutDistinct(s, k);
      WithoutTop(s, n, k);
      PickPermutes(d[..n - 1], Without(s, k));
      PickWithout(d, s, k);
      WithoutMultiset(Pick(d, s), k);
      WithoutMultiset(d, n - 1);
      assert Without(d, n - 1) == d[..n - 1];
    }
  }

  // ---- The order of the shuffle ----

  /** The index `next()` reads on its `k`-th call over a slice of length `n`
      (lines 73-74: `permute(k as u32, n as u32, seed)`). */
  function Position(n: nat, seed: bv32, k: nat): (p: nat)
    requires k < n < WORD_RANGE
    ensures p < n
  {
    ValueU32(k);
    ValueU32(n);
    PermuteBelow(U32(k), U32(n), seed);
    Value(PermuteSpec(U32(k), U32(n), seed))
  }

  lemma PositionIsPermute(n: nat, seed: bv32, k: nat)
    requires k < n < WORD_RANGE
    ensures U32(n) != 0 && Position(n, seed, k) == Value(PermuteSpec(U32(k), U32(n), seed))
  {
    ValueU32(n);
  }

  /** Two different calls read two different indices. */
  lemma PositionInjective(n: nat, seed: bv32, x: nat, y: nat)
    requires x < n && y < n && n < WORD_RANGE
    requires Position(n, seed, x) == Position(n, seed, y)
    ensures x == y
  {
    ValueU32(x);
    ValueU32(y);
    ValueU32(n);
    ValueInjective(PermuteSpec(U32(x), U32(n), seed), PermuteSpec(U32(y), U32(n), seed));
    PermuteInjective(U32(x), U32(y), U32(n), seed);
  }

  /** The indices of all `n` calls, in call order. */
  function Order(n: nat, seed: bv32): (o: seq<nat>)
    requires n < WORD_RANGE
    ensures |o| == n && AllBelow(o, n)
  {
    seq(n, k requires 0 <= k < n => Position(n, seed, k))
  }

  /** The order visits every index of `[0, n)` once. */
  lemma OrderDistinct(n: nat, seed: bv32)
    requires n < WORD_RANGE
    ensures Distinct(Order(n, seed))
  {
    var o := Order(n, seed);
    forall i, j | 0 <= i < j < n
      ensures o[i] != o[j]
    {
      if o[i] == o[j] {
        PositionInjective(n, seed, i, j);
      }
    }
  }

  /** Everything the iterator over `data` yields, in order. */
  function Shuffled<T>(data: seq<T>, seed: bv32): seq<T>
    requires |data| < WORD_RANGE
  {
    Pick(data, Order(|data|, seed))
  }

  /** Draining the iterator yields the elements of the slice, each exactly as often as it
      occurs there. */
  lemma ShuffledPermutes<T>(data: seq<T>, seed: bv32)
    requires |data| < WORD_RANGE
    ensures |Shuffled(data, seed)| == |data|
    ensures multiset(Shuffled(data, seed)) == multiset(data)
  {
    OrderDistinct(|data|, seed);
    PickPermutes(data, Order(|data|, seed));
  }

  /** Call `k` of `next()` moves one element, `data[Position(k)]`, from what is still to come
      to what has been yielded. */
  lemma ShuffledStep<T>(data: seq<T>, seed: bv32, k: nat)
    requires k < |data| < WORD_RANGE
    ensures Shuffled(data, seed)[..k + 1] == Shuffled(data, seed)[..k] + [data[Position(|data|, seed, k)]]
    ensures Shuffled(data, seed)[k..] == [data[Position(|data|, seed, k)]] + Shuffled(data, seed)[k + 1..]
  {
    var all := Shuffled(data, seed);
    assert all[k] == data[Position(|data|, seed, k)];
    SplitAt(all, k);
  }

  // ---- The release build, where the sum on line 61 wraps ----

  /** The index `next()` reads on its `k`-th call when line 61 wraps around. */
  function PositionWrapping(n: nat, seed: bv32, k: nat): (p: nat)
    requires k < n < WORD_RANGE
    ensures p < n
  {
    ValueU32(k);
    ValueU32(n);
    RotateWrappingBelow(Walk(U32(k), U32(n), seed), seed, U32(n));
    Value(PermuteWrapping(U32(k), U32(n), seed))
  }

  /** Everything the iterator over `data` yields, in order, when line 61 wraps around. */
  function ShuffledWrapping<T>(data: seq<T>, seed: bv32): (r: seq<T>)
    requires |data| < WORD_RANGE
    ensures |r| == |data|
  {
    seq(|data|, k requires 0 <= k < |data| => data[PositionWrapping(|data|, seed, k)])
  }

  /** When `len + seed` fits in a word, the program as written drains in the model's order,
      so it, too, yields every element of the slice exactly as often as it occurs there. */
  lemma ShuffledWrappingPermutes<T>(data: seq<T>, seed: bv32)
    requires |data| < WORD_RANGE && |data| + Value(seed) <= WORD_RANGE
    ensures ShuffledWrapping(data, seed) == Shuffled(data, seed)
    ensures multiset(ShuffledWrapping(data, seed)) == multiset(data)
  {
    var n := |data|;
    forall k | 0 <= k < n
      ensures PositionWrapping(n, seed, k) == Position(n, seed, k)
    {
      ValueU32(k);
      ValueU32(n);
      PermuteWrappingAgrees(U32(k), U32(n), seed);
    }
    ShuffledPermutes(data, seed);
  }

  lemma SmallWords()
    ensures U32(1) == 1 && U32(2) == 2 && U32(3) == 3
  {
    ValueU32(1);
    ValueU32(2);
    ValueU32(3);
    assert Value(1) == 1 && Value(2) == 2 && Value(3) == 3;
    ValueInjective(U32(1), 1);
    ValueInjective(U32(2), 2);
    ValueInjective(U32(3), 3);
  }

  /** With `seed = 0xFFFF_FFFF` the wrapping program reads index 0 on the second and the third
      call over three elements. */
  lemma PositionWrappingAtSeedOnes()
    ensures PositionWrapping(3, 0xFFFF_FFFF, 1) == 0
    ensures PositionWrapping(3, 0xFFFF_FFFF, 2) == 0
  {
    SmallWords();
    PermuteWrappingCollides();
    assert Value(0) == 0;
  }

  /** Over `[1, 2, 3]` with `seed = 0xFFFF_FFFF` the wrapping program yields 1 on its second
      and third calls, so it repeats 1 and never yields all three elements. */
  lemma ShuffledWrappingRepeats()
    ensures ShuffledWrapping([1, 2, 3], 0xFFFF_FFFF)[1] == 1
    ensures ShuffledWrapping([1, 2, 3], 0xFFFF_FFFF)[2] == 1
    ensures multiset(ShuffledWrapping([1, 2, 3], 0xFFFF_FFFF)) != multiset([1, 2, 3])
  {
    PositionWrappingAtSeedOnes();
    var d := [1, 2, 3];
    var r := ShuffledWrapping(d, 0xFFFF_FFFF);
    assert r[1] == d[PositionWrapping(3, 0xFFFF_FFFF, 1)];
    assert r[2] == d[PositionWrapping(3, 0xFFFF_FFFF, 2)];
    Three(r);
    assert multiset(r)[1] >= 2;
  }

  lemma Three<T>(r: seq<T>)
    requires |r| == 3
    ensures r == [r[0], r[1], r[2]]
  {
  }

  lemma SplitAt<T>(s: seq<T>, k: nat)
    requires k < |s|
    ensures s[..k + 1] == s[..k] + [s[k]]
    ensures s[k..] == [s[k]] + s[k + 1..]
  {
  }

  lemma MoveFirst<T>(items: seq<T>, x: T, rest: seq<T>)
    ensures items + ([x] + rest) == (items + [x]) + rest
  {
  }

  /** Lines 3-8 and 10-18, 66-80: an iterator over a borrowed slice. */
  class ShuffleIterator<T> {
    /** The borrowed slice, read and never written. */
    const data: seq<T>
    /** The index read by the latest `next()`. */
    var current: nat
    const seed: bv32
    /** How many elements have been yielded (despite its name, a counter that goes up). */
    var elementsLeft: nat

    ghost predicate Valid()
      reads this
    {
      |data| < WORD_RANGE && elementsLeft <= |data|
    }

    /** The elements yielded so far. */
    ghost function Yielded(): seq<T>
      reads this
      requires Valid()
    {
      Shuffled(data, seed)[..elementsLeft]
    }

    /** The elements still to come. */
    ghost function Pending(): seq<T>
      reads this
      requires Valid()
    {
      Shuffled(data, seed)[elementsLeft..]
    }

    /** `new(data, current)` with the seed taken as a parameter instead of from `thread_rng()`. */
    constructor (data: seq<T>, current: nat, seed: bv32)
      requires |data| < WORD_RANGE
      ensures Valid()
      ensures this.data == data && this.current == current && this.seed == seed
      ensures elementsLeft == 0 && Yielded() == [] && Pending() == Shuffled(data, seed)
    {
      this.data := data;
      this.current := current;
      this.seed := seed;
      elementsLeft := 0;
    }

    /** Lines 68-79. */
    method Next() returns (r: Option<T>)
      requires Valid()
      modifies this
      ensures Valid()
      ensures old(elementsLeft) == |data| ==>
        r == None && elementsLeft == old(elementsLeft) && current == old(current)
      ensures old(elementsLeft) < |data| ==>
        elementsLeft == old(elementsLeft) + 1 && current == Position(|data|, seed, old(elementsLeft))
        && current < |data| && r == Some(data[current])
      ensures r.None? <==> old(Pending()) == []
      ensures r.Some? ==> Yielded() == old(Yielded()) + [r.value] && old(Pending()) == [r.value] + Pending()
    {
      if elementsLeft == |data| {
        r := None;
      } else {
        ValueU32(elementsLeft);
        ValueU32(|data|);
        var p := Permute(U32(elementsLeft), U32(|data|), seed);
        ShuffledStep(data, seed, elementsLeft);
        PositionIsPermute(|data|, seed, elementsLeft);
        current := Value(p);
        elementsLeft := elementsLeft + 1;
        r := Some(data[current]);
      }
    }

    /** Drains the iterator the way `collect()` and `for_each` do: calls `next()` until it
        returns `None`. */
    method Collect() returns (items: seq<T>)
      requires Valid()
      modifies this
      ensures Valid() && elementsLeft == |data|
      ensures items == old(Pending()) && Yielded() == Shuffled(data, seed)
    {
      items := [];
      while true
        invariant Valid()
        invariant items + Pending() == old(Pending())
        decreases |data| - elementsLeft
      {
        ghost var pending := Pending();
        var r := Next();
        if r.None? {
          assert items + pending == items;
          break;
        }
        MoveFirst(items, r.value, Pending());
        items := items + [r.value];
      }
    }
  }
}
