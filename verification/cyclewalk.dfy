/** Cycle walking: repeatedly applying a map `f` that permutes the words within an all-ones
    mask `w`, until the word satisfies an exit test `stop`.  This is the control structure of
    the loop in `permute` (`src/bin/3_1_shuffle_iterator.rs`, lines 30-59), stated for any such
    `f` and `stop`, so that the proofs here never look inside the loop body or the test. */
module CycleWalk {
  import opened Word

  /** `x` has no bits outside `w`: for an all-ones `w`, `Value(x) <= Value(w)`. */
  predicate Within(x: bv32, w: bv32)
  {
    x & w == x
  }

  /** `f` maps the words within `w` to words within `w` ... */
  ghost predicate MapsWithin(f: bv32 -> bv32, w: bv32)
  {
    forall x :: Within(x, w) ==> Within(f(x), w)
  }

  /** ... and does so one-to-one. */
  ghost predicate OneToOne(f: bv32 -> bv32, w: bv32)
  {
    forall x, y :: Within(x, w) && Within(y, w) && f(x) == f(y) ==> x == y
  }

  /** `f` permutes the words within `w`. */
  ghost predicate PermutesWithin(f: bv32 -> bv32, w: bv32)
  {
    MapsWithin(f, w) && OneToOne(f, w)
  }

  /** `n` applications of `f` to `x`. */
  function Iter(f: bv32 -> bv32, x: bv32, n: nat): bv32
  {
    if n == 0 then x else f(Iter(f, x, n - 1))
  }

  /** The walk from `i`: apply `f` until the result passes `stop`, at most `fuel + 1` times. */
  function WalkFrom(f: bv32 -> bv32, stop: bv32 -> bool, i: bv32, fuel: nat): bv32
    decreases fuel
  {
    var j := f(i);
    if stop(j) || fuel == 0 then j else WalkFrom(f, stop, j, fuel - 1)
  }

  /** How many times `WalkFrom` applies `f`. */
  function Passes(f: bv32 -> bv32, stop: bv32 -> bool, i: bv32, fuel: nat): nat
    decreases fuel
  {
    var j := f(i);
    if stop(j) || fuel == 0 then 1 else 1 + Passes(f, stop, j, fuel - 1)
  }

  lemma {:induction false} IterWithin(f: bv32 -> bv32, w: bv32, x: bv32, n: nat)
    requires MapsWithin(f, w) && Within(x, w)
    ensures Within(Iter(f, x, n), w)
  {
    if n > 0 {
      IterWithin(f, w, x, n - 1);
    }
  }

  lemma {:induction false} IterFirst(f: bv32 -> bv32, x: bv32, n: nat)
    ensures Iter(f, f(x), n) == Iter(f, x, n + 1)
  {
    if n > 0 {
      IterFirst(f, x, n - 1);
    }
  }

  /** Applications can be undone: equal after `a` and `b` steps means `x` is `y` after `b - a`. */
  lemma {:induction false} IterCancel(f: bv32 -> bv32, w: bv32, x: bv32, y: bv32, a: nat, b: nat)
    requires PermutesWithin(f, w) && Within(x, w) && Within(y, w)
    requires a <= b && Iter(f, x, a) == Iter(f, y, b)
    ensures x == Iter(f, y, b - a)
  {
    if a > 0 {
      IterWithin(f, w, x, a - 1);
      IterWithin(f, w, y, b - 1);
      IterCancel(f, w, x, y, a - 1, b - 1);
    }
  }

  /** `WalkFrom` returns the first word that passes `stop` among the first `fuel + 1` steps, or
      the last of them if there is none. */
  lemma {:induction false} WalkFromIter(f: bv32 -> bv32, stop: bv32 -> bool, i: bv32, fuel: nat)
    ensures 1 <= Passes(f, stop, i, fuel) <= fuel + 1
    ensures WalkFrom(f, stop, i, fuel) == Iter(f, i, Passes(f, stop, i, fuel))
    ensures forall k :: 1 <= k < Passes(f, stop, i, fuel) ==> !stop(Iter(f, i, k))
    ensures Passes(f, stop, i, fuel) <= fuel ==> stop(WalkFrom(f, stop, i, fuel))
    decreases fuel
  {
    var j := f(i);
    assert Iter(f, i, 1) == j;
    if !(stop(j) || fuel == 0) {
      var e := Passes(f, stop, j, fuel - 1);
      WalkFromIter(f, stop, j, fuel - 1);
      IterFirst(f, i, e);
      forall k | 2 <= k < e + 1
        ensures !stop(Iter(f, i, k))
      {
        IterFirst(f, i, k - 1);
      }
    }
  }

  /** The values of the first `n + 1` words of the walk from `x`. */
  ghost function Visited(f: bv32 -> bv32, x: bv32, n: nat): set<int>
  {
    if n == 0 then {Value(x)} else Visited(f, x, n - 1) + {Value(Iter(f, x, n))}
  }

  lemma {:induction false} VisitedWithin(f: bv32 -> bv32, w: bv32, x: bv32, n: nat)
    requires PermutesWithin(f, w) && Within(x, w)
    ensures forall v :: v in Visited(f, x, n) ==> 0 <= v <= Value(w)
  {
    IterWithin(f, w, x, n);
    ValueSub(Iter(f, x, n), w);
    if n > 0 {
      VisitedWithin(f, w, x, n - 1);
    } else {
      ValueSub(x, w);
    }
  }

  lemma {:induction false} NotVisited(f: bv32 -> bv32, x: bv32, n: nat, z: bv32)
    requires forall k :: 0 <= k <= n ==> Iter(f, x, k) != z
    ensures Value(z) !in Visited(f, x, n)
  {
    if Value(z) == Value(Iter(f, x, n)) {
      ValueInjective(z, Iter(f, x, n));
    }
    if n > 0 {
      NotVisited(f, x, n - 1, z);
    }
  }

  lemma {:induction false} VisitedSize(f: bv32 -> bv32, x: bv32, n: nat)
    requires forall a, b :: 0 <= a < b <= n ==> Iter(f, x, a) != Iter(f, x, b)
    ensures |Visited(f, x, n)| == n + 1
  {
    if n > 0 {
      VisitedSize(f, x, n - 1);
      NotVisited(f, x, n - 1, Iter(f, x, n));
    }
  }

  /** Distinct numbers in `[0, bound)` number at most `bound`. */
  lemma {:induction false} CountBound(s: set<int>, bound: nat)
    requires forall v :: v in s ==> 0 <= v < bound
    ensures |s| <= bound
    decreases bound
  {
    if bound == 0 {
      assert forall v :: v !in s;
      assert s == {};
    } else {
      CountBound(s - {bound - 1}, bound - 1);
    }
  }

  /** Two of the first `Value(w) + 2` words of the walk from `x` coincide: only `Value(w) + 1`
      words lie within `w`. */
  lemma Repeats(f: bv32 -> bv32, w: bv32, x: bv32)
    requires PermutesWithin(f, w) && Within(x, w)
    ensures exists a, b :: 0 <= a < b <= Value(w) + 1 && Iter(f, x, a) == Iter(f, x, b)
  {
    var n := Value(w) + 1;
    if forall a, b :: 0 <= a < b <= n ==> Iter(f, x, a) != Iter(f, x, b) {
      VisitedSize(f, x, n);
      VisitedWithin(f, w, x, n);
      CountBound(Visited(f, x, n), n);
      assert false;
    }
  }

  /** So the walk from `x` comes back to `x` within `Value(w) + 1` steps. */
  lemma ReturnsHome(f: bv32 -> bv32, w: bv32, x: bv32)
    requires PermutesWithin(f, w) && Within(x, w)
    ensures exists k :: 1 <= k <= Value(w) + 1 && Iter(f, x, k) == x
  {
    Repeats(f, w, x);
    var a, b :| 0 <= a < b <= Value(w) + 1 && Iter(f, x, a) == Iter(f, x, b);
    IterCancel(f, w, x, x, a, b);
  }

  /** With fuel `Value(w)`, the walk from a start that passes `stop` stops at the first step
      that passes `stop`. */
  lemma WalkExits(f: bv32 -> bv32, stop: bv32 -> bool, w: bv32, x: bv32)
    requires PermutesWithin(f, w) && Within(x, w) && stop(x)
    ensures Passes(f, stop, x, Value(w)) >= 1
    ensures WalkFrom(f, stop, x, Value(w)) == Iter(f, x, Passes(f, stop, x, Value(w)))
    ensures stop(WalkFrom(f, stop, x, Value(w)))
    ensures forall k :: 1 <= k < Passes(f, stop, x, Value(w)) ==> !stop(Iter(f, x, k))
  {
    WalkFromIter(f, stop, x, Value(w));
    ReturnsHome(f, w, x);
    var k :| 1 <= k <= Value(w) + 1 && Iter(f, x, k) == x;
    assert Passes(f, stop, x, Value(w)) <= k;
  }

  /** One more step on the walk either ends it or leaves it to go on. */
  lemma WalkStep(f: bv32 -> bv32, stop: bv32 -> bool, w: bv32, x: bv32, n: nat)
    requires PermutesWithin(f, w) && Within(x, w) && stop(x)
    requires n < Passes(f, stop, x, Value(w))
    ensures Iter(f, x, n + 1) == f(Iter(f, x, n))
    ensures stop(Iter(f, x, n + 1)) ==> Iter(f, x, n + 1) == WalkFrom(f, stop, x, Value(w))
    ensures !stop(Iter(f, x, n + 1)) ==> n + 1 < Passes(f, stop, x, Value(w))
  {
    WalkExits(f, stop, w, x);
  }

  /** The walk is one-to-one on the starts that pass `stop`. */
  lemma WalkInjective(f: bv32 -> bv32, stop: bv32 -> bool, w: bv32, x: bv32, y: bv32)
    requires PermutesWithin(f, w) && Within(x, w) && Within(y, w) && stop(x) && stop(y)
    requires WalkFrom(f, stop, x, Value(w)) == WalkFrom(f, stop, y, Value(w))
    ensures x == y
  {
    WalkExits(f, stop, w, x);
    WalkExits(f, stop, w, y);
    var a, b := Passes(f, stop, x, Value(w)), Passes(f, stop, y, Value(w));
    if a < b {
      IterCancel(f, w, x, y, a, b);
      assert false;
    } else if b < a {
      IterCancel(f, w, y, x, b, a);
      assert false;
    } else {
      IterCancel(f, w, x, y, a, b);
    }
  }
}
