/** The Cartesian-product iterator of `src/lib.rs`.

    An iterator is represented by the list of items it still has to yield: `next()` on it is
    `First`/`Rest`, and `clone()` copies that list.  The inner iterator is walked completely
    for every item of the outer one, so the pairs come outer-major and inner-minor:
    `(a0, b0), (a1, b0), ..., (a0, b1), ...`. */
module CartesianIter {
  import opened Options

  /** All inner items paired with one outer item, in inner order. */
  function Pair<A, B>(inner: seq<A>, b: B): (r: seq<(A, B)>)
    ensures |r| == |inner|
    ensures forall j :: 0 <= j < |inner| ==> r[j] == (inner[j], b)
  {
    if inner == [] then [] else [(inner[0], b)] + Pair(inner[1..], b)
  }

  /** What the iterator yields over a fresh inner iterator and the outer items `outer`:
      one `Pair` block per outer item. */
  function Product<A, B>(inner: seq<A>, outer: seq<B>): seq<(A, B)>
  {
    if outer == [] then [] else Pair(inner, outer[0]) + Product(inner, outer[1..])
  }

  lemma {:induction false} ProductLength<A, B>(inner: seq<A>, outer: seq<B>)
    ensures |Product(inner, outer)| == |inner| * |outer|
    decreases |outer|
  {
    if outer != [] {
      ProductLength(inner, outer[1..]);
      calc {
        |Product(inner, outer)|;
        |inner| + |inner| * |outer[1..]|;
        |inner| * (1 + |outer[1..]|);
        |inner| * |outer|;
      }
    }
  }

  /** The product over two runs of outer items is the two products one after the other. */
  lemma {:induction false} ProductAppend<A, B>(inner: seq<A>, a: seq<B>, b: seq<B>)
    ensures Product(inner, a + b) == Product(inner, a) + Product(inner, b)
    decreases |a|
  {
    if a == [] {
      assert a + b == b;
    } else {
      assert (a + b)[1..] == a[1..] + b;
      ProductAppend(inner, a[1..], b);
      AppendAssoc(Pair(inner, a[0]), Product(inner, a[1..]), Product(inner, b));
    }
  }

  /** The block of the `k`-th outer item has `k` blocks of `|inner|` pairs before it. */
  lemma ProductSplit<A, B>(inner: seq<A>, outer: seq<B>, k: int)
    requires 0 <= k < |outer|
    ensures Product(inner, outer)
         == Product(inner, outer[..k]) + Pair(inner, outer[k]) + Product(inner, outer[k + 1..])
    ensures |Product(inner, outer[..k])| == |inner| * k
  {
    assert outer == outer[..k] + [outer[k]] + outer[k + 1..];
    ProductAppend(inner, outer[..k] + [outer[k]], outer[k + 1..]);
    ProductAppend(inner, outer[..k], [outer[k]]);
    assert Product(inner, [outer[k]]) == Pair(inner, outer[k]) + Product(inner, []);
    ProductLength(inner, outer[..k]);
  }

  /** The `k`-th outer item and the `j`-th inner item meet at position `k * |inner| + j`. */
  lemma ProductIndex<A, B>(inner: seq<A>, outer: seq<B>, k: int, j: int)
    requires 0 <= k < |outer| && 0 <= j < |inner|
    ensures 0 <= k * |inner| + j < |Product(inner, outer)|
    ensures Product(inner, outer)[k * |inner| + j] == (inner[j], outer[k])
  {
    ProductSplit(inner, outer, k);
    var before, block, after := Product(inner, outer[..k]), Pair(inner, outer[k]), Product(inner, outer[k + 1..]);
    assert (before + block + after)[|before| + j] == block[j];
  }

  /** Every pair in the product comes from one inner and one outer item. */
  lemma {:induction false} ProductMember<A, B>(inner: seq<A>, outer: seq<B>, p: (A, B))
    requires p in Product(inner, outer)
    ensures p.0 in inner && p.1 in outer
    decreases |outer|
  {
    if p !in Pair(inner, outer[0]) {
      ProductMember(inner, outer[1..], p);
    }
  }

  /** The product is empty exactly when one of the two iterators is. */
  lemma ProductEmpty<A, B>(inner: seq<A>, outer: seq<B>)
    ensures inner == [] || outer == [] ==> Product(inner, outer) == []
    ensures Product(inner, outer) == [] ==> inner == [] || outer == []
  {
    ProductLength(inner, outer);
    if inner != [] && outer != [] {
      assert |inner| * |outer| >= 1 * |outer|;
    }
  }

  lemma AppendAssoc<T>(a: seq<T>, b: seq<T>, c: seq<T>)
    ensures (a + b) + c == a + (b + c)
  {
  }

  /** `inner` is what is left of a clone of `whole`. */
  ghost predicate IsSuffix<A>(inner: seq<A>, whole: seq<A>)
  {
    |inner| <= |whole| && inner == whole[|whole| - |inner|..]
  }

  /** What a Cartesian iterator in the given state yields before its first `None`. */
  function Remaining<A, B>(inner: seq<A>, currOuter: Option<B>, innerClone: seq<A>, outer: seq<B>): seq<(A, B)>
  {
    match currOuter
    case None => []
    case Some(b) => Pair(inner, b) + Product(innerClone, outer)
  }

  /** A pass that still has inner items yields the next of them with the current outer item. */
  lemma RemainingInnerStep<A, B>(inner: seq<A>, b: B, innerClone: seq<A>, outer: seq<B>)
    requires inner != []
    ensures Remaining(inner, Some(b), innerClone, outer)
         == [(inner[0], b)] + Remaining(inner[1..], Some(b), innerClone, outer)
  {
  }

  /** A finished pass starts the next one on a fresh clone and the next outer item. */
  lemma RemainingResetStep<A, B>(innerClone: seq<A>, outer: seq<B>)
    ensures innerClone != [] && outer != [] ==>
      Product(innerClone, outer)
        == [(innerClone[0], outer[0])] + Remaining(innerClone[1..], Some(outer[0]), innerClone, outer[1..])
    ensures innerClone == [] || outer == [] ==>
      Product(innerClone, outer) == [] && Remaining(Rest(innerClone), First(outer), innerClone, Rest(outer)) == []
  {
    ProductEmpty(innerClone, outer);
    if innerClone == [] && outer != [] {
      ProductEmpty(innerClone, outer[1..]);
    }
  }

  class Cartesian<A, B> {
    /** The untouched copy of the inner iterator, cloned again for every outer item. */
    const innerClone: seq<A>
    /** What the current pass over the inner iterator has left. */
    var inner: seq<A>
    /** The outer item of the current pass, `None` once the outer iterator is exhausted. */
    var currOuter: Option<B>
    /** What the outer iterator has left. */
    var outer: seq<B>

    ghost predicate Valid()
      reads this
    {
      (currOuter.None? ==> outer == []) && IsSuffix(inner, innerClone)
    }

    /** The items `next()` returns, in order, before it first returns `None`. */
    function Pending(): seq<(A, B)>
      reads this
    {
      Remaining(inner, currOuter, innerClone, outer)
    }

    constructor (inner: seq<A>, outer: seq<B>)
      ensures Valid()
      ensures this.innerClone == inner && this.inner == inner
      ensures this.currOuter == First(outer) && this.outer == Rest(outer)
      ensures Pending() == Product(inner, outer)
    {
      innerClone := inner;
      this.inner := inner;
      currOuter := First(outer);
      this.outer := Rest(outer);
    }

    method ResetInnerAdvanceOuter() returns (a: Option<A>)
      requires Valid()
      modifies this
      ensures Valid()
      ensures currOuter == First(old(outer)) && outer == Rest(old(outer))
      ensures a == First(innerClone) && inner == Rest(innerClone)
    {
      currOuter := First(outer);
      outer := Rest(outer);
      inner := innerClone;
      a := First(inner);
      inner := Rest(inner);
    }

    function GetCurrOuter(): (r: Option<B>)
      reads this
      requires Valid()
      ensures r.None? ==> outer == [] && Pending() == []
      ensures r.Some? ==> |inner| <= |Pending()|
      ensures r.Some? ==> forall j :: 0 <= j < |inner| ==> Pending()[j] == (inner[j], r.value)
    {
      match currOuter
      case None => None
      case Some(value) => Some(value)
    }

    /** Lines 34-36: `self.inner.next().or_else(|| self.reset_inner_advance_outer())`. */
    method Advance() returns (a: Option<A>)
      requires Valid()
      modifies this
      ensures Valid()
      ensures old(inner) != [] ==>
        a == Some(old(inner)[0]) && inner == old(inner)[1..] && currOuter == old(currOuter) && outer == old(outer)
      ensures old(inner) == [] ==>
        a == First(innerClone) && inner == Rest(innerClone) && currOuter == First(old(outer)) && outer == Rest(old(outer))
      ensures a.None? || currOuter.None? ==> old(Pending()) == [] && Pending() == []
      ensures a.Some? && currOuter.Some? ==> old(Pending()) == [(a.value, currOuter.value)] + Pending()
    {
      a := First(inner);
      inner := Rest(inner);
      if a.None? {
        RemainingResetStep(innerClone, outer);
        a := ResetInnerAdvanceOuter();
      } else if currOuter.Some? {
        RemainingInnerStep(old(inner), currOuter.value, innerClone, outer);
      }
    }

    /** Lines 33-45. */
    method Next() returns (r: Option<(A, B)>)
      requires Valid()
      modifies this
      ensures Valid()
      ensures old(inner) != [] ==>
        inner == old(inner)[1..] && currOuter == old(currOuter) && outer == old(outer)
      ensures old(inner) == [] ==>
        inner == Rest(innerClone) && currOuter == First(old(outer)) && outer == Rest(old(outer))
      ensures old(Pending()) == [] ==> r.None? && Pending() == []
      ensures old(Pending()) != [] ==> r == Some(old(Pending())[0]) && Pending() == old(Pending())[1..]
    {
      var a := Advance();
      match a
      case None =>
        r := None;
      case Some(x) =>
        match GetCurrOuter()
        case None => r := None;
        case Some(value) => r := Some((x, value));
    }

    /** Drains the iterator the way `collect()` does: calls `next()` until it returns `None`. */
    method Collect() returns (items: seq<(A, B)>)
      requires Valid()
      modifies this
      ensures Valid()
      ensures items == old(Pending()) && Pending() == []
    {
      items := [];
      while true
        invariant Valid()
        invariant items + Pending() == old(Pending())
        decreases |Pending()|
      {
        ghost var pending := Pending();
        var r := Next();
        if r.None? {
          assert pending == [] && Pending() == [];
          assert items + pending == items;
          break;
        }
        assert pending == [r.value] + Pending();
        AppendAssoc(items, [r.value], Pending());
        items := items + [r.value];
      }
    }
  }
}
