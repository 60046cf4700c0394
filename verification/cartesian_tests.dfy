/** The unit tests of `src/bin/3_2_cartesian_iterator.rs`, each stated as the sequence that
    `collect()` returns. */
module CartesianTests {
  import opened CartesianIter

  /** The items of the range `lo..hi`. */
  function Range(lo: int, hi: int): (r: seq<int>)
    ensures |r| == if lo <= hi then hi - lo else 0
    ensures forall i :: 0 <= i < |r| ==> r[i] == lo + i
    decreases hi - lo
  {
    if lo >= hi then [] else [lo] + Range(lo + 1, hi)
  }

  method CartesianOfEmptyRanges() returns (actual: seq<(int, int)>)
    ensures actual == []
  {
    var c := new Cartesian(Range(0, 0), Range(1, 1));
    actual := c.Collect();
  }

  method CartesianWithOneEmptyRange() returns (emptyInner: seq<(int, int)>, emptyOuter: seq<(int, int)>)
    ensures emptyInner == [] && emptyOuter == []
  {
    var c1 := new Cartesian(Range(0, 0), Range(1, 10));
    ProductEmpty(Range(0, 0), Range(1, 10));
    emptyInner := c1.Collect();
    var c2 := new Cartesian(Range(0, 10), Range(1, 1));
    emptyOuter := c2.Collect();
  }

  lemma Grid3x3()
    ensures Product([0, 1, 2], [4, 5, 6])
         == [(0, 4), (1, 4), (2, 4), (0, 5), (1, 5), (2, 5), (0, 6), (1, 6), (2, 6)]
  {
    var inner := [0, 1, 2];
    assert Product(inner, [6]) == [(0, 6), (1, 6), (2, 6)];
    assert Product(inner, [5, 6]) == [(0, 5), (1, 5), (2, 5)] + Product(inner, [6]);
    assert Product(inner, [4, 5, 6]) == [(0, 4), (1, 4), (2, 4)] + Product(inner, [5, 6]);
  }

  method Cartesian2dOfIntegers() returns (actual: seq<(int, int)>)
    ensures actual == [(0, 4), (1, 4), (2, 4), (0, 5), (1, 5), (2, 5), (0, 6), (1, 6), (2, 6)]
  {
    assert Range(0, 3) == [0, 1, 2];
    assert Range(4, 7) == [4, 5, 6];
    Grid3x3();
    var c := new Cartesian(Range(0, 3), Range(4, 7));
    actual := c.Collect();
  }

  lemma Grid2x2()
    ensures Product([0, 1], [2, 3]) == [(0, 2), (1, 2), (0, 3), (1, 3)]
  {
    assert Product([0, 1], [3]) == [(0, 3), (1, 3)];
    assert Product([0, 1], [2, 3]) == [(0, 2), (1, 2)] + Product([0, 1], [3]);
  }

  lemma Grid4x2(inner: seq<(int, int)>)
    requires inner == [(0, 2), (1, 2), (0, 3), (1, 3)]
    ensures Product(inner, [4, 5])
         == [((0, 2), 4), ((1, 2), 4), ((0, 3), 4), ((1, 3), 4),
             ((0, 2), 5), ((1, 2), 5), ((0, 3), 5), ((1, 3), 5)]
  {
    assert Product(inner, [5]) == [((0, 2), 5), ((1, 2), 5), ((0, 3), 5), ((1, 3), 5)];
    assert Product(inner, [4, 5]) == [((0, 2), 4), ((1, 2), 4), ((0, 3), 4), ((1, 3), 4)] + Product(inner, [5]);
  }

  /** The inner iterator is itself a Cartesian iterator; it contributes the pairs it yields. */
  method Cartesian3dOfIntegers() returns (actual: seq<((int, int), int)>)
    ensures actual == [((0, 2), 4), ((1, 2), 4), ((0, 3), 4), ((1, 3), 4),
                       ((0, 2), 5), ((1, 2), 5), ((0, 3), 5), ((1, 3), 5)]
  {
    assert Range(0, 2) == [0, 1];
    assert Range(2, 4) == [2, 3];
    assert Range(4, 6) == [4, 5];
    Grid2x2();
    var plane := new Cartesian(Range(0, 2), Range(2, 4));
    Grid4x2(plane.Pending());
    var c := new Cartesian(plane.Pending(), Range(4, 6));
    actual := c.Collect();
  }

  lemma GridLetters()
    ensures Product(["a", "b", "c"], ["1", "2"])
         == [("a", "1"), ("b", "1"), ("c", "1"), ("a", "2"), ("b", "2"), ("c", "2")]
  {
    assert Product(["a", "b", "c"], ["2"]) == [("a", "2"), ("b", "2"), ("c", "2")];
  }

  method Cartesian2dOfStringSlices() returns (actual: seq<(string, string)>)
    ensures actual == [("a", "1"), ("b", "1"), ("c", "1"), ("a", "2"), ("b", "2"), ("c", "2")]
  {
    GridLetters();
    var c := new Cartesian(["a", "b", "c"], ["1", "2"]);
    actual := c.Collect();
  }
}
