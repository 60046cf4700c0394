/** The unit tests of `src/bin/3_1_shuffle_iterator.rs` that hold for every seed. */
module ShuffleTests {
  import opened Shuffle

  /** `shuffle_is_exhaustive`: the shuffled elements, collected into a set, are the slice's. */
  method ShuffleIsExhaustive(seed: bv32) returns (expected: set<int>, shuffled: set<int>)
    ensures expected == shuffled
  {
    var data := [1, 2, 3, 4, 5, 6, 7, 8, 9, 10];
    expected := set x | x in data;
    var it := new ShuffleIterator(data, 0, seed);
    var items := it.Collect();
    ShuffledPermutes(data, seed);
    shuffled := set x | x in items;
    SameElements(items, data);
  }

  lemma SameElements<T>(a: seq<T>, b: seq<T>)
    requires multiset(a) == multiset(b)
    ensures (set x | x in a) == (set x | x in b)
  {
    assert forall x :: x in a <==> x in multiset(a);
    assert forall x :: x in b <==> x in multiset(b);
  }

  /** `shuffle_does_not_modify_slice`: after the iterator has been drained, the slice it
      borrowed still holds `1, ..., 10` in order, and every element came out once. */
  method ShuffleDoesNotModifySlice(seed: bv32) returns (data: seq<int>, drained: seq<int>)
    ensures data == [1, 2, 3, 4, 5, 6, 7, 8, 9, 10]
    ensures multiset(drained) == multiset(data)
  {
    data := [1, 2, 3, 4, 5, 6, 7, 8, 9, 10];
    var it := new ShuffleIterator(data, 0, seed);
    drained := it.Collect();
    ShuffledPermutes(data, seed);
    data := it.data;
  }
}
