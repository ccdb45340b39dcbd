/** Small facts about sequences shared by the other modules. */
module Seqs {

  /** No element occurs twice. */
  predicate Distinct<T(==)>(s: seq<T>) {
    forall i, j :: 0 <= i < j < |s| ==> s[i] != s[j]
  }

  /** A sequence without repetitions has as many elements as the set of its elements. */
  lemma {:induction false} DistinctCardinality<T>(s: seq<T>)
    requires Distinct(s)
    ensures |set x | x in s| == |s|
  {
    if s != [] {
      var init := s[..|s| - 1];
      assert Distinct(init);
      DistinctCardinality(init);
      var last := s[|s| - 1];
      assert (set x | x in s) == (set x | x in init) + {last};
      assert last !in (set x | x in init);
    }
  }
}
