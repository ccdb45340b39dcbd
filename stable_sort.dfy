/** JavaScript's `Array.prototype.sort` with a comparator. The language requires the
    sort to be stable, and for a comparator that is a total preorder the stable
    result is unique, so it is modelled by insertion sort: `Sort` is the function,
    `SortInPlace` the in-place method on an array.

    A comparator `cmp` is represented by `gt`, with `gt(a, b)` for `cmp(a, b) > 0`,
    that is, "`a` has to come after `b`". */
module StableSort {

  /** Adds `x` behind the elements of `s`, then moves it left past every element
      that has to come after it. */
  function Insert<T>(s: seq<T>, x: T, gt: (T, T) -> bool): (r: seq<T>)
    ensures |r| == |s| + 1
  {
    if s == [] || !gt(s[|s| - 1], x) then s + [x]
    else Insert(s[..|s| - 1], x, gt) + [s[|s| - 1]]
  }

  /** Insertion sort: each element in turn is inserted into the sorted prefix. */
  function Sort<T>(s: seq<T>, gt: (T, T) -> bool): (r: seq<T>)
    ensures |r| == |s|
  {
    if s == [] then [] else Insert(Sort(s[..|s| - 1], gt), s[|s| - 1], gt)
  }

  /** Where `Insert` puts `x`: after the last element that need not come after it. */
  function {:induction false} InsertPosition<T>(s: seq<T>, x: T, gt: (T, T) -> bool): (p: nat)
    ensures p <= |s|
    ensures Insert(s, x, gt) == s[..p] + [x] + s[p..]
    ensures forall k :: p <= k < |s| ==> gt(s[k], x)
    ensures p == 0 || !gt(s[p - 1], x)
  {
    if s == [] || !gt(s[|s| - 1], x) then |s|
    else
      var init := s[..|s| - 1];
      var p := InsertPosition(init, x, gt);
      assert init[..p] == s[..p];
      assert init[p..] + [s[|s| - 1]] == s[p..];
      p
  }

  /** `Insert` element by element. */
  lemma InsertAt<T>(t: seq<T>, z: T, gt: (T, T) -> bool) returns (p: nat)
    ensures p <= |t| && p == InsertPosition(t, z, gt)
    ensures var r := Insert(t, z, gt);
      && (forall k :: 0 <= k < p ==> r[k] == t[k])
      && r[p] == z
      && (forall k :: p < k < |r| ==> r[k] == t[k - 1] && gt(t[k - 1], z))
      && (p > 0 ==> !gt(t[p - 1], z))
  {
    p := InsertPosition(t, z, gt);
  }

  predicate SortedBy<T>(s: seq<T>, gt: (T, T) -> bool) {
    forall i, j :: 0 <= i < j < |s| ==> !gt(s[i], s[j])
  }

  /** `gt` comes from a consistent comparator: "not after" is total and transitive. */
  ghost predicate IsTotalPreorder<T(!new)>(gt: (T, T) -> bool) {
    && (forall a, b :: !gt(a, b) || !gt(b, a))
    && (forall a, b, c :: !gt(a, b) && !gt(b, c) ==> !gt(a, c))
  }

  function Sum<T>(s: seq<T>, f: T -> int): int {
    if s == [] then 0 else Sum(s[..|s| - 1], f) + f(s[|s| - 1])
  }

  // ----- permutation -----

  lemma InsertPermutes<T>(s: seq<T>, x: T, gt: (T, T) -> bool)
    ensures multiset(Insert(s, x, gt)) == multiset(s) + multiset{x}
  {
    var p := InsertPosition(s, x, gt);
    assert s == s[..p] + s[p..];
  }

  /** The sorted sequence holds the same elements as the input, as often. */
  lemma {:induction false} SortPermutes<T>(s: seq<T>, gt: (T, T) -> bool)
    ensures multiset(Sort(s, gt)) == multiset(s)
  {
    if s != [] {
      var init, z := s[..|s| - 1], s[|s| - 1];
      var t := Sort(init, gt);
      assert Sort(s, gt) == Insert(t, z, gt);
      SortPermutes(init, gt);
      InsertPermutes(t, z, gt);
      assert multiset(s) == multiset(init) + multiset{z} by {
        assert s == init + [z];
      }
    }
  }

  lemma SortMembers<T>(s: seq<T>, gt: (T, T) -> bool)
    ensures forall x :: x in Sort(s, gt) <==> x in s
  {
    SortPermutes(s, gt);
    forall x ensures x in Sort(s, gt) <==> x in s {
      assert x in Sort(s, gt) <==> x in multiset(Sort(s, gt));
      assert x in s <==> x in multiset(s);
    }
  }

  // ----- order -----

  lemma InsertSorted<T(!new)>(s: seq<T>, x: T, gt: (T, T) -> bool)
    requires IsTotalPreorder(gt)
    requires SortedBy(s, gt)
    ensures SortedBy(Insert(s, x, gt), gt)
  {
    var p := InsertPosition(s, x, gt);
    var r := Insert(s, x, gt);
    forall i, j | 0 <= i < j < |r| ensures !gt(r[i], r[j]) {
      if j < p {
        assert r[i] == s[i] && r[j] == s[j];
      } else if j == p {
        assert r[i] == s[i] && r[j] == x;
        if i < p - 1 {
          assert !gt(s[i], s[p - 1]);
        }
      } else if i == p {
        assert r[i] == x && r[j] == s[j - 1];
        assert gt(s[j - 1], x);
      } else if i < p {
        assert r[i] == s[i] && r[j] == s[j - 1];
      } else {
        assert r[i] == s[i - 1] && r[j] == s[j - 1];
      }
    }
  }

  /** With a consistent comparator the result is in order. */
  lemma {:induction false} SortSorted<T(!new)>(s: seq<T>, gt: (T, T) -> bool)
    requires IsTotalPreorder(gt)
    ensures SortedBy(Sort(s, gt), gt)
  {
    if s != [] {
      SortSorted(s[..|s| - 1], gt);
      InsertSorted(Sort(s[..|s| - 1], gt), s[|s| - 1], gt);
    }
  }

  // ----- stability -----

  /** In `r`, two elements neither of which has to come after the other are in
      increasing `rank`. */
  predicate StableBy<T>(r: seq<T>, gt: (T, T) -> bool, rank: T -> int) {
    forall i, j :: 0 <= i < j < |r| && !gt(r[j], r[i]) ==> rank(r[i]) < rank(r[j])
  }

  /** `r` is `t` with `z` inserted at position `p`, before elements that come after it. */
  ghost predicate InsertedAt<T>(t: seq<T>, z: T, gt: (T, T) -> bool, p: nat, r: seq<T>) {
    && p <= |t| && |r| == |t| + 1
    && (forall k :: 0 <= k < p ==> r[k] == t[k])
    && r[p] == z
    && (forall k :: p < k < |r| ==> r[k] == t[k - 1] && gt(t[k - 1], z))
  }

  lemma InsertStable<T>(t: seq<T>, z: T, gt: (T, T) -> bool, rank: T -> int)
    requires StableBy(t, gt, rank)
    requires forall k :: 0 <= k < |t| ==> rank(t[k]) < rank(z)
    ensures StableBy(Insert(t, z, gt), gt, rank)
  {
    var p := InsertAt(t, z, gt);
    var r := Insert(t, z, gt);
    assert InsertedAt(t, z, gt, p, r);
    InsertedKeepsStable(t, z, gt, rank, p, r);
    InsertedIsStable(t, z, gt, rank, p, r);
  }

  /** Pairs of old elements keep their order. */
  lemma InsertedKeepsStable<T>(t: seq<T>, z: T, gt: (T, T) -> bool, rank: T -> int, p: nat, r: seq<T>)
    requires StableBy(t, gt, rank)
    requires InsertedAt(t, z, gt, p, r)
    ensures forall i, j :: 0 <= i < j < |r| && i != p && j != p && !gt(r[j], r[i]) ==> rank(r[i]) < rank(r[j])
  {
    forall i, j | 0 <= i < j < |r| && i != p && j != p && !gt(r[j], r[i]) ensures rank(r[i]) < rank(r[j]) {
      var a := if i < p then i else i - 1;
      var b := if j < p then j else j - 1;
      assert r[i] == t[a] && r[j] == t[b];
    }
  }

  lemma InsertedIsStable<T>(t: seq<T>, z: T, gt: (T, T) -> bool, rank: T -> int, p: nat, r: seq<T>)
    requires forall k :: 0 <= k < |t| ==> rank(t[k]) < rank(z)
    requires InsertedAt(t, z, gt, p, r)
    requires forall i, j :: 0 <= i < j < |r| && i != p && j != p && !gt(r[j], r[i]) ==> rank(r[i]) < rank(r[j])
    ensures StableBy(r, gt, rank)
  {
    forall i, j | 0 <= i < j < |r| && !gt(r[j], r[i]) ensures rank(r[i]) < rank(r[j]) {
      if j == p {
        assert r[i] == t[i];
      }
    }
  }

  /** Stability: when the input is in increasing `rank`, two elements neither of
      which has to come after the other keep their input order. */
  lemma {:induction false} SortStable<T>(s: seq<T>, gt: (T, T) -> bool, rank: T -> int)
    requires forall i, j :: 0 <= i < j < |s| ==> rank(s[i]) < rank(s[j])
    ensures StableBy(Sort(s, gt), gt, rank)
  {
    if s != [] {
      var init, z := s[..|s| - 1], s[|s| - 1];
      SortStable(init, gt, rank);
      var t := Sort(init, gt);
      SortPermutes(init, gt);
      forall k | 0 <= k < |t| ensures rank(t[k]) < rank(z) {
        assert t[k] in multiset(t);
        var m :| 0 <= m < |init| && init[m] == t[k];
        assert s[m] == t[k];
      }
      InsertStable(Sort(init, gt), z, gt, rank);
    }
  }

  predicate KeysDistinct<T, K(==)>(r: seq<T>, key: T -> K) {
    forall i, j :: 0 <= i < j < |r| ==> key(r[i]) != key(r[j])
  }

  lemma InsertKeepsKeysDistinct<T, K>(t: seq<T>, z: T, gt: (T, T) -> bool, key: T -> K)
    requires KeysDistinct(t, key)
    requires forall k :: 0 <= k < |t| ==> key(t[k]) != key(z)
    ensures KeysDistinct(Insert(t, z, gt), key)
  {
    var p := InsertAt(t, z, gt);
    var r := Insert(t, z, gt);
    forall i, j | 0 <= i < j < |r| ensures key(r[i]) != key(r[j]) {
      if j < p {
        assert r[i] == t[i] && r[j] == t[j];
      } else if j == p {
        assert r[i] == t[i];
      } else if i == p {
        assert r[j] == t[j - 1];
      } else if i < p {
        assert r[i] == t[i] && r[j] == t[j - 1];
      } else {
        assert r[i] == t[i - 1] && r[j] == t[j - 1];
      }
    }
  }

  /** Elements told apart by `key` in the input are told apart in the output. */
  lemma {:induction false} SortKeepsKeysDistinct<T, K>(s: seq<T>, gt: (T, T) -> bool, key: T -> K)
    requires KeysDistinct(s, key)
    ensures KeysDistinct(Sort(s, gt), key)
  {
    if s != [] {
      var init, z := s[..|s| - 1], s[|s| - 1];
      SortKeepsKeysDistinct(init, gt, key);
      var t := Sort(init, gt);
      SortPermutes(init, gt);
      forall k | 0 <= k < |t| ensures key(t[k]) != key(z) {
        assert t[k] in multiset(t);
        var m :| 0 <= m < |init| && init[m] == t[k];
        assert s[m] == t[k];
      }
      InsertKeepsKeysDistinct(Sort(init, gt), z, gt, key);
    }
  }

  // ----- sums -----

  lemma {:induction false} SumAppend<T>(s: seq<T>, u: seq<T>, f: T -> int)
    ensures Sum(s + u, f) == Sum(s, f) + Sum(u, f)
    decreases |u|
  {
    if u == [] {
      assert s + u == s;
    } else {
      var u' := u[..|u| - 1];
      SumAppend(s, u', f);
      assert (s + u)[..|s + u| - 1] == s + u';
    }
  }

  /** Totals of two sequences agree when their elements contribute the same, position
      by position. */
  lemma {:induction false} SumPointwise<T, U>(s: seq<T>, f: T -> int, u: seq<U>, g: U -> int)
    requires |s| == |u|
    requires forall i :: 0 <= i < |s| ==> f(s[i]) == g(u[i])
    ensures Sum(s, f) == Sum(u, g)
  {
    if s != [] {
      SumPointwise(s[..|s| - 1], f, u[..|u| - 1], g);
    }
  }

  lemma InsertSum<T>(t: seq<T>, z: T, gt: (T, T) -> bool, f: T -> int)
    ensures Sum(Insert(t, z, gt), f) == Sum(t, f) + f(z)
  {
    var p := InsertPosition(t, z, gt);
    var before, after := t[..p], t[p..];
    assert Insert(t, z, gt) == before + ([z] + after) by {
      assert before + [z] + after == before + ([z] + after);
    }
    SumAppend(before, [z] + after, f);
    SumAppend([z], after, f);
    assert Sum([z], f) == f(z) by {
      assert [z][..0] == [];
    }
    assert t == before + after;
    SumAppend(before, after, f);
  }

  /** Sorting does not change the total of any per-element quantity. */
  lemma {:induction false} SortSum<T>(s: seq<T>, gt: (T, T) -> bool, f: T -> int)
    ensures Sum(Sort(s, gt), f) == Sum(s, f)
  {
    if s != [] {
      var init, z := s[..|s| - 1], s[|s| - 1];
      var t := Sort(init, gt);
      assert Sort(s, gt) == Insert(t, z, gt);
      SortSum(init, gt, f);
      InsertSum(t, z, gt, f);
    }
  }

  // ----- the in-place method -----

  /** `x` lands right after the elements of `s[..j]` when everything from `j` on
      has to come after it and `s[j - 1]` does not. */
  lemma {:induction false} InsertLandsAt<T>(s: seq<T>, x: T, gt: (T, T) -> bool, j: nat)
    requires j <= |s|
    requires forall k :: j <= k < |s| ==> gt(s[k], x)
    requires j == 0 || !gt(s[j - 1], x)
    ensures Insert(s, x, gt) == s[..j] + [x] + s[j..]
    decreases |s|
  {
    if j < |s| {
      var init := s[..|s| - 1];
      InsertLandsAt(init, x, gt, j);
      assert init[..j] == s[..j];
      assert init[j..] + [s[|s| - 1]] == s[j..];
    } else {
      assert s[..j] == s;
    }
  }

  /** One step of the in-place sort: moves `a[i]` left into the sorted `a[..i]`. */
  method InsertInPlace<T>(a: array<T>, i: int, gt: (T, T) -> bool)
    requires 0 <= i < a.Length
    modifies a
    ensures a[..i + 1] == Insert(old(a[..i]), old(a[i]), gt)
    ensures forall k :: i < k < a.Length ==> a[k] == old(a[k])
  {
    ghost var sorted := a[..i];
    var x := a[i];
    var j := i;
    while j > 0 && gt(a[j - 1], x)
      invariant 0 <= j <= i
      invariant forall k :: 0 <= k < j ==> a[k] == sorted[k]
      invariant forall k :: j < k <= i ==> a[k] == sorted[k - 1]
      invariant forall k :: i < k < a.Length ==> a[k] == old(a[k])
      invariant forall k :: j <= k < i ==> gt(sorted[k], x)
    {
      a[j] := a[j - 1];
      j := j - 1;
    }
    a[j] := x;
    InsertLandsAt(sorted, x, gt, j);
    Assembled(a[..i + 1], sorted, x, j);
  }

  /** A sequence that agrees with `sorted` before `j`, holds `x` at `j` and the rest of
      `sorted` after it. */
  lemma Assembled<T>(s: seq<T>, sorted: seq<T>, x: T, j: nat)
    requires j <= |sorted| && |s| == |sorted| + 1
    requires forall k :: 0 <= k < j ==> s[k] == sorted[k]
    requires s[j] == x
    requires forall k :: j < k < |s| ==> s[k] == sorted[k - 1]
    ensures s == sorted[..j] + [x] + sorted[j..]
  {
  }

  /** `a.sort(cmp)`: sorts `a` in place. */
  method SortInPlace<T>(a: array<T>, gt: (T, T) -> bool)
    modifies a
    ensures a[..] == Sort(old(a[..]), gt)
  {
    ghost var input := a[..];
    var i := 0;
    while i < a.Length
      invariant 0 <= i <= a.Length
      invariant a[..i] == Sort(input[..i], gt)
      invariant forall k :: i <= k < a.Length ==> a[k] == input[k]
    {
      InsertInPlace(a, i, gt);
      assert input[..i + 1][..i] == input[..i];
      i := i + 1;
    }
    assert input[..a.Length] == input;
  }

  /** Sorts a copy of `s` in an array, for callers that hold their elements in a
      sequence. */
  method SortSeq<T>(s: seq<T>, gt: (T, T) -> bool) returns (r: seq<T>)
    ensures r == Sort(s, gt)
  {
    var a := new T[|s|](i requires 0 <= i < |s| => s[i]);
    assert a[..] == s;
    SortInPlace(a, gt);
    r := a[..];
  }
}
