/**
 * Array.prototype.sort with a comparator that subtracts two integer keys. Since ECMAScript
 * 2019 the sort is stable: the result is ordered by key, and elements with equal keys keep
 * their relative order. Insertion sort is the reference: each element, in input order, goes
 * after every element already placed whose key is not larger.
 */
module Sorting {

  function InsertByKey<T>(x: T, sorted: seq<T>, key: T -> int): seq<T> {
    if sorted == [] || key(sorted[|sorted| - 1]) <= key(x) then sorted + [x]
    else InsertByKey(x, sorted[..|sorted| - 1], key) + [sorted[|sorted| - 1]]
  }

  function SortedByKey<T>(xs: seq<T>, key: T -> int): seq<T> {
    if xs == [] then [] else InsertByKey(xs[|xs| - 1], SortedByKey(xs[..|xs| - 1], key), key)
  }

  predicate Ordered<T>(xs: seq<T>, key: T -> int) {
    forall i, j :: 0 <= i < j < |xs| ==> key(xs[i]) <= key(xs[j])
  }

  /** The elements with key k, in their order. */
  function WithKey<T>(xs: seq<T>, key: T -> int, k: int): seq<T> {
    if xs == [] then []
    else WithKey(xs[..|xs| - 1], key, k) + (if key(xs[|xs| - 1]) == k then [xs[|xs| - 1]] else [])
  }

  /** An independent description of a stable sort: the elements of key k, then k + 1, ... below hi. */
  function GroupedFrom<T>(xs: seq<T>, key: T -> int, k: int, hi: int): seq<T>
    decreases hi - k
  {
    if k >= hi then [] else WithKey(xs, key, k) + GroupedFrom(xs, key, k + 1, hi)
  }

  predicate KeysWithin<T>(xs: seq<T>, key: T -> int, lo: int, hi: int) {
    forall i :: 0 <= i < |xs| ==> lo <= key(xs[i]) < hi
  }

  // Insertion.

  lemma {:induction false} InsertPermutes<T>(x: T, s: seq<T>, key: T -> int)
    ensures multiset(InsertByKey(x, s, key)) == multiset(s) + multiset{x}
  {
    if s != [] && key(s[|s| - 1]) > key(x) {
      var init := s[..|s| - 1];
      InsertPermutes(x, init, key);
      assert s == init + [s[|s| - 1]];
    }
  }

  /** The position x is inserted at: after a key not larger, before keys that are larger. */
  ghost predicate InsertedAt<T>(x: T, s: seq<T>, key: T -> int, j: int, t: seq<T>) {
    && 0 <= j <= |s|
    && t == s[..j] + [x] + s[j..]
    && (forall i :: j <= i < |s| ==> key(s[i]) > key(x))
    && (j == 0 || key(s[j - 1]) <= key(x))
  }

  lemma {:induction false} InsertPosition<T>(x: T, s: seq<T>, key: T -> int) returns (j: int)
    ensures InsertedAt(x, s, key, j, InsertByKey(x, s, key))
  {
    if s == [] || key(s[|s| - 1]) <= key(x) {
      j := |s|;
      assert s[..|s|] == s && s[|s|..] == [];
    } else {
      var init := s[..|s| - 1];
      var last := s[|s| - 1];
      j := InsertPosition(x, init, key);
      assert s[..j] == init[..j];
      assert s[j..] == init[j..] + [last];
    }
  }

  lemma InsertKeepsOrder<T>(x: T, s: seq<T>, key: T -> int)
    requires Ordered(s, key)
    ensures Ordered(InsertByKey(x, s, key), key)
  {
    var t := InsertByKey(x, s, key);
    var j := InsertPosition(x, s, key);
    forall a, b | 0 <= a < b < |t|
      ensures key(t[a]) <= key(t[b])
    {
      if b < j {
        assert t[a] == s[a] && t[b] == s[b];
      } else if b == j {
        assert t[a] == s[a];
      } else if a < j {
        assert t[a] == s[a] && t[b] == s[b - 1];
      } else if a == j {
        assert t[b] == s[b - 1];
      } else {
        assert t[a] == s[a - 1] && t[b] == s[b - 1];
      }
    }
  }

  /** Insertion is stable: x comes after every element of its own key. */
  lemma {:induction false} InsertStable<T>(x: T, s: seq<T>, key: T -> int, k: int)
    ensures WithKey(InsertByKey(x, s, key), key, k) == WithKey(s, key, k) + (if key(x) == k then [x] else [])
  {
    if s == [] || key(s[|s| - 1]) <= key(x) {
      var t := s + [x];
      assert t[..|t| - 1] == s;
    } else {
      var init := s[..|s| - 1];
      var last := s[|s| - 1];
      InsertStable(x, init, key, k);
      var t := InsertByKey(x, init, key) + [last];
      assert t[..|t| - 1] == InsertByKey(x, init, key);
    }
  }

  // The sort.

  lemma {:induction false} SortPermutes<T>(xs: seq<T>, key: T -> int)
    ensures multiset(SortedByKey(xs, key)) == multiset(xs)
  {
    if xs != [] {
      var init := xs[..|xs| - 1];
      SortPermutes(init, key);
      InsertPermutes(xs[|xs| - 1], SortedByKey(init, key), key);
      assert xs == init + [xs[|xs| - 1]];
    }
  }

  lemma {:induction false} SortIsOrdered<T>(xs: seq<T>, key: T -> int)
    ensures Ordered(SortedByKey(xs, key), key)
  {
    if xs != [] {
      SortIsOrdered(xs[..|xs| - 1], key);
      InsertKeepsOrder(xs[|xs| - 1], SortedByKey(xs[..|xs| - 1], key), key);
    }
  }

  /** Elements with equal keys keep their input order. */
  lemma {:induction false} SortIsStable<T>(xs: seq<T>, key: T -> int, k: int)
    ensures WithKey(SortedByKey(xs, key), key, k) == WithKey(xs, key, k)
  {
    if xs != [] {
      var init := xs[..|xs| - 1];
      SortIsStable(init, key, k);
      InsertStable(xs[|xs| - 1], SortedByKey(init, key), key, k);
    }
  }

  // The sorted sequence is the grouping by key.

  lemma {:induction false} NoneWithKey<T>(s: seq<T>, key: T -> int, k: int)
    requires forall i :: 0 <= i < |s| ==> key(s[i]) != k
    ensures WithKey(s, key, k) == []
  {
    if s != [] {
      NoneWithKey(s[..|s| - 1], key, k);
    }
  }

  lemma {:induction false} NothingFrom<T>(s: seq<T>, key: T -> int, k: int, hi: int)
    requires forall i :: 0 <= i < |s| ==> key(s[i]) < k
    ensures GroupedFrom(s, key, k, hi) == []
    decreases hi - k
  {
    if k < hi {
      NoneWithKey(s, key, k);
      NothingFrom(s, key, k + 1, hi);
    }
  }

  lemma WithKeySnoc<T>(s: seq<T>, x: T, key: T -> int, k: int)
    ensures WithKey(s + [x], key, k) == WithKey(s, key, k) + (if key(x) == k then [x] else [])
  {
    var t := s + [x];
    assert t[..|t| - 1] == s && t[|t| - 1] == x;
  }

  /** Appending an element of the largest key appends it to the grouping. */
  lemma {:induction false} GroupedAppend<T>(s: seq<T>, x: T, key: T -> int, k: int, hi: int)
    requires forall i :: 0 <= i < |s| ==> key(s[i]) <= key(x)
    requires k <= key(x) < hi
    ensures GroupedFrom(s + [x], key, k, hi) == GroupedFrom(s, key, k, hi) + [x]
    decreases hi - k
  {
    var t := s + [x];
    WithKeySnoc(s, x, key, k);
    if k == key(x) {
      assert forall i :: 0 <= i < |t| ==> key(t[i]) < k + 1 by {
        assert forall i :: 0 <= i < |s| ==> t[i] == s[i];
      }
      NothingFrom(t, key, k + 1, hi);
      NothingFrom(s, key, k + 1, hi);
    } else {
      GroupedAppend(s, x, key, k + 1, hi);
      var rest := GroupedFrom(s, key, k + 1, hi);
      assert GroupedFrom(t, key, k, hi) == WithKey(s, key, k) + (rest + [x]);
    }
  }

  /** An ordered sequence is its own grouping by key. */
  lemma {:induction false} OrderedIsGrouped<T>(s: seq<T>, key: T -> int, lo: int, hi: int)
    requires Ordered(s, key) && KeysWithin(s, key, lo, hi)
    ensures s == GroupedFrom(s, key, lo, hi)
  {
    if s == [] {
      NothingFrom(s, key, lo, hi);
    } else {
      var init := s[..|s| - 1];
      var x := s[|s| - 1];
      OrderedIsGrouped(init, key, lo, hi);
      assert s == init + [x];
      GroupedAppend(init, x, key, lo, hi);
    }
  }

  lemma {:induction false} SameGroups<T>(a: seq<T>, b: seq<T>, key: T -> int, k: int, hi: int)
    requires forall j :: WithKey(a, key, j) == WithKey(b, key, j)
    ensures GroupedFrom(a, key, k, hi) == GroupedFrom(b, key, k, hi)
    decreases hi - k
  {
    if k < hi {
      SameGroups(a, b, key, k + 1, hi);
    }
  }

  /**
   * The sort's result described without sorting: the elements grouped by key, each group in
   * input order. So it is the only order a stable sort may produce.
   */
  lemma SortIsGrouping<T>(xs: seq<T>, key: T -> int, lo: int, hi: int)
    requires KeysWithin(xs, key, lo, hi)
    ensures SortedByKey(xs, key) == GroupedFrom(xs, key, lo, hi)
  {
    var t := SortedByKey(xs, key);
    SortIsOrdered(xs, key);
    SortPermutes(xs, key);
    forall i | 0 <= i < |t|
      ensures lo <= key(t[i]) < hi
    {
      assert t[i] in multiset(xs);
      var j :| 0 <= j < |xs| && xs[j] == t[i];
    }
    OrderedIsGrouped(t, key, lo, hi);
    forall j
      ensures WithKey(t, key, j) == WithKey(xs, key, j)
    {
      SortIsStable(xs, key, j);
    }
    SameGroups(t, xs, key, lo, hi);
  }

  /** One insertion as a loop: x is moved left past the larger keys, then put in. */
  method Insert<T>(x: T, sorted: seq<T>, key: T -> int) returns (t: seq<T>)
    ensures t == InsertByKey(x, sorted, key)
  {
    var j := |sorted|;
    assert sorted[..j] == sorted && sorted[j..] == [];
    while j > 0 && key(sorted[j - 1]) > key(x)
      invariant 0 <= j <= |sorted|
      invariant InsertByKey(x, sorted, key) == InsertByKey(x, sorted[..j], key) + sorted[j..]
    {
      assert sorted[..j][..j - 1] == sorted[..j - 1];
      assert sorted[j - 1..] == [sorted[j - 1]] + sorted[j..];
      j := j - 1;
    }
    t := sorted[..j] + [x] + sorted[j..];
  }

  /** The sort as a loop over the input, inserting one element at a time. */
  method SortByKey<T>(xs: seq<T>, key: T -> int) returns (sorted: seq<T>)
    ensures sorted == SortedByKey(xs, key)
    ensures Ordered(sorted, key) && multiset(sorted) == multiset(xs)
  {
    sorted := [];
    for i := 0 to |xs|
      invariant sorted == SortedByKey(xs[..i], key)
    {
      assert xs[..i + 1][..i] == xs[..i];
      sorted := Insert(xs[i], sorted, key);
    }
    assert xs[..|xs|] == xs;
    SortIsOrdered(xs, key);
    SortPermutes(xs, key);
  }
}
