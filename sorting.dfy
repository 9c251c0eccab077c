/**
 * A stable sort by a comparison, as `Array.prototype.sort` performs it (the
 * language requires stability): an element moves in front of an earlier one
 * only when it compares strictly smaller. Insertion sort is used as the
 * definition; every stable sort by the same comparison gives the same result.
 */
module Sorting {

  /** `le(a, b)`: the comparator of `a` and `b` is at most 0, so `a` may stay in front of `b`. */
  ghost predicate TotalPreorder<T(!new)>(le: (T, T) -> bool) {
    && (forall a, b :: le(a, b) || le(b, a))
    && (forall a, b, c :: le(a, b) && le(b, c) ==> le(a, c))
  }

  /** `le` is total and transitive on the values in `u`, which is all a sort over `u` ever compares. */
  ghost predicate TotalPreorderOn<T>(u: set<T>, le: (T, T) -> bool) {
    && (forall a, b :: a in u && b in u ==> le(a, b) || le(b, a))
    && (forall a, b, c :: a in u && b in u && c in u && le(a, b) && le(b, c) ==> le(a, c))
  }

  lemma PreorderOnEvery<T(!new)>(u: set<T>, le: (T, T) -> bool)
    requires TotalPreorder(le)
    ensures TotalPreorderOn(u, le)
  {
  }

  /** Every element of `s` is drawn from `u`. */
  predicate Within<T>(s: seq<T>, u: set<T>) {
    forall i :: 0 <= i < |s| ==> s[i] in u
  }

  /** The values that occur in `s`. */
  function Elements<T>(s: seq<T>): (u: set<T>)
    ensures Within(s, u)
  {
    set a | a in s
  }

  predicate SortedBy<T>(s: seq<T>, le: (T, T) -> bool) {
    forall i, j :: 0 <= i < j < |s| ==> le(s[i], s[j])
  }

  /** Puts `x` after every element of `s` that it does not compare strictly below. */
  function InsertLast<T>(s: seq<T>, x: T, le: (T, T) -> bool): (r: seq<T>)
    ensures |r| == |s| + 1
  {
    if s == [] || le(s[|s| - 1], x) then s + [x]
    else InsertLast(s[..|s| - 1], x, le) + [s[|s| - 1]]
  }

  function InsertionSort<T>(s: seq<T>, le: (T, T) -> bool): (r: seq<T>)
    ensures |r| == |s|
  {
    if s == [] then [] else InsertLast(InsertionSort(s[..|s| - 1], le), s[|s| - 1], le)
  }

  // ---------------------------------------------------------------------------
  // The sort is a permutation

  lemma {:induction false} InsertLastCounts<T>(s: seq<T>, x: T, le: (T, T) -> bool)
    ensures multiset(InsertLast(s, x, le)) == multiset(s) + multiset{x}
    decreases |s|
  {
    if s != [] && !le(s[|s| - 1], x) {
      var init, last := s[..|s| - 1], s[|s| - 1];
      assert s == init + [last];
      InsertLastCounts(init, x, le);
    }
  }

  /** The result holds exactly the input's elements, each as often. */
  lemma {:induction false} InsertionSortCounts<T>(s: seq<T>, le: (T, T) -> bool)
    ensures multiset(InsertionSort(s, le)) == multiset(s)
    decreases |s|
  {
    if s != [] {
      var init, last := s[..|s| - 1], s[|s| - 1];
      assert s == init + [last];
      InsertionSortCounts(init, le);
      InsertLastCounts(InsertionSort(init, le), last, le);
    }
  }

  lemma {:induction false} InsertLastWithin<T>(s: seq<T>, x: T, le: (T, T) -> bool, u: set<T>)
    requires Within(s, u) && x in u
    ensures Within(InsertLast(s, x, le), u)
    decreases |s|
  {
    if s != [] && !le(s[|s| - 1], x) {
      InsertLastWithin(s[..|s| - 1], x, le, u);
    }
  }

  lemma {:induction false} InsertionSortWithin<T>(s: seq<T>, le: (T, T) -> bool, u: set<T>)
    requires Within(s, u)
    ensures Within(InsertionSort(s, le), u)
    decreases |s|
  {
    if s != [] {
      InsertionSortWithin(s[..|s| - 1], le, u);
      InsertLastWithin(InsertionSort(s[..|s| - 1], le), s[|s| - 1], le, u);
    }
  }

  // ---------------------------------------------------------------------------
  // The sort orders its result

  /** A bound `y` above `x` and above every element of `s` is above every element of the insertion. */
  lemma {:induction false} InsertLastBounded<T>(s: seq<T>, x: T, y: T, le: (T, T) -> bool)
    requires forall i :: 0 <= i < |s| ==> le(s[i], y)
    requires le(x, y)
    ensures forall k :: 0 <= k < |InsertLast(s, x, le)| ==> le(InsertLast(s, x, le)[k], y)
    decreases |s|
  {
    if s != [] && !le(s[|s| - 1], x) {
      InsertLastBounded(s[..|s| - 1], x, y, le);
    }
  }

  lemma {:induction false} InsertLastSorted<T>(s: seq<T>, x: T, le: (T, T) -> bool, u: set<T>)
    requires TotalPreorderOn(u, le) && Within(s, u) && x in u
    requires SortedBy(s, le)
    ensures SortedBy(InsertLast(s, x, le), le)
    decreases |s|
  {
    if s == [] || le(s[|s| - 1], x) {
      var r := s + [x];
      forall i, j | 0 <= i < j < |r| ensures le(r[i], r[j]) {
        if j == |s| && i < |s| - 1 {
          assert le(s[i], s[|s| - 1]);
        }
      }
    } else {
      var init, last := s[..|s| - 1], s[|s| - 1];
      assert le(x, last);
      InsertLastSorted(init, x, le, u);
      InsertLastBounded(init, x, last, le);
    }
  }

  /** The result is ordered by `le` whenever `le` is a total preorder on the values being sorted. */
  lemma {:induction false} InsertionSortSorted<T>(s: seq<T>, le: (T, T) -> bool, u: set<T>)
    requires TotalPreorderOn(u, le) && Within(s, u)
    ensures SortedBy(InsertionSort(s, le), le)
    decreases |s|
  {
    if s != [] {
      var init := s[..|s| - 1];
      InsertionSortSorted(init, le, u);
      InsertionSortWithin(init, le, u);
      InsertLastSorted(InsertionSort(init, le), s[|s| - 1], le, u);
    }
  }

  /** Sorting an already ordered sequence leaves it as it is. */
  lemma {:induction false} InsertionSortOfSorted<T>(s: seq<T>, le: (T, T) -> bool)
    requires SortedBy(s, le)
    ensures InsertionSort(s, le) == s
    decreases |s|
  {
    if s != [] {
      var init := s[..|s| - 1];
      assert SortedBy(init, le);
      InsertionSortOfSorted(init, le);
      if |init| > 0 {
        assert le(init[|init| - 1], s[|s| - 1]);
      }
      assert s == init + [s[|s| - 1]];
    }
  }
}
