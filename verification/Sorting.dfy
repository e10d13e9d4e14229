/**
 What the insertion sort behind every ordered table of the library computes, and the lower bound
 searches that run over its result.
 */
module Sorting {

  /** `key` goes behind every element it is not less than. */
  function Insert<T>(sorted: seq<T>, key: T, less: (T, T) -> bool): seq<T> {
    var n := |sorted|;
    if n == 0 || !less(key, sorted[n - 1]) then sorted + [key]
    else Insert(sorted[..n - 1], key, less) + [sorted[n - 1]]
  }

  function Sorted<T>(s: seq<T>, less: (T, T) -> bool): seq<T> {
    if s == [] then [] else Insert(Sorted(s[..|s| - 1], less), s[|s| - 1], less)
  }

  /** The key's place in `prefix` is its place in the first `j` elements. */
  ghost predicate Shifted<T>(prefix: seq<T>, key: T, less: (T, T) -> bool, j: nat)
    requires j <= |prefix|
  {
    Insert(prefix, key, less) == Insert(prefix[..j], key, less) + prefix[j..]
  }

  lemma ShiftStart<T>(prefix: seq<T>, key: T, less: (T, T) -> bool)
    ensures Shifted(prefix, key, less, |prefix|)
  {
    assert prefix[..|prefix|] == prefix && prefix[|prefix|..] == [];
  }

  lemma ShiftStep<T>(prefix: seq<T>, key: T, less: (T, T) -> bool, j: nat)
    requires 0 < j <= |prefix| && less(key, prefix[j - 1]) && Shifted(prefix, key, less, j)
    ensures Shifted(prefix, key, less, j - 1)
  {
    assert prefix[..j][..j - 1] == prefix[..j - 1];
    assert [prefix[j - 1]] + prefix[j..] == prefix[j - 1..];
  }

  lemma ShiftDone<T>(prefix: seq<T>, key: T, less: (T, T) -> bool, j: nat)
    requires j <= |prefix| && (j == 0 || !less(key, prefix[j - 1])) && Shifted(prefix, key, less, j)
    ensures Insert(prefix, key, less) == prefix[..j] + [key] + prefix[j..]
  {
  }

  // ------------------------------------------------ what sorting means

  lemma {:induction false} InsertPermutes<T>(sorted: seq<T>, key: T, less: (T, T) -> bool)
    ensures multiset(Insert(sorted, key, less)) == multiset(sorted) + multiset{key}
  {
    var n := |sorted|;
    if n == 0 || !less(key, sorted[n - 1]) {
    } else {
      InsertPermutes(sorted[..n - 1], key, less);
      assert sorted == sorted[..n - 1] + [sorted[n - 1]];
    }
  }

  lemma {:induction false} SortedPermutes<T>(s: seq<T>, less: (T, T) -> bool)
    ensures multiset(Sorted(s, less)) == multiset(s) && |Sorted(s, less)| == |s|
  {
    if s == [] {
    } else {
      SortedPermutes(s[..|s| - 1], less);
      InsertPermutes(Sorted(s[..|s| - 1], less), s[|s| - 1], less);
      assert s == s[..|s| - 1] + [s[|s| - 1]];
      assert |multiset(Sorted(s, less))| == |multiset(s)|;
    }
  }

  /** Same elements. */
  lemma SortedMembers<T>(s: seq<T>, less: (T, T) -> bool, x: T)
    ensures x in Sorted(s, less) <==> x in s
  {
    SortedPermutes(s, less);
    assert x in multiset(s) <==> x in s;
    assert x in multiset(Sorted(s, less)) <==> x in Sorted(s, less);
  }

  ghost predicate StrictWeakOrder<T(!new)>(less: (T, T) -> bool) {
    && (forall a, b :: less(a, b) ==> !less(b, a))
    && (forall a, b, c :: less(a, b) ==> less(a, c) || less(c, b))
  }

  predicate Ordered<T>(s: seq<T>, less: (T, T) -> bool) {
    forall i, j :: 0 <= i < j < |s| ==> !less(s[j], s[i])
  }

  lemma {:induction false} InsertOrders<T(!new)>(sorted: seq<T>, key: T, less: (T, T) -> bool)
    requires StrictWeakOrder(less) && Ordered(sorted, less)
    ensures Ordered(Insert(sorted, key, less), less)
  {
    var n := |sorted|;
    if n == 0 || !less(key, sorted[n - 1]) {
    } else {
      var front, last := sorted[..n - 1], sorted[n - 1];
      InsertOrders(front, key, less);
      InsertPermutes(front, key, less);
      var r := Insert(front, key, less);
      forall i | 0 <= i < |r| ensures !less(last, r[i]) {
        assert r[i] in multiset(r);
        assert r[i] in multiset(front) + multiset{key};
        if r[i] != key {
          assert r[i] in front;
        }
      }
    }
  }

  lemma {:induction false} SortedOrders<T(!new)>(s: seq<T>, less: (T, T) -> bool)
    requires StrictWeakOrder(less)
    ensures Ordered(Sorted(s, less), less)
  {
    if s == [] {
    } else {
      SortedOrders(s[..|s| - 1], less);
      InsertOrders(Sorted(s[..|s| - 1], less), s[|s| - 1], less);
    }
  }

  function Filter<T(!new)>(s: seq<T>, p: T -> bool): (r: seq<T>)
    ensures forall x :: x in r <==> x in s && p(x)
  {
    if s == [] then []
    else Filter(s[..|s| - 1], p) + if p(s[|s| - 1]) then [s[|s| - 1]] else []
  }

  lemma FilterLast<T(!new)>(s: seq<T>, x: T, p: T -> bool)
    ensures Filter(s + [x], p) == Filter(s, p) + if p(x) then [x] else []
  {
    assert (s + [x])[..|s|] == s;
  }

  /** No element of the class comes before another: `less` cannot tell them apart. */
  ghost predicate Indistinct<T(!new)>(p: T -> bool, less: (T, T) -> bool) {
    forall a, b :: p(a) && p(b) ==> !less(a, b)
  }

  lemma {:induction false} InsertIsStable<T(!new)>(sorted: seq<T>, key: T, less: (T, T) -> bool, p: T -> bool)
    requires Indistinct(p, less)
    ensures Filter(Insert(sorted, key, less), p) == Filter(sorted, p) + if p(key) then [key] else []
  {
    hide Filter;
    var n := |sorted|;
    if n == 0 || !less(key, sorted[n - 1]) {
      FilterLast(sorted, key, p);
    } else {
      var front, last := sorted[..n - 1], sorted[n - 1];
      InsertIsStable(front, key, less, p);
      FilterLast(Insert(front, key, less), last, p);
      FilterLast(front, last, p);
      assert sorted == front + [last];
      assert !p(key) || !p(last);
    }
  }

  /** Sorting is stable: elements the order cannot tell apart keep their relative order. */
  lemma {:induction false} SortedIsStable<T(!new)>(s: seq<T>, less: (T, T) -> bool, p: T -> bool)
    requires Indistinct(p, less)
    ensures Filter(Sorted(s, less), p) == Filter(s, p)
  {
    if s == [] {
    } else {
      var front, last := s[..|s| - 1], s[|s| - 1];
      SortedIsStable(front, less, p);
      InsertIsStable(Sorted(front, less), last, less, p);
    }
  }

  // ------------------------------------------------ searching

  /** `below` holds on a prefix of `s` and nowhere else. */
  predicate Partitioned<T>(s: seq<T>, below: T -> bool) {
    forall i, j :: 0 <= i < j < |s| && below(s[j]) ==> below(s[i])
  }

  /** Where halving the range from `left` to `right` ends, on any list. */
  function Search<T>(s: seq<T>, below: T -> bool, left: nat, right: nat): (position: nat)
    requires left <= right <= |s|
    ensures left <= position <= right
    decreases right - left
  {
    if left == right then left
    else
      var middle := left + (right - left) / 2;
      if below(s[middle]) then Search(s, below, middle + 1, right) else Search(s, below, left, middle)
  }

  lemma SearchStep<T>(s: seq<T>, below: T -> bool, left: nat, right: nat)
    requires left <= right <= |s|
    ensures Search(s, below, left, right)
         == if left == right then left
            else var middle := left + (right - left) / 2;
                 if below(s[middle]) then Search(s, below, middle + 1, right) else Search(s, below, left, middle)
  {
  }

  /** The binary search all lookups share: the first position where `below` stops holding; on any other list
   a position where it stops. */
  method LowerBound<T>(s: seq<T>, below: T -> bool) returns (left: nat)
    ensures left == Search(s, below, 0, |s|) <= |s|
    ensures Partitioned(s, below) ==>
      (forall i :: 0 <= i < left ==> below(s[i])) && (forall i :: left <= i < |s| ==> !below(s[i]))
    ensures (left == 0 || below(s[left - 1])) && (left == |s| || !below(s[left]))
  {
    hide Search;
    left := 0;
    var right := |s|;
    while left < right
      invariant left <= right <= |s| && Search(s, below, left, right) == Search(s, below, 0, |s|)
      invariant (left == 0 || below(s[left - 1])) && (right == |s| || !below(s[right]))
      invariant Partitioned(s, below) ==>
        (forall i :: 0 <= i < left ==> below(s[i])) && (forall i :: right <= i < |s| ==> !below(s[i]))
    {
      var middle := left + (right - left) / 2;
      SearchStep(s, below, left, right);
      if below(s[middle]) {
        left := middle + 1;
      } else {
        right := middle;
      }
    }
    SearchStep(s, below, left, right);
  }
}
