/**
 * A stable sort by an integer key: what `Array.prototype.sort` does with
 * the comparator `(a, b) => key(a) - key(b)` (the sort is stable since
 * ECMAScript 2019). Modelled as an insertion sort that places each
 * element after every element whose key is not larger.
 */
module Sorting {
  import Lists

  predicate SortedBy<T>(xs: seq<T>, key: T -> int) {
    forall i, j | 0 <= i < j < |xs| :: key(xs[i]) <= key(xs[j])
  }

  /** The elements whose key is `k`. */
  function HasKey<T>(key: T -> int, k: int): T -> bool {
    (x: T) => key(x) == k
  }

  /** Where an element with key `k` goes in a sorted list: after every
      element whose key is at most `k`, before every larger one. */
  function Slot<T>(s: seq<T>, k: int, key: T -> int): (pos: nat)
    requires SortedBy(s, key)
    ensures pos <= |s|
    ensures forall i | 0 <= i < pos :: key(s[i]) <= k
    ensures forall i | pos <= i < |s| :: k < key(s[i])
  {
    if s == [] || key(s[|s| - 1]) <= k then |s| else Slot(s[..|s| - 1], k, key)
  }

  function InsertSorted<T>(s: seq<T>, x: T, key: T -> int): (r: seq<T>)
    requires SortedBy(s, key)
    ensures SortedBy(r, key)
    ensures multiset(r) == multiset(s) + multiset{x}
  {
    var pos := Slot(s, key(x), key);
    assert s == s[..pos] + s[pos..];
    var r := s[..pos] + [x] + s[pos..];
    assert forall i | 0 <= i < |r| :: r[i] == (if i < pos then s[i] else if i == pos then x else s[i - 1]);
    r
  }

  function SortBy<T>(xs: seq<T>, key: T -> int): (r: seq<T>)
    ensures SortedBy(r, key)
    ensures multiset(r) == multiset(xs)
  {
    if xs == [] then []
    else
      assert xs == xs[..|xs| - 1] + [xs[|xs| - 1]];
      InsertSorted(SortBy(xs[..|xs| - 1], key), xs[|xs| - 1], key)
  }

  /** Inserting appends the new element to the ones sharing its key. */
  lemma InsertStable<T>(s: seq<T>, x: T, key: T -> int, k: int)
    requires SortedBy(s, key)
    ensures Lists.Filter(InsertSorted(s, x, key), HasKey(key, k))
         == Lists.Filter(s, HasKey(key, k)) + (if key(x) == k then [x] else [])
  {
    var pos := Slot(s, key(x), key);
    var a, b := s[..pos], s[pos..];
    assert s == a + b;
    assert InsertSorted(s, x, key) == a + [x] + b;
    FilterBehind(a, x, b, HasKey(key, k));
  }

  /** Filtering a list with `x` placed in front of elements that all fail
      the test (whenever `x` passes it) is filtering the list and then
      appending `x` if it passes. */
  lemma FilterBehind<T>(a: seq<T>, x: T, b: seq<T>, p: T -> bool)
    requires p(x) ==> forall i | 0 <= i < |b| :: !p(b[i])
    ensures Lists.Filter(a + [x] + b, p) == Lists.Filter(a + b, p) + (if p(x) then [x] else [])
  {
    Lists.FilterSplice(a, x, b, p);
    Lists.FilterAppend(a, b, p);
    if p(x) {
      Lists.FilterKeep(x, p);
      Lists.FilterEmpty(b, p);
      assert Lists.Filter(a, p) + [x] + [] == Lists.Filter(a, p) + [] + [x];
    } else {
      Lists.FilterNone(x, p);
      assert Lists.Filter(a, p) + [] + Lists.Filter(b, p) == Lists.Filter(a, p) + Lists.Filter(b, p) + [];
    }
  }

  /** Stability: the elements sharing any one key keep their input order. */
  lemma {:induction false} SortByStable<T>(xs: seq<T>, key: T -> int, k: int)
    ensures Lists.Filter(SortBy(xs, key), HasKey(key, k)) == Lists.Filter(xs, HasKey(key, k))
  {
    if xs != [] {
      var init, x := xs[..|xs| - 1], xs[|xs| - 1];
      SortByStable(init, key, k);
      InsertStable(SortBy(init, key), x, key, k);
    }
  }

  lemma InsertSum<T>(s: seq<T>, x: T, key: T -> int, f: T -> nat)
    requires SortedBy(s, key)
    ensures Lists.Sum(InsertSorted(s, x, key), f) == Lists.Sum(s, f) + f(x)
  {
    var pos := Slot(s, key(x), key);
    var a, b := s[..pos], s[pos..];
    assert s == a + b;
    Lists.SumAppend(a + [x], b, f);
    Lists.SumAppend(a, [x], f);
    Lists.SumAppend(a, b, f);
    Lists.SumSingle(x, f);
  }

  /** Sorting does not change a total. */
  lemma {:induction false} SortBySum<T>(xs: seq<T>, key: T -> int, f: T -> nat)
    ensures Lists.Sum(SortBy(xs, key), f) == Lists.Sum(xs, f)
  {
    if xs != [] {
      var init, x := xs[..|xs| - 1], xs[|xs| - 1];
      SortBySum(init, key, f);
      InsertSum(SortBy(init, key), x, key, f);
    }
  }
}
