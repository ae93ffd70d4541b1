/** List helpers shared by the form editors and the list views. */
module Lists {

  /** `xs.map((x, idx) => idx === i ? f(x) : x)`: the element at `i`
      replaced by its image, every other element left alone. */
  function UpdateAt<T>(xs: seq<T>, i: nat, f: T -> T): (r: seq<T>)
    requires i < |xs|
    ensures |r| == |xs| && r[i] == f(xs[i])
    ensures forall j | 0 <= j < |xs| && j != i :: r[j] == xs[j]
  {
    xs[i := f(xs[i])]
  }

  /** `xs.filter((_, idx) => idx !== i)`: every element but the one at `i`. */
  function Without<T>(xs: seq<T>, i: int): (r: seq<T>)
    ensures 0 <= i < |xs| ==> |r| == |xs| - 1
    ensures !(0 <= i < |xs|) ==> r == xs
    ensures 0 <= i < |xs| ==> forall k | 0 <= k < |r| :: r[k] == xs[if k < i then k else k + 1]
    decreases |xs|
  {
    if xs == [] then []
    else (if i == 0 then [] else [xs[0]]) + Without(xs[1..], i - 1)
  }

  /** Removing the element just appended gives the list back. */
  lemma WithoutLast<T>(xs: seq<T>, x: T)
    ensures Without(xs + [x], |xs|) == xs
  {
    var r := Without(xs + [x], |xs|);
    assert |r| == |xs|;
    forall k | 0 <= k < |xs|
      ensures r[k] == xs[k]
    {
    }
  }

  /** The number of elements satisfying `p`. */
  function Count<T>(xs: seq<T>, p: T -> bool): (n: nat)
    ensures n <= |xs|
  {
    if xs == [] then 0
    else (if p(xs[|xs| - 1]) then 1 else 0) + Count(xs[..|xs| - 1], p)
  }

  lemma {:induction false} CountAppend<T>(a: seq<T>, b: seq<T>, p: T -> bool)
    ensures Count(a + b, p) == Count(a, p) + Count(b, p)
    decreases |b|
  {
    if b == [] {
      assert a + b == a;
    } else {
      var c := a + b;
      assert c[..|c| - 1] == a + b[..|b| - 1];
      assert c[|c| - 1] == b[|b| - 1];
      CountAppend(a, b[..|b| - 1], p);
    }
  }

  lemma WithoutSplice<T>(xs: seq<T>, i: int)
    requires 0 <= i < |xs|
    ensures Without(xs, i) == xs[..i] + xs[i + 1..]
  {
  }

  lemma CountSingle<T>(x: T, p: T -> bool)
    ensures Count([x], p) == if p(x) then 1 else 0
  {
    assert [x][..0] == [];
  }

  lemma InitLast<T>(xs: seq<T>)
    requires xs != []
    ensures xs == xs[..|xs| - 1] + [xs[|xs| - 1]]
  {
  }

  lemma SplitAt<T>(xs: seq<T>, i: nat)
    requires i < |xs|
    ensures xs == xs[..i] + [xs[i]] + xs[i + 1..]
  {
  }

  lemma CountSplice<T>(a: seq<T>, x: T, b: seq<T>, p: T -> bool)
    ensures Count(a + [x] + b, p) == Count(a, p) + Count(b, p) + (if p(x) then 1 else 0)
  {
    CountAppend(a + [x], b, p);
    CountAppend(a, [x], p);
    CountSingle(x, p);
  }

  /** Removing one element lowers the count by one exactly when it satisfies `p`. */
  lemma CountWithout<T>(xs: seq<T>, i: int, p: T -> bool)
    requires 0 <= i < |xs|
    ensures Count(Without(xs, i), p) == Count(xs, p) - (if p(xs[i]) then 1 else 0)
  {
    WithoutSplice(xs, i);
    SplitAt(xs, i);
    CountAppend(xs[..i], xs[i + 1..], p);
    CountSplice(xs[..i], xs[i], xs[i + 1..], p);
  }

  /** The count is zero exactly when no element satisfies `p`. */
  lemma {:induction false} CountZero<T>(xs: seq<T>, p: T -> bool)
    ensures Count(xs, p) == 0 <==> forall k | 0 <= k < |xs| :: !p(xs[k])
  {
    if xs != [] {
      CountZero(xs[..|xs| - 1], p);
      assert forall k | 0 <= k < |xs| - 1 :: xs[..|xs| - 1][k] == xs[k];
    }
  }

  /** The count is one when exactly one position satisfies `p`. */
  lemma {:induction false} CountOne<T>(xs: seq<T>, i: nat, p: T -> bool)
    requires i < |xs| && p(xs[i])
    requires forall k | 0 <= k < |xs| && k != i :: !p(xs[k])
    ensures Count(xs, p) == 1
  {
    SplitAt(xs, i);
    CountSplice(xs[..i], xs[i], xs[i + 1..], p);
    CountZero(xs[..i], p);
    CountZero(xs[i + 1..], p);
  }

  /** No element occurs twice. */
  predicate Distinct<T(==)>(xs: seq<T>) {
    forall i, j | 0 <= i < j < |xs| :: xs[i] != xs[j]
  }

  /** `xs.findIndex(p)`: the first position satisfying `p`, or -1. */
  function FindIndex<T>(xs: seq<T>, p: T -> bool): (r: int)
    ensures -1 <= r < |xs|
    ensures r >= 0 ==> p(xs[r]) && forall k | 0 <= k < r :: !p(xs[k])
    ensures r == -1 ==> forall k | 0 <= k < |xs| :: !p(xs[k])
  {
    if xs == [] then -1
    else if p(xs[0]) then 0
    else
      var r := FindIndex(xs[1..], p);
      assert forall k | 1 <= k < |xs| :: xs[k] == xs[1..][k - 1];
      if r == -1 then -1 else r + 1
  }

  /** The position of `x` in a list without repeats is where it sits. */
  lemma FindIndexDistinct<T>(xs: seq<T>, i: nat, p: T -> bool)
    requires i < |xs| && p(xs[i])
    requires forall k | 0 <= k < |xs| && k != i :: !p(xs[k])
    ensures FindIndex(xs, p) == i
  {
  }

  /** `xs.filter(p)`: the elements satisfying `p`, in order. */
  function Filter<T>(xs: seq<T>, p: T -> bool): (r: seq<T>)
    ensures |r| == Count(xs, p)
    ensures forall i | 0 <= i < |r| :: p(r[i])
  {
    if xs == [] then [] else Filter(xs[..|xs| - 1], p) + (if p(xs[|xs| - 1]) then [xs[|xs| - 1]] else [])
  }

  lemma {:induction false} FilterAppend<T>(a: seq<T>, b: seq<T>, p: T -> bool)
    ensures Filter(a + b, p) == Filter(a, p) + Filter(b, p)
    decreases |b|
  {
    if b == [] {
      assert a + b == a;
    } else {
      var front, x := b[..|b| - 1], b[|b| - 1];
      var tail := if p(x) then [x] else [];
      calc {
        Filter(a + b, p);
        { assert a + b == (a + front) + [x]; }
        Filter((a + front) + [x], p);
        { FilterSnoc(a + front, x, p); }
        Filter(a + front, p) + tail;
        { FilterAppend(a, front, p); }
        Filter(a, p) + Filter(front, p) + tail;
        { FilterSnoc(front, x, p); assert b == front + [x]; }
        Filter(a, p) + Filter(b, p);
      }
    }
  }

  lemma FilterSnoc<T>(xs: seq<T>, x: T, p: T -> bool)
    ensures Filter(xs + [x], p) == Filter(xs, p) + (if p(x) then [x] else [])
  {
    assert (xs + [x])[..|xs|] == xs;
  }

  /** Keeping the elements that satisfy `p` keeps exactly those. */
  lemma {:induction false} FilterAll<T>(xs: seq<T>, p: T -> bool)
    requires forall i | 0 <= i < |xs| :: p(xs[i])
    ensures Filter(xs, p) == xs
  {
    if xs != [] {
      assert forall i | 0 <= i < |xs| - 1 :: xs[..|xs| - 1][i] == xs[i];
      FilterAll(xs[..|xs| - 1], p);
    }
  }

  /** Removing an element takes one copy of it out of the multiset. */
  lemma WithoutMultiset<T>(xs: seq<T>, i: nat)
    requires i < |xs|
    ensures multiset(Without(xs, i)) + multiset{xs[i]} == multiset(xs)
  {
    var a, b := xs[..i], xs[i + 1..];
    WithoutSplice(xs, i);
    SplitAt(xs, i);
    calc {
      multiset(xs);
    ==
      multiset(a + [xs[i]] + b);
    ==
      multiset(a) + multiset{xs[i]} + multiset(b);
    ==
      multiset(a + b) + multiset{xs[i]};
    }
  }

  /** Filtering only keeps elements it was given. */
  lemma {:induction false} FilterIn<T>(xs: seq<T>, p: T -> bool)
    ensures forall y | y in Filter(xs, p) :: y in xs
  {
    if xs != [] {
      FilterIn(xs[..|xs| - 1], p);
      assert xs == xs[..|xs| - 1] + [xs[|xs| - 1]];
    }
  }

  /** Filtering keeps every element that passes. */
  lemma {:induction false} FilterHas<T>(xs: seq<T>, p: T -> bool)
    ensures forall y | y in xs && p(y) :: y in Filter(xs, p)
  {
    if xs != [] {
      FilterHas(xs[..|xs| - 1], p);
      assert xs == xs[..|xs| - 1] + [xs[|xs| - 1]];
    }
  }

  /** Filtering out the one element that fails `p` is removing it. */
  lemma FilterOne<T>(xs: seq<T>, i: nat, p: T -> bool)
    requires i < |xs| && !p(xs[i])
    requires forall k | 0 <= k < |xs| && k != i :: p(xs[k])
    ensures Filter(xs, p) == Without(xs, i)
  {
    var a, x, b := xs[..i], xs[i], xs[i + 1..];
    SplitAt(xs, i);
    WithoutSplice(xs, i);
    assert forall k | 0 <= k < |a| :: p(a[k]) by {
      forall k | 0 <= k < |a|
        ensures p(a[k])
      {
        assert a[k] == xs[k];
      }
    }
    assert forall k | 0 <= k < |b| :: p(b[k]) by {
      forall k | 0 <= k < |b|
        ensures p(b[k])
      {
        assert b[k] == xs[i + 1 + k];
      }
    }
    FilterAll(a, p);
    FilterAll(b, p);
    FilterNone(x, p);
    FilterSplice(a, x, b, p);
    FilterOneFinish(xs, a, x, b, p);
  }

  lemma FilterOneFinish<T>(xs: seq<T>, a: seq<T>, x: T, b: seq<T>, p: T -> bool)
    requires xs == a + [x] + b
    requires Filter(a + [x] + b, p) == Filter(a, p) + Filter([x], p) + Filter(b, p)
    requires Filter(a, p) == a && Filter(b, p) == b && Filter([x], p) == []
    ensures Filter(xs, p) == a + b
  {
    assert a + [] + b == a + b;
  }

  lemma FilterSplice<T>(a: seq<T>, x: T, b: seq<T>, p: T -> bool)
    ensures Filter(a + [x] + b, p) == Filter(a, p) + Filter([x], p) + Filter(b, p)
  {
    FilterAppend(a + [x], b, p);
    FilterAppend(a, [x], p);
  }

  lemma FilterNone<T>(x: T, p: T -> bool)
    requires !p(x)
    ensures Filter([x], p) == []
  {
    assert [x][..0] == [];
  }

  lemma FilterKeep<T>(x: T, p: T -> bool)
    requires p(x)
    ensures Filter([x], p) == [x]
  {
    assert [x][..0] == [];
  }

  /** Nothing survives a filter no element passes. */
  lemma FilterEmpty<T>(xs: seq<T>, p: T -> bool)
    requires forall k | 0 <= k < |xs| :: !p(xs[k])
    ensures Filter(xs, p) == []
  {
    CountZero(xs, p);
  }

  /** Filtering twice with a test the second implies is filtering once. */
  lemma {:induction false} FilterFilter<T>(xs: seq<T>, p: T -> bool, q: T -> bool)
    requires forall x :: q(x) ==> p(x)
    ensures Filter(Filter(xs, p), q) == Filter(xs, q)
  {
    if xs != [] {
      var init, x := xs[..|xs| - 1], xs[|xs| - 1];
      FilterFilter(init, p, q);
      if p(x) {
        FilterAppend(Filter(init, p), [x], q);
        if q(x) { FilterKeep(x, q); } else { FilterNone(x, q); }
      } else {
        assert Filter(xs, p) == Filter(init, p) + [];
        assert Filter(init, p) + [] == Filter(init, p);
      }
    }
  }

  // ---------------------------------------------------------------------
  // Sums
  // ---------------------------------------------------------------------

  /** `xs.reduce((acc, x) => acc + f(x), 0)`. */
  function Sum<T>(xs: seq<T>, f: T -> nat): nat {
    if xs == [] then 0 else Sum(xs[..|xs| - 1], f) + f(xs[|xs| - 1])
  }

  lemma {:induction false} SumAppend<T>(a: seq<T>, b: seq<T>, f: T -> nat)
    ensures Sum(a + b, f) == Sum(a, f) + Sum(b, f)
    decreases |b|
  {
    if b == [] {
      assert a + b == a;
    } else {
      var c := a + b;
      assert c[..|c| - 1] == a + b[..|b| - 1];
      assert c[|c| - 1] == b[|b| - 1];
      SumAppend(a, b[..|b| - 1], f);
    }
  }

  lemma SumSingle<T>(x: T, f: T -> nat)
    ensures Sum([x], f) == f(x)
  {
    assert [x][..0] == [];
  }

  /** Elements that all fail the test may surround a list unseen. */
  lemma FilterFrame<T>(a: seq<T>, m: seq<T>, b: seq<T>, p: T -> bool)
    requires forall i | 0 <= i < |a| :: !p(a[i])
    requires forall i | 0 <= i < |b| :: !p(b[i])
    ensures Filter(a + m + b, p) == Filter(m, p)
  {
    FilterAppend(a + m, b, p);
    FilterAppend(a, m, p);
    FilterEmpty(a, p);
    FilterEmpty(b, p);
    assert [] + Filter(m, p) + [] == Filter(m, p);
  }

  /** Filtering respects concatenation piece by piece. */
  lemma FilterPieces<T>(a: seq<T>, b: seq<T>, c: seq<T>, d: seq<T>, p: T -> bool)
    requires Filter(a, p) == Filter(c, p) && Filter(b, p) == Filter(d, p)
    ensures Filter(a + b, p) == Filter(c + d, p)
  {
    FilterAppend(a, b, p);
    FilterAppend(c, d, p);
  }

  lemma SumSnoc<T>(xs: seq<T>, x: T, f: T -> nat)
    ensures Sum(xs + [x], f) == Sum(xs, f) + f(x)
  {
    assert (xs + [x])[..|xs|] == xs;
  }
}
