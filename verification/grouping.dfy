/** Grouping a list by a key the way an object used as a record does it:
    one group per distinct key, the groups in order of their key's first
    appearance, each group in input order. */
module Grouping {
  import Lists

  /** The elements whose key is `k`, in input order. */
  function WithKey<T, K(==)>(xs: seq<T>, key: T -> K, k: K): (r: seq<T>)
    ensures |r| <= |xs|
    ensures forall i | 0 <= i < |r| :: key(r[i]) == k
  {
    if xs == [] then []
    else
      var x := xs[|xs| - 1];
      WithKey(xs[..|xs| - 1], key, k) + (if key(x) == k then [x] else [])
  }

  /** The distinct keys in order of first appearance. */
  function KeysInOrder<T, K(==)>(xs: seq<T>, key: T -> K): (ks: seq<K>)
    ensures Lists.Distinct(ks)
    ensures forall i | 0 <= i < |xs| :: key(xs[i]) in ks
    ensures forall j | 0 <= j < |ks| :: WithKey(xs, key, ks[j]) != []
  {
    if xs == [] then []
    else
      var init := xs[..|xs| - 1];
      var x := xs[|xs| - 1];
      var ks := KeysInOrder(init, key);
      assert forall i | 0 <= i < |init| :: init[i] == xs[i];
      if key(x) in ks then ks else ks + [key(x)]
  }

  /** Every listed key is the key of some element. */
  lemma KeyWitness<T, K>(xs: seq<T>, key: T -> K, j: nat) returns (i: nat)
    requires j < |KeysInOrder(xs, key)|
    ensures i < |xs| && key(xs[i]) == KeysInOrder(xs, key)[j]
  {
    var k := KeysInOrder(xs, key)[j];
    var g := WithKey(xs, key, k);
    assert g != [] && key(g[0]) == k;
    WithKeyIn(xs, key, k);
    assert g[0] in xs;
    i :| 0 <= i < |xs| && xs[i] == g[0];
  }

  /** One group per distinct key, holding that key's elements. */
  function Groups<T, K(==)>(xs: seq<T>, key: T -> K): (gs: seq<(K, seq<T>)>)
    ensures |gs| == |KeysInOrder(xs, key)|
    ensures forall i | 0 <= i < |gs| :: gs[i] == (KeysInOrder(xs, key)[i], WithKey(xs, key, KeysInOrder(xs, key)[i]))
  {
    var ks := KeysInOrder(xs, key);
    seq(|ks|, i requires 0 <= i < |ks| => (ks[i], WithKey(xs, key, ks[i])))
  }

  /** One step of the reduce: `x` joins the group of its key, or opens a new
      group at the end. */
  function AddTo<T, K(==)>(gs: seq<(K, seq<T>)>, x: T, key: T -> K): (r: seq<(K, seq<T>)>)
  {
    if gs == [] then [(key(x), [x])]
    else if gs[0].0 == key(x) then [(gs[0].0, gs[0].1 + [x])] + gs[1..]
    else [gs[0]] + AddTo(gs[1..], x, key)
  }

  /** The reduce over the whole list. */
  function GroupBy<T, K(==)>(xs: seq<T>, key: T -> K): seq<(K, seq<T>)>
  {
    if xs == [] then [] else AddTo(GroupBy(xs[..|xs| - 1], key), xs[|xs| - 1], key)
  }

  function KeysOf<T, K>(gs: seq<(K, seq<T>)>): (ks: seq<K>)
    ensures |ks| == |gs| && forall i | 0 <= i < |gs| :: ks[i] == gs[i].0
  {
    seq(|gs|, i requires 0 <= i < |gs| => gs[i].0)
  }

  /** Adding to groups with distinct keys: the matching group grows by `x`,
      or a new group for `x` is appended. */
  lemma {:induction false} AddToGroups<T, K>(gs: seq<(K, seq<T>)>, x: T, key: T -> K)
    requires Lists.Distinct(KeysOf(gs))
    ensures key(x) in KeysOf(gs) ==> |AddTo(gs, x, key)| == |gs|
    ensures key(x) in KeysOf(gs) ==> forall i | 0 <= i < |gs| ::
      AddTo(gs, x, key)[i] == (gs[i].0, gs[i].1 + (if gs[i].0 == key(x) then [x] else []))
    ensures key(x) !in KeysOf(gs) ==> AddTo(gs, x, key) == gs + [(key(x), [x])]
  {
    if gs != [] {
      var rest := gs[1..];
      assert KeysOf(rest) == KeysOf(gs)[1..];
      AddToGroups(rest, x, key);
      if gs[0].0 != key(x) {
        assert key(x) in KeysOf(gs) <==> key(x) in KeysOf(rest);
        var r := AddTo(gs, x, key);
        if key(x) in KeysOf(gs) {
          forall i | 0 <= i < |gs|
            ensures r[i] == (gs[i].0, gs[i].1 + (if gs[i].0 == key(x) then [x] else []))
          {
            if i == 0 {
              assert gs[0].1 + [] == gs[0].1;
            } else {
              assert r[i] == AddTo(rest, x, key)[i - 1];
              assert rest[i - 1] == gs[i];
            }
          }
        }
      } else {
        assert forall i | 1 <= i < |gs| :: KeysOf(gs)[i] != KeysOf(gs)[0];
        assert key(x) !in KeysOf(rest);
        var r := AddTo(gs, x, key);
        forall i | 0 <= i < |gs|
          ensures r[i] == (gs[i].0, gs[i].1 + (if gs[i].0 == key(x) then [x] else []))
        {
          if i > 0 {
            assert r[i] == rest[i - 1] == gs[i];
            assert KeysOf(gs)[i] != KeysOf(gs)[0];
            assert gs[i].1 + [] == gs[i].1;
          }
        }
      }
    }
  }

  /** The reduce builds exactly the groups: distinct keys in order of first
      appearance, each with all of its elements in input order. */
  lemma {:induction false} GroupByIsGroups<T, K>(xs: seq<T>, key: T -> K)
    ensures GroupBy(xs, key) == Groups(xs, key)
  {
    if xs != [] {
      var init, x := xs[..|xs| - 1], xs[|xs| - 1];
      GroupByIsGroups(init, key);
      assert xs == init + [x];
      if key(x) in KeysInOrder(init, key) {
        GroupsStepKnown(init, x, key);
      } else {
        GroupsStepNew(init, x, key);
      }
    }
  }

  lemma GroupsStepKnown<T, K>(init: seq<T>, x: T, key: T -> K)
    requires key(x) in KeysInOrder(init, key)
    ensures Groups(init + [x], key) == AddTo(Groups(init, key), x, key)
  {
    var xs := init + [x];
    assert xs[..|xs| - 1] == init;
    var gs := Groups(init, key);
    assert KeysOf(gs) == KeysInOrder(init, key);
    AddToGroups(gs, x, key);
    var r := AddTo(gs, x, key);
    var want := Groups(xs, key);
    var ks := KeysInOrder(init, key);
    assert KeysInOrder(xs, key) == ks;
    forall i | 0 <= i < |r|
      ensures r[i] == want[i]
    {
      var k := ks[i];
      var extra := if key(x) == k then [x] else [];
      assert gs[i] == (k, WithKey(init, key, k));
      assert r[i] == (k, WithKey(init, key, k) + extra);
      assert WithKey(xs, key, k) == WithKey(init, key, k) + extra;
      assert want[i] == (k, WithKey(xs, key, k));
    }
  }

  lemma GroupsStepNew<T, K>(init: seq<T>, x: T, key: T -> K)
    requires key(x) !in KeysInOrder(init, key)
    ensures Groups(init + [x], key) == AddTo(Groups(init, key), x, key)
  {
    var xs := init + [x];
    assert xs[..|xs| - 1] == init;
    var gs := Groups(init, key);
    var ks := KeysInOrder(init, key);
    assert KeysOf(gs) == ks;
    AddToGroups(gs, x, key);
    var r := AddTo(gs, x, key);
    var want := Groups(xs, key);
    assert KeysInOrder(xs, key) == ks + [key(x)];
    assert r == gs + [(key(x), [x])];
    forall i | 0 <= i < |r|
      ensures r[i] == want[i]
    {
      if i < |gs| {
        var k := ks[i];
        assert r[i] == gs[i] == (k, WithKey(init, key, k)) && k != key(x);
        assert WithKey(xs, key, k) == WithKey(init, key, k) + [] == WithKey(init, key, k);
        assert want[i] == (k, WithKey(xs, key, k));
      } else {
        NotKeyNone(init, key, key(x));
        assert WithKey(xs, key, key(x)) == [] + [x];
        assert r[i] == (key(x), [x]);
        assert want[i] == (key(x), WithKey(xs, key, key(x)));
      }
    }
  }

  /** A key that does not occur has no elements. */
  lemma {:induction false} NotKeyNone<T, K>(xs: seq<T>, key: T -> K, k: K)
    requires k !in KeysInOrder(xs, key)
    ensures WithKey(xs, key, k) == []
  {
    if xs != [] {
      var init := xs[..|xs| - 1];
      NotKeyNone(init, key, k);
    }
  }

  /** Every element lands in exactly one group, its own key's. */
  lemma ElementInOwnGroup<T, K>(xs: seq<T>, key: T -> K, i: nat)
    requires i < |xs|
    ensures exists j | 0 <= j < |GroupBy(xs, key)| :: GroupBy(xs, key)[j].0 == key(xs[i])
    ensures forall j | 0 <= j < |GroupBy(xs, key)| && GroupBy(xs, key)[j].0 != key(xs[i]) ::
      forall y | y in GroupBy(xs, key)[j].1 :: key(y) != key(xs[i])
  {
    GroupByIsGroups(xs, key);
    var ks := KeysInOrder(xs, key);
    var j :| 0 <= j < |ks| && ks[j] == key(xs[i]);
    assert GroupBy(xs, key)[j].0 == key(xs[i]);
  }

  /** Every element of a group comes from the list. */
  lemma {:induction false} WithKeyIn<T, K>(xs: seq<T>, key: T -> K, k: K)
    ensures forall y | y in WithKey(xs, key, k) :: y in xs
  {
    if xs != [] {
      var init := xs[..|xs| - 1];
      WithKeyIn(init, key, k);
      assert xs == init + [xs[|xs| - 1]];
    }
  }
}
