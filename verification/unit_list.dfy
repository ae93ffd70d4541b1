/** The admin unit list: units shown in runs of equal content, reordered by
    drag and drop, and deleted one at a time. */
module UnitList {
  import opened Wrappers
  import Lists

  datatype UnitData = UnitData(id: string, title: string, unitContent: Option<string>)

  datatype UnitGroup = UnitGroup(content: Option<string>, units: seq<UnitData>)

  // ---------------------------------------------------------------------
  // Runs of equal content
  // ---------------------------------------------------------------------

  /** `groupUnitsByContent`: a new group starts at the first unit and at
      every unit whose content differs from the current group's. */
  function Runs(units: seq<UnitData>): (gs: seq<UnitGroup>)
    ensures units == [] <==> gs == []
  {
    if units == [] then [] else Step(Runs(units[..|units| - 1]), units[|units| - 1])
  }

  /** One iteration of the loop: open a new group or extend the current one. */
  function Step(gs: seq<UnitGroup>, u: UnitData): (r: seq<UnitGroup>)
    ensures r != []
  {
    if gs == [] || gs[|gs| - 1].content != u.unitContent then gs + [UnitGroup(u.unitContent, [u])]
    else gs[..|gs| - 1] + [gs[|gs| - 1].(units := gs[|gs| - 1].units + [u])]
  }

  function Flatten(gs: seq<UnitGroup>): seq<UnitData> {
    if gs == [] then [] else Flatten(gs[..|gs| - 1]) + gs[|gs| - 1].units
  }

  /** Every group is non-empty and all of its units carry its content. */
  predicate Homogeneous(gs: seq<UnitGroup>) {
    forall i | 0 <= i < |gs| :: GroupOk(gs[i])
  }

  predicate GroupOk(g: UnitGroup) {
    g.units != [] && forall j | 0 <= j < |g.units| :: g.units[j].unitContent == g.content
  }

  /** Neighbouring groups differ in content: the groups are maximal runs. */
  predicate Maximal(gs: seq<UnitGroup>) {
    forall i | 0 <= i < |gs| - 1 :: gs[i].content != gs[i + 1].content
  }

  /** The groups put back together are the input list, each group holds
      units of one content, and no two neighbouring groups could merge. */
  lemma {:induction false} RunsPartition(units: seq<UnitData>)
    ensures Flatten(Runs(units)) == units
    ensures Homogeneous(Runs(units))
    ensures Maximal(Runs(units))
  {
    if units != [] {
      var init, u := units[..|units| - 1], units[|units| - 1];
      RunsPartition(init);
      Lists.InitLast(units);
      StepFlatten(Runs(init), u);
      StepHomogeneous(Runs(init), u);
      StepMaximal(Runs(init), u);
    }
  }

  lemma StepFlatten(gs: seq<UnitGroup>, u: UnitData)
    ensures Flatten(Step(gs, u)) == Flatten(gs) + [u]
  {
    var r := Step(gs, u);
    if gs == [] || gs[|gs| - 1].content != u.unitContent {
      assert r[..|r| - 1] == gs;
      assert Flatten(r) == Flatten(gs) + [u];
    } else {
      var front, last := gs[..|gs| - 1], gs[|gs| - 1];
      assert r[..|r| - 1] == front && r[|r| - 1].units == last.units + [u];
      assert Flatten(gs) == Flatten(front) + last.units;
      assert Flatten(r) == Flatten(front) + (last.units + [u]);
      assert Flatten(front) + (last.units + [u]) == Flatten(front) + last.units + [u];
    }
  }

  lemma StepHomogeneous(gs: seq<UnitGroup>, u: UnitData)
    requires Homogeneous(gs)
    ensures Homogeneous(Step(gs, u))
  {
    var r := Step(gs, u);
    if gs == [] || gs[|gs| - 1].content != u.unitContent {
      assert GroupOk(UnitGroup(u.unitContent, [u]));
    } else {
      var last := gs[|gs| - 1];
      var grown := last.(units := last.units + [u]);
      assert GroupOk(last);
      assert forall j | 0 <= j < |last.units| :: grown.units[j] == last.units[j];
      assert GroupOk(grown);
      assert forall i | 0 <= i < |r| - 1 :: r[i] == gs[i];
    }
  }

  lemma StepMaximal(gs: seq<UnitGroup>, u: UnitData)
    requires Maximal(gs)
    ensures Maximal(Step(gs, u))
  {
    var r := Step(gs, u);
    if gs == [] || gs[|gs| - 1].content != u.unitContent {
      assert forall i | 0 <= i < |gs| :: r[i] == gs[i];
    } else {
      assert forall i | 0 <= i < |r| - 1 :: r[i] == gs[i];
      assert r[|r| - 1].content == gs[|gs| - 1].content;
    }
  }

  // ---------------------------------------------------------------------
  // Drag and drop
  // ---------------------------------------------------------------------

  /** Inserting `x` before position `i`. */
  function Insert<T>(xs: seq<T>, i: nat, x: T): (r: seq<T>)
    requires i <= |xs|
    ensures |r| == |xs| + 1 && r[i] == x
    ensures forall k | 0 <= k < |r| && k != i :: r[k] == xs[if k < i then k else k - 1]
  {
    xs[..i] + [x] + xs[i..]
  }

  /** `arrayMove(xs, from, to)`: take the element at `from` out and put it
      back so that it sits at `to`. */
  function ArrayMove<T>(xs: seq<T>, from: nat, to: nat): (r: seq<T>)
    requires from < |xs| && to < |xs|
    ensures |r| == |xs| && r[to] == xs[from]
  {
    Insert(Lists.Without(xs, from), to, xs[from])
  }

  /** Taking the moved element out again leaves the others in their old
      order, and the move only permutes the list. */
  lemma ArrayMoveMeaning<T>(xs: seq<T>, from: nat, to: nat)
    requires from < |xs| && to < |xs|
    ensures Lists.Without(ArrayMove(xs, from, to), to) == Lists.Without(xs, from)
    ensures multiset(ArrayMove(xs, from, to)) == multiset(xs)
  {
    var rest := Lists.Without(xs, from);
    InsertWithout(rest, to, xs[from]);
    InsertMultiset(rest, to, xs[from]);
    Lists.WithoutMultiset(xs, from);
  }

  lemma InsertWithout<T>(xs: seq<T>, i: nat, x: T)
    requires i <= |xs|
    ensures Lists.Without(Insert(xs, i, x), i) == xs
  {
    var r := Insert(xs, i, x);
    Lists.WithoutSplice(r, i);
    assert r[..i] == xs[..i] && r[i + 1..] == xs[i..];
    assert xs[..i] + xs[i..] == xs;
  }

  lemma InsertMultiset<T>(xs: seq<T>, i: nat, x: T)
    requires i <= |xs|
    ensures multiset(Insert(xs, i, x)) == multiset(xs) + multiset{x}
  {
    assert xs[..i] + xs[i..] == xs;
    assert multiset(xs) == multiset(xs[..i]) + multiset(xs[i..]);
  }

  function IdIs(id: string): UnitData -> bool {
    (u: UnitData) => u.id == id
  }

  /** `handleDragEnd`: the list after a drop. Dropping nowhere, onto the
      dragged unit itself or with an id not in the list changes nothing;
      otherwise the unit moves, and a failed save restores the list the
      component was created with. */
  function DragEnd(local: seq<UnitData>, initial: seq<UnitData>, activeId: string, overId: Option<string>, saved: bool): (r: seq<UnitData>)
    ensures overId.None? || overId.value == activeId ==> r == local
    ensures overId.Some? && (Lists.FindIndex(local, IdIs(activeId)) == -1 || Lists.FindIndex(local, IdIs(overId.value)) == -1) ==> r == local
  {
    if overId.None? || activeId == overId.value then local
    else
      var oldIndex := Lists.FindIndex(local, IdIs(activeId));
      var newIndex := Lists.FindIndex(local, IdIs(overId.value));
      if oldIndex == -1 || newIndex == -1 then local
      else if saved then ArrayMove(local, oldIndex, newIndex)
      else initial
  }

  /** A saved drop of the unit at `i` onto the unit at `j` (ids distinct)
      puts it at `j` and keeps every other unit in order. */
  lemma DragMoves(local: seq<UnitData>, initial: seq<UnitData>, i: nat, j: nat)
    requires i < |local| && j < |local| && i != j
    requires forall a, b | 0 <= a < b < |local| :: local[a].id != local[b].id
    ensures DragEnd(local, initial, local[i].id, Some(local[j].id), true)[j] == local[i]
    ensures Lists.Without(DragEnd(local, initial, local[i].id, Some(local[j].id), true), j) == Lists.Without(local, i)
    ensures DragEnd(local, initial, local[i].id, Some(local[j].id), false) == initial
  {
    Lists.FindIndexDistinct(local, i, IdIs(local[i].id));
    Lists.FindIndexDistinct(local, j, IdIs(local[j].id));
    ArrayMoveMeaning(local, i, j);
  }

  // ---------------------------------------------------------------------
  // Deleting
  // ---------------------------------------------------------------------

  function IdIsNot(id: string): UnitData -> bool {
    (u: UnitData) => u.id != id
  }

  /** `handleDelete` after a successful delete: every unit with that id
      leaves the list. */
  function Delete(local: seq<UnitData>, deleteId: string): (r: seq<UnitData>)
    ensures forall k | 0 <= k < |r| :: r[k].id != deleteId && r[k] in local
  {
    Lists.FilterIn(local, IdIsNot(deleteId));
    Lists.Filter(local, IdIsNot(deleteId))
  }

  /** Deleting the one unit with that id removes exactly that unit. */
  lemma DeleteOne(local: seq<UnitData>, i: nat)
    requires i < |local|
    requires forall k | 0 <= k < |local| && k != i :: local[k].id != local[i].id
    ensures Delete(local, local[i].id) == Lists.Without(local, i)
  {
    var p := IdIsNot(local[i].id);
    assert !p(local[i]);
    assert forall k | 0 <= k < |local| && k != i :: p(local[k]);
    Lists.FilterOne(local, i, p);
  }
}
