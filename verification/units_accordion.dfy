/**
 * The admin units table: each course's units, grouped by their content
 * name when any unit has one, numbered row by row, and the page switcher
 * under the table.
 */
module UnitsAccordion {
  import opened Wrappers
  import Lists
  import Grouping
  import UnitActions

  type UnitItem = UnitActions.UnitSummary

  /** The key shared by every unit without a content name. */
  const Ungrouped: string := "__ungrouped__"

  /** The heading shown for the ungrouped units ("other"). */
  const OtherHeading: string := "Бусад"

  // ---------------------------------------------------------------------
  // Grouping by content
  // ---------------------------------------------------------------------

  /** `unit.unit_content || "__ungrouped__"`. */
  function ContentKey(u: UnitItem): (k: string)
    ensures k == Ungrouped <==> u.unitContent.None? || u.unitContent.value in {"", Ungrouped}
  {
    match u.unitContent
    case Some(c) => if c == "" then Ungrouped else c
    case None => Ungrouped
  }

  /** `groupUnitsByContent`: the keys in order of first appearance, each
      with its units. */
  function GroupUnits(units: seq<UnitItem>): seq<(string, seq<UnitItem>)> {
    Grouping.GroupBy(units, ContentKey)
  }

  /** The groups list every key once, in order of first appearance, and
      each holds exactly its key's units in course order. */
  lemma GroupUnitsPlacement(units: seq<UnitItem>)
    ensures var gs := GroupUnits(units);
      && Lists.Distinct(Grouping.KeysOf(gs))
      && (forall i | 0 <= i < |units| :: ContentKey(units[i]) in Grouping.KeysOf(gs))
      && (forall j | 0 <= j < |gs| :: gs[j].1 == Grouping.WithKey(units, ContentKey, gs[j].0) && gs[j].1 != [])
  {
    Grouping.GroupByIsGroups(units, ContentKey);
    var gs := GroupUnits(units);
    assert Grouping.KeysOf(gs) == Grouping.KeysInOrder(units, ContentKey);
  }

  /** `hasMultipleGroups`. */
  predicate HasMultipleGroups(order: seq<string>) {
    |order| > 1 || (|order| == 1 && order[0] != Ungrouped)
  }

  /** The grouped view is chosen exactly when some unit has a content name. */
  lemma GroupedViewIff(units: seq<UnitItem>)
    ensures HasMultipleGroups(Grouping.KeysInOrder(units, ContentKey))
        <==> exists i | 0 <= i < |units| :: ContentKey(units[i]) != Ungrouped
  {
    if HasMultipleGroups(Grouping.KeysInOrder(units, ContentKey)) {
      var i := GroupedHasNamedUnit(units);
      assert 0 <= i < |units| && ContentKey(units[i]) != Ungrouped;
    }
    if exists i | 0 <= i < |units| :: ContentKey(units[i]) != Ungrouped {
      var i :| 0 <= i < |units| && ContentKey(units[i]) != Ungrouped;
      NamedUnitGroups(units, i);
    }
  }

  lemma GroupedHasNamedUnit(units: seq<UnitItem>) returns (i: nat)
    requires HasMultipleGroups(Grouping.KeysInOrder(units, ContentKey))
    ensures i < |units| && ContentKey(units[i]) != Ungrouped
  {
    var ks := Grouping.KeysInOrder(units, ContentKey);
    var j := NamedKey(ks);
    i := Grouping.KeyWitness(units, ContentKey, j);
  }

  /** A key list without repeats and with several groups names some group. */
  lemma NamedKey(ks: seq<string>) returns (j: nat)
    requires HasMultipleGroups(ks) && Lists.Distinct(ks)
    ensures j < |ks| && ks[j] != Ungrouped
  {
    j := if ks[0] != Ungrouped then 0 else 1;
  }

  lemma NamedUnitGroups(units: seq<UnitItem>, i: nat)
    requires i < |units| && ContentKey(units[i]) != Ungrouped
    ensures HasMultipleGroups(Grouping.KeysInOrder(units, ContentKey))
  {
    var ks := Grouping.KeysInOrder(units, ContentKey);
    assert ContentKey(units[i]) in ks;
    var j :| 0 <= j < |ks| && ks[j] == ContentKey(units[i]);
    if |ks| <= 1 {
      assert j == 0;
    }
  }

  function DisplayName(key: string): string {
    if key == Ungrouped then OtherHeading else key
  }

  // ---------------------------------------------------------------------
  // Row numbers
  // ---------------------------------------------------------------------

  predicate DistinctIds(units: seq<UnitItem>) {
    forall i, j | 0 <= i < j < |units| :: units[i].id != units[j].id
  }

  function IdIs(id: string): UnitItem -> bool {
    (u: UnitItem) => u.id == id
  }

  /** `startIndex`: where the group's first unit sits in the course list. */
  function StartIndex(units: seq<UnitItem>, group: seq<UnitItem>): int
    requires group != []
  {
    Lists.FindIndex(units, IdIs(group[0].id))
  }

  /** The number shown on row `index` of a group, as written. */
  function RowNumber(units: seq<UnitItem>, group: seq<UnitItem>, index: nat): int
    requires group != []
  {
    StartIndex(units, group) + index + 1
  }

  /** A unit's place in the course list, counted from 1: the number the
      flat view shows, and the number a grouped row is meant to show. */
  function PositionNumber(units: seq<UnitItem>, u: UnitItem): int {
    Lists.FindIndex(units, IdIs(u.id)) + 1
  }

  /** The number of a unit of the list names that very unit. */
  lemma PositionNumberNamesUnit(units: seq<UnitItem>, i: nat)
    requires DistinctIds(units) && i < |units|
    ensures PositionNumber(units, units[i]) == i + 1
  {
    Lists.FindIndexDistinct(units, i, IdIs(units[i].id));
  }

  /** Corrected numbering: every row of every group shows its unit's place
      in the course list, so two rows never share a number. */
  lemma GroupedPositionNumbers(units: seq<UnitItem>, key: string, index: nat)
    requires DistinctIds(units)
    requires index < |Grouping.WithKey(units, ContentKey, key)|
    ensures var u := Grouping.WithKey(units, ContentKey, key)[index];
      var n := PositionNumber(units, u);
      1 <= n <= |units| && units[n - 1] == u
  {
    var u := Grouping.WithKey(units, ContentKey, key)[index];
    Grouping.WithKeyIn(units, ContentKey, key);
    assert u in units;
    var i :| 0 <= i < |units| && units[i] == u;
    PositionNumberNamesUnit(units, i);
  }

  /** On a group whose units are consecutive in the course list the
      written numbering is the intended one. */
  lemma RowNumberContiguous(units: seq<UnitItem>, group: seq<UnitItem>, start: nat, index: nat)
    requires DistinctIds(units)
    requires index < |group| && start + |group| <= |units| && group == units[start..start + |group|]
    ensures RowNumber(units, group, index) == PositionNumber(units, group[index]) == start + index + 1
  {
    PositionNumberNamesUnit(units, start);
    PositionNumberNamesUnit(units, start + index);
  }

  function Sample(): seq<UnitItem> {
    [ UnitActions.UnitSummary("u1", 0, "Unit 1", None, Some("A"), 0),
      UnitActions.UnitSummary("u2", 1, "Unit 2", None, Some("B"), 0),
      UnitActions.UnitSummary("u3", 2, "Unit 3", None, Some("A"), 0) ]
  }

  /** As written, interleaved contents give two rows the same number: with
      contents A, B, A the second row of group A and the only row of group
      B both show 2, and the first of them is not the unit at place 2. */
  lemma InterleavedNumbering()
    ensures var units := Sample();
      var a := Grouping.WithKey(units, ContentKey, "A");
      var b := Grouping.WithKey(units, ContentKey, "B");
      && a == [units[0], units[2]] && b == [units[1]]
      && RowNumber(units, a, 1) == 2 && RowNumber(units, b, 0) == 2
      && units[RowNumber(units, a, 1) - 1] != a[1]
  {
    var units := Sample();
    var one, two := [units[0]], units[..2];
    assert two[..1] == one && one[..0] == [];
    assert ContentKey(units[0]) == "A" && ContentKey(units[1]) == "B" && ContentKey(units[2]) == "A";
    assert Grouping.WithKey(one, ContentKey, "A") == [units[0]];
    assert Grouping.WithKey(two, ContentKey, "A") == [units[0]];
    assert Grouping.WithKey(units, ContentKey, "A") == [units[0], units[2]];
    assert Grouping.WithKey(one, ContentKey, "B") == [];
    assert Grouping.WithKey(two, ContentKey, "B") == [units[1]];
    assert Grouping.WithKey(units, ContentKey, "B") == [units[1]];
    assert IdIs("u1")(units[0]);
    assert !IdIs("u2")(units[0]) && IdIs("u2")(units[1]);
  }

  // ---------------------------------------------------------------------
  // What a course row shows
  // ---------------------------------------------------------------------

  datatype Row = Row(number: int, title: string, lessonsCount: nat)

  datatype GroupView = GroupView(heading: string, rows: seq<Row>)

  datatype CourseBody = NoUnits | Grouped(groups: seq<GroupView>) | Flat(rows: seq<Row>)

  /** `unit.title_mn || unit.title`. */
  function Label(u: UnitItem): string {
    match u.titleMn
    case Some(t) => if t != "" then t else u.title
    case None => u.title
  }

  function Rows(us: seq<UnitItem>, start: int): (rs: seq<Row>)
    ensures |rs| == |us|
    ensures forall i | 0 <= i < |us| :: rs[i] == Row(start + i + 1, Label(us[i]), us[i].lessonsCount)
  {
    seq(|us|, i requires 0 <= i < |us| => Row(start + i + 1, Label(us[i]), us[i].lessonsCount))
  }

  function GroupViews(units: seq<UnitItem>, gs: seq<(string, seq<UnitItem>)>): (r: seq<GroupView>)
    requires forall j | 0 <= j < |gs| :: gs[j].1 != []
    ensures |r| == |gs|
    ensures forall j | 0 <= j < |gs| ::
      r[j] == GroupView(DisplayName(gs[j].0), Rows(gs[j].1, StartIndex(units, gs[j].1)))
  {
    seq(|gs|, j requires 0 <= j < |gs| && gs[j].1 != [] =>
      GroupView(DisplayName(gs[j].0), Rows(gs[j].1, StartIndex(units, gs[j].1))))
  }

  /** The body of one course's accordion item. */
  function Body(units: seq<UnitItem>): (r: CourseBody)
    ensures r.NoUnits? <==> units == []
    ensures r.Flat? ==> forall i | 0 <= i < |units| :: ContentKey(units[i]) == Ungrouped
  {
    if units == [] then NoUnits
    else
      var gs := GroupUnits(units);
      GroupUnitsPlacement(units);
      GroupedViewIff(units);
      Grouping.GroupByIsGroups(units, ContentKey);
      assert Grouping.KeysOf(gs) == Grouping.KeysInOrder(units, ContentKey);
      if HasMultipleGroups(Grouping.KeysInOrder(units, ContentKey)) then Grouped(GroupViews(units, gs))
      else Flat(Rows(units, 0))
  }

  /** In the flat view every row shows its unit's place in the course. */
  lemma FlatNumbers(units: seq<UnitItem>, i: nat)
    requires DistinctIds(units) && Body(units).Flat? && i < |units|
    ensures Body(units).rows[i].number == PositionNumber(units, units[i])
  {
    PositionNumberNamesUnit(units, i);
  }

  // ---------------------------------------------------------------------
  // Pages
  // ---------------------------------------------------------------------

  datatype PageButton = PageButton(page: int, active: bool)

  datatype Pager =
    | Hidden
    | Pager(prevTarget: int, prevDisabled: bool, pages: seq<PageButton>, nextTarget: int, nextDisabled: bool)

  predicate IsActive(b: PageButton) {
    b.active
  }

  /** The page switcher under the table. */
  function Pagination(currentPage: int, totalPages: int): (r: Pager)
    ensures r.Hidden? <==> totalPages <= 1
    ensures r.Pager? ==> |r.pages| == totalPages && forall i | 0 <= i < totalPages :: r.pages[i].page == i + 1
  {
    if totalPages <= 1 then Hidden
    else
      Pager(currentPage - 1, currentPage <= 1,
            seq(totalPages, i requires 0 <= i < totalPages => PageButton(i + 1, i + 1 == currentPage)),
            currentPage + 1, currentPage >= totalPages)
  }

  /** On a page within range, an enabled arrow leads to a page within range
      and one page button is marked as the current one. */
  lemma PaginationStaysInRange(currentPage: int, totalPages: int)
    requires 1 <= currentPage <= totalPages && totalPages > 1
    ensures var r := Pagination(currentPage, totalPages);
      && (!r.prevDisabled ==> 1 <= r.prevTarget <= totalPages)
      && (!r.nextDisabled ==> 1 <= r.nextTarget <= totalPages)
      && r.pages[currentPage - 1].active
      && Lists.Count(r.pages, IsActive) == 1
  {
    var r := Pagination(currentPage, totalPages);
    Lists.CountOne(r.pages, currentPage - 1, IsActive);
  }
}
