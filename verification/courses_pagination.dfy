/**
 * The page switcher under the course catalogue: the first and last page,
 * the pages next to the current one, and an ellipsis two pages away on
 * either side where pages are hidden.
 */
module CoursesPagination {
  import opened Wrappers
  import Lists

  datatype Slot = PageLink(page: int, current: bool) | Ellipsis(page: int)

  datatype Arrow = Arrow(target: int, disabled: bool)

  datatype Bar = Bar(previous: Arrow, slots: seq<Slot>, next: Arrow)

  /** `showPage`. */
  predicate ShowPage(page: int, currentPage: int, totalPages: int) {
    page == 1 || page == totalPages || (currentPage - 1 <= page <= currentPage + 1)
  }

  /** `showEllipsis`, which wins over `showPage`. */
  predicate ShowEllipsis(page: int, currentPage: int, totalPages: int) {
    (page == currentPage - 2 && currentPage > 3) || (page == currentPage + 2 && currentPage < totalPages - 2)
  }

  /** What one page of `1..totalPages` renders as, if anything. */
  function SlotFor(page: int, currentPage: int, totalPages: int): Option<Slot> {
    if ShowEllipsis(page, currentPage, totalPages) then Some(Ellipsis(page))
    else if ShowPage(page, currentPage, totalPages) then Some(PageLink(page, page == currentPage))
    else None
  }

  /** The slots rendered for pages `1..n`, in page order. */
  function Slots(currentPage: int, totalPages: int, n: nat): (r: seq<Slot>)
    ensures forall i | 0 <= i < |r| :: 1 <= r[i].page <= n
    ensures forall i, j | 0 <= i < j < |r| :: r[i].page < r[j].page
    ensures forall i | 0 <= i < |r| :: SlotFor(r[i].page, currentPage, totalPages) == Some(r[i])
  {
    if n == 0 then []
    else
      var init := Slots(currentPage, totalPages, n - 1);
      match SlotFor(n, currentPage, totalPages)
      case Some(s) => init + [s]
      case None => init
  }

  /** `CoursesPagination`: nothing for a single page, otherwise the arrows
      and the slots of pages `1..totalPages`. */
  function Pagination(currentPage: int, totalPages: int): (r: Option<Bar>)
    ensures r.None? <==> totalPages <= 1
    ensures r.Some? ==> r.value.previous == Arrow(currentPage - 1, currentPage == 1)
    ensures r.Some? ==> r.value.next == Arrow(currentPage + 1, currentPage == totalPages)
  {
    if totalPages <= 1 then None
    else
      Some(Bar(Arrow(currentPage - 1, currentPage == 1), Slots(currentPage, totalPages, totalPages),
               Arrow(currentPage + 1, currentPage == totalPages)))
  }

  /** Where each page ends up, for a current page within range: the first
      and last page and the neighbours of the current page are links, an
      ellipsis stands two pages away on a side with more pages hidden, and
      exactly the pages strictly between the first page and the left
      ellipsis, or between the right ellipsis and the last page, are
      hidden. */
  lemma PageClasses(page: int, currentPage: int, totalPages: int)
    requires 1 <= page <= totalPages && 1 <= currentPage <= totalPages
    ensures (page == 1 || page == totalPages || currentPage - 1 <= page <= currentPage + 1)
        ==> SlotFor(page, currentPage, totalPages) == Some(PageLink(page, page == currentPage))
    ensures SlotFor(page, currentPage, totalPages) == Some(Ellipsis(page))
        <==> (page == currentPage - 2 && currentPage > 3) || (page == currentPage + 2 && currentPage < totalPages - 2)
    ensures SlotFor(page, currentPage, totalPages).None?
        <==> (1 < page < currentPage - 2) || (currentPage + 2 < page < totalPages)
  {
  }

  /** The slots of pages `1..n` are complete: a page of that range that
      calls for a slot has it rendered, and a page that calls for none has
      no slot. */
  lemma {:induction false} SlotsComplete(currentPage: int, totalPages: int, n: nat, page: int)
    requires 1 <= page <= n
    ensures SlotFor(page, currentPage, totalPages).Some?
        ==> SlotFor(page, currentPage, totalPages).value in Slots(currentPage, totalPages, n)
    ensures SlotFor(page, currentPage, totalPages).None?
        ==> forall i | 0 <= i < |Slots(currentPage, totalPages, n)| :: Slots(currentPage, totalPages, n)[i].page != page
  {
    if page < n {
      SlotsComplete(currentPage, totalPages, n - 1, page);
    }
  }

  /** The current page and its neighbours within range are rendered as
      links, the current one marked. */
  lemma NeighboursRendered(currentPage: int, totalPages: int, page: int)
    requires 1 <= currentPage <= totalPages && totalPages > 1
    requires 1 <= page <= totalPages && currentPage - 1 <= page <= currentPage + 1
    ensures PageLink(page, page == currentPage) in Pagination(currentPage, totalPages).value.slots
  {
    PageClasses(page, currentPage, totalPages);
    SlotsComplete(currentPage, totalPages, totalPages, page);
  }

  /** Every hidden page sits behind an ellipsis on its side of the current
      page, so no run of pages disappears unmarked. */
  lemma HiddenBehindEllipsis(page: int, currentPage: int, totalPages: int)
    requires 1 <= page <= totalPages && 1 <= currentPage <= totalPages
    requires SlotFor(page, currentPage, totalPages).None?
    ensures page < currentPage ==> SlotFor(currentPage - 2, currentPage, totalPages) == Some(Ellipsis(currentPage - 2)) && page < currentPage - 2
    ensures page > currentPage ==> SlotFor(currentPage + 2, currentPage, totalPages) == Some(Ellipsis(currentPage + 2)) && page > currentPage + 2
  {
    PageClasses(page, currentPage, totalPages);
  }

  predicate IsEllipsis(s: Slot) {
    s.Ellipsis?
  }

  /** The number of ellipses expected among pages `1..n`: one for each
      side whose ellipsis page is reached. */
  function EllipsesUpTo(currentPage: int, totalPages: int, n: nat): nat {
    (if currentPage > 3 && currentPage - 2 <= n then 1 else 0)
    + (if currentPage < totalPages - 2 && 1 <= currentPage + 2 <= n then 1 else 0)
  }

  lemma EllipsesStep(currentPage: int, totalPages: int, n: nat)
    requires n > 0
    ensures EllipsesUpTo(currentPage, totalPages, n)
         == EllipsesUpTo(currentPage, totalPages, n - 1) + (if ShowEllipsis(n, currentPage, totalPages) then 1 else 0)
  {
  }

  /** Ellipses among the slots of pages `1..n`. */
  lemma {:induction false} EllipsisCount(currentPage: int, totalPages: int, n: nat)
    ensures Lists.Count(Slots(currentPage, totalPages, n), IsEllipsis) == EllipsesUpTo(currentPage, totalPages, n)
  {
    if n > 0 {
      var init := Slots(currentPage, totalPages, n - 1);
      EllipsisCount(currentPage, totalPages, n - 1);
      EllipsesStep(currentPage, totalPages, n);
      match SlotFor(n, currentPage, totalPages)
      case Some(s) =>
        assert Slots(currentPage, totalPages, n) == init + [s];
        assert IsEllipsis(s) <==> ShowEllipsis(n, currentPage, totalPages);
        Lists.CountAppend(init, [s], IsEllipsis);
        Lists.CountSingle(s, IsEllipsis);
      case None =>
        assert Slots(currentPage, totalPages, n) == init;
        assert !ShowEllipsis(n, currentPage, totalPages);
    }
  }

  /** At most two ellipses are shown. */
  lemma AtMostTwoEllipses(currentPage: int, totalPages: int)
    requires totalPages > 1
    ensures Lists.Count(Pagination(currentPage, totalPages).value.slots, IsEllipsis) <= 2
  {
    EllipsisCount(currentPage, totalPages, totalPages);
  }

  /** The bar starts with a link to page 1 and ends with a link to the last
      page when the current page is within range. */
  lemma EndsAreLinks(currentPage: int, totalPages: int)
    requires 1 <= currentPage <= totalPages && totalPages > 1
    ensures var slots := Pagination(currentPage, totalPages).value.slots;
      && slots != []
      && slots[0] == PageLink(1, currentPage == 1)
      && slots[|slots| - 1] == PageLink(totalPages, currentPage == totalPages)
  {
    var slots := Slots(currentPage, totalPages, totalPages);
    PageClasses(totalPages, currentPage, totalPages);
    PageClasses(1, currentPage, totalPages);
    FirstSlot(currentPage, totalPages, totalPages);
  }

  lemma {:induction false} FirstSlot(currentPage: int, totalPages: int, n: nat)
    requires 1 <= n && SlotFor(1, currentPage, totalPages).Some?
    ensures Slots(currentPage, totalPages, n) != []
    ensures Slots(currentPage, totalPages, n)[0] == SlotFor(1, currentPage, totalPages).value
  {
    if n > 1 {
      FirstSlot(currentPage, totalPages, n - 1);
    }
  }

  /** Enabled arrows lead to pages within range. */
  lemma ArrowsInRange(currentPage: int, totalPages: int)
    requires 1 <= currentPage <= totalPages && totalPages > 1
    ensures var bar := Pagination(currentPage, totalPages).value;
      && (!bar.previous.disabled ==> 1 <= bar.previous.target <= totalPages)
      && (!bar.next.disabled ==> 1 <= bar.next.target <= totalPages)
  {
  }
}
