/** The pagination control of the web client: a window of page numbers around the current
    (zero-based) page, with the first and last pages and ellipses at the edges, and the
    "Showing x to y of z" line. Page numbers are JavaScript numbers holding integers. */
module Pagination {
  import opened Wrappers

  datatype PageItem = Page(n: int) | Ellipsis

  function Max(a: int, b: int): int { if a >= b then a else b }
  function Min(a: int, b: int): int { if a <= b then a else b }

  /** `Math.floor(maxVisiblePages / 2)`; Dafny's division by a positive divisor floors. */
  function HalfVisible(maxVisible: int): int {
    maxVisible / 2
  }

  /** The first page of the window, moved back when the current page is near the end. */
  function StartPage(current: int, total: int, maxVisible: int): int {
    var h := HalfVisible(maxVisible);
    if current > total - h - 1 then Max(0, total - maxVisible) else Max(0, current - h)
  }

  /** The last page of the window, moved forward when the current page is near the start. */
  function EndPage(current: int, total: int, maxVisible: int): int {
    var h := HalfVisible(maxVisible);
    if current < h then Min(total - 1, maxVisible - 1) else Min(total - 1, current + h)
  }

  /** Pages `start` to `end` inclusive, none when `start > end`. */
  function Run(start: int, end: int): (r: seq<PageItem>)
    ensures |r| == if start <= end then end - start + 1 else 0
  {
    if start <= end then seq(end - start + 1, k requires 0 <= k < end - start + 1 => Page(start + k)) else []
  }

  /** The k-th item of a run is page start + k. */
  lemma RunAt(start: int, end: int)
    ensures forall k :: 0 <= k < |Run(start, end)| ==> Run(start, end)[k] == Page(start + k)
  {
  }

  /** A run grows by its next page. */
  lemma RunSnoc(start: int, end: int)
    requires start <= end
    ensures Run(start, end) == Run(start, end - 1) + [Page(end)]
  {
    var r, r' := Run(start, end), Run(start, end - 1) + [Page(end)];
    RunAt(start, end);
    RunAt(start, end - 1);
    assert |r| == |r'|;
    forall k | 0 <= k < |r|
      ensures r[k] == r'[k]
    {
    }
  }

  /** The items before the window: page 0, and an ellipsis when page 1 is hidden too. */
  function Lead(start: int): seq<PageItem> {
    if start > 0 then (if start > 1 then [Page(0), Ellipsis] else [Page(0)]) else []
  }

  /** The items after the window: an ellipsis when the second-last page is hidden, and the
      last page. */
  function Tail(end: int, total: int): seq<PageItem> {
    if end < total - 1 then (if end < total - 2 then [Ellipsis, Page(total - 1)] else [Page(total - 1)]) else []
  }

  /** What `getPageNumbers` returns. */
  function PageList(current: int, total: int, maxVisible: int): seq<PageItem> {
    var start, end := StartPage(current, total, maxVisible), EndPage(current, total, maxVisible);
    Lead(start) + Run(start, end) + Tail(end, total)
  }

  /** The first part of `getPageNumbers`: the window centred on the current page, then
      moved forward near the start and back near the end. */
  method Window(current: int, total: int, maxVisible: int) returns (startPage: int, endPage: int)
    ensures startPage == StartPage(current, total, maxVisible) && endPage == EndPage(current, total, maxVisible)
  {
    var h := maxVisible / 2;
    startPage := Max(0, current - h);
    endPage := Min(total - 1, current + h);
    if current < h {
      endPage := Min(total - 1, maxVisible - 1);
    }
    if current > total - h - 1 {
      startPage := Max(0, total - maxVisible);
    }
  }

  /** `getPageNumbers`: the window, the lead, then a loop pushing each page of the window,
      then the tail. */
  method GetPageNumbers(current: int, total: int, maxVisible: int) returns (pages: seq<PageItem>)
    ensures pages == PageList(current, total, maxVisible)
  {
    var startPage, endPage := Window(current, total, maxVisible);
    pages := [];
    if startPage > 0 {
      pages := pages + [Page(0)];
      if startPage > 1 {
        pages := pages + [Ellipsis];
      }
    }
    ghost var lead := pages;
    assert lead == Lead(startPage);
    var i := startPage;
    while i <= endPage
      invariant startPage <= i <= Max(startPage, endPage + 1)
      invariant pages == lead + Run(startPage, i - 1)
      decreases endPage - i
    {
      RunSnoc(startPage, i);
      pages := pages + [Page(i)];
      i := i + 1;
    }
    if startPage > endPage {
      assert |Run(startPage, i - 1)| == 0 == |Run(startPage, endPage)|;
    }
    ghost var body := pages;
    assert body == Lead(startPage) + Run(startPage, endPage);
    if endPage < total - 1 {
      if endPage < total - 2 {
        pages := pages + [Ellipsis];
      }
      pages := pages + [Page(total - 1)];
    }
    assert pages == body + Tail(endPage, total);
  }

  /** Every number shown is a page that exists. */
  predicate InRange(items: seq<PageItem>, total: int) {
    forall i :: 0 <= i < |items| && items[i].Page? ==> 0 <= items[i].n < total
  }

  /** Two neighbouring numbers are consecutive pages: nothing is skipped silently. */
  predicate NoSilentGap(items: seq<PageItem>) {
    forall i :: 0 <= i < |items| - 1 && items[i].Page? && items[i + 1].Page? ==> items[i + 1].n == items[i].n + 1
  }

  /** Every ellipsis stands between two numbers and hides at least one page. */
  predicate EllipsisHidesPages(items: seq<PageItem>) {
    forall i :: 0 <= i < |items| && items[i].Ellipsis? ==>
      0 < i < |items| - 1 && items[i - 1].Page? && items[i + 1].Page? && items[i + 1].n > items[i - 1].n + 1
  }

  /** For a current page that exists and a non-negative window size, the window is not
      empty and contains the current page. */
  lemma WindowHoldsCurrent(current: int, total: int, maxVisible: int)
    requires 0 <= current < total && maxVisible >= 0
    ensures 0 <= StartPage(current, total, maxVisible) <= current <= EndPage(current, total, maxVisible) <= total - 1
  {
  }

  /** Page 0 and the window, for a window that is not empty, are well formed up to the
      window's last page. */
  lemma LeadAndRun(start: int, end: int)
    requires 0 <= start <= end
    ensures var items := Lead(start) + Run(start, end);
            |items| > 0 && items[0] == Page(0) && items[|items| - 1] == Page(end)
            && InRange(items, end + 1) && NoSilentGap(items) && EllipsisHidesPages(items)
  {
    var lead, run := Lead(start), Run(start, end);
    var items := lead + run;
    RunAt(start, end);
    forall i | 0 <= i < |items|
      ensures items[i] == if i < |lead| then lead[i] else Page(start + i - |lead|)
    {
    }
  }

  /** Appending the tail to a well-formed list that ends at page `end` keeps it well formed
      and makes it end at the last page. */
  lemma WithTail(items: seq<PageItem>, end: int, total: int)
    requires |items| > 0 && items[|items| - 1] == Page(end) && end <= total - 1
    requires InRange(items, end + 1) && NoSilentGap(items) && EllipsisHidesPages(items)
    ensures var all := items + Tail(end, total);
            all[0] == items[0] && all[|all| - 1] == Page(total - 1)
            && InRange(all, total) && NoSilentGap(all) && EllipsisHidesPages(all)
  {
    var tail := Tail(end, total);
    var all := items + tail;
    forall i | 0 <= i < |all|
      ensures all[i] == if i < |items| then items[i] else tail[i - |items|]
    {
    }
  }

  /** The list is well formed: it runs from the first page to the last, holds the current
      page, shows only existing pages in increasing order, and uses an ellipsis exactly
      where pages are hidden. */
  lemma PageListWellFormed(current: int, total: int, maxVisible: int)
    requires 0 <= current < total && maxVisible >= 0
    ensures var items := PageList(current, total, maxVisible);
            |items| > 0 && items[0] == Page(0) && items[|items| - 1] == Page(total - 1)
            && Page(current) in items
            && InRange(items, total) && NoSilentGap(items) && EllipsisHidesPages(items)
  {
    var start, end := StartPage(current, total, maxVisible), EndPage(current, total, maxVisible);
    WindowHoldsCurrent(current, total, maxVisible);
    LeadAndRun(start, end);
    WithTail(Lead(start) + Run(start, end), end, total);
    var items := Lead(start) + Run(start, end) + Tail(end, total);
    RunAt(start, end);
    assert items[|Lead(start)| + current - start] == Page(current);
  }

  /** The window holds 2·⌊max/2⌋ + 1 pages when it is not clipped, which is one more than
      `maxVisiblePages` when that is even: with 4, page 5 of 20 shows pages 3 to 7. */
  lemma EvenWindowShowsOneMore()
    ensures StartPage(5, 20, 4) == 3 && EndPage(5, 20, 4) == 7
    ensures |Run(StartPage(5, 20, 4), EndPage(5, 20, 4))| == 5
  {
  }

  /** The rendered control: the previous button, the items, the next button. */
  datatype Nav = Nav(prevDisabled: bool, items: seq<PageItem>, nextDisabled: bool)

  /** `Pagination`: nothing for a single page or none; otherwise previous is disabled on the
      first page and next on the last. */
  method Render(current: int, total: int, maxVisible: int) returns (nav: Option<Nav>)
    ensures total <= 1 <==> nav.None?
    ensures nav.Some? ==>
              nav.value.items == PageList(current, total, maxVisible)
              && (nav.value.prevDisabled <==> current == 0)
              && (nav.value.nextDisabled <==> current == total - 1)
  {
    if total <= 1 {
      return None;
    }
    var pages := GetPageNumbers(current, total, maxVisible);
    return Some(Nav(current == 0, pages, current == total - 1));
  }

  /** An enabled button always leads to a page that exists. */
  lemma EnabledButtonsStayInRange(current: int, total: int, nav: Nav)
    requires 0 <= current < total
    requires nav.prevDisabled <==> current == 0
    requires nav.nextDisabled <==> current == total - 1
    ensures !nav.prevDisabled ==> 0 <= current - 1 < total
    ensures !nav.nextDisabled ==> 0 <= current + 1 < total
  {
  }

  /** `PaginationInfo`'s two numbers: one-based first and last rows of the page. */
  function ShownRange(page: int, pageSize: int, totalElements: int): (r: (int, int))
    ensures r.0 == page * pageSize + 1
    ensures r.1 <= totalElements && r.1 <= (page + 1) * pageSize
    ensures r.1 == totalElements || r.1 == (page + 1) * pageSize
  {
    (page * pageSize + 1, Min((page + 1) * pageSize, totalElements))
  }

  /** For a page that holds rows, the range is non-empty, within the results, and no wider
      than a page. */
  lemma ShownRangeOfExistingPage(page: int, pageSize: int, totalElements: int)
    requires page >= 0 && pageSize > 0 && page * pageSize < totalElements
    ensures var (start, end) := ShownRange(page, pageSize, totalElements);
            1 <= start <= end <= totalElements && end - start + 1 <= pageSize
  {
    assert (page + 1) * pageSize == page * pageSize + pageSize;
  }

  /** With no results the line reads "Showing 1 to 0 of 0". */
  lemma EmptyResultsShowOneToZero(pageSize: int)
    requires pageSize > 0
    ensures ShownRange(0, pageSize, 0) == (1, 0)
  {
  }
}
