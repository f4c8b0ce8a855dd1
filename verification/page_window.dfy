/** The pager under the post list: a window of at most nine page buttons
    around the current page, with Previous/Next buttons and ellipses. */
module PageWindow {
  import opened Wrappers

  const MaxPageButtons := 9
  /** `Math.floor(MAX_PAGE_BUTTONS / 2)`. */
  const SideCount := 4

  function Max(a: int, b: int): int { if a >= b then a else b }
  function Min(a: int, b: int): int { if a <= b then a else b }

  /** `n` consecutive integers from `start`. */
  function Range(start: int, n: nat): (r: seq<int>)
    ensures |r| == n && forall k :: 0 <= k < n ==> r[k] == start + k
  {
    seq(n, k => start + k)
  }

  /** The first and last page of the window, as `getPageNumbers` computes
      them: centred on the current page, then widened at whichever end
      reached a bound. */
  function Bounds(totalPages: int, currentPage: int): (int, int) {
    if totalPages > MaxPageButtons then
      var start := Max(1, currentPage - SideCount);
      var end := Min(totalPages, currentPage + SideCount);
      if end - start + 1 < MaxPageButtons then
        if start == 1 then (start, Min(totalPages, start + MaxPageButtons - 1))
        else if end == totalPages then (Max(1, end - MaxPageButtons + 1), end)
        else (start, end)
      else (start, end)
    else (1, totalPages)
  }

  /** `Array.from({ length: end - start + 1 }, (_, i) => start + i)`; a
      negative length gives no buttons. */
  function Window(totalPages: int, currentPage: int): (r: seq<int>)
    ensures forall k :: 0 <= k < |r| ==> r[k] == r[0] + k
    ensures forall k :: 0 <= k < |r| ==> 1 <= r[k] <= totalPages
  {
    var (start, end) := Bounds(totalPages, currentPage);
    if end - start + 1 <= 0 then [] else Range(start, end - start + 1)
  }

  /** Up to nine pages there is a button for every page. */
  lemma SmallWindowIsAllPages(totalPages: int, currentPage: int)
    requires totalPages <= MaxPageButtons
    ensures Window(totalPages, currentPage) == if totalPages <= 0 then [] else Range(1, totalPages)
  {
  }

  /** `x` clamped into `[lo, hi]`. */
  function Clamp(x: int, lo: int, hi: int): int
    requires lo <= hi
  {
    if x < lo then lo else if x > hi then hi else x
  }

  /** Beyond nine pages the window is always nine consecutive pages: the
      run starting four before the current page, shifted as little as
      needed to stay within the pages. This holds whatever the current
      page is. */
  lemma {:induction false} LargeWindowIsClampedRun(totalPages: int, currentPage: int)
    requires totalPages > MaxPageButtons
    ensures Window(totalPages, currentPage)
         == Range(Clamp(currentPage - SideCount, 1, totalPages - MaxPageButtons + 1), MaxPageButtons)
  {
    var start := Max(1, currentPage - SideCount);
    var end := Min(totalPages, currentPage + SideCount);
    var (s, e) := Bounds(totalPages, currentPage);
    if end - start + 1 < MaxPageButtons {
      if start == 1 {
        assert (s, e) == (1, MaxPageButtons);
      } else {
        assert end == totalPages;
        assert (s, e) == (totalPages - MaxPageButtons + 1, totalPages);
      }
    } else {
      assert (s, e) == (currentPage - SideCount, currentPage + SideCount);
    }
  }

  /** Beyond nine pages there are exactly nine buttons, and the current
      page, when it is a real page, is one of them. */
  lemma LargeWindow(totalPages: int, currentPage: int)
    requires totalPages > MaxPageButtons
    ensures |Window(totalPages, currentPage)| == MaxPageButtons
    ensures 1 <= currentPage <= totalPages ==> currentPage in Window(totalPages, currentPage)
  {
    LargeWindowIsClampedRun(totalPages, currentPage);
    var w := Window(totalPages, currentPage);
    if 1 <= currentPage <= totalPages {
      assert w[currentPage - w[0]] == currentPage;
    }
  }

  /** What the pager shows; `None` is the component rendering nothing. */
  datatype Controls = Controls(
    previous: bool,
    leadingEllipsis: bool,
    pages: seq<int>,
    trailingEllipsis: bool,
    next: bool)

  function Render(totalPages: int, currentPage: int): (r: Option<Controls>)
    ensures r.None? <==> totalPages <= 1
    ensures r.Some? ==> r.value.pages == Window(totalPages, currentPage)
    ensures r.Some? ==> (r.value.previous <==> currentPage > 1)
    ensures r.Some? ==> (r.value.next <==> currentPage < totalPages)
  {
    if totalPages <= 1 then None
    else
      var pages := Window(totalPages, currentPage);
      Some(Controls(
        currentPage > 1,
        totalPages > MaxPageButtons && pages[0] > 1,
        pages,
        totalPages > MaxPageButtons && pages[|pages| - 1] < totalPages,
        currentPage < totalPages))
  }

  /** The ellipses mark pages hidden before and after the window, and
      only appear beyond nine pages. */
  lemma EllipsisMarksHiddenPages(totalPages: int, currentPage: int)
    requires totalPages > 1
    ensures var c := Render(totalPages, currentPage).value;
      && (c.leadingEllipsis <==> totalPages > MaxPageButtons && 1 !in c.pages)
      && (c.trailingEllipsis <==> totalPages > MaxPageButtons && totalPages !in c.pages)
  {
    var c := Render(totalPages, currentPage).value;
    var w := c.pages;
    if totalPages > MaxPageButtons {
      LargeWindow(totalPages, currentPage);
      if 1 in w {
        var k :| 0 <= k < |w| && w[k] == 1;
        assert w[0] <= w[k];
      } else {
        assert w[0] != 1;
      }
      if totalPages in w {
        var k :| 0 <= k < |w| && w[k] == totalPages;
        assert w[|w| - 1] >= w[k];
      } else {
        assert w[|w| - 1] != totalPages;
      }
    }
  }
}
