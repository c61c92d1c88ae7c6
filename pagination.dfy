/** The paginator shared by both listing pages: the page count, the slice of
    the filtered list shown on a page, the window of numbered page buttons, and
    what a render puts on screen. */
module Pagination {

  /** itemsPerPage */
  const PageSize: nat := 5

  /** maxVisiblePages: the most numbered buttons shown at once. */
  const MaxVisiblePages: nat := 5

  function Min(a: int, b: int): int { if a <= b then a else b }

  function Max(a: int, b: int): int { if a >= b then a else b }

  /** Math.ceil(n / itemsPerPage): the fewest pages of PageSize items that hold
      n items. */
  function TotalPages(n: nat): (t: nat)
    ensures n <= t * PageSize
    ensures (t - 1) * PageSize < n
  {
    (n + PageSize - 1) / PageSize
  }

  /** Where Array.prototype.slice starts or stops for the argument `i`: a
      negative argument counts back from the end, and the result is clamped to
      [0, len]. */
  function SliceBound(i: int, len: nat): (k: nat)
    ensures k <= len
    ensures 0 <= i <= len ==> k == i
    ensures i > len ==> k == len
    ensures i < 0 ==> k == Max(0, len + i)
  {
    if i < 0 then (if len + i < 0 then 0 else len + i)
    else if i > len then len
    else i
  }

  /** Array.prototype.slice(start, end). */
  function Slice<T>(s: seq<T>, start: int, end: int): seq<T>
  {
    var from := SliceBound(start, |s|);
    var to := SliceBound(end, |s|);
    if from < to then s[from..to] else []
  }

  /** The items shown on page `p`: the slice from (p - 1) * PageSize, PageSize long. */
  function PageItems<T>(s: seq<T>, p: int): seq<T>
  {
    Slice(s, (p - 1) * PageSize, (p - 1) * PageSize + PageSize)
  }

  /** From page 1 on, a page is the stretch of at most PageSize items that
      starts at (p - 1) * PageSize, cut off at the end of the list; it is empty
      exactly when p is past the last page. */
  lemma PageItemsIsWindowOfList<T>(s: seq<T>, p: int)
    requires p >= 1
    ensures var from := Min(|s|, (p - 1) * PageSize);
            var to := Min(|s|, (p - 1) * PageSize + PageSize);
            PageItems(s, p) == s[from..to]
    ensures |PageItems(s, p)| <= PageSize
    ensures PageItems(s, p) == [] <==> p > TotalPages(|s|)
  {
  }

  /** The concatenation of pages `p` to `last`. */
  function PagesFrom<T>(s: seq<T>, p: int, last: int): seq<T>
    decreases last - p
  {
    if p > last then [] else PageItems(s, p) + PagesFrom(s, p + 1, last)
  }

  lemma {:induction false} PagesFromIsSuffix<T>(s: seq<T>, p: int)
    requires p >= 1
    ensures PagesFrom(s, p, TotalPages(|s|)) == s[Min(|s|, (p - 1) * PageSize)..]
    decreases TotalPages(|s|) - p
  {
    var total := TotalPages(|s|);
    PageItemsIsWindowOfList(s, p);
    if p <= total {
      PagesFromIsSuffix(s, p + 1);
      var from := Min(|s|, (p - 1) * PageSize);
      var to := Min(|s|, (p - 1) * PageSize + PageSize);
      assert s[from..to] + s[to..] == s[from..];
    }
  }

  /** Pages 1 to TotalPages, read one after the other, give back the whole
      filtered list: no item is skipped or shown twice. */
  lemma PagesConcatenateToList<T>(s: seq<T>)
    ensures PagesFrom(s, 1, TotalPages(|s|)) == s
  {
    PagesFromIsSuffix(s, 1);
  }

  /** Twelve items make three pages of five, five and two items. */
  lemma TwelveItemsMakeThreePages<T>(s: seq<T>)
    requires |s| == 12
    ensures TotalPages(|s|) == 3
    ensures |PageItems(s, 1)| == 5 && |PageItems(s, 2)| == 5 && |PageItems(s, 3)| == 2
    ensures PageItems(s, 4) == []
  {
  }

  /** The first and last page number of the numbered-button row. */
  datatype Window = Window(startPage: int, endPage: int)

  /** The window as designed: min(MaxVisiblePages, total) consecutive pages,
      centred on `current` where there is room and shifted to stay inside
      [1, total] near either end. */
  function CentredWindow(current: int, total: int): (w: Window)
    ensures total >= 1 ==> 1 <= w.startPage && w.endPage <= total
    ensures total >= 1 ==> w.endPage - w.startPage + 1 == Min(MaxVisiblePages, total)
    ensures 1 <= current <= total ==> w.startPage <= current <= w.endPage
    ensures 1 + MaxVisiblePages / 2 <= current <= total - MaxVisiblePages / 2
            ==> w.startPage == current - MaxVisiblePages / 2 && w.endPage == current + MaxVisiblePages / 2
  {
    var width := Min(MaxVisiblePages, total);
    var start := Max(1, Min(current - MaxVisiblePages / 2, total - width + 1));
    Window(start, start + width - 1)
  }

  /** The window as updatePaginationControls computes it: start two pages
      before the current one (not before page 1), end four pages later (not
      after the last page), and pull the start back when the row came out
      short. It is the designed window whenever there is at least one page. */
  method ComputeWindow(current: int, total: int) returns (w: Window)
    ensures total >= 1 ==> w == CentredWindow(current, total)
  {
    var startPage := Max(1, current - MaxVisiblePages / 2);
    var endPage := Min(total, startPage + MaxVisiblePages - 1);
    if endPage - startPage + 1 < MaxVisiblePages {
      startPage := Max(1, endPage - MaxVisiblePages + 1);
    }
    w := Window(startPage, endPage);
  }

  /** One numbered button: the page it goes to, and whether it is highlighted. */
  datatype PageButton = PageButton(page: int, active: bool)

  /** The numbered buttons, one per page of the window in increasing order,
      the current page's highlighted. */
  method NumberedButtons(w: Window, current: int) returns (buttons: seq<PageButton>)
    ensures |buttons| == Max(0, w.endPage - w.startPage + 1)
    ensures forall k :: 0 <= k < |buttons| ==> buttons[k].page == w.startPage + k
    ensures forall k :: 0 <= k < |buttons| ==> (buttons[k].active <==> buttons[k].page == current)
  {
    buttons := [];
    var i := w.startPage;
    while i <= w.endPage
      invariant w.startPage <= i <= Max(w.startPage, w.endPage + 1)
      invariant |buttons| == i - w.startPage
      invariant forall k :: 0 <= k < |buttons| ==> buttons[k] == PageButton(w.startPage + k, w.startPage + k == current)
    {
      buttons := buttons + [PageButton(i, i == current)];
      i := i + 1;
    }
  }

  /** The list area: the "nothing found" message, or one card per item. */
  datatype ListView<T> = Placeholder | Cards(items: seq<T>)

  /** The pagination bar: hidden, or the numbered buttons with the enabled
      state of the previous and next buttons. */
  datatype PaginationView = Hidden | Shown(buttons: seq<PageButton>, prevDisabled: bool, nextDisabled: bool)

  datatype Screen<T> = Screen(list: ListView<T>, pagination: PaginationView)

  /** What renderPublications / renderJobs and updatePaginationControls put on
      screen for the filtered list and the current page. */
  method RenderPage<T>(filtered: seq<T>, current: int) returns (screen: Screen<T>)
    ensures var items := PageItems(filtered, current);
            screen.list == if items == [] then Placeholder else Cards(items)
    ensures screen.pagination.Hidden? <==> TotalPages(|filtered|) <= 1
    ensures screen.pagination.Shown? ==>
              var total := TotalPages(|filtered|);
              var w := CentredWindow(current, total);
              var buttons := screen.pagination.buttons;
              && screen.pagination.prevDisabled == (current == 1)
              && screen.pagination.nextDisabled == (current == total)
              && |buttons| == w.endPage - w.startPage + 1
              && forall k :: 0 <= k < |buttons| ==> buttons[k] == PageButton(w.startPage + k, w.startPage + k == current)
  {
    var items := PageItems(filtered, current);
    var list: ListView<T> := if items == [] then Placeholder else Cards(items);
    var total := TotalPages(|filtered|);
    if total <= 1 {
      return Screen(list, Hidden);
    }
    var w := ComputeWindow(current, total);
    var buttons := NumberedButtons(w, current);
    screen := Screen(list, Shown(buttons, current == 1, current == total));
  }
}
