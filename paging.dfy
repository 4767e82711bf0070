/** The paging arithmetic of the table: the page count, the rows of one
    page, the Prev/Next buttons, the five-button window and the
    "Showing a to b of n" caption. */
module Paging {

  /** Rows per page (`perPage`). */
  const PerPage: nat := 10

  /** Buttons in the pagination window. */
  const WindowSize: nat := 5

  function Min(a: int, b: int): int { if a <= b then a else b }
  function Max(a: int, b: int): int { if a >= b then a else b }

  /** `Math.ceil(n / d)` for a non-negative `n` and a positive `d`. */
  function CeilDiv(n: nat, d: nat): (q: nat)
    requires d > 0
    ensures (q - 1) * d < n <= q * d || (n == 0 && q == 0)
  {
    (n + d - 1) / d
  }

  /** `pages = Math.max(1, Math.ceil(n / perPage))`. */
  function PageCount(n: nat): (pages: int)
    ensures pages >= 1
    ensures n == 0 ==> pages == 1
    ensures n > 0 ==> (pages - 1) * PerPage < n <= pages * PerPage
  {
    Max(1, CeilDiv(n, PerPage))
  }

  /** How `Array.prototype.slice` resolves one index against a length:
      a negative index counts from the end, and both ends are clamped. */
  function SliceIndex(i: int, len: nat): (r: nat)
    ensures r <= len
    ensures 0 <= i <= len ==> r == i
  {
    if i < 0 then Max(len + i, 0) else Min(i, len)
  }

  /** `s.slice(begin, end)`. */
  function JsSlice<T>(s: seq<T>, begin: int, end: int): (r: seq<T>)
    ensures |r| <= |s|
    ensures 0 <= begin <= end <= |s| ==> r == s[begin..end]
    ensures 0 <= begin <= |s| <= end ==> r == s[begin..]
    ensures begin >= |s| || (0 <= end <= begin) ==> r == []
  {
    var b, e := SliceIndex(begin, |s|), SliceIndex(end, |s|);
    if b < e then s[b..e] else []
  }

  /** Index of the first row of page `page`. */
  function PageStart(page: int): int {
    (page - 1) * PerPage
  }

  /** `pageData`: `filtered.slice(start, start + perPage)` with
      `start = (page - 1) * perPage`. For a page of 1 or more it is the run of
      at most ten rows that begins at `start`. */
  function PageSlice<T>(view: seq<T>, page: int): (r: seq<T>)
    ensures page >= 1 ==> |r| == Max(0, Min(PerPage, |view| - PageStart(page)))
    ensures page >= 1 ==> |r| <= PerPage
    ensures page >= 1 && |r| > 0 ==> PageStart(page) + |r| <= |view|
    ensures page >= 1 ==> forall i :: 0 <= i < |r| ==> r[i] == view[PageStart(page) + i]
  {
    var start := PageStart(page);
    JsSlice(view, start, start + PerPage)
  }

  /** A page of 1 or more holds rows exactly when it is within the page count
      and there are rows at all. */
  lemma PageNonEmptyIff<T>(view: seq<T>, page: int)
    requires page >= 1
    ensures |PageSlice(view, page)| > 0 <==> |view| > 0 && page <= PageCount(|view|)
  {
    var n := |view|;
    if n > 0 && page <= PageCount(n) {
      assert (page - 1) * PerPage <= (PageCount(n) - 1) * PerPage;
    }
    if n > 0 && page > PageCount(n) {
      assert (page - 1) * PerPage >= PageCount(n) * PerPage;
    }
  }

  /** The pages `1..k` concatenated. */
  function PagesUpTo<T>(view: seq<T>, k: nat): seq<T> {
    if k == 0 then [] else PagesUpTo(view, k - 1) + PageSlice(view, k)
  }

  /** Pages `1..k` together are the first `10 * k` rows (or all of them). */
  lemma {:induction false} PagesUpToPrefix<T>(view: seq<T>, k: nat)
    ensures PagesUpTo(view, k) == view[..Min(k * PerPage, |view|)]
  {
    if k > 0 {
      PagesUpToPrefix(view, k - 1);
      var start := (k - 1) * PerPage;
      assert k * PerPage == start + PerPage;
      assert PageStart(k) == start;
      var lo, hi := Min(start, |view|), Min(start + PerPage, |view|);
      var page := PageSlice(view, k);
      assert |page| == hi - lo;
      assert page == view[lo..hi];
      assert view[..lo] + view[lo..hi] == view[..hi];
    }
  }

  /** The pages `1..pages` concatenate back to the whole view. */
  lemma PagesCoverView<T>(view: seq<T>)
    ensures PagesUpTo(view, PageCount(|view|)) == view
  {
    PagesUpToPrefix(view, PageCount(|view|));
  }

  /** The Prev button: `setPage(p => Math.max(1, p - 1))`. It never goes
      below page 1 nor forward, and goes back at most one page. */
  function PrevPage(p: int): (r: int)
    ensures r >= 1
    ensures p >= 1 ==> p - 1 <= r <= p
  {
    Max(1, p - 1)
  }

  /** The Next button: `setPage(p => Math.min(pages, p + 1))`. It never goes
      beyond the last page, nor more than one page forward, and below the last
      page it goes exactly one page forward. */
  function NextPage(p: int, pages: int): (r: int)
    ensures r <= pages && r <= p + 1
    ensures p < pages ==> r == p + 1
  {
    Min(pages, p + 1)
  }

  /** Prev is disabled on page 1, where it would not move. */
  predicate PrevDisabled(p: int)
    ensures PrevDisabled(p) ==> PrevPage(p) == p
  {
    p == 1
  }

  /** Next is disabled on the last page, where it would not move. */
  predicate NextDisabled(p: int, pages: int)
    ensures NextDisabled(p, pages) ==> NextPage(p, pages) == p
  {
    p == pages
  }

  /** From a page within `1..pages`, Prev stays within `1..pages`; when
      disabled it would leave the page where it is, and when enabled it moves
      back by exactly one. */
  lemma PrevInRange(p: int, pages: int)
    requires 1 <= p <= pages
    ensures 1 <= PrevPage(p) <= pages
    ensures PrevDisabled(p) <==> PrevPage(p) == p
    ensures !PrevDisabled(p) ==> PrevPage(p) == p - 1
  {
  }

  /** From a page within `1..pages`, Next stays within `1..pages`; when
      disabled it would leave the page where it is, and when enabled it moves
      forward by exactly one. */
  lemma NextInRange(p: int, pages: int)
    requires 1 <= p <= pages
    ensures 1 <= NextPage(p, pages) <= pages
    ensures NextDisabled(p, pages) <==> NextPage(p, pages) == p
    ensures !NextDisabled(p, pages) ==> NextPage(p, pages) == p + 1
  {
  }

  /** Prev undoes an enabled Next, and Next undoes an enabled Prev. */
  lemma PrevNextInverse(p: int, pages: int)
    requires 1 <= p <= pages
    ensures !NextDisabled(p, pages) ==> PrevPage(NextPage(p, pages)) == p
    ensures !PrevDisabled(p) ==> NextPage(PrevPage(p), pages) == p
  {
  }

  /** Next lands on a valid page from anywhere at or beyond page 0, including
      a page left beyond the page count: there it jumps to the last page. */
  lemma NextAlwaysInRange(p: int, pages: int)
    requires p >= 0 && pages >= 1
    ensures 1 <= NextPage(p, pages) <= pages
    ensures p >= pages ==> NextPage(p, pages) == pages
  {
  }

  /** The number on the `i`-th button of the window: always a page within
      `1..pages`. */
  function WindowButton(pages: int, page: int, i: int): (r: int)
    ensures pages >= 1 && 0 <= i < Min(pages, WindowSize) ==> 1 <= r <= pages
  {
    if pages <= WindowSize then i + 1
    else if page <= 3 then i + 1
    else if page >= pages - 2 then pages - 4 + i
    else page - 2 + i
  }

  /** The numbered buttons: `Math.min(pages, 5)` of them, each given by
      `WindowButton`. */
  function Window(pages: int, page: int): (w: seq<int>)
    requires pages >= 1
    ensures |w| == Min(pages, WindowSize)
    ensures forall i :: 0 <= i < |w| ==> w[i] == w[0] + i
    ensures forall i :: 0 <= i < |w| ==> 1 <= w[i] <= pages
    ensures pages <= WindowSize ==> w[0] == 1 && w[|w| - 1] == pages
    ensures 1 <= page <= pages ==> page in w
  {
    var w := seq(Min(pages, WindowSize), i => WindowButton(pages, page, i));
    assert 1 <= page <= pages ==> w[page - w[0]] == page;
    w
  }

  /** The "..." after the window (`pages > 5 && page < pages - 2`). It is
      shown exactly when the window's last button is below the last page. */
  predicate ShowEllipsis(pages: int, page: int)
    ensures pages >= 1 ==>
      (ShowEllipsis(pages, page) <==> WindowButton(pages, page, Min(pages, WindowSize) - 1) < pages)
  {
    pages > WindowSize && page < pages - 2
  }

  /** The first number of the caption: 0 exactly for an empty page, and
      otherwise the 1-based position of the first row of a page. */
  function ShowFrom(page: int, pageLen: nat): (r: int)
    ensures page >= 1 ==> (r == 0 <==> pageLen == 0)
    ensures page >= 1 && pageLen > 0 ==> (r - 1) % PerPage == 0
  {
    if pageLen == 0 then 0 else PageStart(page) + 1
  }

  /** The second number of the caption: `Math.min(page * perPage, n)`. It
      never exceeds the number of rows nor the end of the page. */
  function ShowTo(page: int, n: nat): (r: int)
    ensures r <= n && r <= page * PerPage
    ensures page >= 1 ==> r >= 0
  {
    Min(page * PerPage, n)
  }

  /** On a page within the page count, "Showing a to b of n" names exactly the
      rows on the page: `a` is the 1-based position of its first row, `b` that
      of its last, and `view[a - 1..b]` is the page; with no rows it reads
      "0 to 0"; on a page beyond the page count it reads "0 to n". */
  lemma ShowingRange<T>(view: seq<T>, page: int)
    requires page >= 1
    ensures var n, r := |view|, PageSlice(view, page);
      var a, b := ShowFrom(page, |r|), ShowTo(page, n);
      && (n > 0 && page <= PageCount(n) ==>
            && a == PageStart(page) + 1 && b == PageStart(page) + |r|
            && 1 <= a <= b <= n && b - a + 1 == |r| && r == view[a - 1..b])
      && (n == 0 ==> a == 0 && b == 0)
      && (page > PageCount(n) ==> a == 0 && b == n)
  {
    var n := |view|;
    PageNonEmptyIff(view, page);
    if n > 0 && page <= PageCount(n) {
      assert (page - 1) * PerPage <= (PageCount(n) - 1) * PerPage;
    }
    if page > PageCount(n) {
      assert page * PerPage >= PageCount(n) * PerPage;
    }
  }
}
