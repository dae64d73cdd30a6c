/** The pagination arithmetic of the task list: the page count, the slice of
    the list shown on the current page, the state of the previous/next
    buttons and the page clamp applied after a delete. */
module Pagination {

  /** Math.ceil(n / d) for a count n and a positive page size d: the least
      number of pages of d items that hold n items. */
  function CeilDiv(n: nat, d: int): (r: nat)
    requires d > 0
    ensures (r - 1) * d < n <= r * d
  {
    var q := (n + d - 1) / d;
    assert n + d - 1 == q * d + (n + d - 1) % d;
    q
  }

  /** `Math.ceil(n / d) || 1`, the page count shown by the render: the least
      number of pages holding n items, but never fewer than one. */
  function TotalPages(n: nat, d: int): (r: int)
    requires d > 0
    ensures r >= 1 && n <= r * d
    ensures r == 1 || (r - 1) * d < n
  {
    var c := CeilDiv(n, d);
    if c == 0 then 1 else c
  }

  /** The page-bounds invariant: the current page is one of the pages the
      render counts. */
  predicate PageInBounds(page: int, n: nat, d: int)
    requires d > 0
  {
    1 <= page <= TotalPages(n, d)
  }

  function Min(a: int, b: int): int { if a <= b then a else b }
  function Max(a: int, b: int): int { if a >= b then a else b }

  /** Array.prototype.slice(start, end) for integer arguments: a negative
      argument counts from the end of the list, and both are clamped to the
      list. */
  function JsSlice<T>(s: seq<T>, start: int, end: int): (r: seq<T>)
    ensures |r| <= |s|
  {
    var from := if start < 0 then Max(|s| + start, 0) else Min(start, |s|);
    var to := if end < 0 then Max(|s| + end, 0) else Min(end, |s|);
    if from < to then s[from..to] else []
  }

  /** getCurrentPageTasks: at most d items; on a page from 1 on, the items
      from position (page - 1) * d on, as many as the page and the list hold;
      on page 0 nothing. */
  function PageSlice<T>(s: seq<T>, page: int, d: int): (r: seq<T>)
    requires d > 0
    ensures |r| <= d
    ensures page >= 1 ==>
      && |r| == Max(0, Min(d, |s| - (page - 1) * d))
      && forall k | 0 <= k < |r| :: r[k] == s[(page - 1) * d + k]
    ensures page == 0 ==> r == []
  {
    var start := (page - 1) * d;
    assert page >= 1 ==> start >= 0 by {
      if page >= 1 { MulNonNegative(page - 1, d); }
    }
    assert page == 0 ==> start == -d;
    JsSlice(s, start, start + d)
  }

  lemma MulNonNegative(a: int, b: int)
    requires a >= 0 && b >= 0
    ensures a * b >= 0
  {
  }

  /** Every item is shown on exactly the page its position puts it on: the
      item at position k is row k % d of page k / d + 1. */
  lemma PageOfIndex<T>(s: seq<T>, d: int, k: int)
    requires d > 0 && 0 <= k < |s|
    ensures k % d < |PageSlice(s, k / d + 1, d)|
    ensures PageSlice(s, k / d + 1, d)[k % d] == s[k]
  {
    assert k == (k / d) * d + k % d;
  }

  /** Within the bounds, the current page of a non-empty list shows at least
      one item. */
  lemma PageInBoundsShowsTasks<T>(s: seq<T>, page: int, d: int)
    requires d > 0
    ensures PageInBounds(page, |s|, d) && |s| > 0 ==> PageSlice(s, page, d) != []
  {
    if PageInBounds(page, |s|, d) && |s| > 0 {
      var tp := TotalPages(|s|, d);
      assert (page - 1) * d <= (tp - 1) * d;
    }
  }

  /** The pagination summary the render shows. */
  datatype Pager = Pager(totalPages: int, prevDisabled: bool, nextDisabled: bool)

  /** renderTasks' pager: the page count is max(1, Math.ceil(n / d)); with no
      tasks there is one page and "next" is disabled; "previous" is disabled
      on page 1 only. */
  function PagerView(n: nat, page: int, d: int): (p: Pager)
    requires d > 0
    ensures p.totalPages == Max(1, CeilDiv(n, d))
    ensures n == 0 ==> p.totalPages == 1 && p.nextDisabled
    ensures p.prevDisabled <==> page == 1
  {
    var tp := TotalPages(n, d);
    Pager(tp, page == 1, page == tp || n == 0)
  }

  /** Within the bounds, each button is disabled exactly when its handler's
      guard would refuse to move: "previous" tests page > 1, "next" tests
      page < Math.ceil(n / d). */
  lemma ButtonsMatchHandlers(n: nat, page: int, d: int)
    requires d > 0 && PageInBounds(page, n, d)
    ensures PagerView(n, page, d).prevDisabled <==> !(page > 1)
    ensures PagerView(n, page, d).nextDisabled <==> !(page < CeilDiv(n, d))
  {
  }

  /** The clamp after a delete: with c = Math.ceil(n / d) for the new count,
      a page past c (and past 1) becomes c. */
  function PageAfterDelete(page: int, n: nat, d: int): (r: int)
    requires d > 0
    ensures r <= page
    ensures r != page ==> 1 < page && r == CeilDiv(n, d)
    ensures page >= 1 && n > 0 ==> r >= 1
  {
    var c := CeilDiv(n, d);
    if page > c && page > 1 then c else page
  }

  /** From a page at 1 or above, the clamp lands within the bounds exactly
      when the list is not empty or the page was 1: a delete that empties
      the list while on page 2 or later leaves page 0. */
  lemma PageAfterDeleteInBounds(page: int, n: nat, d: int)
    requires d > 0 && page >= 1
    ensures PageInBounds(PageAfterDelete(page, n, d), n, d) <==> n > 0 || page == 1
  {
  }

  /** A delete that removes at most one task keeps the page within the
      bounds. */
  lemma DeleteKeepsPageInBounds(page: int, oldN: nat, newN: nat, d: int)
    requires d > 0 && PageInBounds(page, oldN, d)
    requires oldN - 1 <= newN
    ensures PageInBounds(PageAfterDelete(page, newN, d), newN, d)
  {
    PageAfterDeleteInBounds(page, newN, d);
    if newN == 0 {
      assert TotalPages(oldN, d) == 1;
    }
  }

  /** The worked example: twelve tasks at five a page make three pages; the
      third shows two tasks and disables "next"; the first disables
      "previous". With no tasks there is one page and both buttons are
      disabled. */
  lemma TwelveTasksFivePerPage<T>(s: seq<T>)
    requires |s| == 12
    ensures PagerView(12, 3, 5) == Pager(3, false, true)
    ensures |PageSlice(s, 3, 5)| == 2
    ensures PagerView(12, 1, 5).prevDisabled
    ensures PagerView(0, 1, 5) == Pager(1, true, true)
  {
  }
}
