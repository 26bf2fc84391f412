/**
 * The page arithmetic that the blog list and the project list both repeat:
 * the number of pages, the window of items shown on a page, and the two
 * clamped page updaters that the paginator's buttons call.
 */
module Pagination {
  import Paginator

  function Min(a: int, b: int): int { if a <= b then a else b }
  function Max(a: int, b: int): int { if a >= b then a else b }

  // ---------------------------------------------------------------------
  // Number of pages
  // ---------------------------------------------------------------------

  /** `Math.ceil(n / p)` for a whole number of items and a positive page size. */
  function CeilDiv(n: nat, p: nat): (q: nat)
    requires p > 0
    ensures n <= q * p
    ensures q > 0 ==> (q - 1) * p < n
  {
    var q := (n + p - 1) / p;
    assert n + p - 1 == q * p + (n + p - 1) % p;
    q
  }

  /** `Math.max(1, Math.ceil(n / p))`: the last page; an empty list still has page 1. */
  function MaxPage(n: nat, p: nat): (m: nat)
    requires p > 0
    ensures m >= 1
    ensures n == 0 ==> m == 1
    ensures n > 0 ==> (m - 1) * p < n <= m * p
  {
    Max(1, CeilDiv(n, p))
  }

  /** The page count is the least number of pages of `p` items that hold all `n` items. */
  lemma {:induction false} MaxPageLeast(n: nat, p: nat, m: nat)
    requires p > 0 && m >= 1 && n <= m * p
    ensures MaxPage(n, p) <= m
  {
    var k := MaxPage(n, p);
    if k > m {
      assert (k - 1) * p >= m * p by {
        MulMonotone(m, k - 1, p);
      }
    }
  }

  lemma {:induction false} MulMonotone(a: nat, b: nat, p: nat)
    requires a <= b
    ensures a * p <= b * p
  {
    assert b * p == a * p + (b - a) * p;
  }

  // ---------------------------------------------------------------------
  // The visible window
  // ---------------------------------------------------------------------

  /**
   * Where a `slice` argument lands: negative ones count back from the end,
   * all are clamped to the list. The ensures are JavaScript's clamp rules,
   * stated so that callers need not unfold the body.
   */
  function SliceIndex(i: int, n: nat): (r: nat)
    ensures r <= n
    ensures 0 <= i <= n ==> r == i
    ensures i > n ==> r == n
    ensures i < 0 ==> r == Max(n + i, 0)
  {
    if i < 0 then (if n + i < 0 then 0 else n + i) else if i > n then n else i
  }

  /** `Array.prototype.slice(begin, end)`. */
  function Slice<T>(s: seq<T>, begin: int, end: int): seq<T> {
    var lo := SliceIndex(begin, |s|);
    var hi := SliceIndex(end, |s|);
    if lo < hi then s[lo..hi] else []
  }

  /** The items shown on `page`: `slice((page - 1) * p, p * page)`. */
  function Window<T>(s: seq<T>, page: int, p: nat): seq<T> {
    Slice(s, (page - 1) * p, p * page)
  }

  /**
   * On a page from 1 on, the window is the run of at most `p` items that
   * starts at item `(page - 1) * p`, in the list's own order, cut short by
   * the end of the list.
   */
  lemma {:induction false} WindowContents<T>(s: seq<T>, page: int, p: nat)
    requires page >= 1 && p > 0
    ensures var start := (page - 1) * p;
      Window(s, page, p) == s[Min(start, |s|)..Min(start + p, |s|)]
  {
    var start := (page - 1) * p;
    assert p * page == start + p;
    assert start >= 0 by {
      MulMonotone(0, page - 1, p);
    }
  }

  /** The window holds at most `p` items, each the item at its place in the list. */
  lemma {:induction false} WindowAt<T>(s: seq<T>, page: int, p: nat)
    requires page >= 1 && p > 0
    ensures |Window(s, page, p)| <= p
    ensures forall i :: 0 <= i < |Window(s, page, p)| ==>
      (page - 1) * p + i < |s| && Window(s, page, p)[i] == s[(page - 1) * p + i]
  {
    var start := (page - 1) * p;
    WindowContents(s, page, p);
    MulMonotone(0, page - 1, p);
    var w := Window(s, page, p);
    if start < |s| {
      assert w == s[start..Min(start + p, |s|)];
    } else {
      assert w == [];
    }
  }

  /** Every page up to the last one holds something, unless the list is empty. */
  lemma {:induction false} WindowNonEmpty<T>(s: seq<T>, page: int, p: nat)
    requires p > 0 && 1 <= page <= MaxPage(|s|, p)
    ensures Window(s, page, p) == [] <==> |s| == 0
  {
    var start := (page - 1) * p;
    WindowContents(s, page, p);
    if |s| > 0 {
      MulMonotone(page - 1, MaxPage(|s|, p) - 1, p);
      assert start < |s|;
      assert |Window(s, page, p)| == Min(start + p, |s|) - start;
    }
  }

  /** Past the last page the window is empty. */
  lemma {:induction false} WindowPastEnd<T>(s: seq<T>, page: int, p: nat)
    requires p > 0 && page > MaxPage(|s|, p)
    ensures Window(s, page, p) == []
  {
    WindowContents(s, page, p);
    MulMonotone(MaxPage(|s|, p), page - 1, p);
  }

  /** Pages 1 to `k`, one after the other. */
  function Pages<T>(s: seq<T>, p: nat, k: nat): seq<T> {
    if k == 0 then [] else Pages(s, p, k - 1) + Window(s, k, p)
  }

  /** The first `k` pages are the first `k * p` items (or all of them). */
  lemma {:induction false} PagesPrefix<T>(s: seq<T>, p: nat, k: nat)
    requires p > 0
    ensures Pages(s, p, k) == s[..Min(k * p, |s|)]
  {
    if k > 0 {
      PagesPrefix(s, p, k - 1);
      var a := Min((k - 1) * p, |s|);
      var b := Min(k * p, |s|);
      LastPage(s, p, k);
      PrefixSplit(s, a, b);
    }
  }

  lemma {:induction false} PrefixSplit<T>(s: seq<T>, a: nat, b: nat)
    requires a <= b <= |s|
    ensures s[..a] + s[a..b] == s[..b]
  {
  }

  /** Page `k` runs from where the first `k - 1` pages stop to where the first `k` do. */
  lemma {:induction false} LastPage<T>(s: seq<T>, p: nat, k: nat)
    requires p > 0 && k > 0
    ensures Min((k - 1) * p, |s|) <= Min(k * p, |s|)
    ensures Window(s, k, p) == s[Min((k - 1) * p, |s|)..Min(k * p, |s|)]
  {
    WindowContents(s, k, p);
    assert (k - 1) * p + p == k * p;
  }

  /** Reading every page from 1 to the last gives back the whole list, in order. */
  lemma {:induction false} PagesCover<T>(s: seq<T>, p: nat)
    requires p > 0
    ensures Pages(s, p, MaxPage(|s|, p)) == s
  {
    var m := MaxPage(|s|, p);
    PagesPrefix(s, p, m);
    assert |s| <= m * p by {
      if |s| == 0 {
        MulMonotone(0, m, p);
      }
    }
    assert s[..|s|] == s;
  }

  /** Ten items four to a page: three pages, the last holding two. */
  lemma {:induction false} TenItemsFourPerPage<T>(s: seq<T>)
    requires |s| == 10
    ensures MaxPage(|s|, 4) == 3
    ensures |Window(s, 1, 4)| == 4 && |Window(s, 2, 4)| == 4 && |Window(s, 3, 4)| == 2
  {
    assert CeilDiv(10, 4) == 3;
    WindowContents(s, 1, 4);
    WindowContents(s, 2, 4);
    WindowContents(s, 3, 4);
  }

  // ---------------------------------------------------------------------
  // Page updaters
  // ---------------------------------------------------------------------

  /** `page => Math.min(page + 1, maxPage)`. */
  function NextPage(page: int, maxPage: int): int { Min(page + 1, maxPage) }

  /** `page => Math.max(page - 1, 1)`. */
  function PrevPage(page: int): int { Max(page - 1, 1) }

  predicate InRange(page: int, maxPage: int) { 1 <= page <= maxPage }

  /** Next moves one page on, except on the last page, where it stays. */
  lemma {:induction false} NextPageStep(page: int, maxPage: int)
    requires InRange(page, maxPage)
    ensures InRange(NextPage(page, maxPage), maxPage)
    ensures NextPage(page, maxPage) == if page == maxPage then page else page + 1
  {
  }

  /** Prev moves one page back, except on page 1, where it stays. */
  lemma {:induction false} PrevPageStep(page: int, maxPage: int)
    requires InRange(page, maxPage)
    ensures InRange(PrevPage(page), maxPage)
    ensures PrevPage(page) == if page == 1 then page else page - 1
  {
  }

  datatype Step = Next | Prev

  function Apply(page: int, maxPage: int, step: Step): int {
    match step
    case Next => NextPage(page, maxPage)
    case Prev => PrevPage(page)
  }

  /** The page after pressing the buttons in `steps`, in order. */
  function Run(page: int, maxPage: int, steps: seq<Step>): int
    decreases |steps|
  {
    if steps == [] then page else Run(Apply(page, maxPage, steps[0]), maxPage, steps[1..])
  }

  /** Any sequence of presses keeps the page between 1 and the last page. */
  lemma {:induction false} RunInRange(page: int, maxPage: int, steps: seq<Step>)
    requires InRange(page, maxPage)
    ensures InRange(Run(page, maxPage, steps), maxPage)
    decreases |steps|
  {
    if steps != [] {
      var next := Apply(page, maxPage, steps[0]);
      assert InRange(next, maxPage) by {
        NextPageStep(page, maxPage);
        PrevPageStep(page, maxPage);
      }
      RunInRange(next, maxPage, steps[1..]);
    }
  }

  /** Each press moves the page by at most one. */
  lemma {:induction false} RunDistance(page: int, maxPage: int, steps: seq<Step>)
    requires InRange(page, maxPage)
    ensures -|steps| <= Run(page, maxPage, steps) - page <= |steps|
    decreases |steps|
  {
    if steps != [] {
      var next := Apply(page, maxPage, steps[0]);
      NextPageStep(page, maxPage);
      PrevPageStep(page, maxPage);
      RunDistance(next, maxPage, steps[1..]);
    }
  }

  /** Pressing Next `k` times from any reachable page reaches `k` pages on, or the last page. */
  lemma {:induction false} RunNexts(page: int, maxPage: int, k: nat)
    requires InRange(page, maxPage)
    ensures Run(page, maxPage, seq(k, _ => Next)) == Min(page + k, maxPage)
    decreases k
  {
    if k > 0 {
      var steps := seq(k, _ => Next);
      assert steps[0] == Next;
      assert steps[1..] == seq(k - 1, _ => Next);
      NextPageStep(page, maxPage);
      RunNexts(NextPage(page, maxPage), maxPage, k - 1);
    }
  }

  // ---------------------------------------------------------------------
  // The paginator's buttons over the list's page state
  // ---------------------------------------------------------------------

  /** With the list's last page as the paginator's total, Prev is disabled exactly when pressing it changes nothing; enabled, it goes back one page. */
  lemma {:induction false} BackButton(page: int, maxPage: int)
    requires InRange(page, maxPage)
    ensures Paginator.IsBackDisabled(page) <==> PrevPage(page) == page
    ensures !Paginator.IsBackDisabled(page) ==> PrevPage(page) == page - 1
  {
    PrevPageStep(page, maxPage);
  }

  /** Next is disabled exactly when pressing it changes nothing; enabled, it goes on one page. */
  lemma {:induction false} NextButton(page: int, maxPage: int)
    requires InRange(page, maxPage)
    ensures Paginator.IsNextDisabled(page, maxPage) <==> NextPage(page, maxPage) == page
    ensures !Paginator.IsNextDisabled(page, maxPage) ==> NextPage(page, maxPage) == page + 1
  {
    NextPageStep(page, maxPage);
  }

  /** A list that fits on one page shows both buttons disabled. */
  lemma {:induction false} OnePageBothDisabled(n: nat, p: nat, page: int)
    requires p > 0 && n <= p && InRange(page, MaxPage(n, p))
    ensures Paginator.IsBackDisabled(page) && Paginator.IsNextDisabled(page, MaxPage(n, p))
  {
    MaxPageLeast(n, p, 1);
  }
}
