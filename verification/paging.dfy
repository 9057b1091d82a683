/** The page arithmetic of the `bt` command (main.py:316-325): how many pages
    the results take and which stretch of them each page shows. Pages are
    numbered from 1; stretches are half-open ranges of result positions. */
module Paging {

  /** The page size in force: the configured one when positive, otherwise
      all `count` results on one page. */
  function PageSize(configured: int, count: nat): (ps: nat)
    ensures configured > 0 ==> ps == configured
    ensures configured <= 0 ==> ps == count
  {
    if configured > 0 then configured else count
  }

  /** The fewest pages of `size` results that hold `count` results: a page
      per `size` results and one more for a remainder. `TotalPagesFormula`
      shows this is `(count + size - 1) // size`. */
  function TotalPages(count: nat, size: nat): (t: nat)
    requires size > 0
    ensures count > 0 <==> t > 0
    decreases count
  {
    if count == 0 then 0
    else if count <= size then 1
    else 1 + TotalPages(count - size, size)
  }

  /** Where page `page` starts among the results: a page size for each page
      before it. `PageStartFormula` shows this is `(page - 1) * size`. */
  function PageStart(page: nat, size: nat): nat
    requires page >= 1
  {
    if page == 1 then 0 else PageStart(page - 1, size) + size
  }

  /** Where page `page` ends: a page size after its start, cut at the last
      of `count` results. */
  function PageEnd(page: nat, size: nat, count: nat): (e: nat)
    requires page >= 1
    ensures e <= count && e <= PageStart(page + 1, size)
    ensures e == count || e == PageStart(page + 1, size)
  {
    var start := PageStart(page, size);
    if start + size <= count then start + size else count
  }

  // ----- the source's formulas -----------------------------------------------

  /** `k` copies of `d`, for `k >= 1`, are at least one copy. */
  lemma {:induction false} MulAtLeast(k: int, d: nat)
    requires k >= 1
    ensures k * d >= d
    decreases k
  {
    if k > 1 {
      MulAtLeast(k - 1, d);
      assert k * d == (k - 1) * d + d;
    }
  }

  /** Floor division has one quotient: the `q` of `a == q * d + r` with
      `0 <= r < d`. */
  lemma DivUnique(a: int, d: nat, q: int, r: int)
    requires d > 0 && 0 <= r < d && a == q * d + r
    ensures a / d == q
  {
    var q', r' := a / d, a % d;
    assert a == q' * d + r';
    assert (q - q') * d == r' - r;
    if q > q' {
      MulAtLeast(q - q', d);
    } else if q' > q {
      MulAtLeast(q' - q, d);
    }
  }

  /** Adding the divisor adds one to the quotient. */
  lemma DivShift(x: nat, size: nat)
    requires size > 0
    ensures (x + size) / size == x / size + 1
  {
    var q, r := x / size, x % size;
    assert x == q * size + r;
    assert x + size == (q + 1) * size + r;
    DivUnique(x + size, size, q + 1, r);
  }

  /** The page count is `(count + size - 1) // size`. */
  lemma {:induction false} TotalPagesFormula(count: nat, size: nat)
    requires size > 0
    ensures TotalPages(count, size) == (count + size - 1) / size
    decreases count
  {
    if count == 0 {
      DivUnique(size - 1, size, 0, size - 1);
    } else if count <= size {
      DivUnique(count + size - 1, size, 1, count - 1);
    } else {
      TotalPagesFormula(count - size, size);
      DivShift(count - 1, size);
      assert count - size + size - 1 == count - 1;
    }
  }

  /** A page starts `(page - 1) * size` results in. */
  lemma {:induction false} PageStartFormula(page: nat, size: nat)
    requires page >= 1
    ensures PageStart(page, size) == (page - 1) * size
    decreases page
  {
    if page > 1 {
      PageStartFormula(page - 1, size);
      assert (page - 1) * size == (page - 2) * size + size;
    }
  }

  // ----- properties of the pages ---------------------------------------------

  /** Later pages start further on. */
  lemma {:induction false} PageStartMonotone(p: nat, q: nat, size: nat)
    requires 1 <= p <= q
    ensures PageStart(p, size) <= PageStart(q, size)
    decreases q - p
  {
    if p < q {
      PageStartMonotone(p, q - 1, size);
    }
  }

  /** The page count is the ceiling: its pages hold every result, and one
      page fewer would not. */
  lemma {:induction false} TotalPagesBounds(count: nat, size: nat)
    requires size > 0
    ensures count <= PageStart(TotalPages(count, size) + 1, size)
    ensures TotalPages(count, size) > 0 ==> PageStart(TotalPages(count, size), size) < count
    decreases count
  {
    if count > size {
      TotalPagesBounds(count - size, size);
    }
  }

  /** A page is in range exactly when it starts before the last result. */
  lemma {:induction false} PageInRange(page: nat, size: nat, count: nat)
    requires size > 0 && page >= 1
    ensures page <= TotalPages(count, size) <==> PageStart(page, size) < count
  {
    var total := TotalPages(count, size);
    TotalPagesBounds(count, size);
    if page <= total {
      PageStartMonotone(page, total, size);
    } else {
      PageStartMonotone(total + 1, page, size);
    }
  }

  /** A page in range shows at least one result, and every page before the
      last shows a full page size of them. */
  lemma {:induction false} PageFill(page: nat, size: nat, count: nat)
    requires size > 0 && 1 <= page <= TotalPages(count, size)
    ensures PageStart(page, size) < PageEnd(page, size, count)
    ensures page < TotalPages(count, size) ==> PageEnd(page, size, count) == PageStart(page, size) + size
  {
    PageInRange(page, size, count);
    PageInRange(page + 1, size, count);
  }

  /** Result `i` (from 0) is on page `i // size + 1`, which is in range, at
      place `i % size` of that page. */
  lemma Placement(i: nat, size: nat, count: nat)
    requires size > 0 && i < count
    ensures var page := i / size + 1;
      && page <= TotalPages(count, size)
      && PageStart(page, size) + i % size == i
      && i < PageEnd(page, size, count)
  {
    var page := i / size + 1;
    assert PageStart(page, size) + i % size == i by {
      PageStartFormula(page, size);
      assert i == (i / size) * size + i % size;
    }
    PageInRange(page, size, count);
  }

  /** A result is on one page only: any page whose stretch holds result `i`
      is page `i // size + 1`. */
  lemma PageOfResult(i: nat, size: nat, count: nat, page: nat)
    requires size > 0 && page >= 1
    requires PageStart(page, size) <= i < PageEnd(page, size, count)
    ensures page == i / size + 1
  {
    PageStartFormula(page, size);
    PageStartFormula(page + 1, size);
    assert page * size == (page - 1) * size + size;
    DivUnique(i, size, page - 1, i - (page - 1) * size);
  }

  /** The stretches of pages 1 to `k`, one after another. */
  function Pages<T>(xs: seq<T>, size: nat, k: nat): seq<T>
    requires size > 0 && k <= TotalPages(|xs|, size)
  {
    if k == 0 then []
    else
      PageFill(k, size, |xs|);
      Pages(xs, size, k - 1) + xs[PageStart(k, size)..PageEnd(k, size, |xs|)]
  }

  /** Pages 1 to `k` show, in order, the results up to the end of page `k`,
      with no gap and no overlap between neighbouring pages. */
  lemma {:induction false} PagesPrefix<T>(xs: seq<T>, size: nat, k: nat)
    requires size > 0 && 1 <= k <= TotalPages(|xs|, size)
    ensures Pages(xs, size, k) == xs[..PageEnd(k, size, |xs|)]
  {
    var s, e := PageStart(k, size), PageEnd(k, size, |xs|);
    PageFill(k, size, |xs|);
    if k == 1 {
      assert Pages(xs, size, 0) == [];
      assert xs[..e] == [] + xs[s..e];
    } else {
      PagesPrefix(xs, size, k - 1);
      PageFill(k - 1, size, |xs|);
      assert PageEnd(k - 1, size, |xs|) == s;
      assert xs[..e] == xs[..s] + xs[s..e];
    }
  }

  /** Read one after another, all the pages show every result exactly once,
      in order. */
  lemma PagesConcat<T>(xs: seq<T>, size: nat)
    requires size > 0
    ensures Pages(xs, size, TotalPages(|xs|, size)) == xs
  {
    var total := TotalPages(|xs|, size);
    if total > 0 {
      PagesPrefix(xs, size, total);
      TotalPagesBounds(|xs|, size);
      assert PageEnd(total, size, |xs|) == |xs|;
    }
  }

  /** With the page size at the result count, there is one page, holding
      everything. */
  lemma OnePage(count: nat)
    requires count > 0
    ensures TotalPages(count, count) == 1
    ensures PageEnd(1, count, count) == count
  {
  }
}
