/**
 * The page arithmetic of `getPaginatedData` (src/utils/database.ts): which
 * rows a page asks for and how many pages a row count makes. The query
 * itself is left to the caller.
 */
module Pagination {
  import opened Options

  /**
   * `PaginationParams`. The type declares both fields as numbers; a field
   * that is undefined at run time gets the destructuring default.
   */
  datatype Params = Params(page: Option<int>, limit: Option<int>)

  /** An inclusive row range, as passed to the database client's `range`. */
  datatype RowRange = RowRange(from: int, to: int)

  /** The page and limit after defaulting: page 1, limit 10. */
  function PageOf(p: Params): int { p.page.GetOr(1) }
  function LimitOf(p: Params): int { p.limit.GetOr(10) }

  /** The first row of a page: the rows of all earlier pages are skipped. */
  function Offset(page: int, limit: int): (o: int)
    ensures page >= 1 && limit >= 0 ==> o >= 0
  {
    (page - 1) * limit
  }

  /** The row range a request asks for. */
  function Range(p: Params): (r: RowRange)
    ensures r.to - r.from + 1 == LimitOf(p)
    ensures PageOf(p) == 1 ==> r.from == 0
    ensures p == Params(None, None) ==> r == RowRange(0, 9)
  {
    var offset := Offset(PageOf(p), LimitOf(p));
    RowRange(offset, offset + LimitOf(p) - 1)
  }

  /** Consecutive pages of one limit ask for adjacent, non-overlapping ranges. */
  lemma ConsecutivePagesAdjacent(page: int, limit: int)
    ensures Range(Params(Some(page + 1), Some(limit))).from == Range(Params(Some(page), Some(limit))).to + 1
  {
  }

  /** With a positive limit, a row index from 0 on lies in page `row / limit + 1` and in no other. */
  lemma {:induction false} RowOnOnePage(row: int, limit: int, page: int)
    requires row >= 0 && limit >= 1 && page >= 1
    ensures var r := Range(Params(Some(page), Some(limit)));
      r.from <= row <= r.to <==> page == row / limit + 1
  {
    var q, m := row / limit, row % limit;
    assert row == q * limit + m && 0 <= m < limit;
    var r := Range(Params(Some(page), Some(limit)));
    assert r.from == (page - 1) * limit && r.to == (page - 1) * limit + limit - 1;
    if page <= q {
      MultiplyMonotone(page, q, limit);
      assert (page - 1) * limit + limit == page * limit;
    } else if page >= q + 2 {
      MultiplyMonotone(q + 1, page - 1, limit);
      assert (q + 1) * limit == q * limit + limit;
    }
  }

  lemma MultiplyMonotone(a: int, b: int, k: int)
    requires a <= b && k >= 0
    ensures a * k <= b * k
  {
    assert b * k - a * k == (b - a) * k;
  }

  /** `count || 0`: a missing count is 0. */
  function Total(count: Option<nat>): (t: nat)
    ensures count.Some? ==> t == count.value
    ensures t == 0 <==> count == None || count == Some(0)
  {
    count.GetOr(0)
  }

  /** `Math.ceil` on a real. */
  function Ceil(x: real): (n: int)
    ensures x <= n as real < x + 1.0
  {
    -((-x).Floor)
  }

  /**
   * `totalPages`: the ceiling of total / limit; `None` for a zero limit,
   * where the JavaScript division gives Infinity or NaN.
   */
  function TotalPages(total: nat, limit: int): (r: Option<int>)
    ensures r == None <==> limit == 0
  {
    if limit == 0 then None
    else Some(Ceil(total as real / limit as real))
  }

  /**
   * With a positive limit the page count is the least number of pages that
   * holds every row: the last page is not empty and no row is left over.
   */
  lemma {:induction false} TotalPagesCoversRows(total: nat, limit: int)
    requires limit >= 1
    ensures TotalPages(total, limit).Some?
    ensures var n := TotalPages(total, limit).value;
      && n >= 0
      && total <= n * limit
      && (total > 0 ==> (n - 1) * limit < total)
      && (total == 0 <==> n == 0)
  {
    var n := TotalPages(total, limit).value;
    var x := total as real / limit as real;
    var l := limit as real;
    assert x * l == total as real;
    RealMultiplyMonotone(x, n as real, l);
    assert (n * limit) as real == (n as real) * l;
    if total > 0 {
      assert (n - 1) as real < x;
      RealMultiplyStrict((n - 1) as real, x, l);
      assert ((n - 1) * limit) as real == ((n - 1) as real) * l;
      assert ((n - 1) * limit) as real < total as real;
    }
    assert n >= 0 by {
      RealMultiplyMonotone(0.0, x, l);
    }
  }

  lemma RealMultiplyMonotone(a: real, b: real, k: real)
    requires a <= b && k >= 0.0
    ensures a * k <= b * k
  {
    assert b * k - a * k == (b - a) * k;
  }

  lemma RealMultiplyStrict(a: real, b: real, k: real)
    requires a < b && k > 0.0
    ensures a * k < b * k
  {
    assert b * k - a * k == (b - a) * k;
  }

  /** The default request (page 1, limit 10) over a count reports ceil(count / 10) pages. */
  lemma DefaultPageCount(count: Option<nat>)
    ensures var n := TotalPages(Total(count), LimitOf(Params(None, None))).value;
      && Total(count) <= n * 10
      && (Total(count) > 0 ==> (n - 1) * 10 < Total(count))
      && (count == None ==> n == 0)
  {
    TotalPagesCoversRows(Total(count), 10);
  }
}
