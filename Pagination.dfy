/** The page envelope the list endpoints return: the page's items, the
    1-based page number, the page size and the total number of items, with
    the derived page count and next/previous flags. */
module Pagination {
  /** The ceiling of `a / b` for a non-zero divisor of either sign. */
  function CeilDiv(a: int, b: int): (q: int)
    requires b != 0
    ensures b > 0 ==> q * b >= a && (q - 1) * b < a
    ensures b < 0 ==> q * b <= a && (q - 1) * b > a
  {
    if b > 0 then CeilDivPositive(a, b) else CeilDivPositive(-a, -b)
  }

  function CeilDivPositive(a: int, b: int): (q: int)
    requires b > 0
    ensures q * b >= a && (q - 1) * b < a
  {
    var f := (-a) / b;
    assert f * b <= -a < (f + 1) * b;
    -f
  }

  /** The ceiling is the only integer in that position. */
  lemma CeilDivUnique(a: int, b: int, q: int)
    requires b > 0 && q * b >= a && (q - 1) * b < a
    ensures q == CeilDiv(a, b)
  {
  }

  datatype PaginatedResponse<T> = PaginatedResponse(
    data: seq<T>,
    page: int,
    pageSize: int,
    totalCount: int)
  {
    /** `(int)Math.Ceiling((double)TotalCount / PageSize)`. For 32-bit
        operands the double quotient never rounds across an integer, so
        the result is the exact ceiling; the one quotient whose ceiling
        does not fit in `int`, `int.MinValue / -1`, is not modelled. */
    function TotalPages(): (n: int)
      requires pageSize != 0
      ensures pageSize > 0 ==> n * pageSize >= totalCount && (n - 1) * pageSize < totalCount
      ensures pageSize < 0 ==> n * pageSize <= totalCount && (n - 1) * pageSize > totalCount
    {
      CeilDiv(totalCount, pageSize)
    }

    /** `Page < TotalPages`. */
    predicate HasNextPage()
      requires pageSize != 0
    {
      page < TotalPages()
    }

    /** `Page > 1`: pages are numbered from 1. */
    predicate HasPreviousPage() {
      page > 1
    }
  }

  /** For a positive page size and a non-negative count, the page count is
      the least number of pages that holds every item: enough pages, and
      the last one is not empty. */
  lemma TotalPagesIsCeiling<T>(p: PaginatedResponse<T>)
    requires p.pageSize > 0 && p.totalCount >= 0
    ensures p.TotalPages() >= 0
    ensures p.TotalPages() * p.pageSize >= p.totalCount
    ensures p.totalCount > 0 ==> (p.TotalPages() - 1) * p.pageSize < p.totalCount
    ensures p.totalCount == 0 <==> p.TotalPages() == 0
  {
  }

  /** There is a next page exactly when items remain after the pages up to
      and including this one. */
  lemma HasNextPageIffItemsRemain<T>(p: PaginatedResponse<T>)
    requires p.pageSize > 0
    ensures p.HasNextPage() <==> p.page * p.pageSize < p.totalCount
  {
    var n := p.TotalPages();
    if p.page < n {
      assert p.page <= n - 1;
      assert p.page * p.pageSize <= (n - 1) * p.pageSize;
    } else {
      assert p.page * p.pageSize >= n * p.pageSize;
    }
  }

  /** An empty result has no pages and no next page from any page
      number that is not negative. */
  lemma EmptyHasNoNextPage<T>(p: PaginatedResponse<T>)
    requires p.pageSize > 0 && p.totalCount == 0 && p.page >= 0
    ensures p.TotalPages() == 0
    ensures !p.HasNextPage()
  {
    TotalPagesIsCeiling(p);
  }

  /** On a page within range, the flags keep navigation within range: the
      page holds at least one item, there is a next page exactly when this
      is not the last page, and a previous page exactly when it is not the
      first, and either neighbour is itself a page in range. */
  lemma NavigationStaysInRange<T>(p: PaginatedResponse<T>)
    requires p.pageSize > 0 && 1 <= p.page <= p.TotalPages()
    ensures (p.page - 1) * p.pageSize < p.totalCount
    ensures p.HasNextPage() <==> p.page != p.TotalPages()
    ensures p.HasNextPage() ==> 1 <= p.page + 1 <= p.TotalPages()
    ensures p.HasPreviousPage() <==> p.page != 1
    ensures p.HasPreviousPage() ==> 1 <= p.page - 1 <= p.TotalPages()
  {
    var n := p.TotalPages();
    assert (p.page - 1) * p.pageSize <= (n - 1) * p.pageSize;
  }
}
