/** `PaginatedUrls`: one page of a user's urls with the paging figures, and
    its computed `totalPages`. */
module Pagination {
  import opened UrlEntity

  /** The fields are stored exactly as the listing passes them in. */
  datatype PaginatedUrls = PaginatedUrls(urls: seq<Url>, totalURLs: nat, page: nat, limit: nat)

  /** `totalPages`: `Math.ceil(totalURLs / limit)`, the number of pages of
      `limit` rows needed for `totalURLs` rows. */
  function TotalPages(p: PaginatedUrls): (n: nat)
    requires p.limit >= 1
    ensures n * p.limit >= p.totalURLs
    ensures p.totalURLs > 0 ==> (n - 1) * p.limit < p.totalURLs
    ensures p.totalURLs == 0 ==> n == 0
  {
    var t, l := p.totalURLs, p.limit;
    var n := (t + l - 1) / l;
    assert t + l - 1 == n * l + (t + l - 1) % l;
    assert n * l - l == (n - 1) * l;
    n
  }

  /** No smaller page count covers every row: `totalPages` is the ceiling. */
  lemma TotalPagesIsLeast(p: PaginatedUrls, m: nat)
    requires p.limit >= 1
    requires m * p.limit >= p.totalURLs
    ensures TotalPages(p) <= m
  {
    var n := TotalPages(p);
    if n > m {
      assert (n - 1) * p.limit >= m * p.limit by {
        assert n - 1 >= m;
        MultiplyMonotone(n - 1, m, p.limit);
      }
    }
  }

  lemma MultiplyMonotone(a: nat, b: nat, c: nat)
    requires a >= b
    ensures a * c >= b * c
  {
  }
}
