/** The pagination arithmetic of the post queries: the SQL `OFFSET` of a
    page, `Math.ceil(totalCount / limit)` for the page count, and the rows
    that `LIMIT ... OFFSET ...` keeps. */
module Paging {
  import opened Wrappers

  /** The number of rows skipped before page `page` (pages count from 1),
      `(page - 1) * limit`. It is written through repeated addition, so that
      the solver expands it one page at a time; `OffsetIsProduct` relates it
      to the product. */
  function Offset(page: int, limit: int): (r: int)
    ensures page >= 1 && limit >= 0 ==> r >= 0
  {
    if page >= 1 then Steps(page - 1, limit) else -Steps(1 - page, limit)
  }

  /** `k` pages of `limit` rows. */
  function Steps(k: nat, limit: int): (r: int)
    ensures limit >= 0 ==> r >= 0
    decreases k
  {
    if k == 0 then 0 else Steps(k - 1, limit) + limit
  }

  lemma {:induction false} StepsIsProduct(k: nat, limit: int)
    ensures Steps(k, limit) == k * limit
    decreases k
  {
    if k > 0 {
      StepsIsProduct(k - 1, limit);
    }
  }

  /** The repeated addition is the product the query computes. */
  lemma OffsetIsProduct(page: int, limit: int)
    ensures Offset(page, limit) == (page - 1) * limit
  {
    if page >= 1 {
      StepsIsProduct(page - 1, limit);
    } else {
      StepsIsProduct(1 - page, limit);
    }
  }

  /** `Math.ceil(count / limit)` for a positive limit: one page per started
      run of `limit` rows. */
  function CeilDiv(count: nat, limit: nat): (r: nat)
    requires limit > 0
    ensures count == 0 <==> r == 0
    ensures r <= count
    decreases count
  {
    if count == 0 then 0
    else if count <= limit then 1
    else 1 + CeilDiv(count - limit, limit)
  }

  /** The page count is the number of pages of `limit` rows that `count`
      rows fill, the last one possibly short. */
  lemma {:induction false} CeilDivBounds(count: nat, limit: nat)
    requires limit > 0 && count > 0
    ensures (CeilDiv(count, limit) - 1) * limit < count <= CeilDiv(count, limit) * limit
    decreases count
  {
    var r := CeilDiv(count, limit);
    if count > limit {
      CeilDivBounds(count - limit, limit);
      assert (r - 1) * limit == (r - 2) * limit + limit;
      assert r * limit == (r - 1) * limit + limit;
    }
  }

  /** The bounds pin the page count down: no other number satisfies them. */
  lemma CeilDivUnique(count: nat, limit: nat, r: nat)
    requires limit > 0 && count > 0
    requires (r - 1) * limit < count <= r * limit
    ensures r == CeilDiv(count, limit)
  {
    var c := CeilDiv(count, limit);
    CeilDivBounds(count, limit);
    MulStrict(r - 1, c, limit);
    MulStrict(c - 1, r, limit);
  }

  lemma MulMono(a: int, b: int, limit: int)
    requires a >= b && limit >= 0
    ensures a * limit >= b * limit
  {
    assert a * limit - b * limit == (a - b) * limit;
  }

  lemma MulStrict(a: int, b: int, limit: int)
    requires limit > 0 && a * limit < b * limit
    ensures a < b
  {
    if a >= b {
      MulMono(a, b, limit);
    }
  }

  /** The page count as JSON carries it: `Math.ceil` of a division by zero
      is `Infinity` or `NaN`, both of which serialise as `null`. */
  function TotalPages(count: nat, limit: nat): (r: Option<nat>)
    ensures r.None? <==> limit == 0
    ensures limit > 0 ==> r == Some(CeilDiv(count, limit))
  {
    if limit == 0 then None else Some(CeilDiv(count, limit))
  }

  /** How many of `n` rows a page of `limit` rows starting at `offset` holds. */
  function PageLength(n: nat, offset: nat, limit: nat): (r: nat)
    ensures r <= limit
    ensures r > 0 ==> offset + r <= n
    ensures r == limit || offset + r >= n
    ensures offset < n && limit > 0 ==> r > 0
  {
    if offset >= n then 0 else if offset + limit <= n then limit else n - offset
  }

  /** The rows `LIMIT limit OFFSET offset` keeps from an ordered result. */
  function PageSlice<T>(s: seq<T>, offset: nat, limit: nat): (r: seq<T>)
    ensures |r| == PageLength(|s|, offset, limit)
    ensures forall k :: 0 <= k < |r| ==> r[k] == s[offset + k]
  {
    if offset >= |s| then []
    else if offset + limit <= |s| then s[offset..offset + limit]
    else s[offset..]
  }

  /** Pages `page`, `page + 1`, ... (`count` of them) read one after the
      other, each with `limit` rows. */
  function ReadPages<T>(s: seq<T>, limit: nat, page: nat, count: nat): seq<T>
    requires limit > 0 && page >= 1
    decreases count
  {
    if count == 0 then []
    else PageSlice(s, Offset(page, limit), limit) + ReadPages(s, limit, page + 1, count - 1)
  }

  /** A run of pages is the first page followed by the rest. */
  lemma ReadPagesStep<T>(s: seq<T>, limit: nat, page: nat, count: nat)
    requires limit > 0 && page >= 1 && count > 0
    ensures ReadPages(s, limit, page, count)
         == PageSlice(s, Offset(page, limit), limit) + ReadPages(s, limit, page + 1, count - 1)
  {
  }

  /** Pages `page`, `page + 1`, ... (`count` of them) as some reader `pageAt`
      returns them, one after the other. */
  function ReadWith<T>(pageAt: nat -> seq<T>, page: nat, count: nat): seq<T>
    decreases count
  {
    if count == 0 then [] else pageAt(page) + ReadWith(pageAt, page + 1, count - 1)
  }

  /** A reader that returns each page's `LIMIT/OFFSET` slice reads the same
      run of rows as `ReadPages`. */
  lemma {:induction false} ReadWithPages<T>(pageAt: nat -> seq<T>, s: seq<T>, limit: nat, page: nat, count: nat)
    requires limit > 0 && page >= 1
    requires forall p: nat :: page <= p < page + count ==> pageAt(p) == PageSlice(s, Offset(p, limit), limit)
    ensures ReadWith(pageAt, page, count) == ReadPages(s, limit, page, count)
    decreases count
  {
    if count > 0 {
      ReadWithPages(pageAt, s, limit, page + 1, count - 1);
      ReadPagesStep(s, limit, page, count);
    }
  }

  lemma NextOffset(page: int, limit: int)
    ensures Offset(page + 1, limit) == Offset(page, limit) + limit
  {
    if page < 1 {
      assert Steps(1 - page, limit) == Steps(1 - (page + 1), limit) + limit;
    }
  }

  /** One page fewer remains once a full page has been read. */
  lemma CeilDivStep(rest: nat, limit: nat)
    requires limit > 0 && rest > 0
    ensures rest <= limit ==> CeilDiv(rest, limit) == 1
    ensures rest >= limit ==> CeilDiv(rest - limit, limit) == CeilDiv(rest, limit) - 1
  {
  }

  lemma {:induction false} ReadPagesFrom<T>(s: seq<T>, limit: nat, page: nat, count: nat, offset: nat)
    requires limit > 0 && page >= 1
    requires offset == Offset(page, limit) && offset <= |s|
    requires count == CeilDiv(|s| - offset, limit)
    ensures ReadPages(s, limit, page, count) == s[offset..]
    decreases count
  {
    if count > 0 {
      NextOffset(page, limit);
      CeilDivStep(|s| - offset, limit);
      if offset + limit <= |s| {
        ReadPagesFrom(s, limit, page + 1, count - 1, offset + limit);
        ReadFullPage(s, limit, page, count, offset);
      } else {
        ReadLastPage(s, limit, page, count, offset);
      }
    }
  }

  /** A full page followed by the pages after it. */
  lemma ReadFullPage<T>(s: seq<T>, limit: nat, page: nat, count: nat, offset: nat)
    requires limit > 0 && page >= 1 && count > 0
    requires offset == Offset(page, limit) && offset + limit <= |s|
    requires Offset(page + 1, limit) == offset + limit
    requires ReadPages(s, limit, page + 1, count - 1) == s[offset + limit..]
    ensures ReadPages(s, limit, page, count) == s[offset..]
  {
    assert PageSlice(s, offset, limit) == s[offset..offset + limit];
    assert s[offset..] == s[offset..offset + limit] + s[offset + limit..];
  }

  /** The last, possibly short, page. */
  lemma ReadLastPage<T>(s: seq<T>, limit: nat, page: nat, count: nat, offset: nat)
    requires limit > 0 && page >= 1 && count == 1
    requires offset == Offset(page, limit) && offset < |s| < offset + limit
    ensures ReadPages(s, limit, page, count) == s[offset..]
  {
    assert PageSlice(s, offset, limit) == s[offset..];
    assert ReadPages(s, limit, page + 1, 0) == [];
  }

  /** Reading pages 1 to `totalPages` returns every row exactly once and in
      order: the pages partition the ordered result. */
  lemma PagesPartition<T>(s: seq<T>, limit: nat)
    requires limit > 0
    ensures ReadPages(s, limit, 1, CeilDiv(|s|, limit)) == s
  {
    ReadPagesFrom(s, limit, 1, CeilDiv(|s|, limit), 0);
  }

  /** Every page after the last one is empty. */
  lemma PastLastPageEmpty<T>(s: seq<T>, limit: nat, page: int)
    requires limit > 0
    requires page > CeilDiv(|s|, limit)
    ensures Offset(page, limit) >= |s|
    ensures PageSlice(s, Offset(page, limit), limit) == []
  {
    var c := CeilDiv(|s|, limit);
    if |s| > 0 {
      CeilDivBounds(|s|, limit);
    }
    OffsetIsProduct(page, limit);
    MulMono(page - 1, c, limit);
  }
}
