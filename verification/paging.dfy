/** Fixed-size pages over the ordered result. */
module Paging {

  /** Rows per page. */
  const PageSize: nat := 50

  /** The number of pages for `n` rows: enough pages of `PageSize` to hold them
      all, and one page when there are none. */
  function TotalPages(n: nat): (t: nat)
    ensures t >= 1
    ensures n == 0 ==> t == 1
    ensures n > 0 ==> (t - 1) * PageSize < n <= t * PageSize
  {
    if n > 0 then (n + PageSize - 1) / PageSize else 1
  }

  /** The position of the first row of page `p`. */
  function PageStart(p: nat): (start: nat)
    requires p >= 1
  {
    (p - 1) * PageSize
  }

  /** Page `p` of `s`: the rows from `PageStart(p)` on, at most `PageSize` of them. */
  function Page<T>(s: seq<T>, p: nat): (r: seq<T>)
    requires 1 <= p <= TotalPages(|s|)
    ensures 0 < |r| <= PageSize || (|s| == 0 && r == [])
    ensures |r| == if |s| - PageStart(p) < PageSize then |s| - PageStart(p) else PageSize
    ensures forall i :: 0 <= i < |r| ==> r[i] == s[PageStart(p) + i]
  {
    var start := PageStart(p);
    var end := start + PageSize;
    s[start..if end <= |s| then end else |s|]
  }

  /** Pages `p`, `p + 1`, ..., up to the last one, laid end to end. */
  function PagesFrom<T>(s: seq<T>, p: nat): (rest: seq<T>)
    requires p >= 1
    decreases TotalPages(|s|) + 1 - p
  {
    if p > TotalPages(|s|) then [] else Page(s, p) + PagesFrom(s, p + 1)
  }

  /** The pages from `p` on hold exactly the rows from `PageStart(p)` on. */
  lemma {:induction false} PagesFromAreSuffix<T>(s: seq<T>, p: nat)
    requires 1 <= p <= TotalPages(|s|) + 1
    ensures PagesFrom(s, p) == if PageStart(p) <= |s| then s[PageStart(p)..] else []
    decreases TotalPages(|s|) + 1 - p
  {
    if p <= TotalPages(|s|) {
      PagesFromAreSuffix(s, p + 1);
    }
  }

  /** Reading every page in order gives back the whole result, each row once. */
  lemma PagesReassemble<T>(s: seq<T>)
    ensures PagesFrom(s, 1) == s
  {
    PagesFromAreSuffix(s, 1);
  }

  /** Every row is on exactly the page its position says. */
  lemma RowOnPage<T>(s: seq<T>, k: nat)
    requires k < |s|
    ensures 1 <= k / PageSize + 1 <= TotalPages(|s|)
    ensures Page(s, k / PageSize + 1)[k % PageSize] == s[k]
  {
  }
}
