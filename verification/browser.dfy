/** One run of the page: filter and order the index, cut out the requested
    page, fetch that page's synopses and join them on. */
module Browser {
  import opened Wrappers
  import opened Seqs
  import opened Records
  import opened Genres
  import opened Filtering
  import opened Ranking
  import opened Paging
  import opened Details

  /** Everything one run derives from the index and the sidebar inputs. */
  datatype View = View(
    options: seq<string>,
    hits: nat,
    totalPages: nat,
    page: seq<Record>,
    lookup: Lookup,
    table: seq<Row>)

  /** The filtered rows, highest total points first. */
  function Ranked(index: seq<Record>, q: Query): (r: seq<Record>)
    ensures NonIncreasing(r)
    ensures |r| == |ApplyFilters(index, q)|
    ensures forall x :: multiset(r)[x] == if Matches(q, x) then multiset(index)[x] else 0
    ensures |r| == 0 <==> forall x :: x in index ==> !Matches(q, x)
  {
    var filtered := ApplyFilters(index, q);
    var r := SortByPoints(filtered);
    assert |r| == |multiset(r)| == |multiset(filtered)| == |filtered|;
    assert forall x :: x in index ==> x in multiset(index);
    assert |r| > 0 ==> r[0] in multiset(r);
    r
  }

  /** Every row of the ranked result matches the query and comes from the index. */
  lemma RankedMembers(index: seq<Record>, q: Query)
    ensures forall k :: 0 <= k < |Ranked(index, q)| ==> Matches(q, Ranked(index, q)[k]) && Ranked(index, q)[k] in index
  {
    var ranked := Ranked(index, q);
    forall k | 0 <= k < |ranked| ensures Matches(q, ranked[k]) && ranked[k] in index {
      assert ranked[k] in multiset(ranked);
      assert ranked[k] in multiset(index);
    }
  }

  /** The rows of page `p` of the ranked result. */
  function ShownPage(index: seq<Record>, q: Query, p: nat): (page: seq<Record>)
    requires 1 <= p <= TotalPages(|ApplyFilters(index, q)|)
    ensures |page| <= PageSize
    ensures |page| == 0 <==> |Ranked(index, q)| == 0
    ensures forall i :: 0 <= i < |page| ==> Matches(q, page[i]) && page[i] in index
    ensures NonIncreasing(page)
    ensures page == Page(Ranked(index, q), p)
  {
    var ranked := Ranked(index, q);
    PageOrdered(ranked, p);
    PageMembers(index, q, p);
    Page(ranked, p)
  }

  /** A page of a list ordered by points is ordered by points. */
  lemma PageOrdered(s: seq<Record>, p: nat)
    requires 1 <= p <= TotalPages(|s|) && NonIncreasing(s)
    ensures NonIncreasing(Page(s, p))
  {
    var page := Page(s, p);
    forall i, j | 0 <= i < j < |page| ensures page[i].globalPoint >= page[j].globalPoint {
      assert page[i] == s[PageStart(p) + i] && page[j] == s[PageStart(p) + j];
    }
  }

  /** Every row of a page of the ranked result matches the query and comes from the index. */
  lemma PageMembers(index: seq<Record>, q: Query, p: nat)
    requires 1 <= p <= TotalPages(|ApplyFilters(index, q)|)
    ensures var page := Page(Ranked(index, q), p);
      forall i :: 0 <= i < |page| ==> Matches(q, page[i]) && page[i] in index
  {
    RankedMembers(index, q);
  }

  /** The points shown at each place of page `p` do not depend on how the
      unstable sort orders ties: any ordering of the matching rows by
      non-increasing points has the same points at the same overall position. */
  lemma PagePointsDetermined(index: seq<Record>, q: Query, p: nat, other: seq<Record>)
    requires 1 <= p <= TotalPages(|ApplyFilters(index, q)|)
    requires NonIncreasing(other)
    requires forall x :: multiset(other)[x] == if Matches(q, x) then multiset(index)[x] else 0
    ensures var page := ShownPage(index, q, p);
      forall i :: 0 <= i < |page| ==> PageStart(p) + i < |other| && page[i].globalPoint == other[PageStart(p) + i].globalPoint
  {
    var ranked := Ranked(index, q);
    forall x ensures multiset(ranked)[x] == multiset(other)[x] {
    }
    assert multiset(ranked) == multiset(other);
    PointsDetermined(ranked, other);
    assert ShownPage(index, q, p) == Page(ranked, p);
  }

  /** Page `p` holds the rest of the hits after the earlier pages, at most a
      page's worth; there are no hits exactly when no row matches. */
  lemma ShownPageLength(index: seq<Record>, q: Query, p: nat)
    requires 1 <= p <= TotalPages(|ApplyFilters(index, q)|)
    ensures var hits := |ApplyFilters(index, q)|;
      |ShownPage(index, q, p)| == if hits - PageStart(p) < PageSize then hits - PageStart(p) else PageSize
    ensures |ApplyFilters(index, q)| == 0 <==> forall x :: x in index ==> !Matches(q, x)
  {
    var ranked := Ranked(index, q);
    assert ShownPage(index, q, p) == Page(ranked, p);
  }

  /** The "no results" message is shown instead of a table. */
  function ShowsNoResults(v: View): (shown: bool)
    ensures shown <==> v.table == []
  {
    |v.table| == 0
  }

  /** Run the page for sidebar inputs `q` and page number `p` (the page widget
      only offers 1 to the page count). */
  function Browse(index: seq<Record>, q: Query, p: nat, store: Store): (v: View)
    requires 1 <= p <= TotalPages(|ApplyFilters(index, q)|)
    ensures v.options == GenreOptions(index)
    ensures v.hits == |ApplyFilters(index, q)| && v.totalPages == TotalPages(v.hits)
    ensures v.totalPages >= 1 && 1 <= p <= v.totalPages
    ensures v.hits == 0 <==> forall x :: x in index ==> !Matches(q, x)
    ensures v.page == ShownPage(index, q, p)
    ensures |v.page| == if v.hits - PageStart(p) < PageSize then v.hits - PageStart(p) else PageSize
    ensures |v.page| <= PageSize
    ensures forall i :: 0 <= i < |v.page| ==> Matches(q, v.page[i]) && v.page[i] in index
    ensures NonIncreasing(v.page)
    ensures v.lookup.Skipped? <==> v.hits == 0
    ensures ShowsNoResults(v) <==> v.hits == 0
  {
    ShownPageLength(index, q, p);
    var hits := |ApplyFilters(index, q)|;
    var page := ShownPage(index, q, p);
    var (lookup, table) := FetchAndJoin(store, page);
    View(GenreOptions(index), hits, TotalPages(hits), page, lookup, table)
  }

  /** The synopsis lookup for a page and the table shown for it. */
  function FetchAndJoin(store: Store, page: seq<Record>): (out: (Lookup, seq<Row>))
    ensures out.0.Skipped? <==> |page| == 0
    ensures out.1 == [] <==> |page| == 0
  {
    var lookup := FetchStories(store, page);
    (lookup, Present(page, lookup))
  }

  /** With unique ncodes in the store, the table has one row per page row, in page
      order, carrying the store's story for that ncode when there is one. */
  lemma BrowseJoinsPage(index: seq<Record>, q: Query, p: nat, store: Store)
    requires 1 <= p <= TotalPages(|ApplyFilters(index, q)|)
    requires UniqueKeys(store)
    ensures var v := Browse(index, q, p, store);
      && |v.table| == |v.page|
      && (forall i :: 0 <= i < |v.page| ==> v.table[i].rec == v.page[i])
      && (forall i, st :: 0 <= i < |v.page| ==>
            (v.table[i].story == Some(st) <==> (v.page[i].ncode, st) in store))
  {
    var v := Browse(index, q, p, store);
    assert v.table == Present(v.page, FetchStories(store, v.page));
    FetchJoinsPage(store, v.page);
  }

  /** Fetching and joining one page against a store with unique ncodes gives one
      row per page row, in page order, with the store's story when it has one. */
  lemma FetchJoinsPage(store: Store, page: seq<Record>)
    requires UniqueKeys(store)
    ensures var table := Present(page, FetchStories(store, page));
      && |table| == |page|
      && (forall i :: 0 <= i < |page| ==> table[i].rec == page[i])
      && (forall i, st :: 0 <= i < |page| ==>
            (table[i].story == Some(st) <==> (page[i].ncode, st) in store))
  {
    var lookup := FetchStories(store, page);
    if lookup.Queried? {
      var ids := Ncodes(page);
      var rows := lookup.rows;
      assert rows == SelectStories(store, ids);
      SubseqUniqueKeys(rows, store);
      JoinKeepsPage(page, rows);
      forall i, st | 0 <= i < |page|
        ensures (page[i].ncode, st) in rows <==> (page[i].ncode, st) in store
      {
        assert ids[i] == page[i].ncode;
        if (page[i].ncode, st) in rows {
          SubseqMembers(rows, store, (page[i].ncode, st));
        }
      }
    }
  }
}
