/** The second tier: synopses fetched from the store for the rows of one page
    only, and joined onto those rows. */
module Details {
  import opened Wrappers
  import opened Seqs
  import opened Records

  /** The store's synopsis column, as (ncode, story) rows in store order. */
  type Store = seq<(string, string)>

  /** A page row with its synopsis, if the store had one for its ncode. */
  datatype Row = Row(rec: Record, story: Option<string>)

  /** What the fetch did: nothing for an empty page, or one `ncode IN (ids)` query. */
  datatype Lookup = Skipped | Queried(ids: seq<string>, rows: seq<(string, string)>)

  /** The ncode column of a page, in page order. */
  function Ncodes(page: seq<Record>): (ids: seq<string>)
    ensures |ids| == |page|
    ensures forall i :: 0 <= i < |page| ==> ids[i] == page[i].ncode
  {
    seq(|page|, i requires 0 <= i < |page| => page[i].ncode)
  }

  /** The rows of `store` whose ncode is one of `ids`: each such store row is
      fetched as often as the store holds it, and no other row is. */
  function SelectStories(store: Store, ids: seq<string>): (rows: seq<(string, string)>)
    ensures IsSubseq(rows, store)
    ensures forall i :: 0 <= i < |rows| ==> rows[i].0 in ids
    ensures forall row :: row in store && row.0 in ids ==> row in rows
    ensures forall row :: multiset(rows)[row] == if row.0 in ids then multiset(store)[row] else 0
  {
    var inIds: ((string, string)) -> bool := (row: (string, string)) => row.0 in ids;
    var rows := Keep(store, inIds);
    assert forall row :: row in store && row.0 in ids ==> row in multiset(rows);
    rows
  }

  /** Fetch the synopses of one page; an empty page sends no query. */
  function FetchStories(store: Store, page: seq<Record>): (l: Lookup)
    ensures l.Skipped? <==> |page| == 0
    ensures l.Queried? ==> l.ids == Ncodes(page)
    ensures l.Queried? ==> IsSubseq(l.rows, store)
    ensures l.Queried? ==> forall i :: 0 <= i < |l.rows| ==> exists j :: 0 <= j < |page| && page[j].ncode == l.rows[i].0
    ensures l.Queried? ==> forall row :: row in store && (exists j :: 0 <= j < |page| && page[j].ncode == row.0) ==> row in l.rows
    ensures l.Queried? ==> forall row :: multiset(l.rows)[row] == if row.0 in l.ids then multiset(store)[row] else 0
  {
    if |page| == 0 then Skipped
    else
      var ids := Ncodes(page);
      var rows := SelectStories(store, ids);
      assert forall x :: x in ids <==> exists j :: 0 <= j < |page| && page[j].ncode == x;
      Queried(ids, rows)
  }

  /** The stories in `rows` filed under `ncode`, in row order, each as often as
      its row occurs. */
  function StoriesOf(rows: seq<(string, string)>, ncode: string): (stories: seq<string>)
    ensures forall st :: multiset(stories)[st] == multiset(rows)[(ncode, st)]
    ensures forall st :: st in stories <==> (ncode, st) in rows
    decreases |rows|
  {
    if |rows| == 0 then []
    else
      var later := StoriesOf(rows[1..], ncode);
      assert rows == [rows[0]] + rows[1..];
      assert multiset(rows) == multiset{rows[0]} + multiset(rows[1..]);
      if rows[0].0 == ncode then
        assert rows[0] == (ncode, rows[0].1);
        [rows[0].1] + later
      else later
  }

  /** A key files no story exactly when no fetched row carries it. */
  lemma {:induction false} StoriesEmpty(rows: seq<(string, string)>, ncode: string)
    ensures |StoriesOf(rows, ncode)| == 0 <==> forall k :: 0 <= k < |rows| ==> rows[k].0 != ncode
    decreases |rows|
  {
    if |rows| > 0 {
      StoriesEmpty(rows[1..], ncode);
      assert forall k :: 0 < k < |rows| ==> rows[k] == rows[1..][k - 1];
    }
  }

  /** The stories a joined table carries, in table order, skipping rows without one. */
  function StoriesIn(table: seq<Row>): (stories: seq<string>)
    ensures |stories| <= |table|
    decreases |table|
  {
    if |table| == 0 then []
    else match table[0].story
      case Some(st) => [st] + StoriesIn(table[1..])
      case None => StoriesIn(table[1..])
  }

  /** One joined row per story, in order, all for the page row `rec`. */
  function Attach(rec: Record, stories: seq<string>): (joined: seq<Row>)
    ensures |joined| == |stories|
    ensures forall i :: 0 <= i < |joined| ==> joined[i] == Row(rec, Some(stories[i]))
  {
    seq(|stories|, i requires 0 <= i < |stories| => Row(rec, Some(stories[i])))
  }

  /** The attached rows carry exactly the given stories, in order. */
  lemma {:induction false} AttachStories(rec: Record, stories: seq<string>)
    ensures StoriesIn(Attach(rec, stories)) == stories
    decreases |stories|
  {
    if |stories| > 0 {
      AttachStories(rec, stories[1..]);
      assert Attach(rec, stories)[1..] == Attach(rec, stories[1..]);
    }
  }

  /** What `pd.merge(..., how="left")` yields for one page row `rec`: at least
      one row, all for `rec`; a story appears exactly when a fetched row holds it
      for that ncode; a story-less row appears exactly when no fetched row has
      that ncode, and then alone; each story appears as often as fetched. */
  ghost predicate JoinedFor(rec: Record, rows: seq<(string, string)>, joined: seq<Row>) {
    && |joined| >= 1
    && (forall i :: 0 <= i < |joined| ==> joined[i].rec == rec)
    && (forall st :: (exists i :: 0 <= i < |joined| && joined[i].story == Some(st)) <==> (rec.ncode, st) in rows)
    && ((exists i :: 0 <= i < |joined| && joined[i].story.None?)
        <==> forall k :: 0 <= k < |rows| ==> rows[k].0 != rec.ncode)
    && (forall i :: 0 <= i < |joined| && joined[i].story.None? ==> |joined| == 1)
    && (forall st :: multiset(StoriesIn(joined))[st] == multiset(rows)[(rec.ncode, st)])
  }

  /** The joined rows for one page row: one per fetched row with that ncode,
      carrying its story, or a single row without a story when there is none. */
  function JoinOne(rec: Record, rows: seq<(string, string)>): (joined: seq<Row>)
    ensures JoinedFor(rec, rows, joined)
  {
    var stories := StoriesOf(rows, rec.ncode);
    if |stories| == 0 then
      var joined := [Row(rec, None)];
      LoneRow(rec, rows, joined);
      joined
    else
      var joined := Attach(rec, stories);
      Attached(rec, rows, joined);
      joined
  }

  /** Without a fetched row for its ncode a page row joins to one story-less row. */
  lemma LoneRow(rec: Record, rows: seq<(string, string)>, joined: seq<Row>)
    requires |StoriesOf(rows, rec.ncode)| == 0 && joined == [Row(rec, None)]
    ensures JoinedFor(rec, rows, joined)
  {
    StoriesEmpty(rows, rec.ncode);
    assert joined[0].story.None?;
    assert StoriesIn(joined) == [];
    assert forall st :: (rec.ncode, st) !in multiset(rows);
  }

  /** With fetched rows for its ncode a page row joins to one row per story. */
  lemma Attached(rec: Record, rows: seq<(string, string)>, joined: seq<Row>)
    requires |StoriesOf(rows, rec.ncode)| > 0 && joined == Attach(rec, StoriesOf(rows, rec.ncode))
    ensures JoinedFor(rec, rows, joined)
  {
    var stories := StoriesOf(rows, rec.ncode);
    StoriesEmpty(rows, rec.ncode);
    AttachStories(rec, stories);
    AttachFinds(rec, stories);
    assert forall i :: 0 <= i < |joined| ==> joined[i].story.Some?;
    assert !forall k :: 0 <= k < |rows| ==> rows[k].0 != rec.ncode;
  }

  /** A story is attached exactly when it is in the story list. */
  lemma AttachFinds(rec: Record, stories: seq<string>)
    ensures forall st :: (exists i :: 0 <= i < |Attach(rec, stories)| && Attach(rec, stories)[i].story == Some(st))
                         <==> st in stories
  {
    var joined := Attach(rec, stories);
    forall st ensures (exists i :: 0 <= i < |joined| && joined[i].story == Some(st)) <==> st in stories {
      if st in stories {
        var i :| 0 <= i < |stories| && stories[i] == st;
        assert joined[i].story == Some(st);
      }
    }
  }

  /** Every page row has at least one joined row. */
  predicate CoversPage(table: seq<Row>, page: seq<Record>) {
    forall i :: 0 <= i < |page| ==> exists j :: 0 <= j < |table| && table[j].rec == page[i]
  }

  /** Every joined row belongs to a page row. */
  predicate FromPage(table: seq<Row>, page: seq<Record>) {
    forall j :: 0 <= j < |table| ==> table[j].rec in page
  }

  /** A joined row's story is a fetched story for its ncode, and a row without
      a story has no fetched row with its ncode. */
  predicate StoryFits(row: Row, rows: seq<(string, string)>) {
    match row.story
    case Some(st) => (row.rec.ncode, st) in rows
    case None => forall k :: 0 <= k < |rows| ==> rows[k].0 != row.rec.ncode
  }

  predicate StoriesFit(table: seq<Row>, rows: seq<(string, string)>) {
    forall j :: 0 <= j < |table| ==> StoryFits(table[j], rows)
  }

  /** A left join of the page onto the fetched rows on ncode, in page order:
      each page row's joined rows, one page row after another. */
  function LeftJoin(page: seq<Record>, rows: seq<(string, string)>): (table: seq<Row>)
    ensures |table| >= |page|
    ensures |table| == 0 <==> |page| == 0
    decreases |page|
  {
    if |page| == 0 then [] else JoinOne(page[0], rows) + LeftJoin(page[1..], rows)
  }

  /** The left join loses no page row, invents none, and gives each joined row
      a fetched story for its ncode, or none exactly when nothing was fetched
      for that ncode. */
  lemma {:induction false} LeftJoinRows(page: seq<Record>, rows: seq<(string, string)>)
    ensures CoversPage(LeftJoin(page, rows), page)
    ensures FromPage(LeftJoin(page, rows), page)
    ensures StoriesFit(LeftJoin(page, rows), rows)
    decreases |page|
  {
    if |page| > 0 {
      LeftJoinRows(page[1..], rows);
      var first, rest := JoinOne(page[0], rows), LeftJoin(page[1..], rows);
      assert LeftJoin(page, rows) == first + rest;
      CoversStep(page, first, rest);
      FromPageStep(page, first, rest);
      StoriesFitStep(rows, page[0], first, rest);
    }
  }

  lemma CoversStep(page: seq<Record>, first: seq<Row>, rest: seq<Row>)
    requires |page| > 0 && |first| > 0 && first[0].rec == page[0]
    requires CoversPage(rest, page[1..])
    ensures CoversPage(first + rest, page)
  {
    var table := first + rest;
    forall i | 0 <= i < |page| ensures exists j :: 0 <= j < |table| && table[j].rec == page[i] {
      if i == 0 {
        assert table[0] == first[0];
      } else {
        assert page[i] == page[1..][i - 1];
        var j :| 0 <= j < |rest| && rest[j].rec == page[1..][i - 1];
        assert table[|first| + j] == rest[j];
      }
    }
  }

  lemma FromPageStep(page: seq<Record>, first: seq<Row>, rest: seq<Row>)
    requires |page| > 0 && forall j :: 0 <= j < |first| ==> first[j].rec == page[0]
    requires FromPage(rest, page[1..])
    ensures FromPage(first + rest, page)
  {
    var table := first + rest;
    forall j | 0 <= j < |table| ensures table[j].rec in page {
      if j < |first| {
        assert table[j] == first[j];
      } else {
        assert table[j] == rest[j - |first|];
        var m :| 0 <= m < |page[1..]| && page[1..][m] == table[j].rec;
        assert page[m + 1] == table[j].rec;
      }
    }
  }

  lemma StoriesFitStep(rows: seq<(string, string)>, rec: Record, first: seq<Row>, rest: seq<Row>)
    requires first == JoinOne(rec, rows)
    requires StoriesFit(rest, rows)
    ensures StoriesFit(first + rest, rows)
  {
    var table := first + rest;
    forall j | 0 <= j < |table| ensures StoryFits(table[j], rows) {
      if j < |first| {
        assert table[j] == first[j];
        if first[j].story.Some? {
          assert first[j].story == Some(first[j].story.value);
        } else {
          assert exists i :: 0 <= i < |first| && first[i].story.None?;
        }
      } else {
        assert table[j] == rest[j - |first|];
      }
    }
  }

  /** The table the page shows: empty when nothing was fetched, otherwise the
      left join of the page onto the fetched rows. */
  function Present(page: seq<Record>, l: Lookup): (table: seq<Row>)
    ensures l.Skipped? ==> table == []
    ensures l.Queried? ==> table == LeftJoin(page, l.rows)
    ensures l.Queried? ==> |table| >= |page| && (|table| == 0 <==> |page| == 0)
    ensures l.Queried? ==> CoversPage(table, page) && FromPage(table, page) && StoriesFit(table, l.rows)
  {
    match l
    case Skipped => []
    case Queried(_, rows) => LeftJoinRows(page, rows); LeftJoin(page, rows)
  }

  /** No two rows share an ncode (the ncode is the store's key). */
  predicate UniqueKeys(rows: seq<(string, string)>) {
    forall i, j :: 0 <= i < j < |rows| ==> rows[i].0 != rows[j].0
  }

  /** Rows taken from a store with unique ncodes have unique ncodes. */
  lemma {:induction false} SubseqUniqueKeys(a: seq<(string, string)>, b: seq<(string, string)>)
    requires IsSubseq(a, b) && UniqueKeys(b)
    ensures UniqueKeys(a)
    decreases |b|
  {
    if |a| > 0 {
      if a[0] == b[0] && IsSubseq(a[1..], b[1..]) {
        SubseqUniqueKeys(a[1..], b[1..]);
        forall k | 0 < k < |a| ensures a[0].0 != a[k].0 {
          assert a[k] == a[1..][k - 1];
          SubseqMembers(a[1..], b[1..], a[k]);
          var m :| 0 <= m < |b[1..]| && b[1..][m] == a[k];
          assert b[m + 1] == a[k];
        }
        forall i, j | 0 <= i < j < |a| ensures a[i].0 != a[j].0 {
          if i > 0 {
            assert a[i] == a[1..][i - 1] && a[j] == a[1..][j - 1];
          }
        }
      } else {
        SubseqUniqueKeys(a, b[1..]);
      }
    }
  }

  /** Under unique ncodes a key files at most one story. */
  lemma {:induction false} AtMostOneStory(rows: seq<(string, string)>, ncode: string)
    requires UniqueKeys(rows)
    ensures |StoriesOf(rows, ncode)| <= 1
    decreases |rows|
  {
    if |rows| > 0 {
      if rows[0].0 == ncode {
        assert forall k :: 0 <= k < |rows[1..]| ==> rows[1..][k] == rows[k + 1];
      } else {
        AtMostOneStory(rows[1..], ncode);
      }
    }
  }

  /** Under unique ncodes a page row joins to exactly one row. */
  lemma JoinOneUnique(rec: Record, rows: seq<(string, string)>)
    requires UniqueKeys(rows)
    ensures |JoinOne(rec, rows)| == 1
    ensures forall st :: JoinOne(rec, rows)[0].story == Some(st) <==> (rec.ncode, st) in rows
  {
    AtMostOneStory(rows, rec.ncode);
    var first := JoinOne(rec, rows);
    forall st ensures first[0].story == Some(st) <==> (rec.ncode, st) in rows {
      assert first[0].story == Some(st) <==> exists i :: 0 <= i < |first| && first[i].story == Some(st);
    }
  }

  /** Under unique ncodes the first page row joins to exactly the table's first
      row, ahead of the join of the remaining page rows. */
  lemma JoinHead(page: seq<Record>, rows: seq<(string, string)>)
    requires UniqueKeys(rows) && |page| > 0
    ensures var table := LeftJoin(page, rows);
      && table == [table[0]] + LeftJoin(page[1..], rows)
      && table[0].rec == page[0]
      && forall st :: table[0].story == Some(st) <==> (page[0].ncode, st) in rows
  {
    JoinOneUnique(page[0], rows);
    var first := JoinOne(page[0], rows);
    assert LeftJoin(page, rows) == first + LeftJoin(page[1..], rows);
    assert first == [first[0]];
  }

  /** With unique ncodes the join keeps every page row once, in page order, with
      its story attached exactly when the fetched rows hold one for it. */
  lemma {:induction false} JoinKeepsPage(page: seq<Record>, rows: seq<(string, string)>)
    requires UniqueKeys(rows)
    ensures |LeftJoin(page, rows)| == |page|
    ensures forall i :: 0 <= i < |page| ==> LeftJoin(page, rows)[i].rec == page[i]
    ensures forall i, st :: 0 <= i < |page| ==>
      (LeftJoin(page, rows)[i].story == Some(st) <==> (page[i].ncode, st) in rows)
    decreases |page|
  {
    if |page| > 0 {
      JoinKeepsPage(page[1..], rows);
      var rest := LeftJoin(page[1..], rows);
      var table := LeftJoin(page, rows);
      JoinHead(page, rows);
      forall i, st | 0 < i < |page|
        ensures table[i].rec == page[i]
        ensures table[i].story == Some(st) <==> (page[i].ncode, st) in rows
      {
        assert table[i] == rest[i - 1] && page[i] == page[1..][i - 1];
      }
    }
  }
}
