/** The filter engine: three optional predicates applied one after another,
    each active only when its input is set. */
module Filtering {
  import opened Wrappers
  import opened Seqs
  import opened Text
  import opened Records
  import opened Genres

  /** The sidebar inputs: minimum total points, selected genre, search text. */
  datatype Query = Query(minPoint: int, genre: string, keyword: string)

  /** `str.contains(k, na=False)` on one cell: a missing cell never matches, a
      present one matches when `k` occurs in it somewhere. */
  function CellContains(cell: Option<string>, k: string): (found: bool)
    ensures cell.None? ==> !found
    ensures cell.Some? ==> (found <==> exists i: nat :: OccursAt(cell.value, k, i))
  {
    cell.Some? && Contains(cell.value, k)
  }

  /** The score mask: active only for a positive minimum. */
  function ScoreOk(minPoint: int, r: Record): (ok: bool)
    ensures minPoint <= 0 ==> ok
    ensures minPoint > 0 ==> (ok <==> r.globalPoint >= minPoint)
  {
    minPoint > 0 ==> r.globalPoint >= minPoint
  }

  /** The genre mask: active unless the "all genres" entry is selected. */
  function GenreOk(genre: string, r: Record): (ok: bool)
    ensures genre == AllGenres ==> ok
    ensures genre != AllGenres ==> (ok <==> r.genre == genre)
  {
    genre != AllGenres ==> r.genre == genre
  }

  /** The keyword mask: active only for a non-empty search text, which must
      occur in the title or in the keyword cell. */
  function KeywordOk(keyword: string, r: Record): (ok: bool)
    ensures |keyword| == 0 ==> ok
    ensures |keyword| > 0 ==>
      (ok <==> ((r.title.Some? && exists i: nat :: OccursAt(r.title.value, keyword, i))
                || (r.keyword.Some? && exists i: nat :: OccursAt(r.keyword.value, keyword, i))))
  {
    |keyword| > 0 ==> CellContains(r.title, keyword) || CellContains(r.keyword, keyword)
  }

  /** Every active mask holds of `r` at once. */
  function Matches(q: Query, r: Record): (ok: bool)
    ensures q.minPoint <= 0 && q.genre == AllGenres && |q.keyword| == 0 ==> ok
    ensures ok <==> (&& (q.minPoint <= 0 || r.globalPoint >= q.minPoint)
                     && (q.genre == AllGenres || r.genre == q.genre)
                     && KeywordOk(q.keyword, r))
  {
    ScoreOk(q.minPoint, r) && GenreOk(q.genre, r) && KeywordOk(q.keyword, r)
  }

  /** The query as a single row predicate. */
  function MatchesQuery(q: Query): (p: Record -> bool) {
    (r: Record) => Matches(q, r)
  }

  function ScoreAtLeast(minPoint: int): (p: Record -> bool) {
    (r: Record) => r.globalPoint >= minPoint
  }

  function GenreIs(genre: string): (p: Record -> bool) {
    (r: Record) => r.genre == genre
  }

  function MentionsKeyword(keyword: string): (p: Record -> bool) {
    (r: Record) => CellContains(r.title, keyword) || CellContains(r.keyword, keyword)
  }

  /** The score stage: rows with at least `minPoint` total points. */
  function ByScore(s: seq<Record>, minPoint: int): (r: seq<Record>)
    ensures IsSubseq(r, s)
    ensures forall i :: 0 <= i < |r| ==> ScoreOk(minPoint, r[i])
    ensures forall x :: multiset(r)[x] == if ScoreOk(minPoint, x) then multiset(s)[x] else 0
  {
    if minPoint > 0 then Keep(s, ScoreAtLeast(minPoint)) else SubseqRefl(s); s
  }

  /** The genre stage: rows of exactly the selected genre. */
  function ByGenre(s: seq<Record>, genre: string): (r: seq<Record>)
    ensures IsSubseq(r, s)
    ensures forall i :: 0 <= i < |r| ==> GenreOk(genre, r[i])
    ensures forall x :: multiset(r)[x] == if GenreOk(genre, x) then multiset(s)[x] else 0
  {
    if genre != AllGenres then Keep(s, GenreIs(genre)) else SubseqRefl(s); s
  }

  /** The keyword stage: rows whose title or keyword cell contains the search text. */
  function ByKeyword(s: seq<Record>, keyword: string): (r: seq<Record>)
    ensures IsSubseq(r, s)
    ensures forall i :: 0 <= i < |r| ==> KeywordOk(keyword, r[i])
    ensures forall x :: multiset(r)[x] == if KeywordOk(keyword, x) then multiset(s)[x] else 0
  {
    if |keyword| > 0 then Keep(s, MentionsKeyword(keyword)) else SubseqRefl(s); s
  }

  /** The three stages in the order the page applies them. */
  function ApplyFilters(index: seq<Record>, q: Query): (r: seq<Record>)
    ensures IsSubseq(r, index)
    ensures forall i :: 0 <= i < |r| ==> Matches(q, r[i])
    ensures forall x :: multiset(r)[x] == if Matches(q, x) then multiset(index)[x] else 0
  {
    StagesAreConjunction(index, q);
    ByKeyword(ByGenre(ByScore(index, q.minPoint), q.genre), q.keyword)
  }

  /** The staged filter is one order-preserving pass with the conjunction of the
      active predicates. */
  lemma StagesAreConjunction(index: seq<Record>, q: Query)
    ensures ByKeyword(ByGenre(ByScore(index, q.minPoint), q.genre), q.keyword)
            == Keep(index, MatchesQuery(q))
  {
    var score: Record -> bool := (r: Record) => ScoreOk(q.minPoint, r);
    var genre: Record -> bool := (r: Record) => GenreOk(q.genre, r);
    var keyword: Record -> bool := (r: Record) => KeywordOk(q.keyword, r);
    var scoreGenre: Record -> bool := (r: Record) => ScoreOk(q.minPoint, r) && GenreOk(q.genre, r);
    var s1 := ByScore(index, q.minPoint);
    var s2 := ByGenre(s1, q.genre);
    ScoreStageIsSelection(index, q.minPoint);
    GenreStageIsSelection(s1, q.genre);
    KeywordStageIsSelection(s2, q.keyword);
    KeepKeep(index, score, genre, scoreGenre);
    KeepKeep(index, scoreGenre, keyword, MatchesQuery(q));
  }

  /** With no minimum, the "all genres" entry and an empty search text, every row is shown. */
  lemma InactiveFiltersKeepAll(index: seq<Record>, q: Query)
    requires q.minPoint <= 0 && q.genre == AllGenres && q.keyword == []
    ensures ApplyFilters(index, q) == index
  {
  }

  /** Each stage, active or not, selects the rows its predicate accepts. */
  lemma ScoreStageIsSelection(s: seq<Record>, minPoint: int)
    ensures ByScore(s, minPoint) == Keep(s, (r: Record) => ScoreOk(minPoint, r))
  {
    if minPoint > 0 {
      KeepExtensional(s, ScoreAtLeast(minPoint), (r: Record) => ScoreOk(minPoint, r));
    } else {
      KeepAll(s, (r: Record) => ScoreOk(minPoint, r));
    }
  }

  lemma GenreStageIsSelection(s: seq<Record>, genre: string)
    ensures ByGenre(s, genre) == Keep(s, (r: Record) => GenreOk(genre, r))
  {
    if genre != AllGenres {
      KeepExtensional(s, GenreIs(genre), (r: Record) => GenreOk(genre, r));
    } else {
      KeepAll(s, (r: Record) => GenreOk(genre, r));
    }
  }

  lemma KeywordStageIsSelection(s: seq<Record>, keyword: string)
    ensures ByKeyword(s, keyword) == Keep(s, (r: Record) => KeywordOk(keyword, r))
  {
    if |keyword| > 0 {
      KeepExtensional(s, MentionsKeyword(keyword), (r: Record) => KeywordOk(keyword, r));
    } else {
      KeepAll(s, (r: Record) => KeywordOk(keyword, r));
    }
  }

  /** The search is case-sensitive and looks at the title even when the keyword
      cell is missing: "Dragon" finds a novel titled "Dragon Quest" with no
      keywords, and "dragon" does not. */
  lemma KeywordSearchExample(r: Record)
    requires r.title == Some("Dragon Quest") && r.keyword == None
    ensures Matches(Query(0, AllGenres, "Dragon"), r)
    ensures !Matches(Query(0, AllGenres, "dragon"), r)
  {
    assert OccursAt(r.title.value, "Dragon", 0);
    assert CellContains(r.title, "Dragon");
    MissingFirstChar(r.title.value, "dragon");
    assert !CellContains(r.title, "dragon") && !CellContains(r.keyword, "dragon");
  }
}
