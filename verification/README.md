# Novel index browser: a verified model of the query pipeline

The modelled system is a small browsing tool for the metadata of web novels
("Narou" novels). It loads a light index once: one row per novel with ncode,
title, genre, total points, length, last update and keywords, and without the
large synopsis column. It then filters and orders that index by what the user
sets in the sidebar, and cuts the result into pages of 50 rows. For the rows of
the page on screen only, it fetches the synopses from the store and left-joins
them on.

This project restates that pipeline as pure Dafny functions over immutable
records and proves what each stage guarantees.

| file | module | what it models |
|---|---|---|
| `wrappers.dfy` | `Wrappers` | `Option`, the stand-in for a missing cell |
| `seqs.dfy` | `Seqs` | order-preserving selection (`Keep`, the shape of `df[mask]` and of `WHERE`) and subsequences |
| `text.dfy` | `Text` | substring search (the keyword box) and Python's `str` ordering (used by `sorted`) |
| `records.dfy` | `Records` | raw and normalised index rows, load-time normalisation |
| `genres.dfy` | `Genres` | the genre selector's option list |
| `filtering.dfy` | `Filtering` | the three optional filters and their conjunction |
| `ranking.dfy` | `Ranking` | ordering by total points, highest first |
| `paging.dfy` | `Paging` | page count and page slices |
| `details.dfy` | `Details` | the per-page synopsis fetch and the left join |
| `browser.dfy` | `Browser` | one whole run of the page, from index to table |

Modelling choices:

- The store is a sequence of `(ncode, story)` pairs. The `ncode IN (...)` query
  becomes an order-preserving selection of the pairs whose ncode is one of the
  page's ncodes.
- The sidebar inputs are a `Query(minPoint, genre, keyword)`. The page number is
  a parameter. Its widget bounds (1 to the page count) are a precondition.
- `length` and `general_lastup` are carried through untouched as optional values.
- The keyword search is case-sensitive. "dragon" does not find "Dragon Quest"
  (`Filtering.KeywordSearchExample`).
- The "all genres" entry is the literal "すべて". An index genre with that same
  name would appear twice in the options, and choosing it would lift the genre
  filter. The model keeps this behaviour.
- The sort is pandas' default `sort_values`, which is not stable. So the model
  claims only that the result is a permutation of the filtered rows with
  non-increasing points. `Ranking.PointsDetermined` shows that the column of
  points is the same for every such ordering, so only the order of rows with
  equal points is open.
- The code raises no error for a page number out of range. The page widget
  bounds the page number, so the model takes that bound as a precondition.

## Model

| member | source | states |
|---|---|---|
| Records.NormalizeRow | main.py:29-30 | a missing score becomes 0 and a missing genre becomes "不明"; present values and every other cell are kept |
| Records.Normalize | main.py:29-30 | normalisation keeps the number and order of rows and normalises each row on its own |
| Records.NormalizeRoundTrip | main.py:29-30 | a table whose score and genre cells are all present comes out unchanged |
| Text.Contains | main.py:63-64 | the search reports true exactly when the search text occurs at some position of the cell |
| Text.MissingFirstChar | main.py:63-64 | text lacking the first character of the search text does not contain it |
| Text.Less | main.py:46 | Python's `<` on `str`: a proper prefix comes first; otherwise the first differing code point decides |
| Genres.InsertDistinct | main.py:46 | adding a genre to a strictly sorted list keeps it strictly sorted and adds exactly that genre |
| Genres.SortedDistinct | main.py:46 | the result is strictly increasing in Python's string order and holds exactly the values of the column |
| Genres.GenreOptions | main.py:46 | the options start with "すべて", followed by the index's distinct genres in strictly increasing order, each genre present in the index and no other |
| Genres.StrictlySortedUnique | main.py:46 | there is only one strictly sorted arrangement of a set of genres, so the list equals `sorted` of the distinct genres |
| Genres.StrictlySortedDistinct | main.py:46 | the sorted genre list holds no value twice |
| Seqs.Keep | main.py:55 | a mask selection keeps the order, keeps only accepted rows, and keeps every accepted row as often as it occurs |
| Filtering.CellContains | main.py:63-64 | `str.contains(k, na=False)` on one cell: a missing cell never matches, a present one matches exactly when `k` occurs in it |
| Filtering.ScoreOk | main.py:54-55 | defines the score mask: it accepts every row for a minimum of at most 0, and otherwise exactly the rows with at least that many points; `Filtering.ScoreStageIsSelection` proves the score stage selects by it |
| Filtering.GenreOk | main.py:57-58 | defines the genre mask: it accepts every row when "すべて" is chosen, and otherwise exactly the rows of the chosen genre; `Filtering.GenreStageIsSelection` proves the genre stage selects by it |
| Filtering.KeywordOk | main.py:60-64 | the keyword mask accepts every row for an empty search text, and otherwise exactly the rows whose present title or present keyword cell contains the text |
| Filtering.Matches | main.py:52-65 | defines the query's conjunction: a row passes the query when it passes the score, genre and keyword masks at once; with every filter inactive every row passes; `Filtering.StagesAreConjunction` proves the three staged selections equal one selection by this predicate |
| Filtering.ByScore | main.py:54-55 | with a positive minimum, exactly the rows with at least that many points remain, in order; otherwise all rows remain |
| Filtering.ByGenre | main.py:57-58 | unless "すべて" is chosen, exactly the rows of the chosen genre remain, in order |
| Filtering.ByKeyword | main.py:60-65 | with a non-empty search text, exactly the rows whose title or keyword cell contains it remain; a missing cell never matches |
| Filtering.ApplyFilters | main.py:52-65 | the result is a subsequence of the index, every kept row satisfies all active predicates at once, and every matching row is kept as often as it occurs |
| Filtering.StagesAreConjunction | main.py:52-65 | the three stages in sequence equal one order-preserving selection by the conjunction of the active predicates |
| Filtering.KeywordSearchExample | main.py:60-64 | a novel titled "Dragon Quest" with no keyword cell is found by "Dragon" through its title alone, and not found by "dragon" |
| Filtering.ScoreStageIsSelection | main.py:54-55 | the score stage, active or not, is the order-preserving selection of the rows the score mask accepts |
| Filtering.GenreStageIsSelection | main.py:57-58 | the genre stage, active or not, is the order-preserving selection of the rows the genre mask accepts |
| Filtering.KeywordStageIsSelection | main.py:60-65 | the keyword stage, active or not, is the order-preserving selection of the rows the keyword mask accepts |
| Filtering.InactiveFiltersKeepAll | main.py:54-60 | with minimum at most 0, genre "すべて" and an empty search text, the result is the whole index |
| Ranking.Insert | main.py:68 | inserting a row into a list ordered by points keeps it ordered and adds exactly that row |
| Ranking.SortByPoints | main.py:68 | the result is a permutation of its input with non-increasing points |
| Ranking.PointsDetermined | main.py:68 | any two orderings of the same rows by non-increasing points have the same points at every position |
| Paging.TotalPages | main.py:75-77 | the page count is the ceiling of rows/50 when there are rows and 1 when there are none, so always at least 1 |
| Paging.Page | main.py:81-86 | for a page between 1 and the page count, the slice holds the rows from (page-1)*50 on, at most 50 and truncated at the end, and is non-empty whenever there are rows |
| Paging.PagesFromAreSuffix | main.py:84-86 | the pages from p on, laid end to end, are exactly the rows from (p-1)*50 on |
| Paging.PagesReassemble | main.py:75-86 | reading pages 1 to the page count in order gives back the whole ordered result |
| Paging.RowOnPage | main.py:75-86 | the row at position k is on page k/50+1, at place k mod 50 |
| Details.SelectStories | main.py:99-106 | the fetched rows come from the store in store order; each store row whose ncode is one of the page's is fetched exactly as often as the store holds it, and no other row is fetched |
| Details.FetchStories | main.py:89-107 | an empty page sends no query; otherwise the query uses exactly the page's ncodes and returns, in store order, each store row for one of them as often as the store holds it and nothing else |
| Details.StoriesOf | main.py:110 | the stories under a key are the fetched rows with that ncode, each story counted as often as its row occurs |
| Details.StoriesEmpty | main.py:110 | a key files no story exactly when no fetched row carries that ncode |
| Details.JoinOne | main.py:110 | (the predicate `Details.JoinedFor`) a page row joins to one row per fetched row with its ncode, carrying that row's story and counting each story as often as the fetched rows do; it joins to a single story-less row exactly when no fetched row has its ncode |
| Details.LeftJoin | main.py:110 | the table has at least as many rows as the page and is empty only for an empty page |
| Details.LeftJoinRows | main.py:110 | the left join loses no page row and invents none; a joined row's story is a fetched story for its ncode, and a row without a story has no fetched row with its ncode |
| Details.Present | main.py:89-112 | defines the table shown: no query means an empty table; after a query it is the left join of the page onto the fetched rows, which loses no page row, invents none, and gives each row only a fetched story for its ncode (from `Details.LeftJoinRows`) |
| Details.JoinKeepsPage | main.py:110 | with unique ncodes the join keeps every page row once, in order, and attaches a story exactly when a fetched row holds one for that ncode |
| Details.JoinOneUnique | main.py:110 | with unique ncodes a page row joins to exactly one row, carrying the story of the fetched row with its ncode when there is one |
| Details.SubseqUniqueKeys | main.py:99-106 | rows fetched from a store with unique ncodes have unique ncodes |
| Details.AtMostOneStory | main.py:110 | with unique ncodes a key matches at most one fetched row |
| Browser.Ranked | main.py:52-68 | the ranked result is ordered by points and holds exactly the matching rows of the index, each as often as it occurs there; it is empty exactly when nothing matches |
| Browser.RankedMembers | main.py:52-68 | every row of the ranked result matches the query and comes from the index |
| Browser.ShownPage | main.py:81-86 | the shown rows are page p of the ranked result, that is its rows (p-1)*50 up to p*50 or its end; they number at most 50, each matches the query and comes from the index, they are ordered by points, and they are empty exactly when the result is |
| Browser.PageOrdered | main.py:68-86 | a page of a list ordered by points is ordered by points |
| Browser.PageMembers | main.py:52-86 | every row of a page of the ranked result matches the query and comes from the index |
| Browser.PagePointsDetermined | main.py:68-86 | whichever way the unstable sort orders equal points, the points at each place of page p are those at the same overall position of any other ordering of the matching rows by non-increasing points |
| Browser.ShownPageLength | main.py:75-86 | page p holds the hits left after the p-1 earlier pages, at most 50; there are no hits exactly when no index row matches |
| Browser.Browse | main.py:46-117 | the hit count is the number of filtered rows and the page count follows from it; the fetch is skipped and the "no results" message is shown exactly when no index row matches the query; the shown page is page p of the ranked result, with min(50, hits-(p-1)*50) rows, all matching and from the index, in points order |
| Browser.BrowseJoinsPage | main.py:89-110 | with unique ncodes in the store, the table has one row per shown row, in order, with the store's story for that ncode when it has one |
| Browser.FetchJoinsPage | main.py:89-110 | fetching and joining one page against a store with unique ncodes gives one row per page row, in order, with the store's story for that ncode when it has one |
| Browser.ShowsNoResults | main.py:117-136 | defines when the warning replaces the table: exactly when the joined table is empty; `Browser.Browse` then shows this happens exactly when no index row matches |

## Left out

- Loading the index from Parquet files through DuckDB (main.py:17-26) is foreign I/O. The model starts from the raw rows it would return.
- The synopsis query itself (main.py:94-107) is foreign I/O. It is modelled as a selection from an abstract store sequence.
- A failing load or query is not modelled. At main.py:34-39 a load failure stops the page. A failing synopsis query has no handler in the code.
- The one-hour index cache (main.py:15) keeps framework-managed, clock-driven state. It holds no logic of this file.
- The Streamlit page is not modelled: widgets, layout, title, column labels, spinner and warning (main.py:6, 44-49, 73, 79-81, 114-136). Only two parts remain: the page number's bounds, as a precondition, and the no-results branch, as `Browser.ShowsNoResults`.
- Text.Contains: pandas `str.contains` reads the search text as a regular expression by default. The model treats it as a plain, case-sensitive substring, so it misses regex behaviour (special characters, a pattern that fails to compile).
- Ranking.SortByPoints: the source's sort is unstable, and the order of equal-point rows depends on the pandas algorithm. The model picks one such order and proves only the permutation and ordering. `Ranking.PointsDetermined` shows that this choice cannot change the points shown at any position.
- Records.NormalizeRow: `astype(int)` truncates a fractional score. Scores are modelled as whole numbers, so that truncation is not modelled.
- Paging.TotalPages: the source computes `math.ceil(total_rows / 50)` in floating point. The model uses exact integer ceiling. The two agree for every row count below 2^53.
- Details.SelectStories: the SQL query has no ORDER BY, so its row order is unspecified. The model returns store order. `Details.JoinKeepsPage` and `Browser.BrowseJoinsPage` do not depend on that order.
- Details.LeftJoin: its own contract gives only sizes. What the joined rows hold is stated by `Details.LeftJoinRows`, and one row per page row in page order by `Details.JoinKeepsPage` under unique ncodes. The order of the joined rows for a store with repeated ncodes is not stated.
- Details.JoinOne: a store row with a missing story is not modelled. Every fetched row carries a story string.
- Row-level copies and dtypes (`.copy()`, the dtypes of `length` and `general_lastup`) carry no logic here.
