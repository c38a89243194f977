/** The genre selector's option list: the "all genres" entry first, then every
    genre present in the index once, in Python's `sorted` order. */
module Genres {
  import opened Records
  import opened Text

  /** The selector entry meaning "no genre restriction". */
  const AllGenres: string := "すべて"

  /** Strictly increasing in Python's string order, hence free of duplicates. */
  predicate StrictlySorted(s: seq<string>) {
    forall i, j :: 0 <= i < j < |s| ==> Less(s[i], s[j])
  }

  /** Add `g` to a strictly sorted list unless it is already there. */
  function InsertDistinct(s: seq<string>, g: string): (r: seq<string>)
    requires StrictlySorted(s)
    ensures StrictlySorted(r)
    ensures forall x :: x in r <==> x in s || x == g
    decreases |s|
  {
    if |s| == 0 then [g]
    else if g == s[0] then s
    else if Less(g, s[0]) then
      assert forall j :: 0 < j < |s| ==> Less(g, s[j]) by {
        forall j | 0 < j < |s| ensures Less(g, s[j]) {
          LessTransitive(g, s[0], s[j]);
        }
      }
      [g] + s
    else
      LessTotal(g, s[0]);
      var rest := InsertDistinct(s[1..], g);
      assert forall x :: x in rest ==> Less(s[0], x) by {
        forall x | x in rest ensures Less(s[0], x) {
          if x != g {
            var j :| 0 <= j < |s[1..]| && s[1..][j] == x;
            assert s[j + 1] == x;
          }
        }
      }
      [s[0]] + rest
  }

  /** The distinct values of `gs` in sorted order: `sorted(set(gs))`. */
  function SortedDistinct(gs: seq<string>): (r: seq<string>)
    ensures StrictlySorted(r)
    ensures forall x :: x in r <==> x in gs
    decreases |gs|
  {
    if |gs| == 0 then []
    else InsertDistinct(SortedDistinct(gs[..|gs| - 1]), gs[|gs| - 1])
  }

  /** The genre column of the index. */
  function GenreColumn(index: seq<Record>): (gs: seq<string>)
    ensures |gs| == |index|
    ensures forall i :: 0 <= i < |index| ==> gs[i] == index[i].genre
  {
    seq(|index|, i requires 0 <= i < |index| => index[i].genre)
  }

  /** The selector's options for a given index. */
  function GenreOptions(index: seq<Record>): (opts: seq<string>)
    ensures |opts| >= 1 && opts[0] == AllGenres
    ensures StrictlySorted(opts[1..])
    ensures forall g :: g in opts[1..] <==> exists i :: 0 <= i < |index| && index[i].genre == g
  {
    var gs := GenreColumn(index);
    var sorted := SortedDistinct(gs);
    assert forall g :: g in gs <==> exists i :: 0 <= i < |index| && index[i].genre == g;
    assert ([AllGenres] + sorted)[1..] == sorted;
    [AllGenres] + sorted
  }

  /** A strictly sorted list holds each value at most once. */
  lemma StrictlySortedDistinct(s: seq<string>, i: nat, j: nat)
    requires StrictlySorted(s) && i < j < |s|
    ensures s[i] != s[j]
  {
    if s[i] == s[j] {
      LessIrreflexive(s[i]);
    }
  }

  /** The first element of a strictly sorted list is below every other element. */
  lemma HeadIsLeast(s: seq<string>, x: string)
    requires StrictlySorted(s) && x in s
    ensures s[0] == x || Less(s[0], x)
  {
    var k :| 0 <= k < |s| && s[k] == x;
  }

  /** There is only one strictly sorted arrangement of a set of strings, so the
      genre list is exactly what `sorted` returns for the distinct genres. */
  lemma {:induction false} StrictlySortedUnique(a: seq<string>, b: seq<string>)
    requires StrictlySorted(a) && StrictlySorted(b)
    requires forall x :: x in a <==> x in b
    ensures a == b
    decreases |a|
  {
    if |a| == 0 {
      forall x ensures multiset(b)[x] == 0 {
        assert x !in a && x !in b;
      }
      assert multiset(b) == multiset{};
      assert |b| == |multiset(b)| == 0;
    } else {
      assert a[0] in b;
      assert b[0] in a;
      HeadIsLeast(a, b[0]);
      HeadIsLeast(b, a[0]);
      if a[0] != b[0] {
        LessAsymmetric(a[0], b[0]);
      }
      assert a[0] == b[0];
      forall x ensures x in a[1..] <==> x in b[1..] {
        if x in a[1..] {
          var k :| 0 <= k < |a[1..]| && a[1..][k] == x;
          StrictlySortedDistinct(a, 0, k + 1);
          assert x in b;
        }
        if x in b[1..] {
          var k :| 0 <= k < |b[1..]| && b[1..][k] == x;
          StrictlySortedDistinct(b, 0, k + 1);
          assert x in a;
        }
      }
      StrictlySortedUnique(a[1..], b[1..]);
      assert a == [a[0]] + a[1..] && b == [b[0]] + b[1..];
    }
  }
}
