/** Ordering of the filtered rows by total points, highest first. */
module Ranking {
  import opened Records

  /** Total points never increase from one row to a later one. */
  predicate NonIncreasing(s: seq<Record>) {
    forall i, j :: 0 <= i < j < |s| ==> s[i].globalPoint >= s[j].globalPoint
  }

  /** Put `x` into a list already ordered by points, before the first row it does not fall below. */
  function Insert(x: Record, s: seq<Record>): (r: seq<Record>)
    requires NonIncreasing(s)
    ensures NonIncreasing(r)
    ensures multiset(r) == multiset(s) + multiset{x}
    decreases |s|
  {
    if |s| == 0 || x.globalPoint >= s[0].globalPoint then [x] + s
    else
      var rest := Insert(x, s[1..]);
      BelowHead(x, s, rest);
      [s[0]] + rest
  }

  /** The rows of `s[1..]` and a row `x` below `s[0]`, in any order, all sit below `s[0]`. */
  lemma BelowHead(x: Record, s: seq<Record>, rest: seq<Record>)
    requires NonIncreasing(s) && |s| > 0 && x.globalPoint < s[0].globalPoint
    requires multiset(rest) == multiset(s[1..]) + multiset{x}
    ensures multiset([s[0]] + rest) == multiset(s) + multiset{x}
    ensures forall j :: 0 <= j < |rest| ==> rest[j].globalPoint <= s[0].globalPoint
  {
    assert s == [s[0]] + s[1..];
    forall j | 0 <= j < |rest| ensures rest[j].globalPoint <= s[0].globalPoint {
      assert rest[j] in multiset(rest);
      if rest[j] != x {
        assert rest[j] in multiset(s[1..]);
        var k :| 0 <= k < |s[1..]| && s[1..][k] == rest[j];
        assert s[k + 1] == rest[j];
      }
    }
  }

  /** The rows of `s` ordered by total points, highest first. */
  function SortByPoints(s: seq<Record>): (r: seq<Record>)
    ensures NonIncreasing(r)
    ensures multiset(r) == multiset(s)
    decreases |s|
  {
    if |s| == 0 then []
    else
      assert s == [s[0]] + s[1..];
      Insert(s[0], SortByPoints(s[1..]))
  }

  /** Removing one row keeps a list ordered. */
  lemma RemoveKeepsOrder(s: seq<Record>, j: nat)
    requires NonIncreasing(s) && j < |s|
    ensures NonIncreasing(s[..j] + s[j + 1..])
  {
    var t := s[..j] + s[j + 1..];
    assert forall k :: 0 <= k < |t| ==> t[k] == if k < j then s[k] else s[k + 1];
  }

  /** Removing the row at `j` removes exactly one copy of it. */
  lemma RemoveFromMultiset(s: seq<Record>, j: nat)
    requires j < |s|
    ensures multiset(s[..j] + s[j + 1..]) == multiset(s) - multiset{s[j]}
  {
    assert s == s[..j] + [s[j]] + s[j + 1..];
    assert multiset(s) == multiset(s[..j]) + multiset{s[j]} + multiset(s[j + 1..]);
  }

  /** Two orderings of the same rows start with the same number of points. */
  lemma SameTopPoints(a: seq<Record>, b: seq<Record>)
    requires NonIncreasing(a) && NonIncreasing(b)
    requires multiset(a) == multiset(b) && |a| > 0
    ensures |b| > 0 && a[0].globalPoint == b[0].globalPoint
  {
    assert a[0] in multiset(b);
    assert |b| > 0 && b[0] in multiset(a);
    var i :| 0 <= i < |a| && a[i] == b[0];
    var j :| 0 <= j < |b| && b[j] == a[0];
  }

  /** Taking out of `b` a row `b[j]` whose points equal the first row's shifts
      the points of the rows before it by one place and leaves them unchanged. */
  lemma RemoveTopShift(b: seq<Record>, j: nat, rest: seq<Record>)
    requires NonIncreasing(b) && j < |b| && b[j].globalPoint == b[0].globalPoint
    requires rest == b[..j] + b[j + 1..]
    ensures |rest| == |b| - 1
    ensures forall k :: 0 <= k < |rest| ==> rest[k].globalPoint == b[k + 1].globalPoint
  {
    forall k | 0 <= k < |rest| ensures rest[k].globalPoint == b[k + 1].globalPoint {
      if k < j {
        assert rest[k] == b[k];
      } else {
        assert rest[k] == b[k + 1];
      }
    }
  }

  /** The induction step of `PointsDetermined`: equal first points and equal
      points after removing one top row from each side give equal points. */
  lemma PointsStep(a: seq<Record>, b: seq<Record>, j: nat, rest: seq<Record>)
    requires |a| == |b| > 0 && a[0].globalPoint == b[0].globalPoint
    requires NonIncreasing(b) && j < |b| && b[j].globalPoint == b[0].globalPoint
    requires rest == b[..j] + b[j + 1..] && |rest| == |a| - 1
    requires forall k :: 0 <= k < |rest| ==> a[1..][k].globalPoint == rest[k].globalPoint
    ensures forall k :: 0 <= k < |a| ==> a[k].globalPoint == b[k].globalPoint
  {
    RemoveTopShift(b, j, rest);
    forall k | 0 < k < |a| ensures a[k].globalPoint == b[k].globalPoint {
      assert a[k] == a[1..][k - 1];
    }
  }

  /** The sort is not stable and ties may come out in any order, but the column of
      points it produces is fully determined: any two orderings of the same rows
      by non-increasing points agree position by position on the points. */
  lemma {:induction false} PointsDetermined(a: seq<Record>, b: seq<Record>)
    requires NonIncreasing(a) && NonIncreasing(b)
    requires multiset(a) == multiset(b)
    ensures |a| == |b|
    ensures forall k :: 0 <= k < |a| ==> a[k].globalPoint == b[k].globalPoint
    decreases |a|
  {
    assert |a| == |multiset(a)| == |multiset(b)| == |b|;
    if |a| > 0 {
      SameTopPoints(a, b);
      assert a[0] in multiset(b);
      var j :| 0 <= j < |b| && b[j] == a[0];
      var rest := b[..j] + b[j + 1..];
      RemoveFromMultiset(b, j);
      assert a == [a[0]] + a[1..];
      assert multiset(a[1..]) == multiset(a) - multiset{a[0]};
      RemoveKeepsOrder(b, j);
      PointsDetermined(a[1..], rest);
      PointsStep(a, b, j, rest);
    }
  }
}
