/** Text operations the pipeline relies on: substring search (the keyword box)
    and Python's ordering of strings (the `sorted` call on genre names). */
module Text {

  /** `k` occurs in `s` at position `i`. */
  predicate OccursAt(s: string, k: string, i: nat) {
    i + |k| <= |s| && s[i..i + |k|] == k
  }

  predicate IsPrefix(k: string, s: string) {
    |k| <= |s| && s[..|k|] == k
  }

  /** Substring search, trying each start position from the left. */
  function Contains(s: string, k: string): (b: bool)
    ensures b <==> exists i: nat :: OccursAt(s, k, i)
    decreases |s|
  {
    if IsPrefix(k, s) then
      assert OccursAt(s, k, 0);
      true
    else if |s| == 0 then
      assert forall i: nat :: !OccursAt(s, k, i);
      false
    else
      ShiftOccurs(s, k);
      Contains(s[1..], k)
  }

  /** An occurrence past the first position of `s` is an occurrence in `s[1..]`, and back. */
  lemma ShiftOccurs(s: string, k: string)
    requires |s| > 0 && !IsPrefix(k, s)
    ensures (exists i: nat :: OccursAt(s, k, i)) <==> (exists i: nat :: OccursAt(s[1..], k, i))
  {
    forall i: nat ensures OccursAt(s, k, i + 1) <==> OccursAt(s[1..], k, i) {
      if i + 1 + |k| <= |s| {
        var here, there := s[i + 1..i + 1 + |k|], s[1..][i..i + |k|];
        assert forall j :: 0 <= j < |k| ==> here[j] == there[j];
        assert here == there;
      }
    }
    if i: nat :| OccursAt(s, k, i) {
      assert i > 0 && OccursAt(s[1..], k, i - 1);
    }
    if i: nat :| OccursAt(s[1..], k, i) {
      assert OccursAt(s, k, i + 1);
    }
  }

  /** Text that lacks the first character of `k` does not contain `k`. */
  lemma MissingFirstChar(s: string, k: string)
    requires |k| > 0 && forall j :: 0 <= j < |s| ==> s[j] != k[0]
    ensures !Contains(s, k)
  {
    forall i: nat | i + |k| <= |s| ensures !OccursAt(s, k, i) {
      assert s[i..i + |k|][0] == s[i];
    }
  }

  /** `a` and `b` agree before position `i` and `a` has the smaller code point there. */
  predicate FirstDifferenceBelow(a: string, b: string, i: nat) {
    i < |a| && i < |b| && a[..i] == b[..i] && a[i] < b[i]
  }

  /** Python's `<` on `str`: code point by code point, a proper prefix first. */
  function Less(a: string, b: string): (lt: bool)
    ensures lt <==> (|a| < |b| && IsPrefix(a, b)) || exists i: nat :: FirstDifferenceBelow(a, b, i)
    decreases |a|
  {
    if |a| == 0 then
      assert IsPrefix(a, b);
      |b| > 0
    else if |b| == 0 then false
    else if a[0] != b[0] then
      forall i: nat | 0 < i < |a| && i < |b| ensures a[..i][0] == a[0] && b[..i][0] == b[0] {
      }
      assert a[0] < b[0] ==> FirstDifferenceBelow(a, b, 0);
      assert |a| <= |b| ==> b[..|a|][0] == b[0];
      a[0] < b[0]
    else
      ShiftLess(a, b);
      Less(a[1..], b[1..])
  }

  /** Dropping a common first character shifts prefixes and first differences by one. */
  lemma ShiftLess(a: string, b: string)
    requires |a| > 0 && |b| > 0 && a[0] == b[0]
    ensures IsPrefix(a, b) <==> IsPrefix(a[1..], b[1..])
    ensures (exists i: nat :: FirstDifferenceBelow(a, b, i))
        <==> (exists i: nat :: FirstDifferenceBelow(a[1..], b[1..], i))
  {
    assert a == [a[0]] + a[1..] && b == [b[0]] + b[1..];
    if IsPrefix(a[1..], b[1..]) {
      assert b[..|a|] == [b[0]] + b[1..][..|a| - 1];
    }
    if IsPrefix(a, b) {
      assert b[1..][..|a| - 1] == b[..|a|][1..];
    }
    forall i: nat ensures FirstDifferenceBelow(a, b, i + 1) <==> FirstDifferenceBelow(a[1..], b[1..], i) {
      if i + 1 < |a| && i + 1 < |b| {
        assert a[..i + 1] == [a[0]] + a[1..][..i];
        assert b[..i + 1] == [b[0]] + b[1..][..i];
      }
    }
    if i: nat :| FirstDifferenceBelow(a, b, i) {
      assert i > 0 && FirstDifferenceBelow(a[1..], b[1..], i - 1);
    }
    if i: nat :| FirstDifferenceBelow(a[1..], b[1..], i) {
      assert FirstDifferenceBelow(a, b, i + 1);
    }
  }

  lemma {:induction false} LessIrreflexive(a: string)
    ensures !Less(a, a)
    decreases |a|
  {
    if |a| > 0 {
      LessIrreflexive(a[1..]);
    }
  }

  lemma {:induction false} LessAsymmetric(a: string, b: string)
    requires Less(a, b)
    ensures !Less(b, a)
    decreases |a|
  {
    if |a| > 0 && a[0] == b[0] {
      LessAsymmetric(a[1..], b[1..]);
    }
  }

  lemma {:induction false} LessTransitive(a: string, b: string, c: string)
    requires Less(a, b) && Less(b, c)
    ensures Less(a, c)
    decreases |a|
  {
    if |a| > 0 && a[0] == b[0] && b[0] == c[0] {
      LessTransitive(a[1..], b[1..], c[1..]);
    }
  }

  lemma {:induction false} LessTotal(a: string, b: string)
    requires a != b
    ensures Less(a, b) || Less(b, a)
    decreases |a|
  {
    if |a| > 0 && |b| > 0 && a[0] == b[0] {
      assert a == [a[0]] + a[1..] && b == [b[0]] + b[1..];
      LessTotal(a[1..], b[1..]);
    }
  }
}
