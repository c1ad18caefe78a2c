/**
 * Day 1: two columns of location ids. Part 1 sums the distances between the
 * entries paired by position; Part 2 sums, for every left entry, that entry
 * times how often it occurs in the right column. Parsing reads one id into
 * each column per line, so the columns have the same length, and sorts both
 * ascending; the columns are inputs here, with those two facts as the
 * solver's precondition.
 */
module Day1 {
  import opened Common

  /** The ids of `s` are in ascending order. */
  predicate Sorted(s: seq<int>) {
    forall i, j :: 0 <= i < j < |s| ==> s[i] <= s[j]
  }

  /** Every id of a sorted non-empty list is at most its last entry. */
  lemma SortedLastIsMax(a: seq<int>, x: int)
    requires Sorted(a) && x in multiset(a)
    ensures x <= a[|a| - 1]
  {
    var k :| 0 <= k < |a| && a[k] == x;
  }

  /** Dropping the last entry of a sorted list leaves a sorted list, one occurrence of that entry short. */
  lemma SortedDropLast(a: seq<int>)
    requires Sorted(a) && a != []
    ensures Sorted(a[..|a| - 1])
    ensures multiset(a[..|a| - 1]) == multiset(a) - multiset{a[|a| - 1]}
  {
    assert a == a[..|a| - 1] + [a[|a| - 1]];
  }

  /** Two sorted lists holding the same ids are the same list: sorting leaves no choice. */
  lemma {:induction false} SortedByMultiset(a: seq<int>, b: seq<int>)
    requires Sorted(a) && Sorted(b) && multiset(a) == multiset(b)
    ensures a == b
    decreases |a|
  {
    assert |a| == |b| by {
      assert |multiset(a)| == |multiset(b)|;
    }
    if a != [] {
      var n := |a| - 1;
      assert a[n] in multiset(a) && b[n] in multiset(b);
      SortedLastIsMax(b, a[n]);
      SortedLastIsMax(a, b[n]);
      assert a[n] == b[n];
      SortedDropLast(a);
      SortedDropLast(b);
      SortedByMultiset(a[..n], b[..n]);
      assert a == a[..n] + [a[n]];
      assert b == b[..n] + [b[n]];
    }
  }

  /** The distance between two ids: the absolute value of their difference. */
  function Dis(a: int, b: int): (r: int)
    ensures r >= 0
    ensures r == a - b || r == b - a
  {
    if a > b then a - b else b - a
  }

  /** The distance is symmetric and vanishes exactly on equal ids. */
  lemma DisFacts(a: int, b: int)
    ensures Dis(a, b) == Dis(b, a)
    ensures Dis(a, b) == 0 <==> a == b
  {
  }

  /**
   * The similarity contribution of `l1[j]`: the number of indices of `l2`
   * holding that id, times the id. Counted with a loop over `l2`.
   */
  method Sim(l1: seq<int>, l2: seq<int>, j: int) returns (r: int)
    requires 0 <= j < |l1|
    ensures r == l1[j] * multiset(l2)[l1[j]]
  {
    var count := 0;
    for i := 0 to |l2|
      invariant count == multiset(l2[..i])[l1[j]]
    {
      assert l2[..i + 1] == l2[..i] + [l2[i]];
      if l1[j] == l2[i] {
        count := count + 1;
      }
    }
    assert l2[..|l2|] == l2;
    return count * l1[j];
  }

  /** Sum of the distances of the first `n` pairs. */
  function TotalDistance(l1: seq<int>, l2: seq<int>, n: nat): int
    requires n <= |l1| && n <= |l2|
  {
    if n == 0 then 0 else TotalDistance(l1, l2, n - 1) + Dis(l1[n - 1], l2[n - 1])
  }

  /** Sum of the similarity contributions of the first `n` left entries. */
  function TotalSimilarity(l1: seq<int>, l2: seq<int>, n: nat): int
    requires n <= |l1|
  {
    if n == 0 then 0 else TotalSimilarity(l1, l2, n - 1) + l1[n - 1] * multiset(l2)[l1[n - 1]]
  }

  /** The puzzle answer for the two lists. */
  function Answer(l1: seq<int>, l2: seq<int>, part: Part): int
    requires part == Part1 ==> |l1| <= |l2|
  {
    if part == Part1 then TotalDistance(l1, l2, |l1|) else TotalSimilarity(l1, l2, |l1|)
  }

  /**
   * Walks the left list once, adding the distance to the partner at the
   * same index (Part 1) or the similarity contribution (Part 2).
   */
  method Solve(l1: seq<int>, l2: seq<int>, part: Part) returns (total: int)
    requires |l1| == |l2| && Sorted(l1) && Sorted(l2)
    ensures total == Answer(l1, l2, part)
  {
    total := 0;
    for i := 0 to |l1|
      invariant total == if part == Part1 then TotalDistance(l1, l2, i) else TotalSimilarity(l1, l2, i)
    {
      if part == Part1 {
        var distance := Dis(l1[i], l2[i]);
        total := total + distance;
      }
      if part == Part2 {
        var similarity := Sim(l1, l2, i);
        total := total + similarity;
      }
    }
  }

  /** The total distance is never negative, and it is zero exactly when the paired prefixes coincide. */
  lemma {:induction false} TotalDistanceZero(l1: seq<int>, l2: seq<int>, n: nat)
    requires n <= |l1| && n <= |l2|
    ensures TotalDistance(l1, l2, n) >= 0
    ensures TotalDistance(l1, l2, n) == 0 <==> l1[..n] == l2[..n]
  {
    if n > 0 {
      TotalDistanceZero(l1, l2, n - 1);
      assert l1[..n] == l1[..n - 1] + [l1[n - 1]];
      assert l2[..n] == l2[..n - 1] + [l2[n - 1]];
      if l1[..n] == l2[..n] {
        assert l1[..n - 1] == l1[..n][..n - 1];
        assert l1[n - 1] == l1[..n][n - 1];
      }
    }
  }

  /**
   * On parsed columns (sorted, of equal length) the total distance is zero
   * exactly when both columns hold the same ids the same number of times.
   */
  lemma SortedDistanceZero(l1: seq<int>, l2: seq<int>)
    requires |l1| == |l2| && Sorted(l1) && Sorted(l2)
    ensures Answer(l1, l2, Part1) == 0 <==> multiset(l1) == multiset(l2)
  {
    TotalDistanceZero(l1, l2, |l1|);
    assert l1[..|l1|] == l1 && l2[..|l2|] == l2;
    if multiset(l1) == multiset(l2) {
      SortedByMultiset(l1, l2);
    }
  }

  /** The similarity of the first `n` left entries, with one entry appended at the end. */
  lemma SimilaritySnoc(l1: seq<int>, x: int, l2: seq<int>)
    ensures TotalSimilarity(l1 + [x], l2, |l1| + 1) == TotalSimilarity(l1, l2, |l1|) + x * multiset(l2)[x]
  {
    TotalSimilarityPrefix(l1, [x], l2, |l1|);
  }

  /** Only the first `n` entries matter to the similarity of the first `n`. */
  lemma {:induction false} TotalSimilarityPrefix(a: seq<int>, b: seq<int>, l2: seq<int>, n: nat)
    requires n <= |a|
    ensures TotalSimilarity(a + b, l2, n) == TotalSimilarity(a, l2, n)
  {
    if n > 0 {
      TotalSimilarityPrefix(a, b, l2, n - 1);
      assert (a + b)[n - 1] == a[n - 1];
    }
  }

  /** The similarity of a list split in two is the sum of the similarities of the halves. */
  lemma {:induction false} TotalSimilarityAppend(a: seq<int>, b: seq<int>, l2: seq<int>)
    ensures TotalSimilarity(a + b, l2, |a + b|) == TotalSimilarity(a, l2, |a|) + TotalSimilarity(b, l2, |b|)
    decreases |b|
  {
    if b == [] {
      assert a + b == a;
    } else {
      var b', x := b[..|b| - 1], b[|b| - 1];
      assert a + b == (a + b') + [x];
      assert b == b' + [x];
      TotalSimilarityAppend(a, b', l2);
      SimilaritySnoc(a + b', x, l2);
      SimilaritySnoc(b', x, l2);
    }
  }

  /**
   * Part 2 does not depend on the order of either list: any rearrangement
   * of the left list (and, by its definition through `multiset`, of the
   * right list) gives the same total, so sorting the columns is irrelevant
   * to it.
   */
  lemma {:induction false} SimilarityIgnoresOrder(l1: seq<int>, p1: seq<int>, l2: seq<int>)
    requires multiset(l1) == multiset(p1)
    ensures TotalSimilarity(l1, l2, |l1|) == TotalSimilarity(p1, l2, |p1|)
    decreases |l1|
  {
    if l1 != [] {
      var x := l1[0];
      assert x in multiset(p1);
      var k :| 0 <= k < |p1| && p1[k] == x;
      var rest1 := l1[1..];
      var rest2 := p1[..k] + p1[k + 1..];
      assert l1 == [x] + rest1;
      assert p1 == p1[..k] + [x] + p1[k + 1..];
      assert multiset(l1) == multiset{x} + multiset(rest1);
      assert multiset(p1) == multiset(p1[..k]) + multiset{x} + multiset(p1[k + 1..]);
      assert multiset(rest2) == multiset(p1[..k]) + multiset(p1[k + 1..]);
      assert multiset(rest1) == multiset(l1) - multiset{x};
      assert multiset(rest2) == multiset(p1) - multiset{x};
      SimilarityIgnoresOrder(rest1, rest2, l2);
      TotalSimilarityAppend([x], rest1, l2);
      TotalSimilarityAppend(p1[..k] + [x], p1[k + 1..], l2);
      TotalSimilarityAppend(p1[..k], [x], l2);
      TotalSimilarityAppend(p1[..k], p1[k + 1..], l2);
    }
  }

  /** The sample columns, sorted as the parser leaves them: Part 1 is 11. */
  lemma SamplePart1()
    ensures Answer([1, 2, 3, 3, 3, 4], [3, 3, 3, 4, 5, 9], Part1) == 11
  {
    var l1, l2 := [1, 2, 3, 3, 3, 4], [3, 3, 3, 4, 5, 9];
    assert TotalDistance(l1, l2, 2) == 3;
    assert TotalDistance(l1, l2, 4) == 4;
    assert TotalDistance(l1, l2, 6) == 11;
  }

  /** On the same columns Part 2 is 31. */
  lemma SamplePart2()
    ensures Answer([1, 2, 3, 3, 3, 4], [3, 3, 3, 4, 5, 9], Part2) == 31
  {
    var l1, l2 := [1, 2, 3, 3, 3, 4], [3, 3, 3, 4, 5, 9];
    var m := multiset(l2);
    assert m == multiset{3, 3, 3, 4, 5, 9};
    assert m[1] == 0 && m[2] == 0 && m[3] == 3 && m[4] == 1;
    assert TotalSimilarity(l1, l2, 2) == 0;
    assert TotalSimilarity(l1, l2, 4) == 18;
    assert TotalSimilarity(l1, l2, 6) == 31;
  }
}
