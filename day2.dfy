/**
 * Day 2: reports are lists of levels. A report is safe when it is strictly
 * increasing or strictly decreasing with every step between 1 and 3; with a
 * tolerance of one, a single level may be removed first. Parsing the reports
 * into integers is not part of this model: the lists are inputs.
 */
module Day2 {
  import opened Common

  const MinLevelSep := 1
  const MaxLevelSep := 3
  const MinLevelTolerance := 0
  const MaxLevelTolerance := 1

  /** The list without its entry at `i`; the input itself is a value and stays as it is. */
  function Remove(l: seq<int>, i: int): (r: seq<int>)
    requires 0 <= i < |l|
    ensures |r| == |l| - 1
    ensures forall k :: 0 <= k < i ==> r[k] == l[k]
    ensures forall k :: i <= k < |r| ==> r[k] == l[k + 1]
  {
    l[..i] + l[i + 1..]
  }

  /** Putting the removed entry back at `i` restores the list, so nothing else is lost. */
  lemma RemoveInsert(l: seq<int>, i: int)
    requires 0 <= i < |l|
    ensures Remove(l, i)[..i] + [l[i]] + Remove(l, i)[i..] == l
    ensures multiset(Remove(l, i)) + multiset{l[i]} == multiset(l)
  {
    var r := Remove(l, i);
    assert r[..i] == l[..i];
    assert r[i..] == l[i + 1..];
    assert l == l[..i] + [l[i]] + l[i + 1..];
  }

  /** The removals of the unit test on `[0, 1, 2, 3, 4]`. */
  lemma RemoveSamples()
    ensures Remove([0, 1, 2, 3, 4], 0) == [1, 2, 3, 4]
    ensures Remove([0, 1, 2, 3, 4], 1) == [0, 2, 3, 4]
    ensures Remove([0, 1, 2, 3, 4], 2) == [0, 1, 3, 4]
    ensures Remove([0, 1, 2, 3, 4], 3) == [0, 1, 2, 4]
    ensures Remove([0, 1, 2, 3, 4], 4) == [0, 1, 2, 3]
  {
  }

  /**
   * Whether the step from `l[k - 1]` to `l[k]` is acceptable: in the given
   * direction (`up` for increasing) the difference lies between the two
   * separation bounds.
   */
  predicate Good(l: seq<int>, k: int, up: bool)
    requires 1 <= k < |l|
  {
    var diff := if up then l[k] - l[k - 1] else l[k - 1] - l[k];
    !(diff < 0 || diff < MinLevelSep || diff > MaxLevelSep)
  }

  /** Every step from index `i` on is acceptable. */
  predicate GoodFrom(l: seq<int>, i: int, up: bool)
  {
    forall k :: 1 <= k < |l| && i <= k ==> Good(l, k, up)
  }

  /** Every step of the list is acceptable. */
  predicate AllGood(l: seq<int>, up: bool)
  {
    GoodFrom(l, 1, up)
  }

  /**
   * The scan shared by `isAsc` (`up`) and `isDesc` (not `up`), from step `i`:
   * acceptable steps are skipped; at the first bad one the tolerance is
   * spent, retrying without the left or the right level of that step.
   */
  function Check(l: seq<int>, t: nat, up: bool, i: nat): bool
    requires 1 <= i
    decreases t, |l| - i
  {
    if i >= |l| then true
    else if Good(l, i, up) then Check(l, t, up, i + 1)
    else if t == 0 then false
    else Check(Remove(l, i - 1), t - 1, up, 1) || Check(Remove(l, i), t - 1, up, 1)
  }

  /** The increasing scan: accepts, at any tolerance, every list whose steps all rise by 1 to 3. */
  function IsAsc(l: seq<int>, t: nat): (r: bool)
    ensures AllGood(l, true) ==> r
  {
    CheckAcceptsGood(l, t, true, 1);
    Check(l, t, true, 1)
  }

  /** The decreasing scan: accepts, at any tolerance, every list whose steps all fall by 1 to 3. */
  function IsDesc(l: seq<int>, t: nat): (r: bool)
    ensures AllGood(l, false) ==> r
  {
    CheckAcceptsGood(l, t, false, 1);
    Check(l, t, false, 1)
  }

  /** A report is safe when it passes as increasing or as decreasing. */
  function IsSafe(l: seq<int>, t: nat): (r: bool)
    ensures AllGood(l, true) || AllGood(l, false) ==> r
  {
    IsAsc(l, t) || IsDesc(l, t)
  }

  /** At any tolerance the scan from `i` accepts a list whose steps from `i` on are all acceptable. */
  lemma {:induction false} CheckAcceptsGood(l: seq<int>, t: nat, up: bool, i: nat)
    requires 1 <= i
    ensures GoodFrom(l, i, up) ==> Check(l, t, up, i)
    decreases |l| - i
  {
    if i < |l| && GoodFrom(l, i, up) {
      CheckAcceptsGood(l, t, up, i + 1);
    }
  }

  /** Without tolerance the scan from `i` accepts exactly when every later step is acceptable. */
  lemma {:induction false} CheckZero(l: seq<int>, up: bool, i: nat)
    requires 1 <= i
    ensures Check(l, 0, up, i) <==> GoodFrom(l, i, up)
    decreases |l| - i
  {
    if i < |l| {
      if Good(l, i, up) {
        CheckZero(l, up, i + 1);
        assert GoodFrom(l, i, up) <== GoodFrom(l, i + 1, up);
      }
    }
  }

  /** With tolerance 0 a report is increasing (decreasing) exactly when every step is. */
  lemma StrictScan(l: seq<int>)
    ensures IsAsc(l, 0) <==> AllGood(l, true)
    ensures IsDesc(l, 0) <==> AllGood(l, false)
    ensures IsSafe(l, 0) <==> AllGood(l, true) || AllGood(l, false)
  {
    CheckZero(l, true, 1);
    CheckZero(l, false, 1);
  }

  /** Raising the tolerance never turns an accepted report into a rejected one. */
  lemma {:induction false} CheckMonotone(l: seq<int>, t1: nat, t2: nat, up: bool, i: nat)
    requires 1 <= i && t1 <= t2
    requires Check(l, t1, up, i)
    ensures Check(l, t2, up, i)
    decreases t1, |l| - i
  {
    if i < |l| {
      if Good(l, i, up) {
        CheckMonotone(l, t1, t2, up, i + 1);
      } else {
        assert t1 != 0;
        var left, right := Remove(l, i - 1), Remove(l, i);
        if Check(left, t1 - 1, up, 1) {
          CheckMonotone(left, t1 - 1, t2 - 1, up, 1);
        } else {
          CheckMonotone(right, t1 - 1, t2 - 1, up, 1);
        }
        assert Check(l, t2, up, i) == (Check(left, t2 - 1, up, 1) || Check(right, t2 - 1, up, 1));
      }
    }
  }

  /** Safety is monotone in the tolerance. */
  lemma SafeMonotone(l: seq<int>, t1: nat, t2: nat)
    requires t1 <= t2
    ensures IsSafe(l, t1) ==> IsSafe(l, t2)
  {
    if IsAsc(l, t1) {
      CheckMonotone(l, t1, t2, true, 1);
    }
    if IsDesc(l, t1) {
      CheckMonotone(l, t1, t2, false, 1);
    }
  }

  /**
   * When step `i` is bad, only a removal of one of its two levels can make
   * every step acceptable: any other removal keeps the two levels adjacent.
   */
  lemma BadStepPinsRemoval(l: seq<int>, up: bool, i: nat, j: int)
    requires 1 <= i < |l| && 0 <= j < |l|
    ensures !Good(l, i, up) && AllGood(Remove(l, j), up) ==> j == i - 1 || j == i
  {
    var r := Remove(l, j);
    if j < i - 1 {
      assert r[i - 2] == l[i - 1] && r[i - 1] == l[i];
      assert Good(r, i - 1, up) == Good(l, i, up);
    } else if j > i {
      assert r[i - 1] == l[i - 1] && r[i] == l[i];
      assert Good(r, i, up) == Good(l, i, up);
    }
  }

  /**
   * The scan with tolerance one from a point before which every step is
   * acceptable accepts exactly the lists that are acceptable as they are or
   * after removing some single level.
   */
  lemma {:induction false} CheckOne(l: seq<int>, up: bool, i: nat)
    requires 1 <= i
    requires forall k :: 1 <= k < i && k < |l| ==> Good(l, k, up)
    ensures Check(l, 1, up, i) <==> AllGood(l, up) || exists j :: 0 <= j < |l| && AllGood(Remove(l, j), up)
    decreases |l| - i
  {
    if i >= |l| {
      assert AllGood(l, up);
    } else if Good(l, i, up) {
      CheckOne(l, up, i + 1);
    } else {
      CheckZero(Remove(l, i - 1), up, 1);
      CheckZero(Remove(l, i), up, 1);
      assert !AllGood(l, up);
      if j :| 0 <= j < |l| && AllGood(Remove(l, j), up) {
        BadStepPinsRemoval(l, up, i, j);
      }
    }
  }

  /**
   * The greedy retry at the first bad step is complete: with tolerance one a
   * report is safe exactly when it is safe as it is or after removing one
   * level.
   */
  lemma SafeWithOneRemoval(l: seq<int>)
    ensures IsSafe(l, 1) <==> IsSafe(l, 0) || exists j :: 0 <= j < |l| && IsSafe(Remove(l, j), 0)
  {
    StrictScan(l);
    CheckOne(l, true, 1);
    CheckOne(l, false, 1);
    forall j | 0 <= j < |l|
      ensures IsSafe(Remove(l, j), 0) <==> AllGood(Remove(l, j), true) || AllGood(Remove(l, j), false)
    {
      StrictScan(Remove(l, j));
    }
  }

  /** The tolerance each half of the puzzle allows. */
  function Tolerance(part: Part): (t: nat)
    ensures MinLevelTolerance <= t <= MaxLevelTolerance
    ensures t == MinLevelTolerance <==> part == Part1
  {
    match part
    case Part1 => MinLevelTolerance
    case Part2 => MaxLevelTolerance
  }

  /** The number of safe reports among the first `n`. */
  function SafeCount(levels: seq<seq<int>>, t: nat, n: nat): (c: nat)
    requires n <= |levels|
    ensures c <= n
  {
    if n == 0 then 0
    else SafeCount(levels, t, n - 1) + (if IsSafe(levels[n - 1], t) then 1 else 0)
  }

  /** Counts the safe reports with the tolerance of the chosen half. */
  method Solve(levels: seq<seq<int>>, part: Part) returns (count: nat)
    ensures count == SafeCount(levels, Tolerance(part), |levels|)
  {
    var tolerance := Tolerance(part);
    count := 0;
    for i := 0 to |levels|
      invariant count == SafeCount(levels, tolerance, i)
    {
      if IsSafe(levels[i], tolerance) {
        count := count + 1;
      }
    }
  }

  /** Every report safe in Part 1 is safe in Part 2, so the Part 2 count is never smaller. */
  lemma {:induction false} PartsOrdered(levels: seq<seq<int>>, n: nat)
    requires n <= |levels|
    ensures SafeCount(levels, Tolerance(Part1), n) <= SafeCount(levels, Tolerance(Part2), n)
  {
    if n > 0 {
      PartsOrdered(levels, n - 1);
      SafeMonotone(levels[n - 1], 0, 1);
    }
  }

  /** The six sample reports. */
  function Sample(): seq<seq<int>>
  {
    [[7, 6, 4, 2, 1], [1, 2, 7, 8, 9], [9, 7, 6, 2, 1], [1, 3, 2, 4, 5], [8, 6, 4, 4, 1], [1, 3, 6, 7, 9]]
  }

  /** On the sample Part 1 counts 2 safe reports. */
  lemma SamplePart1()
    ensures SafeCount(Sample(), Tolerance(Part1), 6) == 2
  {
    var s := Sample();
    assert IsSafe(s[0], 0);
    assert !IsSafe(s[1], 0);
    assert !IsSafe(s[2], 0);
    assert !IsSafe(s[3], 0);
    assert !IsSafe(s[4], 0);
    assert IsSafe(s[5], 0);
  }

  /** On the sample Part 2 counts 4 safe reports. */
  lemma SamplePart2()
    ensures SafeCount(Sample(), Tolerance(Part2), 6) == 4
  {
    var s := Sample();
    assert IsSafe(s[0], 1);
    assert !IsSafe(s[1], 1);
    assert !IsSafe(s[2], 1);
    assert IsSafe(s[3], 1);
    assert IsSafe(s[4], 1);
    assert IsSafe(s[5], 1);
  }
}
