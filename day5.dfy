/**
 * Day 5: page-ordering rules "X|Y" say that page X, when an update holds both
 * pages, must come before page Y. An update is a list of page numbers that
 * the checks rearrange in place. Part 1 adds up the middle page of every
 * update that already satisfies all rules; Part 2 repairs every other update
 * by repeated swaps and adds up their middle pages. Turning the input lines
 * into numbers is not part of this model: rules and updates are inputs.
 */
module Day5 {
  import opened Common
  import Fetcher

  /** Page `before` must precede page `after`. */
  datatype Rule = Rule(before: int, after: int)

  /** The index of the last occurrence of `x` in `s`, or -1 when `x` does not occur. */
  function LastIndex(s: seq<int>, x: int): (r: int)
    ensures -1 <= r < |s|
    ensures r >= 0 ==> s[r] == x
    ensures forall k :: r < k < |s| ==> s[k] != x
  {
    if s == [] then -1
    else if s[|s| - 1] == x then |s| - 1
    else LastIndex(s[..|s| - 1], x)
  }

  /**
   * The rule is satisfied: one of its pages is missing, or the last `before`
   * comes before the last `after`.
   */
  predicate Holds(s: seq<int>, r: Rule)
  {
    var b, a := LastIndex(s, r.before), LastIndex(s, r.after);
    b == -1 || a == -1 || b < a
  }

  /** A rule one of whose pages the update lacks always holds. */
  lemma MissingPageHolds(s: seq<int>, r: Rule)
    ensures r.before !in s || r.after !in s ==> Holds(s, r)
  {
  }

  /** A violated rule is repaired by swapping the two last occurrences; otherwise nothing changes. */
  function Fix(s: seq<int>, r: Rule): (t: seq<int>)
    ensures |t| == |s|
  {
    if Holds(s, r) then s
    else
      var b, a := LastIndex(s, r.before), LastIndex(s, r.after);
      s[b := s[a]][a := s[b]]
  }

  /** Checks one rule, swapping its two pages in place when it is violated. */
  method CheckAndFix(before: int, after: int, pages: array<int>) returns (ok: bool)
    modifies pages
    ensures ok == Holds(old(pages[..]), Rule(before, after))
    ensures pages[..] == Fix(old(pages[..]), Rule(before, after))
  {
    var beforeIndex := -1;
    var afterIndex := -1;
    for i := 0 to pages.Length
      invariant beforeIndex == LastIndex(pages[..i], before)
      invariant afterIndex == LastIndex(pages[..i], after)
    {
      assert pages[..i + 1][..i] == pages[..i];
      if pages[i] == before {
        beforeIndex := i;
      }
      if pages[i] == after {
        afterIndex := i;
      }
    }
    assert pages[..pages.Length] == pages[..];
    if beforeIndex == -1 || afterIndex == -1 {
      return true;
    }
    if beforeIndex < afterIndex {
      return true;
    }
    pages[beforeIndex], pages[afterIndex] := pages[afterIndex], pages[beforeIndex];
    return false;
  }

  /** A repair only swaps two entries: the pages are the same multiset. */
  lemma FixPermutes(s: seq<int>, r: Rule)
    ensures multiset(Fix(s, r)) == multiset(s)
  {
    if !Holds(s, r) {
      var b, a := LastIndex(s, r.before), LastIndex(s, r.after);
      var t := s[b := s[a]];
      assert multiset(t) == multiset(s) - multiset{s[b]} + multiset{s[a]};
      assert multiset(t[a := s[b]]) == multiset(t) - multiset{t[a]} + multiset{s[b]};
    }
  }

  /**
   * A rule with two different pages holds after its repair: the swap puts
   * the last `after` behind every `before`.
   */
  lemma FixRestores(s: seq<int>, r: Rule)
    requires r.before != r.after
    ensures Holds(Fix(s, r), r)
  {
    if !Holds(s, r) {
      var b, a := LastIndex(s, r.before), LastIndex(s, r.after);
      var t := Fix(s, r);
      assert t[b] == r.after && t[a] == r.before;
      assert forall k :: b < k < |t| ==> t[k] == s[k];
      assert LastIndex(t, r.after) == b by {
        LastIndexIs(t, r.after, b);
      }
      assert LastIndex(t, r.before) < b by {
        forall k | b <= k < |t|
          ensures t[k] != r.before
        {
        }
      }
    }
  }

  /** `LastIndex` is the unique index holding `x` with no `x` after it. */
  lemma LastIndexIs(s: seq<int>, x: int, k: int)
    requires 0 <= k < |s| && s[k] == x
    requires forall j :: k < j < |s| ==> s[j] != x
    ensures LastIndex(s, x) == k
  {
  }

  /** A rule whose two pages coincide fails whenever that page occurs, and its repair changes nothing. */
  lemma SelfRuleStuck(s: seq<int>, p: int)
    requires p in s
    ensures !Holds(s, Rule(p, p))
    ensures Fix(s, Rule(p, p)) == s
  {
    var k :| 0 <= k < |s| && s[k] == p;
    assert LastIndex(s, p) >= k;
  }

  /** Every rule of `rules` holds. */
  predicate AllHold(rules: seq<Rule>, s: seq<int>)
  {
    forall k {:trigger Holds(s, rules[k])} :: 0 <= k < |rules| ==> Holds(s, rules[k])
  }

  /** One pass over the rules in order: the first violated rule is repaired and the pass stops there. */
  function Pass(rules: seq<Rule>, s: seq<int>): (r: seq<int>)
    ensures |r| == |s|
  {
    if rules == [] then s
    else if Holds(s, rules[0]) then Pass(rules[1..], s)
    else Fix(s, rules[0])
  }

  /** A pass changes nothing exactly when every rule holds, and it only permutes the pages. */
  lemma {:induction false} PassFacts(rules: seq<Rule>, s: seq<int>)
    ensures AllHold(rules, s) ==> Pass(rules, s) == s
    ensures |Pass(rules, s)| == |s|
    ensures multiset(Pass(rules, s)) == multiset(s)
    decreases |rules|
  {
    if rules != [] {
      if Holds(s, rules[0]) {
        PassFacts(rules[1..], s);
        if AllHold(rules, s) {
          assert forall k :: 0 <= k < |rules[1..]| ==> rules[1..][k] == rules[k + 1];
        }
      } else {
        FixPermutes(s, rules[0]);
      }
    }
  }

  /**
   * Checks the rules in order. At the first violated rule it has already
   * swapped that rule's pages when it reports `false`: the check is not
   * read-only.
   */
  method IsInOrder(rules: seq<Rule>, pages: array<int>) returns (ok: bool)
    modifies pages
    ensures ok == AllHold(rules, old(pages[..]))
    ensures pages[..] == Pass(rules, old(pages[..]))
  {
    ghost var s := pages[..];
    for k := 0 to |rules|
      invariant pages[..] == s
      invariant forall j :: 0 <= j < k ==> Holds(s, rules[j])
      invariant Pass(rules, s) == Pass(rules[k..], s)
    {
      var r := rules[k];
      assert rules[k..][1..] == rules[k + 1..];
      var holds := CheckAndFix(r.before, r.after, pages);
      if !holds {
        return false;
      }
    }
    return true;
  }

  /**
   * Passes repeated until one finds every rule satisfied, allowing at most
   * `fuel` passes; `None` when they did not suffice.
   */
  function Repair(rules: seq<Rule>, s: seq<int>, fuel: nat): (r: Option<seq<int>>)
    ensures r.Some? ==> AllHold(rules, r.value)
    decreases fuel
  {
    if fuel == 0 then None
    else if AllHold(rules, s) then Some(s)
    else Repair(rules, Pass(rules, s), fuel - 1)
  }

  /** A finished repair satisfies every rule and is a rearrangement of the pages it started from. */
  lemma {:induction false} RepairSound(rules: seq<Rule>, s: seq<int>, fuel: nat)
    ensures Repair(rules, s, fuel).Some? ==>
      AllHold(rules, Repair(rules, s, fuel).value) && multiset(Repair(rules, s, fuel).value) == multiset(s)
    ensures Repair(rules, s, fuel).Some? ==> |Repair(rules, s, fuel).value| == |s|
    decreases fuel
  {
    if fuel > 0 && !AllHold(rules, s) {
      RepairSound(rules, Pass(rules, s), fuel - 1);
      PassFacts(rules, s);
    }
  }

  /** More fuel never undoes a finished repair. */
  lemma {:induction false} RepairMoreFuel(rules: seq<Rule>, s: seq<int>, fuel: nat, more: nat)
    requires fuel <= more
    requires Repair(rules, s, fuel).Some?
    ensures Repair(rules, s, more) == Repair(rules, s, fuel)
    decreases fuel
  {
    assert 0 < fuel <= more;
    if AllHold(rules, s) {
      RepairUnfold(rules, s, fuel, true);
      RepairUnfold(rules, s, more, true);
    } else {
      var next := Pass(rules, s);
      RepairUnfold(rules, s, fuel, false);
      RepairUnfold(rules, s, more, false);
      RepairMoreFuel(rules, next, fuel - 1, more - 1);
    }
  }

  /** One round of a repair with fuel left: done when every rule holds, else one pass and the rest. */
  lemma RepairUnfold(rules: seq<Rule>, s: seq<int>, fuel: nat, done: bool)
    requires fuel > 0 && done == AllHold(rules, s)
    ensures Repair(rules, s, fuel) == if done then Some(s) else Repair(rules, Pass(rules, s), fuel - 1)
  {
  }

  /**
   * Repeats the pass of `IsInOrder` until a pass finds nothing to repair.
   * The source loops without bound, and never returns for rules that cannot
   * all be met; here at most `fuel` passes run and `done` tells whether the
   * repair finished.
   */
  method FixUpdate(rules: seq<Rule>, pages: array<int>, fuel: nat) returns (done: bool)
    modifies pages
    ensures Repair(rules, old(pages[..]), fuel) == if done then Some(pages[..]) else None
  {
    ghost var s := pages[..];
    var rounds := 0;
    while rounds < fuel
      invariant 0 <= rounds <= fuel
      invariant Repair(rules, s, fuel) == Repair(rules, pages[..], fuel - rounds)
    {
      ghost var before := pages[..];
      var ok := IsInOrder(rules, pages);
      PassFacts(rules, before);
      if ok {
        return true;
      }
      rounds := rounds + 1;
    }
    return false;
  }

  /** A repair only ever cycles when two rules contradict each other: this pair swaps the pages back and forth. */
  lemma {:induction false} ConflictingRulesNeverRepair(fuel: nat)
    ensures Repair([Rule(1, 2), Rule(2, 1)], [1, 2], fuel) == None
    ensures Repair([Rule(1, 2), Rule(2, 1)], [2, 1], fuel) == None
    decreases fuel
  {
    var rules := [Rule(1, 2), Rule(2, 1)];
    LastIndexIs([1, 2], 1, 0);
    LastIndexIs([1, 2], 2, 1);
    LastIndexIs([2, 1], 1, 1);
    LastIndexIs([2, 1], 2, 0);
    assert !Holds([1, 2], rules[1]) && Holds([1, 2], rules[0]);
    assert !Holds([2, 1], rules[0]);
    assert Pass(rules, [1, 2]) == [2, 1];
    assert Pass(rules, [2, 1]) == [1, 2];
    if fuel > 0 {
      ConflictingRulesNeverRepair(fuel - 1);
    }
  }

  /** One misplaced pair is put right by a single pass, and the second pass confirms it. */
  lemma RepairSample()
    ensures Pass([Rule(47, 53)], [53, 47]) == [47, 53]
    ensures Repair([Rule(47, 53)], [53, 47], 2) == Some([47, 53])
    ensures Repair([Rule(47, 53)], [53, 47], 1) == None
  {
    LastIndexIs([53, 47], 47, 1);
    LastIndexIs([53, 47], 53, 0);
    LastIndexIs([47, 53], 47, 0);
    LastIndexIs([47, 53], 53, 1);
    assert !Holds([53, 47], [Rule(47, 53)][0]);
    assert AllHold([Rule(47, 53)], [47, 53]);
  }

  /** No array appears twice. */
  predicate Distinct(us: seq<array<int>>)
  {
    forall i, j :: 0 <= i < j < |us| ==> us[i] != us[j]
  }

  /** The pages currently held by each update. */
  function Contents(us: seq<array<int>>): (r: seq<seq<int>>)
    reads set u | u in us
    ensures |r| == |us|
    ensures forall k :: 0 <= k < |us| ==> r[k] == us[k][..]
  {
    if us == [] then [] else Contents(us[..|us| - 1]) + [us[|us| - 1][..]]
  }

  /** Every update repaired, or `None` when some update needs more than `fuel` passes. */
  function RepairAll(rules: seq<Rule>, cs: seq<seq<int>>, fuel: nat): (r: Option<seq<seq<int>>>)
    ensures r.Some? <==> forall k :: 0 <= k < |cs| ==> Repair(rules, cs[k], fuel).Some?
    ensures r.Some? ==> |r.value| == |cs| && forall k :: 0 <= k < |cs| ==> Repair(rules, cs[k], fuel) == Some(r.value[k])
  {
    if forall k :: 0 <= k < |cs| ==> Repair(rules, cs[k], fuel).Some? then
      Some(seq(|cs|, k requires 0 <= k < |cs| => match Repair(rules, cs[k], fuel) case Some(f) => f case None => []))
    else None
  }

  /** `RepairAll` is the list of the individual repairs once each of them finished. */
  lemma RepairAllIs(rules: seq<Rule>, cs: seq<seq<int>>, fs: seq<seq<int>>, fuel: nat)
    requires |fs| == |cs|
    requires forall k :: 0 <= k < |cs| ==> Repair(rules, cs[k], fuel) == Some(fs[k])
    ensures RepairAll(rules, cs, fuel) == Some(fs)
  {
    var r := RepairAll(rules, cs, fuel);
    assert r.Some?;
    assert forall k :: 0 <= k < |cs| ==> r.value[k] == fs[k];
    assert r.value == fs;
  }

  /** Repairs every update in place, stopping at the first one that needs more than `fuel` passes. */
  method FixAll(rules: seq<Rule>, us: seq<array<int>>, fuel: nat) returns (done: bool)
    requires Distinct(us)
    modifies set u | u in us
    ensures done ==> forall j :: 0 <= j < |us| ==> Repair(rules, old(us[j][..]), fuel) == Some(us[j][..])
    ensures !done ==> exists j :: 0 <= j < |us| && Repair(rules, old(us[j][..]), fuel) == None
  {
    for i := 0 to |us|
      invariant forall j :: i <= j < |us| ==> us[j][..] == old(us[j][..])
      invariant forall j :: 0 <= j < i ==> Repair(rules, old(us[j][..]), fuel) == Some(us[j][..])
    {
      var ok := FixUpdate(rules, us[i], fuel);
      if !ok {
        return false;
      }
    }
    return true;
  }

  /** The page in the middle of an update; the source panics on an empty one. */
  function GetMiddle(s: seq<int>): (m: int)
    requires |s| > 0
    ensures m in s
  {
    s[|s| / 2]
  }

  /**
   * The index `GetMiddle` reads is the one centre of the list: it has as many
   * pages after it as before it, or, for an even length, one fewer.
   */
  lemma MiddleIsCentre(s: seq<int>, k: int)
    requires 0 <= k < |s|
    ensures (|s| - 1 - k <= k <= |s| - k) <==> GetMiddle(s) == s[k] && k == |s| / 2
  {
  }

  /** No update is empty. */
  predicate NonEmptyPages(cs: seq<seq<int>>)
  {
    forall k :: 0 <= k < |cs| ==> |cs[k]| > 0
  }

  /** The updates that satisfy every rule, in input order. */
  function InOrderOnes(rules: seq<Rule>, cs: seq<seq<int>>): seq<seq<int>>
  {
    if cs == [] then []
    else
      var last := cs[|cs| - 1];
      InOrderOnes(rules, cs[..|cs| - 1]) + (if AllHold(rules, last) then [last] else [])
  }

  /**
   * The updates that violate some rule, in input order, each as the check
   * left it: with the first violated rule already swapped.
   */
  function OutOfOrderOnes(rules: seq<Rule>, cs: seq<seq<int>>): seq<seq<int>>
  {
    if cs == [] then []
    else
      var last := cs[|cs| - 1];
      OutOfOrderOnes(rules, cs[..|cs| - 1]) + (if AllHold(rules, last) then [] else [Pass(rules, last)])
  }

  /** Every update lands in exactly one of the two lists. */
  lemma {:induction false} FiltersPartition(rules: seq<Rule>, cs: seq<seq<int>>)
    ensures |InOrderOnes(rules, cs)| + |OutOfOrderOnes(rules, cs)| == |cs|
    decreases |cs|
  {
    if cs != [] {
      FiltersPartition(rules, cs[..|cs| - 1]);
    }
  }

  /** The first list holds updates of the input that satisfy every rule; no empty one unless the input has one. */
  lemma {:induction false} InOrderOnesSound(rules: seq<Rule>, cs: seq<seq<int>>)
    ensures forall c :: c in InOrderOnes(rules, cs) ==> c in cs && AllHold(rules, c)
    ensures NonEmptyPages(cs) ==> NonEmptyPages(InOrderOnes(rules, cs))
    decreases |cs|
  {
    if cs != [] {
      var p, last := cs[..|cs| - 1], cs[|cs| - 1];
      InOrderOnesSound(rules, p);
      assert cs == p + [last];
      FiltersSnoc(rules, p, last);
    }
  }

  /**
   * The second list holds, for updates of the input that violate some rule,
   * the pages as the check left them; no empty one unless the input has one.
   */
  lemma {:induction false} OutOfOrderOnesSound(rules: seq<Rule>, cs: seq<seq<int>>)
    ensures forall c :: c in OutOfOrderOnes(rules, cs) ==>
      exists k :: 0 <= k < |cs| && !AllHold(rules, cs[k]) && c == Pass(rules, cs[k])
    ensures NonEmptyPages(cs) ==> NonEmptyPages(OutOfOrderOnes(rules, cs))
    decreases |cs|
  {
    if cs != [] {
      var p, last := cs[..|cs| - 1], cs[|cs| - 1];
      OutOfOrderOnesSound(rules, p);
      PassFacts(rules, last);
      assert cs == p + [last];
      FiltersSnoc(rules, p, last);
      forall c | c in OutOfOrderOnes(rules, cs)
        ensures exists k :: 0 <= k < |cs| && !AllHold(rules, cs[k]) && c == Pass(rules, cs[k])
      {
        if c in OutOfOrderOnes(rules, p) {
          var k :| 0 <= k < |p| && !AllHold(rules, p[k]) && c == Pass(rules, p[k]);
          assert cs[k] == p[k];
        } else {
          assert cs[|cs| - 1] == last;
        }
      }
    }
  }

  /** One more update lands in exactly one of the two lists. */
  lemma FiltersSnoc(rules: seq<Rule>, cs: seq<seq<int>>, c: seq<int>)
    ensures InOrderOnes(rules, cs + [c]) == InOrderOnes(rules, cs) + (if AllHold(rules, c) then [c] else [])
    ensures OutOfOrderOnes(rules, cs + [c]) == OutOfOrderOnes(rules, cs) + (if AllHold(rules, c) then [] else [Pass(rules, c)])
  {
    assert (cs + [c])[..|cs|] == cs;
  }

  /**
   * An empty update satisfies every rule, since neither page of a rule
   * occurs in it: the check puts it with the updates in order.
   */
  lemma EmptyUpdateInOrder(rules: seq<Rule>)
    ensures AllHold(rules, [])
  {
    forall k | 0 <= k < |rules|
      ensures Holds([], rules[k])
    {
      MissingPageHolds([], rules[k]);
    }
  }

  /**
   * No out-of-order entry is empty, whatever the input holds: an update that
   * violates a rule holds that rule's pages, and a pass keeps its length.
   */
  lemma OutOfOrderNonEmpty(rules: seq<Rule>, cs: seq<seq<int>>)
    ensures NonEmptyPages(OutOfOrderOnes(rules, cs))
  {
    var broken := OutOfOrderOnes(rules, cs);
    OutOfOrderOnesSound(rules, cs);
    EmptyUpdateInOrder(rules);
    forall j | 0 <= j < |broken|
      ensures |broken[j]| > 0
    {
      assert broken[j] in broken;
      var k :| 0 <= k < |cs| && !AllHold(rules, cs[k]) && broken[j] == Pass(rules, cs[k]);
      assert cs[k] != [];
    }
  }

  /** Repairs keep every update's length, so non-empty updates stay non-empty. */
  lemma RepairAllKeepsPages(rules: seq<Rule>, cs: seq<seq<int>>, fuel: nat)
    ensures RepairAll(rules, cs, fuel).Some? && NonEmptyPages(cs) ==> NonEmptyPages(RepairAll(rules, cs, fuel).value)
  {
    if RepairAll(rules, cs, fuel).Some? {
      forall k | 0 <= k < |cs|
        ensures |RepairAll(rules, cs, fuel).value[k]| == |cs[k]|
      {
        RepairSound(rules, cs[k], fuel);
      }
    }
  }

  /** The sum of the middle pages. */
  function SumMiddles(cs: seq<seq<int>>): int
    requires NonEmptyPages(cs)
  {
    if cs == [] then 0 else SumMiddles(cs[..|cs| - 1]) + GetMiddle(cs[|cs| - 1])
  }

  /**
   * The puzzle's answer for the updates `cs`: Part 1 sums the middle pages of
   * the updates already in order; Part 2 repairs the others, starting from
   * the state the check left them in, and sums their middle pages. `None`
   * when some repair needs more than `fuel` passes. Only Part 1 can meet an
   * empty update in order, and it has no middle page.
   */
  function Answer(rules: seq<Rule>, cs: seq<seq<int>>, part: Part, fuel: nat): Option<int>
    requires part == Part1 ==> NonEmptyPages(cs)
  {
    match part
    case Part1 =>
      InOrderOnesSound(rules, cs);
      Some(SumMiddles(InOrderOnes(rules, cs)))
    case Part2 =>
      OutOfOrderNonEmpty(rules, cs);
      RepairedSum(rules, OutOfOrderOnes(rules, cs), fuel)
  }

  /** The sum of the middle pages of the repaired updates, or `None` when a repair does not finish. */
  function RepairedSum(rules: seq<Rule>, cs: seq<seq<int>>, fuel: nat): Option<int>
    requires NonEmptyPages(cs)
  {
    RepairAllKeepsPages(rules, cs, fuel);
    match RepairAll(rules, cs, fuel)
    case None => None
    case Some(fixed) => Some(SumMiddles(fixed))
  }

  /** Appending an update appends its pages. */
  lemma ContentsSnoc(us: seq<array<int>>, u: array<int>)
    ensures Contents(us + [u]) == Contents(us) + [u[..]]
  {
    assert (us + [u])[..|us|] == us;
  }

  /**
   * The updates whose pages `cs` satisfy every rule (`keep`), or those whose
   * pages violate one (not `keep`), in input order.
   */
  function Pick(rules: seq<Rule>, us: seq<array<int>>, cs: seq<seq<int>>, keep: bool): (r: seq<array<int>>)
    requires |us| == |cs|
    ensures forall u :: u in r ==> u in us
  {
    if us == [] then []
    else
      var n := |us| - 1;
      Pick(rules, us[..n], cs[..n], keep) + if AllHold(rules, cs[n]) == keep then [us[n]] else []
  }

  /** A selection from distinct updates holds distinct updates. */
  lemma {:induction false} PickDistinct(rules: seq<Rule>, us: seq<array<int>>, cs: seq<seq<int>>, keep: bool)
    requires |us| == |cs| && Distinct(us)
    ensures Distinct(Pick(rules, us, cs, keep))
    decreases |us|
  {
    if us != [] {
      var n := |us| - 1;
      assert Distinct(us[..n]);
      PickDistinct(rules, us[..n], cs[..n], keep);
      assert us[n] !in us[..n];
    }
  }

  /**
   * Once every update holds its pages after one pass, the two selections hold
   * exactly the lists `InOrderOnes` and `OutOfOrderOnes` describe.
   */
  lemma {:induction false} PickContents(rules: seq<Rule>, us: seq<array<int>>, cs: seq<seq<int>>)
    requires |us| == |cs|
    requires forall k :: 0 <= k < |us| ==> us[k][..] == Pass(rules, cs[k])
    ensures Contents(Pick(rules, us, cs, true)) == InOrderOnes(rules, cs)
    ensures Contents(Pick(rules, us, cs, false)) == OutOfOrderOnes(rules, cs)
    decreases |us|
  {
    if us != [] {
      var n := |us| - 1;
      PickContents(rules, us[..n], cs[..n]);
      PassFacts(rules, cs[n]);
      ContentsSnoc(Pick(rules, us[..n], cs[..n], true), us[n]);
      ContentsSnoc(Pick(rules, us[..n], cs[..n], false), us[n]);
    }
  }

  /** Selecting one more update appends it to one of the two selections. */
  lemma PickSnoc(rules: seq<Rule>, us: seq<array<int>>, cs: seq<seq<int>>, i: nat, keep: bool)
    requires |us| == |cs| && i < |us|
    ensures Pick(rules, us[..i + 1], cs[..i + 1], keep) ==
      Pick(rules, us[..i], cs[..i], keep) + if AllHold(rules, cs[i]) == keep then [us[i]] else []
  {
    assert us[..i + 1][..i] == us[..i] && cs[..i + 1][..i] == cs[..i];
  }

  /**
   * Sorts the updates into those in order and those not, as `Solve`'s first
   * loop does; the check already swaps one pair in each update not in order.
   * `cs` names the pages the updates hold on entry.
   */
  method Classify(rules: seq<Rule>, updates: seq<array<int>>, ghost cs: seq<seq<int>>)
    returns (ordered: seq<array<int>>, outOfOrder: seq<array<int>>)
    requires Distinct(updates)
    requires |cs| == |updates| && forall k :: 0 <= k < |updates| ==> updates[k][..] == cs[k]
    modifies set u | u in updates
    ensures forall k :: 0 <= k < |updates| ==> updates[k][..] == Pass(rules, cs[k])
    ensures ordered == Pick(rules, updates, cs, true)
    ensures outOfOrder == Pick(rules, updates, cs, false)
  {
    ordered, outOfOrder := [], [];
    for i := 0 to |updates|
      invariant forall j :: 0 <= j < i ==> updates[j][..] == Pass(rules, cs[j])
      invariant forall j :: i <= j < |updates| ==> updates[j][..] == cs[j]
      invariant ordered == Pick(rules, updates[..i], cs[..i], true)
      invariant outOfOrder == Pick(rules, updates[..i], cs[..i], false)
    {
      PickSnoc(rules, updates, cs, i, true);
      PickSnoc(rules, updates, cs, i, false);
      var ok := IsInOrder(rules, updates[i]);
      if ok {
        ordered := ordered + [updates[i]];
      } else {
        outOfOrder := outOfOrder + [updates[i]];
      }
    }
    assert cs[..|updates|] == cs && updates[..|updates|] == updates;
  }

  /** Adds up the middle page of each update. */
  method SumMiddlePages(us: seq<array<int>>) returns (total: int)
    requires NonEmptyPages(Contents(us))
    ensures total == SumMiddles(Contents(us))
  {
    ghost var cs := Contents(us);
    total := 0;
    for k := 0 to |us|
      invariant total == SumMiddles(cs[..k])
    {
      assert cs[..k + 1][..k] == cs[..k];
      total := total + GetMiddle(us[k][..]);
    }
    assert cs[..|us|] == cs;
  }

  /**
   * Solves the puzzle on parsed rules and updates. The updates are changed
   * in place, as the source's checks and repairs change the page slices.
   */
  method Solve(rules: seq<Rule>, updates: seq<array<int>>, part: Part, fuel: nat) returns (total: Option<int>)
    requires Distinct(updates)
    requires part == Part1 ==> forall k :: 0 <= k < |updates| ==> updates[k].Length > 0
    modifies set u | u in updates
    ensures total == Answer(rules, old(Contents(updates)), part, fuel)
  {
    ghost var cs := Contents(updates);
    var ordered, outOfOrder := Classify(rules, updates, cs);
    PickContents(rules, updates, cs);
    PickDistinct(rules, updates, cs, false);
    InOrderOnesSound(rules, cs);
    OutOfOrderOnesSound(rules, cs);
    if part == Part1 {
      var sum := SumMiddlePages(ordered);
      return Some(sum);
    }
    OutOfOrderNonEmpty(rules, cs);
    total := SumRepaired(rules, outOfOrder, fuel);
  }

  /**
   * Part 2's last step: repairs the out-of-order updates in place and adds
   * up their middle pages.
   */
  method SumRepaired(rules: seq<Rule>, us: seq<array<int>>, fuel: nat) returns (total: Option<int>)
    requires Distinct(us) && NonEmptyPages(Contents(us))
    modifies set u | u in us
    ensures total == RepairedSum(rules, old(Contents(us)), fuel)
  {
    ghost var broken := Contents(us);
    RepairAllKeepsPages(rules, broken, fuel);
    var done := FixAll(rules, us, fuel);
    if !done {
      return None;
    }
    RepairAllIs(rules, broken, Contents(us), fuel);
    var sum := SumMiddlePages(us);
    return Some(sum);
  }

  /**
   * The index of the first empty line after the first line, or `|s|` when
   * there is none: the line that separates the rules from the updates.
   */
  function FirstBreak(s: seq<string>): (k: nat)
    ensures k <= |s|
    ensures k < |s| ==> 1 <= k && s[k] == ""
    ensures forall j :: 1 <= j < k ==> s[j] != ""
  {
    BreakFrom(s, 1)
  }

  function BreakFrom(s: seq<string>, i: nat): (k: nat)
    requires 1 <= i
    ensures k <= |s|
    ensures i <= k || k == |s|
    ensures k < |s| ==> s[k] == ""
    ensures forall j :: i <= j < k && j < |s| ==> s[j] != ""
    decreases |s| - i
  {
    if i >= |s| then |s|
    else if s[i] == "" then i
    else BreakFrom(s, i + 1)
  }

  /**
   * Splits the input lines at the first empty line that is not the first
   * line: the lines before it are the rules, the non-empty lines after it
   * the updates.
   */
  method Split(s: seq<string>) returns (prefix: seq<string>, suffix: seq<string>)
    ensures prefix == s[..FirstBreak(s)]
    ensures suffix == if FirstBreak(s) < |s| then Fetcher.NonEmpty(s[FirstBreak(s) + 1..]) else []
  {
    ghost var k := FirstBreak(s);
    prefix, suffix := [], [];
    var prefixDone := false;
    for i := 0 to |s|
      invariant prefixDone <==> k < i
      invariant !prefixDone ==> prefix == s[..i] && suffix == []
      invariant prefixDone ==> prefix == s[..k] && suffix == Fetcher.NonEmpty(s[k + 1..i])
    {
      var line := s[i];
      if line == "" && i != 0 {
        prefixDone := true;
        if k < i {
          assert s[k + 1..i + 1] == s[k + 1..i] + [line];
          Fetcher.NonEmptySnoc(s[k + 1..i], line);
        } else {
          assert s[k + 1..i + 1] == [];
        }
        continue;
      }
      if prefixDone {
        assert s[k + 1..i + 1] == s[k + 1..i] + [line];
        Fetcher.NonEmptySnoc(s[k + 1..i], line);
        suffix := suffix + [line];
      } else {
        assert s[..i + 1] == s[..i] + [line];
        prefix := prefix + [line];
      }
    }
    assert s[..|s|] == s;
  }

  /**
   * With one empty line between the rules and the updates and no other
   * empty line after it, the two parts and that line make up the input.
   */
  lemma SplitRejoins(s: seq<string>)
    requires FirstBreak(s) < |s|
    requires forall j :: FirstBreak(s) < j < |s| ==> s[j] != ""
    ensures s == s[..FirstBreak(s)] + [""] + Fetcher.NonEmpty(s[FirstBreak(s) + 1..])
  {
    var k := FirstBreak(s);
    Fetcher.NonEmptyIdentity(s[k + 1..]);
    assert s == s[..k] + [s[k]] + s[k + 1..];
  }

  /** Two updates under one rule, the first in order and the second not. */
  function SampleUpdates(): seq<seq<int>>
  {
    [[75, 47, 53], [53, 47, 61]]
  }

  /** How the check sorts the sample: the second update has its pair swapped. */
  lemma SampleSorted()
    ensures InOrderOnes([Rule(47, 53)], SampleUpdates()) == [[75, 47, 53]]
    ensures OutOfOrderOnes([Rule(47, 53)], SampleUpdates()) == [[47, 53, 61]]
  {
    var rules, cs := [Rule(47, 53)], SampleUpdates();
    LastIndexIs([75, 47, 53], 47, 1);
    LastIndexIs([75, 47, 53], 53, 2);
    LastIndexIs([53, 47, 61], 47, 1);
    LastIndexIs([53, 47, 61], 53, 0);
    assert AllHold(rules, cs[0]);
    assert !Holds(cs[1], rules[0]);
    assert Pass(rules, cs[1]) == [47, 53, 61];
    assert cs[..1] == [cs[0]];
  }

  /** On the sample Part 1 sums the middle page 47 of the update in order. */
  lemma SamplePart1()
    ensures Answer([Rule(47, 53)], SampleUpdates(), Part1, 2) == Some(47)
  {
    SampleSorted();
  }

  /** On the sample Part 2 sums the middle page 53 of the repaired update. */
  lemma SamplePart2()
    ensures Answer([Rule(47, 53)], SampleUpdates(), Part2, 2) == Some(53)
  {
    SampleSorted();
    var rules := [Rule(47, 53)];
    LastIndexIs([47, 53, 61], 47, 0);
    LastIndexIs([47, 53, 61], 53, 1);
    assert AllHold(rules, [47, 53, 61]);
    RepairAllIs(rules, [[47, 53, 61]], [[47, 53, 61]], 2);
  }

  /**
   * Part 2 accepts an empty update: it counts as in order and never reaches
   * the middle-page lookup. With `[]` and `[53, 47]`, Part 2 gives 53.
   */
  lemma EmptyUpdateSample()
    ensures Answer([Rule(47, 53)], [[], [53, 47]], Part2, 2) == Some(53)
  {
    var rules, cs := [Rule(47, 53)], [[], [53, 47]];
    RepairSample();
    EmptyUpdateInOrder(rules);
    assert cs[..1] == [[]];
    assert OutOfOrderOnes(rules, cs[..1]) == [];
    assert OutOfOrderOnes(rules, cs) == [[47, 53]];
    LastIndexIs([47, 53], 47, 0);
    LastIndexIs([47, 53], 53, 1);
    assert AllHold(rules, [47, 53]);
    RepairAllIs(rules, [[47, 53]], [[47, 53]], 2);
  }
}
