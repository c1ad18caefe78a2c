/**
 * Line clean-up shared by the input helpers: the specification of "the
 * non-empty lines, in order", and the in-place compaction `Trim` that
 * computes it. (Fetching and caching the puzzle input is not modelled.)
 */
module Fetcher {

  /** The entries of `s` that are not the empty string, in their original order. */
  function NonEmpty(s: seq<string>): seq<string>
  {
    if s == [] then []
    else NonEmpty(s[..|s| - 1]) + (if s[|s| - 1] != "" then [s[|s| - 1]] else [])
  }

  /** Appending one line extends the filtered list by that line when it is non-empty. */
  lemma NonEmptySnoc(s: seq<string>, x: string)
    ensures NonEmpty(s + [x]) == NonEmpty(s) + (if x != "" then [x] else [])
  {
    assert (s + [x])[..|s|] == s;
  }

  /** Filtering distributes over concatenation, so it keeps relative order. */
  lemma {:induction false} NonEmptyAppend(a: seq<string>, b: seq<string>)
    ensures NonEmpty(a + b) == NonEmpty(a) + NonEmpty(b)
    decreases |b|
  {
    if b == [] {
      assert a + b == a;
    } else {
      var b' := b[..|b| - 1];
      var x := b[|b| - 1];
      assert a + b == (a + b') + [x];
      assert b == b' + [x];
      NonEmptyAppend(a, b');
      NonEmptySnoc(a + b', x);
      NonEmptySnoc(b', x);
    }
  }

  /**
   * The filtered list holds no empty string, holds exactly the non-empty
   * entries of `s`, and its length is `|s|` minus the number of empty entries.
   */
  lemma {:induction false} NonEmptyFacts(s: seq<string>)
    ensures forall i :: 0 <= i < |NonEmpty(s)| ==> NonEmpty(s)[i] != ""
    ensures forall x :: x in NonEmpty(s) <==> x in s && x != ""
    ensures |NonEmpty(s)| + multiset(s)[""] == |s|
    ensures |NonEmpty(s)| <= |s|
    decreases |s|
  {
    if s != [] {
      var s', x := s[..|s| - 1], s[|s| - 1];
      assert s == s' + [x];
      NonEmptyFacts(s');
      assert multiset(s) == multiset(s') + multiset{x};
      var r := NonEmpty(s);
      assert r == NonEmpty(s') + (if x != "" then [x] else []);
      forall y
        ensures y in r <==> y in s && y != ""
      {
        assert y in s <==> y in s' || y == x;
      }
    }
  }

  /** A list without empty entries is left as it is. */
  lemma {:induction false} NonEmptyIdentity(s: seq<string>)
    requires forall i :: 0 <= i < |s| ==> s[i] != ""
    ensures NonEmpty(s) == s
    decreases |s|
  {
    if s != [] {
      NonEmptyIdentity(s[..|s| - 1]);
    }
  }

  /**
   * Compacts the non-empty entries of `s` to its front, in order, and returns
   * their count `k`; the result is `s[..k]`. Only slots below `k` are written.
   */
  method Trim(s: array<string>) returns (k: nat)
    modifies s
    ensures k <= s.Length
    ensures s[..k] == NonEmpty(old(s[..]))
    ensures s[k..] == old(s[k..])
  {
    ghost var original := s[..];
    var i := 0;
    for j := 0 to s.Length
      invariant i <= j
      invariant s[..i] == NonEmpty(original[..j])
      invariant forall k :: i <= k < s.Length ==> s[k] == original[k]
    {
      var v := s[j];
      assert v == original[j];
      assert original[..j + 1] == original[..j] + [v];
      NonEmptySnoc(original[..j], v);
      if v != "" {
        s[i] := v;
        i := i + 1;
      }
    }
    assert original[..s.Length] == original;
    k := i;
    assert s[k..] == original[k..];
  }
}
