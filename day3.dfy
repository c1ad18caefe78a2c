/**
 * Day 3: a corrupted program holds `mul(a,b)`, `do()` and `don't()`
 * instructions. Part 1 adds up every product; Part 2 adds only the products
 * met while enabled, where `don't()` disables and `do()` re-enables, and the
 * enable flag runs on from one input line into the next. Extracting the
 * instructions with regular expressions is not part of this model: each line
 * arrives as its list of parsed expressions.
 */
module Day3 {
  import opened Common

  datatype Op = Unknown | Mul | Do | Dont

  /** One parsed instruction; the operands matter only for `Mul`. */
  datatype Expr = Expr(op: Op, a: int, b: int)

  /** The value of an instruction: the product for `Mul`, nothing otherwise. */
  function Eval(e: Expr): (r: int)
    ensures e.a >= 0 && e.b >= 0 ==> r >= 0
    ensures r != 0 ==> e.op == Mul && e.a != 0 && e.b != 0
  {
    if e.op == Mul then e.a * e.b else 0
  }

  /** All lines' instructions in input order. */
  function Flatten(lines: seq<seq<Expr>>): seq<Expr>
  {
    if lines == [] then [] else Flatten(lines[..|lines| - 1]) + lines[|lines| - 1]
  }

  /** Whether processing is disabled after running through `es` from the enabled start. */
  function Disabled(es: seq<Expr>): bool
  {
    if es == [] then false
    else
      match es[|es| - 1].op
      case Do => false
      case Dont => true
      case _ => Disabled(es[..|es| - 1])
  }

  /** What the instruction after the prefix `es` adds to the running total. */
  function Contribution(es: seq<Expr>, e: Expr, part: Part): int
  {
    if e.op == Mul && (part == Part1 || !Disabled(es)) then Eval(e) else 0
  }

  /** The total after processing `es` from the start. */
  function Total(es: seq<Expr>, part: Part): int
  {
    if es == [] then 0
    else Total(es[..|es| - 1], part) + Contribution(es[..|es| - 1], es[|es| - 1], part)
  }

  /** One more instruction adds its contribution and updates the flag as `Solve`'s switch does. */
  lemma StepFacts(es: seq<Expr>, e: Expr, part: Part)
    ensures Total(es + [e], part) == Total(es, part) + Contribution(es, e, part)
    ensures Disabled(es + [e]) == match e.op { case Do => false case Dont => true case _ => Disabled(es) }
  {
    assert (es + [e])[..|es|] == es;
  }

  /** The lines up to `i` inclusive flatten to those before `i` followed by line `i`. */
  lemma FlattenSnoc(lines: seq<seq<Expr>>, i: nat)
    requires i < |lines|
    ensures Flatten(lines[..i + 1]) == Flatten(lines[..i]) + lines[i]
  {
    assert lines[..i + 1][..i] == lines[..i];
  }

  /**
   * Folds every line's instructions into the total. The enable flag is
   * declared once, before the first line, so a `don't()` on one line still
   * disables the products of the following lines.
   */
  method Solve(lines: seq<seq<Expr>>, part: Part) returns (total: int)
    ensures total == Total(Flatten(lines), part)
  {
    total := 0;
    var disabled := false;
    for i := 0 to |lines|
      invariant total == Total(Flatten(lines[..i]), part)
      invariant disabled == Disabled(Flatten(lines[..i]))
    {
      ghost var done := Flatten(lines[..i]);
      var line := lines[i];
      assert done + line[..0] == done;
      for j := 0 to |line|
        invariant total == Total(done + line[..j], part)
        invariant disabled == Disabled(done + line[..j])
      {
        var e := line[j];
        assert done + line[..j + 1] == (done + line[..j]) + [e];
        StepFacts(done + line[..j], e, part);
        match e.op {
          case Do => disabled := false;
          case Dont => disabled := true;
          case Mul =>
            if part == Part1 {
              total := total + Eval(e);
            }
            if part == Part2 && !disabled {
              total := total + Eval(e);
            }
          case Unknown =>
        }
      }
      assert line[..|line|] == line;
      FlattenSnoc(lines, i);
    }
    assert lines[..|lines|] == lines;
  }

  /** Whether some `don't()` in `es` is followed by no `do()`. */
  predicate DontInForce(es: seq<Expr>)
  {
    exists j :: 0 <= j < |es| && es[j].op == Dont && forall m :: j < m < |es| ==> es[m].op != Do
  }

  /**
   * The flag is disabled exactly when the last `do()` or `don't()` seen is a
   * `don't()`; with neither seen it is enabled.
   */
  lemma {:induction false} DisabledIff(es: seq<Expr>)
    ensures Disabled(es) <==> DontInForce(es)
    decreases |es|
  {
    if es != [] {
      var p, e := es[..|es| - 1], es[|es| - 1];
      DisabledIff(p);
      if e.op == Dont {
        assert es[|es| - 1].op == Dont;
      } else if e.op == Do {
        assert es[|es| - 1].op == Do;
      } else {
        if DontInForce(es) {
          var j :| 0 <= j < |es| && es[j].op == Dont && forall m :: j < m < |es| ==> es[m].op != Do;
          assert j < |p| && p[j].op == Dont && forall m :: j < m < |p| ==> p[m].op != Do;
        }
        if DontInForce(p) {
          var j :| 0 <= j < |p| && p[j].op == Dont && forall m :: j < m < |p| ==> p[m].op != Do;
          assert es[j].op == Dont && forall m :: j < m < |es| ==> es[m].op != Do;
        }
      }
    }
  }

  /** The sum of the products of all `Mul` instructions. */
  function MulSum(es: seq<Expr>): int
  {
    if es == [] then 0
    else MulSum(es[..|es| - 1]) + (if es[|es| - 1].op == Mul then es[|es| - 1].a * es[|es| - 1].b else 0)
  }

  /** Part 1 ignores `do()` and `don't()`: its total is the sum of all products. */
  lemma {:induction false} Part1IsMulSum(es: seq<Expr>)
    ensures Total(es, Part1) == MulSum(es)
    decreases |es|
  {
    if es != [] {
      Part1IsMulSum(es[..|es| - 1]);
    }
  }

  /** Operands are digit strings, so never negative. */
  predicate NonNegative(es: seq<Expr>)
  {
    forall k :: 0 <= k < |es| ==> es[k].a >= 0 && es[k].b >= 0
  }

  /** With non-negative operands Part 2, which skips some products, never exceeds Part 1. */
  lemma {:induction false} Part2AtMostPart1(es: seq<Expr>)
    requires NonNegative(es)
    ensures 0 <= Total(es, Part2) <= Total(es, Part1)
    decreases |es|
  {
    if es != [] {
      var p, e := es[..|es| - 1], es[|es| - 1];
      assert NonNegative(p) by {
        forall k | 0 <= k < |p|
          ensures p[k].a >= 0 && p[k].b >= 0
        {
          assert p[k] == es[k];
        }
      }
      Part2AtMostPart1(p);
      assert e.a >= 0 && e.b >= 0;
    }
  }

  /** Without any `don't()` the flag never drops, and both parts agree. */
  lemma {:induction false} NoDontSameTotal(es: seq<Expr>)
    requires forall k :: 0 <= k < |es| ==> es[k].op != Dont
    ensures !Disabled(es)
    ensures Total(es, Part2) == Total(es, Part1)
    decreases |es|
  {
    if es != [] {
      NoDontSameTotal(es[..|es| - 1]);
    }
  }

  /** A `don't()` at the end of one line disables a product on the next line. */
  lemma FlagCarriesAcrossLines()
    ensures Total(Flatten([[Expr(Dont, 0, 0)], [Expr(Mul, 2, 3)]]), Part2) == 0
    ensures Total(Flatten([[Expr(Dont, 0, 0)], [Expr(Mul, 2, 3)]]), Part1) == 6
  {
    var lines := [[Expr(Dont, 0, 0)], [Expr(Mul, 2, 3)]];
    assert lines[..1] == [[Expr(Dont, 0, 0)]];
    assert Flatten(lines[..1]) == [Expr(Dont, 0, 0)];
    assert Flatten(lines) == [Expr(Dont, 0, 0), Expr(Mul, 2, 3)];
    var es := Flatten(lines);
    assert es[..1] == [Expr(Dont, 0, 0)];
  }
}
