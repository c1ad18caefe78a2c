/**
 * Day 4: a word search over a grid of letters. Part 1 counts every straight
 * occurrence of X, M, A, S in any of the eight directions; Part 2 counts the
 * cells holding an 'A' that is the centre of two crossing diagonal "MAS"
 * words. The solver visits every cell of the board exactly once, in
 * row-major order, scoring each.
 */
module Day4 {
  import opened Common
  import opened Geometry
  import opened Board
  import Fetcher

  /** The word searched for, letter by letter. */
  const Xmas: seq<char> := ['X', 'M', 'A', 'S']

  /**
   * The eight directions in the order the sum below takes them. The source
   * ranges over a neighbour map, whose order is unspecified; a sum does not
   * depend on it.
   */
  const CompassOrder: seq<Direction> := [Up, Down, Left, Right, Upleft, Upright, Downleft, Downright]

  /**
   * The number of ways the word continues from letter `it` at `p`: 0 when the
   * letter at `p` is wrong, 1 at the last letter; otherwise the sum over the
   * neighbours of `p`, restricted after the first step to the direction
   * `from` the walk came in.
   */
  function CountXmas(v: View, d: Dimension, p: Position, it: int, count: nat, from: Direction): (r: nat)
    requires 0 <= it
    ensures it < |Xmas| && r != 0 ==> p in v && v[p] == Xmas[it]
    decreases |Xmas| - it, 1, 0
  {
    if it > |Xmas| - 1 then count
    else if CharAt(v, p) != Xmas[it] then 0
    else if it == |Xmas| - 1 then 1
    else SumNeighbours(v, d, p, it, count, from, CompassOrder)
  }

  /** The continuations through the neighbours of `p` in the directions `dirs`. */
  function SumNeighbours(v: View, d: Dimension, p: Position, it: int, count: nat, from: Direction, dirs: seq<Direction>): (r: nat)
    requires 0 <= it < |Xmas| - 1
    ensures from != Unspecified && from !in dirs ==> r == 0
    decreases |Xmas| - it, 0, |dirs|
  {
    if dirs == [] then 0
    else
      var n := Neighbours(d, p);
      var dir := dirs[0];
      SumNeighbours(v, d, p, it, count, from, dirs[1..]) +
        (if dir in n && (from == Unspecified || from == dir) then CountXmas(v, d, n[dir], it + 1, count, dir) else 0)
  }

  /** The position `j` steps from `p` in direction `dir`. */
  function Along(p: Position, dir: Direction, j: nat): Position
    decreases j
  {
    if j == 0 then p else Along(Step(p, dir), dir, j - 1)
  }

  /** The letters from `it` on lie on the grid, one per step from `p` in direction `dir`. */
  predicate RayFrom(v: View, p: Position, dir: Direction, it: nat)
    requires it <= |Xmas|
  {
    forall j: nat :: j < |Xmas| - it ==> Along(p, dir, j) in v && v[Along(p, dir, j)] == Xmas[it + j]
  }

  /** The whole word reads from `p` in direction `dir`. */
  predicate XmasRay(v: View, p: Position, dir: Direction)
  {
    RayFrom(v, p, dir, 0)
  }

  /** `v` is a view of a grid of dimension `d`: its keys are exactly the on-grid positions. */
  ghost predicate Fits(v: View, d: Dimension)
  {
    forall p :: p in v <==> CheckPos(d, p)
  }

  /** A ray from letter `it` is its letter at `p` followed by a ray from the next position. */
  lemma RayUnfold(v: View, p: Position, dir: Direction, it: nat)
    requires it < |Xmas|
    ensures RayFrom(v, p, dir, it) <==>
      && p in v && v[p] == Xmas[it]
      && (it < |Xmas| - 1 ==> Step(p, dir) in v && RayFrom(v, Step(p, dir), dir, it + 1))
  {
    assert Along(p, dir, 0) == p;
    if it < |Xmas| - 1 {
      assert Along(p, dir, 1) == Step(p, dir);
      forall j: nat | j < |Xmas| - (it + 1)
        ensures Along(Step(p, dir), dir, j) == Along(p, dir, j + 1)
      {
      }
      if p in v && v[p] == Xmas[it] && Step(p, dir) in v && RayFrom(v, Step(p, dir), dir, it + 1) {
        forall j: nat | j < |Xmas| - it
          ensures Along(p, dir, j) in v && v[Along(p, dir, j)] == Xmas[it + j]
        {
          if j > 0 {
            assert Along(p, dir, j) == Along(Step(p, dir), dir, j - 1);
          }
        }
      }
    }
  }

  /** Over directions without repeats, only `from` itself can contribute once the direction is locked. */
  lemma {:induction false} SumLocked(v: View, d: Dimension, p: Position, it: int, count: nat, from: Direction, dirs: seq<Direction>)
    requires 0 <= it < |Xmas| - 1 && from != Unspecified
    requires forall i, j :: 0 <= i < j < |dirs| ==> dirs[i] != dirs[j]
    ensures SumNeighbours(v, d, p, it, count, from, dirs) ==
      if from in dirs && from in Neighbours(d, p) then CountXmas(v, d, Step(p, from), it + 1, count, from) else 0
    decreases |dirs|
  {
    if dirs != [] {
      SumLocked(v, d, p, it, count, from, dirs[1..]);
      assert from in dirs <==> from == dirs[0] || from in dirs[1..];
    }
  }

  /**
   * After the first step the direction is locked: from letter `it` >= 1 the
   * count is 1 exactly when the rest of the word reads straight on in the
   * direction `from`, and 0 otherwise.
   */
  lemma {:induction false} CountLocked(v: View, d: Dimension, p: Position, it: int, count: nat, from: Direction)
    requires Fits(v, d) && 1 <= it < |Xmas| && from in Compass
    ensures CountXmas(v, d, p, it, count, from) == if RayFrom(v, p, from, it) then 1 else 0
    decreases |Xmas| - it
  {
    if CharAt(v, p) == Xmas[it] && it < |Xmas| - 1 {
      CountLocked(v, d, Step(p, from), it + 1, count, from);
      LockedStep(v, d, p, it, count, from);
    } else {
      RayUnfold(v, p, from, it);
    }
  }

  /** The inductive step of `CountLocked`: a matching letter passes the count on to the next cell. */
  lemma LockedStep(v: View, d: Dimension, p: Position, it: int, count: nat, from: Direction)
    requires Fits(v, d) && 1 <= it < |Xmas| - 1 && from in Compass && CharAt(v, p) == Xmas[it]
    requires CountXmas(v, d, Step(p, from), it + 1, count, from) == if RayFrom(v, Step(p, from), from, it + 1) then 1 else 0
    ensures CountXmas(v, d, p, it, count, from) == if RayFrom(v, p, from, it) then 1 else 0
  {
    RayUnfold(v, p, from, it);
    SumLocked(v, d, p, it, count, from, CompassOrder);
    CompassOrderIsCompass();
  }

  /** `CompassOrder` lists each compass direction exactly once. */
  lemma CompassOrderIsCompass()
    ensures forall dir :: dir in CompassOrder <==> dir in Compass
    ensures forall i, j :: 0 <= i < j < |CompassOrder| ==> CompassOrder[i] != CompassOrder[j]
    ensures |CompassOrder| == 8
  {
    forall i | 0 <= i < |CompassOrder|
      ensures CompassRank(CompassOrder[i]) == i
    {
    }
  }

  /** The position of each direction in `CompassOrder`. */
  function CompassRank(dir: Direction): int
  {
    match dir
    case Up => 0
    case Down => 1
    case Left => 2
    case Right => 3
    case Upleft => 4
    case Upright => 5
    case Downleft => 6
    case Downright => 7
    case Unspecified => -1
  }

  /** The directions among `dirs` in which the whole word reads from `p`. */
  function RaysIn(v: View, p: Position, dirs: seq<Direction>): set<Direction>
  {
    set dir | dir in dirs && XmasRay(v, p, dir)
  }

  /** With an 'X' at `p`, each direction of `dirs` adds one exactly when the word reads that way. */
  lemma {:induction false} SumIsRays(v: View, d: Dimension, p: Position, dirs: seq<Direction>)
    requires Fits(v, d) && CharAt(v, p) == Xmas[0]
    requires forall i :: 0 <= i < |dirs| ==> dirs[i] in Compass
    requires forall i, j :: 0 <= i < j < |dirs| ==> dirs[i] != dirs[j]
    ensures SumNeighbours(v, d, p, 0, 0, Unspecified, dirs) == |RaysIn(v, p, dirs)|
    ensures |RaysIn(v, p, dirs)| <= |dirs|
    decreases |dirs|
  {
    if dirs != [] {
      var dir, rest := dirs[0], dirs[1..];
      SumIsRays(v, d, p, rest);
      TermIsRay(v, d, p, dir);
      RaysInCons(v, p, dirs);
      assert dir !in rest;
    }
  }

  /** One direction's term of the first-letter sum is 1 exactly when the word reads that way. */
  lemma TermIsRay(v: View, d: Dimension, p: Position, dir: Direction)
    requires Fits(v, d) && CharAt(v, p) == Xmas[0] && dir in Compass
    ensures (if dir in Neighbours(d, p) then CountXmas(v, d, Neighbours(d, p)[dir], 1, 0, dir) else 0) ==
      if XmasRay(v, p, dir) then 1 else 0
  {
    if dir in Neighbours(d, p) {
      TermOnGrid(v, d, p, dir);
    } else {
      TermOffGrid(v, d, p, dir);
    }
  }

  /** `TermIsRay` when the step in direction `dir` stays on the grid. */
  lemma TermOnGrid(v: View, d: Dimension, p: Position, dir: Direction)
    requires Fits(v, d) && CharAt(v, p) == Xmas[0] && dir in Compass && dir in Neighbours(d, p)
    ensures CountXmas(v, d, Neighbours(d, p)[dir], 1, 0, dir) == if XmasRay(v, p, dir) then 1 else 0
  {
    var q := Step(p, dir);
    assert Neighbours(d, p)[dir] == q;
    CountLocked(v, d, q, 1, 0, dir);
    RayUnfold(v, p, dir, 0);
    assert p in v && v[p] == Xmas[0];
    assert q in v;
  }

  /** `TermIsRay` when the step in direction `dir` leaves the grid: the word cannot read that way. */
  lemma TermOffGrid(v: View, d: Dimension, p: Position, dir: Direction)
    requires Fits(v, d) && dir in Compass && dir !in Neighbours(d, p)
    ensures !XmasRay(v, p, dir)
  {
    assert Step(p, dir) !in v;
    RayUnfold(v, p, dir, 0);
  }

  lemma RaysInCons(v: View, p: Position, dirs: seq<Direction>)
    requires dirs != []
    ensures RaysIn(v, p, dirs) == RaysIn(v, p, dirs[1..]) + (if XmasRay(v, p, dirs[0]) then {dirs[0]} else {})
  {
    forall dir
      ensures dir in dirs <==> dir == dirs[0] || dir in dirs[1..]
    {
      assert dirs == [dirs[0]] + dirs[1..];
    }
  }

  /**
   * `countXMAS` started at letter 0 with no direction counts the directions
   * in which the whole word reads from `p`, so it is at most 8.
   */
  lemma CountIsRays(v: View, d: Dimension, p: Position)
    requires Fits(v, d)
    ensures CountXmas(v, d, p, 0, 0, Unspecified) == |set dir | dir in Compass && XmasRay(v, p, dir)|
    ensures CountXmas(v, d, p, 0, 0, Unspecified) <= 8
  {
    CompassOrderIsCompass();
    assert RaysIn(v, p, CompassOrder) == set dir | dir in Compass && XmasRay(v, p, dir);
    if CharAt(v, p) == Xmas[0] {
      SumIsRays(v, d, p, CompassOrder);
    } else {
      forall dir
        ensures !XmasRay(v, p, dir)
      {
        RayUnfold(v, p, dir, 0);
      }
      assert RaysIn(v, p, CompassOrder) == {};
    }
  }

  /** The diagonals in the order `isMAS` inspects them. */
  const MasOrder: seq<Direction> := [Upleft, Downleft, Upright, Downright]

  /** The letter of the diagonal neighbour of `p` in direction `dir`, when that neighbour exists. */
  function Diagonal(v: View, d: Dimension, p: Position, dir: Direction): Option<char>
  {
    var n := Neighbours(d, p);
    if dir in n && n[dir] in v then Some(v[n[dir]]) else None
  }

  /** How many of the diagonals `dirs` hold the letter `c`. */
  function Tally(v: View, d: Dimension, p: Position, c: char, dirs: seq<Direction>): nat
  {
    if dirs == [] then 0
    else Tally(v, d, p, c, dirs[1..]) + (if Diagonal(v, d, p, dirs[0]) == Some(c) then 1 else 0)
  }

  /** The letter recorded for diagonal `dir`; the zero character when it has none. */
  function Recorded(v: View, d: Dimension, p: Position, dir: Direction): char
  {
    match Diagonal(v, d, p, dir)
    case Some(c) => c
    case None => 0 as char
  }

  /**
   * Whether `p` is the centre of an X of two "MAS" words: an 'A' with two 'M'
   * and two 'S' on its diagonals, and different letters at its upper-left and
   * lower-right corners.
   */
  function IsMas(v: View, d: Dimension, p: Position): (r: bool)
    ensures r ==> p in v && v[p] == 'A'
    ensures r ==> Recorded(v, d, p, Upleft) != Recorded(v, d, p, Downright)
  {
    if p !in v then false
    else if v[p] != Xmas[2] then false
    else if Tally(v, d, p, Xmas[1], MasOrder) != 2 || Tally(v, d, p, Xmas[3], MasOrder) != 2 then false
    else if Recorded(v, d, p, Upleft) == Recorded(v, d, p, Downright) then false
    else true
  }

  /** One of `a`, `b` is 'M' and the other 'S': a diagonal read either way is "MAS". */
  predicate MasPair(a: char, b: char)
  {
    (a == 'M' && b == 'S') || (a == 'S' && b == 'M')
  }

  /** The tally over the four diagonals, term by term. */
  lemma TallyFour(v: View, d: Dimension, p: Position, c: char)
    ensures Tally(v, d, p, c, MasOrder) ==
      (if Diagonal(v, d, p, Upleft) == Some(c) then 1 else 0) +
      (if Diagonal(v, d, p, Downleft) == Some(c) then 1 else 0) +
      (if Diagonal(v, d, p, Upright) == Some(c) then 1 else 0) +
      (if Diagonal(v, d, p, Downright) == Some(c) then 1 else 0)
  {
    var s1, s2, s3 := [Downleft, Upright, Downright], [Upright, Downright], [Downright];
    var ul := if Diagonal(v, d, p, Upleft) == Some(c) then 1 else 0;
    var dl := if Diagonal(v, d, p, Downleft) == Some(c) then 1 else 0;
    var ur := if Diagonal(v, d, p, Upright) == Some(c) then 1 else 0;
    var dr := if Diagonal(v, d, p, Downright) == Some(c) then 1 else 0;
    assert s3[1..] == [];
    assert Tally(v, d, p, c, s3) == dr;
    assert s2[1..] == s3;
    assert Tally(v, d, p, c, s2) == dr + ur;
    assert s1[1..] == s2;
    assert Tally(v, d, p, c, s1) == dr + ur + dl;
    assert MasOrder[1..] == s1;
  }

  /**
   * The X-MAS rule in full: `p` holds an 'A', all four diagonal neighbours
   * are on the grid, and each diagonal through `p` reads "MAS" one way or the
   * other.
   */
  lemma IsMasIff(v: View, d: Dimension, p: Position)
    requires Fits(v, d)
    ensures IsMas(v, d, p) <==>
      && p in v && v[p] == 'A'
      && Step(p, Upleft) in v && Step(p, Downright) in v && Step(p, Upright) in v && Step(p, Downleft) in v
      && MasPair(v[Step(p, Upleft)], v[Step(p, Downright)])
      && MasPair(v[Step(p, Downleft)], v[Step(p, Upright)])
  {
    TallyFour(v, d, p, 'M');
    TallyFour(v, d, p, 'S');
  }

  /** What the cell `c` adds to the answer of the chosen half. */
  function Score(v: View, d: Dimension, c: Position, part: Part): nat
  {
    if part == Part1 then CountXmas(v, d, c, 0, 0, Unspecified)
    else if IsMas(v, d, c) then 1 else 0
  }

  /** The answer accumulated over the cells `cells`. */
  function Total(v: View, d: Dimension, cells: seq<Position>, part: Part): nat
  {
    if cells == [] then 0
    else Total(v, d, cells[..|cells| - 1], part) + Score(v, d, cells[|cells| - 1], part)
  }

  /** The puzzle answer: every cell of the grid scored once. */
  function Answer(d: Dimension, v: View, part: Part): nat
  {
    Total(v, d, Cells(d), part)
  }

  /**
   * Visits the first unvisited cell until none is left, scoring the cell
   * just visited: the number of words starting there (Part 1) or whether it
   * is an X-MAS centre (Part 2). Each pass marks one more cell of the
   * row-major scan, so the loop ends after every cell was scored once.
   */
  method Solve(b: Board<char>, part: Part) returns (total: int)
    requires b.Valid() && b.visits == map[]
    modifies b`visits, b`pos
    ensures total == Answer(b.GetDimension(), b.View(), part)
  {
    var d := b.GetDimension();
    ghost var view := b.View();
    ghost var cells := Cells(d);
    CellsAreTheGrid(d);
    total := 0;
    ghost var k := 0;
    while true
      invariant b.Valid() && 0 <= k <= |cells|
      invariant b.View() == view
      invariant forall i :: 0 <= i < k ==> cells[i] in b.visits
      invariant forall i :: k <= i < |cells| ==> cells[i] !in b.visits
      invariant total == Total(view, d, cells[..k], part)
      decreases |cells| - k
    {
      var v := NextUnvisited(b, cells, k);
      if |v| == 0 {
        break;
      }
      ghost var before := b.visits;
      var score := VisitAndScore(b, v[0], part);
      ScanAdvance(cells, k, before, b.visits);
      total := total + score;
      TotalSnoc(view, d, cells, k, part);
      k := k + 1;
    }
    assert cells[..|cells|] == cells;
  }

  /**
   * `GetUnvisited` while exactly the first `k` cells of the row-major scan
   * are visited: the cells from `k` on, so its head is cell `k`.
   */
  method NextUnvisited(b: Board<char>, ghost cells: seq<Position>, ghost k: nat) returns (v: seq<Position>)
    requires cells == Cells(b.GetDimension()) && k <= |cells|
    requires forall i :: 0 <= i < k ==> cells[i] in b.visits
    requires forall i :: k <= i < |cells| ==> cells[i] !in b.visits
    ensures v == cells[k..]
  {
    v := b.GetUnvisited();
    UnvisitedSuffix(cells, b.visits, k);
  }

  /** Visiting cell `k` of a scan without repeats extends the visited prefix by one. */
  lemma ScanAdvance(cells: seq<Position>, k: nat, before: map<Position, nat>, after: map<Position, nat>)
    requires RowMajor(cells) && k < |cells|
    requires forall i :: 0 <= i < k ==> cells[i] in before
    requires forall i :: k <= i < |cells| ==> cells[i] !in before
    requires forall q :: q in after <==> q in before || q == cells[k]
    ensures forall i :: 0 <= i < k + 1 ==> cells[i] in after
    ensures forall i :: k + 1 <= i < |cells| ==> cells[i] !in after
  {
    forall i | k < i < |cells|
      ensures cells[i] != cells[k]
    {
      RowMajorDistinct(cells, k, i);
    }
  }

  /** One pass of `Solve`'s loop: visits the on-grid cell `p` and scores it. */
  method VisitAndScore(b: Board<char>, p: Position, part: Part) returns (score: nat)
    requires b.Valid() && CheckPos(b.GetDimension(), p)
    modifies b`visits, b`pos
    ensures b.Valid()
    ensures forall q :: q in b.visits <==> q in old(b.visits) || q == p
    ensures score == Score(b.View(), b.GetDimension(), p, part)
  {
    var o := b.Visit(p);
    var d := b.GetDimension();
    score := 0;
    if part == Part1 {
      score := score + CountXmas(b.View(), d, p, 0, 0, Unspecified);
    }
    if part == Part2 {
      var mas := IsMas(b.View(), d, b.GetPosition());
      if mas {
        score := score + 1;
      }
    }
  }

  lemma TotalSnoc(v: View, d: Dimension, cells: seq<Position>, k: nat, part: Part)
    requires k < |cells|
    ensures Total(v, d, cells[..k + 1], part) == Total(v, d, cells[..k], part) + Score(v, d, cells[k], part)
  {
    assert cells[..k + 1][..k] == cells[..k];
  }

  /** Part 1 scores every cell by its number of words, at most 8, so the answer is at most 8*N*M. */
  lemma {:induction false} Part1Bound(v: View, d: Dimension, cells: seq<Position>)
    requires Fits(v, d)
    ensures Total(v, d, cells, Part1) <= 8 * |cells|
    decreases |cells|
  {
    if cells != [] {
      Part1Bound(v, d, cells[..|cells| - 1]);
      CountIsRays(v, d, cells[|cells| - 1]);
    }
  }

  /** Part 2 counts distinct cells: the answer is the number of X-MAS centres on the grid. */
  lemma Part2IsCentres(d: Dimension, v: View)
    ensures Answer(d, v, Part2) == |set c | c in InBounds(d) && IsMas(v, d, c)|
  {
    var t := c => IsMas(v, d, c);
    Part2IsCountIf(v, d, t, Cells(d));
    CellsAreTheGrid(d);
    CountIfIsSetSize(t, Cells(d));
    assert Satisfying(t, Cells(d)) == set c | c in InBounds(d) && IsMas(v, d, c);
  }

  lemma {:induction false} Part2IsCountIf(v: View, d: Dimension, t: Position -> bool, cells: seq<Position>)
    requires forall c :: t(c) == IsMas(v, d, c)
    ensures Total(v, d, cells, Part2) == CountIf(t, cells)
    decreases |cells|
  {
    if cells != [] {
      Part2IsCountIf(v, d, t, cells[..|cells| - 1]);
    }
  }

  /** The grid M.S / .A. / M.S: the centre is an X-MAS centre, the corners are not. */
  lemma MasSample()
    ensures var v := map[
        Position(0, 0) := 'M', Position(1, 0) := '.', Position(2, 0) := 'S',
        Position(0, 1) := '.', Position(1, 1) := 'A', Position(2, 1) := '.',
        Position(0, 2) := 'M', Position(1, 2) := '.', Position(2, 2) := 'S'];
      IsMas(v, Dimension(3, 3), Position(1, 1)) && !IsMas(v, Dimension(3, 3), Position(0, 0))
  {
    var v := map[
        Position(0, 0) := 'M', Position(1, 0) := '.', Position(2, 0) := 'S',
        Position(0, 1) := '.', Position(1, 1) := 'A', Position(2, 1) := '.',
        Position(0, 2) := 'M', Position(1, 2) := '.', Position(2, 2) := 'S'];
    assert Fits(v, Dimension(3, 3)) by {
      forall p
        ensures p in v <==> CheckPos(Dimension(3, 3), p)
      {
        if CheckPos(Dimension(3, 3), p) {
          assert p.x in {0, 1, 2} && p.y in {0, 1, 2};
        }
      }
    }
    IsMasIff(v, Dimension(3, 3), Position(1, 1));
  }

  /** The one-row grid XMAS. */
  function XmasRow(): View
  {
    map[Position(0, 0) := 'X', Position(1, 0) := 'M', Position(2, 0) := 'A', Position(3, 0) := 'S']
  }

  lemma XmasRowFits()
    ensures Fits(XmasRow(), Dimension(1, 4))
  {
    forall q
      ensures q in XmasRow() <==> CheckPos(Dimension(1, 4), q)
    {
      if CheckPos(Dimension(1, 4), q) {
        assert q.x in {0, 1, 2, 3} && q.y == 0;
      }
    }
  }

  /** In the one-row grid XMAS the word reads from the first cell to the right, and in no other direction. */
  lemma XmasRowRays()
    ensures (set dir | dir in Compass && XmasRay(XmasRow(), Position(0, 0), dir)) == {Right}
  {
    var v, p := XmasRow(), Position(0, 0);
    forall dir | dir in Compass && dir != Right
      ensures !XmasRay(v, p, dir)
    {
      RayUnfold(v, p, dir, 0);
    }
    assert XmasRay(v, p, Right) by {
      assert Along(p, Right, 1) == Position(1, 0);
      assert Along(p, Right, 2) == Position(2, 0);
      assert Along(p, Right, 3) == Position(3, 0);
    }
  }

  /** The word search on the one-row grid XMAS counts one word at its first cell. */
  lemma XmasSample()
    ensures CountXmas(XmasRow(), Dimension(1, 4), Position(0, 0), 0, 0, Unspecified) == 1
  {
    XmasRowFits();
    XmasRowRays();
    CountIsRays(XmasRow(), Dimension(1, 4), Position(0, 0));
  }

  /** The 5 by 6 grid with four words, one starting in each of rows 0, 1, 3 and 4. */
  const SmallGrid: seq<string> := ["..X...", ".SAMX.", ".A..A.", "XMAS.S", ".X...."]

  /** The word reads from `p` along `dir` exactly when its four letters are there, off-grid cells reading as the zero character. */
  lemma XmasRayIff(v: View, p: Position, dir: Direction)
    ensures XmasRay(v, p, dir) <==>
      && CharAt(v, p) == 'X'
      && CharAt(v, Step(p, dir)) == 'M'
      && CharAt(v, Step(Step(p, dir), dir)) == 'A'
      && CharAt(v, Step(Step(Step(p, dir), dir), dir)) == 'S'
  {
    var p1 := Step(p, dir);
    var p2 := Step(p1, dir);
    var p3 := Step(p2, dir);
    RayUnfold(v, p, dir, 0);
    RayUnfold(v, p1, dir, 1);
    RayUnfold(v, p2, dir, 2);
    RayUnfold(v, p3, dir, 3);
  }

  /** The answer over a concatenation of cell lists is the sum of the answers over the parts. */
  lemma {:induction false} TotalAppend(v: View, d: Dimension, a: seq<Position>, b: seq<Position>, part: Part)
    ensures Total(v, d, a + b, part) == Total(v, d, a, part) + Total(v, d, b, part)
    decreases |b|
  {
    if b == [] {
      assert a + b == a;
    } else {
      assert (a + b)[..|a + b| - 1] == a + b[..|b| - 1];
      TotalAppend(v, d, a, b[..|b| - 1], part);
    }
  }

  /** Cells without an 'X' add nothing to Part 1: the first `k` cells of a row score as the first `a`. */
  lemma {:induction false} RowSkip(v: View, d: Dimension, y: int, a: nat, k: nat)
    requires a <= k
    requires forall x :: a <= x < k ==> CharAt(v, Position(x, y)) != Xmas[0]
    ensures Total(v, d, Row(y, k), Part1) == Total(v, d, Row(y, a), Part1)
    decreases k
  {
    if a < k {
      RowSkip(v, d, y, a, k - 1);
      assert Row(y, k)[..|Row(y, k)| - 1] == Row(y, k - 1);
    }
  }

  /** A cell from which the word reads in exactly one direction scores 1 in Part 1. */
  lemma SingleRay(v: View, d: Dimension, p: Position, ray: Direction)
    requires Fits(v, d)
    requires forall dir :: dir in Compass ==> (XmasRay(v, p, dir) <==> dir == ray)
    requires ray in Compass
    ensures Score(v, d, p, Part1) == 1
  {
    CountIsRays(v, d, p);
    assert (set dir | dir in Compass && XmasRay(v, p, dir)) == {ray};
  }

  /** A row whose only 'X' is at column `x0` scores in Part 1 what that cell scores. */
  lemma RowWithOneStart(v: View, d: Dimension, y: int, x0: nat, m: nat)
    requires x0 < m
    requires forall x :: 0 <= x < m && x != x0 ==> CharAt(v, Position(x, y)) != Xmas[0]
    ensures Total(v, d, Row(y, m), Part1) == Score(v, d, Position(x0, y), Part1)
  {
    RowSkip(v, d, y, x0 + 1, m);
    RowSkip(v, d, y, 0, x0);
    RowFacts(y, x0);
    assert Row(y, x0 + 1)[..x0] == Row(y, x0);
  }

  /** Row 0 of `SmallGrid` has its only 'X' at column 2. */
  lemma SmallGridRow0(v: View)
    requires v == TextView(SmallGrid, 6)
    ensures Total(v, Dimension(5, 6), Row(0, 6), Part1) == Score(v, Dimension(5, 6), Position(2, 0), Part1)
  {
    RowWithOneStart(v, Dimension(5, 6), 0, 2, 6);
  }

  /** The word reads from column 2 of row 0 of `SmallGrid` (down and to the right from column 2) in direction Downright only. */
  lemma SmallGridStart0(v: View)
    requires v == TextView(SmallGrid, 6)
    ensures Score(v, Dimension(5, 6), Position(2, 0), Part1) == 1
  {
    forall dir | dir in Compass
      ensures XmasRay(v, Position(2, 0), dir) <==> dir == Downright
    {
      XmasRayIff(v, Position(2, 0), dir);
    }
    SingleRay(v, Dimension(5, 6), Position(2, 0), Downright);
  }

  /** Row 1 of `SmallGrid` has its only 'X' at column 4. */
  lemma SmallGridRow1(v: View)
    requires v == TextView(SmallGrid, 6)
    ensures Total(v, Dimension(5, 6), Row(1, 6), Part1) == Score(v, Dimension(5, 6), Position(4, 1), Part1)
  {
    RowWithOneStart(v, Dimension(5, 6), 1, 4, 6);
  }

  /** The word reads from column 4 of row 1 of `SmallGrid` (leftwards from column 4) in direction Left only. */
  lemma SmallGridStart1(v: View)
    requires v == TextView(SmallGrid, 6)
    ensures Score(v, Dimension(5, 6), Position(4, 1), Part1) == 1
  {
    forall dir | dir in Compass
      ensures XmasRay(v, Position(4, 1), dir) <==> dir == Left
    {
      XmasRayIff(v, Position(4, 1), dir);
    }
    SingleRay(v, Dimension(5, 6), Position(4, 1), Left);
  }

  /** Row 2 of `SmallGrid` holds no 'X'. */
  lemma SmallGridRow2(v: View)
    requires v == TextView(SmallGrid, 6)
    ensures Total(v, Dimension(5, 6), Row(2, 6), Part1) == 0
  {
    RowSkip(v, Dimension(5, 6), 2, 0, 6);
  }

  /** Row 3 of `SmallGrid` has its only 'X' at column 0. */
  lemma SmallGridRow3(v: View)
    requires v == TextView(SmallGrid, 6)
    ensures Total(v, Dimension(5, 6), Row(3, 6), Part1) == Score(v, Dimension(5, 6), Position(0, 3), Part1)
  {
    RowWithOneStart(v, Dimension(5, 6), 3, 0, 6);
  }

  /** The word reads from column 0 of row 3 of `SmallGrid` (rightwards from column 0) in direction Right only. */
  lemma SmallGridStart3(v: View)
    requires v == TextView(SmallGrid, 6)
    ensures Score(v, Dimension(5, 6), Position(0, 3), Part1) == 1
  {
    forall dir | dir in Compass
      ensures XmasRay(v, Position(0, 3), dir) <==> dir == Right
    {
      XmasRayIff(v, Position(0, 3), dir);
    }
    SingleRay(v, Dimension(5, 6), Position(0, 3), Right);
  }

  /** Row 4 of `SmallGrid` has its only 'X' at column 1. */
  lemma SmallGridRow4(v: View)
    requires v == TextView(SmallGrid, 6)
    ensures Total(v, Dimension(5, 6), Row(4, 6), Part1) == Score(v, Dimension(5, 6), Position(1, 4), Part1)
  {
    RowWithOneStart(v, Dimension(5, 6), 4, 1, 6);
  }

  /** The word reads from column 1 of row 4 of `SmallGrid` (upwards from column 1) in direction Up only. */
  lemma SmallGridStart4(v: View)
    requires v == TextView(SmallGrid, 6)
    ensures Score(v, Dimension(5, 6), Position(1, 4), Part1) == 1
  {
    forall dir | dir in Compass
      ensures XmasRay(v, Position(1, 4), dir) <==> dir == Up
    {
      XmasRayIff(v, Position(1, 4), dir);
    }
    SingleRay(v, Dimension(5, 6), Position(1, 4), Up);
  }

  /**
   * `SmallGrid` is a well-formed input: `ParseRune` accepts it and builds a
   * 5 by 6 board whose view is `TextView(SmallGrid, 6)`.
   */
  lemma SmallGridParses()
    ensures EmptyLinesTrailing(SmallGrid) && Rectangular(SmallGrid)
    ensures Fetcher.NonEmpty(SmallGrid) == SmallGrid && |SmallGrid[0]| == 6
  {
    Fetcher.NonEmptyIdentity(SmallGrid);
  }

  /** Part 1 on the view of `SmallGrid`, the board `ParseRune` builds from it, finds 4 words. */
  lemma SmallGridSample(v: View)
    requires v == TextView(SmallGrid, 6)
    ensures Answer(Dimension(5, 6), v, Part1) == 4
  {
    var d := Dimension(5, 6);
    SmallGridStart0(v);
    SmallGridStart1(v);
    SmallGridStart3(v);
    SmallGridStart4(v);
    SmallGridRow0(v);
    SmallGridRow1(v);
    SmallGridRow2(v);
    SmallGridRow3(v);
    SmallGridRow4(v);
    ScanRowDone(0, 6);
    ScanRowDone(1, 6);
    ScanRowDone(2, 6);
    ScanRowDone(3, 6);
    ScanRowDone(4, 6);
    TotalAppend(v, d, CellsUpTo(0, 6), Row(0, 6), Part1);
    TotalAppend(v, d, CellsUpTo(1, 6), Row(1, 6), Part1);
    TotalAppend(v, d, CellsUpTo(2, 6), Row(2, 6), Part1);
    TotalAppend(v, d, CellsUpTo(3, 6), Row(3, 6), Part1);
    TotalAppend(v, d, CellsUpTo(4, 6), Row(4, 6), Part1);
  }
}
