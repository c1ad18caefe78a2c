/**
 * Grid geometry: positions, dimensions, the nine-valued direction enumeration
 * with its cardinal turns, bounds checking, the eight-way neighbour resolver,
 * and the row-major enumeration of a grid's cells that every scan of the board
 * follows (outer loop over rows, inner loop over columns).
 */
module Geometry {

  /** A cell: `x` is the column, `y` the row. */
  datatype Position = Position(x: int, y: int)

  /** Grid bounds: `n` rows, `m` columns. */
  datatype Dimension = Dimension(n: int, m: int)

  datatype Direction =
    | Unspecified
    | Up | Down | Left | Right
    | Upleft | Upright | Downleft | Downright

  /** A position together with a facing direction (the source's PositionWithDirection). */
  datatype Pose = Pose(pos: Position, dir: Direction)

  /** The eight compass directions, i.e. every direction except `Unspecified`. */
  const Compass: set<Direction> := {Up, Down, Left, Right, Upleft, Upright, Downleft, Downright}

  /** The four diagonal directions. */
  const Diagonals: set<Direction> := {Upleft, Upright, Downleft, Downright}

  predicate IsCardinal(d: Direction) {
    d == Up || d == Right || d == Down || d == Left
  }

  /** Clockwise rank of a cardinal direction: Up 0, Right 1, Down 2, Left 3. */
  function ClockIndex(d: Direction): int {
    match d
    case Up => 0
    case Right => 1
    case Down => 2
    case Left => 3
    case _ => -1
  }

  /** True iff `p` lies inside a grid of dimension `d`. */
  function CheckPos(d: Dimension, p: Position): (r: bool)
    ensures r <==> 0 <= p.x < d.m && 0 <= p.y < d.n
  {
    if p.x < 0 || p.x >= d.m then false
    else if p.y < 0 || p.y >= d.n then false
    else true
  }

  /** The set of in-bounds positions of a grid of dimension `d`. */
  function InBounds(d: Dimension): (r: set<Position>)
    ensures forall p :: p in r <==> CheckPos(d, p)
  {
    set x, y | 0 <= x < d.m && 0 <= y < d.n :: Position(x, y)
  }

  /** The next cardinal direction clockwise; no rotation is defined for the rest. */
  function TurnRight(d: Direction): (r: Direction)
    ensures IsCardinal(d) ==> IsCardinal(r) && ClockIndex(r) == (ClockIndex(d) + 1) % 4
    ensures !IsCardinal(d) ==> r == Unspecified
  {
    match d
    case Up => Right
    case Right => Down
    case Down => Left
    case Left => Up
    case _ => Unspecified
  }

  /** The next cardinal direction counter-clockwise; no rotation is defined for the rest. */
  function TurnLeft(d: Direction): (r: Direction)
    ensures IsCardinal(d) ==> IsCardinal(r) && ClockIndex(r) == (ClockIndex(d) + 3) % 4
    ensures !IsCardinal(d) ==> r == Unspecified
  {
    match d
    case Up => Left
    case Left => Down
    case Down => Right
    case Right => Up
    case _ => Unspecified
  }

  /** Turning left undoes turning right and vice versa, on the four cardinals. */
  lemma TurnLeftInvertsTurnRight(d: Direction)
    requires IsCardinal(d)
    ensures TurnLeft(TurnRight(d)) == d && TurnRight(TurnLeft(d)) == d
  {
  }

  /** Four right turns bring a cardinal direction back to itself, and no fewer do. */
  lemma TurnRightPeriodFour(d: Direction)
    requires IsCardinal(d)
    ensures TurnRight(TurnRight(TurnRight(TurnRight(d)))) == d
    ensures TurnRight(d) != d && TurnRight(TurnRight(d)) != d && TurnRight(TurnRight(TurnRight(d))) != d
  {
  }

  /** The position one step from `p` in direction `d` (no step for `Unspecified`). */
  function Step(p: Position, d: Direction): Position {
    match d
    case Unspecified => p
    case Up => Position(p.x, p.y - 1)
    case Down => Position(p.x, p.y + 1)
    case Left => Position(p.x - 1, p.y)
    case Right => Position(p.x + 1, p.y)
    case Upleft => Position(p.x - 1, p.y - 1)
    case Upright => Position(p.x + 1, p.y - 1)
    case Downleft => Position(p.x - 1, p.y + 1)
    case Downright => Position(p.x + 1, p.y + 1)
  }

  /** The in-bounds neighbours of `p`, keyed by the direction that leads to them. */
  function Neighbours(d: Dimension, p: Position): map<Direction, Position> {
    map dir | dir in Compass && CheckPos(d, Step(p, dir)) :: Step(p, dir)
  }

  /** A map with the neighbour map's keys and entries is the neighbour map. */
  lemma NeighboursExt(d: Dimension, p: Position, m: map<Direction, Position>)
    requires forall dir :: dir in m <==> dir in Compass && CheckPos(d, Step(p, dir))
    requires forall dir :: dir in m ==> m[dir] == Step(p, dir)
    ensures m == Neighbours(d, p)
  {
  }

  /** The eight offsets around `p`, before any bounds check. */
  function Offsets(p: Position): (r: map<Direction, Position>)
    ensures r.Keys == Compass
    ensures forall dir :: dir in r ==> r[dir] == Step(p, dir)
  {
    map[
      Up := Position(p.x, p.y - 1),
      Down := Position(p.x, p.y + 1),
      Left := Position(p.x - 1, p.y),
      Right := Position(p.x + 1, p.y),
      Upleft := Position(p.x - 1, p.y - 1),
      Upright := Position(p.x + 1, p.y - 1),
      Downleft := Position(p.x - 1, p.y + 1),
      Downright := Position(p.x + 1, p.y + 1)]
  }

  /**
   * The neighbour resolver: fill in all eight offsets, then visit the keys in
   * any order, deleting every entry that falls outside the grid.
   */
  method GetNeighbours(d: Dimension, p: Position) returns (neighbours: map<Direction, Position>)
    ensures forall dir :: dir in neighbours <==> dir in Compass && CheckPos(d, Step(p, dir))
    ensures forall dir :: dir in neighbours ==> neighbours[dir] == Step(p, dir)
  {
    neighbours := Offsets(p);
    var remaining := neighbours.Keys;
    while remaining != {}
      invariant remaining <= Compass
      invariant forall dir :: dir in neighbours ==> neighbours[dir] == Step(p, dir)
      invariant forall dir :: dir in neighbours <==> dir in Compass && (dir !in remaining ==> CheckPos(d, Step(p, dir)))
      decreases |remaining|
    {
      var direction :| direction in remaining;
      if !CheckPos(d, neighbours[direction]) {
        neighbours := neighbours - {direction};
      }
      remaining := remaining - {direction};
    }
  }

  /** A grid without cells gives no neighbours, and neither does the one cell of a 1x1 grid. */
  lemma NeighboursOfTinyGrid(d: Dimension, p: Position)
    requires d.n <= 0 || d.m <= 0 || (d.n == 1 && d.m == 1 && CheckPos(d, p))
    ensures Neighbours(d, p) == map[]
  {
    forall dir | dir in Compass
      ensures !CheckPos(d, Step(p, dir))
    {
    }
  }

  /** Which of the eight offsets survive the bounds check, one by one. */
  lemma NeighbourKeys(d: Dimension, p: Position)
    requires CheckPos(d, p)
    ensures var keys := Neighbours(d, p).Keys;
      && (Up in keys <==> p.y > 0)
      && (Down in keys <==> p.y < d.n - 1)
      && (Left in keys <==> p.x > 0)
      && (Right in keys <==> p.x < d.m - 1)
      && (Upleft in keys <==> p.y > 0 && p.x > 0)
      && (Upright in keys <==> p.y > 0 && p.x < d.m - 1)
      && (Downleft in keys <==> p.y < d.n - 1 && p.x > 0)
      && (Downright in keys <==> p.y < d.n - 1 && p.x < d.m - 1)
      && Unspecified !in keys
  {
  }

  lemma CornerNeighbours(d: Dimension, p: Position)
    requires d.n >= 2 && d.m >= 2 && CheckPos(d, p)
    requires (p.x == 0 || p.x == d.m - 1) && (p.y == 0 || p.y == d.n - 1)
    ensures |Neighbours(d, p)| == 3
  {
    var keys := Neighbours(d, p).Keys;
    NeighbourKeys(d, p);
    if p.y == 0 && p.x == 0 {
      assert keys == {Right, Down, Downright};
    } else if p.y == 0 {
      assert keys == {Left, Down, Downleft};
    } else if p.x == 0 {
      assert keys == {Right, Up, Upright};
    } else {
      assert keys == {Left, Up, Upleft};
    }
  }

  /** A cell on the top or bottom row, away from the corners. */
  lemma RowEdgeNeighbours(d: Dimension, p: Position)
    requires d.n >= 2 && 0 < p.x < d.m - 1 && (p.y == 0 || p.y == d.n - 1)
    ensures |Neighbours(d, p)| == 5
  {
    var keys := Neighbours(d, p).Keys;
    NeighbourKeys(d, p);
    if p.y == 0 {
      assert keys == {Left, Right, Down, Downleft, Downright};
    } else {
      assert keys == {Left, Right, Up, Upleft, Upright};
    }
  }

  /** A cell on the left or right column, away from the corners. */
  lemma ColumnEdgeNeighbours(d: Dimension, p: Position)
    requires d.m >= 2 && 0 < p.y < d.n - 1 && (p.x == 0 || p.x == d.m - 1)
    ensures |Neighbours(d, p)| == 5
  {
    var keys := Neighbours(d, p).Keys;
    NeighbourKeys(d, p);
    if p.x == 0 {
      assert keys == {Up, Down, Right, Upright, Downright};
    } else {
      assert keys == {Up, Down, Left, Upleft, Downleft};
    }
  }

  lemma InteriorNeighbours(d: Dimension, p: Position)
    requires 0 < p.x < d.m - 1 && 0 < p.y < d.n - 1
    ensures |Neighbours(d, p)| == 8
  {
    NeighbourKeys(d, p);
    assert Neighbours(d, p).Keys == Compass;
  }

  /**
   * On a grid of at least 2x2, a corner has exactly 3 neighbours, a cell on an
   * edge but not a corner exactly 5, and an interior cell exactly 8.
   */
  lemma NeighbourCount(d: Dimension, p: Position)
    requires d.n >= 2 && d.m >= 2 && CheckPos(d, p)
    ensures var onX := p.x == 0 || p.x == d.m - 1;
            var onY := p.y == 0 || p.y == d.n - 1;
            |Neighbours(d, p)| == if onX && onY then 3 else if onX || onY then 5 else 8
  {
    var onX := p.x == 0 || p.x == d.m - 1;
    var onY := p.y == 0 || p.y == d.n - 1;
    if onX && onY {
      CornerNeighbours(d, p);
    } else if onY {
      RowEdgeNeighbours(d, p);
    } else if onX {
      ColumnEdgeNeighbours(d, p);
    } else {
      InteriorNeighbours(d, p);
    }
  }

  /** Strict row-major order: earlier row, or same row and earlier column. */
  predicate Before(a: Position, b: Position) {
    a.y < b.y || (a.y == b.y && a.x < b.x)
  }

  predicate RowMajor(s: seq<Position>) {
    forall i, j :: 0 <= i < j < |s| ==> Before(s[i], s[j])
  }

  /** The first `k` cells of row `y`, left to right. */
  function Row(y: int, k: int): seq<Position>
    decreases k
  {
    if k <= 0 then [] else Row(y, k - 1) + [Position(k - 1, y)]
  }

  /** Every cell of the first `rows` rows of an `m`-column grid, in row-major order. */
  function CellsUpTo(rows: int, m: int): seq<Position>
    decreases rows
  {
    if rows <= 0 then [] else CellsUpTo(rows - 1, m) + Row(rows - 1, m)
  }

  /** Every cell of a grid, in the order of a scan over rows then columns. */
  function Cells(d: Dimension): seq<Position> {
    CellsUpTo(d.n, d.m)
  }

  lemma {:induction false} RowFacts(y: int, k: int)
    ensures forall q :: q in Row(y, k) <==> q.y == y && 0 <= q.x < k
    ensures k >= 0 ==> |Row(y, k)| == k
    ensures RowMajor(Row(y, k))
    decreases k
  {
    if k > 0 {
      RowFacts(y, k - 1);
    }
  }

  /** Two row-major runs, the first wholly before the second, join into one. */
  lemma RowMajorAppend(a: seq<Position>, b: seq<Position>)
    requires RowMajor(a) && RowMajor(b)
    requires forall p, q :: p in a && q in b ==> Before(p, q)
    ensures RowMajor(a + b)
  {
    forall i, j | 0 <= i < j < |a + b|
      ensures Before((a + b)[i], (a + b)[j])
    {
      if j < |a| {
      } else if i >= |a| {
        assert (a + b)[i] == b[i - |a|] && (a + b)[j] == b[j - |a|];
      } else {
        assert (a + b)[i] == a[i] && (a + b)[j] == b[j - |a|];
      }
    }
  }

  /** The first `rows` rows hold exactly the cells with a row below `rows` and a column below `m`. */
  lemma {:induction false} CellsUpToMembers(rows: int, m: int)
    ensures forall q :: q in CellsUpTo(rows, m) <==> 0 <= q.y < rows && 0 <= q.x < m
    decreases rows
  {
    if rows > 0 {
      CellsUpToMembers(rows - 1, m);
      RowFacts(rows - 1, m);
    }
  }

  /** The first `rows` rows of an `m`-column grid hold `rows * m` cells. */
  lemma {:induction false} CellsUpToSize(rows: int, m: int)
    requires rows >= 0 && m >= 0
    ensures |CellsUpTo(rows, m)| == rows * m
    decreases rows
  {
    if rows > 0 {
      CellsUpToSize(rows - 1, m);
      RowFacts(rows - 1, m);
      assert (rows - 1) * m + m == rows * m;
    }
  }

  /** The scan of the first `rows` rows is in strict row-major order. */
  lemma {:induction false} CellsUpToOrder(rows: int, m: int)
    ensures RowMajor(CellsUpTo(rows, m))
    decreases rows
  {
    if rows > 0 {
      var a, b := CellsUpTo(rows - 1, m), Row(rows - 1, m);
      CellsUpToOrder(rows - 1, m);
      CellsUpToMembers(rows - 1, m);
      RowFacts(rows - 1, m);
      forall p, q | p in a && q in b
        ensures Before(p, q)
      {
        assert p.y < rows - 1 && q.y == rows - 1;
      }
      RowMajorAppend(a, b);
    }
  }

  /**
   * The row-major scan visits exactly the in-bounds cells, each once, in
   * strictly increasing row-major order: N*M cells in all.
   */
  lemma CellsAreTheGrid(d: Dimension)
    ensures forall q :: q in Cells(d) <==> CheckPos(d, q)
    ensures RowMajor(Cells(d))
    ensures d.n >= 0 && d.m >= 0 ==> |Cells(d)| == d.n * d.m
  {
    CellsUpToMembers(d.n, d.m);
    CellsUpToOrder(d.n, d.m);
    if d.n >= 0 && d.m >= 0 {
      CellsUpToSize(d.n, d.m);
    }
  }

  /** A row-major sequence holds no position twice. */
  lemma RowMajorDistinct(s: seq<Position>, i: int, j: int)
    requires RowMajor(s) && 0 <= i < |s| && 0 <= j < |s| && i != j
    ensures s[i] != s[j]
  {
  }

  /** A set drawn from a sequence has no more elements than the sequence. */
  lemma {:induction false} SetOfSeqSize<X>(s: seq<X>)
    ensures |set x | x in s| <= |s|
    decreases |s|
  {
    if s != [] {
      var s' := s[..|s| - 1];
      SetOfSeqSize(s');
      assert (set x | x in s) == (set x | x in s') + {s[|s| - 1]} by {
        assert s == s' + [s[|s| - 1]];
      }
    }
  }

  /** A set of in-bounds positions has at most N*M elements. */
  lemma InBoundsSetSize(d: Dimension, cells: set<Position>)
    requires d.n >= 0 && d.m >= 0
    requires forall q :: q in cells ==> CheckPos(d, q)
    ensures |cells| <= d.n * d.m
  {
    CellsAreTheGrid(d);
    SetOfSeqSize(Cells(d));
    var all := set q | q in Cells(d);
    assert all == cells + (all - cells);
    assert cells * (all - cells) == {};
  }

  /** The first `x` cells of a row are a prefix of its first `k` cells. */
  lemma {:induction false} RowPrefix(y: int, x: int, k: int)
    requires 0 <= x <= k
    ensures Row(y, x) <= Row(y, k)
    decreases k
  {
    if x < k {
      RowPrefix(y, x, k - 1);
    }
  }

  /**
   * A scan interrupted in row `y` before column `x` has covered a prefix of
   * the full row-major scan.
   */
  lemma {:induction false} ScanPrefix(y: int, x: int, rows: int, m: int)
    requires 0 <= y < rows && 0 <= x <= m
    ensures CellsUpTo(y, m) + Row(y, x) <= CellsUpTo(rows, m)
    decreases rows
  {
    if y == rows - 1 {
      RowPrefix(y, x, m);
    } else {
      ScanPrefix(y, x, rows - 1, m);
    }
  }

  /** A scan of row `y` that has not started adds nothing. */
  lemma ScanStart(y: int, m: int)
    ensures CellsUpTo(y, m) + Row(y, 0) == CellsUpTo(y, m)
  {
  }

  /** One more column of row `y` adds exactly the cell at column `x`. */
  lemma ScanNext(y: int, x: int, m: int)
    requires 0 <= x
    ensures CellsUpTo(y, m) + Row(y, x + 1) == CellsUpTo(y, m) + Row(y, x) + [Position(x, y)]
  {
  }

  /** A finished row `y` completes the first `y + 1` rows. */
  lemma ScanRowDone(y: int, m: int)
    requires 0 <= y
    ensures CellsUpTo(y + 1, m) == CellsUpTo(y, m) + Row(y, m)
  {
  }

  /** How many entries of `cells` satisfy `t`, counted along the sequence. */
  function CountIf(t: Position -> bool, cells: seq<Position>): (r: nat)
    ensures r <= |cells|
  {
    if cells == [] then 0
    else CountIf(t, cells[..|cells| - 1]) + (if t(cells[|cells| - 1]) then 1 else 0)
  }

  lemma CountIfSnoc(t: Position -> bool, cells: seq<Position>, c: Position)
    ensures CountIf(t, cells + [c]) == CountIf(t, cells) + (if t(c) then 1 else 0)
  {
    assert (cells + [c])[..|cells|] == cells;
  }

  /** The entries of `cells` that satisfy `t`. */
  function Satisfying(t: Position -> bool, cells: seq<Position>): set<Position> {
    set c | c in cells && t(c)
  }

  lemma SatisfyingSnoc(t: Position -> bool, cells: seq<Position>, c: Position)
    ensures Satisfying(t, cells + [c]) == Satisfying(t, cells) + (if t(c) then {c} else {})
  {
    forall q
      ensures q in Satisfying(t, cells + [c]) <==> q in Satisfying(t, cells) || (q == c && t(c))
    {
      assert q in cells + [c] <==> q in cells || q == c;
    }
  }

  /** Over a scan without repeats, the count is the number of distinct cells satisfying `t`. */
  lemma {:induction false} CountIfIsSetSize(t: Position -> bool, cells: seq<Position>)
    requires RowMajor(cells)
    ensures CountIf(t, cells) == |Satisfying(t, cells)|
    decreases |cells|
  {
    if cells != [] {
      var pre, last := cells[..|cells| - 1], cells[|cells| - 1];
      assert cells == pre + [last];
      assert RowMajor(pre);
      CountIfIsSetSize(t, pre);
      SatisfyingSnoc(t, pre, last);
      assert last !in pre;
    }
  }
}
