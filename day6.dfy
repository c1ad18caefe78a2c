/**
 * Day 6: a guard walks a grid of free cells '.' and obstacles '#', starting
 * at the cell holding one of the glyphs ^ v > < and facing that way. Facing
 * an obstacle it turns right; otherwise it steps forward; it stops once the
 * cell ahead is off the grid. A walk "loops" when the guard comes back to a
 * (position, direction) pose it already recorded. Part 1 counts the distinct
 * positions of a walk that leaves the grid; Part 2 counts the cells where one
 * extra obstruction 'O' would trap the guard in a loop.
 *
 * The rules are stated on a `View`: the board as a value, mapping every
 * on-grid position to its character (see `Board.View`).
 */
module Day6 {
  import opened Common
  import opened Geometry
  import opened Board

  /** The pose returned when no guard is on the grid: (0, 0), no direction. */
  const NoGuard: Pose := Pose(Position(0, 0), Unspecified)

  /** The direction a guard glyph faces; `Unspecified` for any other character. */
  function GuardDir(c: char): (d: Direction)
    ensures d != Unspecified <==> c == '^' || c == 'v' || c == '>' || c == '<'
    ensures d != Unspecified ==> IsCardinal(d)
  {
    match c
    case '^' => Up
    case 'v' => Down
    case '>' => Right
    case '<' => Left
    case _ => Unspecified
  }

  /** The first guard met by a scan over `cells`, or `NoGuard`. */
  function FirstGuard(v: View, cells: seq<Position>): (r: Pose)
    ensures r.dir != Unspecified ==> IsCardinal(r.dir)
    ensures r.dir == Unspecified ==> r == NoGuard
  {
    if cells == [] then NoGuard
    else
      var found := FirstGuard(v, cells[..|cells| - 1]);
      var last := cells[|cells| - 1];
      if found.dir != Unspecified then found
      else if GuardDir(CharAt(v, last)) != Unspecified then Pose(last, GuardDir(CharAt(v, last)))
      else NoGuard
  }

  /** The guard of a grid of dimension `d`: the first guard glyph in row-major order. */
  function GuardPose(d: Dimension, v: View): (r: Pose)
    ensures r.dir != Unspecified ==> CheckPos(d, r.pos) && IsCardinal(r.dir) && GuardDir(CharAt(v, r.pos)) == r.dir
    ensures r.dir == Unspecified ==> r == NoGuard
  {
    CellsAreTheGrid(d);
    FirstGuardIsFirst(v, Cells(d));
    FirstGuard(v, Cells(d))
  }

  lemma FirstGuardSnoc(v: View, cells: seq<Position>, p: Position)
    ensures FirstGuard(v, cells + [p]) ==
      var found := FirstGuard(v, cells);
      if found.dir != Unspecified then found
      else if GuardDir(CharAt(v, p)) != Unspecified then Pose(p, GuardDir(CharAt(v, p)))
      else NoGuard
  {
    assert (cells + [p])[..|cells|] == cells;
  }

  /** Once a guard is found, scanning further cells does not change the answer. */
  lemma {:induction false} FirstGuardExtends(v: View, pre: seq<Position>, cells: seq<Position>)
    requires pre <= cells
    requires FirstGuard(v, pre).dir != Unspecified
    ensures FirstGuard(v, cells) == FirstGuard(v, pre)
    decreases |cells|
  {
    if |cells| > |pre| {
      assert pre <= cells[..|cells| - 1];
      FirstGuardExtends(v, pre, cells[..|cells| - 1]);
    } else {
      assert pre == cells;
    }
  }

  /**
   * The scan result is the glyph at some index `k` of `cells` with no glyph
   * before it; when it finds none, no cell holds a glyph and the result is
   * `NoGuard`.
   */
  lemma {:induction false} FirstGuardIsFirst(v: View, cells: seq<Position>)
    ensures var g := FirstGuard(v, cells);
      g.dir != Unspecified ==>
        exists k :: 0 <= k < |cells| && cells[k] == g.pos && GuardDir(CharAt(v, cells[k])) == g.dir &&
          forall i :: 0 <= i < k ==> GuardDir(CharAt(v, cells[i])) == Unspecified
    ensures var g := FirstGuard(v, cells);
      g.dir == Unspecified ==>
        g == NoGuard && forall i :: 0 <= i < |cells| ==> GuardDir(CharAt(v, cells[i])) == Unspecified
    decreases |cells|
  {
    if cells != [] {
      var pre := cells[..|cells| - 1];
      FirstGuardIsFirst(v, pre);
      var found := FirstGuard(v, pre);
      if found.dir != Unspecified {
        var k :| 0 <= k < |pre| && pre[k] == found.pos && GuardDir(CharAt(v, pre[k])) == found.dir &&
          forall i :: 0 <= i < k ==> GuardDir(CharAt(v, pre[i])) == Unspecified;
        assert cells[k] == pre[k];
      } else {
        assert forall i :: 0 <= i < |pre| ==> cells[i] == pre[i];
      }
    }
  }

  /**
   * The guard of the grid, in the grid's own terms: when there is one, it is
   * on the grid, its glyph gives its direction, and no cell earlier in
   * row-major order holds a glyph; when there is none, no cell holds one.
   */
  lemma GuardIsFirstInScan(d: Dimension, v: View)
    ensures var g := GuardPose(d, v);
      g.dir != Unspecified ==>
        && CheckPos(d, g.pos)
        && GuardDir(CharAt(v, g.pos)) == g.dir
        && forall q :: CheckPos(d, q) && Before(q, g.pos) ==> GuardDir(CharAt(v, q)) == Unspecified
    ensures var g := GuardPose(d, v);
      g.dir == Unspecified ==>
        g == NoGuard && forall q :: CheckPos(d, q) ==> GuardDir(CharAt(v, q)) == Unspecified
  {
    var cells := Cells(d);
    CellsAreTheGrid(d);
    FirstGuardIsFirst(v, cells);
    var g := GuardPose(d, v);
    if g.dir != Unspecified {
      var k :| 0 <= k < |cells| && cells[k] == g.pos && GuardDir(CharAt(v, cells[k])) == g.dir &&
        forall i :: 0 <= i < k ==> GuardDir(CharAt(v, cells[i])) == Unspecified;
      assert g.pos in cells;
      forall q | CheckPos(d, q) && Before(q, g.pos)
        ensures GuardDir(CharAt(v, q)) == Unspecified
      {
        assert q in cells;
        var i :| 0 <= i < |cells| && cells[i] == q;
      }
    } else {
      forall q | CheckPos(d, q)
        ensures GuardDir(CharAt(v, q)) == Unspecified
      {
        assert q in cells;
      }
    }
  }

  /** Scanning one more cell that holds no glyph still finds no guard. */
  lemma ScanNoGuard(v: View, y: int, x: int, m: int)
    requires 0 <= x
    requires FirstGuard(v, CellsUpTo(y, m) + Row(y, x)) == NoGuard
    requires GuardDir(CharAt(v, Position(x, y))) == Unspecified
    ensures FirstGuard(v, CellsUpTo(y, m) + Row(y, x + 1)) == NoGuard
  {
    ScanNext(y, x, m);
    FirstGuardSnoc(v, CellsUpTo(y, m) + Row(y, x), Position(x, y));
  }

  /** The first glyph met by the scan, at column `x` of row `y`, is the guard of the grid. */
  lemma ScanFoundGuard(d: Dimension, v: View, y: int, x: int)
    requires 0 <= y < d.n && 0 <= x < d.m
    requires FirstGuard(v, CellsUpTo(y, d.m) + Row(y, x)) == NoGuard
    requires GuardDir(CharAt(v, Position(x, y))) != Unspecified
    ensures GuardPose(d, v) == Pose(Position(x, y), GuardDir(CharAt(v, Position(x, y))))
  {
    ScanNext(y, x, d.m);
    FirstGuardSnoc(v, CellsUpTo(y, d.m) + Row(y, x), Position(x, y));
    ScanPrefix(y, x + 1, d.n, d.m);
    FirstGuardExtends(v, CellsUpTo(y, d.m) + Row(y, x + 1), Cells(d));
  }

  /**
   * Scans rows then columns for the first guard glyph and returns its pose,
   * or `NoGuard` when there is none.
   */
  method FindGuard(b: Board<char>) returns (g: Pose)
    ensures g == GuardPose(b.GetDimension(), b.View())
  {
    var d := b.GetDimension();
    for y := 0 to d.n
      invariant FirstGuard(b.View(), CellsUpTo(y, d.m)) == NoGuard
    {
      g := FindGuardInRow(b, y);
      if g.dir != Unspecified {
        return;
      }
    }
    return NoGuard;
  }

  /**
   * The scan of row `y`, left to right, once the rows above held no glyph:
   * the first glyph found is the guard of the grid; with none, the scan so
   * far still holds no glyph.
   */
  method FindGuardInRow(b: Board<char>, y: int) returns (g: Pose)
    requires 0 <= y < b.GetDimension().n
    requires FirstGuard(b.View(), CellsUpTo(y, b.GetDimension().m)) == NoGuard
    ensures g.dir != Unspecified ==> g == GuardPose(b.GetDimension(), b.View())
    ensures g.dir == Unspecified ==> FirstGuard(b.View(), CellsUpTo(y + 1, b.GetDimension().m)) == NoGuard
  {
    var d := b.GetDimension();
    ghost var view := b.View();
    ScanStart(y, d.m);
    for x := 0 to d.m
      invariant FirstGuard(view, CellsUpTo(y, d.m) + Row(y, x)) == NoGuard
    {
      var p := Position(x, y);
      var c := b.Get(p).GetOr(0 as char);
      assert c == CharAt(view, p);
      var dir := GuardDir(c);
      if dir != Unspecified {
        ScanFoundGuard(d, view, y, x);
        return Pose(p, dir);
      }
      ScanNoGuard(view, y, x, d.m);
    }
    ScanRowDone(y, d.m);
    return NoGuard;
  }

  /**
   * One move of the guard at `g`: `None` when the cell ahead is off the grid
   * (or the guard faces no direction); a right turn in place when that cell
   * holds '#' or 'O'; otherwise a step onto it. From an on-grid pose the next
   * pose is on the grid.
   */
  function Ahead(v: View, g: Pose): (r: Option<Pose>)
    ensures r.Some? && g.pos in v ==> r.value.pos in v
  {
    var ahead := Step(g.pos, g.dir);
    if !(g.dir in Compass && ahead in v) then None
    else if v[ahead] == '#' then Some(Pose(g.pos, TurnRight(g.dir)))
    else if v[ahead] == 'O' then Some(Pose(g.pos, TurnRight(g.dir)))
    else Some(Pose(ahead, g.dir))
  }

  /**
   * `Ahead` in terms of the neighbour map of a grid of dimension `d`: no move
   * when the facing direction has no neighbour; otherwise a turn or a step
   * decided by that neighbour.
   */
  lemma AheadFromNeighbours(d: Dimension, v: View, g: Pose, n: map<Direction, Position>)
    requires forall p :: p in v <==> CheckPos(d, p)
    requires n == Neighbours(d, g.pos)
    ensures Ahead(v, g).None? <==> g.dir !in n
    ensures g.dir in n ==>
      var c := v[n[g.dir]];
      Ahead(v, g) == Some(if c == '#' || c == 'O' then Pose(g.pos, TurnRight(g.dir)) else Pose(n[g.dir], g.dir))
  {
  }

  /** Every direction value. */
  const Directions: set<Direction> :=
    {Unspecified, Up, Down, Left, Right, Upleft, Upright, Downleft, Downright}

  /** Every pose with an on-grid position. */
  function Poses(v: View): set<Pose> {
    set p, dir | p in v && dir in Directions :: Pose(p, dir)
  }

  lemma PoseInPoses(v: View, g: Pose)
    requires g.pos in v
    ensures g in Poses(v)
  {
    assert g.dir in Directions by {
      match g.dir
      case Unspecified =>
      case _ =>
    }
    assert g == Pose(g.pos, g.dir);
  }

  /** Recording one more on-grid pose leaves fewer poses unrecorded. */
  lemma WalkShrinks(v: View, seen: set<Pose>, g: Pose)
    requires g.pos in v && g !in seen
    ensures |Poses(v) - (seen + {g})| < |Poses(v) - seen|
  {
    PoseInPoses(v, g);
    var rest := Poses(v) - seen;
    assert Poses(v) - (seen + {g}) == rest - {g};
    assert rest == (rest - {g}) + {g};
  }

  /**
   * The records a walk leaves behind: whether it found a loop, the poses
   * recorded on the path, and the positions counted as visited.
   */
  datatype Walk = Walk(loops: bool, poses: set<Pose>, positions: set<Position>)

  /**
   * The walk from `g` when the poses `seen` and the positions `visited` are
   * already recorded, as the final state of both records: off the grid it
   * stops at once; on a recorded pose it counts the position once more and
   * reports a loop; otherwise it records `g`, then stops if there is no move
   * or walks on from the next pose.
   */
  function Walked(v: View, g: Pose, seen: set<Pose>, visited: set<Position>): (w: Walk)
    ensures seen <= w.poses && visited <= w.positions
    decreases |Poses(v) - seen|
  {
    if g.pos !in v then Walk(false, seen, visited)
    else if g in seen then Walk(true, seen, visited + {g.pos})
    else
      match Ahead(v, g)
      case None => Walk(false, seen + {g}, visited + {g.pos})
      case Some(next) =>
        WalkShrinks(v, seen, g);
        Walked(v, next, seen + {g}, visited + {g.pos})
  }

  /** The number of poses a walk records before it ends. */
  function WalkLength(v: View, g: Pose, seen: set<Pose>): nat
    decreases |Poses(v) - seen|
  {
    if g.pos !in v then 0
    else if g in seen then 1
    else
      match Ahead(v, g)
      case None => 1
      case Some(next) =>
        WalkShrinks(v, seen, g);
        1 + WalkLength(v, next, seen + {g})
  }

  /** A walk from an unrecorded on-grid pose with a move records that pose and walks on. */
  lemma WalkedStep(v: View, g: Pose, seen: set<Pose>, visited: set<Position>)
    requires g.pos in v && g !in seen && Ahead(v, g).Some?
    ensures Walked(v, g, seen, visited) == Walked(v, Ahead(v, g).value, seen + {g}, visited + {g.pos})
    ensures WalkLength(v, g, seen) == 1 + WalkLength(v, Ahead(v, g).value, seen + {g})
  {
  }

  /**
   * Whether a walk loops, and the poses it records, do not depend on the
   * positions already counted as visited.
   */
  lemma {:induction false} WalkedIgnoresVisited(v: View, g: Pose, seen: set<Pose>, visited: set<Position>, other: set<Position>)
    ensures Walked(v, g, seen, visited).loops == Walked(v, g, seen, other).loops
    ensures Walked(v, g, seen, visited).poses == Walked(v, g, seen, other).poses
    decreases |Poses(v) - seen|
  {
    if g.pos in v && g !in seen && Ahead(v, g).Some? {
      WalkShrinks(v, seen, g);
      WalkedIgnoresVisited(v, Ahead(v, g).value, seen + {g}, visited + {g.pos}, other + {g.pos});
    }
  }

  /** The positions of a set of poses. */
  function PositionsOf(poses: set<Pose>): set<Position> {
    set g | g in poses :: g.pos
  }

  /**
   * When the positions of the recorded poses are all counted as visited, a
   * walk keeps it so: the visited positions it leaves are the ones it started
   * with plus the positions of the recorded poses.
   */
  lemma {:induction false} WalkedPositions(v: View, g: Pose, seen: set<Pose>, visited: set<Position>)
    requires PositionsOf(seen) <= visited
    ensures Walked(v, g, seen, visited).positions == visited + PositionsOf(Walked(v, g, seen, visited).poses)
    decreases |Poses(v) - seen|
  {
    var w := Walked(v, g, seen, visited);
    if g.pos !in v {
    } else if g in seen {
      assert g.pos in PositionsOf(seen);
    } else if Ahead(v, g).None? {
      PositionsOfAdd(seen, g);
    } else {
      var next := Ahead(v, g).value;
      WalkShrinks(v, seen, g);
      PositionsOfAdd(seen, g);
      assert w == Walked(v, next, seen + {g}, visited + {g.pos});
      WalkedPositions(v, next, seen + {g}, visited + {g.pos});
      assert g in w.poses;
    }
  }

  /** Recording one more pose adds its position to the positions of the records. */
  lemma PositionsOfAdd(seen: set<Pose>, g: Pose)
    ensures PositionsOf(seen + {g}) == PositionsOf(seen) + {g.pos}
  {
  }

  /** The poses at the positions `ps`, all facing `dir`. */
  function Facing(ps: set<Position>, dir: Direction): set<Pose> {
    set p | p in ps :: Pose(p, dir)
  }

  /** Every pose with an on-grid position and a cardinal direction. */
  function CardinalPoses(v: View): (r: set<Pose>)
    ensures forall h: Pose :: h in r <==> h.pos in v && IsCardinal(h.dir)
  {
    assert forall h: Pose :: h.pos in v && IsCardinal(h.dir) ==> h in Facing(v.Keys, h.dir);
    Facing(v.Keys, Up) + Facing(v.Keys, Right) + Facing(v.Keys, Down) + Facing(v.Keys, Left)
  }

  /** Facing one direction, there is one pose per position. */
  lemma {:induction false} FacingSize(ps: set<Position>, dir: Direction)
    ensures |Facing(ps, dir)| == |ps|
    decreases |ps|
  {
    if ps != {} {
      var p :| p in ps;
      FacingSize(ps - {p}, dir);
      assert Facing(ps, dir) == Facing(ps - {p}, dir) + {Pose(p, dir)};
    }
  }

  /** There are at most four cardinal poses per on-grid position. */
  lemma CardinalPosesSize(v: View)
    ensures |CardinalPoses(v)| <= 4 * |v|
  {
    var up, right, down, left := Facing(v.Keys, Up), Facing(v.Keys, Right), Facing(v.Keys, Down), Facing(v.Keys, Left);
    FacingSize(v.Keys, Up);
    FacingSize(v.Keys, Right);
    FacingSize(v.Keys, Down);
    FacingSize(v.Keys, Left);
    assert |up + right| <= |up| + |right|;
    assert |up + right + down| <= |up + right| + |down|;
    assert |up + right + down + left| <= |up + right + down| + |left|;
  }

  /** A walk from a cardinal pose, starting from cardinal records, records only on-grid cardinal poses. */
  lemma {:induction false} WalkedCardinal(v: View, g: Pose, seen: set<Pose>, visited: set<Position>)
    requires IsCardinal(g.dir) && seen <= CardinalPoses(v)
    ensures Walked(v, g, seen, visited).poses <= CardinalPoses(v)
    decreases |Poses(v) - seen|
  {
    if g.pos in v && g !in seen {
      assert g in CardinalPoses(v);
      if Ahead(v, g).Some? {
        WalkShrinks(v, seen, g);
        WalkedCardinal(v, Ahead(v, g).value, seen + {g}, visited + {g.pos});
      }
    }
  }

  /** Every pose the guard's walk records is on the grid and faces a cardinal direction. */
  lemma WalkStaysCardinal(v: View, g: Pose)
    requires IsCardinal(g.dir)
    ensures forall h :: h in Walked(v, g, {}, {}).poses ==> h.pos in v && IsCardinal(h.dir)
  {
    WalkedCardinal(v, g, {}, {});
  }

  /** A walk from a cardinal pose records at most one pose per unrecorded cardinal pose, plus the last. */
  lemma {:induction false} WalkLengthBound(v: View, g: Pose, seen: set<Pose>)
    requires IsCardinal(g.dir)
    ensures WalkLength(v, g, seen) <= |CardinalPoses(v) - seen| + 1
    decreases |Poses(v) - seen|
  {
    if g.pos in v && g !in seen && Ahead(v, g).Some? {
      WalkShrinks(v, seen, g);
      WalkLengthBound(v, Ahead(v, g).value, seen + {g});
      assert g in CardinalPoses(v) - seen;
      assert CardinalPoses(v) - (seen + {g}) == (CardinalPoses(v) - seen) - {g};
    }
  }

  /**
   * The walk from a cardinal pose ends after at most four steps per grid
   * cell, plus one: each pass of `WalkFrom`'s loop records a new pose, and
   * there are four directions per cell.
   */
  lemma WalkBound(v: View, g: Pose)
    requires IsCardinal(g.dir)
    ensures WalkLength(v, g, {}) <= 4 * |v| + 1
  {
    WalkLengthBound(v, g, {});
    CardinalPosesSize(v);
  }

  /**
   * Walks the guard from `g0`, recording each pose with `VisitPath` (which
   * also counts its position), until it leaves the grid, has no move, or
   * meets a pose that is already recorded. The result and the new records
   * are those of `Walked` on the board's view.
   */
  method WalkFrom(b: Board<char>, g0: Pose) returns (loop: bool)
    requires b.Valid()
    modifies b`visits, b`paths, b`pos
    ensures b.Valid()
    ensures var w := Walked(b.View(), g0, old(b.paths).Keys, old(b.visits).Keys);
      loop == w.loops && b.paths.Keys == w.poses && b.visits.Keys == w.positions
  {
    ghost var view := b.View();
    ghost var total := Walked(view, g0, b.paths.Keys, b.visits.Keys);
    var g := g0;
    while true
      invariant b.Valid() && b.View() == view
      invariant Walked(view, g, b.paths.Keys, b.visits.Keys) == total
      decreases WalkLength(view, g, b.paths.Keys)
    {
      ghost var seen, visited := b.paths.Keys, b.visits.Keys;
      var o := b.VisitPath(g);
      if o.Failure? {
        return false;
      }
      if b.GetPaths(g) > 1 {
        assert g in seen;
        return true;
      }
      var next := Advance(b, g);
      if next.None? {
        return false;
      }
      WalkedStep(view, g, seen, visited);
      g := next.value;
    }
  }

  /**
   * The move of one walk step, read off the board: looks up the neighbour in
   * the facing direction; none means the walk ends; '#' or 'O' there turns
   * the guard right in place; anything else steps onto it.
   */
  method Advance(b: Board<char>, g: Pose) returns (next: Option<Pose>)
    ensures next == Ahead(b.View(), g)
  {
    var n := GetNeighbours(b.GetDimension(), g.pos);
    NeighboursExt(b.GetDimension(), g.pos, n);
    AheadFromNeighbours(b.GetDimension(), b.View(), g, n);
    if g.dir !in n {
      return None;
    }
    var p := n[g.dir];
    var r := b.Get(p).value;
    if r == '#' {
      next := Some(Pose(g.pos, TurnRight(g.dir)));
    } else if r == 'O' {
      next := Some(Pose(g.pos, TurnRight(g.dir)));
    } else {
      next := Some(Pose(p, g.dir));
    }
  }

  /**
   * The guard's pose after `k` moves from `g`, or `None` once it has left the
   * grid or has no move.
   */
  function PoseAfter(v: View, g: Pose, k: nat): Option<Pose>
    decreases k
  {
    if k == 0 then Some(g)
    else if g.pos !in v then None
    else
      match Ahead(v, g)
      case None => None
      case Some(next) => PoseAfter(v, next, k - 1)
  }

  /** Once the guard has gone, it stays gone. */
  lemma {:induction false} PoseAfterPrefix(v: View, g: Pose, t: nat, k: nat)
    requires t <= k && PoseAfter(v, g, k).Some?
    ensures PoseAfter(v, g, t).Some?
    decreases t
  {
    if t > 0 {
      var next := Ahead(v, g).value;
      PoseAfterPrefix(v, next, t - 1, k - 1);
    }
  }

  /** Moving `a + c` times is moving `a` times, then `c` more. */
  lemma {:induction false} PoseAfterShift(v: View, g: Pose, a: nat, c: nat)
    requires PoseAfter(v, g, a).Some?
    ensures PoseAfter(v, g, a + c) == PoseAfter(v, PoseAfter(v, g, a).value, c)
    decreases a
  {
    if a > 0 {
      var next := Ahead(v, g).value;
      PoseAfterShift(v, next, a - 1, c);
    }
  }

  /** A pose that comes back is visited forever: the guard never leaves. */
  lemma RepeatMeansForever(v: View, g: Pose, t: nat, k: nat)
    requires t < k && PoseAfter(v, g, k).Some? && PoseAfter(v, g, t) == PoseAfter(v, g, k)
    ensures forall n: nat :: PoseAfter(v, g, n).Some?
  {
    forall n: nat
      ensures PoseAfter(v, g, n).Some?
    {
      RepeatReaches(v, g, t, k, n);
    }
  }

  lemma {:induction false} RepeatReaches(v: View, g: Pose, t: nat, k: nat, n: nat)
    requires t < k && PoseAfter(v, g, k).Some? && PoseAfter(v, g, t) == PoseAfter(v, g, k)
    ensures PoseAfter(v, g, n).Some?
    decreases n
  {
    if n <= k {
      PoseAfterPrefix(v, g, n, k);
    } else {
      var h := PoseAfter(v, g, k).value;
      PoseAfterPrefix(v, g, t, k);
      PoseAfterShift(v, g, k, n - k);
      PoseAfterShift(v, g, t, n - k);
      RepeatReaches(v, g, t, k, t + (n - k));
    }
  }

  /**
   * A reported loop is real: some pose on the guard's path is either one
   * recorded before the walk or one the guard already held earlier.
   */
  lemma {:induction false} LoopIsRepeat(v: View, g: Pose, seen: set<Pose>, visited: set<Position>)
    requires Walked(v, g, seen, visited).loops
    ensures exists k: nat ::
      PoseAfter(v, g, k).Some? &&
      (PoseAfter(v, g, k).value in seen || exists t: nat :: t < k && PoseAfter(v, g, t) == PoseAfter(v, g, k))
    decreases |Poses(v) - seen|
  {
    if g in seen {
      assert PoseAfter(v, g, 0).value in seen;
    } else {
      var next := Ahead(v, g).value;
      WalkShrinks(v, seen, g);
      LoopIsRepeat(v, next, seen + {g}, visited + {g.pos});
      var k: nat :| PoseAfter(v, next, k).Some? &&
        (PoseAfter(v, next, k).value in seen + {g} ||
         exists t: nat :: t < k && PoseAfter(v, next, t) == PoseAfter(v, next, k));
      assert PoseAfter(v, g, k + 1) == PoseAfter(v, next, k);
      if PoseAfter(v, next, k).value in seen {
      } else if PoseAfter(v, next, k).value == g {
        assert PoseAfter(v, g, 0) == PoseAfter(v, g, k + 1);
      } else {
        var t: nat :| t < k && PoseAfter(v, next, t) == PoseAfter(v, next, k);
        assert PoseAfter(v, g, t + 1) == PoseAfter(v, next, t);
      }
    }
  }

  /** A walk that reports no loop ends: after some number of moves the guard is gone. */
  lemma {:induction false} NoLoopLeaves(v: View, g: Pose, seen: set<Pose>, visited: set<Position>)
    requires !Walked(v, g, seen, visited).loops
    ensures exists k: nat :: PoseAfter(v, g, k).None?
    decreases |Poses(v) - seen|
  {
    if g.pos !in v || Ahead(v, g).None? {
      assert PoseAfter(v, g, 1).None?;
    } else {
      var next := Ahead(v, g).value;
      WalkShrinks(v, seen, g);
      NoLoopLeaves(v, next, seen + {g}, visited + {g.pos});
      var k: nat :| PoseAfter(v, next, k).None?;
      assert PoseAfter(v, g, k + 1) == PoseAfter(v, next, k);
    }
  }

  /**
   * A fresh walk reports a loop exactly when the guard never leaves the grid:
   * it has a next pose after any number of moves.
   */
  lemma WalkLoopsIffGuardStays(v: View, g: Pose)
    ensures Walked(v, g, {}, {}).loops <==> forall k: nat :: PoseAfter(v, g, k).Some?
  {
    if Walked(v, g, {}, {}).loops {
      LoopIsRepeat(v, g, {}, {});
      var k: nat :| PoseAfter(v, g, k).Some? &&
        (PoseAfter(v, g, k).value in {} || exists t: nat :: t < k && PoseAfter(v, g, t) == PoseAfter(v, g, k));
      var t: nat :| t < k && PoseAfter(v, g, t) == PoseAfter(v, g, k);
      RepeatMeansForever(v, g, t, k);
    } else {
      NoLoopLeaves(v, g, {}, {});
    }
  }

  /** Every pose a walk records is an on-grid pose of the guard's path. */
  lemma {:induction false} RecordedOnPath(v: View, g: Pose, seen: set<Pose>, visited: set<Position>, h: Pose)
    requires h in Walked(v, g, seen, visited).poses - seen
    ensures h.pos in v
    ensures exists k: nat :: PoseAfter(v, g, k) == Some(h)
    decreases |Poses(v) - seen|
  {
    if h == g {
      assert PoseAfter(v, g, 0) == Some(h);
    } else {
      var next := Ahead(v, g).value;
      WalkShrinks(v, seen, g);
      WalkedStep(v, g, seen, visited);
      RecordedOnPath(v, next, seen + {g}, visited + {g.pos}, h);
      var k: nat :| PoseAfter(v, next, k) == Some(h);
      assert PoseAfter(v, g, k + 1) == Some(h);
    }
  }

  /** A walk that reports no loop records every on-grid pose of the guard's path. */
  lemma {:induction false} PathIsRecorded(v: View, g: Pose, seen: set<Pose>, visited: set<Position>, k: nat)
    requires !Walked(v, g, seen, visited).loops
    requires PoseAfter(v, g, k).Some? && PoseAfter(v, g, k).value.pos in v
    ensures PoseAfter(v, g, k).value in Walked(v, g, seen, visited).poses
    decreases k
  {
    if g !in seen && Ahead(v, g).Some? {
      var next := Ahead(v, g).value;
      if k > 0 {
        PathIsRecorded(v, next, seen + {g}, visited + {g.pos}, k - 1);
      } else {
        WalkShrinks(v, seen, g);
        }
    }
  }

  /**
   * Whether an extra obstruction at `c` traps the guard starting at `g` on
   * the grid `v`: `c` is not an obstacle, not the guard's start, and the walk
   * on `v` with 'O' placed at `c` loops.
   */
  predicate Traps(v: View, g: Pose, c: Position) {
    CharAt(v, c) != '#' && c != g.pos && Walked(v[c := 'O'], g, {}, {}).loops
  }

  /** How many of the first `x` cells of row `y` satisfy `t`, counted by column. */
  function CountInRow(t: Position -> bool, y: int, x: int): (r: nat)
    decreases x
  {
    if x <= 0 then 0 else CountInRow(t, y, x - 1) + (if t(Position(x - 1, y)) then 1 else 0)
  }

  /** Counting a row by column agrees with counting along its cells. */
  lemma {:induction false} CountInRowIsCountIf(t: Position -> bool, y: int, x: int)
    requires 0 <= x
    ensures CountInRow(t, y, x) == CountIf(t, Row(y, x))
    decreases x
  {
    if x > 0 {
      CountInRowIsCountIf(t, y, x - 1);
      CountIfSnoc(t, Row(y, x - 1), Position(x - 1, y));
    }
  }

  /** A finished row adds its column-by-column count to the rows above. */
  lemma CountRowDone(t: Position -> bool, y: int, m: int)
    requires 0 <= y && 0 <= m
    ensures CountIf(t, CellsUpTo(y + 1, m)) == CountIf(t, CellsUpTo(y, m)) + CountInRow(t, y, m)
  {
    CountInRowIsCountIf(t, y, m);
    CountIfAppend(t, CellsUpTo(y, m), Row(y, m));
    ScanRowDone(y, m);
  }

  /** Counting distributes over concatenation. */
  lemma {:induction false} CountIfAppend(t: Position -> bool, a: seq<Position>, b: seq<Position>)
    ensures CountIf(t, a + b) == CountIf(t, a) + CountIf(t, b)
    decreases |b|
  {
    if b == [] {
      assert a + b == a;
    } else {
      var b', x := b[..|b| - 1], b[|b| - 1];
      assert a + b == (a + b') + [x];
      assert b == b' + [x];
      CountIfAppend(t, a, b');
      CountIfSnoc(t, a + b', x);
      CountIfSnoc(t, b', x);
    }
  }

  /** How many of `cells` would trap the guard. */
  function LoopCount(v: View, g: Pose, cells: seq<Position>): nat {
    CountIf(c => Traps(v, g, c), cells)
  }

  /**
   * Part 2 counts distinct cells: over the row-major scan of a grid, the
   * count is the number of on-grid cells that would trap the guard.
   */
  lemma LoopCountIsTrappingCells(d: Dimension, v: View, g: Pose)
    ensures LoopCount(v, g, Cells(d)) == |set c | c in InBounds(d) && Traps(v, g, c)|
  {
    var t := c => Traps(v, g, c);
    CellsAreTheGrid(d);
    CountIfIsSetSize(t, Cells(d));
    assert Satisfying(t, Cells(d)) == set c | c in InBounds(d) && Traps(v, g, c);
  }

  /**
   * The puzzle answer for the grid `v` of dimension `d`. Part 1: the number
   * of distinct positions of the guard's walk, or 0 when it loops. Part 2:
   * the number of on-grid cells where one obstruction would trap the guard.
   * Both are 0 when the grid has no guard.
   */
  function Answer(d: Dimension, v: View, part: Part): nat {
    var g := GuardPose(d, v);
    if g.dir == Unspecified then 0
    else if part == Part1 then
      (var w := Walked(v, g, {}, {}); if w.loops then 0 else |w.positions|)
    else LoopCount(v, g, Cells(d))
  }

  /** The positions a fresh walk visits are on the grid. */
  lemma WalkStaysOnGrid(v: View, g: Pose)
    ensures forall p :: p in Walked(v, g, {}, {}).positions ==> p in v
  {
    var w := Walked(v, g, {}, {});
    WalkedPositions(v, g, {}, {});
    forall p | p in w.positions
      ensures p in v
    {
      var h :| h in w.poses && h.pos == p;
      RecordedOnPath(v, g, {}, {}, h);
    }
  }

  /** Either answer is at most the number of cells, N*M. */
  lemma AnswerBound(d: Dimension, v: View, part: Part)
    requires d.n >= 0 && d.m >= 0
    requires forall p :: p in v <==> CheckPos(d, p)
    ensures Answer(d, v, part) <= d.n * d.m
  {
    CellsAreTheGrid(d);
    var g := GuardPose(d, v);
    if g.dir != Unspecified && part == Part1 {
      WalkStaysOnGrid(v, g);
      InBoundsSetSize(d, Walked(v, g, {}, {}).positions);
    }
  }

  /**
   * Part 1 from the guard's pose `g`: walks once on the fresh board and
   * returns 0 when the walk loops, otherwise the number of visited positions.
   */
  method CountVisited(b: Board<char>, g: Pose) returns (total: int)
    requires b.Valid() && b.visits == map[] && b.paths == map[]
    modifies b`visits, b`paths, b`pos
    ensures var w := Walked(b.View(), g, {}, {});
      total == if w.loops then 0 else |w.positions|
  {
    ghost var w := Walked(b.View(), g, {}, {});
    assert b.paths.Keys == {} && b.visits.Keys == {};
    var loop := WalkFrom(b, g);
    assert loop == w.loops && b.visits.Keys == w.positions;
    if loop {
      return 0;
    }
    var visited := b.GetVisited();
    return |visited|;
  }

  /**
   * One Part 2 trial at the on-grid cell `c`: an obstacle '#' or the guard's
   * start is skipped; otherwise it clears the recorded paths, makes 'O' at
   * `c` the board's only overlay, and walks the guard from `g`. The answer is
   * whether `c` traps the guard. The visited positions are not cleared
   * between trials and do not affect it.
   */
  method TrapAt(b: Board<char>, g: Pose, c: Position, ghost view: View) returns (trap: bool)
    requires b.Valid() && CheckPos(b.GetDimension(), c) && c !in b.overrides
    requires b.ViewWith(map[]) == view
    modifies b`visits, b`paths, b`pos, b`overrides
    ensures b.Valid()
    ensures b.overrides == old(b.overrides) || b.overrides == map[c := 'O']
    ensures b.ViewWith(map[]) == view
    ensures trap == Traps(view, g, c)
    ensures old(b.visits).Keys <= b.visits.Keys
    ensures CharAt(view, c) == '#' || c == g.pos ==> b.visits == old(b.visits) && b.paths == old(b.paths)
    ensures CharAt(view, c) != '#' && c != g.pos ==>
      var w := Walked(view[c := 'O'], g, {}, old(b.visits).Keys);
      b.overrides == map[c := 'O'] && b.paths.Keys == w.poses && b.visits.Keys == w.positions
  {
    var v := b.Get(c).GetOr(0 as char);
    assert v == CharAt(view, c);
    if v == '#' || c == g.pos {
      return false;
    }
    b.ResetPaths();
    b.WithOverrides(map[c := 'O']);
    b.ViewWithOne(c, 'O');
    ghost var visited := b.visits.Keys;
    assert b.View() == view[c := 'O'];
    assert b.paths.Keys == {};
    WalkedIgnoresVisited(view[c := 'O'], g, {}, visited, {});
    trap := WalkFrom(b, g);
    assert b.ViewWith(map[]) == view;
  }

  /**
   * The trials along row `y`, left to right, added to `acc`, the count for
   * the rows above; `t` tells which cells trap the guard on the board as it
   * was given.
   */
  method CountTrapsInRow(b: Board<char>, g: Pose, y: int, acc: int, ghost view: View, ghost t: Position -> bool)
    returns (total: int)
    requires b.Valid() && 0 <= y < b.GetDimension().n
    requires forall q :: q in b.overrides ==> q.y < y
    requires b.ViewWith(map[]) == view
    requires forall c :: t(c) == Traps(view, g, c)
    modifies b`visits, b`paths, b`pos, b`overrides
    ensures b.Valid()
    ensures forall q :: q in b.overrides ==> q.y <= y
    ensures b.ViewWith(map[]) == view
    ensures total == acc + CountInRow(t, y, b.GetDimension().m)
    ensures old(b.visits).Keys <= b.visits.Keys
  {
    var d := b.GetDimension();
    total := acc;
    for x := 0 to d.m
      invariant b.Valid()
      invariant old(b.visits).Keys <= b.visits.Keys
      invariant forall q :: q in b.overrides ==> Before(q, Position(x, y))
      invariant b.ViewWith(map[]) == view
      invariant total == acc + CountInRow(t, y, x)
    {
      var c := Position(x, y);
      var trap := TrapAt(b, g, c, view);
      if trap {
        total := total + 1;
      }
    }
  }

  /**
   * Part 2 from the guard's pose `g`: runs a trial at every cell in
   * row-major order and counts the cells that trap the guard.
   */
  method CountTraps(b: Board<char>, g: Pose) returns (total: int)
    requires b.Valid() && b.overrides == map[]
    modifies b`visits, b`paths, b`pos, b`overrides
    ensures total == LoopCount(b.ViewWith(map[]), g, Cells(b.GetDimension()))
    ensures old(b.visits).Keys <= b.visits.Keys
  {
    ghost var view := b.ViewWith(map[]);
    ghost var t := c => Traps(view, g, c);
    var d := b.GetDimension();
    total := 0;
    for y := 0 to d.n
      invariant b.Valid()
      invariant old(b.visits).Keys <= b.visits.Keys
      invariant forall q :: q in b.overrides ==> q.y < y
      invariant b.ViewWith(map[]) == view
      invariant total == CountIf(t, CellsUpTo(y, d.m))
    {
      total := CountTrapsInRow(b, g, y, total, view, t);
      CountRowDone(t, y, d.m);
    }
  }

  /**
   * Finds the guard, then solves the requested part; the result is `Answer`
   * for the board as it was given, so at most N*M.
   */
  method Solve(b: Board<char>, part: Part) returns (total: int)
    requires b.Valid() && b.visits == map[] && b.paths == map[] && b.overrides == map[]
    modifies b`visits, b`paths, b`pos, b`overrides
    ensures total == Answer(b.GetDimension(), b.ViewWith(map[]), part)
    ensures 0 <= total <= b.GetDimension().n * b.GetDimension().m
  {
    ghost var view := b.View();
    var d := b.GetDimension();
    AnswerBound(d, view, part);
    var g := FindGuard(b);
    if g.dir == Unspecified {
      return 0;
    }
    if part == Part1 {
      total := CountVisited(b, g);
    } else {
      total := CountTraps(b, g);
    }
  }
}
