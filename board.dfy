/**
 * The bounded board: a dense rectangular grid of values, the agent's current
 * position, a visit counter per position, a path counter per (position,
 * direction) pose, and a read-only override overlay consulted before the grid.
 * Every access is bounds-checked; an out-of-bounds access reports
 * `OutOfBounds` and changes nothing.
 */
module Board {
  import opened Common
  import opened Geometry
  import Fetcher

  /** The counter value of key `k`, where an absent key counts as 0. */
  function Count<K>(counts: map<K, nat>, k: K): nat {
    if k in counts then counts[k] else 0
  }

  /** The cells of `cells` that have no visit entry, in the order of `cells`. */
  function Unvisited(cells: seq<Position>, visits: map<Position, nat>): seq<Position>
  {
    if cells == [] then []
    else
      var last := cells[|cells| - 1];
      Unvisited(cells[..|cells| - 1], visits) + (if last !in visits then [last] else [])
  }

  lemma UnvisitedSnoc(cells: seq<Position>, p: Position, visits: map<Position, nat>)
    ensures Unvisited(cells + [p], visits) == Unvisited(cells, visits) + (if p !in visits then [p] else [])
  {
    assert (cells + [p])[..|cells|] == cells;
  }

  /** Scanning cell `x` of row `y` extends the unvisited list by that cell when it has no visit entry. */
  lemma UnvisitedScanStep(y: int, x: int, m: int, visits: map<Position, nat>)
    requires 0 <= x
    ensures Unvisited(CellsUpTo(y, m) + Row(y, x + 1), visits) ==
      Unvisited(CellsUpTo(y, m) + Row(y, x), visits) + (if Position(x, y) !in visits then [Position(x, y)] else [])
  {
    ScanNext(y, x, m);
    UnvisitedSnoc(CellsUpTo(y, m) + Row(y, x), Position(x, y), visits);
  }

  /** The unvisited cells are exactly the cells without a visit entry. */
  lemma {:induction false} UnvisitedMembers(cells: seq<Position>, visits: map<Position, nat>)
    ensures forall q :: q in Unvisited(cells, visits) <==> q in cells && q !in visits
    decreases |cells|
  {
    if cells != [] {
      var prefix, last := cells[..|cells| - 1], cells[|cells| - 1];
      assert cells == prefix + [last];
      UnvisitedMembers(prefix, visits);
      forall q
        ensures q in Unvisited(cells, visits) <==> q in cells && q !in visits
      {
        assert q in cells <==> q in prefix || q == last;
      }
    }
  }

  /** Filtering keeps the order of `cells`, so a row-major scan yields a row-major list. */
  lemma {:induction false} UnvisitedRowMajor(cells: seq<Position>, visits: map<Position, nat>)
    requires RowMajor(cells)
    ensures RowMajor(Unvisited(cells, visits))
    decreases |cells|
  {
    if cells != [] {
      var prefix, last := cells[..|cells| - 1], cells[|cells| - 1];
      assert RowMajor(prefix);
      UnvisitedRowMajor(prefix, visits);
      UnvisitedMembers(prefix, visits);
      var u := Unvisited(prefix, visits);
      forall i | 0 <= i < |u|
        ensures Before(u[i], last)
      {
        assert u[i] in prefix;
        var k :| 0 <= k < |prefix| && prefix[k] == u[i];
        assert cells[k] == u[i];
      }
    }
  }

  /** With no visits at all, every cell is unvisited. */
  lemma {:induction false} UnvisitedNone(cells: seq<Position>)
    ensures Unvisited(cells, map[]) == cells
    decreases |cells|
  {
    if cells != [] {
      UnvisitedNone(cells[..|cells| - 1]);
    }
  }

  /**
   * When exactly the first `k` cells have been visited, the unvisited list is
   * the remaining suffix: its head is the next cell of the scan.
   */
  lemma {:induction false} UnvisitedSuffix(cells: seq<Position>, visits: map<Position, nat>, k: nat)
    requires k <= |cells|
    requires forall i :: 0 <= i < k ==> cells[i] in visits
    requires forall i :: k <= i < |cells| ==> cells[i] !in visits
    ensures Unvisited(cells, visits) == cells[k..]
    decreases |cells|
  {
    if cells != [] {
      var prefix := cells[..|cells| - 1];
      if k == |cells| {
        UnvisitedSuffix(prefix, visits, k - 1);
      } else {
        UnvisitedSuffix(prefix, visits, k);
      }
    }
  }

  /** A board of characters as a value: its keys are the on-grid positions (see `Board.View`). */
  type View = map<Position, char>

  /** The character at `p`; the zero character off the grid. */
  function CharAt(v: View, p: Position): char {
    if p in v then v[p] else 0 as char
  }

  /**
   * Lines of equal length `m` as a board value: every position of the
   * `|rows|` by `m` grid, holding the character of its line there.
   */
  function TextView(rows: seq<string>, m: int): (v: View)
    requires forall i :: 0 <= i < |rows| ==> |rows[i]| == m
    ensures forall p :: p in v <==> CheckPos(Dimension(|rows|, m), p)
    ensures forall p :: p in v ==> 0 <= p.y < |rows| && 0 <= p.x < m && v[p] == rows[p.y][p.x]
  {
    map p | p in InBounds(Dimension(|rows|, m)) :: rows[p.y][p.x]
  }

  class Board<T> {
    var pos: Position
    const grid: array2<T>
    var visits: map<Position, nat>
    var paths: map<Pose, nat>
    var overrides: map<Position, T>

    /** Visit counters only ever hold in-bounds keys, each with a count of at least 1. */
    predicate VisitsValid()
      reads this`visits
    {
      forall q :: q in visits ==> CheckPos(GetDimension(), q) && visits[q] >= 1
    }

    /** Path counters only ever hold in-bounds poses, each with a count of at least 1. */
    predicate PathsValid()
      reads this`paths
    {
      forall g :: g in paths ==> CheckPos(GetDimension(), g.pos) && paths[g] >= 1
    }

    predicate Valid()
      reads this`visits, this`paths
    {
      VisitsValid() && PathsValid()
    }

    /** A board over `g`, at position (0, 0), with no visits, no paths and no overrides. */
    constructor (g: array2<T>)
      ensures grid == g && pos == Position(0, 0)
      ensures visits == map[] && paths == map[] && overrides == map[]
      ensures Valid()
    {
      grid := g;
      pos := Position(0, 0);
      visits := map[];
      paths := map[];
      overrides := map[];
    }

    /**
     * `{0, 0}` for a grid without rows, otherwise rows by columns. A position
     * passes the bounds check exactly when it indexes the grid's storage.
     */
    function GetDimension(): (d: Dimension)
      ensures d.n >= 0 && d.m >= 0
      ensures forall p :: CheckPos(d, p) <==> 0 <= p.y < grid.Length0 && 0 <= p.x < grid.Length1
    {
      if grid.Length0 == 0 then Dimension(0, 0) else Dimension(grid.Length0, grid.Length1)
    }

    /** What `Get(p)` returns once the overlay `ov` is installed. */
    function GetWithOverrides(ov: map<Position, T>, p: Position): Result<T>
      reads grid
    {
      if !CheckPos(GetDimension(), p) then Err(OutOfBounds)
      else if p in ov then Ok(ov[p])
      else Ok(grid[p.y, p.x])
    }

    /**
     * The value at `p`: fails with `OutOfBounds` exactly when `p` is outside
     * the grid; inside, an overlay entry shadows the grid cell.
     */
    function Get(p: Position): (r: Result<T>)
      reads this`overrides, grid
      ensures r.Err? <==> !CheckPos(GetDimension(), p)
      ensures r.Ok? && p in overrides ==> r.value == overrides[p]
      ensures r.Ok? && p !in overrides ==> r.value == grid[p.y, p.x]
    {
      GetWithOverrides(overrides, p)
    }

    /**
     * The board as a value under overlay `ov`: every in-bounds position,
     * mapped to what a read through `ov` returns there.
     */
    function ViewWith(ov: map<Position, T>): (v: map<Position, T>)
      reads grid
      ensures forall p :: p in v <==> CheckPos(GetDimension(), p)
      ensures forall p :: p in v ==> GetWithOverrides(ov, p) == Ok(v[p])
    {
      map p | p in InBounds(GetDimension()) :: GetWithOverrides(ov, p).value
    }

    /** The board as a value: `Get` fails outside its keys and returns its entry inside. */
    function View(): (v: map<Position, T>)
      reads this`overrides, grid
      ensures forall p :: Get(p) == if p in v then Ok(v[p]) else Err(OutOfBounds)
    {
      ViewWith(overrides)
    }

    /** Overlaying one in-bounds cell replaces that cell of the plain view and nothing else. */
    lemma ViewWithOne(c: Position, x: T)
      requires CheckPos(GetDimension(), c)
      ensures ViewWith(map[c := x]) == ViewWith(map[])[c := x]
    {
    }

    /**
     * Writes the grid cell at `p` and nothing else (never the overlay or the
     * counters); out of bounds it fails and changes nothing. A later `Get(p)`
     * returns `v` unless the overlay shadows `p`.
     */
    method Set(p: Position, v: T) returns (o: Outcome)
      modifies grid
      ensures o == if CheckPos(GetDimension(), p) then Success else Failure(OutOfBounds)
      ensures o.Success? ==> grid[p.y, p.x] == v
      ensures forall i, j :: 0 <= i < grid.Length0 && 0 <= j < grid.Length1 && (i, j) != (p.y, p.x) ==>
        grid[i, j] == old(grid[i, j])
      ensures o.Success? && p !in overrides ==> Get(p) == Ok(v)
      ensures o.Failure? ==> Get(p) == Err(OutOfBounds)
    {
      if !CheckPos(GetDimension(), p) {
        return Failure(OutOfBounds);
      }
      grid[p.y, p.x] := v;
      return Success;
    }

    /** How often `p` was visited; zero exactly when `p` has no visit entry. */
    function GetVisits(p: Position): (r: nat)
      reads this`visits
      ensures VisitsValid() ==> (r == 0 <==> p !in visits)
    {
      Count(visits, p)
    }

    /** How often pose `g` was recorded; zero exactly when `g` has no path entry. */
    function GetPaths(g: Pose): (r: nat)
      reads this`paths
      ensures PathsValid() ==> (r == 0 <==> g !in paths)
    {
      Count(paths, g)
    }

    function GetPosition(): Position
      reads this`pos
    {
      pos
    }

    /**
     * In bounds: raises the visit count of `p` by exactly one (an absent key
     * counting as 0) and moves the agent to `p`. Out of bounds: fails and
     * changes nothing.
     */
    method Visit(p: Position) returns (o: Outcome)
      requires Valid()
      modifies this`visits, this`pos
      ensures Valid()
      ensures o == if CheckPos(GetDimension(), p) then Success else Failure(OutOfBounds)
      ensures o.Success? ==> visits == old(visits)[p := old(GetVisits(p)) + 1] && pos == p
      ensures o.Success? ==> visits.Keys == old(visits).Keys + {p}
      ensures o.Failure? ==> visits == old(visits) && pos == old(pos)
    {
      var d := GetDimension();
      if !CheckPos(d, p) {
        return Failure(OutOfBounds);
      }
      if p !in visits {
        visits := visits[p := 1];
      } else {
        visits := visits[p := visits[p] + 1];
      }
      pos := p;
      return Success;
    }

    /**
     * In bounds: raises the path count of `g` by one, and (through `Visit`)
     * the visit count of its position by one, and moves the agent there. Out
     * of bounds: fails and changes nothing.
     */
    method VisitPath(g: Pose) returns (o: Outcome)
      requires Valid()
      modifies this`visits, this`paths, this`pos
      ensures Valid()
      ensures o == if CheckPos(GetDimension(), g.pos) then Success else Failure(OutOfBounds)
      ensures o.Success? ==>
        && paths == old(paths)[g := old(GetPaths(g)) + 1]
        && visits == old(visits)[g.pos := old(GetVisits(g.pos)) + 1]
        && pos == g.pos
      ensures o.Success? ==> paths.Keys == old(paths).Keys + {g} && visits.Keys == old(visits).Keys + {g.pos}
      ensures o.Failure? ==> paths == old(paths) && visits == old(visits) && pos == old(pos)
    {
      var d := GetDimension();
      if !CheckPos(d, g.pos) {
        return Failure(OutOfBounds);
      }
      if g !in paths {
        paths := paths[g := 1];
      } else {
        paths := paths[g := paths[g] + 1];
      }
      pos := g.pos;
      o := Visit(g.pos);
    }

    /** Clears every visit count. */
    method ResetVisits()
      requires Valid()
      modifies this`visits
      ensures Valid() && visits == map[]
      ensures forall p :: GetVisits(p) == 0
    {
      visits := map[];
    }

    /** Clears every path count. */
    method ResetPaths()
      requires Valid()
      modifies this`paths
      ensures Valid() && paths == map[]
      ensures forall g :: GetPaths(g) == 0
    {
      paths := map[];
    }

    /**
     * Every in-bounds position without a visit entry, each exactly once, in
     * row-major order; after `ResetVisits` that is every cell of the grid.
     */
    method GetUnvisited() returns (unvisited: seq<Position>)
      ensures unvisited == Unvisited(Cells(GetDimension()), visits)
      ensures forall q :: q in unvisited <==> CheckPos(GetDimension(), q) && q !in visits
      ensures RowMajor(unvisited)
      ensures visits == map[] ==> unvisited == Cells(GetDimension())
    {
      var d := GetDimension();
      unvisited := [];
      for i := 0 to d.n
        invariant unvisited == Unvisited(CellsUpTo(i, d.m), visits)
      {
        ScanStart(i, d.m);
        for j := 0 to d.m
          invariant unvisited == Unvisited(CellsUpTo(i, d.m) + Row(i, j), visits)
        {
          var p := Position(j, i);
          UnvisitedScanStep(i, j, d.m, visits);
          if p !in visits {
            unvisited := unvisited + [p];
          }
        }
        ScanRowDone(i, d.m);
      }
      CellsAreTheGrid(d);
      UnvisitedMembers(Cells(d), visits);
      UnvisitedRowMajor(Cells(d), visits);
      UnvisitedNone(Cells(d));
    }

    /** The set of positions visited at least once; all in bounds, so at most N*M of them. */
    function GetVisited(): (r: set<Position>)
      reads this`visits
      ensures VisitsValid() ==> forall q :: q in r <==> GetVisits(q) > 0
      ensures VisitsValid() ==> |r| <= GetDimension().n * GetDimension().m
    {
      var r := visits.Keys;
      if VisitsValid() then InBoundsSetSize(GetDimension(), r); r else r
    }

    /** Installs `ov` as the overlay; the grid and the counters are untouched. */
    method WithOverrides(ov: map<Position, T>)
      modifies this`overrides
      ensures overrides == ov
      ensures forall p :: Get(p) == GetWithOverrides(ov, p)
    {
      overrides := ov;
    }
  }

  /** The non-empty lines of `s`, in order. */
  method RemoveEmpty(s: seq<string>) returns (r: seq<string>)
    ensures r == Fetcher.NonEmpty(s)
  {
    r := [];
    for i := 0 to |s|
      invariant r == Fetcher.NonEmpty(s[..i])
    {
      assert s[..i + 1] == s[..i] + [s[i]];
      Fetcher.NonEmptySnoc(s[..i], s[i]);
      if |s[i]| > 0 {
        r := r + [s[i]];
      }
    }
    assert s[..|s|] == s;
  }

  /** Empty lines occur only after the last non-empty one. */
  ghost predicate EmptyLinesTrailing(s: seq<string>) {
    forall i, j :: 0 <= i < j < |s| && s[i] == "" ==> s[j] == ""
  }

  /** All non-empty lines have the same length. */
  ghost predicate Rectangular(s: seq<string>) {
    forall i, j :: 0 <= i < |s| && 0 <= j < |s| && s[i] != "" && s[j] != "" ==> |s[i]| == |s[j]|
  }

  /** With trailing empty lines only, the non-empty lines are exactly the first `|NonEmpty(s)|`. */
  lemma {:induction false} TrailingEmptyLines(s: seq<string>)
    requires EmptyLinesTrailing(s)
    ensures forall i :: 0 <= i < |s| ==> (s[i] != "" <==> i < |Fetcher.NonEmpty(s)|)
    ensures |Fetcher.NonEmpty(s)| <= |s| && Fetcher.NonEmpty(s) == s[..|Fetcher.NonEmpty(s)|]
    decreases |s|
  {
    if s != [] {
      var s', x := s[..|s| - 1], s[|s| - 1];
      assert s == s' + [x];
      TrailingEmptyLines(s');
      Fetcher.NonEmptyFacts(s');
      if x != "" {
        assert forall i :: 0 <= i < |s'| ==> s'[i] != "";
        Fetcher.NonEmptyIdentity(s');
        assert s[..|s|] == s;
      } else {
        assert s[..|Fetcher.NonEmpty(s')|] == s'[..|Fetcher.NonEmpty(s')|];
      }
    }
  }

  /**
   * The shape of a well-formed input: the first `rows` lines are the
   * non-empty ones, and all of them are as long as the first.
   */
  lemma ParseShape(s: seq<string>)
    requires EmptyLinesTrailing(s) && Rectangular(s)
    ensures var rows := |Fetcher.NonEmpty(s)|;
      && rows <= |s|
      && (forall i :: 0 <= i < |s| ==> (|s[i]| == 0 <==> i >= rows))
      && (forall i :: 0 <= i < rows ==> |s[i]| == |s[0]|)
  {
    TrailingEmptyLines(s);
    Fetcher.NonEmptyFacts(s);
  }

  /** Writes the characters of `line` into row `i` of `g`, leaving every other row as it was. */
  method CopyLine(g: array2<char>, i: int, line: string)
    requires 0 <= i < g.Length0 && |line| == g.Length1
    modifies g
    ensures forall x :: 0 <= x < g.Length1 ==> g[i, x] == line[x]
    ensures forall y, x :: 0 <= y < g.Length0 && y != i && 0 <= x < g.Length1 ==> g[y, x] == old(g[y, x])
  {
    for j := 0 to |line|
      invariant forall x :: 0 <= x < j ==> g[i, x] == line[x]
      invariant forall y, x :: 0 <= y < g.Length0 && y != i && 0 <= x < g.Length1 ==> g[y, x] == old(g[y, x])
    {
      g[i, j] := line[j];
    }
  }

  /**
   * One grid row per non-empty line, one cell per character; the board starts
   * at (0, 0) with no visits, paths or overrides.
   */
  method ParseRune(s: seq<string>) returns (b: Board<char>)
    requires EmptyLinesTrailing(s) && Rectangular(s)
    ensures fresh(b) && fresh(b.grid) && b.Valid()
    ensures b.pos == Position(0, 0) && b.visits == map[] && b.paths == map[] && b.overrides == map[]
    ensures b.GetDimension() ==
      var rows := |Fetcher.NonEmpty(s)|;
      Dimension(rows, if rows == 0 then 0 else |s[0]|)
    ensures forall p :: CheckPos(b.GetDimension(), p) ==>
      p.y < |s| && p.x < |s[p.y]| && b.Get(p) == Ok(s[p.y][p.x])
    ensures var lines, m := Fetcher.NonEmpty(s), b.GetDimension().m;
      && (forall i :: 0 <= i < |lines| ==> |lines[i]| == m)
      && b.View() == TextView(lines, m)
  {
    var lines := RemoveEmpty(s);
    ParseShape(s);
    var rows := |lines|;
    var columns := if rows == 0 then 0 else |s[0]|;
    var g := new char[rows, columns];
    for i := 0 to |s|
      invariant forall y, x :: 0 <= y < i && y < rows && 0 <= x < columns ==> g[y, x] == s[y][x]
    {
      if |s[i]| == 0 {
        continue;
      }
      assert |s[i]| == columns;
      CopyLine(g, i, s[i]);
    }
    b := new Board(g);
    TrailingEmptyLines(s);
    assert forall p :: CheckPos(b.GetDimension(), p) ==> b.Get(p) == Ok(lines[p.y][p.x]);
    ViewOfLines(b, lines);
  }

  /** A board that reads each in-bounds cell from the matching line has those lines as its view. */
  lemma ViewOfLines(b: Board<char>, lines: seq<string>)
    requires b.GetDimension().n == |lines|
    requires forall i :: 0 <= i < |lines| ==> |lines[i]| == b.GetDimension().m
    requires forall p :: CheckPos(b.GetDimension(), p) ==> b.Get(p) == Ok(lines[p.y][p.x])
    ensures b.View() == TextView(lines, b.GetDimension().m)
  {
  }
}
