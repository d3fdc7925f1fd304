/** Directions, grid positions and the per-cell state of the maze grid. */
module Cells {

  /** The direction the next step of a backtracker takes. */
  datatype Direction = North | East | South | West

  /** A grid position (column, row); columns grow eastward, rows southward. */
  type Pos = (int, int)

  /** The cell one step away from `p` in direction `d`. */
  function Step(p: Pos, d: Direction): (q: Pos)
    ensures d == East <==> q.0 == p.0 + 1
    ensures d == West <==> q.0 == p.0 - 1
    ensures d == South <==> q.1 == p.1 + 1
    ensures d == North <==> q.1 == p.1 - 1
    ensures d == East || d == West <==> q.1 == p.1
    ensures d == North || d == South <==> q.0 == p.0
  {
    match d
    case North => (p.0, p.1 - 1)
    case East => (p.0 + 1, p.1)
    case South => (p.0, p.1 + 1)
    case West => (p.0 - 1, p.1)
  }

  /** The direction facing back across the same edge. */
  function Opposite(d: Direction): (o: Direction)
    ensures o != d
    ensures (d == East <==> o == West) && (d == West <==> o == East)
    ensures (d == North <==> o == South) && (d == South <==> o == North)
  {
    match d
    case North => South
    case East => West
    case South => North
    case West => East
  }

  /** Stepping across an edge and back again returns to the start. */
  lemma StepBack(p: Pos, d: Direction)
    ensures Step(Step(p, d), Opposite(d)) == p
    ensures Opposite(Opposite(d)) == d
  {
  }

  /**
   * The directions whose flag is set, in the order east, west, south, north:
   * the order in which the backtrackers test their neighbours.
   */
  function Listed(east: bool, west: bool, south: bool, north: bool): (ds: seq<Direction>)
    ensures |ds| <= 4
    ensures |ds| == (if east then 1 else 0) + (if west then 1 else 0)
                    + (if south then 1 else 0) + (if north then 1 else 0)
  {
    (if east then [East] else []) + (if west then [West] else [])
    + (if south then [South] else []) + (if north then [North] else [])
  }

  /** Exactly the directions whose flag is set are listed. */
  lemma ListedExact(east: bool, west: bool, south: bool, north: bool)
    ensures forall d :: d in Listed(east, west, south, north) <==>
      (d == East && east) || (d == West && west) || (d == South && south) || (d == North && north)
  {
  }

  /** No direction occurs twice in `ds`. */
  ghost predicate Distinct(ds: seq<Direction>)
  {
    forall i, j :: 0 <= i < j < |ds| ==> ds[i] != ds[j]
  }

  /** Putting a direction not yet listed in front keeps a list free of repeats. */
  lemma PrependDistinct(b: bool, x: Direction, s: seq<Direction>)
    requires x !in s && Distinct(s)
    ensures Distinct((if b then [x] else []) + s)
  {
    if b {
      var t := [x] + s;
      forall i, j | 0 <= i < j < |t|
        ensures t[i] != t[j]
      {
        assert t[j] == s[j - 1];
        if i > 0 {
          assert t[i] == s[i - 1];
        }
      }
    } else {
      assert [] + s == s;
    }
  }

  /** No direction is listed twice. */
  lemma ListedDistinct(east: bool, west: bool, south: bool, north: bool)
    ensures Distinct(Listed(east, west, south, north))
  {
    var last := if north then [North] else [];
    var tail := (if south then [South] else []) + last;
    var middle := (if west then [West] else []) + tail;
    PrependDistinct(south, South, last);
    PrependDistinct(west, West, tail);
    PrependDistinct(east, East, middle);
    assert Listed(east, west, south, north) == (if east then [East] else []) + middle;
  }

  /** Which walls of a cell are still up (true) or knocked down (false). */
  datatype WallDirections = WallDirections(north: bool, east: bool, south: bool, west: bool)

  /** One square of the maze grid. */
  datatype Cell = Cell(walls: WallDirections, visited: bool, solution: bool)

  /** The wall of `w` facing `d`. */
  function HasWall(w: WallDirections, d: Direction): bool
  {
    match d
    case North => w.north
    case East => w.east
    case South => w.south
    case West => w.west
  }

  /** `w` with the wall facing `d` knocked down and the other three as they were. */
  function KnockDown(w: WallDirections, d: Direction): (w': WallDirections)
    ensures !HasWall(w', d)
    ensures forall e :: e != d ==> HasWall(w', e) == HasWall(w, e)
  {
    match d
    case North => w.(north := false)
    case East => w.(east := false)
    case South => w.(south := false)
    case West => w.(west := false)
  }

  /** A cell as `new Cell()` makes it: every field at its initializer (all false). */
  const NewCell := Cell(WallDirections(false, false, false, false), false, false)

  /** A cell with all four walls up and neither flag set. */
  const WalledCell := Cell(WallDirections(true, true, true, true), false, false)

  /** `p` lies on a grid of `cols` columns and `rows` rows. */
  predicate Inside(p: Pos, cols: int, rows: int)
  {
    0 <= p.0 < cols && 0 <= p.1 < rows
  }

  /** Every position of a `cols` by `rows` grid. */
  function AllCells(cols: nat, rows: nat): (s: set<Pos>)
    ensures forall p :: p in s <==> Inside(p, cols, rows)
  {
    set c, r | 0 <= c < cols && 0 <= r < rows :: (c, r)
  }

  /** Column `c` of a grid with `rows` rows. */
  function Column(c: int, rows: nat): (s: set<Pos>)
    ensures forall p :: p in s <==> p.0 == c && 0 <= p.1 < rows
  {
    set r | 0 <= r < rows :: (c, r)
  }

  /** A column of the grid holds one cell per row. */
  lemma {:induction false} ColumnCount(c: int, rows: nat)
    ensures |Column(c, rows)| == rows
    decreases rows
  {
    if rows > 0 {
      ColumnCount(c, rows - 1);
      assert Column(c, rows) == Column(c, rows - 1) + {(c, rows - 1)};
    }
  }

  /** A `cols` by `rows` grid holds `cols * rows` cells. */
  lemma {:induction false} CellCount(cols: nat, rows: nat)
    ensures |AllCells(cols, rows)| == cols * rows
    decreases cols
  {
    if cols > 0 {
      CellCount(cols - 1, rows);
      ColumnCount(cols - 1, rows);
      assert AllCells(cols, rows) == AllCells(cols - 1, rows) + Column(cols - 1, rows);
      assert AllCells(cols - 1, rows) !! Column(cols - 1, rows);
      assert |AllCells(cols, rows)| == (cols - 1) * rows + rows;
      MulSucc(cols - 1, rows);
    }
  }

  lemma MulSucc(a: int, b: int)
    ensures a * b + b == (a + 1) * b
  {
  }

  /**
   * A set of cells that holds (0, 0) and, with every cell, all of that cell's
   * neighbours on the grid, holds the whole grid: the grid is connected.
   */
  lemma GridConnected(cols: int, rows: int, s: set<Pos>)
    requires (0, 0) in s
    requires forall p, d :: p in s && Inside(Step(p, d), cols, rows) ==> Step(p, d) in s
    ensures forall p :: Inside(p, cols, rows) ==> p in s
  {
    forall p | Inside(p, cols, rows)
      ensures p in s
    {
      Reached(cols, rows, s, p);
    }
  }

  /** The induction behind `GridConnected`: walk east along row 0, then south. */
  lemma {:induction false} Reached(cols: int, rows: int, s: set<Pos>, p: Pos)
    requires (0, 0) in s
    requires forall p, d :: p in s && Inside(Step(p, d), cols, rows) ==> Step(p, d) in s
    requires Inside(p, cols, rows)
    ensures p in s
    decreases p.0 + p.1
  {
    if p.1 > 0 {
      var q := (p.0, p.1 - 1);
      Reached(cols, rows, s, q);
      assert Step(q, South) == p;
    } else if p.0 > 0 {
      var q := (p.0 - 1, p.1);
      Reached(cols, rows, s, q);
      assert Step(q, East) == p;
    }
  }
}
