/**
 * The maze grid as a value: the state of every cell by position. The game
 * keeps this state in a two-dimensional array; these definitions describe a
 * snapshot of it, and the single steps the two backtrackers take on it.
 */
module Grids {
  import opened Cells

  /** The cells of a grid, by position. */
  type Grid = map<Pos, Cell>

  /** The cells never visited. */
  ghost function Unvisited(g: Grid): (u: set<Pos>)
    ensures forall p :: p in u <==> p in g && !g[p].visited
  {
    set p | p in g && !g[p].visited
  }

  /** Every neighbour of `p` that is on the grid has been visited. */
  ghost predicate Closed(g: Grid, p: Pos)
  {
    forall d :: Step(p, d) in g ==> g[Step(p, d)].visited
  }

  /** Neighbours agree on every wall they share: one side is up exactly when the other is. */
  ghost predicate WallsSymmetric(g: Grid)
  {
    forall p, d :: p in g && Step(p, d) in g ==>
      (HasWall(g[p].walls, d) <==> HasWall(g[Step(p, d)].walls, Opposite(d)))
  }

  /** The two grids hold the same cells with the same walls. */
  ghost predicate SameWalls(g0: Grid, g1: Grid)
  {
    g1.Keys == g0.Keys && forall p :: p in g0 ==> g1[p].walls == g0[p].walls
  }

  /** The two grids hold the same cells, and every cell visited in `g0` is visited in `g1`. */
  ghost predicate VisitsKept(g0: Grid, g1: Grid)
  {
    g1.Keys == g0.Keys && forall p :: p in g0 && g0[p].visited ==> g1[p].visited
  }

  /** The cells visited in `g1` that were not in `g0`. */
  ghost function NewlyVisited(g0: Grid, g1: Grid): (s: set<Pos>)
    ensures forall p :: p in s <==> p in g0 && p in g1 && g1[p].visited && !g0[p].visited
  {
    set p | p in g0 && p in g1 && g1[p].visited && !g0[p].visited
  }

  /** The grid initializeMazeGrid builds: every cell has all four walls up and no flag set. */
  ghost function FreshGrid(cols: nat, rows: nat): (g: Grid)
    ensures g.Keys == AllCells(cols, rows)
    ensures forall p, d :: p in g ==> HasWall(g[p].walls, d) && !g[p].visited && !g[p].solution
  {
    map p | p in AllCells(cols, rows) :: WalledCell
  }

  /** The grid resetMazeGrid leaves: every visited flag cleared, all else kept. */
  ghost function ClearVisits(g: Grid): (g': Grid)
    ensures g'.Keys == g.Keys && SameWalls(g, g')
    ensures forall p :: p in g ==> !g'[p].visited && g'[p].solution == g[p].solution
  {
    map p | p in g :: g[p].(visited := false)
  }

  /**
   * One carving step of the generator: the wall of `p` facing `d` and the
   * wall of the neighbour facing back both come down.
   */
  ghost function Carve(g: Grid, p: Pos, d: Direction): (g': Grid)
    requires p in g && Step(p, d) in g
    ensures g'.Keys == g.Keys
  {
    var q := Step(p, d);
    var g1 := g[p := g[p].(walls := KnockDown(g[p].walls, d))];
    g1[q := g1[q].(walls := KnockDown(g1[q].walls, Opposite(d)))]
  }

  /**
   * A carving step changes exactly the two sides of one shared wall, and no
   * visited or solution flag.
   */
  lemma CarveChanges(g: Grid, p: Pos, d: Direction)
    requires p in g && Step(p, d) in g
    ensures forall x, e :: x in g ==>
      (HasWall(Carve(g, p, d)[x].walls, e) <==>
        HasWall(g[x].walls, e) && (x, e) != (p, d) && (x, e) != (Step(p, d), Opposite(d)))
    ensures forall x :: x in g ==>
      Carve(g, p, d)[x].visited == g[x].visited && Carve(g, p, d)[x].solution == g[x].solution
  {
    var q := Step(p, d);
    assert q != p;
  }

  /** A carving step leaves the unvisited cells as they were. */
  lemma CarveKeepsUnvisited(g: Grid, p: Pos, d: Direction)
    requires p in g && Step(p, d) in g
    ensures Unvisited(Carve(g, p, d)) == Unvisited(g)
  {
    CarveChanges(g, p, d);
  }

  /** A carving step keeps neighbouring cells in agreement about their shared walls. */
  lemma CarveKeepsSymmetry(g: Grid, p: Pos, d: Direction)
    requires p in g && Step(p, d) in g
    requires WallsSymmetric(g)
    ensures WallsSymmetric(Carve(g, p, d))
  {
    var g' := Carve(g, p, d);
    CarveChanges(g, p, d);
    forall x, e | x in g' && Step(x, e) in g'
      ensures HasWall(g'[x].walls, e) <==> HasWall(g'[Step(x, e)].walls, Opposite(e))
    {
      StepBack(x, e);
      StepBack(p, d);
      if (x, e) == (Step(p, d), Opposite(d)) {
        assert (Step(x, e), Opposite(e)) == (p, d);
      } else if (Step(x, e), Opposite(e)) == (p, d) {
        assert x == Step(Step(x, e), Opposite(e));
      } else if (Step(x, e), Opposite(e)) == (Step(p, d), Opposite(d)) {
        assert e == d;
      }
    }
  }

  /** The neighbour of `p` facing `d` is on the grid and not visited yet. */
  ghost predicate Enterable(g: Grid, p: Pos, d: Direction)
  {
    Step(p, d) in g && !g[Step(p, d)].visited
  }

  /** The neighbour of `p` facing `d` is enterable and `p`'s own wall facing it is down. */
  ghost predicate OpenTo(g: Grid, p: Pos, d: Direction)
    requires p in g
  {
    Enterable(g, p, d) && !HasWall(g[p].walls, d)
  }

  /**
   * The directions from `p` to a neighbour on the grid that has not been
   * visited yet, in the order east, west, south, north.
   */
  ghost function AvailableDirections(g: Grid, p: Pos): (ds: seq<Direction>)
    ensures |ds| <= 4
  {
    Listed(Enterable(g, p, East), Enterable(g, p, West), Enterable(g, p, South), Enterable(g, p, North))
  }

  /**
   * The available directions from `p` whose wall on `p`'s own side is down,
   * in the same order; the neighbour's side of the wall is not looked at.
   */
  ghost function AvailableSolutions(g: Grid, p: Pos): (ds: seq<Direction>)
    requires p in g
    ensures |ds| <= 4
  {
    Listed(OpenTo(g, p, East), OpenTo(g, p, West), OpenTo(g, p, South), OpenTo(g, p, North))
  }

  /**
   * Exactly the unvisited neighbours on the grid are available, and exactly
   * those of them whose wall on `p`'s side is down are solution moves.
   */
  lemma AvailableExact(g: Grid, p: Pos)
    requires p in g
    ensures forall d :: d in AvailableDirections(g, p) <==> Step(p, d) in g && !g[Step(p, d)].visited
    ensures forall d :: d in AvailableSolutions(g, p) <==> d in AvailableDirections(g, p) && !HasWall(g[p].walls, d)
  {
    ListedExact(Enterable(g, p, East), Enterable(g, p, West), Enterable(g, p, South), Enterable(g, p, North));
    ListedExact(OpenTo(g, p, East), OpenTo(g, p, West), OpenTo(g, p, South), OpenTo(g, p, North));
  }

  /** Both lists name each direction at most once. */
  lemma AvailableDistinct(g: Grid, p: Pos)
    requires p in g
    ensures Distinct(AvailableDirections(g, p)) && Distinct(AvailableSolutions(g, p))
  {
    ListedDistinct(Enterable(g, p, East), Enterable(g, p, West), Enterable(g, p, South), Enterable(g, p, North));
    ListedDistinct(OpenTo(g, p, East), OpenTo(g, p, West), OpenTo(g, p, South), OpenTo(g, p, North));
  }

  /** Any available direction leads to an unvisited neighbour on the grid. */
  lemma Picked(g: Grid, p: Pos, k: nat)
    requires k < |AvailableDirections(g, p)|
    ensures Enterable(g, p, AvailableDirections(g, p)[k])
  {
    ListedExact(Enterable(g, p, East), Enterable(g, p, West), Enterable(g, p, South), Enterable(g, p, North));
    assert AvailableDirections(g, p)[k] in AvailableDirections(g, p);
  }

  /** Any solution move leads to an unvisited neighbour through a wall down on `p`'s side. */
  lemma PickedSolution(g: Grid, p: Pos, k: nat)
    requires p in g && k < |AvailableSolutions(g, p)|
    ensures OpenTo(g, p, AvailableSolutions(g, p)[k])
  {
    ListedExact(OpenTo(g, p, East), OpenTo(g, p, West), OpenTo(g, p, South), OpenTo(g, p, North));
    assert AvailableSolutions(g, p)[k] in AvailableSolutions(g, p);
  }

  /** The walker's one-sided move test: the wall of `p` facing `q` is down. */
  ghost predicate Passable(g: Grid, p: Pos, q: Pos)
  {
    p in g && q in g &&
    ((q == Step(p, North) && !HasWall(g[p].walls, North)) ||
     (q == Step(p, East) && !HasWall(g[p].walls, East)) ||
     (q == Step(p, South) && !HasWall(g[p].walls, South)) ||
     (q == Step(p, West) && !HasWall(g[p].walls, West)))
  }

  /** The move from `p` through its wall facing `d`. */
  lemma PassableStep(g: Grid, p: Pos, d: Direction)
    requires p in g && Step(p, d) in g && !HasWall(g[p].walls, d)
    ensures Passable(g, p, Step(p, d))
  {
  }

  /** Where walls are symmetric, the one-sided test goes both ways. */
  lemma PassableBack(g: Grid, p: Pos, q: Pos)
    requires WallsSymmetric(g) && Passable(g, p, q)
    ensures Passable(g, q, p)
  {
    var d :| d in {North, East, South, West} && q == Step(p, d) && !HasWall(g[p].walls, d);
    StepBack(p, d);
    assert !HasWall(g[q].walls, Opposite(d));
    PassableStep(g, q, Opposite(d));
  }

  /** On grids holding the same walls, the same moves are passable. */
  lemma PassableSameWalls(g0: Grid, g1: Grid, p: Pos, q: Pos)
    requires SameWalls(g0, g1) && Passable(g0, p, q)
    ensures Passable(g1, p, q)
  {
  }
}
