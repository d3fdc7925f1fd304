/**
 * The game's promise for one new maze: generating from the top-left corner
 * of a fresh grid, clearing the visits and walking from the same corner
 * carves a perfect maze and always finds its way to the bottom-right corner,
 * leaving exactly the cells of that way marked.
 */
module Solving {
  import opened Cells
  import opened Grids
  import opened Passages
  import opened Generation
  import opened Walking

  /**
   * `g` is a perfect maze on a `cols` by `rows` grid carved by `carved`: a
   * tree grown from (0, 0) within the grid, entering every other cell once,
   * whose passages are exactly the walls down, with neighbours agreeing on
   * every shared wall and all outer walls up.
   */
  ghost predicate PerfectMaze(g: Grid, cols: nat, rows: nat, carved: seq<Passage>)
  {
    && g.Keys == AllCells(cols, rows)
    && IsTree((0, 0), carved) && Within(carved, AllCells(cols, rows))
    && Targets(carved) == AllCells(cols, rows) - {(0, 0)}
    && |carved| == cols * rows - 1
    && (forall p, d :: p in g ==> (HasWall(g[p].walls, d) <==> (p, d) !in Sides(carved)))
    && WallsSymmetric(g)
    && (forall p, d :: p in g && Step(p, d) !in g ==> HasWall(g[p].walls, d))
  }

  /** `path` leads from `start` to `goal` through walls that are down, with no cell twice. */
  ghost predicate PathFound(g: Grid, start: Pos, goal: Pos, path: seq<Pos>)
  {
    && |path| >= 1 && path[0] == start && path[|path| - 1] == goal
    && (forall i :: 0 <= i < |path| - 1 ==> Passable(g, path[i], path[i + 1]))
    && (forall i, j :: 0 <= i < j < |path| ==> path[i] != path[j])
  }

  /**
   * `path` is a way from `start` to `goal`, and the solution cells of `g`
   * are exactly the cells of the path other than the goal.
   */
  ghost predicate SolutionMarked(g: Grid, start: Pos, goal: Pos, path: seq<Pos>)
  {
    && PathFound(g, start, goal, path)
    && (forall x :: x in g ==> (g[x].solution <==> x in path && x != goal))
  }

  /**
   * In a maze whose walls down are exactly the sides of a spanning tree
   * grown from (0, 0), with no cell visited, an open chain leads from
   * (0, 0) to every cell.
   */
  lemma ChainTo(g: Grid, cells: set<Pos>, carved: seq<Passage>, q: Pos) returns (chain: seq<Pos>)
    requires g.Keys == cells && q in cells && (0, 0) in cells
    requires IsTree((0, 0), carved) && Within(carved, cells) && Targets(carved) == cells - {(0, 0)}
    requires forall p, d :: p in g ==> (HasWall(g[p].walls, d) <==> (p, d) !in Sides(carved))
    requires forall x :: x in g ==> !g[x].visited
    ensures OpenChain(g, (0, 0), q, chain)
  {
    if q == (0, 0) {
      chain := [q];
    } else {
      TargetsExact(carved, q);
      var i :| 0 <= i < |carved| && Target(carved[i]) == q;
      chain := TreeReaches((0, 0), carved, i);
      forall k | 0 <= k < |chain| - 1
        ensures Passable(g, chain[k], chain[k + 1])
      {
        assert Joined(carved, chain[k], chain[k + 1]);
        var d :| (chain[k], d) in Sides(carved) && Step(chain[k], d) == chain[k + 1];
        SidesStayWithin(carved, cells, chain[k], d);
        PassableStep(g, chain[k], d);
      }
      forall k | 1 <= k < |chain|
        ensures chain[k] in g && !g[chain[k]].visited
      {
        assert Passable(g, chain[k - 1], chain[k]);
      }
    }
  }

  /** A grid with the same walls as a perfect maze is the same perfect maze. */
  lemma PerfectSameWalls(g1: Grid, g2: Grid, cols: nat, rows: nat, carved: seq<Passage>)
    requires PerfectMaze(g1, cols, rows, carved) && SameWalls(g1, g2)
    ensures PerfectMaze(g2, cols, rows, carved)
  {
    forall p, d | p in g2
      ensures HasWall(g2[p].walls, d) <==> (p, d) !in Sides(carved)
      ensures Step(p, d) in g2 ==> (HasWall(g2[p].walls, d) <==> HasWall(g2[Step(p, d)].walls, Opposite(d)))
      ensures Step(p, d) !in g2 ==> HasWall(g2[p].walls, d)
    {
      assert g2[p].walls == g1[p].walls;
    }
  }

  /**
   * A walk that found `path` on a grid with nothing visited or marked leaves
   * exactly the cells of the path before the goal marked.
   */
  lemma MarkedFromClear(g0: Grid, g1: Grid, start: Pos, goal: Pos, path: seq<Pos>)
    requires forall x :: x in g0 ==> !g0[x].visited && !g0[x].solution
    requires Kept(g0, g1, start, goal) && Solved(g0, g1, start, goal, path)
    ensures SolutionMarked(g1, start, goal, path)
  {
    forall i | 0 <= i < |path| - 1
      ensures Passable(g1, path[i], path[i + 1])
    {
      PassableSameWalls(g0, g1, path[i], path[i + 1]);
    }
    forall x | x in g1
      ensures g1[x].solution <==> x in path && x != goal
    {
      if x != goal && x != start && x !in NewlyVisited(g0, g1) {
        assert !g1[x].visited;
        assert x !in path by {
          forall i | 0 <= i < |path|
            ensures path[i] != x
          {
          }
        }
      }
    }
  }

  /** A perfect maze with no cell visited or marked: the state in which the game starts the walker. */
  ghost predicate ReadyToWalk(g: Grid, cols: nat, rows: nat, carved: seq<Passage>)
  {
    PerfectMaze(g, cols, rows, carved) && forall x :: x in g ==> !g[x].visited && !g[x].solution
  }

  /**
   * For any draws: the maze carved from (0, 0) on a fresh grid is perfect,
   * and once its visits are cleared it is ready to be walked.
   */
  lemma MazeCarved(cols: nat, rows: nat, draws: seq<nat>, used: nat, generated: Grid, usedAfter: nat, carved: seq<Passage>)
    requires 0 < cols && 0 < rows
    requires Generate(FreshGrid(cols, rows), (0, 0), draws, used) == Outcome(generated, usedAfter, carved)
    ensures PerfectMaze(generated, cols, rows, carved)
    ensures ReadyToWalk(ClearVisits(generated), cols, rows, carved)
  {
    GenerateGrows(FreshGrid(cols, rows), (0, 0), draws, used);
    GeneratedFromFresh(cols, rows, generated, carved);
    CellCount(cols, rows);
    assert PerfectMaze(generated, cols, rows, carved);
    PerfectSameWalls(generated, ClearVisits(generated), cols, rows, carved);
  }

  /**
   * For any draws: the walker started at (0, 0) with the done flag down on
   * a maze ready to be walked reaches the bottom-right corner, changes no
   * wall, and leaves exactly the cells of its path before the corner marked.
   */
  lemma MazeWalked(g: Grid, cols: nat, rows: nat, carved: seq<Passage>, draws: seq<nat>, used: nat,
                   walked: Grid, usedAfter: nat, found: bool, path: seq<Pos>)
    requires 0 < cols && 0 < rows && ReadyToWalk(g, cols, rows, carved)
    requires Walk(g, (0, 0), (cols - 1, rows - 1), draws, used, false) == Trip(walked, usedAfter, found, path)
    ensures found
    ensures PerfectMaze(walked, cols, rows, carved)
    ensures SolutionMarked(walked, (0, 0), (cols - 1, rows - 1), path)
  {
    var start, goal := (0, 0), (cols - 1, rows - 1);
    var chain := ChainTo(g, AllCells(cols, rows), carved, goal);
    WalkSound(g, start, goal, draws, used);
    WalkFinds(g, start, goal, draws, used, chain);
    MarkedFromClear(g, walked, start, goal, path);
    PerfectSameWalls(g, walked, cols, rows, carved);
  }

  /**
   * For any draws: the maze carved from (0, 0) on a fresh grid is perfect,
   * and after its visits are cleared the walker started at (0, 0) with the
   * done flag down reaches the bottom-right corner, changes no wall, and
   * leaves exactly the cells of its path before the corner marked.
   */
  lemma PerfectMazeSolved(cols: nat, rows: nat, draws: seq<nat>, used: nat)
    requires 0 < cols && 0 < rows
    ensures var gen := Generate(FreshGrid(cols, rows), (0, 0), draws, used);
      var t := Walk(ClearVisits(gen.grid), (0, 0), (cols - 1, rows - 1), draws, gen.used, false);
      && t.done
      && PerfectMaze(t.grid, cols, rows, gen.carved)
      && SolutionMarked(t.grid, (0, 0), (cols - 1, rows - 1), t.path)
  {
    var gen := Generate(FreshGrid(cols, rows), (0, 0), draws, used);
    MazeCarved(cols, rows, draws, used, gen.grid, gen.used, gen.carved);
    var t := Walk(ClearVisits(gen.grid), (0, 0), (cols - 1, rows - 1), draws, gen.used, false);
    MazeWalked(ClearVisits(gen.grid), cols, rows, gen.carved, draws, gen.used, t.grid, t.used, t.done, t.path);
  }

  /**
   * A walk that found `path` leaves it a way through walls down, with every
   * cell of it before the goal marked.
   */
  lemma FoundMarked(g0: Grid, g1: Grid, start: Pos, goal: Pos, path: seq<Pos>)
    requires Kept(g0, g1, start, goal) && Solved(g0, g1, start, goal, path)
    ensures PathFound(g1, start, goal, path)
    ensures forall i :: 0 <= i < |path| - 1 ==> path[i] in g1 && g1[path[i]].solution
  {
    forall i | 0 <= i < |path| - 1
      ensures Passable(g1, path[i], path[i + 1]) && path[i] in g1 && g1[path[i]].solution
    {
      PassableSameWalls(g0, g1, path[i], path[i + 1]);
      if i > 0 {
        assert path[i] in NewlyVisited(g0, g1);
      }
    }
  }

  /**
   * Solving a perfect maze again after clearing its visits, whatever
   * solution flags an earlier walk left, reaches the bottom-right corner
   * along a way through walls down, marks every cell of it before the
   * corner, and changes no wall.
   */
  lemma SolveAgain(g: Grid, cols: nat, rows: nat, carved: seq<Passage>, draws: seq<nat>, used: nat)
    requires 0 < cols && 0 < rows && PerfectMaze(g, cols, rows, carved)
    ensures var t := Walk(ClearVisits(g), (0, 0), (cols - 1, rows - 1), draws, used, false);
      && t.done && PerfectMaze(t.grid, cols, rows, carved)
      && PathFound(t.grid, (0, 0), (cols - 1, rows - 1), t.path)
      && (forall i :: 0 <= i < |t.path| - 1 ==> t.path[i] in t.grid && t.grid[t.path[i]].solution)
  {
    var start, goal := (0, 0), (cols - 1, rows - 1);
    var g2 := ClearVisits(g);
    var chain := ChainTo(g2, AllCells(cols, rows), carved, goal);
    WalkSound(g2, start, goal, draws, used);
    WalkFinds(g2, start, goal, draws, used, chain);
    var t := Walk(g2, start, goal, draws, used, false);
    FoundMarked(g2, t.grid, start, goal, t.path);
    assert SameWalls(g, t.grid);
    PerfectSameWalls(g, t.grid, cols, rows, carved);
  }
}
