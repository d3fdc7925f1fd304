/**
 * What one call of the maze walker does to the grid, stated on grid values:
 * a depth-first search from a cell to the ending cell that marks the cells
 * of the path it is on as solution cells and unmarks them when it backs out.
 */
module Walking {
  import opened Cells
  import opened Grids
  import opened RandomNumbers

  /**
   * What a walker call leaves behind: the grid, how many draws have been
   * consumed, the done flag, and the path it found, from the cell it was
   * called on to the ending cell (empty when it found none).
   */
  datatype Trip = Trip(grid: Grid, used: nat, done: bool, path: seq<Pos>)

  /**
   * The walker call at `p` with the done flag `done` on entry: at the ending
   * cell `goal` it sets the flag and returns at once, leaving the cell as it
   * is; anywhere else it marks the cell visited and part of the solution and
   * tries the open directions.
   */
  ghost function Walk(g: Grid, p: Pos, goal: Pos, draws: seq<nat>, used: nat, done: bool): (r: Trip)
    requires p in g
    ensures r.grid.Keys == g.Keys
    ensures Unvisited(r.grid) <= Unvisited(g)
    ensures p != goal ==> p !in Unvisited(r.grid)
    decreases Unvisited(g), if g[p].visited then 1 else 0, 0
  {
    if p == goal then Trip(g, used, true, [p])
    else
      var marked := g[p := g[p].(visited := true, solution := true)];
      assert Unvisited(marked) == Unvisited(g) - {p};
      WalkLoop(marked, p, goal, draws, used, done)
  }

  /**
   * The walker's loop at a visited `p`: while some open direction leads to
   * an unvisited neighbour, walk there, and stop as soon as the done flag is
   * up; with no direction left, `p` is no longer part of the solution.
   */
  ghost function WalkLoop(g: Grid, p: Pos, goal: Pos, draws: seq<nat>, used: nat, done: bool): (r: Trip)
    requires p in g && g[p].visited
    ensures r.grid.Keys == g.Keys
    ensures Unvisited(r.grid) <= Unvisited(g)
    decreases Unvisited(g), 0, 2
  {
    if AvailableSolutions(g, p) == [] then
      var unmarked := g[p := g[p].(solution := false)];
      assert Unvisited(unmarked) == Unvisited(g);
      Trip(unmarked, used, done, [])
    else
      var b := WalkStep(g, p, goal, draws, used, done);
      if b.done then b
      else
        assert p !in Unvisited(g);
        WalkLoop(b.grid, p, goal, draws, b.used, b.done)
  }

  /**
   * One turn of the walker's loop: draw one of the open directions and walk
   * into that neighbour. Unless that reached the ending cell, the number of
   * unvisited cells drops.
   */
  ghost function WalkStep(g: Grid, p: Pos, goal: Pos, draws: seq<nat>, used: nat, done: bool): (r: Trip)
    requires p in g && AvailableSolutions(g, p) != []
    ensures r.grid.Keys == g.Keys
    ensures Unvisited(r.grid) <= Unvisited(g)
    ensures !r.done ==> Unvisited(r.grid) < Unvisited(g)
    decreases Unvisited(g), 0, 1
  {
    var ds := AvailableSolutions(g, p);
    var k := Draw(draws, used, |ds|);
    PickedSolution(g, p, k);
    var q := Step(p, ds[k]);
    var sub := Walk(g, q, goal, draws, used + 1, done);
    assert !sub.done ==> q in Unvisited(g) - Unvisited(sub.grid);
    Trip(sub.grid, sub.used, sub.done, [p] + sub.path)
  }

  /** Every side of `x` that is down leads to a visited cell: the walker has nowhere left to go from it. */
  ghost predicate Stuck(g: Grid, x: Pos)
    requires x in g
  {
    forall d :: Step(x, d) in g && !HasWall(g[x].walls, d) ==> g[Step(x, d)].visited
  }

  /**
   * What any walker call at `p` keeps, relative to the grid `g0` it was
   * called on: every wall, every visit, the ending cell untouched, `p`
   * visited unless it is the ending cell, and the solution flag of every
   * cell other than `p` and the cells it newly visited.
   */
  ghost predicate Kept(g0: Grid, g1: Grid, p: Pos, goal: Pos)
  {
    && p in g0 && SameWalls(g0, g1) && VisitsKept(g0, g1)
    && (goal in g0 ==> g1[goal] == g0[goal])
    && (p != goal ==> g1[p].visited)
    && (forall x :: x in g0 && x != p && x !in NewlyVisited(g0, g1) ==> g1[x].solution == g0[x].solution)
  }

  /**
   * A walker call at `p` that found no path: `p` and every cell it newly
   * visited are not the ending cell, are not marked as solution cells, and
   * have nowhere left to go.
   */
  ghost predicate DeadEnd(g0: Grid, g1: Grid, p: Pos, goal: Pos)
  {
    forall x :: x in g0 && (x == p || x in NewlyVisited(g0, g1)) ==>
      x in g1 && x != goal && !g1[x].solution && Stuck(g1, x)
  }

  /**
   * Every cell a walker call at `p` newly visited is reached from `p` by an
   * open chain of `g0`: the call entered cells only through walls that are
   * down on the side it came from.
   */
  ghost predicate Explored(g0: Grid, g1: Grid, p: Pos)
  {
    forall x :: x in NewlyVisited(g0, g1) ==> exists chain :: OpenChain(g0, p, x, chain)
  }

  /**
   * A walker call at `p` that found `path`: it runs from `p` to the ending
   * cell, each move through a side of the cell moved from that is down in
   * `g0`, into cells unvisited in `g0`, with no cell twice; every cell of it
   * but the last is visited; and of `p` and the cells newly visited, other
   * than the ending cell, exactly those on the path are solution cells.
   */
  ghost predicate Solved(g0: Grid, g1: Grid, p: Pos, goal: Pos, path: seq<Pos>)
  {
    && |path| >= 1 && path[0] == p && path[|path| - 1] == goal
    && (forall i :: 0 <= i < |path| - 1 ==> Passable(g0, path[i], path[i + 1]))
    && (forall i :: 1 <= i < |path| ==> path[i] in g0 && !g0[path[i]].visited)
    && (forall i, j :: 0 <= i < j < |path| ==> path[i] != path[j])
    && (forall i :: 0 <= i < |path| - 1 ==> path[i] in g1 && g1[path[i]].visited)
    && (forall x :: x in g0 && x in g1 && x != goal && (x == p || x in NewlyVisited(g0, g1)) ==>
          (g1[x].solution <==> x in path))
  }

  /**
   * The state of a walker call at `p` on entry to each turn of its loop:
   * what every call keeps, `p` visited and marked, and every other cell it
   * newly visited unmarked with nowhere left to go.
   */
  ghost predicate Walking(g0: Grid, g1: Grid, p: Pos, goal: Pos)
  {
    && Kept(g0, g1, p, goal) && p != goal && p in g1 && g1[p].visited && g1[p].solution
    && (forall x :: x in NewlyVisited(g0, g1) && x != p ==> x in g1 && !g1[x].solution && Stuck(g1, x))
  }

  /** Marking `p` visited and part of the solution starts the loop. */
  lemma StartWalking(g0: Grid, p: Pos, goal: Pos)
    requires p in g0 && p != goal
    ensures var g1 := g0[p := g0[p].(visited := true, solution := true)];
      Walking(g0, g1, p, goal) && Explored(g0, g1, p)
  {
    var g1 := g0[p := g0[p].(visited := true, solution := true)];
    assert NewlyVisited(g0, g1) <= {p};
    assert OpenChain(g0, p, p, [p]);
  }

  /** With walls and visits kept, a cell with nowhere left to go stays so. */
  lemma StuckKept(g0: Grid, g1: Grid, x: Pos)
    requires SameWalls(g0, g1) && VisitsKept(g0, g1) && x in g0 && Stuck(g0, x)
    ensures Stuck(g1, x)
  {
  }

  /** Leaving the loop with no open direction: unmarking `p` ends a call that found nothing. */
  lemma GiveUp(g0: Grid, g: Grid, p: Pos, goal: Pos)
    requires Walking(g0, g, p, goal) && AvailableSolutions(g, p) == []
    ensures var g1 := g[p := g[p].(solution := false)];
      Kept(g0, g1, p, goal) && DeadEnd(g0, g1, p, goal)
  {
    var g1 := g[p := g[p].(solution := false)];
    AvailableExact(g, p);
    assert Stuck(g, p);
    assert NewlyVisited(g0, g1) == NewlyVisited(g0, g);
    forall x | x in g0 && (x == p || x in NewlyVisited(g0, g1))
      ensures x in g1 && x != goal && !g1[x].solution && Stuck(g1, x)
    {
      StuckKept(g, g1, x);
    }
  }

  /** Un-marking a cell visits nothing new, so the cells explored stay explored. */
  lemma UnmarkExplored(g0: Grid, g: Grid, p: Pos)
    requires Explored(g0, g, p) && p in g
    ensures Explored(g0, g[p := g[p].(solution := false)], p)
  {
    var g1 := g[p := g[p].(solution := false)];
    forall x | x in NewlyVisited(g0, g1)
      ensures exists chain :: OpenChain(g0, p, x, chain)
    {
      assert x in NewlyVisited(g0, g);
    }
  }

  /**
   * After walking from `p` into the open neighbour `q` and back without
   * success, the call at `p` is again in its loop state.
   */
  lemma StepFailed(g0: Grid, gi: Grid, g2: Grid, p: Pos, d: Direction, goal: Pos)
    requires Walking(g0, gi, p, goal) && OpenTo(gi, p, d)
    requires Kept(gi, g2, Step(p, d), goal) && DeadEnd(gi, g2, Step(p, d), goal)
    ensures Walking(g0, g2, p, goal)
  {
    var q := Step(p, d);
    assert q !in NewlyVisited(g0, gi);
    forall x | x in g0 && x != p && x !in NewlyVisited(g0, g2)
      ensures g2[x].solution == g0[x].solution
    {
      assert x != q;
    }
    forall x | x in NewlyVisited(g0, g2) && x != p
      ensures x in g2 && !g2[x].solution && Stuck(g2, x)
    {
      if x in NewlyVisited(g0, gi) {
        assert x != q && x !in NewlyVisited(gi, g2);
        StuckKept(gi, g2, x);
      } else {
        assert x == q || x in NewlyVisited(gi, g2);
      }
    }
  }

  /**
   * A move from `p` into its open neighbour, followed by an open chain from
   * there in a later grid with the same walls and more visits, is an open
   * chain from `p`.
   */
  lemma ChainPrepend(g0: Grid, gi: Grid, p: Pos, d: Direction, x: Pos, chain: seq<Pos>)
    requires SameWalls(g0, gi) && VisitsKept(g0, gi) && p in gi && OpenTo(gi, p, d)
    requires OpenChain(gi, Step(p, d), x, chain)
    ensures OpenChain(g0, p, x, [p] + chain)
  {
    var q := Step(p, d);
    var whole := [p] + chain;
    assert Passable(g0, p, q) by {
      PassableStep(gi, p, d);
      PassableSameWalls(gi, g0, p, q);
    }
    forall i | 0 <= i < |whole| - 1
      ensures Passable(g0, whole[i], whole[i + 1])
    {
      if i > 0 {
        assert whole[i] == chain[i - 1] && whole[i + 1] == chain[i];
        PassableSameWalls(gi, g0, chain[i - 1], chain[i]);
      }
    }
    forall i | 1 <= i < |whole|
      ensures whole[i] in g0 && !g0[whole[i]].visited
    {
      assert whole[i] == chain[i - 1];
    }
  }

  /** The cells explored compose along a move from `p` into its open neighbour. */
  lemma StepExplored(g0: Grid, gi: Grid, g2: Grid, p: Pos, d: Direction)
    requires SameWalls(g0, gi) && VisitsKept(g0, gi) && p in gi && OpenTo(gi, p, d)
    requires VisitsKept(gi, g2) && Explored(g0, gi, p) && Explored(gi, g2, Step(p, d))
    ensures Explored(g0, g2, p)
  {
    var q := Step(p, d);
    forall x | x in NewlyVisited(g0, g2)
      ensures exists chain :: OpenChain(g0, p, x, chain)
    {
      if x !in NewlyVisited(g0, gi) {
        assert x in NewlyVisited(gi, g2);
        var c :| OpenChain(gi, q, x, c);
        ChainPrepend(g0, gi, p, d, x, c);
      }
    }
  }

  /** What every call keeps composes along a move from `p` into its open neighbour. */
  lemma StepKept(g0: Grid, gi: Grid, g2: Grid, p: Pos, d: Direction, goal: Pos)
    requires Walking(g0, gi, p, goal) && OpenTo(gi, p, d)
    requires Kept(gi, g2, Step(p, d), goal)
    ensures Kept(g0, g2, p, goal)
  {
    var q := Step(p, d);
    assert q !in NewlyVisited(g0, gi);
    forall x | x in g0 && x != p && x !in NewlyVisited(g0, g2)
      ensures g2[x].solution == g0[x].solution
    {
      if x == q && q == goal {
      } else {
        assert x != q && x !in NewlyVisited(g0, gi) && x !in NewlyVisited(gi, g2);
      }
    }
  }

  /**
   * After walking from `p` into the open neighbour `q` and finding `path`
   * from there, the call at `p` has found `[p] + path`.
   */
  lemma StepSolved(g0: Grid, gi: Grid, g2: Grid, p: Pos, d: Direction, goal: Pos, path: seq<Pos>)
    requires Walking(g0, gi, p, goal) && OpenTo(gi, p, d)
    requires Kept(gi, g2, Step(p, d), goal) && Solved(gi, g2, Step(p, d), goal, path)
    ensures Solved(g0, g2, p, goal, [p] + path)
  {
    var q := Step(p, d);
    var whole := [p] + path;
    assert Passable(g0, p, q) by {
      PassableStep(gi, p, d);
      PassableSameWalls(gi, g0, p, q);
    }
    forall i | 0 <= i < |whole| - 1
      ensures Passable(g0, whole[i], whole[i + 1])
    {
      if i > 0 {
        assert whole[i] == path[i - 1] && whole[i + 1] == path[i];
        PassableSameWalls(gi, g0, path[i - 1], path[i]);
      }
    }
    forall i | 1 <= i < |whole|
      ensures whole[i] in g0 && !g0[whole[i]].visited
    {
      assert whole[i] == path[i - 1];
    }
    forall i, j | 0 <= i < j < |whole|
      ensures whole[i] != whole[j]
    {
      assert whole[j] == path[j - 1];
      if i > 0 {
        assert whole[i] == path[i - 1];
      }
    }
    forall i | 0 <= i < |whole| - 1
      ensures whole[i] in g2 && g2[whole[i]].visited
    {
      if i > 0 {
        assert whole[i] == path[i - 1];
      }
    }
    assert p !in path by {
      forall i | 0 <= i < |path|
        ensures path[i] != p
      {
      }
    }
    forall x | x in g0 && x in g2 && x != goal && (x == p || x in NewlyVisited(g0, g2))
      ensures g2[x].solution <==> x in whole
    {
      if x == p {
        assert x != q && x !in NewlyVisited(gi, g2);
      } else if x in NewlyVisited(g0, gi) {
        assert x != q && x !in NewlyVisited(gi, g2);
        assert x !in path by {
          forall i | 0 <= i < |path|
            ensures path[i] != x
          {
          }
        }
      } else {
        assert x == q || x in NewlyVisited(gi, g2);
      }
    }
  }

  /**
   * The walker's promise, for any draws, when it starts with the done flag
   * down: it changes no wall and no visit back, leaves the ending cell
   * alone, enters cells only through walls that are down, and either finds
   * a path as `Solved` describes or finds none and leaves every cell it
   * tried unmarked.
   */
  lemma {:induction false} WalkSound(g: Grid, p: Pos, goal: Pos, draws: seq<nat>, used: nat)
    requires p in g
    ensures var t := Walk(g, p, goal, draws, used, false);
      && Kept(g, t.grid, p, goal) && Explored(g, t.grid, p)
      && (t.done ==> Solved(g, t.grid, p, goal, t.path))
      && (!t.done ==> DeadEnd(g, t.grid, p, goal))
    decreases Unvisited(g), if g[p].visited then 1 else 0, 0
  {
    if p == goal {
      assert NewlyVisited(g, g) == {};
    } else {
      var marked := g[p := g[p].(visited := true, solution := true)];
      assert Unvisited(marked) == Unvisited(g) - {p};
      StartWalking(g, p, goal);
      LoopSound(g, marked, p, goal, draws, used);
    }
  }

  /** The loop keeps the state of `Walking` until it finds a path or runs out of directions. */
  lemma {:induction false} LoopSound(g0: Grid, g: Grid, p: Pos, goal: Pos, draws: seq<nat>, used: nat)
    requires Walking(g0, g, p, goal) && Explored(g0, g, p)
    ensures var t := WalkLoop(g, p, goal, draws, used, false);
      && Kept(g0, t.grid, p, goal) && Explored(g0, t.grid, p)
      && (t.done ==> Solved(g0, t.grid, p, goal, t.path))
      && (!t.done ==> DeadEnd(g0, t.grid, p, goal))
    decreases Unvisited(g), 0, 2
  {
    var ds := AvailableSolutions(g, p);
    if ds == [] {
      GiveUp(g0, g, p, goal);
      UnmarkExplored(g0, g, p);
    } else {
      var k := Draw(draws, used, |ds|);
      PickedSolution(g, p, k);
      var d := ds[k];
      var q := Step(p, d);
      WalkSound(g, q, goal, draws, used + 1);
      var sub := Walk(g, q, goal, draws, used + 1, false);
      var b := WalkStep(g, p, goal, draws, used, false);
      assert b == Trip(sub.grid, sub.used, sub.done, [p] + sub.path);
      StepKept(g0, g, sub.grid, p, d, goal);
      StepExplored(g0, g, sub.grid, p, d);
      if sub.done {
        StepSolved(g0, g, sub.grid, p, d, goal, sub.path);
      } else {
        StepFailed(g0, g, sub.grid, p, d, goal);
        assert Unvisited(sub.grid) < Unvisited(g);
        LoopSound(g0, sub.grid, p, goal, draws, sub.used);
      }
    }
  }

  /**
   * `chain` leads from `p` to `goal`, each move through a side of the cell
   * moved from that is down, into cells not visited yet.
   */
  ghost predicate OpenChain(g: Grid, p: Pos, goal: Pos, chain: seq<Pos>)
  {
    && |chain| >= 1 && chain[0] == p && chain[|chain| - 1] == goal
    && (forall i :: 0 <= i < |chain| - 1 ==> Passable(g, chain[i], chain[i + 1]))
    && (forall i :: 1 <= i < |chain| ==> chain[i] in g && !g[chain[i]].visited)
  }

  /** After a call that found nothing, every cell along an open chain from `p` was visited by it. */
  lemma {:induction false} DeadEndCovers(g0: Grid, g1: Grid, p: Pos, goal: Pos, chain: seq<Pos>, i: int)
    requires Kept(g0, g1, p, goal) && DeadEnd(g0, g1, p, goal)
    requires OpenChain(g0, p, goal, chain) && 0 <= i < |chain|
    ensures chain[i] == p || chain[i] in NewlyVisited(g0, g1)
    decreases i
  {
    if i > 0 {
      DeadEndCovers(g0, g1, p, goal, chain, i - 1);
      var x, y := chain[i - 1], chain[i];
      assert Passable(g0, x, y);
      assert Stuck(g1, x);
      var d :| d in {North, East, South, West} && y == Step(x, d) && !HasWall(g0[x].walls, d);
      assert g1[y].visited;
    }
  }

  /**
   * The walker is complete: started with the done flag down, it finds a
   * path whenever an open chain leads from `p` to the ending cell.
   */
  lemma WalkFinds(g: Grid, p: Pos, goal: Pos, draws: seq<nat>, used: nat, chain: seq<Pos>)
    requires p in g && OpenChain(g, p, goal, chain)
    ensures Walk(g, p, goal, draws, used, false).done
  {
    WalkSound(g, p, goal, draws, used);
    var t := Walk(g, p, goal, draws, used, false);
    if !t.done {
      DeadEndCovers(g, t.grid, p, goal, chain, |chain| - 1);
      assert false;
    }
  }
}
