/**
 * What one call of the maze generator does to the grid, stated on grid
 * values, and the facts that let one call be built from its recursive calls.
 */
module Generation {
  import opened Cells
  import opened Grids
  import opened Passages
  import opened RandomNumbers

  /** Every wall is as in `g0` except the sides that the passages `ps` knocked down. */
  ghost predicate WallsOpened(g0: Grid, g1: Grid, ps: seq<Passage>)
  {
    g1.Keys == g0.Keys &&
    forall p, d :: p in g0 ==> (HasWall(g1[p].walls, d) <==> HasWall(g0[p].walls, d) && (p, d) !in Sides(ps))
  }

  /** No solution flag changed. */
  ghost predicate SolutionsKept(g0: Grid, g1: Grid)
  {
    g1.Keys == g0.Keys && forall p :: p in g0 ==> g1[p].solution == g0[p].solution
  }

  /**
   * The state of a generator call at `root` on entry to each turn of its
   * loop, relative to the grid `g0` it was called on: the root is visited;
   * visits were only added and solution flags untouched; the walls knocked
   * down are exactly the two sides of each carved passage; the passages form
   * a tree grown from the root; every cell they entered was unvisited in
   * `g0` and is now visited with all its neighbours visited; and the only
   * cells newly visited are the root and those entered.
   */
  ghost predicate GrownFrom(g0: Grid, g1: Grid, root: Pos, ps: seq<Passage>)
  {
    && root in g0 && VisitsKept(g0, g1) && g1[root].visited
    && SolutionsKept(g0, g1) && WallsOpened(g0, g1, ps)
    && IsTree(root, ps) && Within(ps, g0.Keys)
    && (forall q :: q in Targets(ps) ==> q in g0 && !g0[q].visited && g1[q].visited && Closed(g1, q))
    && NewlyVisited(g0, g1) <= Targets(ps) + {root}
  }

  /** A finished generator call: in addition, the root has no unvisited neighbour left. */
  ghost predicate Generated(g0: Grid, g1: Grid, root: Pos, ps: seq<Passage>)
  {
    GrownFrom(g0, g1, root, ps) && Closed(g1, root)
  }

  /** Marking the root visited starts a call with no passage carved. */
  lemma StartGrowing(g0: Grid, root: Pos)
    requires root in g0
    ensures GrownFrom(g0, g0[root := g0[root].(visited := true)], root, [])
  {
    var g1 := g0[root := g0[root].(visited := true)];
    assert Targets([]) == {} && Sides([]) == {};
    assert NewlyVisited(g0, g1) <= {root};
  }

  /** Visits only added: the unvisited cells can only shrink. */
  lemma UnvisitedShrinks(g0: Grid, g1: Grid)
    requires VisitsKept(g0, g1)
    ensures Unvisited(g1) <= Unvisited(g0)
  {
  }

  /** Visits only added: a cell with all neighbours visited keeps them visited. */
  lemma ClosedKept(g0: Grid, g1: Grid, p: Pos)
    requires VisitsKept(g0, g1) && Closed(g0, p)
    ensures Closed(g1, p)
  {
  }

  /** A carving step followed by a finished recursive call keeps the flags and walls in step. */
  lemma GrowStepFlags(g0: Grid, gi: Grid, g2: Grid, root: Pos, e: Passage, carved: seq<Passage>, sub: seq<Passage>)
    requires GrownFrom(g0, gi, root, carved)
    requires e.from == root && Target(e) in gi
    requires Generated(Carve(gi, root, e.dir), g2, Target(e), sub)
    ensures VisitsKept(g0, g2) && SolutionsKept(g0, g2) && WallsOpened(g0, g2, carved + [e] + sub)
  {
    var gc := Carve(gi, root, e.dir);
    CarveChanges(gi, root, e.dir);
    SidesAppend(carved, [e]);
    SidesAppend(carved + [e], sub);
    assert Sides([e]) == {(root, e.dir), (Target(e), Opposite(e.dir))} by {
      assert [e][..0] == [];
    }
  }

  /** A carving step followed by a finished recursive call grows the tree by the passage and the subtree. */
  lemma GrowStepTree(g0: Grid, gi: Grid, g2: Grid, root: Pos, e: Passage, carved: seq<Passage>, sub: seq<Passage>)
    requires GrownFrom(g0, gi, root, carved)
    requires e.from == root && Target(e) in gi && !gi[Target(e)].visited
    requires Generated(Carve(gi, root, e.dir), g2, Target(e), sub)
    ensures IsTree(root, carved + [e] + sub) && Within(carved + [e] + sub, g0.Keys)
    ensures Targets(carved + [e] + sub) == Targets(carved) + {Target(e)} + Targets(sub)
  {
    var gc := Carve(gi, root, e.dir);
    CarveChanges(gi, root, e.dir);
    forall q | q in Targets(sub)
      ensures q != root && q !in Targets(carved)
    {
    }
    Graft(root, carved, e, sub);
    assert Within([e], g0.Keys);
    WithinAppend(carved, [e], g0.Keys);
    WithinAppend(carved + [e], sub, g0.Keys);
  }

  /**
   * The loop step of the generator: after knocking down the wall towards an
   * unvisited neighbour and a finished recursive call there, the call at the
   * root is again in its loop state, with the passage and the subtree
   * appended, and strictly fewer cells are unvisited.
   */
  lemma GrowStep(g0: Grid, gi: Grid, g2: Grid, root: Pos, e: Passage, carved: seq<Passage>, sub: seq<Passage>)
    requires GrownFrom(g0, gi, root, carved)
    requires e.from == root && Target(e) in gi && !gi[Target(e)].visited
    requires Generated(Carve(gi, root, e.dir), g2, Target(e), sub)
    ensures GrownFrom(g0, g2, root, carved + [e] + sub)
    ensures Unvisited(g2) < Unvisited(gi)
  {
    var gc := Carve(gi, root, e.dir);
    var ps := carved + [e] + sub;
    CarveChanges(gi, root, e.dir);
    GrowStepFlags(g0, gi, g2, root, e, carved, sub);
    GrowStepTree(g0, gi, g2, root, e, carved, sub);
    forall q | q in Targets(ps)
      ensures q in g0 && !g0[q].visited && g2[q].visited && Closed(g2, q)
    {
      if q in Targets(carved) {
        ClosedKept(gi, g2, q);
      }
    }
    forall p | p in NewlyVisited(g0, g2)
      ensures p in Targets(ps) + {root}
    {
      if gi[p].visited {
        assert p in NewlyVisited(g0, gi);
      } else {
        assert p in NewlyVisited(gc, g2);
      }
    }
    UnvisitedShrinks(gc, g2);
    assert Target(e) in Unvisited(gi) - Unvisited(g2);
  }

  /** Knocking down walls in pairs keeps neighbours in agreement about their shared walls. */
  lemma OpenedKeepsSymmetry(g0: Grid, g1: Grid, ps: seq<Passage>)
    requires WallsSymmetric(g0) && WallsOpened(g0, g1, ps)
    ensures WallsSymmetric(g1)
  {
    forall p, d | p in g1 && Step(p, d) in g1
      ensures HasWall(g1[p].walls, d) <==> HasWall(g1[Step(p, d)].walls, Opposite(d))
    {
      SidesSymmetric(ps, p, d);
    }
  }

  /**
   * A generator call at (0, 0) on a fresh grid carves a perfect maze: every
   * cell ends up visited, the passages form a tree that enters every other
   * cell exactly once, so there are `cols * rows - 1` of them, the walls
   * down are exactly their two sides, neighbours agree about every shared
   * wall and the outer walls all stay up.
   */
  lemma GeneratedFromFresh(cols: nat, rows: nat, g1: Grid, ps: seq<Passage>)
    requires 0 < cols && 0 < rows
    requires Generated(FreshGrid(cols, rows), g1, (0, 0), ps)
    ensures g1.Keys == AllCells(cols, rows)
    ensures forall p :: p in g1 ==> g1[p].visited
    ensures Targets(ps) == AllCells(cols, rows) - {(0, 0)}
    ensures |ps| == cols * rows - 1
    ensures forall p, d :: p in g1 ==> (HasWall(g1[p].walls, d) <==> (p, d) !in Sides(ps))
    ensures WallsSymmetric(g1)
    ensures forall p, d :: p in g1 && Step(p, d) !in g1 ==> HasWall(g1[p].walls, d)
  {
    var g0 := FreshGrid(cols, rows);
    var visited := set p | p in g1 && g1[p].visited;
    forall p, d | p in visited && Inside(Step(p, d), cols, rows)
      ensures Step(p, d) in visited
    {
      assert p in NewlyVisited(g0, g1);
    }
    GridConnected(cols, rows, visited);
    forall p | p in AllCells(cols, rows) - {(0, 0)}
      ensures p in Targets(ps)
    {
      assert p in NewlyVisited(g0, g1);
    }
    DistinctTargetsCount(ps);
    CellCount(cols, rows);
    assert Targets(ps) == AllCells(cols, rows) - {(0, 0)};
    assert WallsSymmetric(g0);
    OpenedKeepsSymmetry(g0, g1, ps);
    forall p, d | p in g1 && Step(p, d) !in g1
      ensures HasWall(g1[p].walls, d)
    {
      if (p, d) in Sides(ps) {
        SidesStayWithin(ps, g0.Keys, p, d);
      }
    }
  }

  /**
   * What a generator call leaves behind: the grid, how many draws have been
   * consumed, and the passages carved, in the order they were carved.
   */
  datatype Outcome = Outcome(grid: Grid, used: nat, carved: seq<Passage>)

  /**
   * The generator call at `root` on grid `g`, with the draws from number
   * `used` on: mark the root visited, then carve from it.
   */
  ghost function Generate(g: Grid, root: Pos, draws: seq<nat>, used: nat): (r: Outcome)
    requires root in g
    ensures r.grid.Keys == g.Keys
    ensures Unvisited(r.grid) <= Unvisited(g) - {root}
    decreases Unvisited(g), if g[root].visited then 1 else 0, 0
  {
    var marked := g[root := g[root].(visited := true)];
    assert Unvisited(marked) == Unvisited(g) - {root};
    GenerateLoop(marked, root, draws, used)
  }

  /**
   * The generator's loop at a visited `root`: while some neighbour is
   * unvisited, carve a branch towards one of them.
   */
  ghost function GenerateLoop(g: Grid, root: Pos, draws: seq<nat>, used: nat): (r: Outcome)
    requires root in g && g[root].visited
    ensures r.grid.Keys == g.Keys
    ensures Unvisited(r.grid) <= Unvisited(g)
    decreases Unvisited(g), 0, 2
  {
    if AvailableDirections(g, root) == [] then Outcome(g, used, [])
    else
      var b := Branch(g, root, draws, used);
      assert root !in Unvisited(g);
      var rest := GenerateLoop(b.grid, root, draws, b.used);
      Outcome(rest.grid, rest.used, b.carved + rest.carved)
  }

  /**
   * One turn of the generator's loop: draw one of the available directions,
   * knock down the wall between the root and that neighbour on both sides,
   * and run the generator there. The number of unvisited cells drops.
   */
  ghost function Branch(g: Grid, root: Pos, draws: seq<nat>, used: nat): (r: Outcome)
    requires root in g && AvailableDirections(g, root) != []
    ensures r.grid.Keys == g.Keys
    ensures Unvisited(r.grid) < Unvisited(g)
    decreases Unvisited(g), 0, 1
  {
    var ds := AvailableDirections(g, root);
    var k := Draw(draws, used, |ds|);
    Picked(g, root, k);
    var d := ds[k];
    CarveKeepsUnvisited(g, root, d);
    var sub := Generate(Carve(g, root, d), Step(root, d), draws, used + 1);
    assert Step(root, d) in Unvisited(g) - Unvisited(sub.grid);
    Outcome(sub.grid, sub.used, [Passage(root, d)] + sub.carved)
  }

  /**
   * The generator's promise, for any draws: one call at `root` marks the
   * root visited, knocks down exactly the two sides of each passage it
   * carves, carves a tree grown from the root into cells that were
   * unvisited, and returns only when the root and every cell it entered
   * have no unvisited neighbour.
   */
  lemma {:induction false} GenerateGrows(g: Grid, root: Pos, draws: seq<nat>, used: nat)
    requires root in g
    ensures Generated(g, Generate(g, root, draws, used).grid, root, Generate(g, root, draws, used).carved)
    decreases Unvisited(g), if g[root].visited then 1 else 0, 0
  {
    var marked := g[root := g[root].(visited := true)];
    assert Unvisited(marked) == Unvisited(g) - {root};
    StartGrowing(g, root);
    LoopGrows(g, marked, root, [], draws, used);
    assert [] + GenerateLoop(marked, root, draws, used).carved == GenerateLoop(marked, root, draws, used).carved;
  }

  /** The loop keeps the call's state of `GrownFrom`, and leaves the root with no unvisited neighbour. */
  lemma {:induction false} LoopGrows(g0: Grid, g: Grid, root: Pos, ps: seq<Passage>, draws: seq<nat>, used: nat)
    requires GrownFrom(g0, g, root, ps)
    ensures var r := GenerateLoop(g, root, draws, used); Generated(g0, r.grid, root, ps + r.carved)
    decreases Unvisited(g), 0, 2
  {
    var ds := AvailableDirections(g, root);
    if ds == [] {
      AvailableExact(g, root);
      assert ps + [] == ps;
    } else {
      var k := Draw(draws, used, |ds|);
      Picked(g, root, k);
      var d := ds[k];
      var e := Passage(root, d);
      var gc := Carve(g, root, d);
      CarveKeepsUnvisited(g, root, d);
      GenerateGrows(gc, Step(root, d), draws, used + 1);
      var sub := Generate(gc, Step(root, d), draws, used + 1);
      GrowStep(g0, g, sub.grid, root, e, ps, sub.carved);
      var b := Branch(g, root, draws, used);
      assert b == Outcome(sub.grid, sub.used, [e] + sub.carved);
      LoopGrows(g0, b.grid, root, ps + [e] + sub.carved, draws, b.used);
      var rest := GenerateLoop(b.grid, root, draws, b.used);
      Regroup(ps, e, sub.carved, rest.carved);
    }
  }
}
