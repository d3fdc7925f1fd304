/**
 * The passages the generator carves, in the order it carves them, and the
 * facts that make that list a spanning tree of the grid.
 */
module Passages {
  import opened Cells

  /** A shared edge opened by the generator: from cell `from` through its wall facing `dir`. */
  datatype Passage = Passage(from: Pos, dir: Direction)

  /** The cell a passage leads into. */
  function Target(e: Passage): (t: Pos)
    ensures t == Step(e.from, e.dir)
  {
    Step(e.from, e.dir)
  }

  /** The cells entered through the passages of `ps`. */
  function Targets(ps: seq<Passage>): (t: set<Pos>)
    ensures forall i :: 0 <= i < |ps| ==> Target(ps[i]) in t
  {
    if ps == [] then {} else Targets(ps[..|ps| - 1]) + {Target(ps[|ps| - 1])}
  }

  /** Both wall sides that the passages of `ps` knock down. */
  function Sides(ps: seq<Passage>): (s: set<(Pos, Direction)>)
    ensures forall i :: 0 <= i < |ps| ==> (ps[i].from, ps[i].dir) in s
  {
    if ps == [] then {}
    else
      var e := ps[|ps| - 1];
      Sides(ps[..|ps| - 1]) + {(e.from, e.dir), (Target(e), Opposite(e.dir))}
  }

  /**
   * `ps` is a tree grown from `root`: every passage starts at the root or at
   * a cell an earlier passage entered, no cell is entered twice, and the root
   * is never entered.
   */
  ghost predicate IsTree(root: Pos, ps: seq<Passage>)
  {
    && (forall i :: 0 <= i < |ps| ==> ps[i].from == root || ps[i].from in Targets(ps[..i]))
    && DistinctTargets(ps)
    && root !in Targets(ps)
  }

  /** No cell is entered by two passages of `ps`. */
  ghost predicate DistinctTargets(ps: seq<Passage>)
  {
    forall i, j :: 0 <= i < j < |ps| ==> Target(ps[i]) != Target(ps[j])
  }

  /** Every passage of `ps` joins two cells of `cells`. */
  ghost predicate Within(ps: seq<Passage>, cells: set<Pos>)
  {
    forall i :: 0 <= i < |ps| ==> ps[i].from in cells && Target(ps[i]) in cells
  }

  /** Containment in a cell set distributes over concatenation. */
  lemma WithinAppend(a: seq<Passage>, b: seq<Passage>, cells: set<Pos>)
    requires Within(a, cells) && Within(b, cells)
    ensures Within(a + b, cells)
  {
    forall i | 0 <= i < |a + b|
      ensures (a + b)[i].from in cells && Target((a + b)[i]) in cells
    {
      if i >= |a| {
        assert (a + b)[i] == b[i - |a|];
      }
    }
  }

  /** Concatenation of passage lists is associative. */
  lemma Associate(a: seq<Passage>, b: seq<Passage>, c: seq<Passage>)
    ensures a + (b + c) == a + b + c
  {
  }

  /** Appending a passage, a subtree and the rest is appending their concatenation. */
  lemma Regroup(ps: seq<Passage>, e: Passage, sub: seq<Passage>, rest: seq<Passage>)
    ensures ps + [e] + sub + rest == ps + ([e] + sub + rest)
  {
  }

  /** Two cells are joined by one of the passages of `ps`, in either direction. */
  ghost predicate Joined(ps: seq<Passage>, x: Pos, y: Pos)
  {
    exists d :: (x, d) in Sides(ps) && Step(x, d) == y
  }

  /** The only cells entered are the targets of the passages. */
  lemma {:induction false} TargetsExact(ps: seq<Passage>, q: Pos)
    requires q in Targets(ps)
    ensures exists i :: 0 <= i < |ps| && Target(ps[i]) == q
    decreases |ps|
  {
    var init := ps[..|ps| - 1];
    if q != Target(ps[|ps| - 1]) {
      TargetsExact(init, q);
      var i :| 0 <= i < |init| && Target(init[i]) == q;
      assert ps[i] == init[i];
    }
  }

  /** Targets distribute over concatenation. */
  lemma {:induction false} TargetsAppend(a: seq<Passage>, b: seq<Passage>)
    ensures Targets(a + b) == Targets(a) + Targets(b)
    decreases |b|
  {
    if b == [] {
      assert a + b == a;
    } else {
      var b' := b[..|b| - 1];
      assert (a + b)[..|a + b| - 1] == a + b';
      TargetsAppend(a, b');
    }
  }

  /** Sides distribute over concatenation. */
  lemma {:induction false} SidesAppend(a: seq<Passage>, b: seq<Passage>)
    ensures Sides(a + b) == Sides(a) + Sides(b)
    decreases |b|
  {
    if b == [] {
      assert a + b == a;
    } else {
      var b' := b[..|b| - 1];
      assert (a + b)[..|a + b| - 1] == a + b';
      SidesAppend(a, b');
    }
  }

  /** A knocked-down side is one end of a passage, and its other end is the cell across it. */
  lemma {:induction false} SideOfPassage(ps: seq<Passage>, p: Pos, d: Direction)
    requires (p, d) in Sides(ps)
    ensures exists i :: (0 <= i < |ps| &&
      ((p == ps[i].from && d == ps[i].dir) ||
       (p == Target(ps[i]) && d == Opposite(ps[i].dir) && Step(p, d) == ps[i].from)))
    decreases |ps|
  {
    var init := ps[..|ps| - 1];
    var e := ps[|ps| - 1];
    if (p, d) in Sides(init) {
      SideOfPassage(init, p, d);
      var i :| 0 <= i < |init| &&
        ((p == init[i].from && d == init[i].dir) ||
         (p == Target(init[i]) && d == Opposite(init[i].dir) && Step(p, d) == init[i].from));
      assert ps[i] == init[i];
    } else if p == Target(e) && d == Opposite(e.dir) {
      StepBack(e.from, e.dir);
    }
  }

  /**
   * Knocked-down sides come in pairs: when the wall of `p` facing `d` is
   * knocked down, so is the wall of the neighbour facing back.
   */
  lemma {:induction false} SidesSymmetric(ps: seq<Passage>, p: Pos, d: Direction)
    ensures (p, d) in Sides(ps) <==> (Step(p, d), Opposite(d)) in Sides(ps)
    decreases |ps|
  {
    StepBack(p, d);
    if ps != [] {
      var init := ps[..|ps| - 1];
      var e := ps[|ps| - 1];
      SidesSymmetric(init, p, d);
      StepBack(e.from, e.dir);
      if Step(p, d) == Target(e) && Opposite(d) == Opposite(e.dir) {
        assert d == e.dir;
        StepBack(p, d);
      }
    }
  }

  /** A knocked-down side always faces another cell joined by the same passage. */
  lemma SidesStayWithin(ps: seq<Passage>, cells: set<Pos>, p: Pos, d: Direction)
    requires Within(ps, cells)
    requires (p, d) in Sides(ps)
    ensures p in cells && Step(p, d) in cells
  {
    SideOfPassage(ps, p, d);
  }

  /** A tree whose targets are all distinct has one target per passage. */
  lemma {:induction false} DistinctTargetsCount(ps: seq<Passage>)
    requires DistinctTargets(ps)
    ensures |Targets(ps)| == |ps|
    decreases |ps|
  {
    if ps != [] {
      var init := ps[..|ps| - 1];
      DistinctTargetsCount(init);
      if Target(ps[|ps| - 1]) in Targets(init) {
        TargetsExact(init, Target(ps[|ps| - 1]));
        assert false;
      }
    }
  }

  /** In the grafted list, every passage starts at the root or at a cell entered earlier. */
  lemma GraftStarts(root: Pos, a: seq<Passage>, e: Passage, b: seq<Passage>)
    requires IsTree(root, a) && e.from == root && IsTree(Target(e), b)
    ensures var ps := a + [e] + b;
      forall i :: 0 <= i < |ps| ==> ps[i].from == root || ps[i].from in Targets(ps[..i])
  {
    var ps := a + [e] + b;
    var ae := a + [e];
    assert ps == ae + b;
    forall i | 0 <= i < |ps|
      ensures ps[i].from == root || ps[i].from in Targets(ps[..i])
    {
      if i < |a| {
        assert ps[..i] == a[..i] && ps[i] == a[i];
      } else if i > |a| {
        var j := i - |ae|;
        assert ps[..i] == ae + b[..j] && ps[i] == b[j];
        TargetsAppend(ae, b[..j]);
        assert Target(e) in Targets(ae) by {
          assert ae[|a|] == e;
        }
      }
    }
  }

  /** In the grafted list, no cell is entered twice. */
  lemma GraftDistinct(a: seq<Passage>, e: Passage, b: seq<Passage>)
    requires DistinctTargets(a) && DistinctTargets(b)
    requires Target(e) !in Targets(a) && Target(e) !in Targets(b)
    requires forall q :: q in Targets(b) ==> q !in Targets(a)
    ensures DistinctTargets(a + [e] + b)
  {
    var ps := a + [e] + b;
    var ae := a + [e];
    forall i, j | 0 <= i < j < |ps|
      ensures Target(ps[i]) != Target(ps[j])
    {
      if j < |a| {
        assert ps[i] == a[i] && ps[j] == a[j];
      } else if j == |a| {
        assert ps[i] == a[i] && ps[j] == e;
      } else if i >= |ae| {
        assert ps[i] == b[i - |ae|] && ps[j] == b[j - |ae|];
      } else if i == |a| {
        assert ps[i] == e && ps[j] == b[j - |ae|];
      } else {
        assert ps[i] == a[i] && ps[j] == b[j - |ae|];
      }
    }
  }

  /**
   * Grafting: the root's tree `a`, one more passage `e` out of the root, and a
   * tree `b` grown from the cell `e` enters, sharing no cell with the rest,
   * form one tree grown from the root.
   */
  lemma Graft(root: Pos, a: seq<Passage>, e: Passage, b: seq<Passage>)
    requires IsTree(root, a) && e.from == root
    requires Target(e) != root && Target(e) !in Targets(a)
    requires IsTree(Target(e), b)
    requires forall q :: q in Targets(b) ==> q != root && q !in Targets(a)
    ensures IsTree(root, a + [e] + b)
    ensures Targets(a + [e] + b) == Targets(a) + {Target(e)} + Targets(b)
  {
    GraftStarts(root, a, e, b);
    GraftDistinct(a, e, b);
    TargetsAppend(a, [e]);
    assert Targets([e]) == {Target(e)} by {
      assert [e][..0] == [];
    }
    TargetsAppend(a + [e], b);
  }

  /**
   * A tree is connected: there is a chain of passages from the root to every
   * cell it enters.
   */
  lemma {:induction false} TreeReaches(root: Pos, ps: seq<Passage>, i: int) returns (path: seq<Pos>)
    requires IsTree(root, ps) && 0 <= i < |ps|
    ensures |path| >= 2 && path[0] == root && path[|path| - 1] == Target(ps[i])
    ensures forall k :: 0 <= k < |path| - 1 ==> Joined(ps, path[k], path[k + 1])
    decreases i
  {
    var e := ps[i];
    assert (e.from, e.dir) in Sides(ps);
    assert Joined(ps, e.from, Target(e));
    if e.from == root {
      path := [root, Target(e)];
    } else {
      TargetsExact(ps[..i], e.from);
      var j :| 0 <= j < i && Target(ps[..i][j]) == e.from;
      assert ps[..i][j] == ps[j];
      var prefix := TreeReaches(root, ps, j);
      path := prefix + [Target(e)];
      forall k | 0 <= k < |path| - 1
        ensures Joined(ps, path[k], path[k + 1])
      {
        if k < |prefix| - 1 {
          assert path[k] == prefix[k] && path[k + 1] == prefix[k + 1];
        }
      }
    }
  }
}
