/**
 * A* search over the 4-connected grid (pathfinding.py).
 *
 * Nodes are heap objects: their coordinates are fixed, while `g`, `h`, `f`
 * and `parent` are updated in place when a cheaper way into an open node is
 * found. The open and closed lists are sequences of nodes that the search
 * reassigns; the path is rebuilt by walking parent pointers.
 */
module Pathfinding {

  import opened Wrappers
  import opened Grid

  class Node {
    const x: int
    const y: int
    var g: nat
    var h: int
    var f: int
    var parent: Node?

    constructor (x: int, y: int)
      ensures this.x == x && this.y == y
      ensures g == 0 && h == 0 && f == 0 && parent == null
    {
      this.x := x;
      this.y := y;
      g, h, f := 0, 0, 0;
      parent := null;
    }

    /** Nodes compare equal by coordinates (`Node.__eq__`). */
    function Pos(): Cell {
      Cell(x, y)
    }
  }

  /**
   * One search: where it starts, the target cell, the wall predicate of the
   * map and the cells of other NPCs that the search must avoid.
   */
  datatype Problem = Problem(start: Cell, goal: Cell, isWall: (int, int) -> bool, blocked: set<Cell>)

  /** A cell the search may step onto: on the grid, not a wall, not another NPC's cell. */
  predicate Passable(p: Problem, c: Cell) {
    InBounds(c) && !p.isWall(c.x, c.y) && c !in p.blocked
  }

  /**
   * A walk from the start to the goal in 4-connected steps whose every cell
   * after the first is passable.
   */
  ghost predicate IsRoute(p: Problem, route: seq<Cell>) {
    && |route| >= 1
    && route[0] == p.start
    && route[|route| - 1] == p.goal
    && (forall i :: 0 <= i < |route| - 1 ==> Adjacent(route[i], route[i + 1]))
    && (forall i :: 1 <= i < |route| ==> Passable(p, route[i]))
  }

  ghost predicate Unreachable(p: Problem) {
    forall route :: !IsRoute(p, route)
  }

  /** What a search result means: a route, or `None` when there is none. */
  ghost predicate Solves(p: Problem, result: Option<seq<Cell>>) {
    match result
    case Some(route) => IsRoute(p, route)
    case None => Unreachable(p)
  }

  /**
   * The cells treated as obstacles: every registered NPC's cell except the
   * searching NPC's own and, when the target is an NPC, the target's.
   */
  function NpcPositions(registry: seq<Cell>, currentNpc: Cell, target: Cell, targetIsNpc: bool): (blocked: set<Cell>)
    ensures currentNpc !in blocked
    ensures targetIsNpc ==> target !in blocked
    ensures forall c :: c in blocked <==> c in registry && c != currentNpc && (targetIsNpc ==> c != target)
  {
    if targetIsNpc then set c | c in registry && c != currentNpc && c != target
    else set c | c in registry && c != currentNpc
  }

  /** The coordinates held by a list of nodes (what `in` compares). */
  function Cells(nodes: seq<Node>): set<Cell> {
    set n | n in nodes :: n.Pos()
  }

  function NodeCells(nodes: seq<Node>): (cs: seq<Cell>)
    ensures |cs| == |nodes|
    ensures forall i :: 0 <= i < |nodes| ==> cs[i] == nodes[i].Pos()
  {
    seq(|nodes|, i requires 0 <= i < |nodes| => nodes[i].Pos())
  }

  function Reverse<T>(s: seq<T>): (r: seq<T>)
    ensures |r| == |s|
    ensures forall i :: 0 <= i < |s| ==> r[i] == s[|s| - 1 - i]
  {
    if s == [] then [] else Reverse(s[1..]) + [s[0]]
  }

  /** The passable cells of `cs`, in order. */
  function PassableOnly(p: Problem, cs: seq<Cell>): (r: seq<Cell>)
    ensures |r| <= |cs|
  {
    if cs == [] then []
    else
      var last := cs[|cs| - 1];
      PassableOnly(p, cs[..|cs| - 1]) + (if Passable(p, last) then [last] else [])
  }

  /** `PassableOnly` keeps exactly the passable cells. */
  lemma {:induction false} PassableOnlyMembers(p: Problem, cs: seq<Cell>)
    ensures forall c :: c in PassableOnly(p, cs) <==> c in cs && Passable(p, c)
  {
    if cs != [] {
      var init := cs[..|cs| - 1];
      PassableOnlyMembers(p, init);
      assert cs == init + [cs[|cs| - 1]];
    }
  }

  /** `PassableOnly` of a list without repeats has no repeats. */
  lemma {:induction false} PassableOnlyDistinct(p: Problem, cs: seq<Cell>)
    requires forall i, j :: 0 <= i < j < |cs| ==> cs[i] != cs[j]
    ensures forall i, j :: 0 <= i < j < |PassableOnly(p, cs)| ==> PassableOnly(p, cs)[i] != PassableOnly(p, cs)[j]
  {
    if cs != [] {
      var init := cs[..|cs| - 1];
      var last := cs[|cs| - 1];
      PassableOnlyDistinct(p, init);
      PassableOnlyMembers(p, init);
      assert last !in init;
    }
  }

  /**
   * `sorted(open_list, key=f)[0]`: a node of least `f`; since Python's sort
   * is stable, the earliest such node in the list.
   */
  function FirstMinF(open: seq<Node>): (k: nat)
    requires |open| > 0
    reads open
    ensures k < |open|
    ensures forall j :: 0 <= j < |open| ==> open[k].f <= open[j].f
    ensures forall j :: 0 <= j < k ==> open[k].f < open[j].f
  {
    if |open| == 1 then 0
    else
      var k := FirstMinF(open[..|open| - 1]);
      if open[|open| - 1].f < open[k].f then |open| - 1 else k
  }

  /** The generator search `next(node for node in open_list if ...)`: the first node at `c`. */
  function Find(nodes: seq<Node>, c: Cell): (r: Option<nat>)
    ensures r.Some? ==> r.value < |nodes| && nodes[r.value].Pos() == c
    ensures r.Some? ==> forall j :: 0 <= j < r.value ==> nodes[j].Pos() != c
    ensures r.None? <==> c !in Cells(nodes)
  {
    if nodes == [] then None
    else if nodes[0].Pos() == c then Some(0)
    else
      assert Cells(nodes) == {nodes[0].Pos()} + Cells(nodes[1..]);
      match Find(nodes[1..], c)
      case None => None
      case Some(k) => Some(k + 1)
  }

  // ---------------------------------------------------------------------
  // Invariants of the search
  // ---------------------------------------------------------------------

  /**
   * What every node the search has made satisfies: the start node has no
   * parent and zero cost; every other node hangs off an expanded (closed)
   * node one step away, costs one more than it, sits on a passable cell and
   * carries the squared-distance heuristic.
   */
  ghost predicate NodeOk(p: Problem, n: Node, closed: seq<Node>)
    reads n, closed
  {
    if n.parent == null then
      n.Pos() == p.start && n.g == 0 && n.h == 0 && n.f == 0
    else
      && n.parent in closed
      && Adjacent(n.parent.Pos(), n.Pos())
      && n.g == n.parent.g + 1
      && Passable(p, n.Pos())
      && n.h == SquaredDistance(n.Pos(), p.goal)
      && n.f == n.g + n.h
  }

  ghost predicate Distinct(nodes: seq<Node>) {
    forall i, j :: 0 <= i < j < |nodes| ==> nodes[i].Pos() != nodes[j].Pos()
  }

  /**
   * The open list never holds two nodes for one cell, no cell is expanded
   * twice, no cell is both open and closed, and every node is well formed.
   */
  ghost predicate SearchInv(p: Problem, open: seq<Node>, closed: seq<Node>)
    reads open, closed
  {
    && Distinct(open)
    && Distinct(closed)
    && Cells(open) !! Cells(closed)
    && (forall n :: n in open ==> NodeOk(p, n, closed))
    && (forall n :: n in closed ==> NodeOk(p, n, closed))
  }

  /** Every passable neighbour of a cell of `s` lies in `t`. */
  ghost predicate ClosedUnder(p: Problem, s: set<Cell>, t: set<Cell>) {
    forall a, b :: a in s && Adjacent(a, b) && Passable(p, b) ==> b in t
  }

  /** Cells a node may occupy: the start cell or a cell of the grid. */
  ghost function Universe(p: Problem): set<Cell> {
    GridCells() + {p.start}
  }

  // ---------------------------------------------------------------------
  // Lemmas about the invariants
  // ---------------------------------------------------------------------

  lemma {:induction false} DistinctCellCount(nodes: seq<Node>)
    requires Distinct(nodes)
    ensures |Cells(nodes)| == |nodes|
  {
    if nodes != [] {
      var last := nodes[|nodes| - 1];
      var init := nodes[..|nodes| - 1];
      DistinctCellCount(init);
      assert Cells(nodes) == Cells(init) + {last.Pos()};
      assert last.Pos() !in Cells(init);
    } else {
      assert Cells(nodes) == {};
    }
  }

  lemma CellsInUniverse(p: Problem, closed: seq<Node>)
    requires forall n :: n in closed ==> NodeOk(p, n, closed)
    ensures Cells(closed) <= Universe(p)
  {
    forall c | c in Cells(closed) ensures c in Universe(p) {
      var n :| n in closed && n.Pos() == c;
      if n.parent != null {
        InBoundsIsGridCell(c);
      }
    }
  }

  /** Each cell is expanded at most once, so at most `80 * 60` cells (plus an off-grid start) are. */
  lemma ExpansionBound(p: Problem, closed: seq<Node>)
    requires Distinct(closed)
    requires forall n :: n in closed ==> NodeOk(p, n, closed)
    ensures |closed| <= Cols * Rows + 1
    ensures InBounds(p.start) ==> |closed| <= Cols * Rows
  {
    DistinctCellCount(closed);
    CellsInUniverse(p, closed);
    GridCellCount();
    InBoundsIsGridCell(p.start);
    var u := Universe(p);
    SubsetCard(Cells(closed), u);
    if InBounds(p.start) {
      assert u == GridCells();
    } else {
      assert |u| == |GridCells()| + 1;
    }
  }

  lemma SubsetCard<T>(a: set<T>, b: set<T>)
    requires a <= b
    ensures |a| <= |b|
  {
    assert b == a + (b - a);
  }

  lemma MeasureShrinks(u: set<Cell>, s: set<Cell>, c: Cell)
    requires c in u && c !in s
    ensures |u - (s + {c})| < |u - s|
  {
    assert u - s == (u - (s + {c})) + {c};
  }

  /** If a set holds the start, excludes the goal and is closed under passable steps, no route exists. */
  lemma NoRouteLeaves(p: Problem, s: set<Cell>)
    requires p.start in s && p.goal !in s
    requires ClosedUnder(p, s, s)
    ensures Unreachable(p)
  {
    forall route | IsRoute(p, route) ensures false {
      RouteStaysInside(p, s, route, |route| - 1);
    }
  }

  lemma {:induction false} RouteStaysInside(p: Problem, s: set<Cell>, route: seq<Cell>, i: nat)
    requires p.start in s
    requires ClosedUnder(p, s, s)
    requires IsRoute(p, route)
    requires i < |route|
    ensures route[i] in s
  {
    if i > 0 {
      RouteStaysInside(p, s, route, i - 1);
      assert Adjacent(route[i - 1], route[i]);
    }
  }

  /** Taking node `k` out of the open list and appending it to the closed list keeps the invariant. */
  lemma PopKeepsInv(p: Problem, open: seq<Node>, closed: seq<Node>, k: nat)
    requires SearchInv(p, open, closed)
    requires k < |open|
    ensures var rest := open[..k] + open[k + 1..];
      && SearchInv(p, rest, closed + [open[k]])
      && Cells(rest) == Cells(open) - {open[k].Pos()}
      && Cells(closed + [open[k]]) == Cells(closed) + {open[k].Pos()}
      && (forall n :: n in rest ==> n in open)
  {
    var cur := open[k];
    var rest := open[..k] + open[k + 1..];
    var closed' := closed + [cur];
    assert forall n :: n in rest <==> exists i :: 0 <= i < |open| && i != k && open[i] == n;
    forall n | n in open ensures NodeOk(p, n, closed') {
      assert NodeOk(p, n, closed);
    }
    forall n | n in closed' ensures NodeOk(p, n, closed') {
      assert NodeOk(p, n, closed);
    }
    assert Cells(rest) == Cells(open) - {cur.Pos()};
    assert Cells(closed') == Cells(closed) + {cur.Pos()};
  }

  // ---------------------------------------------------------------------
  // The search
  // ---------------------------------------------------------------------

  /**
   * Rebuilds the path from `node` by following parent pointers to the start
   * and reversing (pathfinding.py:39-44). The path has `g + 1` cells, runs
   * from the start to `node`, in 4-connected steps, through passable cells.
   */
  method ReconstructPath(ghost p: Problem, node: Node, ghost closed: seq<Node>) returns (path: seq<Cell>)
    requires node in closed
    requires forall n :: n in closed ==> NodeOk(p, n, closed)
    ensures |path| == node.g + 1
    ensures path[0] == p.start && path[|path| - 1] == node.Pos()
    ensures forall i :: 0 <= i < |path| - 1 ==> Adjacent(path[i], path[i + 1])
    ensures forall i :: 1 <= i < |path| ==> Passable(p, path[i])
  {
    var reversed: seq<Cell> := [];
    var current: Node? := node;
    while current != null
      invariant current != null ==> current in closed
      invariant |reversed| + (if current == null then 0 else current.g + 1) == node.g + 1
      invariant current == node <==> reversed == []
      invariant |reversed| > 0 ==> reversed[0] == node.Pos()
      invariant BackWalk(p, reversed)
      invariant current == null ==> reversed[|reversed| - 1] == p.start
      invariant current != null && reversed != [] ==>
        Adjacent(current.Pos(), reversed[|reversed| - 1]) && Passable(p, reversed[|reversed| - 1])
      decreases if current == null then 0 else current.g + 1
    {
      assert NodeOk(p, current, closed);
      BackWalkSnoc(p, reversed, current.Pos());
      reversed := reversed + [current.Pos()];
      current := current.parent;
    }
    path := Reverse(reversed);
    ReversedWalk(p, reversed);
  }

  /**
   * `r` walks backwards in unit steps, each cell but the last passable: the
   * cells collected by following parent links from a node.
   */
  ghost predicate BackWalk(p: Problem, r: seq<Cell>) {
    forall i :: 0 <= i < |r| - 1 ==> Adjacent(r[i + 1], r[i]) && Passable(p, r[i])
  }

  lemma BackWalkSnoc(p: Problem, r: seq<Cell>, c: Cell)
    requires BackWalk(p, r)
    requires r != [] ==> Adjacent(c, r[|r| - 1]) && Passable(p, r[|r| - 1])
    ensures BackWalk(p, r + [c])
  {
    var r' := r + [c];
    forall i | 0 <= i < |r'| - 1 ensures Adjacent(r'[i + 1], r'[i]) && Passable(p, r'[i]) {
      assert r'[i] == r[i];
    }
  }

  /** A walk collected from the goal back to the start, reversed, runs from the start to the goal. */
  lemma ReversedWalk(p: Problem, reversed: seq<Cell>)
    requires |reversed| > 0
    requires BackWalk(p, reversed)
    ensures Reverse(reversed)[0] == reversed[|reversed| - 1]
    ensures Reverse(reversed)[|reversed| - 1] == reversed[0]
    ensures forall i :: 0 <= i < |reversed| - 1 ==> Adjacent(Reverse(reversed)[i], Reverse(reversed)[i + 1])
    ensures forall i :: 1 <= i < |reversed| ==> Passable(p, Reverse(reversed)[i])
  {
    var path := Reverse(reversed);
    forall i | 0 <= i < |path| - 1 ensures Adjacent(path[i], path[i + 1]) {
      var j := |reversed| - 2 - i;
      assert path[i] == reversed[j + 1] && path[i + 1] == reversed[j];
      AdjacentSymmetric(reversed[j + 1], reversed[j]);
    }
    forall i | 1 <= i < |path| ensures Passable(p, path[i]) {
      assert path[i] == reversed[|reversed| - 1 - i];
    }
  }

  /**
   * The children of `current` (pathfinding.py:46-62): a fresh node, with
   * `current` as parent, for each in-range, wall-free, NPC-free neighbour,
   * in the order of the move list.
   */
  method Successors(p: Problem, current: Node) returns (children: seq<Node>)
    ensures NodeCells(children) == PassableOnly(p, Neighbours(current.Pos()))
    ensures forall n :: n in children ==> fresh(n) && n.parent == current
  {
    children := [];
    var moves := [(0, -1), (0, 1), (-1, 0), (1, 0)];
    ghost var ns := Neighbours(current.Pos());
    for i := 0 to 4
      invariant NodeCells(children) == PassableOnly(p, ns[..i])
      invariant forall n :: n in children ==> fresh(n) && n.parent == current
    {
      var nodePosition := (current.x + moves[i].0, current.y + moves[i].1);
      MoveIsNeighbour(current.Pos(), moves, i);
      PassableOnlyPrefix(p, ns, i);
      if nodePosition.0 < 0 || nodePosition.0 >= Cols || nodePosition.1 < 0 || nodePosition.1 >= Rows {
        continue;
      }
      if p.isWall(nodePosition.0, nodePosition.1) || Cell(nodePosition.0, nodePosition.1) in p.blocked {
        continue;
      }
      var newNode := new Node(nodePosition.0, nodePosition.1);
      newNode.parent := current;
      NodeCellsSnoc(children, newNode);
      children := children + [newNode];
    }
    assert ns[..4] == ns;
  }

  lemma PassableOnlyPrefix(p: Problem, cs: seq<Cell>, i: nat)
    requires i < |cs|
    ensures PassableOnly(p, cs[..i + 1]) == PassableOnly(p, cs[..i]) + (if Passable(p, cs[i]) then [cs[i]] else [])
  {
    assert cs[..i + 1][..i] == cs[..i];
  }

  /** The move list of the search visits the neighbours in `Neighbours` order. */
  lemma MoveIsNeighbour(c: Cell, moves: seq<(int, int)>, i: nat)
    requires moves == [(0, -1), (0, 1), (-1, 0), (1, 0)]
    requires i < 4
    ensures Cell(c.x + moves[i].0, c.y + moves[i].1) == Neighbours(c)[i]
  {
  }

  lemma NodeCellsSnoc(nodes: seq<Node>, n: Node)
    ensures NodeCells(nodes + [n]) == NodeCells(nodes) + [n.Pos()]
  {
  }

  /**
   * One child of the expanded node `current` (pathfinding.py:65-83): skipped
   * if its cell is closed; otherwise given cost and heuristic, and then either
   * appended to the open list or, if a node for its cell is already open,
   * offered to that node as a cheaper way in.
   */
  method Relax(p: Problem, open: seq<Node>, closed: seq<Node>, current: Node, child: Node)
    returns (open': seq<Node>)
    requires SearchInv(p, open, closed)
    requires current in closed
    requires child !in open && child !in closed
    requires child.parent == current
    requires Adjacent(current.Pos(), child.Pos()) && Passable(p, child.Pos())
    modifies child, open
    ensures SearchInv(p, open', closed)
    ensures Cells(open') == Cells(open) + (if child.Pos() in Cells(closed) then {} else {child.Pos()})
    ensures forall n :: n in open' ==> n in open || n == child
    ensures child.Pos() in Cells(closed) ==> open' == open && unchanged(open)
    ensures child.Pos() !in Cells(closed + open) ==> open' == open + [child] && unchanged(open)
    ensures child.Pos() !in Cells(closed) && child.Pos() in Cells(open) ==> open' == open
    ensures child.Pos() in Cells(open') + Cells(closed)
    ensures child.Pos() !in Cells(closed) ==>
      && child.g == current.g + 1
      && child.h == SquaredDistance(child.Pos(), p.goal)
      && child.f == child.g + child.h
    ensures child.Pos() !in Cells(closed) && child.Pos() in Cells(open) ==>
      var k := Find(open, child.Pos()).value;
      && (old(open[k].g) > child.g ==>
            && open[k].g == child.g && open[k].h == child.h
            && open[k].f == child.f && open[k].parent == current)
      && (old(open[k].g) <= child.g ==> unchanged(open[k]))
    ensures forall n :: n in open && n.Pos() != child.Pos() ==> unchanged(n)
  {
    open' := open;
    if child.Pos() in Cells(closed) {
      return;
    }
    Price(p, open, closed, current, child);
    ClosedNotOpen(open, closed, current);
    open' := AddOrImprove(p, open, closed, child);
  }

  /**
   * The child's cost is one more than its parent's and its heuristic is the
   * squared distance to the goal (pathfinding.py:68-70); since the child is
   * in neither list, the invariant of the lists is untouched.
   */
  method Price(p: Problem, open: seq<Node>, closed: seq<Node>, current: Node, child: Node)
    requires SearchInv(p, open, closed)
    requires child !in open && child !in closed
    modifies child
    ensures SearchInv(p, open, closed)
    ensures child.g == old(current.g) + 1
    ensures child.h == SquaredDistance(child.Pos(), p.goal)
    ensures child.f == child.g + child.h
    ensures child.parent == old(child.parent)
  {
    child.g := current.g + 1;
    child.h := SquaredDistance(child.Pos(), p.goal);
    child.f := child.g + child.h;
    forall n | n in open ensures NodeOk(p, n, closed) {
      assert old(NodeOk(p, n, closed));
    }
    forall n | n in closed ensures NodeOk(p, n, closed) {
      assert old(NodeOk(p, n, closed));
    }
  }

  lemma ClosedNotOpen(open: seq<Node>, closed: seq<Node>, n: Node)
    requires Cells(open) !! Cells(closed)
    requires n in closed
    ensures n !in open
  {
    assert n.Pos() in Cells(closed);
  }

  /**
   * The tail of the child loop (pathfinding.py:72-83): an open node for the
   * child's cell may take over the child's cost; otherwise the child joins
   * the open list.
   */
  method AddOrImprove(p: Problem, open: seq<Node>, closed: seq<Node>, child: Node)
    returns (open': seq<Node>)
    requires SearchInv(p, open, closed)
    requires child !in open && child !in closed && child.Pos() !in Cells(closed)
    requires NodeOk(p, child, closed) && child.parent != null
    modifies set n | n in open
    ensures SearchInv(p, open', closed)
    ensures Cells(open') == Cells(open) + {child.Pos()}
    ensures forall n :: n in open' ==> n in open || n == child
    ensures child.Pos() !in Cells(open) ==> open' == open + [child] && unchanged(open)
    ensures child.Pos() in Cells(open) ==> open' == open
    ensures child.Pos() in Cells(open) ==>
      var k := Find(open, child.Pos()).value;
      && (old(open[k].g) > child.g ==>
            && open[k].g == child.g && open[k].h == child.h
            && open[k].f == child.f && open[k].parent == child.parent)
      && (old(open[k].g) <= child.g ==> unchanged(open[k]))
    ensures forall n :: n in open && n.Pos() != child.Pos() ==> unchanged(n)
  {
    var existing := Find(open, child.Pos());
    if existing.Some? {
      LowerCost(p, open, closed, existing.value, child);
      open' := open;
    } else {
      AppendKeepsInv(p, open, closed, child);
      open' := open + [child];
    }
  }

  /**
   * An existing open node for the child's cell takes over the child's cost,
   * heuristic and parent when, and only when, the child's cost is strictly
   * smaller (pathfinding.py:75-81); no other node changes.
   */
  method LowerCost(p: Problem, open: seq<Node>, closed: seq<Node>, k: nat, child: Node)
    requires SearchInv(p, open, closed)
    requires k < |open| && open[k].Pos() == child.Pos()
    requires child !in open && child !in closed
    requires NodeOk(p, child, closed) && child.parent != null
    modifies open[k]
    ensures SearchInv(p, open, closed)
    ensures old(open[k].g) > child.g ==>
      && open[k].g == child.g && open[k].h == child.h
      && open[k].f == child.f && open[k].parent == child.parent
    ensures old(open[k].g) <= child.g ==> unchanged(open[k])
  {
    var existingNode := open[k];
    OpenNotClosed(open, closed, existingNode);
    if existingNode.g > child.g {
      existingNode.g := child.g;
      existingNode.h := child.h;
      existingNode.f := child.f;
      existingNode.parent := child.parent;
      assert NodeOk(p, existingNode, closed);
      forall n | n in open ensures NodeOk(p, n, closed) {
        if n != existingNode {
          assert old(NodeOk(p, n, closed));
        }
      }
      forall n | n in closed ensures NodeOk(p, n, closed) {
        assert old(NodeOk(p, n, closed));
      }
    }
  }

  lemma OpenNotClosed(open: seq<Node>, closed: seq<Node>, n: Node)
    requires Cells(open) !! Cells(closed)
    requires n in open
    ensures n !in closed
  {
    assert n.Pos() in Cells(open);
  }

  lemma AppendKeepsInv(p: Problem, open: seq<Node>, closed: seq<Node>, child: Node)
    requires SearchInv(p, open, closed)
    requires child.Pos() !in Cells(open) && child.Pos() !in Cells(closed)
    requires NodeOk(p, child, closed)
    ensures SearchInv(p, open + [child], closed)
    ensures Cells(open + [child]) == Cells(open) + {child.Pos()}
  {
    assert Cells(open + [child]) == Cells(open) + {child.Pos()};
  }

  /** The children loop of one expansion (pathfinding.py:64-83). */
  method MergeChildren(p: Problem, open: seq<Node>, closed: seq<Node>, current: Node, children: seq<Node>)
    returns (open': seq<Node>)
    requires SearchInv(p, open, closed)
    requires current in closed
    requires NodeCells(children) == PassableOnly(p, Neighbours(current.Pos()))
    requires forall i :: 0 <= i < |children| ==> children[i] !in open && children[i] !in closed && children[i].parent == current
    modifies set n | n in open + children
    ensures SearchInv(p, open', closed)
    ensures Cells(open) <= Cells(open')
    ensures forall c :: Adjacent(current.Pos(), c) && Passable(p, c) ==> c in Cells(open') + Cells(closed)
    ensures forall n :: n in open' ==> n in open || n in children
  {
    open' := open;
    for i := 0 to |children|
      invariant MergeInv(p, open, closed, current, children, i, open')
    {
      open' := MergeChild(p, open, closed, current, children, i, open');
    }
    ChildrenCover(p, current, children, Cells(open') + Cells(closed));
  }

  /** After `i` children: the search invariant holds, nothing open was lost, later children are untouched. */
  ghost predicate MergeInv(p: Problem, open: seq<Node>, closed: seq<Node>, current: Node, children: seq<Node>, i: nat, open': seq<Node>)
    reads open', closed, children
  {
    && i <= |children|
    && SearchInv(p, open', closed)
    && Covered(open, closed, children, i, open')
    && (forall j :: i <= j < |children| ==> children[j] !in open' && children[j] !in closed && children[j].parent == current)
  }

  /**
   * The part of `MergeInv` that speaks only of cells and list membership:
   * the open list only grows in cells, holds only old or new nodes, and the
   * first `i` children's cells are open or closed.
   */
  ghost predicate Covered(open: seq<Node>, closed: seq<Node>, children: seq<Node>, i: nat, open': seq<Node>)
    requires i <= |children|
  {
    && Cells(open) <= Cells(open')
    && (forall n :: n in open' ==> n in open || n in children)
    && (forall j :: 0 <= j < i ==> children[j].Pos() in Cells(open') + Cells(closed))
  }

  /** Relaxing child `i` extends `Covered` to the first `i + 1` children. */
  lemma CoveredStep(open: seq<Node>, closed: seq<Node>, children: seq<Node>, i: nat, cur: seq<Node>, cur': seq<Node>)
    requires i < |children|
    requires Covered(open, closed, children, i, cur)
    requires Cells(cur) <= Cells(cur')
    requires forall n :: n in cur' ==> n in cur || n == children[i]
    requires children[i].Pos() in Cells(cur') + Cells(closed)
    ensures Covered(open, closed, children, i + 1, cur')
  {
  }

  /** One turn of the children loop: relax child `i` against the open list. */
  method MergeChild(p: Problem, open: seq<Node>, closed: seq<Node>, current: Node, children: seq<Node>, i: nat, cur: seq<Node>)
    returns (cur': seq<Node>)
    requires MergeInv(p, open, closed, current, children, i, cur)
    requires current in closed
    requires NodeCells(children) == PassableOnly(p, Neighbours(current.Pos()))
    requires i < |children|
    modifies children[i], cur
    ensures MergeInv(p, open, closed, current, children, i + 1, cur')
    ensures forall n :: n in cur' ==> n in cur || n == children[i]
  {
    var child := children[i];
    ChildFacts(p, current, children, i);
    cur' := Relax(p, cur, closed, current, child);
    CoveredStep(open, closed, children, i, cur, cur');
    forall j | i < j < |children|
      ensures children[j] !in cur' && children[j] !in closed && children[j].parent == current
    {
      assert children[j] != child && children[j] !in cur;
      assert old(children[j].parent) == current;
    }
  }

  /** The `i`-th child is a passable neighbour of `current`, and no later child is the same object. */
  lemma ChildFacts(p: Problem, current: Node, children: seq<Node>, i: nat)
    requires NodeCells(children) == PassableOnly(p, Neighbours(current.Pos()))
    requires i < |children|
    ensures Adjacent(current.Pos(), children[i].Pos()) && Passable(p, children[i].Pos())
    ensures forall j :: i < j < |children| ==> children[j] != children[i]
  {
    PassableOnlyMembers(p, Neighbours(current.Pos()));
    PassableOnlyDistinct(p, Neighbours(current.Pos()));
    assert children[i].Pos() == NodeCells(children)[i];
    assert children[i].Pos() in Neighbours(current.Pos());
    forall j | i < j < |children| ensures children[j] != children[i] {
      assert NodeCells(children)[j] != NodeCells(children)[i];
    }
  }

  /** Once every child's cell is in `s`, so is every passable neighbour of `current`. */
  lemma ChildrenCover(p: Problem, current: Node, children: seq<Node>, s: set<Cell>)
    requires NodeCells(children) == PassableOnly(p, Neighbours(current.Pos()))
    requires forall j :: 0 <= j < |children| ==> children[j].Pos() in s
    ensures forall c :: Adjacent(current.Pos(), c) && Passable(p, c) ==> c in s
  {
    PassableOnlyMembers(p, Neighbours(current.Pos()));
    forall c | Adjacent(current.Pos(), c) && Passable(p, c) ensures c in s {
      assert c in NodeCells(children);
      var j :| 0 <= j < |children| && NodeCells(children)[j] == c;
    }
  }

  /**
   * One expansion past the goal test (pathfinding.py:64-83): generate the
   * passable neighbours of `current` and merge them into the open list.
   * Afterwards every passable neighbour of `current` is open or closed.
   */
  method Expand(p: Problem, open: seq<Node>, closed: seq<Node>, current: Node) returns (open': seq<Node>)
    requires SearchInv(p, open, closed)
    requires current in closed
    modifies set n | n in open
    ensures SearchInv(p, open', closed)
    ensures Cells(open) <= Cells(open')
    ensures forall c :: Adjacent(current.Pos(), c) && Passable(p, c) ==> c in Cells(open') + Cells(closed)
    ensures forall n :: n in open' ==> n in open || fresh(n)
  {
    var children := Successors(p, current);
    open' := MergeChildren(p, open, closed, current, children);
  }

  /** Closing `c` and opening its passable neighbours keeps "closed cells have their neighbours seen". */
  lemma ClosedUnderStep(p: Problem, closed: set<Cell>, open: set<Cell>, c: Cell, rest: set<Cell>, open': set<Cell>)
    requires ClosedUnder(p, closed, open + closed)
    requires c in open && rest == open - {c}
    requires rest <= open'
    requires forall b :: Adjacent(c, b) && Passable(p, b) ==> b in open' + (closed + {c})
    ensures ClosedUnder(p, closed + {c}, open' + (closed + {c}))
  {
  }

  /**
   * The loop invariant of the search: the bookkeeping of `SearchInv`, the
   * start has been seen, the goal has not been expanded, and every passable
   * neighbour of an expanded cell has been seen.
   */
  ghost predicate Frontier(p: Problem, open: seq<Node>, closed: seq<Node>)
    reads open, closed
  {
    && SearchInv(p, open, closed)
    && p.start in Cells(open) + Cells(closed)
    && p.goal !in Cells(closed)
    && ClosedUnder(p, Cells(closed), Cells(open) + Cells(closed))
  }

  /**
   * One turn of the search loop (pathfinding.py:29-83): take the first open
   * node of least `f`, close it, and stop if it is the goal; otherwise
   * expand it. The node closed is one not closed before.
   */
  method SearchStep(p: Problem, open: seq<Node>, closed: seq<Node>)
    returns (open': seq<Node>, closed': seq<Node>, current: Node, found: bool)
    requires Frontier(p, open, closed)
    requires |open| > 0
    modifies set n | n in open
    ensures closed' == closed + [current]
    ensures Cells(closed') == Cells(closed) + {current.Pos()}
    ensures current.Pos() !in Cells(closed) && current.Pos() in Universe(p)
    ensures found <==> current.Pos() == p.goal
    ensures found ==> SearchInv(p, open', closed')
    ensures !found ==> Frontier(p, open', closed')
    ensures forall n :: n in open' ==> n in open || fresh(n)
    ensures var k := old(FirstMinF(open));
      && current == open[k]
      && (found ==> open' == open[..k] + open[k + 1..])
  {
    var k := FirstMinF(open);
    current := open[k];
    PopKeepsInv(p, open, closed, k);
    CellsInUniverse(p, closed + [current]);
    ghost var seen := Cells(open);
    ghost var done := Cells(closed);
    open' := open[..k] + open[k + 1..];
    closed' := closed + [current];
    found := current.x == p.goal.x && current.y == p.goal.y;
    if found {
      return;
    }
    ghost var rest := Cells(open');
    open' := Expand(p, open', closed', current);
    ClosedUnderStep(p, done, seen, current.Pos(), rest, Cells(open'));
  }

  /**
   * `a_star_pathfinding`: searches from `start` to `target`, treating the
   * cells of `registry` (every NPC's position) as obstacles except
   * `currentNpc`'s own cell and, for an NPC target, the target's cell.
   *
   * A returned path is a route from start to target through passable cells
   * in unit steps; `None` is returned exactly when no such route exists.
   * Every cell is expanded at most once, so the loop runs at most `80 * 60`
   * times (one more if the start lies off the grid).
   */
  method AStarPathfinding(start: Cell, target: Cell, targetIsNpc: bool, isWall: (int, int) -> bool,
                          registry: seq<Cell>, currentNpc: Cell)
    returns (path: Option<seq<Cell>>, ghost expansions: nat)
    ensures Solves(Problem(start, target, isWall, NpcPositions(registry, currentNpc, target, targetIsNpc)), path)
    ensures expansions <= Cols * Rows + 1
    ensures InBounds(start) ==> expansions <= Cols * Rows
  {
    var npcPositions := NpcPositions(registry, currentNpc, target, targetIsNpc);
    path, expansions := Search(Problem(start, target, isWall, npcPositions));
  }

  /**
   * The search loop of `a_star_pathfinding` (pathfinding.py:18-23, 29-85) on
   * a fixed problem. The ghost `expansions` counts the turns of the loop: the
   * loop invariant keeps it equal to the length of the closed list, which
   * `ExpansionBound` bounds.
   */
  method Search(p: Problem) returns (path: Option<seq<Cell>>, ghost expansions: nat)
    ensures Solves(p, path)
    ensures expansions <= Cols * Rows + 1
    ensures InBounds(p.start) ==> expansions <= Cols * Rows
  {
    var startNode := new Node(p.start.x, p.start.y);
    var open: seq<Node> := [startNode];
    var closed: seq<Node> := [];
    assert NodeOk(p, startNode, closed);
    expansions := 0;

    while |open| > 0
      invariant Frontier(p, open, closed)
      invariant forall n :: n in open ==> fresh(n)
      invariant expansions == |closed|
      decreases |Universe(p) - Cells(closed)|
    {
      ghost var before := Cells(closed);
      var currentNode, found;
      open, closed, currentNode, found := SearchStep(p, open, closed);
      MeasureShrinks(Universe(p), before, currentNode.Pos());
      expansions := expansions + 1;
      if found {
        ExpansionBound(p, closed);
        var route := ReconstructPath(p, currentNode, closed);
        assert IsRoute(p, route);
        return Some(route), expansions;
      }
    }
    assert Cells(open) == {};
    ExpansionBound(p, closed);
    NoRouteLeaves(p, Cells(closed));
    return None, expansions;
  }
}
