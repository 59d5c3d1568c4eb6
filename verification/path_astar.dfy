/**
 * The A* path finder of path_astar.c: one node per cell (position, state,
 * cost, parent), an ordered open set of node indices, eight-neighbour
 * expansion, and reconstruction of the path from the destination back along
 * parent links. The search is a pure function of the map; its loop runs at
 * most `fuel` rounds.
 */
module PathAstar {
  import opened Util
  import opened Defines
  import opened List
  import opened Grid
  import opened Store
  import opened AstarOpen
  import opened PathBasic

  /** The neighbour offsets (dirx, diry), in the order the expansion and the path-map step visit them. */
  const Dirs: seq<Step> := [Step(0, -1), Step(-1, 0), Step(1, 0), Step(0, 1), Step(-1, -1), Step(1, -1), Step(-1, 1), Step(1, 1)]

  datatype NodeState = Empty | Open | Closed

  /** path_element: the cell it stands for, its state, the cost from the origin and its parent node. */
  datatype Node = Node(x: int, y: int, state: NodeState, cost: int, parent: Option<nat>)

  /** The search: every node, and the open set (bottom at index 0, top last). */
  datatype Search = Search(nodes: seq<Node>, open: seq<nat>)

  /** The eight offsets are the eight king moves, each once. */
  lemma DirsAreKingMoves()
    ensures |Dirs| == 8 && KingMoves(Dirs)
    ensures forall d, e :: 0 <= d < e < 8 ==> Dirs[d] != Dirs[e]
  {
  }

  /** Every offset moves one step in some direction. */
  predicate KingMoves(dirs: seq<Step>)
  {
    forall i :: 0 <= i < |dirs| ==> Adjacent(Step(0, 0), dirs[i])
  }

  // ---------------------------------------------------------------------
  // path_cost

  /**
   * path_cost: the cost so far, the distance estimate to the goal (dx, dy), and the
   * diagonal surcharge dc when the node shares neither row nor column with the goal.
   * dc is the float dcost after C's conversion of `0 + dcost` to int.
   */
  function PathCost(cost: int, x: int, y: int, dx: int, dy: int, dc: int): (r: int)
    ensures x == dx && y == dy ==> r == cost
    ensures (x == dx) != (y == dy) ==> r == cost + Distance(x, y, dx, dy)
    ensures x != dx && y != dy ==> r == cost + Distance(x, y, dx, dy) + dc
  {
    cost + Distance(x, y, dx, dy) + (if x - dx != 0 && y - dy != 0 then dc else 0)
  }

  /** path_cost's estimate cache: computed when the cached value is 0. */
  function CachedEstimate(cached: int, x: int, y: int, dx: int, dy: int): int
  {
    if cached == 0 then Distance(x, y, dx, dy) else cached
  }

  /** The cache never changes a cost: the only cell whose estimate is 0 is the goal, where recomputing gives 0 again. */
  lemma EstimateCacheTransparent(x: int, y: int, dx: int, dy: int)
    ensures CachedEstimate(0, x, y, dx, dy) == Distance(x, y, dx, dy)
    ensures CachedEstimate(Distance(x, y, dx, dy), x, y, dx, dy) == Distance(x, y, dx, dy)
    ensures Distance(x, y, dx, dy) == 0 <==> x == dx && y == dy
  {
    DistanceProperties(x, y, dx, dy);
  }

  /** For one node, the estimate and the surcharge cancel: a path cost is lower exactly when the cost so far is. */
  lemma CheaperIffLowerCost(c1: int, c2: int, x: int, y: int, dx: int, dy: int, dc: int)
    ensures PathCost(c1, x, y, dx, dy, dc) > PathCost(c2, x, y, dx, dy, dc) <==> c1 > c2
  {
  }

  function NodeCost(n: Node, dx: int, dy: int, dc: int): int
  {
    PathCost(n.cost, n.x, n.y, dx, dy, dc)
  }

  /** The path cost of node n under the current node values: the key of the open set. */
  function Key(nodes: seq<Node>, dx: int, dy: int, dc: int): nat -> int
  {
    (n: nat) => if n < |nodes| then NodeCost(nodes[n], dx, dy, dc) else 0
  }

  // ---------------------------------------------------------------------
  // init_path, path_check, find_path

  /** init_path: node k stands for cell (k % w, k / w), empty, cost 0, no parent. */
  function InitNodes(w: nat, h: nat): (nodes: seq<Node>)
    ensures |nodes| == Mul(w, h)
  {
    seq(Mul(w, h), k requires 0 <= k < Mul(w, h) => Node(k % w, k / w, Empty, 0, None))
  }

  /** The cell bits path_check accepts: OPEN or WALK. */
  predicate Passable(g: Grid, x: int, y: int)
    requires g.Valid() && g.InGrid(x, y)
  {
    Has(g, x, y, CELL_OPEN | CELL_WALK)
  }

  /** The shape every search state keeps: one node per cell, open-set entries are node indices. */
  ghost predicate Wf(g: Grid, s: Search)
  {
    && |s.nodes| == Mul(g.width, g.height)
    && forall i :: 0 <= i < |s.open| ==> s.open[i] < |s.nodes|
  }

  /** n with a new cost and parent, marked open. */
  function Reached(n: Node, cost: int, parent: nat): Node
  {
    n.(state := Open, cost := cost, parent := Some(parent))
  }

  /**
   * path_check of cell (x, y) from node cur: an in-grid, passable cell whose node is
   * still empty is opened with cost cur.cost + 1; a seen node is re-parented,
   * re-opened and re-pushed only when that makes its path cost strictly lower.
   */
  function Check(g: Grid, s: Search, cur: nat, x: int, y: int, dx: int, dy: int, dc: int): (r: Search)
    requires g.Valid() && Wf(g, s) && cur < |s.nodes|
    ensures Wf(g, r)
  {
    if !g.InGrid(x, y) || !Passable(g, x, y) then s
    else
      IdxInRange(g.width, g.height, x, y);
      CheckAt(g, s, cur, Idx(g.width, x, y), dx, dy, dc)
  }

  /** path_check on the neighbour node n: re-open it when it is empty or the route through cur is cheaper. */
  function CheckAt(g: Grid, s: Search, cur: nat, n: nat, dx: int, dy: int, dc: int): (r: Search)
    requires Wf(g, s) && cur < |s.nodes| && n < |s.nodes|
    ensures Wf(g, r)
  {
    var node := s.nodes[n];
    if node.state == Empty || PathCost(node.cost, node.x, node.y, dx, dy, dc) > PathCost(s.nodes[cur].cost + 1, node.x, node.y, dx, dy, dc)
    then Reopen(g, s, cur, n, dx, dy, dc)
    else s
  }

  /** The nodes after path_check's update: n reached from cur. */
  function Relinked(nodes: seq<Node>, cur: nat, n: nat): (r: seq<Node>)
    requires cur < |nodes| && n < |nodes|
  {
    nodes[n := Reached(nodes[n], nodes[cur].cost + 1, cur)]
  }

  /**
   * The update of path_check: node n gets cost cur.cost + 1, parent cur and state open;
   * it is removed from the open set if it was open, then pushed.
   */
  function Reopen(g: Grid, s: Search, cur: nat, n: nat, dx: int, dy: int, dc: int): (r: Search)
    requires Wf(g, s) && cur < |s.nodes| && n < |s.nodes|
    ensures Wf(g, r)
    ensures r.nodes == Relinked(s.nodes, cur, n)
    ensures r.open == PushOpen(if s.nodes[n].state == Open then RemoveOpen(s.open, n) else s.open, n, Key(r.nodes, dx, dy, dc))
  {
    var nodes' := Relinked(s.nodes, cur, n);
    var open1 := if s.nodes[n].state == Open then RemoveOpen(s.open, n) else s.open;
    RemoveWf(s.open, n, |nodes'|);
    PushWf(open1, n, Key(nodes', dx, dy, dc), |nodes'|);
    Search(nodes', PushOpen(open1, n, Key(nodes', dx, dy, dc)))
  }

  lemma PushWf(open: seq<nat>, n: nat, key: nat -> int, size: nat)
    requires n < size && forall i :: 0 <= i < |open| ==> open[i] < size
    ensures forall i :: 0 <= i < |PushOpen(open, n, key)| ==> PushOpen(open, n, key)[i] < size
  {
    var r := PushOpen(open, n, key);
    forall i | 0 <= i < |r|
      ensures r[i] < size
    {
      assert r[i] in multiset(r);
    }
  }

  lemma RemoveWf(open: seq<nat>, n: nat, size: nat)
    requires forall i :: 0 <= i < |open| ==> open[i] < size
    ensures forall i :: 0 <= i < |RemoveOpen(open, n)| ==> RemoveOpen(open, n)[i] < size
  {
    var r := RemoveOpen(open, n);
    RemoveOpenMultiset(open, n);
    forall i | 0 <= i < |r|
      ensures r[i] < size
    {
      assert r[i] in multiset(r);
    }
  }

  /** The cell one offset away from c. */
  function Offset(c: Step, d: Step): Step
  {
    Step(c.x + d.x, c.y + d.y)
  }

  /**
   * The loop `for(dir=0; dir<8; dir++) path_check(...)` over the offsets still to visit,
   * from node cur standing for cell c.
   */
  function Expand(g: Grid, s: Search, cur: nat, c: Step, dirs: seq<Step>, dx: int, dy: int, dc: int): (r: Search)
    requires g.Valid() && Wf(g, s) && cur < |s.nodes|
    ensures Wf(g, r)
    decreases |dirs|
  {
    if dirs == [] then s
    else
      var t := Offset(c, dirs[0]);
      Expand(g, Check(g, s, cur, t.x, t.y, dx, dy, dc), cur, c, dirs[1..], dx, dy, dc)
  }

  /** How the search loop ends: the goal popped, the open set empty, or the round bound reached. */
  datatype Outcome = Found(goal: nat, s: Search) | Exhausted(s: Search) | OutOfFuel

  /** path_pop_open followed by `current->state = STATE_CLOSED`. */
  function CloseTop(s: Search): (r: Search)
    requires |s.open| > 0 && s.open[|s.open| - 1] < |s.nodes|
    ensures |r.nodes| == |s.nodes| && r.open == s.open[..|s.open| - 1]
  {
    var cur := PopOpen(s.open).0;
    Search(s.nodes[cur := s.nodes[cur].(state := Closed)], PopOpen(s.open).1)
  }

  /**
   * The loop of find_path: while the open set is not empty, pop the top node; stop on the
   * goal (unless filling); close it and check its eight neighbours.
   */
  function Run(g: Grid, s: Search, dirs: seq<Step>, dx: int, dy: int, fill: bool, dc: int, fuel: nat): (o: Outcome)
    requires g.Valid() && Wf(g, s)
    ensures o.Found? ==> Wf(g, o.s) && o.goal < |o.s.nodes| && !fill
    ensures o.Found? ==> o.s.nodes[o.goal].x == dx && o.s.nodes[o.goal].y == dy
    ensures o.Exhausted? ==> Wf(g, o.s) && o.s.open == []
    decreases fuel
  {
    if |s.open| == 0 then Exhausted(s)
    else if fuel == 0 then OutOfFuel
    else
      var cur := s.open[|s.open| - 1];
      if !fill && s.nodes[cur].x == dx && s.nodes[cur].y == dy then Found(cur, Search(s.nodes, s.open[..|s.open| - 1]))
      else Run(g, Round(g, s, dirs, dx, dy, dc), dirs, dx, dy, fill, dc, fuel - 1)
  }

  /** One round of the loop past the goal test: pop and close the top node, then check its eight neighbours. */
  function Round(g: Grid, s: Search, dirs: seq<Step>, dx: int, dy: int, dc: int): (r: Search)
    requires g.Valid() && Wf(g, s) && |s.open| > 0
    ensures Wf(g, r)
  {
    var cur := s.open[|s.open| - 1];
    Expand(g, CloseTop(s), cur, At(s.nodes[cur]), dirs, dx, dy, dc)
  }

  /** find_path's bootstrap: every node fresh, the origin (still empty) the only open node. */
  function Start(g: Grid, ox: int, oy: int): (s: Search)
    requires g.Valid() && g.InGrid(ox, oy)
    ensures Wf(g, s)
  {
    IdxInRange(g.width, g.height, ox, oy);
    Search(InitNodes(g.width, g.height), [Idx(g.width, ox, oy)])
  }

  // ---------------------------------------------------------------------
  // What the search keeps true

  /** Node k stands for the in-grid cell whose index is k. */
  ghost predicate PosInv(g: Grid, nodes: seq<Node>)
  {
    && |nodes| == Mul(g.width, g.height)
    && forall k {:trigger OnCell(g, nodes, k)} :: 0 <= k < |nodes| ==> OnCell(g, nodes, k)
  }

  ghost predicate OnCell(g: Grid, nodes: seq<Node>, k: nat)
    requires k < |nodes|
  {
    g.InGrid(nodes[k].x, nodes[k].y) && Idx(g.width, nodes[k].x, nodes[k].y) == k
  }

  /** The open set holds distinct open nodes ordered by path cost. */
  ghost predicate OpenInv(s: Search, dx: int, dy: int, dc: int)
  {
    && (forall i :: 0 <= i < |s.open| ==> s.open[i] < |s.nodes| && s.nodes[s.open[i]].state == Open)
    && NoDup(s.open)
    && SortedDesc(s.open, Key(s.nodes, dx, dy, dc))
  }

  /** Two cells are king-move neighbours. */
  predicate Adjacent(a: Step, b: Step)
  {
    Abs(a.x - b.x) <= 1 && Abs(a.y - b.y) <= 1 && a != b
  }

  function At(n: Node): Step
  {
    Step(n.x, n.y)
  }

  /** Node k's parent link: a reached neighbour of lower cost, and k's cell is passable. */
  ghost predicate LinkOk(g: Grid, nodes: seq<Node>, k: nat)
    requires g.Valid() && k < |nodes| && nodes[k].parent.Some?
  {
    var p := nodes[k].parent.value;
    && p < |nodes| && nodes[p].cost < nodes[k].cost && nodes[p].state != Empty
    && Adjacent(At(nodes[p]), At(nodes[k]))
    && g.InGrid(nodes[k].x, nodes[k].y) && Passable(g, nodes[k].x, nodes[k].y)
  }

  /**
   * The parent links form a tree rooted at the origin: the origin has cost 0 and no
   * parent, every other reached node has a parent, costs are non-negative and fall
   * strictly along each link.
   */
  ghost predicate TreeInv(g: Grid, nodes: seq<Node>, origin: nat)
    requires g.Valid()
  {
    && origin < |nodes| && nodes[origin].cost == 0 && nodes[origin].parent.None?
    && (forall k :: 0 <= k < |nodes| ==> nodes[k].cost >= 0)
    && (forall k :: 0 <= k < |nodes| && k != origin && nodes[k].state != Empty ==> nodes[k].parent.Some?)
    && (forall k {:trigger LinkOk(g, nodes, k)} :: 0 <= k < |nodes| && nodes[k].parent.Some? ==> LinkOk(g, nodes, k))
  }

  /** Everything the search loop keeps, once the origin has been closed. */
  ghost predicate Inv(g: Grid, s: Search, origin: nat, dx: int, dy: int, dc: int)
    requires g.Valid()
  {
    && Wf(g, s) && PosInv(g, s.nodes) && OpenInv(s, dx, dy, dc) && TreeInv(g, s.nodes, origin)
    && s.nodes[origin].state != Empty
  }

  /** The fresh nodes of init_path stand for their cells. */
  lemma InitNodesPos(g: Grid)
    requires g.Valid()
    ensures PosInv(g, InitNodes(g.width, g.height))
  {
    var nodes := InitNodes(g.width, g.height);
    forall k | 0 <= k < |nodes|
      ensures OnCell(g, nodes, k)
    {
      IndexRow(g.width, g.height, k);
    }
  }

  /** Changing node n leaves the key of every other node alone. */
  lemma KeyFrame(nodes: seq<Node>, n: nat, v: Node, open: seq<nat>, dx: int, dy: int, dc: int)
    requires n < |nodes| && SortedDesc(open, Key(nodes, dx, dy, dc)) && n !in open
    ensures SortedDesc(open, Key(nodes[n := v], dx, dy, dc))
  {
    var k1, k2 := Key(nodes, dx, dy, dc), Key(nodes[n := v], dx, dy, dc);
    forall i, j | 0 <= i < j < |open|
      ensures k2(open[i]) >= k2(open[j])
    {
      assert k1(open[i]) >= k1(open[j]);
    }
  }

  /** An in-grid cell adjacent to node cur is node Idx(x, y): a different, adjacent node. */
  lemma Neighbour(g: Grid, nodes: seq<Node>, cur: nat, x: int, y: int)
    requires g.Valid() && PosInv(g, nodes) && cur < |nodes|
    requires g.InGrid(x, y) && Adjacent(At(nodes[cur]), Step(x, y))
    ensures var n := Idx(g.width, x, y);
      && 0 <= n < |nodes| && nodes[n].x == x && nodes[n].y == y && n != cur
      && Adjacent(At(nodes[cur]), At(nodes[n]))
  {
    var n := Idx(g.width, x, y);
    IdxInRange(g.width, g.height, x, y);
    assert OnCell(g, nodes, n) && OnCell(g, nodes, cur);
    IdxInjective(g.width, nodes[n].x, nodes[n].y, x, y);
  }

  /** Re-costing a node keeps every node on its cell. */
  lemma ReachedKeepsPos(g: Grid, nodes: seq<Node>, cur: nat, n: nat)
    requires PosInv(g, nodes) && cur < |nodes| && n < |nodes|
    ensures PosInv(g, Relinked(nodes, cur, n))
  {
    var nodes' := Relinked(nodes, cur, n);
    forall k | 0 <= k < |nodes'|
      ensures OnCell(g, nodes', k)
    {
      assert OnCell(g, nodes, k);
    }
  }

  /** Inserting a node absent from a duplicate-free sequence keeps it duplicate-free. */
  lemma InsNoDup(s: seq<nat>, p: nat, e: nat)
    requires p <= |s| && NoDup(s) && e !in s
    ensures NoDup(Ins(s, p, e))
  {
    var t := Ins(s, p, e);
    forall i, j | 0 <= i < j < |t|
      ensures t[i] != t[j]
    {
      var i' := if i < p then i else i - 1;
      var j' := if j < p then j else j - 1;
      if i != p && j != p {
        assert t[i] == s[i'] && t[j] == s[j'];
      } else if i == p {
        assert t[j] == s[j'];
      } else {
        assert t[i] == s[i'];
      }
    }
  }

  /** Pushing a re-costed node n onto an open set without it re-establishes the open-set invariant. */
  lemma PushReachedOpen(s: Search, cur: nat, n: nat, open1: seq<nat>, dx: int, dy: int, dc: int)
    requires cur < |s.nodes| && n < |s.nodes| && n !in open1 && NoDup(open1)
    requires forall i :: 0 <= i < |open1| ==> open1[i] < |s.nodes| && s.nodes[open1[i]].state == Open
    requires SortedDesc(open1, Key(s.nodes, dx, dy, dc))
    ensures var nodes' := Relinked(s.nodes, cur, n);
      OpenInv(Search(nodes', PushOpen(open1, n, Key(nodes', dx, dy, dc))), dx, dy, dc)
  {
    var v := Reached(s.nodes[n], s.nodes[cur].cost + 1, cur);
    var nodes' := Relinked(s.nodes, cur, n);
    var key' := Key(nodes', dx, dy, dc);
    KeyFrame(s.nodes, n, v, open1, dx, dy, dc);
    PushOpenInserts(open1, n, key');
    var r := PushOpen(open1, n, key');
    InsNoDup(open1, Rank(open1, n, key'), n);
    forall i | 0 <= i < |r|
      ensures r[i] < |nodes'| && nodes'[r[i]].state == Open
    {
      assert r[i] in multiset(r);
      if r[i] != n {
        assert r[i] in multiset(open1);
        var j :| 0 <= j < |open1| && open1[j] == r[i];
      }
    }
  }

  /** The open set path_check pushes onto: unchanged for an empty or closed node, without n for an open one. */
  lemma OpenBeforePush(s: Search, n: nat, dx: int, dy: int, dc: int)
    requires OpenInv(s, dx, dy, dc) && n < |s.nodes|
    ensures var open1 := if s.nodes[n].state == Open then RemoveOpen(s.open, n) else s.open;
      && n !in open1 && NoDup(open1) && SortedDesc(open1, Key(s.nodes, dx, dy, dc))
      && forall i :: 0 <= i < |open1| ==> open1[i] < |s.nodes| && s.nodes[open1[i]].state == Open
  {
    if s.nodes[n].state == Open {
      var open1 := RemoveOpen(s.open, n);
      RemoveOpenSorted(s.open, n, Key(s.nodes, dx, dy, dc));
      RemoveOpenNoDup(s.open, n);
      forall i | 0 <= i < |open1|
        ensures open1[i] < |s.nodes| && s.nodes[open1[i]].state == Open
      {
        assert open1[i] in s.open;
      }
    }
  }

  /**
   * Giving node n the parent cur and cost cur.cost + 1 keeps the tree, provided n is a
   * passable neighbour of the reached node cur, is not the origin, and was empty or
   * costlier.
   */
  lemma ReachedKeepsTree(g: Grid, nodes: seq<Node>, origin: nat, cur: nat, n: nat)
    requires g.Valid() && TreeInv(g, nodes, origin) && cur < |nodes| && n < |nodes| && n != origin
    requires nodes[origin].state != Empty
    requires nodes[cur].state != Empty && Adjacent(At(nodes[cur]), At(nodes[n]))
    requires g.InGrid(nodes[n].x, nodes[n].y) && Passable(g, nodes[n].x, nodes[n].y)
    requires nodes[n].state == Empty || nodes[n].cost > nodes[cur].cost + 1
    ensures TreeInv(g, Relinked(nodes, cur, n), origin) && Relinked(nodes, cur, n)[origin].state != Empty
  {
    var nodes' := Relinked(nodes, cur, n);
    forall k | 0 <= k < |nodes'| && nodes'[k].parent.Some?
      ensures LinkOk(g, nodes', k)
    {
      if k != n {
        assert LinkOk(g, nodes, k);
      }
    }
  }

  /** Re-costing node n and pushing it keeps the open-set invariant. */
  lemma ReopenKeepsOpen(g: Grid, s: Search, cur: nat, n: nat, dx: int, dy: int, dc: int)
    requires Wf(g, s) && OpenInv(s, dx, dy, dc) && cur < |s.nodes| && n < |s.nodes|
    ensures OpenInv(Reopen(g, s, cur, n, dx, dy, dc), dx, dy, dc)
  {
    var open1 := if s.nodes[n].state == Open then RemoveOpen(s.open, n) else s.open;
    OpenBeforePush(s, n, dx, dy, dc);
    PushReachedOpen(s, cur, n, open1, dx, dy, dc);
  }

  /** The update of path_check keeps the loop invariant when n is a passable neighbour of the closed node cur that was empty or costlier. */
  lemma ReopenKeepsInv(g: Grid, s: Search, origin: nat, cur: nat, n: nat, dx: int, dy: int, dc: int)
    requires g.Valid() && Inv(g, s, origin, dx, dy, dc) && cur < |s.nodes| && n < |s.nodes| && n != cur
    requires s.nodes[cur].state == Closed && Adjacent(At(s.nodes[cur]), At(s.nodes[n]))
    requires g.InGrid(s.nodes[n].x, s.nodes[n].y) && Passable(g, s.nodes[n].x, s.nodes[n].y)
    requires s.nodes[n].state == Empty || s.nodes[n].cost > s.nodes[cur].cost + 1
    ensures var r := Reopen(g, s, cur, n, dx, dy, dc);
      Inv(g, r, origin, dx, dy, dc) && r.nodes[cur].state == Closed
  {
    assert n != origin;
    ReachedKeepsPos(g, s.nodes, cur, n);
    ReachedKeepsTree(g, s.nodes, origin, cur, n);
    ReopenKeepsOpen(g, s, cur, n, dx, dy, dc);
  }

  /** What holds of CheckAt's result on the node of a passable cell holds of Check's. */
  lemma CheckInGridInv(g: Grid, s: Search, origin: nat, cur: nat, x: int, y: int, dx: int, dy: int, dc: int)
    requires g.Valid() && Wf(g, s) && cur < |s.nodes|
    requires g.InGrid(x, y) && Passable(g, x, y)
    requires var n := Idx(g.width, x, y);
      && n < |s.nodes|
      && var r := CheckAt(g, s, cur, n, dx, dy, dc); Inv(g, r, origin, dx, dy, dc) && r.nodes[cur].state == Closed
    ensures Inv(g, Check(g, s, cur, x, y, dx, dy, dc), origin, dx, dy, dc)
    ensures Check(g, s, cur, x, y, dx, dy, dc).nodes[cur].state == Closed
  {
  }

  /** CheckAt re-opens exactly an empty node or one whose cost so far exceeds cur's by more than one step. */
  lemma CheckAtReopens(g: Grid, s: Search, cur: nat, n: nat, dx: int, dy: int, dc: int)
    requires Wf(g, s) && cur < |s.nodes| && n < |s.nodes|
    ensures s.nodes[n].state == Empty || s.nodes[n].cost > s.nodes[cur].cost + 1 ==>
      CheckAt(g, s, cur, n, dx, dy, dc) == Reopen(g, s, cur, n, dx, dy, dc)
    ensures !(s.nodes[n].state == Empty || s.nodes[n].cost > s.nodes[cur].cost + 1) ==>
      CheckAt(g, s, cur, n, dx, dy, dc) == s
  {
    var node := s.nodes[n];
    CheaperIffLowerCost(node.cost, s.nodes[cur].cost + 1, node.x, node.y, dx, dy, dc);
  }

  /** An off-grid or blocked cell leaves the search alone. */
  lemma CheckBlocked(g: Grid, s: Search, cur: nat, x: int, y: int, dx: int, dy: int, dc: int)
    requires g.Valid() && Wf(g, s) && cur < |s.nodes|
    requires !g.InGrid(x, y) || !Passable(g, x, y)
    ensures Check(g, s, cur, x, y, dx, dy, dc) == s
  {
  }

  /** path_check on a passable neighbour n of the closed node cur keeps the loop invariant. */
  lemma CheckAtKeepsInv(g: Grid, s: Search, origin: nat, cur: nat, n: nat, dx: int, dy: int, dc: int)
    requires g.Valid() && Inv(g, s, origin, dx, dy, dc) && cur < |s.nodes| && n < |s.nodes| && n != cur
    requires s.nodes[cur].state == Closed && Adjacent(At(s.nodes[cur]), At(s.nodes[n]))
    requires g.InGrid(s.nodes[n].x, s.nodes[n].y) && Passable(g, s.nodes[n].x, s.nodes[n].y)
    ensures var r := CheckAt(g, s, cur, n, dx, dy, dc);
      Inv(g, r, origin, dx, dy, dc) && r.nodes[cur].state == Closed
  {
    CheckAtReopens(g, s, cur, n, dx, dy, dc);
    if s.nodes[n].state == Empty || s.nodes[n].cost > s.nodes[cur].cost + 1 {
      ReopenKeepsInv(g, s, origin, cur, n, dx, dy, dc);
    }
  }

  /** path_check of a cell adjacent to the closed node cur keeps the whole loop invariant, and leaves cur closed. */
  lemma CheckKeepsInv(g: Grid, s: Search, origin: nat, cur: nat, x: int, y: int, dx: int, dy: int, dc: int)
    requires g.Valid() && Inv(g, s, origin, dx, dy, dc) && cur < |s.nodes|
    requires s.nodes[cur].state == Closed && Adjacent(At(s.nodes[cur]), Step(x, y))
    ensures Inv(g, Check(g, s, cur, x, y, dx, dy, dc), origin, dx, dy, dc)
    ensures Check(g, s, cur, x, y, dx, dy, dc).nodes[cur].state == Closed
    ensures At(Check(g, s, cur, x, y, dx, dy, dc).nodes[cur]) == At(s.nodes[cur])
  {
    if g.InGrid(x, y) && Passable(g, x, y) {
      Neighbour(g, s.nodes, cur, x, y);
      CheckAtKeepsInv(g, s, origin, cur, Idx(g.width, x, y), dx, dy, dc);
      CheckInGridInv(g, s, origin, cur, x, y, dx, dy, dc);
    } else {
      CheckBlocked(g, s, cur, x, y, dx, dy, dc);
    }
    var r := Check(g, s, cur, x, y, dx, dy, dc);
    assert OnCell(g, s.nodes, cur) && OnCell(g, r.nodes, cur);
    SameCell(g, s.nodes, r.nodes, cur);
  }

  /** A king move from a cell lands on one of its eight neighbours. */
  lemma DirAdjacent(c: Step, d: Step)
    requires Adjacent(Step(0, 0), d)
    ensures Adjacent(c, Offset(c, d))
  {
  }

  /** The path_check calls of one round keep the loop invariant and leave cur closed. */
  lemma {:induction false} ExpandKeepsInv(g: Grid, s: Search, origin: nat, cur: nat, c: Step, dirs: seq<Step>, dx: int, dy: int, dc: int)
    requires g.Valid() && Inv(g, s, origin, dx, dy, dc) && cur < |s.nodes| && KingMoves(dirs)
    requires s.nodes[cur].state == Closed && At(s.nodes[cur]) == c
    ensures Inv(g, Expand(g, s, cur, c, dirs, dx, dy, dc), origin, dx, dy, dc)
    ensures Expand(g, s, cur, c, dirs, dx, dy, dc).nodes[cur].state == Closed
    ensures At(Expand(g, s, cur, c, dirs, dx, dy, dc).nodes[cur]) == c
    decreases |dirs|
  {
    if dirs != [] {
      var t := Offset(c, dirs[0]);
      DirAdjacent(c, dirs[0]);
      CheckKeepsInv(g, s, origin, cur, t.x, t.y, dx, dy, dc);
      KingMovesTail(dirs);
      ExpandKeepsInv(g, Check(g, s, cur, t.x, t.y, dx, dy, dc), origin, cur, c, dirs[1..], dx, dy, dc);
    }
  }

  /** The offsets after the first are king moves too. */
  lemma KingMovesTail(dirs: seq<Step>)
    requires KingMoves(dirs) && dirs != []
    ensures KingMoves(dirs[1..])
  {
    forall i | 0 <= i < |dirs[1..]|
      ensures Adjacent(Step(0, 0), dirs[1..][i])
    {
      assert dirs[1..][i] == dirs[i + 1];
    }
  }

  /** Two node arrays that both keep node k on cell k agree on where node k is. */
  lemma SameCell(g: Grid, a: seq<Node>, b: seq<Node>, k: nat)
    requires k < |a| && k < |b| && OnCell(g, a, k) && OnCell(g, b, k)
    ensures At(a[k]) == At(b[k])
  {
    IdxInjective(g.width, a[k].x, a[k].y, b[k].x, b[k].y);
  }

  /** The nodes after `current->state = STATE_CLOSED`. */
  function Closing(nodes: seq<Node>, cur: nat): (r: seq<Node>)
    requires cur < |nodes|
  {
    nodes[cur := nodes[cur].(state := Closed)]
  }

  /** Closing a node keeps every node on its cell. */
  lemma ClosingKeepsPos(g: Grid, nodes: seq<Node>, cur: nat)
    requires PosInv(g, nodes) && cur < |nodes|
    ensures PosInv(g, Closing(nodes, cur))
  {
    var nodes' := Closing(nodes, cur);
    forall k | 0 <= k < |nodes'|
      ensures OnCell(g, nodes', k)
    {
      assert OnCell(g, nodes, k);
    }
  }

  /** Closing a reached node keeps the tree: no cost, parent or reachedness changes. */
  lemma ClosingKeepsTree(g: Grid, nodes: seq<Node>, origin: nat, cur: nat)
    requires g.Valid() && TreeInv(g, nodes, origin) && cur < |nodes| && origin < |nodes|
    requires nodes[cur].state != Empty || cur == origin
    ensures TreeInv(g, Closing(nodes, cur), origin)
    ensures Closing(nodes, cur)[origin].state != Empty <==> nodes[origin].state != Empty || cur == origin
  {
    var nodes' := Closing(nodes, cur);
    forall k | 0 <= k < |nodes'| && nodes'[k].parent.Some?
      ensures LinkOk(g, nodes', k)
    {
      assert LinkOk(g, nodes, k);
    }
  }

  /** Taking the top off the open set (and closing it) keeps the open-set invariant. */
  lemma ClosingKeepsOpen(s: Search, dx: int, dy: int, dc: int)
    requires OpenInv(s, dx, dy, dc) && |s.open| > 0
    ensures var cur := s.open[|s.open| - 1];
      OpenInv(Search(Closing(s.nodes, cur), s.open[..|s.open| - 1]), dx, dy, dc)
  {
    var cur := s.open[|s.open| - 1];
    var rest := s.open[..|s.open| - 1];
    assert cur !in rest by {
      forall i | 0 <= i < |rest|
        ensures rest[i] != cur
      {
        assert s.open[i] != s.open[|s.open| - 1];
      }
    }
    assert SortedDesc(rest, Key(s.nodes, dx, dy, dc));
    KeyFrame(s.nodes, cur, s.nodes[cur].(state := Closed), rest, dx, dy, dc);
  }

  /** path_pop_open then closing the popped node keeps the loop invariant. */
  lemma CloseKeepsInv(g: Grid, s: Search, origin: nat, dx: int, dy: int, dc: int)
    requires g.Valid() && Inv(g, s, origin, dx, dy, dc) && |s.open| > 0
    ensures var cur := s.open[|s.open| - 1]; var r := CloseTop(s);
      && Inv(g, r, origin, dx, dy, dc) && r.nodes[cur].state == Closed && At(r.nodes[cur]) == At(s.nodes[cur])
  {
    var cur := s.open[|s.open| - 1];
    ClosingKeepsPos(g, s.nodes, cur);
    ClosingKeepsTree(g, s.nodes, origin, cur);
    ClosingKeepsOpen(s, dx, dy, dc);
  }

  /** The bootstrap of find_path, once its one node (the origin) is popped and closed, satisfies the loop invariant. */
  lemma StartCloseInv(g: Grid, ox: int, oy: int, dx: int, dy: int, dc: int)
    requires g.Valid() && g.InGrid(ox, oy)
    ensures var s := Start(g, ox, oy); var origin := Idx(g.width, ox, oy);
      && |s.open| == 1 && s.open[0] == origin
      && Inv(g, CloseTop(s), origin, dx, dy, dc)
      && CloseTop(s).nodes[origin].state == Closed && At(s.nodes[origin]) == Step(ox, oy)
  {
    var s := Start(g, ox, oy);
    var origin := Idx(g.width, ox, oy);
    IdxInRange(g.width, g.height, ox, oy);
    InitNodesPos(g);
    ClosingKeepsPos(g, s.nodes, origin);
    assert OnCell(g, s.nodes, origin);
    IdxInjective(g.width, s.nodes[origin].x, s.nodes[origin].y, ox, oy);
  }

  /** Popping the top node keeps the loop invariant, and the popped node was reached. */
  lemma PopKeepsInv(g: Grid, s: Search, origin: nat, dx: int, dy: int, dc: int)
    requires g.Valid() && Inv(g, s, origin, dx, dy, dc) && |s.open| > 0
    ensures Inv(g, Search(s.nodes, s.open[..|s.open| - 1]), origin, dx, dy, dc)
    ensures s.nodes[s.open[|s.open| - 1]].state != Empty
  {
    var cur := s.open[|s.open| - 1];
    var found := Search(s.nodes, s.open[..|s.open| - 1]);
    assert SortedDesc(found.open, Key(s.nodes, dx, dy, dc));
  }

  /** A round keeps the loop invariant. */
  lemma RoundKeepsInv(g: Grid, s: Search, dirs: seq<Step>, origin: nat, dx: int, dy: int, dc: int)
    requires g.Valid() && Inv(g, s, origin, dx, dy, dc) && |s.open| > 0 && KingMoves(dirs)
    ensures Inv(g, Round(g, s, dirs, dx, dy, dc), origin, dx, dy, dc)
  {
    var cur := s.open[|s.open| - 1];
    CloseKeepsInv(g, s, origin, dx, dy, dc);
    ExpandKeepsInv(g, CloseTop(s), origin, cur, At(s.nodes[cur]), dirs, dx, dy, dc);
  }

  /** The first round, which pops the still-empty origin, establishes the loop invariant. */
  lemma FirstRoundInv(g: Grid, ox: int, oy: int, dirs: seq<Step>, dx: int, dy: int, dc: int)
    requires g.Valid() && g.InGrid(ox, oy) && KingMoves(dirs)
    ensures Inv(g, Round(g, Start(g, ox, oy), dirs, dx, dy, dc), Idx(g.width, ox, oy), dx, dy, dc)
  {
    var s := Start(g, ox, oy);
    var origin := Idx(g.width, ox, oy);
    StartCloseInv(g, ox, oy, dx, dy, dc);
    ExpandKeepsInv(g, CloseTop(s), origin, origin, At(s.nodes[origin]), dirs, dx, dy, dc);
  }

  /** A finished search still satisfies the loop invariant, and the goal it stopped on was reached. */
  ghost predicate Settled(g: Grid, o: Outcome, origin: nat, dx: int, dy: int, dc: int)
    requires g.Valid()
  {
    && (o.Found? ==> Inv(g, o.s, origin, dx, dy, dc) && o.goal < |o.s.nodes| && o.s.nodes[o.goal].state != Empty)
    && (o.Exhausted? ==> Inv(g, o.s, origin, dx, dy, dc))
  }

  /** A round that does not stop on the goal hands on to the remaining rounds. */
  lemma RunUnfold(g: Grid, s: Search, dirs: seq<Step>, dx: int, dy: int, fill: bool, dc: int, fuel: nat)
    requires g.Valid() && Wf(g, s) && |s.open| > 0 && fuel > 0
    requires var cur := s.open[|s.open| - 1]; fill || s.nodes[cur].x != dx || s.nodes[cur].y != dy
    ensures Run(g, s, dirs, dx, dy, fill, dc, fuel) == Run(g, Round(g, s, dirs, dx, dy, dc), dirs, dx, dy, fill, dc, fuel - 1)
  {
  }

  /** The loop stops on an empty open set, on the last round, or on popping the goal. */
  lemma RunStops(g: Grid, s: Search, dirs: seq<Step>, dx: int, dy: int, fill: bool, dc: int, fuel: nat)
    requires g.Valid() && Wf(g, s)
    ensures |s.open| == 0 ==> Run(g, s, dirs, dx, dy, fill, dc, fuel) == Exhausted(s)
    ensures |s.open| > 0 && fuel == 0 ==> Run(g, s, dirs, dx, dy, fill, dc, fuel) == OutOfFuel
    ensures |s.open| > 0 && fuel > 0 && !fill && At(s.nodes[s.open[|s.open| - 1]]) == Step(dx, dy) ==>
      Run(g, s, dirs, dx, dy, fill, dc, fuel) == Found(s.open[|s.open| - 1], Search(s.nodes, s.open[..|s.open| - 1]))
  {
  }

  /** The rounds of find_path keep the loop invariant; a goal it stops on has been reached. */
  lemma {:induction false} RunKeepsInv(g: Grid, s: Search, dirs: seq<Step>, origin: nat, dx: int, dy: int, fill: bool, dc: int, fuel: nat)
    requires g.Valid() && Inv(g, s, origin, dx, dy, dc) && KingMoves(dirs)
    ensures Settled(g, Run(g, s, dirs, dx, dy, fill, dc, fuel), origin, dx, dy, dc)
    decreases fuel
  {
    if |s.open| > 0 && fuel > 0 {
      var cur := s.open[|s.open| - 1];
      if fill || s.nodes[cur].x != dx || s.nodes[cur].y != dy {
        RoundKeepsInv(g, s, dirs, origin, dx, dy, dc);
        RunKeepsInv(g, Round(g, s, dirs, dx, dy, dc), dirs, origin, dx, dy, fill, dc, fuel - 1);
        RoundSettled(g, s, dirs, origin, dx, dy, fill, dc, fuel);
      } else {
        FoundSettled(g, s, dirs, origin, dx, dy, fill, dc, fuel);
      }
    } else {
      RunStops(g, s, dirs, dx, dy, fill, dc, fuel);
    }
  }

  /** A round that does not stop on the goal leaves the search as settled as the remaining rounds do. */
  lemma RoundSettled(g: Grid, s: Search, dirs: seq<Step>, origin: nat, dx: int, dy: int, fill: bool, dc: int, fuel: nat)
    requires g.Valid() && Wf(g, s) && |s.open| > 0 && fuel > 0
    requires var cur := s.open[|s.open| - 1]; fill || s.nodes[cur].x != dx || s.nodes[cur].y != dy
    requires Settled(g, Run(g, Round(g, s, dirs, dx, dy, dc), dirs, dx, dy, fill, dc, fuel - 1), origin, dx, dy, dc)
    ensures Settled(g, Run(g, s, dirs, dx, dy, fill, dc, fuel), origin, dx, dy, dc)
  {
    RunUnfold(g, s, dirs, dx, dy, fill, dc, fuel);
  }

  /** Popping the goal ends the search in a settled state. */
  lemma FoundSettled(g: Grid, s: Search, dirs: seq<Step>, origin: nat, dx: int, dy: int, fill: bool, dc: int, fuel: nat)
    requires g.Valid() && Inv(g, s, origin, dx, dy, dc) && |s.open| > 0 && fuel > 0 && !fill
    requires At(s.nodes[s.open[|s.open| - 1]]) == Step(dx, dy)
    ensures Settled(g, Run(g, s, dirs, dx, dy, fill, dc, fuel), origin, dx, dy, dc)
  {
    PopKeepsInv(g, s, origin, dx, dy, dc);
    RunStops(g, s, dirs, dx, dy, fill, dc, fuel);
  }

  /**
   * find_path from (ox, oy) toward (dx, dy): the bootstrap, then at most `fuel` rounds over
   * the neighbour offsets dirs (Dirs in the library). As in the C code, the origin is pushed
   * while still empty, so it is the first node popped.
   */
  function FindPath(g: Grid, ox: int, oy: int, dirs: seq<Step>, dx: int, dy: int, fill: bool, dc: int, fuel: nat): (o: Outcome)
    requires g.Valid() && g.InGrid(ox, oy)
    ensures o.Found? ==> Wf(g, o.s) && o.goal < |o.s.nodes| && !fill
    ensures o.Found? ==> o.s.nodes[o.goal].x == dx && o.s.nodes[o.goal].y == dy
    ensures o.Exhausted? ==> Wf(g, o.s) && o.s.open == []
  {
    Run(g, Start(g, ox, oy), dirs, dx, dy, fill, dc, fuel)
  }

  /**
   * What a finished search leaves behind for store_path: the nodes stand for their cells,
   * the parent links form a tree rooted at the origin's node, and the goal node is the
   * origin or was reached.
   */
  ghost predicate Traceable(g: Grid, o: Outcome, origin: nat)
    requires g.Valid()
  {
    o.Found? ==>
      && PosInv(g, o.s.nodes) && TreeInv(g, o.s.nodes, origin) && o.goal < |o.s.nodes|
      && (o.goal == origin || o.s.nodes[o.goal].state != Empty)
  }

  lemma SettledTraceable(g: Grid, o: Outcome, origin: nat, dx: int, dy: int, dc: int)
    requires g.Valid() && Settled(g, o, origin, dx, dy, dc)
    ensures Traceable(g, o, origin)
  {
  }

  lemma RunTraceable(g: Grid, s: Search, dirs: seq<Step>, origin: nat, dx: int, dy: int, fill: bool, dc: int, fuel: nat)
    requires g.Valid() && Inv(g, s, origin, dx, dy, dc) && KingMoves(dirs)
    ensures Traceable(g, Run(g, s, dirs, dx, dy, fill, dc, fuel), origin)
  {
    RunKeepsInv(g, s, dirs, origin, dx, dy, fill, dc, fuel);
    SettledTraceable(g, Run(g, s, dirs, dx, dy, fill, dc, fuel), origin, dx, dy, dc);
  }

  lemma RunUnfoldTraceable(g: Grid, s: Search, dirs: seq<Step>, origin: nat, dx: int, dy: int, fill: bool, dc: int, fuel: nat)
    requires g.Valid() && Wf(g, s) && |s.open| > 0 && fuel > 0
    requires var cur := s.open[|s.open| - 1]; fill || s.nodes[cur].x != dx || s.nodes[cur].y != dy
    requires Traceable(g, Run(g, Round(g, s, dirs, dx, dy, dc), dirs, dx, dy, fill, dc, fuel - 1), origin)
    ensures Traceable(g, Run(g, s, dirs, dx, dy, fill, dc, fuel), origin)
  {
    RunUnfold(g, s, dirs, dx, dy, fill, dc, fuel);
  }

  /** The fresh nodes form a one-node tree around any origin. */
  lemma InitTree(g: Grid, origin: nat)
    requires g.Valid() && origin < Mul(g.width, g.height)
    ensures PosInv(g, InitNodes(g.width, g.height)) && TreeInv(g, InitNodes(g.width, g.height), origin)
  {
    InitNodesPos(g);
  }

  /** Whichever way find_path stops on the goal, the nodes can be traced back to the origin. */
  lemma FindPathTree(g: Grid, ox: int, oy: int, dirs: seq<Step>, dx: int, dy: int, fill: bool, dc: int, fuel: nat)
    requires g.Valid() && g.InGrid(ox, oy) && KingMoves(dirs)
    ensures Traceable(g, FindPath(g, ox, oy, dirs, dx, dy, fill, dc, fuel), Idx(g.width, ox, oy))
  {
    var s := Start(g, ox, oy);
    RunStops(g, s, dirs, dx, dy, fill, dc, fuel);
    if fuel > 0 {
      var origin := Idx(g.width, ox, oy);
      StartCloseInv(g, ox, oy, dx, dy, dc);
      if fill || s.nodes[origin].x != dx || s.nodes[origin].y != dy {
        FirstRoundInv(g, ox, oy, dirs, dx, dy, dc);
        RunTraceable(g, Round(g, s, dirs, dx, dy, dc), dirs, origin, dx, dy, fill, dc, fuel - 1);
        RunUnfoldTraceable(g, s, dirs, origin, dx, dy, fill, dc, fuel);
      } else {
        IdxInRange(g.width, g.height, ox, oy);
        InitTree(g, origin);
      }
    }
  }

  // ---------------------------------------------------------------------
  // store_path, RLFL_path_astar

  /**
   * The cells store_path records: node k's cell, then its parent's, and so on until a node
   * without a parent (destination first, origin last).
   */
  function Chain(g: Grid, nodes: seq<Node>, origin: nat, k: nat): (r: seq<Step>)
    requires g.Valid() && TreeInv(g, nodes, origin) && k < |nodes|
    ensures 1 <= |r| <= nodes[k].cost + 1 && r[0] == At(nodes[k])
    ensures k == origin || nodes[k].state != Empty ==> r[|r| - 1] == At(nodes[origin])
    ensures forall i :: 0 <= i < |r| - 1 ==> Adjacent(r[i], r[i + 1])
    ensures forall i :: 0 <= i < |r| - 1 ==> g.InGrid(r[i].x, r[i].y) && Passable(g, r[i].x, r[i].y)
    decreases nodes[k].cost
  {
    if nodes[k].parent.None? then [At(nodes[k])]
    else
      assert LinkOk(g, nodes, k);
      [At(nodes[k])] + Chain(g, nodes, origin, nodes[k].parent.value)
  }

  /** Every cell of `trace` lies on the grid. */
  ghost predicate AllInGrid(g: Grid, trace: seq<Step>)
  {
    forall i :: 0 <= i < |trace| ==> g.InGrid(trace[i].x, trace[i].y)
  }

  /** Every recorded cell is a cell of the grid, since every node stands for one. */
  lemma {:induction false} ChainInGrid(g: Grid, nodes: seq<Node>, origin: nat, k: nat)
    requires g.Valid() && TreeInv(g, nodes, origin) && PosInv(g, nodes) && k < |nodes|
    ensures AllInGrid(g, Chain(g, nodes, origin, k))
    decreases nodes[k].cost
  {
    assert OnCell(g, nodes, k);
    if nodes[k].parent.Some? {
      assert LinkOk(g, nodes, k);
      var p := nodes[k].parent.value;
      ChainInGrid(g, nodes, origin, p);
      var r, t := Chain(g, nodes, origin, k), Chain(g, nodes, origin, p);
      assert r == [At(nodes[k])] + t;
      forall i | 0 <= i < |r| ensures g.InGrid(r[i].x, r[i].y) {
        if i > 0 { assert r[i] == t[i - 1]; }
      }
    }
  }

  /** The node of an in-grid cell stands for that cell. */
  lemma NodeOfCell(g: Grid, nodes: seq<Node>, x: int, y: int)
    requires g.Valid() && PosInv(g, nodes) && g.InGrid(x, y)
    ensures Idx(g.width, x, y) < |nodes| && At(nodes[Idx(g.width, x, y)]) == Step(x, y)
  {
    var n := Idx(g.width, x, y);
    IdxInRange(g.width, g.height, x, y);
    assert OnCell(g, nodes, n);
    IdxInjective(g.width, nodes[n].x, nodes[n].y, x, y);
  }

  /**
   * A walk from (dx, dy) back to (ox, oy) through the grid: consecutive cells are
   * neighbours, and every cell but the last (the origin) is passable.
   */
  ghost predicate Route(g: Grid, trace: seq<Step>, ox: int, oy: int, dx: int, dy: int)
    requires g.Valid()
  {
    && |trace| >= 1 && trace[0] == Step(dx, dy) && trace[|trace| - 1] == Step(ox, oy)
    && AllInGrid(g, trace)
    && (forall i :: 0 <= i < |trace| - 1 ==> Adjacent(trace[i], trace[i + 1]))
    && (forall i :: 0 <= i < |trace| - 1 ==> g.InGrid(trace[i].x, trace[i].y) && Passable(g, trace[i].x, trace[i].y))
  }

  /** The cells recorded after a successful search form a walk from the destination back to the origin. */
  lemma FoundWalk(g: Grid, ox: int, oy: int, dirs: seq<Step>, dx: int, dy: int, dc: int, fuel: nat)
    requires g.Valid() && g.InGrid(ox, oy) && KingMoves(dirs)
    requires FindPath(g, ox, oy, dirs, dx, dy, false, dc, fuel).Found?
    ensures var o := FindPath(g, ox, oy, dirs, dx, dy, false, dc, fuel); var origin := Idx(g.width, ox, oy);
      && TreeInv(g, o.s.nodes, origin)
      && Route(g, Chain(g, o.s.nodes, origin, o.goal), ox, oy, dx, dy)
  {
    var o := FindPath(g, ox, oy, dirs, dx, dy, false, dc, fuel);
    var origin := Idx(g.width, ox, oy);
    FindPathTree(g, ox, oy, dirs, dx, dy, false, dc, fuel);
    ChainInGrid(g, o.s.nodes, origin, o.goal);
    NodeOfCell(g, o.s.nodes, ox, oy);
  }

  /** The status RLFL_path_astar's checks yield, in the order the C code makes them. */
  function AstarCheck(st: State, m: int, ox: int, oy: int, dx: int, dy: int): (r: int)
    ensures r == SUCCESS <==> CellValid(st, m, ox, oy) && CellValid(st, m, dx, dy) && LowestFree(st.paths) < MAX_PATHS
    ensures !MapValid(st, m) ==> r == ERR_NO_MAP
    ensures MapValid(st, m) && !(CellValid(st, m, ox, oy) && CellValid(st, m, dx, dy)) ==> r == ERR_OUT_OF_BOUNDS
    ensures CellValid(st, m, ox, oy) && CellValid(st, m, dx, dy) && LowestFree(st.paths) >= MAX_PATHS ==> r == ERR_FLAG
  {
    if !MapValid(st, m) then ERR_NO_MAP
    else if !CellValid(st, m, ox, oy) || !CellValid(st, m, dx, dy) then ERR_OUT_OF_BOUNDS
    else if LowestFree(st.paths) >= MAX_PATHS then ERR_FLAG
    else SUCCESS
  }

  /**
   * RLFL_path_astar: the checks, init_path, find_path, and on success store_path (PATH cleared
   * on the whole map, then set along the recorded cells, and the path stored in the lowest free
   * slot), returning the slot. An emptied open set gives GENERIC and changes nothing. range and
   * flags are accepted and ignored, as in the C code; dc is the diagonal surcharge after C's
   * float-to-int conversion. `complete` is false when the search was cut off after `fuel` rounds.
   */
  method PathAstar(st: State, m: int, ox: int, oy: int, dx: int, dy: int, range: int, flags: nat, dc: int, fuel: nat)
    returns (r: int, st': State, trace: seq<Step>, complete: bool)
    requires st.Valid()
    ensures st'.Valid()
    ensures AstarCheck(st, m, ox, oy, dx, dy) != SUCCESS ==> r == AstarCheck(st, m, ox, oy, dx, dy) && st' == st && complete
    ensures r >= 0 ==> AstarCheck(st, m, ox, oy, dx, dy) == SUCCESS && r == LowestFree(st.paths) && complete
    ensures r >= 0 ==>
      && BasicStored(st, st', m, ox, oy, dx, dy, trace)
      && Route(TheMap(st, m), trace, ox, oy, dx, dy)
    ensures r < 0 ==> st' == st
    ensures AstarCheck(st, m, ox, oy, dx, dy) == SUCCESS && r < 0 ==> r == ERR_GENERIC
  {
    r := AstarCheck(st, m, ox, oy, dx, dy);
    if r != SUCCESS {
      return r, st, [], true;
    }
    var g0 := TheMap(st, m);
    var dirs := Dirs;
    DirsAreKingMoves();
    var o := FindPath(g0, ox, oy, dirs, dx, dy, false, dc, fuel);
    if o.OutOfFuel? {
      return ERR_GENERIC, st, [], false;
    }
    if o.Exhausted? {
      return ERR_GENERIC, st, [], true;
    }
    FoundWalk(g0, ox, oy, dirs, dx, dy, dc, fuel);
    trace := Chain(g0, o.s.nodes, Idx(g0.width, ox, oy), o.goal);
    var gc := ApplyMap(g0, CELL_PATH, false);
    var g' := Replay(gc, trace);
    ClearThenReplay(g0, gc, trace);
    r := LowestFree(st.paths);
    st' := WithPath(WithMap(st, m, g'), r, BasicPath(m, ox, oy, dx, dy, trace));
    complete := true;
  }
}
