/**
 * The Dijkstra distance map of dijkstra.c: one link per cell (passable or
 * not, with a distance), a frontier list kept in ascending distance order,
 * relaxation of the eight neighbours of the frontier's head with the
 * corner-cut rule for diagonals, and the integer map saved into a path map
 * slot. The C frontier is a doubly linked list threaded through the links;
 * here it is the sequence of link indices from the head onwards.
 */
module Dijkstra {
  import opened Util
  import opened Defines
  import opened Grid
  import opened Store
  import opened PathMap
  import AstarOpen

  /** nbDirs: the four orthogonal neighbours, then the four diagonals. */
  const NbDirs: seq<Step> := [Step(0, -1), Step(0, 1), Step(-1, 0), Step(1, 0), Step(-1, -1), Step(-1, 1), Step(1, -1), Step(1, 1)]

  /** The terrain cost init_dijkstra_map gives every passable cell. */
  const TERRAIN_COST: real := 1.0

  /** A link: its cell, whether it is passable, and its distance (a float in C, exact here). */
  datatype Link = Link(x: int, y: int, passable: bool, distance: real)

  /** A move is diagonal when it changes both coordinates; in nbDirs these are the directions from index 4 on. */
  predicate Diagonal(d: Step)
  {
    d.x != 0 && d.y != 0
  }

  lemma NbDirsShape()
    ensures |NbDirs| == 8
    ensures forall i :: 0 <= i < 8 ==> (Diagonal(NbDirs[i]) <==> i >= 4)
    ensures forall i :: 0 <= i < 8 ==> -1 <= NbDirs[i].x <= 1 && -1 <= NbDirs[i].y <= 1 && NbDirs[i] != Step(0, 0)
    ensures forall i, j :: 0 <= i < j < 8 ==> NbDirs[i] != NbDirs[j]
  {
  }

  // ---------------------------------------------------------------------
  // init_dijkstra_map, add_goal_point

  /** The link of cell k: OPEN or WALK makes it passable at distance PATH_UNKNOWN; any other cell is impassable. */
  function InitLink(g: Grid, k: nat): Link
    requires g.Valid() && g.width > 0 && k < |g.cells|
  {
    var passable := g.cells[k] & (CELL_OPEN | CELL_WALK) != 0;
    Link(k % g.width, k / g.width, passable, if passable then PATH_UNKNOWN as real else 0.0)
  }

  function InitLinks(g: Grid): (links: seq<Link>)
    requires g.Valid()
    ensures |links| == Mul(g.width, g.height)
  {
    seq(Mul(g.width, g.height), k requires 0 <= k < Mul(g.width, g.height) => InitLink(g, k))
  }

  /** Link k records its own cell: (x, y) is on the grid and has index k. */
  ghost predicate OnCell(w: nat, h: nat, links: seq<Link>, k: nat)
    requires k < |links|
  {
    0 <= links[k].x < w && 0 <= links[k].y < h && Idx(w, links[k].x, links[k].y) == k
  }

  /** The shape every link table keeps: one link per cell, each at its own cell. */
  ghost predicate Shaped(w: nat, h: nat, links: seq<Link>)
  {
    && |links| == Mul(w, h)
    && forall k {:trigger OnCell(w, h, links, k)} :: 0 <= k < |links| ==> OnCell(w, h, links, k)
  }

  /**
   * init_dijkstra_map: the link of every cell (x, y) is passable exactly when the cell has OPEN
   * or WALK, a passable link starts at PATH_UNKNOWN, and each link knows its cell.
   */
  lemma InitLinksSpec(g: Grid)
    requires g.Valid()
    ensures Shaped(g.width, g.height, InitLinks(g))
    ensures forall x, y :: g.InGrid(x, y) ==>
      var k := Idx(g.width, x, y);
      && k < |InitLinks(g)|
      && (InitLinks(g)[k].passable <==> Has(g, x, y, CELL_OPEN | CELL_WALK))
      && (InitLinks(g)[k].passable ==> InitLinks(g)[k].distance == PATH_UNKNOWN as real)
  {
    InitLinksShaped(g);
    InitLinksCells(g);
  }

  /** Every initial link sits on its own cell. */
  lemma InitLinksShaped(g: Grid)
    requires g.Valid()
    ensures Shaped(g.width, g.height, InitLinks(g))
  {
    var links := InitLinks(g);
    forall k | 0 <= k < |links|
      ensures OnCell(g.width, g.height, links, k)
    {
      IndexRow(g.width, g.height, k);
    }
  }

  /** A cell's initial link is passable iff the cell is OPEN or WALK, and then starts at PATH_UNKNOWN. */
  lemma InitLinksCells(g: Grid)
    requires g.Valid()
    ensures forall x, y :: g.InGrid(x, y) ==>
      var k := Idx(g.width, x, y);
      && k < |InitLinks(g)|
      && (InitLinks(g)[k].passable <==> Has(g, x, y, CELL_OPEN | CELL_WALK))
      && (InitLinks(g)[k].passable ==> InitLinks(g)[k].distance == PATH_UNKNOWN as real)
  {
    var links := InitLinks(g);
    forall x, y | g.InGrid(x, y)
      ensures Idx(g.width, x, y) < |links|
      ensures links[Idx(g.width, x, y)].passable <==> Has(g, x, y, CELL_OPEN | CELL_WALK)
    {
      IdxInRange(g.width, g.height, x, y);
    }
  }

  /** add_goal_point: the goal's distance becomes 0, whether or not it is passable; nothing else changes. */
  function AddGoal(links: seq<Link>, k: nat): (r: seq<Link>)
    requires k < |links|
    ensures |r| == |links| && r[k].distance == 0.0
    ensures r[k].x == links[k].x && r[k].y == links[k].y && r[k].passable == links[k].passable
    ensures forall i :: 0 <= i < |r| && i != k ==> r[i] == links[i]
  {
    links[k := links[k].(distance := 0.0)]
  }

  // ---------------------------------------------------------------------
  // The frontier

  /** The frontier is in ascending distance order. */
  ghost predicate Ascending(links: seq<Link>, list: seq<nat>)
  {
    forall i, j :: 0 <= i < j < |list| && list[j] < |links| ==> list[i] < |links| && links[list[i]].distance <= links[list[j]].distance
  }

  /** Frontier entries are distinct passable links. */
  ghost predicate ListOk(links: seq<Link>, list: seq<nat>)
  {
    && (forall i :: 0 <= i < |list| ==> list[i] < |links| && links[list[i]].passable)
    && AstarOpen.NoDup(list)
  }

  /**
   * The walk `while (right && right->distance < d) { left = right; right = right->right; }`
   * starting with `left` at position p (-1 for the list head): the position after which the
   * new entry goes.
   */
  function WalkRight(links: seq<Link>, list: seq<nat>, p: int, d: real): (q: int)
    requires -1 <= p < |list| && forall i :: 0 <= i < |list| ==> list[i] < |links|
    ensures p <= q < |list|
    ensures forall i :: p < i <= q ==> links[list[i]].distance < d
    ensures q + 1 < |list| ==> links[list[q + 1]].distance >= d
    decreases |list| - p
  {
    if p + 1 < |list| && links[list[p + 1]].distance < d then WalkRight(links, list, p + 1, d) else p
  }

  /** The list with k placed right after position q. */
  function PutAfter(list: seq<nat>, q: int, k: nat): (r: seq<nat>)
    requires -1 <= q < |list|
    ensures |r| == |list| + 1 && r[q + 1] == k
    ensures forall i :: 0 <= i <= q ==> r[i] == list[i]
    ensures forall i :: q + 1 < i < |r| ==> r[i] == list[i - 1]
  {
    list[..q + 1] + [k] + list[q + 1..]
  }

  /** Placing k after q keeps the list ascending when nothing up to q is farther than k and the next entry is not closer. */
  lemma PutAfterAscending(links: seq<Link>, list: seq<nat>, q: int, k: nat)
    requires -1 <= q < |list| && k < |links| && forall i :: 0 <= i < |list| ==> list[i] < |links|
    requires Ascending(links, list)
    requires forall i :: 0 <= i <= q ==> links[list[i]].distance <= links[k].distance
    requires q + 1 < |list| ==> links[list[q + 1]].distance >= links[k].distance
    ensures Ascending(links, PutAfter(list, q, k))
  {
    var r := PutAfter(list, q, k);
    forall i, j | 0 <= i < j < |r| && r[j] < |links|
      ensures r[i] < |links| && links[r[i]].distance <= links[r[j]].distance
    {
      if i <= q && j > q + 1 {
        assert links[list[i]].distance <= links[k].distance;
      } else if i == q + 1 && j > q + 1 {
        assert links[list[q + 1]].distance <= links[list[j - 1]].distance;
      }
    }
  }

  /**
   * One insertion of the first loop of dijkstra_scan: the walk restarts from the head unless
   * the entry after the previous insertion (at position p) is no farther than cell k, in which
   * case it resumes from there. Yields the new list and k's position in it.
   */
  function Place(links: seq<Link>, list: seq<nat>, p: int, k: nat): (r: (seq<nat>, int))
    requires -1 <= p < |list| && k < |links|
    requires forall i :: 0 <= i < |list| ==> list[i] < |links|
    ensures 0 <= r.1 < |r.0| && r.0[r.1] == k
    ensures exists q :: -1 <= q < |list| && r.1 == q + 1 && r.0 == PutAfter(list, q, k)
    ensures forall i :: 0 <= i < |r.0| ==> r.0[i] < |links|
  {
    var d := links[k].distance;
    var start := if p + 1 >= |list| || links[list[p + 1]].distance > d then -1 else p;
    var q := WalkRight(links, list, start, d);
    (PutAfter(list, q, k), q + 1)
  }

  /** An insertion keeps the list ascending, even when the walk resumes mid-list. */
  lemma PlaceAscending(links: seq<Link>, list: seq<nat>, p: int, k: nat)
    requires -1 <= p < |list| && k < |links|
    requires forall i :: 0 <= i < |list| ==> list[i] < |links|
    requires Ascending(links, list)
    ensures Ascending(links, Place(links, list, p, k).0)
  {
    var d := links[k].distance;
    var start := if p + 1 >= |list| || links[list[p + 1]].distance > d then -1 else p;
    var q := WalkRight(links, list, start, d);
    forall i | 0 <= i <= q
      ensures links[list[i]].distance <= d
    {
      if i <= start {
        assert links[list[i]].distance <= links[list[start + 1]].distance;
      }
    }
    PutAfterAscending(links, list, q, k);
  }

  /** Placing k adds k and nothing else. */
  lemma PutAfterMembers(list: seq<nat>, q: int, k: nat)
    requires -1 <= q < |list|
    ensures forall j :: j in PutAfter(list, q, k) <==> j == k || j in list
    ensures k !in list && (forall i, j :: 0 <= i < j < |list| ==> list[i] != list[j]) ==>
      forall i, j :: 0 <= i < j < |list| + 1 ==> PutAfter(list, q, k)[i] != PutAfter(list, q, k)[j]
  {
    var r := PutAfter(list, q, k);
    assert r == list[..q + 1] + [k] + list[q + 1..];
    assert list == list[..q + 1] + list[q + 1..];
    if k !in list && (forall i, j :: 0 <= i < j < |list| ==> list[i] != list[j]) {
      forall i, j | 0 <= i < j < |r|
        ensures r[i] != r[j]
      {
        if j == q + 1 {
          assert r[i] in list;
        } else if i == q + 1 {
          assert r[j] in list;
        } else if i > q + 1 {
          assert r[i] == list[i - 1] && r[j] == list[j - 1];
        } else if j > q + 1 {
          assert r[i] == list[i] && r[j] == list[j - 1];
        }
      }
    }
  }

  /** The cells of the first loop's scan that enter the frontier: passable and closer than MAX_DISTANCE. */
  predicate Seeds(l: Link)
  {
    l.passable && l.distance < MAX_DISTANCE as real
  }

  /** The first loop of dijkstra_scan: every cell of `order` that Seeds is placed in the frontier. */
  function Seed(links: seq<Link>, order: seq<nat>, list: seq<nat>, p: int): (r: seq<nat>)
    requires -1 <= p < |list|
    requires forall i :: 0 <= i < |order| ==> order[i] < |links|
    requires forall i :: 0 <= i < |list| ==> list[i] < |links|
    ensures forall i :: 0 <= i < |r| ==> r[i] < |links|
    decreases |order|
  {
    if order == [] then list
    else if !Seeds(links[order[0]]) then Seed(links, order[1..], list, p)
    else
      var r := Place(links, list, p, order[0]);
      Seed(links, order[1..], r.0, r.1)
  }

  /** Whether cell k ends up in the seeded frontier. */
  ghost predicate Seeded(links: seq<Link>, order: seq<nat>, list: seq<nat>, k: nat)
  {
    k in list || (k in order && k < |links| && Seeds(links[k]))
  }

  /**
   * Seeding keeps the frontier ascending, and it holds exactly the cells it held before plus
   * the cells of `order` that Seeds.
   */
  lemma SeedSpec(links: seq<Link>, order: seq<nat>, list: seq<nat>, p: int)
    requires -1 <= p < |list|
    requires forall i :: 0 <= i < |order| ==> order[i] < |links|
    requires forall i :: 0 <= i < |list| ==> list[i] < |links|
    requires Ascending(links, list)
    ensures Ascending(links, Seed(links, order, list, p))
    ensures forall k :: k in Seed(links, order, list, p) <==> Seeded(links, order, list, k)
  {
    SeedAscending(links, order, list, p);
    SeedMembers(links, order, list, p);
  }

  /** Seeding keeps the frontier ascending. */
  lemma {:induction false} SeedAscending(links: seq<Link>, order: seq<nat>, list: seq<nat>, p: int)
    requires -1 <= p < |list|
    requires forall i :: 0 <= i < |order| ==> order[i] < |links|
    requires forall i :: 0 <= i < |list| ==> list[i] < |links|
    requires Ascending(links, list)
    ensures Ascending(links, Seed(links, order, list, p))
    decreases |order|
  {
    if order != [] {
      var k := order[0];
      if !Seeds(links[k]) {
        SeedAscending(links, order[1..], list, p);
      } else {
        var r := Place(links, list, p, k);
        PlaceAscending(links, list, p, k);
        SeedAscending(links, order[1..], r.0, r.1);
      }
    }
  }

  /** The seeded frontier holds exactly the cells it held before plus the cells of `order` that Seeds. */
  lemma {:induction false} SeedMembers(links: seq<Link>, order: seq<nat>, list: seq<nat>, p: int)
    requires -1 <= p < |list|
    requires forall i :: 0 <= i < |order| ==> order[i] < |links|
    requires forall i :: 0 <= i < |list| ==> list[i] < |links|
    ensures forall k :: k in Seed(links, order, list, p) <==> Seeded(links, order, list, k)
    decreases |order|
  {
    if order != [] {
      var k := order[0];
      assert forall j :: j in order <==> j == k || j in order[1..];
      if !Seeds(links[k]) {
        SeedMembers(links, order[1..], list, p);
      } else {
        var r := Place(links, list, p, k);
        var q :| -1 <= q < |list| && r.1 == q + 1 && r.0 == PutAfter(list, q, k);
        PutAfterMembers(list, q, k);
        SeedMembers(links, order[1..], r.0, r.1);
      }
    }
  }

  /** Seeding never lists a cell twice when `order` is duplicate-free and holds nothing listed. */
  lemma {:induction false} SeedDistinct(links: seq<Link>, order: seq<nat>, list: seq<nat>, p: int)
    requires -1 <= p < |list|
    requires forall i :: 0 <= i < |order| ==> order[i] < |links|
    requires ListOk(links, list)
    requires forall i, j :: 0 <= i < j < |order| ==> order[i] != order[j]
    requires forall i :: 0 <= i < |order| ==> order[i] !in list
    ensures ListOk(links, Seed(links, order, list, p))
    decreases |order|
  {
    if order != [] {
      var k := order[0];
      if !Seeds(links[k]) {
        SeedDistinct(links, order[1..], list, p);
      } else {
        var r := Place(links, list, p, k);
        var q :| -1 <= q < |list| && r.1 == q + 1 && r.0 == PutAfter(list, q, k);
        PutAfterMembers(list, q, k);
        forall i | 0 <= i < |order| - 1
          ensures order[1..][i] !in r.0
        {
          assert order[1..][i] == order[i + 1] != order[0];
        }
        SeedDistinct(links, order[1..], r.0, r.1);
      }
    }
  }

  /** The cells in the order the first loop visits them: column by column (x outer, y inner). */
  function ScanOrder(w: nat, h: nat, x: nat): (order: seq<nat>)
    requires x <= w
    decreases w - x
  {
    if x == w then [] else Column(w, h, x, 0) + ScanOrder(w, h, x + 1)
  }

  function Column(w: nat, h: nat, x: nat, y: nat): (col: seq<nat>)
    requires y <= h
    decreases h - y
  {
    if y == h then [] else [Idx(w, x, y)] + Column(w, h, x, y + 1)
  }

  /** The column lists the cells (x, y0), (x, y0 + 1), ... of column x in order. */
  lemma {:induction false} ColumnSpec(w: nat, h: nat, x: nat, y0: nat)
    requires y0 <= h
    ensures |Column(w, h, x, y0)| == h - y0
    ensures forall i :: 0 <= i < h - y0 ==> Column(w, h, x, y0)[i] == Idx(w, x, y0 + i)
    decreases h - y0
  {
    if y0 < h {
      ColumnSpec(w, h, x, y0 + 1);
    }
  }

  /** Cell k is visited by the scan from column x0 on. */
  ghost predicate InScan(w: nat, h: nat, x0: nat, k: nat)
  {
    exists x, y :: x0 <= x < w && 0 <= y < h && k == Idx(w, x, y)
  }

  /** The scan from column x0 visits only cells of columns x0..w-1. */
  lemma {:induction false} ScanOrderInScan(w: nat, h: nat, x0: nat)
    requires x0 <= w
    ensures forall i :: 0 <= i < |ScanOrder(w, h, x0)| ==> InScan(w, h, x0, ScanOrder(w, h, x0)[i])
    decreases w - x0
  {
    if x0 < w {
      var col, rest := Column(w, h, x0, 0), ScanOrder(w, h, x0 + 1);
      ScanOrderInScan(w, h, x0 + 1);
      ColumnSpec(w, h, x0, 0);
      var all := col + rest;
      forall i | 0 <= i < |all|
        ensures InScan(w, h, x0, all[i])
      {
        if i < |col| {
          assert all[i] == Idx(w, x0, i);
        } else {
          assert all[i] == rest[i - |col|];
          var x, y :| x0 + 1 <= x < w && 0 <= y < h && rest[i - |col|] == Idx(w, x, y);
        }
      }
    }
  }

  /** The scan from column x0 visits every cell of columns x0..w-1. */
  lemma {:induction false} ScanOrderCovers(w: nat, h: nat, x0: nat)
    requires x0 <= w
    ensures forall x, y :: x0 <= x < w && 0 <= y < h ==> Idx(w, x, y) in ScanOrder(w, h, x0)
    decreases w - x0
  {
    if x0 < w {
      var col, rest := Column(w, h, x0, 0), ScanOrder(w, h, x0 + 1);
      ScanOrderCovers(w, h, x0 + 1);
      ColumnSpec(w, h, x0, 0);
      var all := col + rest;
      forall x, y | x0 <= x < w && 0 <= y < h
        ensures Idx(w, x, y) in all
      {
        if x == x0 {
          assert all[y] == Idx(w, x, y);
        } else {
          assert Idx(w, x, y) in rest;
        }
      }
    }
  }

  /** The scan visits no cell twice. */
  lemma {:induction false} ScanOrderDistinct(w: nat, h: nat, x0: nat)
    requires x0 <= w
    ensures forall i, j :: 0 <= i < j < |ScanOrder(w, h, x0)| ==> ScanOrder(w, h, x0)[i] != ScanOrder(w, h, x0)[j]
    decreases w - x0
  {
    if x0 < w {
      var col, rest := Column(w, h, x0, 0), ScanOrder(w, h, x0 + 1);
      ScanOrderDistinct(w, h, x0 + 1);
      ScanOrderInScan(w, h, x0 + 1);
      ColumnSpec(w, h, x0, 0);
      var all := col + rest;
      forall i, j | 0 <= i < j < |all|
        ensures all[i] != all[j]
      {
        if j < |col| {
          if all[i] == all[j] {
            IdxInjective(w, x0, i, x0, j);
          }
        } else if i < |col| {
          var x, y :| x0 + 1 <= x < w && 0 <= y < h && rest[j - |col|] == Idx(w, x, y);
          if all[i] == all[j] {
            IdxInjective(w, x0, i, x, y);
          }
        } else {
          assert all[i] == rest[i - |col|] && all[j] == rest[j - |col|];
        }
      }
    }
  }

  /** Every cell the scan visits is a cell of the grid. */
  lemma ScanOrderInGrid(w: nat, h: nat)
    ensures forall i :: 0 <= i < |ScanOrder(w, h, 0)| ==> ScanOrder(w, h, 0)[i] < Mul(w, h)
  {
    ScanOrderInScan(w, h, 0);
    forall i | 0 <= i < |ScanOrder(w, h, 0)|
      ensures ScanOrder(w, h, 0)[i] < Mul(w, h)
    {
      var x, y :| 0 <= x < w && 0 <= y < h && ScanOrder(w, h, 0)[i] == Idx(w, x, y);
      IdxInRange(w, h, x, y);
    }
  }

  /** The links dijkstra_scan starts from in RLFL_path_fill_map: the grid's links with the goal at distance 0. */
  function StartLinks(g: Grid, ox: int, oy: int): (links: seq<Link>)
    requires g.Valid() && g.InGrid(ox, oy)
    ensures |links| == Mul(g.width, g.height)
  {
    IdxInRange(g.width, g.height, ox, oy);
    AddGoal(InitLinks(g), Idx(g.width, ox, oy))
  }

  /** The first loop of dijkstra_scan over a whole link table. */
  function InitialFrontier(w: nat, h: nat, links: seq<Link>): (list: seq<nat>)
    requires |links| == Mul(w, h)
  {
    ScanOrderInGrid(w, h);
    Seed(links, ScanOrder(w, h, 0), [], -1)
  }

  /** In the start links, the goal is the only cell that can seed the frontier, and it does when it is passable. */
  lemma StartSeeds(g: Grid, ox: int, oy: int, k: nat)
    requires g.Valid() && g.InGrid(ox, oy) && k < Mul(g.width, g.height)
    ensures Seeds(StartLinks(g, ox, oy)[k]) <==> k == Idx(g.width, ox, oy) && Has(g, ox, oy, CELL_OPEN | CELL_WALK)
  {
    InitLinksSpec(g);
    var links := StartLinks(g, ox, oy);
    IdxInRange(g.width, g.height, ox, oy);
    if k != Idx(g.width, ox, oy) {
      assert links[k] == InitLinks(g)[k];
    }
  }

  /** Cells that do not seed leave the frontier as it is. */
  lemma {:induction false} SeedSkips(links: seq<Link>, order: seq<nat>, list: seq<nat>, p: int)
    requires -1 <= p < |list|
    requires forall i :: 0 <= i < |order| ==> order[i] < |links| && !Seeds(links[order[i]])
    requires forall i :: 0 <= i < |list| ==> list[i] < |links|
    ensures Seed(links, order, list, p) == list
    decreases |order|
  {
    if order != [] {
      SeedSkips(links, order[1..], list, p);
    }
  }

  /** When at most one cell of a duplicate-free order seeds, seeding from an empty list yields that cell alone. */
  lemma {:induction false} SeedOne(links: seq<Link>, order: seq<nat>, goal: nat, seeds: bool)
    requires forall i :: 0 <= i < |order| ==> order[i] < |links|
    requires forall i, j :: 0 <= i < j < |order| ==> order[i] != order[j]
    requires goal in order
    requires forall k :: 0 <= k < |links| ==> (Seeds(links[k]) <==> k == goal && seeds)
    ensures Seed(links, order, [], -1) == if seeds then [goal] else []
    decreases |order|
  {
    if !seeds {
      SeedSkips(links, order, [], -1);
    } else if order[0] == goal {
      var r := Place(links, [], -1, goal);
      assert |r.0| == 1 && r.1 == 0;
      assert r.0 == [goal];
      forall i | 0 <= i < |order| - 1
        ensures order[1..][i] != goal
      {
        assert order[1..][i] == order[i + 1];
      }
      SeedSkips(links, order[1..], [goal], 0);
    } else {
      assert goal in order[1..] by {
        var t :| 0 <= t < |order| && order[t] == goal;
        assert order[1..][t - 1] == goal;
      }
      SeedOne(links, order[1..], goal, seeds);
    }
  }

  /**
   * Because PATH_UNKNOWN exceeds MAX_DISTANCE, the first frontier of a fill holds the goal alone
   * when the goal is passable, and nothing otherwise.
   */
  lemma InitialFrontierIsGoal(g: Grid, ox: int, oy: int)
    requires g.Valid() && g.InGrid(ox, oy)
    ensures InitialFrontier(g.width, g.height, StartLinks(g, ox, oy)) ==
      if Has(g, ox, oy, CELL_OPEN | CELL_WALK) then [Idx(g.width, ox, oy)] else []
  {
    var w, h := g.width, g.height;
    var links := StartLinks(g, ox, oy);
    IdxInRange(w, h, ox, oy);
    ScanOrderInGrid(w, h);
    ScanOrderCovers(w, h, 0);
    ScanOrderDistinct(w, h, 0);
    forall k | 0 <= k < |links|
      ensures Seeds(links[k]) <==> k == Idx(w, ox, oy) && Has(g, ox, oy, CELL_OPEN | CELL_WALK)
    {
      StartSeeds(g, ox, oy, k);
    }
    SeedOne(links, ScanOrder(w, h, 0), Idx(w, ox, oy), Has(g, ox, oy, CELL_OPEN | CELL_WALK));
  }

  // ---------------------------------------------------------------------
  // Relaxation (the second loop of dijkstra_scan)

  /** The link of in-grid cell (x, y). */
  function LinkAt(w: nat, h: nat, links: seq<Link>, x: int, y: int): Link
    requires |links| == Mul(w, h) && 0 <= x < w && 0 <= y < h
  {
    IdxInRange(w, h, x, y);
    links[Idx(w, x, y)]
  }

  /**
   * Cell (x, y) can be entered: it is on the grid and passable. The C code reaches neighbours by
   * address offset without a bounds check; here a cell off the grid is never open.
   */
  predicate Open(w: nat, h: nat, links: seq<Link>, x: int, y: int)
    requires |links| == Mul(w, h)
  {
    0 <= x < w && 0 <= y < h && LinkAt(w, h, links, x, y).passable
  }

  /** The move from (x, y) in direction d is relaxed: the target is open and, for a diagonal, so are both corner cells. */
  predicate Allowed(w: nat, h: nat, links: seq<Link>, x: int, y: int, d: Step)
    requires |links| == Mul(w, h)
  {
    && Open(w, h, links, x + d.x, y + d.y)
    && (Diagonal(d) ==> Open(w, h, links, x + d.x, y) && Open(w, h, links, x, y + d.y))
  }

  /** The scan state: the links and the live frontier, from its head on. */
  datatype Scan = Scan(links: seq<Link>, list: seq<nat>)

  ghost predicate Fits(w: nat, h: nat, sc: Scan)
  {
    |sc.links| == Mul(w, h) && forall i :: 0 <= i < |sc.list| ==> sc.list[i] < |sc.links|
  }

  /** Cell k improved to distance nd: its distance is set, it is unlinked and placed again walking right from the head. */
  function Improve(sc: Scan, k: nat, nd: real): (r: Scan)
    requires k < |sc.links| && forall i :: 0 <= i < |sc.list| ==> sc.list[i] < |sc.links|
    ensures |r.links| == |sc.links| && forall i :: 0 <= i < |r.list| ==> r.list[i] < |r.links|
  {
    var links := sc.links[k := sc.links[k].(distance := nd)];
    var rest := AstarOpen.RemoveOpen(sc.list, k);
    RemoveBounded(sc.list, k, |links|);
    var q := WalkRight(links, rest, -1, nd);
    PutAfterBounded(rest, q, k, |links|);
    Scan(links, PutAfter(rest, q, k))
  }

  lemma RemoveBounded(list: seq<nat>, k: nat, n: nat)
    requires forall i :: 0 <= i < |list| ==> list[i] < n
    ensures forall i :: 0 <= i < |AstarOpen.RemoveOpen(list, k)| ==> AstarOpen.RemoveOpen(list, k)[i] < n
  {
    RemoveSub(list, k);
  }

  lemma PutAfterBounded(list: seq<nat>, q: int, k: nat, n: nat)
    requires -1 <= q < |list| && k < n
    requires forall i :: 0 <= i < |list| ==> list[i] < n
    ensures forall i :: 0 <= i < |PutAfter(list, q, k)| ==> PutAfter(list, q, k)[i] < n
  {
  }

  /** The cell a move from (x, y) in direction d enters, when it is on the grid. */
  function Target(w: nat, h: nat, x: int, y: int, d: Step): (k: nat)
    requires 0 <= x + d.x < w && 0 <= y + d.y < h
    ensures k < Mul(w, h)
  {
    IdxInRange(w, h, x + d.x, y + d.y);
    Idx(w, x + d.x, y + d.y)
  }

  /** The distance the update assigns: head distance plus terrain cost, plus dcost for a diagonal. */
  function NewDistance(hd: real, dcost: real, d: Step): real
  {
    if Diagonal(d) then hd + (TERRAIN_COST + dcost) else hd + TERRAIN_COST
  }

  /**
   * One direction of the head's relaxation. The guard compares head distance plus terrain cost
   * (without dcost) with the neighbour's distance; an improved neighbour gets NewDistance.
   */
  function Relax(w: nat, h: nat, dcost: real, sc: Scan, hx: int, hy: int, hd: real, d: Step): (r: Scan)
    requires Fits(w, h, sc)
    ensures Fits(w, h, r)
  {
    if !Allowed(w, h, sc.links, hx, hy, d) then sc
    else
      var k := Target(w, h, hx, hy, d);
      if hd + TERRAIN_COST < sc.links[k].distance then Improve(sc, k, NewDistance(hd, dcost, d)) else sc
  }

  /** Relaxation of the head (at (hx, hy), distance hd) in every direction of dirs, in order. */
  function RelaxAll(w: nat, h: nat, dcost: real, sc: Scan, hx: int, hy: int, hd: real, dirs: seq<Step>): (r: Scan)
    requires Fits(w, h, sc)
    ensures Fits(w, h, r)
    decreases |dirs|
  {
    if dirs == [] then sc
    else RelaxAll(w, h, dcost, Relax(w, h, dcost, sc, hx, hy, hd, dirs[0]), hx, hy, hd, dirs[1..])
  }

  /** One pass of the relaxation loop: relax around the head, then drop the head from the list. */
  function Round(w: nat, h: nat, dcost: real, sc: Scan, dirs: seq<Step>): (r: Scan)
    requires Fits(w, h, sc) && sc.list != []
    ensures Fits(w, h, r)
  {
    var l := sc.links[sc.list[0]];
    RelaxAll(w, h, dcost, Scan(sc.links, sc.list[1..]), l.x, l.y, l.distance, dirs)
  }

  /** The relaxation loop, run until the frontier is empty or `fuel` rounds have passed (None). */
  function Relaxation(w: nat, h: nat, dcost: real, sc: Scan, dirs: seq<Step>, fuel: nat): (r: Option<seq<Link>>)
    requires Fits(w, h, sc)
    ensures r.Some? ==> |r.value| == Mul(w, h)
    decreases fuel
  {
    if sc.list == [] then Some(sc.links)
    else if fuel == 0 then None
    else Relaxation(w, h, dcost, Round(w, h, dcost, sc, dirs), dirs, fuel - 1)
  }

  // ---------------------------------------------------------------------
  // Facts about one relaxation

  /** Unlinking keeps every other entry, adds nothing, and keeps the order of what stays. */
  lemma RemoveSub(list: seq<nat>, k: nat)
    ensures forall x :: x in AstarOpen.RemoveOpen(list, k) ==> x in list
    ensures forall x :: x in list && x != k ==> x in AstarOpen.RemoveOpen(list, k)
    ensures forall i :: 0 <= i < |AstarOpen.RemoveOpen(list, k)| ==> AstarOpen.RemoveOpen(list, k)[i] in list
  {
    var i := AstarOpen.IndexOf(list, k);
    if i < |list| {
      assert list == list[..i] + [k] + list[i + 1..];
      assert AstarOpen.RemoveOpen(list, k) == list[..i] + list[i + 1..];
    }
  }

  lemma RemoveAscending(links: seq<Link>, list: seq<nat>, k: nat)
    requires Ascending(links, list) && forall i :: 0 <= i < |list| ==> list[i] < |links|
    ensures Ascending(links, AstarOpen.RemoveOpen(list, k))
  {
    var i := AstarOpen.IndexOf(list, k);
    if i < |list| {
      var r := AstarOpen.RemoveOpen(list, k);
      forall a, b | 0 <= a < b < |r| && r[b] < |links|
        ensures r[a] < |links| && links[r[a]].distance <= links[r[b]].distance
      {
        var a' := if a < i then a else a + 1;
        var b' := if b < i then b else b + 1;
        assert r[a] == list[a'] && r[b] == list[b'];
      }
    }
  }

  /** Two link tables that agree on every cell, passability included (distances may differ). */
  ghost predicate SameCells(links: seq<Link>, links': seq<Link>)
  {
    |links'| == |links| && forall c :: 0 <= c < |links| ==> SameCell(links[c], links'[c])
  }

  predicate SameCell(a: Link, b: Link)
  {
    a.x == b.x && a.y == b.y && a.passable == b.passable
  }

  lemma AllowedFrame(w: nat, h: nat, links: seq<Link>, links': seq<Link>, x: int, y: int, d: Step)
    requires |links| == Mul(w, h) && SameCells(links, links')
    ensures Allowed(w, h, links, x, y, d) == Allowed(w, h, links', x, y, d)
  {
    forall cx, cy | 0 <= cx < w && 0 <= cy < h
      ensures LinkAt(w, h, links, cx, cy).passable == LinkAt(w, h, links', cx, cy).passable
    {
      IdxInRange(w, h, cx, cy);
      assert SameCell(links[Idx(w, cx, cy)], links'[Idx(w, cx, cy)]);
    }
  }

  /** Improving k changes k's distance and nothing else. */
  lemma ImproveLinks(sc: Scan, k: nat, nd: real)
    requires k < |sc.links| && forall i :: 0 <= i < |sc.list| ==> sc.list[i] < |sc.links|
    ensures SameCells(sc.links, Improve(sc, k, nd).links)
    ensures Improve(sc, k, nd).links[k].distance == nd
    ensures forall c :: 0 <= c < |sc.links| && c != k ==> Improve(sc, k, nd).links[c] == sc.links[c]
  {
  }

  /** After improving k the list holds what it held before, plus k. */
  lemma ImproveMembers(sc: Scan, k: nat, nd: real)
    requires k < |sc.links| && forall i :: 0 <= i < |sc.list| ==> sc.list[i] < |sc.links|
    ensures forall c :: c in Improve(sc, k, nd).list <==> c in sc.list || c == k
  {
    var links := sc.links[k := sc.links[k].(distance := nd)];
    var rest := AstarOpen.RemoveOpen(sc.list, k);
    RemoveSub(sc.list, k);
    PutAfterMembers(rest, WalkRight(links, rest, -1, nd), k);
  }

  /** Improving k lists k once, and lists nothing twice that was listed once. */
  lemma ImproveNoDup(sc: Scan, k: nat, nd: real)
    requires k < |sc.links| && forall i :: 0 <= i < |sc.list| ==> sc.list[i] < |sc.links|
    requires AstarOpen.NoDup(sc.list)
    ensures AstarOpen.NoDup(Improve(sc, k, nd).list)
  {
    var links := sc.links[k := sc.links[k].(distance := nd)];
    var rest := AstarOpen.RemoveOpen(sc.list, k);
    AstarOpen.RemoveOpenNoDup(sc.list, k);
    PutAfterMembers(rest, WalkRight(links, rest, -1, nd), k);
  }

  /** Improving a passable cell keeps the frontier a list of distinct passable cells. */
  lemma ImproveListOk(sc: Scan, k: nat, nd: real)
    requires k < |sc.links| && forall i :: 0 <= i < |sc.list| ==> sc.list[i] < |sc.links|
    requires ListOk(sc.links, sc.list) && sc.links[k].passable
    ensures ListOk(Improve(sc, k, nd).links, Improve(sc, k, nd).list)
  {
    var r := Improve(sc, k, nd);
    ImproveNoDup(sc, k, nd);
    ImproveMembers(sc, k, nd);
    ImproveLinks(sc, k, nd);
    forall i | 0 <= i < |r.list|
      ensures r.links[r.list[i]].passable
    {
      var c := r.list[i];
      assert c in r.list;
      if c != k {
        var j :| 0 <= j < |sc.list| && sc.list[j] == c;
        assert SameCell(sc.links[c], r.links[c]);
      }
    }
  }

  /** Improving k keeps the list ascending: only k's key changes, and k is placed where its new distance belongs. */
  lemma ImproveAscending(sc: Scan, k: nat, nd: real)
    requires k < |sc.links| && forall i :: 0 <= i < |sc.list| ==> sc.list[i] < |sc.links|
    requires Ascending(sc.links, sc.list) && AstarOpen.NoDup(sc.list)
    ensures Ascending(Improve(sc, k, nd).links, Improve(sc, k, nd).list)
  {
    var links := sc.links[k := sc.links[k].(distance := nd)];
    var rest := AstarOpen.RemoveOpen(sc.list, k);
    RemoveSub(sc.list, k);
    RemoveAscending(sc.links, sc.list, k);
    AstarOpen.RemoveOpenNoDup(sc.list, k);
    AscendingFrame(sc.links, links, rest);
    PlacedAscending(links, rest, k);
    assert Improve(sc, k, nd) == Scan(links, PutAfter(rest, WalkRight(links, rest, -1, nd), k));
  }

  /** Placing k after the walk over the cells nearer than it keeps an ascending list ascending. */
  lemma PlacedAscending(links: seq<Link>, rest: seq<nat>, k: nat)
    requires k < |links| && forall i :: 0 <= i < |rest| ==> rest[i] < |links|
    requires Ascending(links, rest)
    ensures Ascending(links, PutAfter(rest, WalkRight(links, rest, -1, links[k].distance), k))
  {
    var d := links[k].distance;
    var q := WalkRight(links, rest, -1, d);
    forall i | 0 <= i <= q
      ensures links[rest[i]].distance <= d
    {
    }
    PutAfterAscending(links, rest, q, k);
  }

  /** Ascending order depends only on the distances of the listed cells. */
  lemma AscendingFrame(links: seq<Link>, links': seq<Link>, list: seq<nat>)
    requires forall i :: 0 <= i < |list| ==> list[i] < |links| && list[i] < |links'| && links'[list[i]].distance == links[list[i]].distance
    requires Ascending(links, list)
    ensures Ascending(links', list)
  {
  }


  /**
   * What one relaxation changes: only distances, and only that of the target cell, which then
   * sits in the list; nothing leaves the list, and the only cell that can join it is the target.
   */
  lemma RelaxShape(w: nat, h: nat, dcost: real, sc: Scan, hx: int, hy: int, hd: real, d: Step)
    requires Fits(w, h, sc)
    ensures var r := Relax(w, h, dcost, sc, hx, hy, hd, d);
      && SameCells(sc.links, r.links)
      && (forall c :: c in sc.list ==> c in r.list)
      && (forall c :: c in r.list && c !in sc.list ==> Allowed(w, h, sc.links, hx, hy, d) && c == Target(w, h, hx, hy, d))
      && (forall c :: 0 <= c < |sc.links| && r.links[c].distance != sc.links[c].distance ==> c in r.list)
      && (ListOk(sc.links, sc.list) ==> ListOk(r.links, r.list))
      && (Ascending(sc.links, sc.list) && AstarOpen.NoDup(sc.list) ==> Ascending(r.links, r.list))
  {
    if Allowed(w, h, sc.links, hx, hy, d) {
      var k := Target(w, h, hx, hy, d);
      if hd + TERRAIN_COST < sc.links[k].distance {
        ImproveLinks(sc, k, NewDistance(hd, dcost, d));
        ImproveMembers(sc, k, NewDistance(hd, dcost, d));
        if ListOk(sc.links, sc.list) {
          ImproveListOk(sc, k, NewDistance(hd, dcost, d));
        }
        if Ascending(sc.links, sc.list) && AstarOpen.NoDup(sc.list) {
          ImproveAscending(sc, k, NewDistance(hd, dcost, d));
        }
      }
    }
  }

  /** With dcost <= 0 one relaxation only lowers distances. */
  lemma RelaxLowers(w: nat, h: nat, dcost: real, sc: Scan, hx: int, hy: int, hd: real, d: Step)
    requires Fits(w, h, sc) && dcost <= 0.0
    ensures forall c :: 0 <= c < |sc.links| ==> Relax(w, h, dcost, sc, hx, hy, hd, d).links[c].distance <= sc.links[c].distance
  {
    if Allowed(w, h, sc.links, hx, hy, d) {
      var k := Target(w, h, hx, hy, d);
      if hd + TERRAIN_COST < sc.links[k].distance {
        ImproveLinks(sc, k, NewDistance(hd, dcost, d));
      }
    }
  }

  /** With dcost <= 0, after relaxing direction d an allowed target is at most one step further than the head. */
  lemma RelaxReach(w: nat, h: nat, dcost: real, sc: Scan, hx: int, hy: int, hd: real, d: Step)
    requires Fits(w, h, sc) && dcost <= 0.0
    requires Allowed(w, h, sc.links, hx, hy, d)
    ensures Relax(w, h, dcost, sc, hx, hy, hd, d).links[Target(w, h, hx, hy, d)].distance <= hd + TERRAIN_COST
  {
    var k := Target(w, h, hx, hy, d);
    if hd + TERRAIN_COST < sc.links[k].distance {
      ImproveLinks(sc, k, NewDistance(hd, dcost, d));
    }
  }

  // ---------------------------------------------------------------------
  // Facts about relaxing all directions around a head

  /** The shape facts of RelaxShape, over a whole direction sequence. */
  lemma {:induction false} RelaxAllShape(w: nat, h: nat, dcost: real, sc: Scan, hx: int, hy: int, hd: real, dirs: seq<Step>)
    requires Fits(w, h, sc)
    ensures var r := RelaxAll(w, h, dcost, sc, hx, hy, hd, dirs);
      && SameCells(sc.links, r.links)
      && (forall c :: c in sc.list ==> c in r.list)
      && (forall c :: 0 <= c < |sc.links| && r.links[c].distance != sc.links[c].distance ==> c in r.list)
      && (ListOk(sc.links, sc.list) ==> ListOk(r.links, r.list))
    decreases |dirs|
  {
    if dirs != [] {
      var s1 := Relax(w, h, dcost, sc, hx, hy, hd, dirs[0]);
      RelaxShape(w, h, dcost, sc, hx, hy, hd, dirs[0]);
      RelaxAllShape(w, h, dcost, s1, hx, hy, hd, dirs[1..]);
    }
  }

  /** Relaxing around a head keeps an ascending frontier without repeats ascending. */
  lemma {:induction false} RelaxAllAscending(w: nat, h: nat, dcost: real, sc: Scan, hx: int, hy: int, hd: real, dirs: seq<Step>)
    requires Fits(w, h, sc) && ListOk(sc.links, sc.list) && Ascending(sc.links, sc.list)
    ensures Ascending(RelaxAll(w, h, dcost, sc, hx, hy, hd, dirs).links, RelaxAll(w, h, dcost, sc, hx, hy, hd, dirs).list)
    decreases |dirs|
  {
    if dirs != [] {
      var s1 := Relax(w, h, dcost, sc, hx, hy, hd, dirs[0]);
      RelaxShape(w, h, dcost, sc, hx, hy, hd, dirs[0]);
      RelaxAllAscending(w, h, dcost, s1, hx, hy, hd, dirs[1..]);
    }
  }

  /** With dcost <= 0, relaxing around a head never raises a distance. */
  lemma {:induction false} RelaxAllLowers(w: nat, h: nat, dcost: real, sc: Scan, hx: int, hy: int, hd: real, dirs: seq<Step>)
    requires Fits(w, h, sc) && dcost <= 0.0
    ensures forall c :: 0 <= c < |sc.links| ==> RelaxAll(w, h, dcost, sc, hx, hy, hd, dirs).links[c].distance <= sc.links[c].distance
    decreases |dirs|
  {
    if dirs != [] {
      var s1 := Relax(w, h, dcost, sc, hx, hy, hd, dirs[0]);
      RelaxLowers(w, h, dcost, sc, hx, hy, hd, dirs[0]);
      RelaxAllLowers(w, h, dcost, s1, hx, hy, hd, dirs[1..]);
    }
  }

  /** With dcost <= 0, after relaxing around a head every allowed move from it ends at most one step further. */
  lemma {:induction false} RelaxAllReach(w: nat, h: nat, dcost: real, sc: Scan, hx: int, hy: int, hd: real, dirs: seq<Step>)
    requires Fits(w, h, sc) && dcost <= 0.0
    ensures var r := RelaxAll(w, h, dcost, sc, hx, hy, hd, dirs);
      forall i :: 0 <= i < |dirs| && Allowed(w, h, r.links, hx, hy, dirs[i]) ==>
        r.links[Target(w, h, hx, hy, dirs[i])].distance <= hd + TERRAIN_COST
    decreases |dirs|
  {
    if dirs != [] {
      var r := RelaxAll(w, h, dcost, sc, hx, hy, hd, dirs);
      var s1 := Relax(w, h, dcost, sc, hx, hy, hd, dirs[0]);
      RelaxShape(w, h, dcost, sc, hx, hy, hd, dirs[0]);
      RelaxAllShape(w, h, dcost, s1, hx, hy, hd, dirs[1..]);
      RelaxAllLowers(w, h, dcost, s1, hx, hy, hd, dirs[1..]);
      RelaxAllReach(w, h, dcost, s1, hx, hy, hd, dirs[1..]);
      forall i | 0 <= i < |dirs| && Allowed(w, h, r.links, hx, hy, dirs[i])
        ensures r.links[Target(w, h, hx, hy, dirs[i])].distance <= hd + TERRAIN_COST
      {
        if i == 0 {
          AllowedFrame(w, h, sc.links, s1.links, hx, hy, dirs[0]);
          AllowedFrame(w, h, s1.links, r.links, hx, hy, dirs[0]);
          RelaxReach(w, h, dcost, sc, hx, hy, hd, dirs[0]);
        } else {
          assert dirs[i] == dirs[1..][i - 1];
        }
      }
    }
  }

  // ---------------------------------------------------------------------
  // The loop invariant of the relaxation

  /**
   * Cell c is settled: if it is passable, every allowed move from it reaches a cell whose
   * distance is at most one terrain step more than c's.
   */
  ghost predicate Done(w: nat, h: nat, links: seq<Link>, dirs: seq<Step>, c: nat)
    requires |links| == Mul(w, h) && c < |links|
  {
    var l := links[c];
    l.passable ==> forall i :: 0 <= i < |dirs| && Allowed(w, h, links, l.x, l.y, dirs[i]) ==>
      links[Target(w, h, l.x, l.y, dirs[i])].distance <= l.distance + TERRAIN_COST
  }

  /** The relaxation loop's invariant: a well-formed frontier, and every cell off it is settled. */
  ghost predicate Inv(w: nat, h: nat, sc: Scan, dirs: seq<Step>)
  {
    && Fits(w, h, sc)
    && ListOk(sc.links, sc.list)
    && forall c :: 0 <= c < |sc.links| && c !in sc.list ==> Done(w, h, sc.links, dirs, c)
  }

  /** A cell whose distance and neighbourhood did not rise stays settled. */
  lemma DoneFrame(w: nat, h: nat, links: seq<Link>, links': seq<Link>, dirs: seq<Step>, c: nat)
    requires |links| == Mul(w, h) && c < |links| && SameCells(links, links')
    requires forall j :: 0 <= j < |links| ==> links'[j].distance <= links[j].distance
    requires links'[c].distance == links[c].distance
    requires Done(w, h, links, dirs, c)
    ensures Done(w, h, links', dirs, c)
  {
    var l := links[c];
    assert SameCell(l, links'[c]);
    if l.passable {
      forall i | 0 <= i < |dirs| && Allowed(w, h, links', l.x, l.y, dirs[i])
        ensures links'[Target(w, h, l.x, l.y, dirs[i])].distance <= l.distance + TERRAIN_COST
      {
        AllowedFrame(w, h, links, links', l.x, l.y, dirs[i]);
      }
    }
  }

  /** The head, taken off the frontier after relaxing around it, is settled. */
  lemma HeadDone(w: nat, h: nat, dcost: real, sc: Scan, dirs: seq<Step>)
    requires Fits(w, h, sc) && sc.list != [] && dcost <= 0.0
    requires sc.list[0] !in Round(w, h, dcost, sc, dirs).list
    ensures Done(w, h, Round(w, h, dcost, sc, dirs).links, dirs, sc.list[0])
  {
    var hk := sc.list[0];
    var l := sc.links[hk];
    var s0 := Scan(sc.links, sc.list[1..]);
    var r := Round(w, h, dcost, sc, dirs);
    RelaxAllShape(w, h, dcost, s0, l.x, l.y, l.distance, dirs);
    RelaxAllReach(w, h, dcost, s0, l.x, l.y, l.distance, dirs);
    assert SameCell(l, r.links[hk]);
  }

  /** One round keeps the invariant when dcost <= 0. */
  lemma RoundInv(w: nat, h: nat, dcost: real, sc: Scan, dirs: seq<Step>)
    requires Inv(w, h, sc, dirs) && sc.list != [] && dcost <= 0.0
    ensures Inv(w, h, Round(w, h, dcost, sc, dirs), dirs)
  {
    var hk := sc.list[0];
    var l := sc.links[hk];
    var s0 := Scan(sc.links, sc.list[1..]);
    var r := Round(w, h, dcost, sc, dirs);
    assert ListOk(s0.links, s0.list) by {
      forall i | 0 <= i < |s0.list|
        ensures s0.list[i] == sc.list[i + 1]
      {
      }
    }
    RelaxAllShape(w, h, dcost, s0, l.x, l.y, l.distance, dirs);
    RelaxAllLowers(w, h, dcost, s0, l.x, l.y, l.distance, dirs);
    forall c | 0 <= c < |r.links| && c !in r.list
      ensures Done(w, h, r.links, dirs, c)
    {
      if c == hk {
        HeadDone(w, h, dcost, sc, dirs);
      } else {
        assert sc.list == [hk] + s0.list;
        DoneFrame(w, h, sc.links, r.links, dirs, c);
      }
    }
  }

  /** Every cell of the table is settled. */
  ghost predicate AllDone(w: nat, h: nat, links: seq<Link>, dirs: seq<Step>)
    requires |links| == Mul(w, h)
  {
    forall c :: 0 <= c < |links| ==> Done(w, h, links, dirs, c)
  }

  /** links' keeps every cell of links and no distance in it is higher. */
  ghost predicate Lowered(links: seq<Link>, links': seq<Link>)
  {
    SameCells(links, links') && forall c :: 0 <= c < |links| ==> links'[c].distance <= links[c].distance
  }

  lemma LoweredTrans(a: seq<Link>, b: seq<Link>, c: seq<Link>)
    requires Lowered(a, b) && Lowered(b, c)
    ensures Lowered(a, c)
  {
    forall k | 0 <= k < |a|
      ensures SameCell(a[k], c[k])
    {
      assert SameCell(a[k], b[k]) && SameCell(b[k], c[k]);
    }
  }

  /** With dcost <= 0 a round only lowers distances. */
  lemma RoundLowers(w: nat, h: nat, dcost: real, sc: Scan, dirs: seq<Step>)
    requires Fits(w, h, sc) && sc.list != [] && dcost <= 0.0
    ensures Lowered(sc.links, Round(w, h, dcost, sc, dirs).links)
  {
    var l := sc.links[sc.list[0]];
    RelaxAllShape(w, h, dcost, Scan(sc.links, sc.list[1..]), l.x, l.y, l.distance, dirs);
    RelaxAllLowers(w, h, dcost, Scan(sc.links, sc.list[1..]), l.x, l.y, l.distance, dirs);
  }

  /** With dcost <= 0 the loop, when it finishes, leaves every cell settled; it only lowers distances and keeps every cell's shape. */
  lemma {:induction false} RelaxationSettles(w: nat, h: nat, dcost: real, sc: Scan, dirs: seq<Step>, fuel: nat)
    requires Inv(w, h, sc, dirs) && dcost <= 0.0
    requires Relaxation(w, h, dcost, sc, dirs, fuel).Some?
    ensures Lowered(sc.links, Relaxation(w, h, dcost, sc, dirs, fuel).value)
    ensures AllDone(w, h, Relaxation(w, h, dcost, sc, dirs, fuel).value, dirs)
    decreases fuel
  {
    if sc.list != [] {
      var s1 := Round(w, h, dcost, sc, dirs);
      RoundInv(w, h, dcost, sc, dirs);
      RoundLowers(w, h, dcost, sc, dirs);
      RelaxationSettles(w, h, dcost, s1, dirs, fuel - 1);
      LoweredTrans(sc.links, s1.links, Relaxation(w, h, dcost, s1, dirs, fuel - 1).value);
    } else {
      assert AllDone(w, h, sc.links, dirs);
    }
  }

  /** Relaxing one round keeps an ascending frontier ascending, whatever dcost is. */
  lemma RoundAscending(w: nat, h: nat, dcost: real, sc: Scan, dirs: seq<Step>)
    requires Fits(w, h, sc) && sc.list != [] && ListOk(sc.links, sc.list) && Ascending(sc.links, sc.list)
    ensures Ascending(Round(w, h, dcost, sc, dirs).links, Round(w, h, dcost, sc, dirs).list)
  {
    var l := sc.links[sc.list[0]];
    var s0 := Scan(sc.links, sc.list[1..]);
    assert ListOk(s0.links, s0.list) && Ascending(s0.links, s0.list) by {
      forall i | 0 <= i < |s0.list|
        ensures s0.list[i] == sc.list[i + 1]
      {
      }
    }
    RelaxAllAscending(w, h, dcost, s0, l.x, l.y, l.distance, dirs);
  }

  // ---------------------------------------------------------------------
  // The start of the scan, and what the finished scan guarantees

  /** The scan state fill_map starts the relaxation from. */
  function StartScan(g: Grid, ox: int, oy: int): (sc: Scan)
    requires g.Valid() && g.InGrid(ox, oy)
    ensures Fits(g.width, g.height, sc)
  {
    var links := StartLinks(g, ox, oy);
    InitialFrontierIsGoal(g, ox, oy);
    IdxInRange(g.width, g.height, ox, oy);
    Scan(links, InitialFrontier(g.width, g.height, links))
  }

  /** A link table keeps its shape through changes that keep every cell. */
  lemma ShapedFrame(w: nat, h: nat, links: seq<Link>, links': seq<Link>)
    requires Shaped(w, h, links) && SameCells(links, links')
    ensures Shaped(w, h, links')
  {
    forall k | 0 <= k < |links'|
      ensures OnCell(w, h, links', k)
    {
      assert OnCell(w, h, links, k);
      assert SameCell(links[k], links'[k]);
    }
  }

  /** The start state is shaped, holds the goal at distance 0 and every other passable cell at PATH_UNKNOWN. */
  lemma StartLinksSpec(g: Grid, ox: int, oy: int)
    requires g.Valid() && g.InGrid(ox, oy)
    ensures var links := StartLinks(g, ox, oy);
      var goal := Idx(g.width, ox, oy);
      && Shaped(g.width, g.height, links)
      && goal < |links| && links[goal].distance == 0.0
      && (links[goal].passable <==> Has(g, ox, oy, CELL_OPEN | CELL_WALK))
      && (forall c :: 0 <= c < |links| && c != goal && links[c].passable ==> links[c].distance == PATH_UNKNOWN as real)
      && (forall c :: 0 <= c < |links| ==> links[c].distance <= PATH_UNKNOWN as real)
  {
    var links := StartLinks(g, ox, oy);
    IdxInRange(g.width, g.height, ox, oy);
    InitLinksSpec(g);
    var goal := Idx(g.width, ox, oy);
    forall c | 0 <= c < |links| && c != goal
      ensures links[c] == InitLink(g, c)
    {
    }
    forall k | 0 <= k < |links|
      ensures OnCell(g.width, g.height, links, k)
    {
      assert OnCell(g.width, g.height, InitLinks(g), k);
    }
  }

  /** The relaxation starts from its invariant: the frontier is the goal (when passable) and every other cell is at PATH_UNKNOWN. */
  lemma StartInv(g: Grid, ox: int, oy: int, dirs: seq<Step>)
    requires g.Valid() && g.InGrid(ox, oy)
    ensures Inv(g.width, g.height, StartScan(g, ox, oy), dirs)
  {
    var w, h := g.width, g.height;
    var sc := StartScan(g, ox, oy);
    var goal := Idx(w, ox, oy);
    StartLinksSpec(g, ox, oy);
    InitialFrontierIsGoal(g, ox, oy);
    forall c | 0 <= c < |sc.links| && c !in sc.list
      ensures Done(w, h, sc.links, dirs, c)
    {
      if sc.links[c].passable {
        assert c != goal;
      }
    }
  }

  /**
   * Follow the moves ds (indices into dirs) from (x, y): the cell reached, or None when some
   * move is not allowed.
   */
  function MoveTo(w: nat, h: nat, links: seq<Link>, x: int, y: int, dirs: seq<Step>, ds: seq<nat>): (e: Option<Step>)
    requires |links| == Mul(w, h)
    ensures e.Some? ==> (0 <= e.value.x < w && 0 <= e.value.y < h) || ds == []
    decreases |ds|
  {
    if ds == [] then Some(Step(x, y))
    else if ds[0] < |dirs| && Allowed(w, h, links, x, y, dirs[ds[0]]) then
      MoveTo(w, h, links, x + dirs[ds[0]].x, y + dirs[ds[0]].y, dirs, ds[1..])
    else None
  }

  /** In a shaped table, the link at the index of (x, y) sits at (x, y). */
  lemma LinkAtCell(w: nat, h: nat, links: seq<Link>, x: int, y: int)
    requires Shaped(w, h, links) && 0 <= x < w && 0 <= y < h
    ensures Idx(w, x, y) < |links| && links[Idx(w, x, y)].x == x && links[Idx(w, x, y)].y == y
  {
    IdxInRange(w, h, x, y);
    var k := Idx(w, x, y);
    assert OnCell(w, h, links, k);
    IdxInjective(w, links[k].x, links[k].y, x, y);
  }

  /** In a settled table, |ds| allowed moves from a passable cell reach a cell at most |ds| steps further. */
  lemma {:induction false} WalkBound(w: nat, h: nat, links: seq<Link>, dirs: seq<Step>, x: int, y: int, ds: seq<nat>)
    requires Shaped(w, h, links) && AllDone(w, h, links, dirs)
    requires 0 <= x < w && 0 <= y < h && LinkAt(w, h, links, x, y).passable
    requires MoveTo(w, h, links, x, y, dirs, ds).Some?
    ensures var e := MoveTo(w, h, links, x, y, dirs, ds).value;
      && 0 <= e.x < w && 0 <= e.y < h && LinkAt(w, h, links, e.x, e.y).passable
      && LinkAt(w, h, links, e.x, e.y).distance <= LinkAt(w, h, links, x, y).distance + |ds| as real * TERRAIN_COST
    decreases |ds|
  {
    if ds != [] {
      var d := dirs[ds[0]];
      LinkAtCell(w, h, links, x, y);
      var c := Idx(w, x, y);
      assert Done(w, h, links, dirs, c);
      assert links[Target(w, h, x, y, d)].distance <= links[c].distance + TERRAIN_COST;
      WalkBound(w, h, links, dirs, x + d.x, y + d.y, ds[1..]);
    }
  }

  /**
   * What the finished scan promises for dcost <= 0: starting from a passable goal, the goal ends
   * at distance at most 0, and any cell reached from the goal by n allowed moves ends at distance
   * at most n.
   */
  lemma ScanBound(g: Grid, ox: int, oy: int, dcost: real, dirs: seq<Step>, fuel: nat, ds: seq<nat>)
    requires g.Valid() && g.InGrid(ox, oy) && dcost <= 0.0 && Has(g, ox, oy, CELL_OPEN | CELL_WALK)
    requires Relaxation(g.width, g.height, dcost, StartScan(g, ox, oy), dirs, fuel).Some?
    requires MoveTo(g.width, g.height, Relaxation(g.width, g.height, dcost, StartScan(g, ox, oy), dirs, fuel).value, ox, oy, dirs, ds).Some?
    ensures var links := Relaxation(g.width, g.height, dcost, StartScan(g, ox, oy), dirs, fuel).value;
      var e := MoveTo(g.width, g.height, links, ox, oy, dirs, ds).value;
      && 0 <= e.x < g.width && 0 <= e.y < g.height && LinkAt(g.width, g.height, links, e.x, e.y).passable
      && LinkAt(g.width, g.height, links, ox, oy).distance <= 0.0
      && LinkAt(g.width, g.height, links, e.x, e.y).distance <= |ds| as real
  {
    var w, h := g.width, g.height;
    var sc := StartScan(g, ox, oy);
    var links := Relaxation(w, h, dcost, sc, dirs, fuel).value;
    StartLinksSpec(g, ox, oy);
    StartInv(g, ox, oy, dirs);
    RelaxationSettles(w, h, dcost, sc, dirs, fuel);
    ShapedFrame(w, h, sc.links, links);
    var goal := Idx(w, ox, oy);
    assert SameCell(sc.links[goal], links[goal]);
    WalkBound(w, h, links, dirs, ox, oy, ds);
  }

  // ---------------------------------------------------------------------
  // Distances stay non-negative, and the goal keeps 0

  /** No distance in the table is negative. */
  ghost predicate NonNegative(links: seq<Link>)
  {
    forall c :: 0 <= c < |links| ==> links[c].distance >= 0.0
  }

  /**
   * With dcost >= -1 and a non-negative head, one relaxation keeps distances non-negative and
   * never touches a cell at distance at most one terrain step (the guard needs the head below it).
   */
  lemma RelaxKeepsLow(w: nat, h: nat, dcost: real, sc: Scan, hx: int, hy: int, hd: real, d: Step)
    requires Fits(w, h, sc) && NonNegative(sc.links) && dcost >= -1.0 && hd >= 0.0
    ensures NonNegative(Relax(w, h, dcost, sc, hx, hy, hd, d).links)
    ensures forall c :: 0 <= c < |sc.links| && sc.links[c].distance <= TERRAIN_COST ==>
      Relax(w, h, dcost, sc, hx, hy, hd, d).links[c].distance == sc.links[c].distance
  {
    if Allowed(w, h, sc.links, hx, hy, d) {
      var k := Target(w, h, hx, hy, d);
      if hd + TERRAIN_COST < sc.links[k].distance {
        ImproveLinks(sc, k, NewDistance(hd, dcost, d));
      }
    }
  }

  lemma {:induction false} RelaxAllKeepsLow(w: nat, h: nat, dcost: real, sc: Scan, hx: int, hy: int, hd: real, dirs: seq<Step>)
    requires Fits(w, h, sc) && NonNegative(sc.links) && dcost >= -1.0 && hd >= 0.0
    ensures NonNegative(RelaxAll(w, h, dcost, sc, hx, hy, hd, dirs).links)
    ensures forall c :: 0 <= c < |sc.links| && sc.links[c].distance <= TERRAIN_COST ==>
      RelaxAll(w, h, dcost, sc, hx, hy, hd, dirs).links[c].distance == sc.links[c].distance
    decreases |dirs|
  {
    if dirs != [] {
      var s1 := Relax(w, h, dcost, sc, hx, hy, hd, dirs[0]);
      RelaxKeepsLow(w, h, dcost, sc, hx, hy, hd, dirs[0]);
      RelaxAllKeepsLow(w, h, dcost, s1, hx, hy, hd, dirs[1..]);
    }
  }

  /**
   * With dcost >= -1 the loop keeps every distance non-negative and never changes a cell at
   * distance at most one terrain step; in particular the goal keeps distance 0.
   */
  lemma {:induction false} RelaxationKeepsLow(w: nat, h: nat, dcost: real, sc: Scan, dirs: seq<Step>, fuel: nat)
    requires Fits(w, h, sc) && NonNegative(sc.links) && dcost >= -1.0
    requires Relaxation(w, h, dcost, sc, dirs, fuel).Some?
    ensures NonNegative(Relaxation(w, h, dcost, sc, dirs, fuel).value)
    ensures forall c :: 0 <= c < |sc.links| && sc.links[c].distance <= TERRAIN_COST ==>
      Relaxation(w, h, dcost, sc, dirs, fuel).value[c].distance == sc.links[c].distance
    decreases fuel
  {
    if sc.list != [] {
      var l := sc.links[sc.list[0]];
      var s1 := Round(w, h, dcost, sc, dirs);
      RelaxAllKeepsLow(w, h, dcost, Scan(sc.links, sc.list[1..]), l.x, l.y, l.distance, dirs);
      RelaxationKeepsLow(w, h, dcost, s1, dirs, fuel - 1);
    }
  }

  /** Whatever dcost >= -1, a finished scan leaves the goal at distance 0 and no cell below it. */
  lemma GoalKeepsZero(g: Grid, ox: int, oy: int, dcost: real, dirs: seq<Step>, fuel: nat)
    requires g.Valid() && g.InGrid(ox, oy) && dcost >= -1.0
    requires Relaxation(g.width, g.height, dcost, StartScan(g, ox, oy), dirs, fuel).Some?
    ensures var links := Relaxation(g.width, g.height, dcost, StartScan(g, ox, oy), dirs, fuel).value;
      && LinkAt(g.width, g.height, links, ox, oy).distance == 0.0
      && NonNegative(links)
  {
    var sc := StartScan(g, ox, oy);
    StartLinksSpec(g, ox, oy);
    assert NonNegative(sc.links) by {
      forall c | 0 <= c < |sc.links|
        ensures sc.links[c].distance >= 0.0
      {
        if c != Idx(g.width, ox, oy) {
          assert sc.links[c] == InitLink(g, c);
        }
      }
    }
    RelaxationKeepsLow(g.width, g.height, dcost, sc, dirs, fuel);
  }

  // ---------------------------------------------------------------------
  // How the C code addresses a neighbour

  /** The neighbour address of dijkstra_scan as written: the head's index plus dx + w*dy, with no bounds check. */
  function FlatNeighbourAsWritten(w: nat, k: int, d: Step): int
  {
    k + d.x + w * d.y
  }

  /** On a 2-wide map the offset for "east" from (1, 0) lands on (0, 1), the next row's first cell, while the real east neighbour is off the map. */
  lemma FlatNeighbourWraps()
    ensures FlatNeighbourAsWritten(2, Idx(2, 1, 0), Step(1, 0)) == Idx(2, 0, 1)
  {
  }

  /** From the top row the offset for "north" is negative: the read is before the link array. */
  lemma FlatNeighbourUnderflows(w: nat, x: int)
    requires 0 <= x < w
    ensures FlatNeighbourAsWritten(w, Idx(w, x, 0), Step(0, -1)) < 0
  {
  }

  /** Where the 2-D neighbour is on the map, the written offset and the model's Target agree. */
  lemma FlatNeighbourAgrees(w: nat, h: nat, x: int, y: int, d: Step)
    requires 0 <= x < w && 0 <= y < h && 0 <= x + d.x < w && 0 <= y + d.y < h
    ensures FlatNeighbourAsWritten(w, Idx(w, x, y), d) == Target(w, h, x, y, d)
  {
    MulIsProduct(y, w);
    MulIsProduct(y + d.y, w);
    assert (y + d.y) * w == y * w + w * d.y;
  }

  /** The model's Target is the 2-D neighbour: in a shaped table its link sits at (x + dx, y + dy). */
  lemma TargetIsNeighbour(w: nat, h: nat, links: seq<Link>, x: int, y: int, d: Step)
    requires Shaped(w, h, links) && 0 <= x + d.x < w && 0 <= y + d.y < h
    ensures links[Target(w, h, x, y, d)].x == x + d.x && links[Target(w, h, x, y, d)].y == y + d.y
  {
    LinkAtCell(w, h, links, x + d.x, y + d.y);
  }

  // ---------------------------------------------------------------------
  // What the scan keeps, whatever dcost is

  lemma SameCellsTrans(a: seq<Link>, b: seq<Link>, c: seq<Link>)
    requires SameCells(a, b) && SameCells(b, c)
    ensures SameCells(a, c)
  {
    forall k | 0 <= k < |a|
      ensures SameCell(a[k], c[k])
    {
      assert SameCell(a[k], b[k]) && SameCell(b[k], c[k]);
    }
  }

  /** The loop changes distances only: every cell keeps its coordinates and passability. */
  lemma {:induction false} RelaxationKeepsCells(w: nat, h: nat, dcost: real, sc: Scan, dirs: seq<Step>, fuel: nat)
    requires Fits(w, h, sc) && Relaxation(w, h, dcost, sc, dirs, fuel).Some?
    ensures SameCells(sc.links, Relaxation(w, h, dcost, sc, dirs, fuel).value)
    decreases fuel
  {
    if sc.list != [] {
      var s1 := Round(w, h, dcost, sc, dirs);
      RoundKeepsCells(w, h, dcost, sc, dirs);
      assert Relaxation(w, h, dcost, sc, dirs, fuel) == Relaxation(w, h, dcost, s1, dirs, fuel - 1);
      RelaxationKeepsCells(w, h, dcost, s1, dirs, fuel - 1);
      SameCellsTrans(sc.links, s1.links, Relaxation(w, h, dcost, s1, dirs, fuel - 1).value);
    }
  }

  lemma RoundKeepsCells(w: nat, h: nat, dcost: real, sc: Scan, dirs: seq<Step>)
    requires Fits(w, h, sc) && sc.list != []
    ensures SameCells(sc.links, Round(w, h, dcost, sc, dirs).links)
  {
    var l := sc.links[sc.list[0]];
    RelaxAllShape(w, h, dcost, Scan(sc.links, sc.list[1..]), l.x, l.y, l.distance, dirs);
  }

  /** Which moves are allowed depends only on passability, so tables with the same cells allow the same walks. */
  lemma {:induction false} MoveToFrame(w: nat, h: nat, links: seq<Link>, links': seq<Link>, x: int, y: int, dirs: seq<Step>, ds: seq<nat>)
    requires |links| == Mul(w, h) && SameCells(links, links')
    ensures MoveTo(w, h, links, x, y, dirs, ds) == MoveTo(w, h, links', x, y, dirs, ds)
    decreases |ds|
  {
    if ds != [] && ds[0] < |dirs| {
      AllowedFrame(w, h, links, links', x, y, dirs[ds[0]]);
      MoveToFrame(w, h, links, links', x + dirs[ds[0]].x, y + dirs[ds[0]].y, dirs, ds[1..]);
    }
  }
}
