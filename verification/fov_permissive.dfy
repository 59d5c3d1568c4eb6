/**
 * Precise permissive field of view (RLF_fov_permissive). Each quadrant is scanned in rows of
 * constant x + y; a list of active views, each bounded by a shallow and a steep line, records
 * which directions are still open, and an obstacle bumps a view's lines, splits the view in two,
 * or closes it. Lines are compared with points by the sign of a cross product. Views and bumps
 * are values here: a bump chain is the sequence of bumps newest first, and the in-place
 * updates of a view through its address become replacements of the list slot that holds it.
 * This algorithm sets SEEN only (not SEEN|MEMO).
 */
module FovPermissive {
  import opened Util
  import opened Defines
  import opened Grid
  import opened Fov
  import List

  // ---------------------------------------------------------------------
  // Lines and the slope tests

  /** line_t: a line through (xi, yi) and (xf, yf), in quadrant coordinates. */
  datatype Line = Line(xi: int, yi: int, xf: int, yf: int)

  /** RELATIVE_SLOPE: the cross product that places (x, y) against the line; positive is below. */
  function RelativeSlope(l: Line, x: int, y: int): int
  {
    (l.yf - l.yi) * (l.xf - x) - (l.xf - l.xi) * (l.yf - y)
  }

  predicate Below(l: Line, x: int, y: int) { RelativeSlope(l, x, y) > 0 }
  predicate BelowOrColinear(l: Line, x: int, y: int) { RelativeSlope(l, x, y) >= 0 }
  predicate Above(l: Line, x: int, y: int) { RelativeSlope(l, x, y) < 0 }
  predicate AboveOrColinear(l: Line, x: int, y: int) { RelativeSlope(l, x, y) <= 0 }
  predicate Colinear(l: Line, x: int, y: int) { RelativeSlope(l, x, y) == 0 }

  /** LINE_COLINEAR: both end points of l2 lie on l. */
  predicate LineColinear(l: Line, l2: Line)
  {
    Colinear(l, l2.xi, l2.yi) && Colinear(l, l2.xf, l2.yf)
  }

  /** The same line traversed the other way. */
  function Reverse(l: Line): Line
  {
    Line(l.xf, l.yf, l.xi, l.yi)
  }

  /** The line reflected in the diagonal x == y. */
  function Transpose(l: Line): Line
  {
    Line(l.yi, l.xi, l.yf, l.xf)
  }

  /** Both end points lie on the line, and traversing it backwards swaps below and above. */
  lemma ReverseSwapsSides(l: Line, x: int, y: int)
    ensures Colinear(l, l.xi, l.yi) && Colinear(l, l.xf, l.yf)
    ensures RelativeSlope(Reverse(l), x, y) == -RelativeSlope(l, x, y)
    ensures Below(Reverse(l), x, y) <==> Above(l, x, y)
  {
    var a, b := l.yf - l.yi, l.xf - l.xi;
    assert RelativeSlope(l, l.xi, l.yi) == a * b - b * a;
    assert RelativeSlope(Reverse(l), x, y) == (-a) * ((l.xf - x) - b) - (-b) * ((l.yf - y) - a);
  }

  /** Reflecting line and point in the diagonal swaps below and above. */
  lemma TransposeSwapsSides(l: Line, x: int, y: int)
    ensures RelativeSlope(Transpose(l), y, x) == -RelativeSlope(l, x, y)
    ensures Below(Transpose(l), y, x) <==> Above(l, x, y)
    ensures Colinear(Transpose(l), y, x) <==> Colinear(l, x, y)
  {
  }

  // ---------------------------------------------------------------------
  // Views and bumps

  /** viewbump_t: an obstacle corner that bent one of a view's lines. */
  datatype Bump = Bump(x: int, y: int)

  /** view_t: the two bounding lines and the two bump chains, newest bump first. */
  datatype View = View(shallow: Line, steep: Line, shallowBumps: seq<Bump>, steepBumps: seq<Bump>)

  /** The walk of add_shallow_bump over the steep bumps: a bump above the current line becomes its start. */
  function WalkShallow(l: Line, bumps: seq<Bump>): (r: Line)
    ensures r.xf == l.xf && r.yf == l.yf
    ensures (r.xi == l.xi && r.yi == l.yi) || Bump(r.xi, r.yi) in bumps
    decreases |bumps|
  {
    if bumps == [] then l
    else
      var b := bumps[0];
      WalkShallow(if Above(l, b.x, b.y) then l.(xi := b.x, yi := b.y) else l, bumps[1..])
  }

  /** The walk of add_steep_bump over the shallow bumps: a bump below the current line becomes its start. */
  function WalkSteep(l: Line, bumps: seq<Bump>): (r: Line)
    ensures r.xf == l.xf && r.yf == l.yf
    ensures (r.xi == l.xi && r.yi == l.yi) || Bump(r.xi, r.yi) in bumps
    decreases |bumps|
  {
    if bumps == [] then l
    else
      var b := bumps[0];
      WalkSteep(if Below(l, b.x, b.y) then l.(xi := b.x, yi := b.y) else l, bumps[1..])
  }

  /** When no bump lies above the line the walk leaves it alone. */
  lemma {:induction false} WalkShallowStill(l: Line, bumps: seq<Bump>)
    requires forall k :: 0 <= k < |bumps| ==> !Above(l, bumps[k].x, bumps[k].y)
    ensures WalkShallow(l, bumps) == l
    decreases |bumps|
  {
    if bumps != [] {
      WalkShallowStill(l, bumps[1..]);
    }
  }

  /** When some bump lies above the line the walk moves the start onto a bump. */
  lemma {:induction false} WalkShallowMoves(l: Line, bumps: seq<Bump>)
    requires exists k :: 0 <= k < |bumps| && Above(l, bumps[k].x, bumps[k].y)
    ensures Bump(WalkShallow(l, bumps).xi, WalkShallow(l, bumps).yi) in bumps
    decreases |bumps|
  {
    var b := bumps[0];
    if Above(l, b.x, b.y) {
      var r := WalkShallow(l.(xi := b.x, yi := b.y), bumps[1..]);
      assert r == WalkShallow(l, bumps);
      assert (r.xi == b.x && r.yi == b.y) || Bump(r.xi, r.yi) in bumps[1..];
    } else {
      var k :| 0 <= k < |bumps| && Above(l, bumps[k].x, bumps[k].y);
      assert bumps[1..][k - 1] == bumps[k];
      WalkShallowMoves(l, bumps[1..]);
    }
  }

  /** add_shallow_bump: the shallow line ends at the bump, is pulled up to any steep bump above it, and the bump is recorded. */
  function AddShallowBump(x: int, y: int, v: View): (r: View)
    ensures r.shallow.xf == x && r.shallow.yf == y
    ensures (r.shallow.xi == v.shallow.xi && r.shallow.yi == v.shallow.yi) || Bump(r.shallow.xi, r.shallow.yi) in v.steepBumps
    ensures r.steep == v.steep && r.steepBumps == v.steepBumps
    ensures |r.shallowBumps| == |v.shallowBumps| + 1 && r.shallowBumps[0] == Bump(x, y) && r.shallowBumps[1..] == v.shallowBumps
  {
    View(WalkShallow(v.shallow.(xf := x, yf := y), v.steepBumps), v.steep, [Bump(x, y)] + v.shallowBumps, v.steepBumps)
  }

  /** add_steep_bump: the steep line ends at the bump, is pulled down to any shallow bump below it, and the bump is recorded. */
  function AddSteepBump(x: int, y: int, v: View): (r: View)
    ensures r.steep.xf == x && r.steep.yf == y
    ensures (r.steep.xi == v.steep.xi && r.steep.yi == v.steep.yi) || Bump(r.steep.xi, r.steep.yi) in v.shallowBumps
    ensures r.shallow == v.shallow && r.shallowBumps == v.shallowBumps
    ensures |r.steepBumps| == |v.steepBumps| + 1 && r.steepBumps[0] == Bump(x, y) && r.steepBumps[1..] == v.steepBumps
  {
    View(v.shallow, WalkSteep(v.steep.(xf := x, yf := y), v.shallowBumps), v.shallowBumps, [Bump(x, y)] + v.steepBumps)
  }

  /** Bumps reflected in the diagonal. */
  function TransposeBumps(bumps: seq<Bump>): (r: seq<Bump>)
    ensures |r| == |bumps|
    decreases |bumps|
  {
    if bumps == [] then [] else [Bump(bumps[0].y, bumps[0].x)] + TransposeBumps(bumps[1..])
  }

  /** A view reflected in the diagonal: its shallow side becomes the steep side. */
  function Mirror(v: View): View
  {
    View(Transpose(v.steep), Transpose(v.shallow), TransposeBumps(v.steepBumps), TransposeBumps(v.shallowBumps))
  }

  /** The steep walk over reflected bumps is the reflection of the shallow walk. */
  lemma {:induction false} WalkMirror(l: Line, bumps: seq<Bump>)
    ensures WalkSteep(Transpose(l), TransposeBumps(bumps)) == Transpose(WalkShallow(l, bumps))
    decreases |bumps|
  {
    if bumps != [] {
      var b := bumps[0];
      TransposeSwapsSides(l, b.x, b.y);
      var l' := if Above(l, b.x, b.y) then l.(xi := b.x, yi := b.y) else l;
      assert Transpose(l') == if Below(Transpose(l), b.y, b.x) then Transpose(l).(xi := b.y, yi := b.x) else Transpose(l);
      WalkMirror(l', bumps[1..]);
    }
  }

  /** add_steep_bump is the mirror image of add_shallow_bump. */
  lemma SteepBumpMirrorsShallow(x: int, y: int, v: View)
    ensures AddSteepBump(y, x, Mirror(v)) == Mirror(AddShallowBump(x, y, v))
  {
    WalkMirror(v.shallow.(xf := x, yf := y), v.steepBumps);
    assert Transpose(v.shallow.(xf := x, yf := y)) == Transpose(v.shallow).(xf := y, yf := x);
    assert TransposeBumps([Bump(x, y)] + v.shallowBumps) == [Bump(y, x)] + TransposeBumps(v.shallowBumps) by {
      assert ([Bump(x, y)] + v.shallowBumps)[1..] == v.shallowBumps;
    }
  }

  /** The test of check_view: both lines on one line through (0, 1) or (1, 0), so the view has no width left. */
  predicate Collapsed(v: View)
  {
    LineColinear(v.shallow, v.steep) && (Colinear(v.shallow, 0, 1) || Colinear(v.shallow, 1, 0))
  }

  // ---------------------------------------------------------------------
  // The list of active views

  /** Every slot in use holds a view. */
  ghost predicate Holds(l: List.ListT<View>)
  {
    l.Valid() && forall i :: 0 <= i < l.fsize ==> l.data[i].Some?
  }

  /** The view in slot k. */
  function ViewAt(l: List.ListT<View>, k: nat): View
    requires Holds(l) && k < l.fsize
  {
    l.data[k].value
  }

  /** Write a changed view back into slot k (the C changes it through the address the list holds). */
  function Update(l: List.ListT<View>, k: nat, v: View): (r: List.ListT<View>)
    requires Holds(l) && k < l.fsize
    ensures Holds(r) && r.fsize == l.fsize && ViewAt(r, k) == v
    ensures forall i :: 0 <= i < l.fsize && i != k ==> ViewAt(r, i) == ViewAt(l, i)
  {
    l.(data := l.data[k := Some(v)])
  }

  lemma RemovedHolds(l: List.ListT<View>, r: List.ListT<View>, k: nat)
    requires Holds(l) && k < l.fsize && r.Valid() && r.fsize == l.fsize - 1
    requires r.Elements() == l.Elements()[..k] + l.Elements()[k + 1..]
    ensures Holds(r)
  {
    forall i | 0 <= i < r.fsize
      ensures r.data[i].Some?
    {
      assert r.data[i] == r.Elements()[i];
      if i >= k {
        assert r.Elements()[i] == l.Elements()[i + 1];
      }
    }
  }

  lemma InsertedHolds(l: List.ListT<View>, r: List.ListT<View>, k: nat, v: View)
    requires Holds(l) && k <= l.fsize && r.Valid() && r.fsize == l.fsize + 1
    requires r.Elements() == l.Elements()[..k] + [Some(v)] + l.Elements()[k..]
    ensures Holds(r) && ViewAt(r, k) == v
    ensures k < l.fsize ==> ViewAt(r, k + 1) == ViewAt(l, k)
  {
    forall i | 0 <= i < r.fsize
      ensures r.data[i].Some?
    {
      assert r.data[i] == r.Elements()[i];
      if i > k {
        assert r.Elements()[i] == l.Elements()[i - 1];
      }
    }
    assert r.data[k] == r.Elements()[k];
    if k < l.fsize {
      assert r.data[k + 1] == r.Elements()[k + 1] == l.Elements()[k];
    }
  }

  /** check_view: a collapsed view is removed from the list (and false returned), any other one kept. */
  method CheckView(views: List.ListT<View>, k: nat) returns (kept: bool, views': List.ListT<View>)
    requires Holds(views) && k < views.fsize
    ensures Holds(views')
    ensures kept <==> !Collapsed(ViewAt(views, k))
    ensures kept ==> views' == views
    ensures !kept ==> views'.fsize == views.fsize - 1 && views'.Elements() == views.Elements()[..k] + views.Elements()[k + 1..]
  {
    if Collapsed(ViewAt(views, k)) {
      var prev;
      views', prev := List.RemoveAt(views, k);
      RemovedHolds(views, views', k);
      kept := false;
    } else {
      kept, views' := true, views;
    }
  }

  // ---------------------------------------------------------------------
  // Cells and marks

  /** startX + k*dx for a unit direction dx. */
  function Along(o: int, d: int, k: int): int
    requires d == 1 || d == -1
  {
    if d == 1 then o + k else o - k
  }

  /** v lies between o and o + e*d. */
  predicate Between(o: int, d: int, e: int, v: int)
  {
    if d == 1 then o <= v <= o + e else o - e <= v <= o
  }

  /** RLF_set_flag(.., CELL_SEEN) on an in-grid cell. */
  function See(g: Grid, x: int, y: int): (r: Grid)
    requires g.Valid() && g.InGrid(x, y)
    ensures r.Valid() && SeenOnly(g, r, Spot(x, y, true)) && Has(r, x, y, CELL_SEEN)
  {
    var r := WithCell(g, x, y, WithSeen(Cell(g, x, y)));
    SeenBit(Cell(g, x, y));
    r
  }

  /** A mask with SEEN set. */
  function WithSeen(v: bv16): bv16
  {
    v | CELL_SEEN
  }

  /**
   * `after` is `before` with SEEN set on some cells, each of which satisfies `lit`; no other bit
   * and no other cell changes.
   */
  ghost predicate SeenOnly(before: Grid, after: Grid, lit: (int, int) -> bool)
    requires before.Valid() && after.Valid()
  {
    && after.width == before.width && after.height == before.height && after.pathMaps == before.pathMaps
    && forall x, y :: before.InGrid(x, y) ==>
         Cell(after, x, y) == Cell(before, x, y) || (lit(x, y) && Cell(after, x, y) == WithSeen(Cell(before, x, y)))
  }

  /** The single cell (cx, cy) when ok holds, nothing otherwise. */
  function Spot(cx: int, cy: int, ok: bool): (lit: (int, int) -> bool)
    ensures forall x, y :: lit(x, y) <==> ok && x == cx && y == cy
  {
    (x, y) => ok && x == cx && y == cy
  }

  /** The OPEN oracle agrees with the grid's OPEN bits. */
  ghost predicate OpenAgrees(g: Grid, open: (int, int) -> bool)
    requires g.Valid()
  {
    forall x, y :: g.InGrid(x, y) ==> (open(x, y) <==> Has(g, x, y, CELL_OPEN))
  }

  /** Setting SEEN keeps SEEN set once set, and never touches OPEN. */
  lemma SeenBit(v: bv16)
    ensures WithSeen(v) & CELL_SEEN != 0
    ensures (WithSeen(v) & CELL_OPEN != 0) == (v & CELL_OPEN != 0)
    ensures WithSeen(WithSeen(v)) == WithSeen(v)
  {
  }

  /** Marks only accumulate: SEEN stays set and OPEN stays as it was. */
  lemma SeenKeeps(a: Grid, b: Grid, lit: (int, int) -> bool, open: (int, int) -> bool)
    requires a.Valid() && b.Valid() && SeenOnly(a, b, lit)
    requires OpenAgrees(a, open)
    ensures OpenAgrees(b, open)
    ensures forall x, y :: a.InGrid(x, y) && Has(a, x, y, CELL_SEEN) ==> Has(b, x, y, CELL_SEEN)
  {
    forall x, y | a.InGrid(x, y)
      ensures Has(b, x, y, CELL_OPEN) == Has(a, x, y, CELL_OPEN)
      ensures Has(a, x, y, CELL_SEEN) ==> Has(b, x, y, CELL_SEEN)
    {
      SeenBit(Cell(a, x, y));
    }
  }

  /** Two rounds of SEEN marks are one round, over any cells that cover both. */
  lemma SeenChain(a: Grid, b: Grid, c: Grid, p: (int, int) -> bool, q: (int, int) -> bool, lit: (int, int) -> bool)
    requires a.Valid() && b.Valid() && c.Valid()
    requires SeenOnly(a, b, p) && SeenOnly(b, c, q)
    requires forall x, y :: a.InGrid(x, y) && p(x, y) ==> lit(x, y)
    requires forall x, y :: a.InGrid(x, y) && q(x, y) ==> lit(x, y)
    ensures SeenOnly(a, c, lit)
  {
    forall x, y | a.InGrid(x, y)
      ensures Cell(c, x, y) == Cell(a, x, y) || (lit(x, y) && Cell(c, x, y) == WithSeen(Cell(a, x, y)))
    {
      SeenChainAt(a, b, c, p, q, lit, x, y);
    }
  }

  lemma SeenChainAt(a: Grid, b: Grid, c: Grid, p: (int, int) -> bool, q: (int, int) -> bool, lit: (int, int) -> bool,
                    x: int, y: int)
    requires a.Valid() && b.Valid() && c.Valid() && a.InGrid(x, y)
    requires SeenOnly(a, b, p) && SeenOnly(b, c, q)
    requires p(x, y) ==> lit(x, y)
    requires q(x, y) ==> lit(x, y)
    ensures Cell(c, x, y) == Cell(a, x, y) || (lit(x, y) && Cell(c, x, y) == WithSeen(Cell(a, x, y)))
  {
    ChainCell(Cell(a, x, y), Cell(b, x, y), Cell(c, x, y), p(x, y), q(x, y));
  }

  /** One cell of SeenChain. */
  lemma ChainCell(va: bv16, vb: bv16, vc: bv16, pa: bool, qa: bool)
    requires vb == va || (pa && vb == WithSeen(va))
    requires vc == vb || (qa && vc == WithSeen(vb))
    ensures vc == va || ((pa || qa) && vc == WithSeen(va))
  {
    SeenBit(va);
  }

  // ---------------------------------------------------------------------
  // visit_coords

  /**
   * The view work of visit_coords on a blocking cell, current view v in slot c: a view the cell
   * fills is removed; a cell on one edge bumps that edge; a cell inside splits the view in two
   * (a copy before it takes a steep bump, the original a shallow bump), each then checked.
   */
  method Reshape(views: List.ListT<View>, c: nat, x: int, y: int) returns (views': List.ListT<View>, cur: nat)
    requires Holds(views) && c < views.fsize
    ensures Holds(views') && cur <= views'.fsize
    ensures views'.fsize <= views.fsize + 1
  {
    var v := ViewAt(views, c);
    var tlx, tly, brx, bry := x, y + 1, x + 1, y;
    cur := c;
    if Above(v.shallow, brx, bry) && Below(v.steep, tlx, tly) {
      var prev;
      views', prev := List.RemoveAt(views, c);
      RemovedHolds(views, views', c);
    } else if Above(v.shallow, brx, bry) {
      var kept;
      kept, views' := CheckView(Update(views, c, AddShallowBump(tlx, tly, v)), c);
    } else if Below(v.steep, tlx, tly) {
      var kept;
      kept, views' := CheckView(Update(views, c, AddSteepBump(brx, bry, v)), c);
    } else {
      var ins, at := List.Insert(views, v, c);
      var split := ins.value;
      InsertedHolds(views, split, c, v);
      var kept, vs := CheckView(Update(split, c, AddSteepBump(brx, bry, v)), c);
      var s := if kept then c + 1 else c;
      var kept2;
      kept2, views' := CheckView(Update(vs, s, AddShallowBump(tlx, tly, ViewAt(vs, s))), s);
      if c > views'.fsize {
        cur := views'.fsize;
      }
    }
  }

  /**
   * visit_coords for quadrant cell (x, y): skip the views whose steep line the cell's bottom-right
   * corner is on or below; stop if none is left or the top-left corner is on or above the shallow
   * line. Otherwise the cell is SEEN if walls are lit or it is OPEN; an OPEN cell leaves the
   * views alone, a blocking one reshapes the current view.
   */
  method Visit(g: Grid, ox: int, oy: int, x: nat, y: nat, dx: int, dy: int,
               views: List.ListT<View>, cur: nat, lw: bool)
    returns (g': Grid, views': List.ListT<View>, cur': nat)
    requires g.Valid() && (dx == 1 || dx == -1) && (dy == 1 || dy == -1)
    requires g.InGrid(Along(ox, dx, x), Along(oy, dy, y))
    requires Holds(views) && cur <= views.fsize
    ensures g'.Valid() && Holds(views') && cur' <= views'.fsize
    ensures SeenOnly(g, g', Spot(Along(ox, dx, x), Along(oy, dy, y), lw || Has(g, Along(ox, dx, x), Along(oy, dy, y), CELL_OPEN)))
    ensures Has(g, Along(ox, dx, x), Along(oy, dy, y), CELL_OPEN) ==> views' == views
    ensures (&& cur < views.fsize && lw && !BelowOrColinear(ViewAt(views, cur).steep, x + 1, y)
             && !AboveOrColinear(ViewAt(views, cur).shallow, x, y + 1)) ==>
            Has(g', Along(ox, dx, x), Along(oy, dy, y), CELL_SEEN)
  {
    var c := cur;
    while c < views.fsize && BelowOrColinear(ViewAt(views, c).steep, x + 1, y)
      invariant cur <= c <= views.fsize
      invariant c > cur ==> BelowOrColinear(ViewAt(views, cur).steep, x + 1, y)
      decreases views.fsize - c
    {
      c := c + 1;
    }
    var cx, cy := Along(ox, dx, x), Along(oy, dy, y);
    if c == views.fsize || AboveOrColinear(ViewAt(views, c).shallow, x, y + 1) {
      return g, views, c;
    }
    g' := if lw || Has(g, cx, cy, CELL_OPEN) then See(g, cx, cy) else g;
    if Has(g, cx, cy, CELL_OPEN) {
      return g', views, c;
    }
    views', cur' := Reshape(views, c, x, y);
  }

  // ---------------------------------------------------------------------
  // check_quadrant and the entry point

  /** The cells of the quadrant (dx, dy) with extents (ex, ey) that may be marked. */
  function QuadLit(open: (int, int) -> bool, ox: int, oy: int, dx: int, dy: int, ex: nat, ey: nat, lw: bool): (lit: (int, int) -> bool)
    ensures forall x, y :: lit(x, y) <==> Between(ox, dx, ex, x) && Between(oy, dy, ey, y) && (lw || open(x, y))
  {
    (x, y) => Between(ox, dx, ex, x) && Between(oy, dy, ey, y) && (lw || open(x, y))
  }

  /** The inner loop guard of check_quadrant on the list size: as written it runs only on an empty list. */
  predicate InnerGuard(asWritten: bool, size: nat)
  {
    if asWritten then size == 0 else size != 0
  }

  /** The view a quadrant starts with: everything between the two axes. */
  function FirstView(ex: nat, ey: nat): View
  {
    View(Line(0, 1, ex, 0), Line(1, 0, 0, ey), [], [])
  }

  /** The first cell of a quadrant, (1, 0), lies strictly inside the first view when both extents are positive. */
  lemma FirstCellInside(ex: nat, ey: nat)
    requires ex >= 1 && ey >= 1
    ensures !BelowOrColinear(FirstView(ex, ey).steep, 2, 0) && !AboveOrColinear(FirstView(ex, ey).shallow, 1, 1)
  {
    assert RelativeSlope(FirstView(ex, ey).steep, 2, 0) == -(ey as int);
    assert RelativeSlope(FirstView(ex, ey).shallow, 1, 1) == 1;
  }

  /** Quadrant cell (x, y) with 0 <= x <= ex and 0 <= y <= ey lies on the grid and in QuadLit's box. */
  lemma AlongInBox(g: Grid, ox: int, oy: int, dx: int, dy: int, ex: nat, ey: nat, x: int, y: int)
    requires (dx == 1 || dx == -1) && (dy == 1 || dy == -1)
    requires g.InGrid(ox, oy) && g.InGrid(Along(ox, dx, ex), Along(oy, dy, ey))
    requires 0 <= x <= ex && 0 <= y <= ey
    ensures g.InGrid(Along(ox, dx, x), Along(oy, dy, y))
    ensures Between(ox, dx, ex, Along(ox, dx, x)) && Between(oy, dy, ey, Along(oy, dy, y))
  {
  }

  /** A cell whose SEEN bit is set keeps it through a change that only sets SEEN bits. */
  lemma StaysSeen(a: Grid, b: Grid, x: int, y: int, lit: (int, int) -> bool)
    requires a.Valid() && b.Valid() && a.InGrid(x, y) && SeenOnly(a, b, lit) && Has(a, x, y, CELL_SEEN)
    ensures b.InGrid(x, y) && Has(b, x, y, CELL_SEEN)
  {
    SeenBit(Cell(a, x, y));
  }

  /** One visit inside the quadrant loop keeps the quadrant invariant. */
  lemma VisitStep(g0: Grid, g: Grid, g': Grid, open: (int, int) -> bool, ox: int, oy: int, dx: int, dy: int,
                  ex: nat, ey: nat, lw: bool, x: int, y: int)
    requires g0.Valid() && g.Valid() && g'.Valid() && (dx == 1 || dx == -1) && (dy == 1 || dy == -1)
    requires g0.InGrid(ox, oy) && g0.InGrid(Along(ox, dx, ex), Along(oy, dy, ey))
    requires 0 <= x <= ex && 0 <= y <= ey
    requires SeenOnly(g0, g, QuadLit(open, ox, oy, dx, dy, ex, ey, lw)) && OpenAgrees(g, open)
    requires g.InGrid(Along(ox, dx, x), Along(oy, dy, y))
    requires SeenOnly(g, g', Spot(Along(ox, dx, x), Along(oy, dy, y), lw || Has(g, Along(ox, dx, x), Along(oy, dy, y), CELL_OPEN)))
    ensures SeenOnly(g0, g', QuadLit(open, ox, oy, dx, dy, ex, ey, lw)) && OpenAgrees(g', open)
    ensures forall a, b :: g.InGrid(a, b) && Has(g, a, b, CELL_SEEN) ==> Has(g', a, b, CELL_SEEN)
  {
    AlongInBox(g0, ox, oy, dx, dy, ex, ey, x, y);
    var spot := Spot(Along(ox, dx, x), Along(oy, dy, y), lw || Has(g, Along(ox, dx, x), Along(oy, dy, y), CELL_OPEN));
    SeenKeeps(g, g', spot, open);
    SeenChain(g0, g, g', QuadLit(open, ox, oy, dx, dy, ex, ey, lw), spot, QuadLit(open, ox, oy, dx, dy, ex, ey, lw));
  }

  /**
   * One visit of check_quadrant at quadrant cell (x, y) of the box (ex, ey): marks stay in the
   * box, a cell right of the origin already SEEN stays SEEN, and the visit of (1, 0) under the
   * starting view with walls lit marks it.
   */
  method Step(g0: Grid, g: Grid, open: (int, int) -> bool, ox: int, oy: int, dx: int, dy: int, ex: nat, ey: nat,
              lw: bool, x: nat, y: nat, views: List.ListT<View>, cur: nat, ghost wasSeen: bool)
    returns (g': Grid, views': List.ListT<View>, cur': nat)
    requires g0.Valid() && g.Valid() && (dx == 1 || dx == -1) && (dy == 1 || dy == -1)
    requires g0.InGrid(ox, oy) && g0.InGrid(Along(ox, dx, ex), Along(oy, dy, ey))
    requires x <= ex && y <= ey && Holds(views) && cur <= views.fsize
    requires SeenOnly(g0, g, QuadLit(open, ox, oy, dx, dy, ex, ey, lw)) && OpenAgrees(g, open)
    requires wasSeen ==> ex >= 1 && Has(g, Along(ox, dx, 1), oy, CELL_SEEN)
    ensures g'.Valid() && Holds(views') && cur' <= views'.fsize && OpenAgrees(g', open)
    ensures SeenOnly(g0, g', QuadLit(open, ox, oy, dx, dy, ex, ey, lw))
    ensures wasSeen ==> Has(g', Along(ox, dx, 1), oy, CELL_SEEN)
    ensures (&& x == 1 && y == 0 && cur == 0 && views.fsize == 1 && ViewAt(views, 0) == FirstView(ex, ey)
             && lw && ey >= 1) ==>
            Has(g', Along(ox, dx, 1), oy, CELL_SEEN)
  {
    AlongInBox(g0, ox, oy, dx, dy, ex, ey, x, y);
    if x == 1 && y == 0 && ey >= 1 {
      FirstCellInside(ex, ey);
    }
    g', views', cur' := Visit(g, ox, oy, x, y, dx, dy, views, cur, lw);
    VisitStep(g0, g, g', open, ox, oy, dx, dy, ex, ey, lw, x, y);
    if wasSeen {
      StaysSeen(g, g', Along(ox, dx, 1), oy, Spot(Along(ox, dx, x), Along(oy, dy, y), lw || Has(g, Along(ox, dx, x), Along(oy, dy, y), CELL_OPEN)));
    }
  }

  /**
   * One row i of check_quadrant: cells (i-j, j) for j from max(i-ex, 0) to min(i, ey), visited
   * while the inner guard holds and the current view, restarted at the head of the list, is
   * still in the list. Marks only cells of the quadrant's box; on the first row of a scan whose
   * single view is the starting one, with walls lit, it marks the cell (1, 0).
   */
  method Row(g0: Grid, g: Grid, open: (int, int) -> bool, ox: int, oy: int, dx: int, dy: int, ex: nat, ey: nat,
             lw: bool, asWritten: bool, i: nat, views: List.ListT<View>) returns (g': Grid, views': List.ListT<View>)
    requires g0.Valid() && g.Valid() && (dx == 1 || dx == -1) && (dy == 1 || dy == -1)
    requires g0.InGrid(ox, oy) && g0.InGrid(Along(ox, dx, ex), Along(oy, dy, ey))
    requires 1 <= i <= ex + ey && Holds(views)
    requires SeenOnly(g0, g, QuadLit(open, ox, oy, dx, dy, ex, ey, lw)) && OpenAgrees(g, open)
    ensures g'.Valid() && Holds(views') && OpenAgrees(g', open)
    ensures SeenOnly(g0, g', QuadLit(open, ox, oy, dx, dy, ex, ey, lw))
    ensures asWritten && views.fsize != 0 ==> g' == g && views' == views
    ensures ex >= 1 && Has(g, Along(ox, dx, 1), oy, CELL_SEEN) ==> Has(g', Along(ox, dx, 1), oy, CELL_SEEN)
    ensures (&& i == 1 && !asWritten && lw && ex >= 1 && ey >= 1
             && views.fsize == 1 && ViewAt(views, 0) == FirstView(ex, ey)) ==>
            Has(g', Along(ox, dx, 1), oy, CELL_SEEN)
  {
    g', views' := g, views;
    var startJ := Max(i - ex, 0);
    var maxJ := Min(i, ey);
    assert 0 <= startJ && maxJ <= i && maxJ <= ey && i - startJ <= ex;
    var cur: nat := 0;
    var j := startJ;
    ghost var first := i == 1 && !asWritten && lw && ex >= 1 && ey >= 1
                       && views.fsize == 1 && ViewAt(views, 0) == FirstView(ex, ey);
    ghost var had := ex >= 1 && Has(g, Along(ox, dx, 1), oy, CELL_SEEN);
    while j != maxJ + 1 && InnerGuard(asWritten, views'.fsize) && cur != views'.fsize
      invariant startJ <= j <= maxJ + 1
      invariant g'.Valid() && Holds(views') && cur <= views'.fsize && OpenAgrees(g', open)
      invariant SeenOnly(g0, g', QuadLit(open, ox, oy, dx, dy, ex, ey, lw))
      invariant asWritten && views.fsize != 0 ==> g' == g && views' == views
      invariant j == startJ ==> views' == views && cur == 0
      invariant ((j > startJ && first) || had) ==> Has(g', Along(ox, dx, 1), oy, CELL_SEEN)
      decreases maxJ + 1 - j
    {
      ghost var wasSeen := (j > startJ && first) || had;
      g', views', cur := Step(g0, g', open, ox, oy, dx, dy, ex, ey, lw, i - j, j, views', cur, wasSeen);
      j := j + 1;
    }
  }

  /**
   * check_quadrant: rows i = 1 .. ex+ey of the quadrant while views are active. Marks only cells
   * of the quadrant's box that are OPEN or, with light_walls, any of them. With the guard as
   * written no cell is visited at all; with the intended guard the first cell (1, 0) is marked
   * when walls are lit and both extents are positive.
   */
  method Quadrant(g: Grid, open: (int, int) -> bool, ox: int, oy: int, dx: int, dy: int, ex: nat, ey: nat,
                  lw: bool, asWritten: bool) returns (g': Grid)
    requires g.Valid() && (dx == 1 || dx == -1) && (dy == 1 || dy == -1) && OpenAgrees(g, open)
    requires g.InGrid(ox, oy) && g.InGrid(Along(ox, dx, ex), Along(oy, dy, ey))
    ensures g'.Valid() && OpenAgrees(g', open)
    ensures SeenOnly(g, g', QuadLit(open, ox, oy, dx, dy, ex, ey, lw))
    ensures forall a, b :: g.InGrid(a, b) && Has(g, a, b, CELL_SEEN) ==> Has(g', a, b, CELL_SEEN)
    ensures asWritten ==> g' == g
    ensures !asWritten && lw && ex >= 1 && ey >= 1 ==> Has(g', Along(ox, dx, 1), oy, CELL_SEEN)
  {
    g' := g;
    var first := FirstView(ex, ey);
    var views := List.Append(List.Create(), first);
    assert views.Elements() == [Some(first)];
    assert Holds(views) by {
      assert views.data[0] == views.Elements()[0];
    }
    var maxI := ex + ey;
    var i := 1;
    ghost var live := !asWritten && lw && ex >= 1 && ey >= 1;
    while i != maxI + 1 && views.fsize != 0
      invariant 1 <= i <= maxI + 1
      invariant g'.Valid() && Holds(views) && OpenAgrees(g', open)
      invariant SeenOnly(g, g', QuadLit(open, ox, oy, dx, dy, ex, ey, lw))
      invariant asWritten ==> g' == g
      invariant i == 1 ==> views.fsize == 1 && ViewAt(views, 0) == first
      invariant i > 1 && live ==> Has(g', Along(ox, dx, 1), oy, CELL_SEEN)
      decreases maxI + 1 - i
    {
      g', views := Row(g, g', open, ox, oy, dx, dy, ex, ey, lw, asWritten, i, views);
      i := i + 1;
    }
    SeenKeeps(g, g', QuadLit(open, ox, oy, dx, dy, ex, ey, lw), open);
  }

  /** The four extents of the scan: to the map edge, cut at the radius when one is given. */
  datatype Extents = Extents(minx: nat, maxx: nat, miny: nat, maxy: nat)

  /** The extents of RLF_fov_permissive: each reaches the map edge or, for radius > 0, stops at the radius. */
  function Reach(g: Grid, ox: int, oy: int, radius: nat): (e: Extents)
    requires g.InGrid(ox, oy)
    ensures g.InGrid(ox - e.minx, oy - e.miny) && g.InGrid(ox + e.maxx, oy + e.maxy)
    ensures radius > 0 ==> e.minx <= radius && e.maxx <= radius && e.miny <= radius && e.maxy <= radius
    ensures radius > 0 ==> (e.minx == radius || e.minx == ox) && (e.maxx == radius || ox + e.maxx == g.width - 1)
    ensures radius > 0 ==> (e.miny == radius || e.miny == oy) && (e.maxy == radius || oy + e.maxy == g.height - 1)
    ensures radius == 0 ==> e.minx == ox && ox + e.maxx == g.width - 1 && e.miny == oy && oy + e.maxy == g.height - 1
  {
    if radius > 0 then Extents(Min(ox, radius), Min(g.width - ox - 1, radius), Min(oy, radius), Min(g.height - oy - 1, radius))
    else Extents(ox, g.width - ox - 1, oy, g.height - oy - 1)
  }

  /** What the permissive scan may mark: the origin, and in-range cells that are OPEN or, with light_walls, any. */
  function PermissiveLit(g: Grid, ox: int, oy: int, radius: nat, lw: bool): (lit: (int, int) -> bool)
    requires g.Valid()
    ensures forall x, y :: lit(x, y) <==>
      (x == ox && y == oy) || (g.InGrid(x, y) && (lw || IsOpen(g, x, y)) && (radius > 0 ==> Chebyshev(ox, oy, x, y) <= radius))
  {
    (x, y) => (x == ox && y == oy) || (g.InGrid(x, y) && (lw || IsOpen(g, x, y)) && (radius > 0 ==> Chebyshev(ox, oy, x, y) <= radius))
  }

  /** A quadrant's box lies inside the scan's range. */
  lemma QuadInRange(g: Grid, ox: int, oy: int, radius: nat, lw: bool, dx: int, dy: int, ex: nat, ey: nat)
    requires g.Valid() && g.InGrid(ox, oy) && (dx == 1 || dx == -1) && (dy == 1 || dy == -1)
    requires var e := Reach(g, ox, oy, radius);
      ex == (if dx == 1 then e.maxx else e.minx) && ey == (if dy == 1 then e.maxy else e.miny)
    ensures g.InGrid(Along(ox, dx, ex), Along(oy, dy, ey))
    ensures forall x, y :: g.InGrid(x, y) && QuadLit(OpenOf(g), ox, oy, dx, dy, ex, ey, lw)(x, y) ==>
      PermissiveLit(g, ox, oy, radius, lw)(x, y)
  {
  }

  /** A change confined to p is confined to any lit that covers p. */
  lemma SeenWeaken(a: Grid, b: Grid, p: (int, int) -> bool, lit: (int, int) -> bool)
    requires a.Valid() && b.Valid() && SeenOnly(a, b, p)
    requires forall x, y :: a.InGrid(x, y) && p(x, y) ==> lit(x, y)
    ensures SeenOnly(a, b, lit)
  {
  }

  /**
   * One quadrant (dx, dy) of the scan, with the extents Reach gives it: the marks stay within
   * PermissiveLit, SEEN bits already set stay set, and the cell right of the origin is marked
   * by the first quadrant when walls are lit and the guard is the intended one.
   */
  method Sweep(g: Grid, gc: Grid, ox: int, oy: int, radius: nat, lw: bool, dx: int, dy: int, asWritten: bool)
    returns (g': Grid)
    requires g.Valid() && gc.Valid() && g.InGrid(ox, oy) && (dx == 1 || dx == -1) && (dy == 1 || dy == -1)
    requires SeenOnly(g, gc, PermissiveLit(g, ox, oy, radius, lw)) && OpenAgrees(gc, OpenOf(g))
    ensures g'.Valid() && OpenAgrees(g', OpenOf(g))
    ensures SeenOnly(g, g', PermissiveLit(g, ox, oy, radius, lw))
    ensures forall a, b :: gc.InGrid(a, b) && Has(gc, a, b, CELL_SEEN) ==> Has(g', a, b, CELL_SEEN)
    ensures asWritten ==> g' == gc
    ensures !asWritten && lw && dx == 1 && dy == 1 && g.InGrid(ox + 1, oy + 1) ==> Has(g', ox + 1, oy, CELL_SEEN)
  {
    var e := Reach(g, ox, oy, radius);
    var ex := if dx == 1 then e.maxx else e.minx;
    var ey := if dy == 1 then e.maxy else e.miny;
    QuadInRange(g, ox, oy, radius, lw, dx, dy, ex, ey);
    var lit := PermissiveLit(g, ox, oy, radius, lw);
    var quad := QuadLit(OpenOf(g), ox, oy, dx, dy, ex, ey, lw);
    g' := Quadrant(gc, OpenOf(g), ox, oy, dx, dy, ex, ey, lw, asWritten);
    SeenChain(g, gc, g', lit, quad, lit);
  }

  /** RLF_fov_permissive: mark the origin, then scan the four quadrants. */
  method Run(g: Grid, ox: int, oy: int, radius: nat, lw: bool, asWritten: bool) returns (r: int, g': Grid)
    requires g.Valid() && g.InGrid(ox, oy)
    ensures r == SUCCESS && g'.Valid()
    ensures SeenOnly(g, g', PermissiveLit(g, ox, oy, radius, lw))
    ensures Has(g', ox, oy, CELL_SEEN)
    ensures asWritten ==> SeenOnly(g, g', OriginOnly(ox, oy))
    ensures !asWritten && lw && g.InGrid(ox + 1, oy + 1) ==> Has(g', ox + 1, oy, CELL_SEEN)
  {
    var g0 := See(g, ox, oy);
    SeenKeeps(g, g0, Spot(ox, oy, true), OpenOf(g));
    SeenWeaken(g, g0, Spot(ox, oy, true), PermissiveLit(g, ox, oy, radius, lw));
    SeenWeaken(g, g0, Spot(ox, oy, true), OriginOnly(ox, oy));
    var g1 := Sweep(g, g0, ox, oy, radius, lw, 1, 1, asWritten);
    var g2 := Sweep(g, g1, ox, oy, radius, lw, 1, -1, asWritten);
    var g3 := Sweep(g, g2, ox, oy, radius, lw, -1, -1, asWritten);
    g' := Sweep(g, g3, ox, oy, radius, lw, -1, 1, asWritten);
    r := SUCCESS;
  }

  /**
   * RLF_fov_permissive with check_quadrant's inner guard as evidently intended (run while views
   * are active): it marks the origin, marks only in-range cells that are OPEN or (light_walls)
   * any, and with walls lit and room on both axes it marks the cell right of the origin.
   */
  method Permissive(g: Grid, ox: int, oy: int, radius: nat, lw: bool) returns (r: int, g': Grid)
    requires g.Valid() && g.InGrid(ox, oy)
    ensures r == SUCCESS && g'.Valid()
    ensures SeenOnly(g, g', PermissiveLit(g, ox, oy, radius, lw))
    ensures Has(g', ox, oy, CELL_SEEN)
    ensures lw && g.InGrid(ox + 1, oy + 1) ==> Has(g', ox + 1, oy, CELL_SEEN)
  {
    r, g' := Run(g, ox, oy, radius, lw, false);
  }

  /**
   * RLF_fov_permissive as written: the inner guard `!RLF_list_size(active_views)` is false
   * whenever a view is active, so no quadrant cell is ever visited and only the origin is marked;
   * the cell right of the origin keeps its mask.
   */
  method PermissiveAsWritten(g: Grid, ox: int, oy: int, radius: nat, lw: bool) returns (r: int, g': Grid)
    requires g.Valid() && g.InGrid(ox, oy)
    ensures r == SUCCESS && g'.Valid()
    ensures SeenOnly(g, g', OriginOnly(ox, oy)) && Has(g', ox, oy, CELL_SEEN)
    ensures g.InGrid(ox + 1, oy) ==> Cell(g', ox + 1, oy) == Cell(g, ox + 1, oy)
  {
    r, g' := Run(g, ox, oy, radius, lw, true);
  }
}
