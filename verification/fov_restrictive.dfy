/**
 * Restrictive precise-angle shadowcasting (src/fov_restrictive.c). Each quadrant is scanned as
 * two octants, one led by the vertical edge and one by the horizontal edge; the C code writes the
 * two out separately, and the model writes one octant scan over a frame (a, b) where lines are
 * indexed by b and cells along a line by a, with `swap` telling which of them is x.
 *
 * Unlike the other algorithms this one reads SEEN, which it writes itself, so the grid is
 * threaded through every step instead of being painted at the end. The C slopes are doubles;
 * they are modelled as reals.
 */
module FovRestrictive {
  import opened Util
  import opened Defines
  import opened Grid
  import opened Store
  import opened Fov

  /** A blocked slope interval [start, end] left by a visible opaque cell. */
  datatype Obstacle = Obstacle(start: real, end: real)

  /**
   * One octant scan: a line runs along a in steps of da, lines advance along b in steps of db,
   * and (a, b) is (y, x) when `swap` holds; (pa, pb) is the origin in that frame.
   */
  datatype Octant = Octant(swap: bool, da: int, db: int, pa: int, pb: int, lw: bool)
  {
    predicate Ok()
    {
      (da == 1 || da == -1) && (db == 1 || db == -1)
    }
  }

  /** The state an octant scan carries: the grid, minAngle and the obstacle arrays. */
  datatype Scan = Scan(g: Grid, minAngle: real, obstacles: seq<Obstacle>)

  /** The map cell at frame position (a, b). */
  function At(o: Octant, a: int, b: int): Step
  {
    if o.swap then Step(b, a) else Step(a, b)
  }

  /** The grid's extent along a and along b. */
  function ALen(g: Grid, o: Octant): nat
  {
    if o.swap then g.height else g.width
  }

  function BLen(g: Grid, o: Octant): nat
  {
    if o.swap then g.width else g.height
  }

  /** The cells of line b with a in [lo, hi]. */
  predicate OnLine(o: Octant, b: int, lo: int, hi: int, x: int, y: int)
  {
    if o.swap then x == b && lo <= y <= hi else y == b && lo <= x <= hi
  }

  /** A mask after RLFL_set_flag(CELL_FOV). */
  function Lit(v: bv16): bv16
  {
    v | CELL_FOV
  }

  /** A lit opaque mask after RLFL_clear_flag(CELL_SEEN): MEMO stays, SEEN goes. */
  function Dim(v: bv16): bv16
  {
    (v | CELL_MEMO) & !CELL_SEEN
  }

  predicate Opaque(v: bv16)
  {
    v & CELL_OPEN == 0
  }

  /**
   * What a visit does to a cell mask: it sets SEEN|MEMO, and an opaque cell with walls unlit
   * then loses SEEN again, keeping MEMO.
   */
  predicate Outcome(v0: bv16, v: bv16, lw: bool)
  {
    v == if !lw && Opaque(v0) then Dim(v0) else Lit(v0)
  }

  /** Outcomes compose: a cell visited twice ends in an outcome of the first mask. */
  lemma OutcomeTrans(v0: bv16, v1: bv16, v2: bv16, lw: bool)
    requires v1 == v0 || Outcome(v0, v1, lw)
    requires v2 == v1 || Outcome(v1, v2, lw)
    ensures v2 == v0 || Outcome(v0, v2, lw)
  {
    if v1 != v0 && v2 != v1 {
      OutcomeAlgebra(v0);
    }
  }

  /** With walls unlit, a visited opaque cell ends without SEEN; any other visited cell ends SEEN. */
  lemma OutcomeSeen(v0: bv16, v: bv16, lw: bool)
    requires Outcome(v0, v, lw)
    ensures v & CELL_SEEN != 0 <==> lw || !Opaque(v0)
    ensures v & CELL_MEMO != 0 && Opaque(v) == Opaque(v0)
  {
    OpaqueKept(v0);
  }

  /** The two outcomes absorb each other and keep OPEN. */
  lemma OutcomeAlgebra(v: bv16)
    ensures Lit(Lit(v)) == Lit(v) && Dim(Lit(v)) == Dim(v)
    ensures Lit(Dim(v)) == Lit(v) && Dim(Dim(v)) == Dim(v)
    ensures Opaque(Lit(v)) == Opaque(v) && Opaque(Dim(v)) == Opaque(v)
  {
    LitLit(v);
    DimLit(v);
    LitDim(v);
    DimDim(v);
    OpaqueKept(v);
  }

  lemma LitLit(v: bv16)
    ensures Lit(Lit(v)) == Lit(v)
  {
  }

  lemma DimLit(v: bv16)
    ensures Dim(Lit(v)) == Dim(v)
  {
  }

  lemma LitDim(v: bv16)
    ensures Lit(Dim(v)) == Lit(v)
  {
  }

  lemma DimDim(v: bv16)
    ensures Dim(Dim(v)) == Dim(v)
  {
  }

  lemma ClearSeenOfLit(v: bv16)
    ensures Lit(v) & !CELL_SEEN == Dim(v)
  {
  }

  lemma OpaqueKept(v: bv16)
    ensures Opaque(Lit(v)) == Opaque(v) && Opaque(Dim(v)) == Opaque(v)
  {
  }

  /** `after` is `before` with an outcome applied to some cells of line b between lo and hi. */
  ghost predicate MarksIn(before: Grid, after: Grid, o: Octant, b: int, lo: int, hi: int)
    requires before.Valid() && after.Valid()
  {
    && after.width == before.width && after.height == before.height && after.pathMaps == before.pathMaps
    && forall x, y :: before.InGrid(x, y) ==>
         Cell(after, x, y) == Cell(before, x, y) || (OnLine(o, b, lo, hi, x, y) && Outcome(Cell(before, x, y), Cell(after, x, y), o.lw))
  }

  lemma MarksInTrans(g0: Grid, g1: Grid, g2: Grid, o: Octant, b: int, lo1: int, hi1: int, lo2: int, hi2: int, lo: int, hi: int)
    requires g0.Valid() && g1.Valid() && g2.Valid()
    requires MarksIn(g0, g1, o, b, lo1, hi1) && MarksIn(g1, g2, o, b, lo2, hi2)
    requires lo <= lo1 && lo <= lo2 && hi1 <= hi && hi2 <= hi
    ensures MarksIn(g0, g2, o, b, lo, hi)
  {
    forall x, y | g0.InGrid(x, y)
      ensures Cell(g2, x, y) == Cell(g0, x, y) || (OnLine(o, b, lo, hi, x, y) && Outcome(Cell(g0, x, y), Cell(g2, x, y), o.lw))
    {
      OutcomeTrans(Cell(g0, x, y), Cell(g1, x, y), Cell(g2, x, y), o.lw);
    }
  }

  /** The ring of cells at Chebyshev distance lo or more from (ox, oy), and at most radius when radius > 0. */
  predicate InRing(ox: int, oy: int, lo: int, radius: nat, x: int, y: int)
  {
    lo <= Chebyshev(ox, oy, x, y) && (radius > 0 ==> Chebyshev(ox, oy, x, y) <= radius)
  }

  /**
   * `after` is `before` with an outcome applied to some cells of the ring; the origin, which only
   * the entry point marks, is treated as if walls were lit.
   */
  ghost predicate MarksOnly(before: Grid, after: Grid, ox: int, oy: int, lo: int, radius: nat, lw: bool)
    requires before.Valid() && after.Valid()
  {
    && after.width == before.width && after.height == before.height && after.pathMaps == before.pathMaps
    && forall x, y :: before.InGrid(x, y) ==>
         Cell(after, x, y) == Cell(before, x, y)
         || (InRing(ox, oy, lo, radius, x, y) && Outcome(Cell(before, x, y), Cell(after, x, y), lw || (x == ox && y == oy)))
  }

  lemma MarksOnlyTrans(g0: Grid, g1: Grid, g2: Grid, ox: int, oy: int, lo1: int, lo2: int, lo: int, radius: nat, lw: bool)
    requires g0.Valid() && g1.Valid() && g2.Valid()
    requires MarksOnly(g0, g1, ox, oy, lo1, radius, lw) && MarksOnly(g1, g2, ox, oy, lo2, radius, lw)
    requires lo <= lo1 && lo <= lo2
    ensures MarksOnly(g0, g2, ox, oy, lo, radius, lw)
  {
    forall x, y | g0.InGrid(x, y)
      ensures Cell(g2, x, y) == Cell(g0, x, y)
              || (InRing(ox, oy, lo, radius, x, y) && Outcome(Cell(g0, x, y), Cell(g2, x, y), lw || (x == ox && y == oy)))
    {
      OutcomeTrans(Cell(g0, x, y), Cell(g1, x, y), Cell(g2, x, y), lw || (x == ox && y == oy));
    }
  }

  /** The cells of iteration it all lie at Chebyshev distance it from the origin. */
  lemma LineInRing(g0: Grid, g1: Grid, o: Octant, it: nat, b: int, radius: nat)
    requires g0.Valid() && g1.Valid() && o.Ok() && 1 <= it && (radius == 0 || it <= radius)
    requires b == LineOf(o, it)
    requires MarksIn(g0, g1, o, b, o.pa - it, o.pa + it)
    ensures MarksOnly(g0, g1, At(o, o.pa, o.pb).x, At(o, o.pa, o.pb).y, it, radius, o.lw)
  {
  }

  /** The b coordinate of the line scanned at iteration it. */
  function LineOf(o: Octant, it: int): int
  {
    if o.db == 1 then o.pb + it else o.pb - it
  }

  // ---------------------------------------------------------------------
  // Visibility of one cell

  function SlopesPerCell(it: nat): real
  {
    1.0 / ((it + 1) as real)
  }

  /** Whether obstacle ob hides a cell: its centre slope for an open cell, its whole interval for an opaque one. */
  predicate Blocks(ob: Obstacle, open: bool, ss: real, cs: real, es: real)
  {
    if open then cs > ob.start && cs < ob.end else ss >= ob.start && es <= ob.end
  }

  /** Both neighbours towards the origin on the previous line (the second only when on the grid) are neither SEEN nor OPEN. */
  predicate CornerShut(g: Grid, o: Octant, a: int, b: int)
    requires g.Valid() && 0 <= a < ALen(g, o) && 0 <= b - o.db < BLen(g, o)
  {
    var n1 := At(o, a, b - o.db);
    && !Has(g, n1.x, n1.y, CELL_SEEN | CELL_OPEN)
    && 0 <= a - o.da < ALen(g, o)
    && var n2 := At(o, a - o.da, b - o.db);
       !Has(g, n2.x, n2.y, CELL_SEEN | CELL_OPEN)
  }

  /** The `idx` loop over the obstacles of the last line, as written: each round tests one obstacle, then the corner. */
  function ObstacleLoop(g: Grid, o: Octant, a: int, b: int, obs: seq<Obstacle>, idx: nat, n: nat,
                        open: bool, ss: real, cs: real, es: real): bool
    requires g.Valid() && 0 <= a < ALen(g, o) && 0 <= b - o.db < BLen(g, o) && idx <= n <= |obs|
    decreases n - idx
  {
    if idx == n then true
    else if Blocks(obs[idx], open, ss, cs, es) || CornerShut(g, o, a, b) then false
    else ObstacleLoop(g, o, a, b, obs, idx + 1, n, open, ss, cs, es)
  }

  /** The loop finds the cell visible iff it has nothing left to test or no remaining obstacle and not the corner hides it. */
  lemma {:induction false} ObstacleLoopIff(g: Grid, o: Octant, a: int, b: int, obs: seq<Obstacle>, idx: nat, n: nat,
                                           open: bool, ss: real, cs: real, es: real)
    requires g.Valid() && 0 <= a < ALen(g, o) && 0 <= b - o.db < BLen(g, o) && idx <= n <= |obs|
    ensures ObstacleLoop(g, o, a, b, obs, idx, n, open, ss, cs, es) <==>
      idx == n || (!CornerShut(g, o, a, b) && forall k :: idx <= k < n ==> !Blocks(obs[k], open, ss, cs, es))
    decreases n - idx
  {
    if idx < n {
      ObstacleLoopIff(g, o, a, b, obs, idx + 1, n, open, ss, cs, es);
    }
  }

  /** A cell is hidden only when the last line left obstacles, it is not SEEN, and the obstacle loop says so. */
  function Visible(g: Grid, o: Octant, a: int, b: int, obs: seq<Obstacle>, n: nat, ss: real, cs: real, es: real): bool
    requires g.Valid() && 0 <= a < ALen(g, o) && 0 <= b < BLen(g, o) && 0 <= b - o.db < BLen(g, o) && n <= |obs|
  {
    var c := At(o, a, b);
    if n > 0 && !Has(g, c.x, c.y, CELL_SEEN) then ObstacleLoop(g, o, a, b, obs, 0, n, Has(g, c.x, c.y, CELL_OPEN), ss, cs, es)
    else true
  }

  /** Visibility without the loop: hidden iff obstacles are pending, the cell is unseen, and the corner or one obstacle hides it. */
  lemma VisibleIff(g: Grid, o: Octant, a: int, b: int, obs: seq<Obstacle>, n: nat, ss: real, cs: real, es: real)
    requires g.Valid() && 0 <= a < ALen(g, o) && 0 <= b < BLen(g, o) && 0 <= b - o.db < BLen(g, o) && n <= |obs|
    ensures var c := At(o, a, b);
      !Visible(g, o, a, b, obs, n, ss, cs, es) <==>
        && n > 0 && !Has(g, c.x, c.y, CELL_SEEN)
        && (CornerShut(g, o, a, b) || exists k :: 0 <= k < n && Blocks(obs[k], Has(g, c.x, c.y, CELL_OPEN), ss, cs, es))
  {
    var c := At(o, a, b);
    ObstacleLoopIff(g, o, a, b, obs, 0, n, Has(g, c.x, c.y, CELL_OPEN), ss, cs, es);
  }

  // ---------------------------------------------------------------------
  // Scanning

  /** The end slope of cell pc of iteration it. */
  function CellEnd(pc: int, it: nat): real
  {
    pc as real * SlopesPerCell(it) + SlopesPerCell(it)
  }

  /**
   * One cell: if visible it is revealed (done = false), otherwise nothing changes. The slopes of
   * cell pc are [pc * spc, pc * spc + spc] with centre pc * spc + spc / 2, for spc = SlopesPerCell(it).
   */
  function VisitCell(sc: Scan, o: Octant, it: nat, a: int, b: int, pc: int, n: nat): (r: (Scan, bool))
    requires sc.g.Valid() && o.Ok()
    requires 0 <= a < ALen(sc.g, o) && 0 <= b < BLen(sc.g, o) && 0 <= b - o.db < BLen(sc.g, o) && n <= |sc.obstacles|
    ensures r.0.g.Valid() && MarksIn(sc.g, r.0.g, o, b, a, a)
    ensures !r.1 ==> r.0 == sc
    ensures sc.obstacles <= r.0.obstacles && |r.0.obstacles| <= |sc.obstacles| + 1
    ensures sc.minAngle < CellEnd(pc, it) ==> sc.minAngle <= r.0.minAngle < CellEnd(pc + 1, it)
  {
    var spc := SlopesPerCell(it);
    var ss := pc as real * spc;
    var cs := ss + spc * 0.5;
    var es := ss + spc;
    if !Visible(sc.g, o, a, b, sc.obstacles, n, ss, cs, es) then (sc, false)
    else (Reveal(sc, o, a, b, ss, es), true)
  }

  /**
   * A visible cell is marked FOV; an opaque one then either pushes minAngle to its end slope
   * (when minAngle already reaches its start) or records the obstacle [ss, es], and loses SEEN
   * again when walls are not lit.
   */
  function Reveal(sc: Scan, o: Octant, a: int, b: int, ss: real, es: real): (r: Scan)
    requires sc.g.Valid() && 0 <= a < ALen(sc.g, o) && 0 <= b < BLen(sc.g, o)
    ensures r.g.Valid() && MarksIn(sc.g, r.g, o, b, a, a)
    ensures sc.obstacles <= r.obstacles && |r.obstacles| <= |sc.obstacles| + 1
    ensures sc.minAngle < es ==> sc.minAngle <= r.minAngle <= es
  {
    var c := At(o, a, b);
    var g' := RevealCell(sc.g, o, a, b);
    if Has(sc.g, c.x, c.y, CELL_OPEN) then sc.(g := g')
    else if sc.minAngle >= ss then sc.(g := g', minAngle := es)
    else sc.(g := g', obstacles := sc.obstacles + [Obstacle(ss, es)])
  }

  /** The grid half of Reveal: the cell is lit, and an opaque one seen without lit walls is dimmed again. */
  function RevealCell(g: Grid, o: Octant, a: int, b: int): (r: Grid)
    requires g.Valid() && 0 <= a < ALen(g, o) && 0 <= b < BLen(g, o)
    ensures r.Valid() && MarksIn(g, r, o, b, a, a)
  {
    var c := At(o, a, b);
    var g1 := Mark(g, c.x, c.y);
    OpaqueKept(Cell(g, c.x, c.y));
    if Has(g, c.x, c.y, CELL_OPEN) || o.lw then g1
    else
      ClearSeenOfLit(Cell(g, c.x, c.y));
      WithCell(g1, c.x, c.y, Cell(g1, c.x, c.y) & !CELL_SEEN)
  }


  /** The cells of the line from a onwards that the scan still reaches inside [lo, hi]. */
  function Left(o: Octant, a: int, lo: int, hi: int): nat
  {
    if a < lo || a > hi then 0 else if o.da == 1 then hi + 1 - a else a + 1 - lo
  }

  /**
   * The inner `for` loop: cells a, a+da, ... while inside [lo, hi], with pc counting along; the
   * boolean says whether any cell was visible.
   */
  function ScanLine(sc: Scan, o: Octant, it: nat, b: int, a: int, pc: int, n: nat, lo: int, hi: int): (r: (Scan, bool))
    requires sc.g.Valid() && o.Ok() && 0 <= lo && hi < ALen(sc.g, o)
    requires 0 <= b < BLen(sc.g, o) && 0 <= b - o.db < BLen(sc.g, o) && n <= |sc.obstacles|
    ensures r.0.g.Valid() && MarksIn(sc.g, r.0.g, o, b, lo, hi)
    ensures !r.1 ==> r.0 == sc
    ensures sc.obstacles <= r.0.obstacles && |r.0.obstacles| <= |sc.obstacles| + Left(o, a, lo, hi)
    ensures sc.minAngle < CellEnd(pc, it) ==> sc.minAngle <= r.0.minAngle
    decreases Left(o, a, lo, hi)
  {
    if a < lo || a > hi then (sc, false)
    else
      var v := VisitCell(sc, o, it, a, b, pc, n);
      var w := ScanLine(v.0, o, it, b, a + o.da, pc + 1, n, lo, hi);
      MarksInTrans(sc.g, v.0.g, w.0.g, o, b, a, a, lo, hi, lo, hi);
      (w.0, v.1 || w.1)
  }

  /** The lines the octant can still reach from line b before leaving the grid. */
  function LinesLeft(g: Grid, o: Octant, b: int): nat
  {
    if b < 0 || b >= BLen(g, o) then 0 else if o.db == 1 then BLen(g, o) - b else b + 1
  }

  /** The first cell of a line starts at or before minAngle and ends after it. */
  lemma FirstCellBelow(m: real, it: nat)
    requires 0.0 <= m
    ensures m < CellEnd(Trunc(m / SlopesPerCell(it)), it)
  {
    var spc := SlopesPerCell(it);
    var q := m / spc;
    var pc := Trunc(q);
    assert q < pc as real + 1.0;
    assert m == q * spc;
    assert CellEnd(pc, it) == (pc as real + 1.0) * spc;
  }

  /**
   * One pass of the `while (!done)` body on line b = LineOf(o, it): the first cell is the one
   * minAngle falls in, the cells run over [pa - it, pa + it] clipped to the grid. The boolean says
   * whether any cell was visible.
   */
  function Line(sc: Scan, o: Octant, it: nat, b: int, radius: nat): (r: (Scan, bool))
    requires sc.g.Valid() && o.Ok() && 1 <= it && (radius == 0 || it <= radius) && 0.0 <= sc.minAngle
    requires 0 <= o.pa < ALen(sc.g, o) && 0 <= o.pb < BLen(sc.g, o) && 0 <= b < BLen(sc.g, o) && b == LineOf(o, it)
    ensures r.0.g.Valid() && r.0.g.width == sc.g.width && r.0.g.height == sc.g.height
    ensures MarksOnly(sc.g, r.0.g, At(o, o.pa, o.pb).x, At(o, o.pa, o.pb).y, it, radius, o.lw)
    ensures sc.minAngle <= r.0.minAngle
    ensures sc.obstacles <= r.0.obstacles && |r.0.obstacles| <= |sc.obstacles| + ALen(sc.g, o)
  {
    var spc := SlopesPerCell(it);
    var pc := Trunc(sc.minAngle / spc);
    var lo, hi := Max(0, o.pa - it), Min(ALen(sc.g, o) - 1, o.pa + it);
    FirstCellBelow(sc.minAngle, it);
    var v := ScanLine(sc, o, it, b, o.pa + pc * o.da, pc, |sc.obstacles|, lo, hi);
    LineInRing(sc.g, v.0.g, o, it, b, radius);
    v
  }

  /**
   * The `while (!done)` loop from iteration it on: scan the line, then stop when nothing was
   * visible, at iteration max_radius, past the grid's edge, or once minAngle is 1.
   */
  function Lines(sc: Scan, o: Octant, it: nat, b: int, radius: nat): (r: Scan)
    requires sc.g.Valid() && o.Ok() && 1 <= it && (radius == 0 || it <= radius) && 0.0 <= sc.minAngle
    requires 0 <= o.pa < ALen(sc.g, o) && 0 <= o.pb < BLen(sc.g, o) && 0 <= b < BLen(sc.g, o) && b == LineOf(o, it)
    ensures r.g.Valid() && MarksOnly(sc.g, r.g, At(o, o.pa, o.pb).x, At(o, o.pa, o.pb).y, it, radius, o.lw)
    ensures sc.minAngle <= r.minAngle
    ensures |r.obstacles| <= |sc.obstacles| + Mul(LinesLeft(sc.g, o, b), ALen(sc.g, o))
    decreases LinesLeft(sc.g, o, b)
  {
    var v := Line(sc, o, it, b, radius);
    if !v.1 || it == radius || !(0 <= b + o.db < BLen(sc.g, o)) || v.0.minAngle == 1.0 then
      MulAtLeast(LinesLeft(sc.g, o, b), ALen(sc.g, o));
      v.0
    else
      var w := Lines(v.0, o, it + 1, b + o.db, radius);
      LinesCompose(sc, v.0, w, o, it, b, radius);
      w
  }

  /** The facts about one line and about the lines after it combine into the facts about all of them. */
  lemma LinesCompose(sc: Scan, v: Scan, w: Scan, o: Octant, it: nat, b: int, radius: nat)
    requires sc.g.Valid() && v.g.Valid() && w.g.Valid() && o.Ok()
    requires 0 <= b < BLen(sc.g, o) && 0 <= b + o.db < BLen(sc.g, o)
    requires v.g.width == sc.g.width && v.g.height == sc.g.height
    requires MarksOnly(sc.g, v.g, At(o, o.pa, o.pb).x, At(o, o.pa, o.pb).y, it, radius, o.lw)
    requires MarksOnly(v.g, w.g, At(o, o.pa, o.pb).x, At(o, o.pa, o.pb).y, it + 1, radius, o.lw)
    requires sc.minAngle <= v.minAngle <= w.minAngle
    requires |v.obstacles| <= |sc.obstacles| + ALen(sc.g, o)
    requires |w.obstacles| <= |v.obstacles| + Mul(LinesLeft(v.g, o, b + o.db), ALen(v.g, o))
    ensures MarksOnly(sc.g, w.g, At(o, o.pa, o.pb).x, At(o, o.pa, o.pb).y, it, radius, o.lw)
    ensures sc.minAngle <= w.minAngle
    ensures |w.obstacles| <= |sc.obstacles| + Mul(LinesLeft(sc.g, o, b), ALen(sc.g, o))
  {
    MarksOnlyTrans(sc.g, v.g, w.g, At(o, o.pa, o.pb).x, At(o, o.pa, o.pb).y, it, it + 1, it, radius, o.lw);
    assert LinesLeft(v.g, o, b + o.db) == LinesLeft(sc.g, o, b + o.db) && ALen(v.g, o) == ALen(sc.g, o);
    ObstacleStep(sc.g, o, b, |sc.obstacles|, |v.obstacles|, |w.obstacles|);
  }

  /** One more line adds at most one line's worth of obstacles. */
  lemma ObstacleStep(g: Grid, o: Octant, b: int, n0: int, n1: int, n2: int)
    requires o.Ok() && 0 <= b < BLen(g, o) && 0 <= b + o.db < BLen(g, o)
    requires n1 <= n0 + ALen(g, o) && n2 <= n1 + Mul(LinesLeft(g, o, b + o.db), ALen(g, o))
    ensures n2 <= n0 + Mul(LinesLeft(g, o, b), ALen(g, o))
  {
    assert LinesLeft(g, o, b) == LinesLeft(g, o, b + o.db) + 1;
  }

  lemma MulAtLeast(n: nat, a: nat)
    requires n >= 1
    ensures Mul(n, a) >= a
  {
  }

  /**
   * One octant with fresh obstacle arrays and minAngle 0: nothing when its first line is off the
   * grid. It marks only ring cells, and records at most width*height obstacles.
   */
  function OctantScan(g: Grid, o: Octant, radius: nat): (r: Scan)
    requires g.Valid() && o.Ok() && 0 <= o.pa < ALen(g, o) && 0 <= o.pb < BLen(g, o)
    ensures r.g.Valid() && MarksOnly(g, r.g, At(o, o.pa, o.pb).x, At(o, o.pa, o.pb).y, 1, radius, o.lw)
    ensures |r.obstacles| <= |g.cells|
  {
    var sc := Scan(g, 0.0, []);
    if !(0 <= o.pb + o.db < BLen(g, o)) then sc
    else
      var r := Lines(sc, o, 1, o.pb + o.db, radius);
      ObstacleRoom(g, o, o.pb + o.db);
      r
  }

  /** No octant has more lines than the grid has rows (or columns), nor more cells per line. */
  lemma ObstacleRoom(g: Grid, o: Octant, b: int)
    requires g.Valid()
    ensures Mul(LinesLeft(g, o, b), ALen(g, o)) <= |g.cells|
  {
    MulIsProduct(g.width, g.height);
    MulIsProduct(LinesLeft(g, o, b), ALen(g, o));
    MulMonotone(LinesLeft(g, o, b), BLen(g, o), ALen(g, o));
  }

  /** maxObstacles as the C sizes each octant's obstacle arrays: width*height/7. */
  function MaxObstacles(g: Grid): int
  {
    (g.width * g.height) / 7
  }

  /**
   * The arrays can be too small for what an octant records: on a 2x2 map with the origin at
   * (0, 0), (0, 1) open and (1, 1) opaque, the first octant of the first quadrant records an
   * obstacle for (1, 1) while maxObstacles is 0, so `startAngle[0]` is written out of bounds.
   */
  lemma ObstacleArraysOverflow(g: Grid, radius: nat, lw: bool)
    requires g.Valid() && g.width == 2 && g.height == 2
    requires Has(g, 0, 1, CELL_OPEN) && !Has(g, 1, 1, CELL_OPEN)
    ensures |OctantScan(Mark(g, 0, 0), Octant(false, 1, 1, 0, 0, lw), radius).obstacles| == 1 > MaxObstacles(g) == 0
  {
    var o := Octant(false, 1, 1, 0, 0, lw);
    var g0 := Mark(g, 0, 0);
    FovMarkKeepsOtherBits(Cell(g, 0, 0));
    var v := OverflowLine(g0, o);
    OverflowLineIsLast(g0, o, radius, v);
  }

  /** The first line of the 2x2 example ends with the one obstacle recorded. */
  lemma OverflowLine(g0: Grid, o: Octant) returns (v: Scan)
    requires g0.Valid() && g0.width == 2 && g0.height == 2
    requires Has(g0, 0, 1, CELL_OPEN) && !Has(g0, 1, 1, CELL_OPEN)
    requires o == Octant(false, 1, 1, 0, 0, o.lw)
    ensures ScanLine(Scan(g0, 0.0, []), o, 1, 1, 0, 0, 0, 0, 1).0 == v && v.obstacles == [Obstacle(0.5, 1.0)]
  {
    var v1 := OverflowFirstCell(g0, o);
    var v2 := OverflowSecondCell(v1.g, o);
    assert ScanLine(v2, o, 1, 1, 2, 2, 0, 0, 1) == (v2, false);
    assert ScanLine(v1, o, 1, 1, 1, 1, 0, 0, 1).0 == v2;
    v := v2;
  }

  /** The line below the first is off the 2x2 map, so the octant ends with the first line's obstacles. */
  lemma OverflowLineIsLast(g0: Grid, o: Octant, radius: nat, v: Scan)
    requires g0.Valid() && g0.width == 2 && g0.height == 2
    requires o == Octant(false, 1, 1, 0, 0, o.lw)
    requires ScanLine(Scan(g0, 0.0, []), o, 1, 1, 0, 0, 0, 0, 1).0 == v
    ensures OctantScan(g0, o, radius).obstacles == v.obstacles
  {
    FirstLineSlopes();
    assert Line(Scan(g0, 0.0, []), o, 1, 1, radius).0 == v;
  }

  /** Cell (0, 1) of the 2x2 example: open, so it is marked and nothing else changes. */
  lemma OverflowFirstCell(g0: Grid, o: Octant) returns (v: Scan)
    requires g0.Valid() && g0.width == 2 && g0.height == 2 && Has(g0, 0, 1, CELL_OPEN)
    requires o == Octant(false, 1, 1, 0, 0, o.lw)
    ensures v == Scan(Mark(g0, 0, 1), 0.0, []) && VisitCell(Scan(g0, 0.0, []), o, 1, 0, 1, 0, 0) == (v, true)
    ensures v.g.Valid() && v.g.width == 2 && v.g.height == 2
  {
    FovMarkKeepsOtherBits(Cell(g0, 0, 1));
    v := Scan(Mark(g0, 0, 1), 0.0, []);
  }

  /** Cell (1, 1) of the 2x2 example: opaque, starting past minAngle 0, so it records [0.5, 1.0]. */
  lemma OverflowSecondCell(g1: Grid, o: Octant) returns (v: Scan)
    requires g1.Valid() && g1.width == 2 && g1.height == 2 && !Has(g1, 1, 1, CELL_OPEN)
    requires o == Octant(false, 1, 1, 0, 0, o.lw)
    ensures VisitCell(Scan(g1, 0.0, []), o, 1, 1, 1, 1, 0) == (v, true) && v.obstacles == [Obstacle(0.5, 1.0)]
  {
    FovMarkKeepsOtherBits(Cell(g1, 1, 1));
    FirstLineSlopes();
    v := VisitCell(Scan(g1, 0.0, []), o, 1, 1, 1, 1, 0).0;
  }

  /** The slopes of the first line: half a slope per cell, the first cell is cell 0, cell 1 spans [0.5, 1.0]. */
  lemma FirstLineSlopes()
    ensures SlopesPerCell(1) == 0.5 && Trunc(0.0 / SlopesPerCell(1)) == 0
    ensures 1 as real * SlopesPerCell(1) == 0.5 && 1 as real * SlopesPerCell(1) + SlopesPerCell(1) == 1.0
    ensures 0 as real * SlopesPerCell(1) == 0.0
  {
  }

  /** restrictive_shadowcasting_quadrant: the vertical-edge octant, then the horizontal-edge one. */
  function Quadrant(g: Grid, px: int, py: int, radius: nat, lw: bool, dx: int, dy: int): (r: Grid)
    requires g.Valid() && g.InGrid(px, py) && (dx == 1 || dx == -1) && (dy == 1 || dy == -1)
    ensures r.Valid() && MarksOnly(g, r, px, py, 1, radius, lw)
  {
    var g1 := OctantScan(g, Octant(false, dx, dy, px, py, lw), radius).g;
    var g2 := OctantScan(g1, Octant(true, dy, dx, py, px, lw), radius).g;
    MarksOnlyTrans(g, g1, g2, px, py, 1, 1, 1, radius, lw);
    g2
  }

  /**
   * RLFL_fov_restrictive_shadowcasting after the map check: OUT_OF_BOUNDS for an origin off the
   * map, GENERIC for a radius of MAX_RADIUS or more, both before any write; otherwise the origin is
   * marked and the four quadrants scanned. Only the origin and cells in the square of half-side
   * radius (the whole grid for radius 0) change: the origin gains the FOV bits, and so does every
   * other cell that changes, except that an opaque one ends with MEMO and without SEEN when walls
   * are not lit.
   */
  function Restrictive(g: Grid, ox: int, oy: int, radius: nat, lw: bool): (r: (int, Grid))
    requires g.Valid()
    ensures r.1.Valid()
    ensures !g.InGrid(ox, oy) ==> r == (ERR_OUT_OF_BOUNDS, g)
    ensures g.InGrid(ox, oy) && radius >= MAX_RADIUS ==> r == (ERR_GENERIC, g)
    ensures g.InGrid(ox, oy) && radius < MAX_RADIUS ==>
      r.0 == SUCCESS && MarksOnly(g, r.1, ox, oy, 0, radius, lw) && Marked(r.1, ox, oy)
  {
    if !g.InGrid(ox, oy) then (ERR_OUT_OF_BOUNDS, g)
    else if radius >= MAX_RADIUS then (ERR_GENERIC, g)
    else
      var g0 := Mark(g, ox, oy);
      FovMarkKeepsOtherBits(Cell(g, ox, oy));
      var g1 := Quadrant(g0, ox, oy, radius, lw, 1, 1);
      var g2 := Quadrant(g1, ox, oy, radius, lw, 1, -1);
      var g3 := Quadrant(g2, ox, oy, radius, lw, -1, 1);
      var g4 := Quadrant(g3, ox, oy, radius, lw, -1, -1);
      MarksOnlyTrans(g0, g1, g2, ox, oy, 1, 1, 1, radius, lw);
      MarksOnlyTrans(g0, g2, g3, ox, oy, 1, 1, 1, radius, lw);
      MarksOnlyTrans(g0, g3, g4, ox, oy, 1, 1, 1, radius, lw);
      assert MarksOnly(g, g0, ox, oy, 0, radius, lw);
      MarksOnlyTrans(g, g0, g4, ox, oy, 0, 1, 0, radius, lw);
      (SUCCESS, g4)
  }

  /** The cells the scan may leave SEEN: the origin, and the square's cells that are open or walls when walls are lit. */
  function RestrictiveLit(g: Grid, ox: int, oy: int, radius: nat, lw: bool): (lit: (int, int) -> bool)
    requires g.Valid()
    ensures forall x, y :: lit(x, y) <==> (x == ox && y == oy) || (InRing(ox, oy, 0, radius, x, y) && (lw || IsOpen(g, x, y)))
  {
    (x, y) => (x == ox && y == oy) || (InRing(ox, oy, 0, radius, x, y) && (lw || IsOpen(g, x, y)))
  }

  /**
   * A cell that gains SEEN is one RestrictiveLit allows; in particular, with walls unlit no
   * opaque cell but the origin gains SEEN, though every one that changes gains MEMO.
   */
  lemma RestrictiveSeen(g: Grid, ox: int, oy: int, radius: nat, lw: bool, x: int, y: int)
    requires g.Valid() && g.InGrid(ox, oy) && radius < MAX_RADIUS && g.InGrid(x, y)
    ensures var g' := Restrictive(g, ox, oy, radius, lw).1;
      && (Has(g', x, y, CELL_SEEN) && !Has(g, x, y, CELL_SEEN) ==> RestrictiveLit(g, ox, oy, radius, lw)(x, y))
      && (Cell(g', x, y) != Cell(g, x, y) ==> Has(g', x, y, CELL_MEMO) && IsOpen(g', x, y) == IsOpen(g, x, y))
  {
    var g' := Restrictive(g, ox, oy, radius, lw).1;
    if Cell(g', x, y) != Cell(g, x, y) {
      OutcomeSeen(Cell(g, x, y), Cell(g', x, y), lw || (x == ox && y == oy));
    }
  }
}
