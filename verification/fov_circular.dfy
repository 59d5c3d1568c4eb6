/**
 * Circular ray casting (fov_circular_raycasting.c): Bresenham rays from the origin to every
 * cell of the border of the radius box, each marking cells until it meets its first wall.
 */
module FovCircular {
  import opened Util
  import opened Defines
  import opened Grid
  import opened Store
  import opened Fov

  // ---------------------------------------------------------------------
  // Bresenham lines (RLFL_line_init / RLFL_line_step)

  /**
   * The line state of bresenham_data: the step signs, the error term, the doubled deltas, the
   * current point (origx, origy) and the destination.
   */
  datatype Line = Line(stepx: int, stepy: int, e: int, deltax: int, deltay: int, x: int, y: int, destx: int, desty: int)

  function Sign(d: int): int
  {
    if d > 0 then 1 else if d < 0 then -1 else 0
  }

  /** x is the major axis: `stepx*deltax > stepy*deltay`, i.e. |deltax| > |deltay| once the steps are the signs. */
  predicate XMajor(l: Line)
  {
    Abs(l.deltax) > Abs(l.deltay)
  }

  /** The steps are the signs of the deltas, and the current point has not passed the destination on the major axis. */
  predicate LineOk(l: Line)
  {
    && l.stepx == Sign(l.deltax) && l.stepy == Sign(l.deltay)
    && (XMajor(l) ==> l.x == l.destx || Sign(l.destx - l.x) == l.stepx)
    && (!XMajor(l) ==> l.y == l.desty || Sign(l.desty - l.y) == l.stepy)
  }

  /** Steps left on the major axis. */
  function Remaining(l: Line): nat
  {
    if XMajor(l) then Abs(l.destx - l.x) else Abs(l.desty - l.y)
  }

  /** `step*delta` for a step that is the sign of the delta is |delta|; the model writes the latter. */
  lemma SignTimes(d: int)
    ensures Sign(d) * d == Abs(d)
  {
  }

  /** RLFL_line_init: signs, the initial error (the undoubled major delta), then the deltas doubled. */
  function LineInit(x0: int, y0: int, x1: int, y1: int): (l: Line)
    ensures LineOk(l) && l.x == x0 && l.y == y0 && l.destx == x1 && l.desty == y1
  {
    var dx, dy := x1 - x0, y1 - y0;
    var e := if Abs(dx) > Abs(dy) then Abs(dx) else Abs(dy);
    Line(Sign(dx), Sign(dy), e, 2 * dx, 2 * dy, x0, y0, x1, y1)
  }

  /**
   * RLFL_line_step: true without moving when the major coordinate is at the destination; else
   * one step on the major axis, and one on the minor axis when the error goes negative.
   */
  function LineStep(l: Line): (res: (Line, bool))
    requires LineOk(l)
  {
    if XMajor(l) then
      if l.x == l.destx then (l, true)
      else
        var e := l.e - Abs(l.deltay);
        if e < 0 then (l.(x := l.x + l.stepx, y := l.y + l.stepy, e := e + Abs(l.deltax)), false)
        else (l.(x := l.x + l.stepx, e := e), false)
    else
      if l.y == l.desty then (l, true)
      else
        var e := l.e - Abs(l.deltax);
        if e < 0 then (l.(y := l.y + l.stepy, x := l.x + l.stepx, e := e + Abs(l.deltay)), false)
        else (l.(y := l.y + l.stepy, e := e), false)
  }

  /**
   * A line step ends exactly when the major coordinate is at the destination, and then nothing
   * moves; otherwise the point moves by exactly one on the major axis toward the destination and
   * by at most one on the minor axis, and one fewer step is left.
   */
  lemma LineStepMoves(l: Line)
    requires LineOk(l)
    ensures var (l', end) := LineStep(l);
      && LineOk(l') && l'.destx == l.destx && l'.desty == l.desty && XMajor(l') == XMajor(l)
      && (end <==> Remaining(l) == 0)
      && (end ==> l' == l)
      && (!end && XMajor(l) ==> Abs(l'.x - l.x) == 1 && Abs(l'.y - l.y) <= 1)
      && (!end && !XMajor(l) ==> Abs(l'.y - l.y) == 1 && Abs(l'.x - l.x) <= 1)
      && (!end ==> Remaining(l') + 1 == Remaining(l))
  {
  }

  // ---------------------------------------------------------------------
  // cast_ray

  /**
   * What cast_ray learns about a point: `Off` when its flat offset x + y*width is outside the
   * cell array; `Stray` when the offset is inside but (x, y) is not a grid cell, so has_flag
   * reports OUT_OF_BOUNDS (true in C) and set_flag writes nothing; `On` for a grid cell.
   */
  datatype Probe = Off | Stray | On(open: bool)

  /** The probe of a grid: its cells and their OPEN bit. */
  function ProbeOf(g: Grid): (probe: (int, int) -> Probe)
    requires g.Valid()
    ensures forall x, y :: probe(x, y).On? <==> g.InGrid(x, y)
    ensures forall x, y :: probe(x, y).On? ==> (probe(x, y).open <==> IsOpen(g, x, y))
  {
    (x, y) =>
      if g.InGrid(x, y) then On(IsOpen(g, x, y))
      else if 0 <= x + y * g.width < g.width * g.height then Stray
      else Off
  }

  /** A cell a ray may mark: a grid cell inside the disc, and OPEN unless walls are lit. */
  predicate RayCell(probe: (int, int) -> Probe, ox: int, oy: int, r2: int, lw: bool, c: Step)
  {
    probe(c.x, c.y).On? && InDisc(ox, oy, r2, c.x, c.y) && (lw || probe(c.x, c.y).open)
  }

  /**
   * The loop of cast_ray from line state l: step; return past the radius; a grid cell sets
   * `blocked` at the first wall and returns at the cell after it; a cell is marked unless it is
   * a wall and walls are not lit; leaving the cell array after being inside returns.
   */
  function Ray(probe: (int, int) -> Probe, ox: int, oy: int, l: Line, r2: int, lw: bool, inside: bool, blocked: bool): (cells: seq<Step>)
    requires LineOk(l)
    decreases Remaining(l)
  {
    LineStepMoves(l);
    var (l', end) := LineStep(l);
    var x, y := l'.x, l'.y;
    if r2 > 0 && Dist2(ox, oy, x, y) > r2 then []
    else
      var p := probe(x, y);
      if p.Off? then
        if inside || end then [] else Ray(probe, ox, oy, l', r2, lw, inside, blocked)
      else if blocked then []
      else
        var wall := p.On? && !p.open;
        (if p.On? && (lw || !wall) then [Step(x, y)] else []) + (if end then [] else Ray(probe, ox, oy, l', r2, lw, true, wall))
  }

  /** One unfolding of Ray: the marks of the next cell followed by the rest of the ray. */
  lemma RayUnfold(probe: (int, int) -> Probe, ox: int, oy: int, l: Line, r2: int, lw: bool, inside: bool, blocked: bool)
    requires LineOk(l)
    ensures var (l', end) := LineStep(l);
      var p := probe(l'.x, l'.y);
      var cells := Ray(probe, ox, oy, l, r2, lw, inside, blocked);
      && LineOk(l') && Remaining(l') < Remaining(l) + (if end then 1 else 0)
      && (r2 > 0 && Dist2(ox, oy, l'.x, l'.y) > r2 ==> cells == [])
      && (!(r2 > 0 && Dist2(ox, oy, l'.x, l'.y) > r2) && p.Off? ==>
            cells == if inside || end then [] else Ray(probe, ox, oy, l', r2, lw, inside, blocked))
      && (!(r2 > 0 && Dist2(ox, oy, l'.x, l'.y) > r2) && !p.Off? && blocked ==> cells == [])
      && (!(r2 > 0 && Dist2(ox, oy, l'.x, l'.y) > r2) && !p.Off? && !blocked ==>
            cells == (if p.On? && (lw || p.open) then [Step(l'.x, l'.y)] else [])
                     + (if end then [] else Ray(probe, ox, oy, l', r2, lw, true, p.On? && !p.open)))
  {
    LineStepMoves(l);
  }

  /** Every cell a ray marks is a RayCell, and a ray that is already inside and blocked marks nothing. */
  lemma {:induction false} RayMarks(probe: (int, int) -> Probe, ox: int, oy: int, l: Line, r2: int, lw: bool, inside: bool, blocked: bool)
    requires LineOk(l)
    ensures forall k :: 0 <= k < |Ray(probe, ox, oy, l, r2, lw, inside, blocked)| ==>
      RayCell(probe, ox, oy, r2, lw, Ray(probe, ox, oy, l, r2, lw, inside, blocked)[k])
    ensures inside && blocked ==> Ray(probe, ox, oy, l, r2, lw, inside, blocked) == []
    decreases Remaining(l)
  {
    RayUnfold(probe, ox, oy, l, r2, lw, inside, blocked);
    LineStepMoves(l);
    var (l', end) := LineStep(l);
    var p := probe(l'.x, l'.y);
    if !(r2 > 0 && Dist2(ox, oy, l'.x, l'.y) > r2) && !end {
      if p.Off? {
        RayMarks(probe, ox, oy, l', r2, lw, inside, blocked);
      } else if !blocked {
        RayMarks(probe, ox, oy, l', r2, lw, true, p.On? && !p.open);
      }
    }
  }

  /** Every cell a ray marks but the last is OPEN: the ray stops at the first wall, which it marks only when walls are lit. */
  lemma {:induction false} RayStopsAtWall(probe: (int, int) -> Probe, ox: int, oy: int, l: Line, r2: int, lw: bool, inside: bool, blocked: bool)
    requires LineOk(l)
    ensures forall k :: 0 <= k < |Ray(probe, ox, oy, l, r2, lw, inside, blocked)| - 1 ==>
      var c := Ray(probe, ox, oy, l, r2, lw, inside, blocked)[k]; probe(c.x, c.y) == On(true)
    decreases Remaining(l)
  {
    RayUnfold(probe, ox, oy, l, r2, lw, inside, blocked);
    LineStepMoves(l);
    var (l', end) := LineStep(l);
    var p := probe(l'.x, l'.y);
    if !(r2 > 0 && Dist2(ox, oy, l'.x, l'.y) > r2) && !end {
      if p.Off? {
        RayStopsAtWall(probe, ox, oy, l', r2, lw, inside, blocked);
      } else if !blocked {
        var wall := p.On? && !p.open;
        RayStopsAtWall(probe, ox, oy, l', r2, lw, true, wall);
        RayMarks(probe, ox, oy, l', r2, lw, true, wall);
      }
    }
  }

  /**
   * cast_ray: the start point (the origin) is marked when it is a grid cell, then the ray runs
   * toward (xd, yd).
   */
  function CastRay(probe: (int, int) -> Probe, ox: int, oy: int, xd: int, yd: int, r2: int, lw: bool): seq<Step>
  {
    var first := probe(ox, oy);
    (if first.On? then [Step(ox, oy)] else []) + Ray(probe, ox, oy, LineInit(ox, oy, xd, yd), r2, lw, !first.Off?, false)
  }

  /** A cell circular ray casting may mark: the origin, or a cell of a ray. */
  predicate CircleCell(probe: (int, int) -> Probe, ox: int, oy: int, r2: int, lw: bool, c: Step)
  {
    c == Step(ox, oy) || RayCell(probe, ox, oy, r2, lw, c)
  }

  /** Every cell cast_ray marks is the origin or a ray cell, and a grid origin comes first. */
  lemma CastRayMarks(probe: (int, int) -> Probe, ox: int, oy: int, xd: int, yd: int, r2: int, lw: bool)
    ensures forall k :: 0 <= k < |CastRay(probe, ox, oy, xd, yd, r2, lw)| ==>
      CircleCell(probe, ox, oy, r2, lw, CastRay(probe, ox, oy, xd, yd, r2, lw)[k])
    ensures probe(ox, oy).On? ==> |CastRay(probe, ox, oy, xd, yd, r2, lw)| > 0 && CastRay(probe, ox, oy, xd, yd, r2, lw)[0] == Step(ox, oy)
  {
    var first := probe(ox, oy);
    var head := if first.On? then [Step(ox, oy)] else [];
    var l0, inside := LineInit(ox, oy, xd, yd), !first.Off?;
    var ray := Ray(probe, ox, oy, l0, r2, lw, inside, false);
    RayMarks(probe, ox, oy, l0, r2, lw, inside, false);
    var cells := head + ray;
    forall k | 0 <= k < |cells|
      ensures CircleCell(probe, ox, oy, r2, lw, cells[k])
    {
      if k >= |head| {
        assert cells[k] == ray[k - |head|];
        assert RayCell(probe, ox, oy, r2, lw, ray[k - |head|]);
      }
    }
  }

  // ---------------------------------------------------------------------
  // RLFL_fov_circular_raycasting

  /** The cells circular ray casting may mark on g: the origin, and disc cells that are OPEN unless walls are lit. */
  function CircularLit(g: Grid, ox: int, oy: int, r2: int, lw: bool): (lit: (int, int) -> bool)
    requires g.Valid()
    ensures forall x, y :: lit(x, y) <==> (x == ox && y == oy) || (InDisc(ox, oy, r2, x, y) && (lw || IsOpen(g, x, y)))
  {
    (x, y) => (x == ox && y == oy) || (InDisc(ox, oy, r2, x, y) && (lw || IsOpen(g, x, y)))
  }

  /** Casts the ray to (xd, yd) and appends its marks, keeping every mark a CircleCell. */
  method Cast(probe: (int, int) -> Probe, ox: int, oy: int, xd: int, yd: int, r2: int, lw: bool, lit: seq<Step>)
    returns (lit': seq<Step>)
    requires forall k :: 0 <= k < |lit| ==> CircleCell(probe, ox, oy, r2, lw, lit[k])
    ensures forall k :: 0 <= k < |lit'| ==> CircleCell(probe, ox, oy, r2, lw, lit'[k])
    ensures lit' == lit + CastRay(probe, ox, oy, xd, yd, r2, lw)
  {
    CastRayMarks(probe, ox, oy, xd, yd, r2, lw);
    lit' := lit + CastRay(probe, ox, oy, xd, yd, r2, lw);
  }

  /**
   * RLFL_fov_circular_raycasting after the map check: OUT_OF_BOUNDS for an origin off the map,
   * GENERIC for a radius of MAX_RADIUS or more, both before any write; otherwise rays to the top
   * row, the right column, the bottom row (down to x = 0) and the left column (down to y = 1) of
   * the radius box, the four fov_finish passes when walls are lit, and SUCCESS. The origin is
   * marked, and only the origin and disc cells that are OPEN (or any disc cell, with walls lit)
   * gain the marks.
   */
  method Circular(g: Grid, ox: int, oy: int, radius: nat, lw: bool) returns (r: int, g': Grid)
    requires g.Valid()
    ensures g'.Valid()
    ensures !g.InGrid(ox, oy) ==> r == ERR_OUT_OF_BOUNDS && g' == g
    ensures g.InGrid(ox, oy) && radius >= MAX_RADIUS ==> r == ERR_GENERIC && g' == g
    ensures g.InGrid(ox, oy) && radius < MAX_RADIUS ==>
      && r == SUCCESS && LitOnly(g, g', CircularLit(g, ox, oy, radius * radius, lw))
      && Marked(g', ox, oy)
  {
    if !g.InGrid(ox, oy) {
      return ERR_OUT_OF_BOUNDS, g;
    }
    if radius >= MAX_RADIUS {
      return ERR_GENERIC, g;
    }
    var probe := ProbeOf(g);
    var r2 := radius * radius;
    // MAX(0, ox - radius) compares an unsigned difference with 0, so the lower corner is not clipped.
    var xmin, ymin, xmax, ymax := 0, 0, g.width as int, g.height as int;
    if radius > 0 {
      xmin := ox - radius;
      ymin := oy - radius;
      xmax := Min(g.width, ox + radius + 1);
      ymax := Min(g.height, oy + radius + 1);
    }
    assert xmin <= ox < xmax;
    var lit: seq<Step> := [];
    var xo := xmin;
    while xo < xmax
      invariant forall k :: 0 <= k < |lit| ==> CircleCell(probe, ox, oy, r2, lw, lit[k])
      invariant xmin <= xo && (xo > xmin ==> Step(ox, oy) in lit)
      decreases xmax - xo
    {
      CastRayMarks(probe, ox, oy, xo, ymin, r2, lw);
      lit := Cast(probe, ox, oy, xo, ymin, r2, lw, lit);
      xo := xo + 1;
    }
    var yo := ymin + 1;
    while yo < ymax
      invariant forall k :: 0 <= k < |lit| ==> CircleCell(probe, ox, oy, r2, lw, lit[k])
      invariant Step(ox, oy) in lit
      decreases ymax - yo
    {
      lit := Cast(probe, ox, oy, xmax - 1, yo, r2, lw, lit);
      yo := yo + 1;
    }
    xo := xmax - 2;
    while xo >= 0
      invariant forall k :: 0 <= k < |lit| ==> CircleCell(probe, ox, oy, r2, lw, lit[k])
      invariant Step(ox, oy) in lit
      decreases xo
    {
      lit := Cast(probe, ox, oy, xo, ymax - 1, r2, lw, lit);
      xo := xo - 1;
    }
    yo := ymax - 2;
    while yo > 0
      invariant forall k :: 0 <= k < |lit| ==> CircleCell(probe, ox, oy, r2, lw, lit[k])
      invariant Step(ox, oy) in lit
      decreases yo
    {
      lit := Cast(probe, ox, oy, xmin, yo, r2, lw, lit);
      yo := yo - 1;
    }
    assert Step(ox, oy) in lit;
    g' := MarkAll(g, probe, ox, oy, r2, lw, lit);
    if lw {
      var _, g1 := FovFinish(g', xmin, ymin, ox, oy, -1, -1);
      var _, g2 := FovFinish(g1, ox, ymin, xmax - 1, oy, 1, -1);
      var _, g3 := FovFinish(g2, xmin, oy, ox, ymax - 1, -1, 1);
      var _, g4 := FovFinish(g3, ox, oy, xmax - 1, ymax - 1, 1, 1);
      g' := g4;
    }
    r := SUCCESS;
  }

  /** Writes the marks collected from the rays. */
  function MarkAll(g: Grid, probe: (int, int) -> Probe, ox: int, oy: int, r2: int, lw: bool, lit: seq<Step>): (g': Grid)
    requires g.Valid() && probe == ProbeOf(g) && g.InGrid(ox, oy) && Step(ox, oy) in lit
    requires forall k :: 0 <= k < |lit| ==> CircleCell(probe, ox, oy, r2, lw, lit[k])
    ensures g'.Valid() && LitOnly(g, g', CircularLit(g, ox, oy, r2, lw)) && Marked(g', ox, oy)
  {
    var litf := CircularLit(g, ox, oy, r2, lw);
    assert AllInGrid(g, lit) by {
      forall k | 0 <= k < |lit|
        ensures g.InGrid(lit[k].x, lit[k].y)
      {
        assert CircleCell(probe, ox, oy, r2, lw, lit[k]);
      }
    }
    assert forall k :: 0 <= k < |lit| ==> litf(lit[k].x, lit[k].y) by {
      forall k | 0 <= k < |lit|
        ensures litf(lit[k].x, lit[k].y)
      {
        assert CircleCell(probe, ox, oy, r2, lw, lit[k]);
      }
    }
    PaintLitOnly(g, lit, litf);
    Paint(g, lit, CELL_FOV, true)
  }

  /** With a radius, every cell circular ray casting may mark lies in the radius box around the origin. */
  lemma CircularInBox(g: Grid, ox: int, oy: int, radius: nat, lw: bool, x: int, y: int)
    requires g.Valid() && radius > 0 && CircularLit(g, ox, oy, radius * radius, lw)(x, y)
    ensures ox - radius <= x <= ox + radius && oy - radius <= y <= oy + radius
  {
    if x != ox || y != oy {
      DiscInSquare(ox, oy, radius, x, y);
    }
  }
}
