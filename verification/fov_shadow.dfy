/**
 * Recursive shadowcasting (src/fov_recursive_shadowcasting.c). Each of the eight octants is
 * scanned row by row away from the origin; a row is the cells at octant-local offsets
 * (dx, -j) for dx = -j..0, kept only while their slopes fall inside the light interval
 * [end, start]. An opaque cell after open ones starts a child scan of the rows below with the
 * interval narrowed to the cell's left slope. The C slopes are floats; they are modelled as reals.
 */
module FovShadow {
  import opened Util
  import opened Defines
  import opened Grid
  import opened Store
  import opened Fov

  /** The `mult` table: rows xx, xy, yx, yy, one column per octant. */
  const MULT: seq<seq<int>> := [
    [1, 0, 0, -1, -1, 0, 0, 1],
    [0, 1, -1, 0, 0, -1, 1, 0],
    [0, 1, 1, 0, 0, -1, -1, 0],
    [1, 0, 0, 1, -1, 0, 0, -1]
  ]

  /** Chebyshev distance of a cell from (cx, cy): the row it lies on in its octant. */
  function Cheb(cx: int, cy: int, c: Step): nat
  {
    Max(Abs(c.x - cx), Abs(c.y - cy))
  }

  /** The map cell of octant-local offset (dx, dy) in octant `oct` around (cx, cy). */
  function Place(oct: nat, cx: int, cy: int, dx: int, dy: int): (c: Step)
    requires oct < 8
    ensures Dist2(cx, cy, c.x, c.y) == dx * dx + dy * dy
    ensures Cheb(cx, cy, c) == Max(Abs(dx), Abs(dy))
  {
    var c := Step(cx + dx * MULT[0][oct] + dy * MULT[1][oct], cy + dx * MULT[2][oct] + dy * MULT[3][oct]);
    PlaceIsometry(oct, cx, cy, dx, dy, c);
    c
  }

  /** Every column of the table is a signed permutation of the axes. */
  lemma PlaceIsometry(oct: nat, cx: int, cy: int, dx: int, dy: int, c: Step)
    requires oct < 8
    requires c == Step(cx + dx * MULT[0][oct] + dy * MULT[1][oct], cy + dx * MULT[2][oct] + dy * MULT[3][oct])
    ensures Dist2(cx, cy, c.x, c.y) == dx * dx + dy * dy
    ensures Cheb(cx, cy, c) == Max(Abs(dx), Abs(dy))
  {
    var u, v := c.x - cx, c.y - cy;
    if oct == 0 || oct == 3 || oct == 4 || oct == 7 {
      KeepAxes(oct, dx, dy, u, v);
      SquareAbs(u, dx);
      SquareAbs(v, dy);
    } else {
      SwapAxes(oct, dx, dy, u, v);
      SquareAbs(u, dy);
      SquareAbs(v, dx);
    }
  }

  /** Octants 0, 3, 4 and 7 only change signs. */
  lemma KeepAxes(oct: nat, dx: int, dy: int, u: int, v: int)
    requires oct == 0 || oct == 3 || oct == 4 || oct == 7
    requires u == dx * MULT[0][oct] + dy * MULT[1][oct] && v == dx * MULT[2][oct] + dy * MULT[3][oct]
    ensures Abs(u) == Abs(dx) && Abs(v) == Abs(dy)
  {
    assert MULT[1][oct] == 0 && MULT[2][oct] == 0;
    assert MULT[0][oct] == 1 || MULT[0][oct] == -1;
    assert MULT[3][oct] == 1 || MULT[3][oct] == -1;
  }

  /** Octants 1, 2, 5 and 6 swap the axes. */
  lemma SwapAxes(oct: nat, dx: int, dy: int, u: int, v: int)
    requires oct == 1 || oct == 2 || oct == 5 || oct == 6
    requires u == dx * MULT[0][oct] + dy * MULT[1][oct] && v == dx * MULT[2][oct] + dy * MULT[3][oct]
    ensures Abs(u) == Abs(dy) && Abs(v) == Abs(dx)
  {
    assert MULT[0][oct] == 0 && MULT[3][oct] == 0;
    assert MULT[1][oct] == 1 || MULT[1][oct] == -1;
    assert MULT[2][oct] == 1 || MULT[2][oct] == -1;
  }

  lemma SquareAbs(a: int, b: int)
    requires Abs(a) == Abs(b)
    ensures a * a == b * b
  {
    assert a == b || a == -b;
  }

  /** A row-j cell of some octant: the octant-local offset the scans visit. */
  predicate Scanned(j: int, dx: int, dy: int)
  {
    1 <= j && dy == -j && -j <= dx <= 0
  }

  /**
   * The eight octants together reach every cell other than the origin: for each offset there is
   * an octant and a scanned local offset that land on it.
   */
  lemma {:induction false} OctantsCover(cx: int, cy: int, x: int, y: int) returns (oct: nat, dx: int, dy: int)
    requires x != cx || y != cy
    ensures oct < 8 && Scanned(Cheb(cx, cy, Step(x, y)), dx, dy) && Place(oct, cx, cy, dx, dy) == Step(x, y)
  {
    var ex, ey := x - cx, y - cy;
    if Abs(ex) <= Abs(ey) {
      oct, dx, dy := MajorY(ex, ey);
    } else {
      oct, dx, dy := MajorX(ex, ey);
    }
    assert Place(oct, 0, 0, dx, dy) == Step(ex, ey);
    assert Place(oct, cx, cy, dx, dy) == Step(x, y);
  }

  /** Offsets at least as far vertically as horizontally fall in octants 0, 3, 4 and 7. */
  lemma MajorY(ex: int, ey: int) returns (oct: nat, dx: int, dy: int)
    requires Abs(ex) <= Abs(ey) && ey != 0
    ensures oct < 8 && Scanned(Abs(ey), dx, dy) && Place(oct, 0, 0, dx, dy) == Step(ex, ey)
  {
    dy := -(Abs(ey) as int);
    if ey < 0 && ex <= 0 { oct, dx := 0, ex; }
    else if ey < 0 { oct, dx := 3, -ex; }
    else if ex <= 0 { oct, dx := 7, ex; }
    else { oct, dx := 4, -ex; }
  }

  /** Offsets farther horizontally than vertically fall in octants 1, 2, 5 and 6. */
  lemma MajorX(ex: int, ey: int) returns (oct: nat, dx: int, dy: int)
    requires Abs(ey) < Abs(ex)
    ensures oct < 8 && Scanned(Abs(ex), dx, dy) && Place(oct, 0, 0, dx, dy) == Step(ex, ey)
  {
    dy := -(Abs(ex) as int);
    if ex < 0 && ey <= 0 { oct, dx := 1, ey; }
    else if ex < 0 { oct, dx := 6, -ey; }
    else if ey <= 0 { oct, dx := 2, ey; }
    else { oct, dx := 5, -ey; }
  }

  /** A cell shadowcasting may mark: on the grid, within radius, and OPEN unless walls are lit. */
  predicate ShadowCell(g: Grid, cx: int, cy: int, radius: nat, lw: bool, c: Step)
    requires g.Valid()
  {
    g.InGrid(c.x, c.y) && Dist2(cx, cy, c.x, c.y) <= radius * radius && (lw || IsOpen(g, c.x, c.y))
  }

  /** The cell lies on one of the rows lo..hi. */
  predicate InRows(cx: int, cy: int, lo: int, hi: int, c: Step)
  {
    lo <= Cheb(cx, cy, c) <= hi
  }

  /** The slope (a - 0.5) / (b + 0.5) style quotient of the C code; b is never 0 there. */
  function Slope(a: real, b: real): real
    requires b != 0.0
  {
    a / b
  }

  /**
   * cast_light: nothing when start < end; otherwise rows row..radius of octant `oct`, stopping
   * after a row that ends blocked. Every collected cell is a ShadowCell on rows row..radius.
   */
  method CastLight(g: Grid, cx: int, cy: int, row: int, start: real, end: real, radius: nat, oct: nat, lw: bool)
    returns (cells: seq<Step>)
    requires g.Valid() && oct < 8 && 1 <= row
    ensures forall k :: 0 <= k < |cells| ==> ShadowCell(g, cx, cy, radius, lw, cells[k])
    ensures forall k :: 0 <= k < |cells| ==> InRows(cx, cy, row, radius, cells[k])
    ensures start < end || row > radius ==> cells == []
    decreases radius - row, 1
  {
    cells := [];
    if start < end {
      return;
    }
    var s, ns := start, 0.0;
    var j := row;
    while j < radius + 1
      invariant row <= j && (row > radius ==> cells == [])
      invariant forall k :: 0 <= k < |cells| ==> ShadowCell(g, cx, cy, radius, lw, cells[k])
      invariant forall k :: 0 <= k < |cells| ==> InRows(cx, cy, row, radius, cells[k])
      decreases radius + 1 - j
    {
      var rc, blocked;
      rc, s, ns, blocked := ScanRow(g, cx, cy, row, j, s, end, ns, radius, oct, lw);
      cells := cells + rc;
      if blocked {
        break;
      }
      j := j + 1;
    }
  }

  /**
   * One row j of cast_light: the cells dx = -j..0 at dy = -j, with the start slope, the pending
   * new start and the blocked flag threaded through as the C loop updates them.
   */
  method ScanRow(g: Grid, cx: int, cy: int, ghost row: int, j: int, start: real, end: real, newStart: real,
                 radius: nat, oct: nat, lw: bool)
    returns (cells: seq<Step>, start': real, newStart': real, blocked: bool)
    requires g.Valid() && oct < 8 && 1 <= row <= j <= radius
    ensures forall k :: 0 <= k < |cells| ==> ShadowCell(g, cx, cy, radius, lw, cells[k])
    ensures forall k :: 0 <= k < |cells| ==> InRows(cx, cy, row, radius, cells[k])
    decreases radius - j, 0
  {
    cells, start', newStart', blocked := [], start, newStart, false;
    var dx, dy := -j - 1, -j;
    while dx <= 0
      invariant -j - 1 <= dx <= 1
      invariant forall k :: 0 <= k < |cells| ==> ShadowCell(g, cx, cy, radius, lw, cells[k])
      invariant forall k :: 0 <= k < |cells| ==> InRows(cx, cy, row, radius, cells[k])
      decreases 1 - dx
    {
      dx := dx + 1;
      var c := Place(oct, cx, cy, dx, dy);
      if g.InGrid(c.x, c.y) {
        var lSlope := Slope(dx as real - 0.5, dy as real + 0.5);
        var rSlope := Slope(dx as real + 0.5, dy as real - 0.5);
        if start' < rSlope {
          continue;
        } else if end > lSlope {
          break;
        }
        var open := IsOpen(g, c.x, c.y);
        if dx * dx + dy * dy <= radius * radius && (lw || open) {
          cells := cells + [c];
        }
        if blocked {
          if !open {
            newStart' := rSlope;
            continue;
          } else {
            blocked := false;
            start' := newStart';
          }
        } else if !open && j < radius {
          blocked := true;
          var sub := CastLight(g, cx, cy, j + 1, start', lSlope, radius, oct, lw);
          cells := cells + sub;
          newStart' := rSlope;
        }
      }
    }
  }

  /** The cells shadowcasting may mark: the origin, and ShadowCells of the whole disc. */
  function ShadowLit(g: Grid, ox: int, oy: int, radius: nat, lw: bool): (lit: (int, int) -> bool)
    requires g.Valid()
    ensures forall x, y :: lit(x, y) <==>
      (x == ox && y == oy) || ShadowCell(g, ox, oy, radius, lw, Step(x, y))
  {
    (x, y) => (x == ox && y == oy) || ShadowCell(g, ox, oy, radius, lw, Step(x, y))
  }

  /**
   * RLF_fov_recursive_shadowcasting: cast_light(row 1, slopes 1.0 down to 0.0) in each octant of
   * the table, then the origin is marked; always SUCCESS. Only the origin and ShadowLit cells gain
   * the marks; with radius 0 only the origin does.
   */
  method Shadow(g: Grid, ox: int, oy: int, radius: nat, lw: bool) returns (r: int, g': Grid)
    requires g.Valid() && g.InGrid(ox, oy)
    ensures g'.Valid() && r == SUCCESS
    ensures LitOnly(g, g', ShadowLit(g, ox, oy, radius, lw)) && Marked(g', ox, oy)
    ensures radius == 0 ==> LitOnly(g, g', OriginOnly(ox, oy))
  {
    var lit: seq<Step> := [];
    var oct := 0;
    while oct < 8
      invariant forall k :: 0 <= k < |lit| ==> ShadowCell(g, ox, oy, radius, lw, lit[k])
      invariant forall k :: 0 <= k < |lit| ==> InRows(ox, oy, 1, radius, lit[k])
      invariant radius == 0 ==> lit == []
    {
      var cells := CastLight(g, ox, oy, 1, 1.0, 0.0, radius, oct, lw);
      lit := lit + cells;
      oct := oct + 1;
    }
    lit := lit + [Step(ox, oy)];
    assert AllInGrid(g, lit) by {
      forall k | 0 <= k < |lit|
        ensures g.InGrid(lit[k].x, lit[k].y)
      {
        if k < |lit| - 1 {
          assert ShadowCell(g, ox, oy, radius, lw, lit[k]);
        }
      }
    }
    PaintLitOnly(g, lit, ShadowLit(g, ox, oy, radius, lw));
    assert Marked(Paint(g, lit, CELL_FOV, true), lit[|lit| - 1].x, lit[|lit| - 1].y);
    if radius == 0 {
      PaintLitOnly(g, lit, OriginOnly(ox, oy));
    }
    return SUCCESS, Paint(g, lit, CELL_FOV, true);
  }
}
