/**
 * Digital field of view (fov_digital.c): for each of the eight octants and each slope h in
 * 0..radius, a digital line walks outward while two convex hulls of the obstacles met so far
 * (a top and a bottom one) bound the region still visible; cells that stay inside it are drawn.
 */
module FovDigital {
  import opened Util
  import opened Defines
  import opened Grid
  import opened Store
  import opened Fov

  /** CCW: twice the signed area of the triangle; positive for a counter-clockwise turn. */
  function Ccw(x1: int, y1: int, x2: int, y2: int, x3: int, y3: int): int
  {
    x1 * y2 + x2 * y3 + x3 * y1 - x1 * y3 - x2 * y1 - x3 * y2
  }

  /**
   * The two hulls of trace: the top and bottom point arrays (n + 2 entries, of which only the
   * ones written so far are `Some`: C leaves the rest uninitialised), their current sizes, and
   * the four critical indices s[0][0], s[0][1], s[1][0], s[1][1].
   */
  datatype Hull = Hull(topx: seq<Option<int>>, topy: seq<Option<int>>, botx: seq<Option<int>>, boty: seq<Option<int>>,
                       curt: int, curb: int, s00: int, s01: int, s10: int, s11: int)

  /**
   * The arrays have n + 2 entries; every entry up to the high-water marks hiT / hiB has been
   * written; sizes and critical indices stay within the written part.
   */
  ghost predicate HullOk(hl: Hull, n: nat, hiT: int, hiB: int)
  {
    && |hl.topx| == n + 2 && |hl.topy| == n + 2 && |hl.botx| == n + 2 && |hl.boty| == n + 2
    && 0 <= hl.curt <= hiT < n + 2 && 0 <= hl.curb <= hiB < n + 2
    && 0 <= hl.s01 <= hiT && 0 <= hl.s11 <= hiT && 0 <= hl.s00 <= hiB && 0 <= hl.s10 <= hiB
    && (forall i :: 0 <= i <= hiT ==> hl.topx[i].Some? && hl.topy[i].Some?)
    && (forall i :: 0 <= i <= hiB ==> hl.botx[i].Some? && hl.boty[i].Some?)
  }

  /** Point i of the top hull. */
  function TX(hl: Hull, i: int): int
    requires 0 <= i < |hl.topx| && hl.topx[i].Some?
  {
    hl.topx[i].value
  }

  function TY(hl: Hull, i: int): int
    requires 0 <= i < |hl.topy| && hl.topy[i].Some?
  {
    hl.topy[i].value
  }

  /** Point i of the bottom hull. */
  function BX(hl: Hull, i: int): int
    requires 0 <= i < |hl.botx| && hl.botx[i].Some?
  {
    hl.botx[i].value
  }

  function BY(hl: Hull, i: int): int
    requires 0 <= i < |hl.boty| && hl.boty[i].Some?
  {
    hl.boty[i].value
  }

  /** The hulls at the start of trace: the top hull holds (0, 1), the bottom hull (0, 0). */
  function InitHull(n: nat): (hl: Hull)
    ensures HullOk(hl, n, 0, 0)
  {
    var none := seq(n + 2, _ => None);
    Hull(none[0 := Some(0)], none[0 := Some(1)], none[0 := Some(0)], none[0 := Some(0)], 0, 0, 0, 0, 0, 0)
  }

  /**
   * A new obstacle at (ad1, y) on the bottom hull (y = ad2[0] + 1): push it; stop when it hides
   * everything; narrow the visible region; pop points until the hull is convex again.
   */
  method PushBottom(hl: Hull, n: nat, ghost hiT: int, ghost hiB: int, ad1: int, y: int)
    returns (hl': Hull, stop: bool, ghost hiB': int)
    requires HullOk(hl, n, hiT, hiB) && hiB < ad1 <= n
    ensures HullOk(hl', n, hiT, hiB') && hiB' <= ad1
  {
    var h := hl.(curb := hl.curb + 1);
    h := h.(botx := h.botx[h.curb := Some(ad1)], boty := h.boty[h.curb := Some(y)]);
    hiB' := if h.curb > hiB then h.curb else hiB;
    if Ccw(BX(h, h.s00), BY(h, h.s00), TX(h, h.s11), TY(h, h.s11), ad1, y) >= 0 {
      return h, true, hiB';
    }
    if Ccw(TX(h, h.s01), TY(h, h.s01), BX(h, h.s10), BY(h, h.s10), ad1, y) >= 0 {
      h := AdvanceTop(h.(s10 := h.curb), n, hiT, hiB', ad1, y);
    }
    h := PopBottom(h, n, hiT, hiB', ad1, y);
    return h, false, hiB';
  }

  /** Moves s[0][1] up the top hull while the next top point still turns clockwise to (ad1, y). */
  method AdvanceTop(hl: Hull, n: nat, ghost hiT: int, ghost hiB: int, ad1: int, y: int) returns (hl': Hull)
    requires HullOk(hl, n, hiT, hiB)
    ensures HullOk(hl', n, hiT, hiB) && hl'.s01 >= hl.s01
  {
    hl' := hl;
    while hl'.s01 < hl'.curt && Ccw(TX(hl', hl'.s01), TY(hl', hl'.s01), TX(hl', hl'.s01 + 1), TY(hl', hl'.s01 + 1), ad1, y) >= 0
      invariant HullOk(hl', n, hiT, hiB) && hl'.s01 >= hl.s01 && hl'.curt == hl.curt
      decreases hl'.curt - hl'.s01
    {
      hl' := hl'.(s01 := hl'.s01 + 1);
    }
  }

  /** Pops bottom points while the last two and (ad1, y) do not turn clockwise, keeping s[1][0] on the hull. */
  method PopBottom(hl: Hull, n: nat, ghost hiT: int, ghost hiB: int, ad1: int, y: int) returns (hl': Hull)
    requires HullOk(hl, n, hiT, hiB)
    ensures HullOk(hl', n, hiT, hiB) && hl'.curb <= hl.curb
  {
    hl' := hl;
    while hl'.curb > 1 && Ccw(BX(hl', hl'.curb - 2), BY(hl', hl'.curb - 2), BX(hl', hl'.curb - 1), BY(hl', hl'.curb - 1), ad1, y) >= 0
      invariant HullOk(hl', n, hiT, hiB) && hl'.curb <= hl.curb
      decreases hl'.curb
    {
      var h := hl';
      if h.s10 == h.curb {
        h := h.(s10 := h.s10 - 1);
      }
      h := h.(curb := h.curb - 1);
      hl' := h.(botx := h.botx[h.curb := h.botx[h.curb + 1]], boty := h.boty[h.curb := h.boty[h.curb + 1]]);
    }
  }

  /** A new obstacle at (ad1, y) on the top hull (y = ad2[1]): the mirror image of PushBottom. */
  method PushTop(hl: Hull, n: nat, ghost hiT: int, ghost hiB: int, ad1: int, y: int)
    returns (hl': Hull, stop: bool, ghost hiT': int)
    requires HullOk(hl, n, hiT, hiB) && hiT < ad1 <= n
    ensures HullOk(hl', n, hiT', hiB) && hiT' <= ad1
  {
    var h := hl.(curt := hl.curt + 1);
    h := h.(topx := h.topx[h.curt := Some(ad1)], topy := h.topy[h.curt := Some(y)]);
    hiT' := if h.curt > hiT then h.curt else hiT;
    if Ccw(BX(h, h.s10), BY(h, h.s10), TX(h, h.s01), TY(h, h.s01), ad1, y) >= 0 {
      return h, true, hiT';
    }
    if Ccw(TX(h, h.s11), TY(h, h.s11), BX(h, h.s00), BY(h, h.s00), ad1, y) >= 0 {
      h := AdvanceBottom(h.(s11 := h.curt), n, hiT', hiB, ad1, y);
    }
    h := PopTop(h, n, hiT', hiB, ad1, y);
    return h, false, hiT';
  }

  /** Moves s[0][0] up the bottom hull while the next bottom point does not turn counter-clockwise to (ad1, y). */
  method AdvanceBottom(hl: Hull, n: nat, ghost hiT: int, ghost hiB: int, ad1: int, y: int) returns (hl': Hull)
    requires HullOk(hl, n, hiT, hiB)
    ensures HullOk(hl', n, hiT, hiB) && hl'.s00 >= hl.s00
  {
    hl' := hl;
    while hl'.s00 < hl'.curb && Ccw(BX(hl', hl'.s00), BY(hl', hl'.s00), BX(hl', hl'.s00 + 1), BY(hl', hl'.s00 + 1), ad1, y) <= 0
      invariant HullOk(hl', n, hiT, hiB) && hl'.s00 >= hl.s00 && hl'.curb == hl.curb
      decreases hl'.curb - hl'.s00
    {
      hl' := hl'.(s00 := hl'.s00 + 1);
    }
  }

  /** Pops top points while the last two and (ad1, y) do not turn counter-clockwise, keeping s[1][1] on the hull. */
  method PopTop(hl: Hull, n: nat, ghost hiT: int, ghost hiB: int, ad1: int, y: int) returns (hl': Hull)
    requires HullOk(hl, n, hiT, hiB)
    ensures HullOk(hl', n, hiT, hiB) && hl'.curt <= hl.curt
  {
    hl' := hl;
    while hl'.curt > 1 && Ccw(TX(hl', hl'.curt - 2), TY(hl', hl'.curt - 2), TX(hl', hl'.curt - 1), TY(hl', hl'.curt - 1), ad1, y) <= 0
      invariant HullOk(hl', n, hiT, hiB) && hl'.curt <= hl.curt
      decreases hl'.curt
    {
      var h := hl';
      if h.s11 == h.curt {
        h := h.(s11 := h.s11 - 1);
      }
      h := h.(curt := h.curt - 1);
      hl' := h.(topx := h.topx[h.curt := h.topx[h.curt + 1]], topy := h.topy[h.curt := h.topy[h.curt + 1]]);
    }
  }

  /**
   * The octant transform of trace: bit 1 of dir negates x, bit 2 negates y, bit 4 exchanges
   * them (the XOR swap), then the origin is added.
   */
  function Octant(dir: nat, x: int, y: int, px: int, py: int): (c: Step)
    ensures dir % 8 < 4 ==> Abs(c.x - px) == Abs(x) && Abs(c.y - py) == Abs(y)
    ensures dir % 8 >= 4 ==> Abs(c.x - px) == Abs(y) && Abs(c.y - py) == Abs(x)
  {
    SwapBit(dir);
    var x1 := if dir % 2 == 1 then -x else x;
    var y1 := if (dir / 2) % 2 == 1 then -y else y;
    if (dir / 4) % 2 == 1 then Step(y1 + px, x1 + py) else Step(x1 + px, y1 + py)
  }

  /** Bit 4 of dir is set exactly when dir lies in the upper half of its group of eight. */
  lemma SwapBit(dir: nat)
    ensures (dir / 4) % 2 == 1 <==> dir % 8 >= 4
  {
    var q, r := dir / 8, dir % 8;
    assert dir == 4 * (2 * q) + r;
    assert dir / 4 == 2 * q + r / 4;
    assert (dir / 4) % 2 == r / 4;
  }

  /** A cell draw marks: on the grid, within dis*dis + 1 of the origin, and OPEN unless walls are lit. */
  predicate DrawCell(g: Grid, px: int, py: int, dis: int, lw: bool, c: Step)
    requires g.Valid()
  {
    g.InGrid(c.x, c.y) && Dist2(px, py, c.x, c.y) <= dis * dis + 1 && (IsOpen(g, c.x, c.y) || lw)
  }

  /** draw: the cell when it is a DrawCell, else nothing. */
  function Draw(g: Grid, c: Step, dis: int, px: int, py: int, lw: bool): (cells: seq<Step>)
    requires g.Valid()
    ensures cells == [] || cells == [c]
    ensures cells == [c] <==> DrawCell(g, px, py, dis, lw, c)
  {
    if !g.InGrid(c.x, c.y) then []
    else if Dist2(px, py, c.x, c.y) <= dis * dis + 1 && (Has(g, c.x, c.y, CELL_OPEN) || lw) then [c]
    else []
  }

  /** An obstacle for the hulls: a grid cell without OPEN. */
  predicate Wall(g: Grid, c: Step)
    requires g.Valid()
  {
    g.InGrid(c.x, c.y) && !Has(g, c.x, c.y, CELL_OPEN)
  }

  /**
   * trace(dir, n, h): the cells one digital line of slope h/n in octant dir draws. Every
   * obstacle push stays inside the n + 2 hull entries and reads only written entries; every
   * drawn cell is a DrawCell; with n = 0 nothing is drawn.
   */
  method Trace(g: Grid, dir: nat, n: nat, h: int, px: int, py: int, lw: bool) returns (cells: seq<Step>)
    requires g.Valid()
    ensures forall k :: 0 <= k < |cells| ==> DrawCell(g, px, py, n, lw, cells[k])
    ensures n == 0 ==> cells == []
  {
    cells := [];
    var hl := InitHull(n);
    ghost var hiT, hiB := 0, 0;
    var ad20, ad21 := 0, 0;
    var eps0, eps1 := 0, n - 1;
    var ad1 := 1;
    while ad1 <= n
      invariant HullOk(hl, n, hiT, hiB) && hiT < ad1 && hiB < ad1
      invariant forall k :: 0 <= k < |cells| ==> DrawCell(g, px, py, n, lw, cells[k])
      invariant n == 0 ==> cells == []
      decreases n + 1 - ad1
    {
      eps0 := eps0 + h;
      if eps0 >= n {
        eps0, ad20 := eps0 - n, ad20 + 1;
      }
      eps1 := eps1 + h;
      if eps1 >= n {
        eps1, ad21 := eps1 - n, ad21 + 1;
      }
      if Ccw(TX(hl, hl.s11), TY(hl, hl.s11), BX(hl, hl.s00), BY(hl, hl.s00), ad1, ad20) <= 0 {
        return;
      }
      if Ccw(TX(hl, hl.s01), TY(hl, hl.s01), BX(hl, hl.s10), BY(hl, hl.s10), ad1, ad21 + 1) <= 0 {
        return;
      }
      var c0, c1 := Octant(dir, ad1, ad20, px, py), Octant(dir, ad1, ad21, px, py);
      if Ccw(TX(hl, hl.s01), TY(hl, hl.s01), BX(hl, hl.s10), BY(hl, hl.s10), ad1, ad20 + 1) > 0 {
        cells := cells + Draw(g, c0, n, px, py, lw);
      }
      if Ccw(TX(hl, hl.s11), TY(hl, hl.s11), BX(hl, hl.s00), BY(hl, hl.s00), ad1, ad21) > 0 {
        cells := cells + Draw(g, c1, n, px, py, lw);
      }
      var stop := false;
      if Wall(g, c0) {
        hl, stop, hiB := PushBottom(hl, n, hiT, hiB, ad1, ad20 + 1);
        if stop {
          return;
        }
      }
      if Wall(g, c1) {
        hl, stop, hiT := PushTop(hl, n, hiT, hiB, ad1, ad21);
        if stop {
          return;
        }
      }
      ad1 := ad1 + 1;
    }
  }

  /** The cells digital FOV may mark: the origin, and cells within radius*radius + 1 that are OPEN unless walls are lit. */
  function DigitalLit(g: Grid, ox: int, oy: int, radius: nat, lw: bool): (lit: (int, int) -> bool)
    requires g.Valid()
    ensures forall x, y :: lit(x, y) <==>
      (x == ox && y == oy) || (Dist2(ox, oy, x, y) <= radius * radius + 1 && (lw || IsOpen(g, x, y)))
  {
    (x, y) => (x == ox && y == oy) || (Dist2(ox, oy, x, y) <= radius * radius + 1 && (lw || IsOpen(g, x, y)))
  }

  /**
   * RLFL_fov_digital after the map check: OUT_OF_BOUNDS for an origin off the map, GENERIC for
   * a radius of MAX_RADIUS or more, both before any write; otherwise the origin is marked, then
   * every trace for the eight octants and the slopes 0..radius, and SUCCESS. Only the origin and
   * DigitalLit cells gain the marks; with radius 0 only the origin does.
   */
  method Digital(g: Grid, ox: int, oy: int, radius: nat, lw: bool) returns (r: int, g': Grid)
    requires g.Valid()
    ensures g'.Valid()
    ensures !g.InGrid(ox, oy) ==> r == ERR_OUT_OF_BOUNDS && g' == g
    ensures g.InGrid(ox, oy) && radius >= MAX_RADIUS ==> r == ERR_GENERIC && g' == g
    ensures g.InGrid(ox, oy) && radius < MAX_RADIUS ==>
      && r == SUCCESS && LitOnly(g, g', DigitalLit(g, ox, oy, radius, lw)) && Marked(g', ox, oy)
      && (radius == 0 ==> LitOnly(g, g', OriginOnly(ox, oy)))
  {
    if !g.InGrid(ox, oy) {
      return ERR_OUT_OF_BOUNDS, g;
    }
    if radius >= MAX_RADIUS {
      return ERR_GENERIC, g;
    }
    var lit: seq<Step> := [Step(ox, oy)];
    var dir := 0;
    while dir < 8
      invariant AllInGrid(g, lit) && |lit| > 0 && lit[0] == Step(ox, oy)
      invariant forall k :: 0 <= k < |lit| ==> DigitalLit(g, ox, oy, radius, lw)(lit[k].x, lit[k].y)
      invariant radius == 0 ==> lit == [Step(ox, oy)]
    {
      var i := 0;
      while i < radius + 1
        invariant AllInGrid(g, lit) && |lit| > 0 && lit[0] == Step(ox, oy)
        invariant forall k :: 0 <= k < |lit| ==> DigitalLit(g, ox, oy, radius, lw)(lit[k].x, lit[k].y)
        invariant radius == 0 ==> lit == [Step(ox, oy)]
      {
        var cells := Trace(g, dir, radius, i, ox, oy, lw);
        lit := Extend(g, ox, oy, radius, lw, lit, cells);
        i := i + 1;
      }
      dir := dir + 1;
    }
    PaintLitOnly(g, lit, DigitalLit(g, ox, oy, radius, lw));
    assert Marked(Paint(g, lit, CELL_FOV, true), lit[0].x, lit[0].y);
    if radius == 0 {
      PaintLitOnly(g, lit, OriginOnly(ox, oy));
    }
    return SUCCESS, Paint(g, lit, CELL_FOV, true);
  }

  /** Appends the cells of one trace, keeping every listed cell on the grid and admitted by DigitalLit. */
  function Extend(g: Grid, ox: int, oy: int, radius: nat, lw: bool, lit: seq<Step>, cells: seq<Step>): (lit': seq<Step>)
    requires g.Valid() && AllInGrid(g, lit)
    requires forall k :: 0 <= k < |lit| ==> DigitalLit(g, ox, oy, radius, lw)(lit[k].x, lit[k].y)
    requires forall k :: 0 <= k < |cells| ==> DrawCell(g, ox, oy, radius, lw, cells[k])
    ensures lit' == lit + cells && AllInGrid(g, lit')
    ensures forall k :: 0 <= k < |lit'| ==> DigitalLit(g, ox, oy, radius, lw)(lit'[k].x, lit'[k].y)
  {
    var lit' := lit + cells;
    forall k | 0 <= k < |lit'|
      ensures g.InGrid(lit'[k].x, lit'[k].y) && DigitalLit(g, ox, oy, radius, lw)(lit'[k].x, lit'[k].y)
    {
      if k >= |lit| {
        assert lit'[k] == cells[k - |lit|];
        assert DrawCell(g, ox, oy, radius, lw, cells[k - |lit|]);
      }
    }
    lit'
  }
}
