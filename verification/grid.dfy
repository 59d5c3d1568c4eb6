/**
 * One map of the library (RLFL_map_t): a width*height array of 16-bit cell
 * masks in row-major order, cell (x, y) at index x + y*width, plus one
 * optional path map per path-map slot. The cell-level halves of the flag
 * operations (bounds check, flag check, write), the distance approximation
 * and the "finish corners" pass live here, next to the grid they act on.
 */
module Grid {
  import opened Util
  import opened Defines

  datatype Grid = Grid(width: nat, height: nat, cells: seq<bv16>, pathMaps: seq<Option<seq<int>>>)
  {
    ghost predicate Valid()
    {
      && |cells| == Mul(width, height)
      && width < MAX_WIDTH && height < MAX_HEIGHT
      && |pathMaps| == MAX_PATHS
      && forall p :: 0 <= p < |pathMaps| && pathMaps[p].Some? ==> |pathMaps[p].value| == Mul(width, height)
    }

    /** RLFL_cell_valid once the map is known to exist (coordinates are unsigned in C, so negatives are invalid). */
    predicate InGrid(x: int, y: int)
    {
      0 <= x < width && 0 <= y < height
    }
  }

  /**
   * The product a*b, defined by repeated addition so that the solver sees it only
   * through MulIsProduct; grid sizes and row offsets are written with it.
   */
  function Mul(a: nat, b: nat): nat
  {
    if a == 0 then 0 else b + Mul(a - 1, b)
  }

  lemma {:induction false} MulIsProduct(a: nat, b: nat)
    ensures Mul(a, b) == a * b
  {
    if a > 0 {
      MulIsProduct(a - 1, b);
    }
  }

  /** Row-major index of (x, y) in a grid of the given width. */
  function Idx(w: nat, x: nat, y: nat): nat
  {
    x + Mul(y, w)
  }

  lemma IdxInRange(w: nat, h: nat, x: int, y: int)
    requires 0 <= x < w && 0 <= y < h
    ensures 0 <= Idx(w, x, y) < Mul(w, h)
  {
    MulIsProduct(y, w);
    MulIsProduct(w, h);
    assert y * w <= (h - 1) * w by {
      MulMonotone(y, h - 1, w);
    }
  }

  lemma MulMonotone(a: int, b: int, c: nat)
    requires a <= b
    ensures a * c <= b * c
  {
  }

  /** Distinct in-grid coordinates have distinct indices. */
  lemma IdxInjective(w: nat, x1: int, y1: int, x2: int, y2: int)
    requires 0 <= x1 < w && 0 <= x2 < w && 0 <= y1 && 0 <= y2
    requires Idx(w, x1, y1) == Idx(w, x2, y2)
    ensures x1 == x2 && y1 == y2
  {
    MulIsProduct(y1, w);
    MulIsProduct(y2, w);
    assert (y1 - y2) * w == y1 * w - y2 * w;
    SmallMultiple(y1 - y2, w);
  }

  /** The only multiple of w strictly between -w and w is 0. */
  lemma SmallMultiple(d: int, w: nat)
    ensures -(w as int) < d * w < w ==> d == 0
  {
    if d >= 1 {
      MulMonotone(1, d, w);
    } else if d <= -1 {
      MulMonotone(d, -1, w);
    }
  }

  /** A product comparison with a common factor carries over to the other factors. */
  lemma MulCancelLess(a: int, b: int, c: nat)
    ensures a * c < b * c ==> a < b
  {
    if b <= a {
      MulMonotone(b, a, c);
    }
  }

  /** The coordinates of an index: the inverse of Idx on the grid. */
  lemma IdxOfCoords(w: nat, i: int)
    requires w > 0 && 0 <= i
    ensures 0 <= i % w < w && i / w >= 0 && Idx(w, i % w, i / w) == i
  {
    MulIsProduct(i / w, w);
  }

  /** An index below w*h names the in-grid cell (k % w, k / w). */
  lemma IndexRow(w: nat, h: nat, k: int)
    requires 0 <= k < Mul(w, h)
    ensures w > 0 && 0 <= k % w < w && 0 <= k / w < h && Idx(w, k % w, k / w) == k
  {
    MulIsProduct(w, h);
    IdxOfCoords(w, k);
    QuotientBelow(w, h, k);
  }

  /** The row of an index below w*h is below h. */
  lemma QuotientBelow(w: nat, h: nat, k: int)
    requires w > 0 && 0 <= k < w * h
    ensures k / w < h
  {
    var q := k / w;
    assert q * w <= k;
    assert q * w < h * w;
    MulCancelLess(q, h, w);
  }

  /** The mask of an in-grid cell. */
  function Cell(g: Grid, x: int, y: int): bv16
    requires g.Valid() && g.InGrid(x, y)
  {
    IdxInRange(g.width, g.height, x, y);
    g.cells[Idx(g.width, x, y)]
  }

  /** g with the mask of in-grid cell (x, y) replaced by v. */
  function WithCell(g: Grid, x: int, y: int, v: bv16): (r: Grid)
    requires g.Valid() && g.InGrid(x, y)
    ensures r.Valid() && r.width == g.width && r.height == g.height && r.pathMaps == g.pathMaps
    ensures Cell(r, x, y) == v
    ensures forall x2, y2 :: r.InGrid(x2, y2) && (x2 != x || y2 != y) ==> Cell(r, x2, y2) == Cell(g, x2, y2)
  {
    IdxInRange(g.width, g.height, x, y);
    var r := g.(cells := g.cells[Idx(g.width, x, y) := v]);
    forall x2, y2 | r.InGrid(x2, y2) && (x2 != x || y2 != y)
      ensures Cell(r, x2, y2) == Cell(g, x2, y2)
    {
      IdxInRange(g.width, g.height, x2, y2);
      if Idx(g.width, x2, y2) == Idx(g.width, x, y) {
        IdxInjective(g.width, x2, y2, x, y);
      }
    }
    r
  }

  /** flag_valid: a range check against CELL_MASK (0xDFFF, see MaskIsAllButGoal), not a subset check. */
  predicate FlagValid(flag: nat)
  {
    flag <= 0xDFFF
  }

  /** The low 16 bits of a valid flag (all of them). */
  function Bits(flag: nat): bv16
    requires FlagValid(flag)
  {
    flag as bv16
  }

  /** A cell constant passed as a flag is valid and stands for its own bits. */
  lemma ConstBits(b: bv16)
    requires b == CELL_OPEN || b == CELL_PERM || b == CELL_OCUP
    ensures FlagValid(b as nat) && Bits(b as nat) == b
  {
  }

  /** 0x2000 (GOAL) is not among the mask's bits yet is accepted; anything above 0xDFFF is refused. */
  lemma FlagValidIsRangeCheck()
    ensures FlagValid(CELL_GOAL as nat) && CELL_GOAL & CELL_MASK == 0
    ensures FlagValid(0)
    ensures !FlagValid(0xE000) && !FlagValid(0x1_0000)
    ensures forall f: nat :: FlagValid(f) <==> f <= CELL_MASK as nat
  {
    MaskIsAllButGoal();
  }

  /** RLFL_has_flag after the map check: OUT_OF_BOUNDS, then FLAG, then 1 or 0 for "shares a bit". */
  function HasCode(g: Grid, x: int, y: int, flag: nat): (r: int)
    requires g.Valid()
    ensures !g.InGrid(x, y) ==> r == ERR_OUT_OF_BOUNDS
    ensures g.InGrid(x, y) && !FlagValid(flag) ==> r == ERR_FLAG
    ensures g.InGrid(x, y) && FlagValid(flag) ==> (r == 1 <==> Cell(g, x, y) & Bits(flag) != 0) && (r == 0 || r == 1)
  {
    if !g.InGrid(x, y) then ERR_OUT_OF_BOUNDS
    else if !FlagValid(flag) then ERR_FLAG
    else if Cell(g, x, y) & Bits(flag) != 0 then 1 else 0
  }

  /** For an in-grid cell and a constant flag, C's truth value of has_flag is the bit test. */
  predicate Has(g: Grid, x: int, y: int, b: bv16)
    requires g.Valid() && g.InGrid(x, y)
  {
    Cell(g, x, y) & b != 0
  }

  /** RLFL_set_flag after the map check: OUT_OF_BOUNDS, then FLAG, else OR the flag into the cell. */
  function SetFlagAt(g: Grid, x: int, y: int, flag: nat): (res: (int, Grid))
    requires g.Valid()
    ensures res.1.Valid() && res.1.width == g.width && res.1.height == g.height && res.1.pathMaps == g.pathMaps
    ensures !g.InGrid(x, y) ==> res == (ERR_OUT_OF_BOUNDS, g)
    ensures g.InGrid(x, y) && !FlagValid(flag) ==> res == (ERR_FLAG, g)
    ensures g.InGrid(x, y) && FlagValid(flag) ==>
      && res.0 == SUCCESS
      && Cell(res.1, x, y) == Cell(g, x, y) | Bits(flag)
      && forall x2, y2 :: g.InGrid(x2, y2) && (x2 != x || y2 != y) ==> Cell(res.1, x2, y2) == Cell(g, x2, y2)
  {
    if !g.InGrid(x, y) then (ERR_OUT_OF_BOUNDS, g)
    else if !FlagValid(flag) then (ERR_FLAG, g)
    else (SUCCESS, WithCell(g, x, y, Cell(g, x, y) | Bits(flag)))
  }

  /** RLFL_clear_flag after the map check: OUT_OF_BOUNDS, then FLAG, else AND-NOT the flag out of the cell. */
  function ClearFlagAt(g: Grid, x: int, y: int, flag: nat): (res: (int, Grid))
    requires g.Valid()
    ensures res.1.Valid() && res.1.width == g.width && res.1.height == g.height && res.1.pathMaps == g.pathMaps
    ensures !g.InGrid(x, y) ==> res == (ERR_OUT_OF_BOUNDS, g)
    ensures g.InGrid(x, y) && !FlagValid(flag) ==> res == (ERR_FLAG, g)
    ensures g.InGrid(x, y) && FlagValid(flag) ==>
      && res.0 == SUCCESS
      && Cell(res.1, x, y) == Cell(g, x, y) & !Bits(flag)
      && forall x2, y2 :: g.InGrid(x2, y2) && (x2 != x || y2 != y) ==> Cell(res.1, x2, y2) == Cell(g, x2, y2)
  {
    if !g.InGrid(x, y) then (ERR_OUT_OF_BOUNDS, g)
    else if !FlagValid(flag) then (ERR_FLAG, g)
    else (SUCCESS, WithCell(g, x, y, Cell(g, x, y) & !Bits(flag)))
  }

  /** Mark an in-grid cell as in view: OR in SEEN|MEMO. */
  function Mark(g: Grid, x: int, y: int): (r: Grid)
    requires g.Valid() && g.InGrid(x, y)
    ensures r.Valid() && r.width == g.width && r.height == g.height && r.pathMaps == g.pathMaps
    ensures Cell(r, x, y) == Cell(g, x, y) | CELL_FOV
    ensures forall x2, y2 :: g.InGrid(x2, y2) && (x2 != x || y2 != y) ==> Cell(r, x2, y2) == Cell(g, x2, y2)
  {
    WithCell(g, x, y, Cell(g, x, y) | CELL_FOV)
  }

  /** One cell of RLFL_fill_map (OR the bits in) or RLFL_clear_map (AND-NOT them out). */
  function Apply(v: bv16, bits: bv16, fill: bool): bv16
  {
    if fill then v | bits else v & !bits
  }

  /** The loop of RLFL_fill_map / RLFL_clear_map over all width*height cells. */
  method ApplyAll(cells: seq<bv16>, bits: bv16, fill: bool) returns (r: seq<bv16>)
    ensures |r| == |cells|
    ensures forall i :: 0 <= i < |cells| ==> r[i] == Apply(cells[i], bits, fill)
  {
    r := cells;
    var i := 0;
    while i < |cells|
      invariant 0 <= i <= |cells| && |r| == |cells|
      invariant forall k :: 0 <= k < i ==> r[k] == Apply(cells[k], bits, fill)
      invariant forall k :: i <= k < |cells| ==> r[k] == cells[k]
    {
      r := r[i := Apply(r[i], bits, fill)];
      i := i + 1;
    }
  }

  /** RLFL_fill_map / RLFL_clear_map on one grid: every cell gets the bits set (fill) or cleared. */
  method ApplyMap(g: Grid, bits: bv16, fill: bool) returns (g': Grid)
    requires g.Valid()
    ensures g'.Valid() && g'.width == g.width && g'.height == g.height && g'.pathMaps == g.pathMaps
    ensures forall x, y :: g.InGrid(x, y) ==> Cell(g', x, y) == Apply(Cell(g, x, y), bits, fill)
  {
    var cells := ApplyAll(g.cells, bits, fill);
    g' := g.(cells := cells);
    forall x, y | g.InGrid(x, y)
      ensures Cell(g', x, y) == Apply(Cell(g, x, y), bits, fill)
    {
      IdxInRange(g.width, g.height, x, y);
    }
  }

  // ---------------------------------------------------------------------
  // Distance

  /** RLFL_distance: the Angband approximation max + min/2 of the component distances. */
  function Distance(x1: int, y1: int, x2: int, y2: int): nat
  {
    var dy := Abs(y1 - y2);
    var dx := Abs(x1 - x2);
    if dy > dx then dy + dx / 2 else dx + dy / 2
  }

  /** The Chebyshev (king-move) distance. */
  function Chebyshev(x1: int, y1: int, x2: int, y2: int): nat
  {
    Max(Abs(x1 - x2), Abs(y1 - y2))
  }

  /** Distance is symmetric, zero exactly at the same point, between Chebyshev and 3/2 Chebyshev, and never above the Manhattan distance. */
  lemma DistanceProperties(x1: int, y1: int, x2: int, y2: int)
    ensures Distance(x1, y1, x2, y2) == Distance(x2, y2, x1, y1)
    ensures Distance(x1, y1, x2, y2) == 0 <==> x1 == x2 && y1 == y2
    ensures Chebyshev(x1, y1, x2, y2) <= Distance(x1, y1, x2, y2) <= Chebyshev(x1, y1, x2, y2) * 3 / 2
    ensures Distance(x1, y1, x2, y2) <= Abs(x1 - x2) + Abs(y1 - y2)
  {
  }

  /** Examples the library's own distance test relies on. */
  lemma DistanceExamples()
    ensures Distance(1, 1, 11, 11) == 15
    ensures Distance(0, 0, 10, 0) == 10
    ensures Distance(0, 0, 10, 5) == 12
  {
  }

  // ---------------------------------------------------------------------
  // Finish corners

  /** Unsigned 32-bit wrap of an offset, as `unsigned int offset` stores it. */
  function U32(n: int): nat
  {
    n % 0x1_0000_0000
  }

  /**
   * RLFL_fov_finish (after the map check): for each cell of [x0,x1]x[y0,y1] that is SEEN and OPEN,
   * three neighbour tests would mark it FOV if it were not OPEN. Every inner guard contradicts the
   * outer one on the same cell, so no cell is ever written.
   */
  method FovFinish(g: Grid, x0: int, y0: int, x1: int, y1: int, dx: int, dy: int) returns (r: int, g': Grid)
    requires g.Valid()
    ensures r == SUCCESS && g' == g
  {
    var nc := g.width * g.height;
    var cx := x0;
    while cx <= x1
      decreases x1 - cx
    {
      var cy := y0;
      while cy <= y1
        decreases y1 - cy
      {
        var x2 := cx + dx;
        var y2 := cy + dy;
        var offset := U32(cx + cy * g.width);
        if offset < nc && HasCode(g, cx, cy, CELL_SEEN as nat) != 0 && HasCode(g, cx, cy, CELL_OPEN as nat) != 0 {
          if x2 >= x0 && x2 <= x1 {
            var offset2 := U32(x2 + cy * g.width);
            if offset2 < nc && HasCode(g, cx, cy, CELL_OPEN as nat) == 0 {
              assert false;
            }
          }
          if y2 >= y0 && y2 <= y1 {
            var offset2 := U32(cx + y2 * g.width);
            if offset2 < nc && HasCode(g, cx, cy, CELL_OPEN as nat) == 0 {
              assert false;
            }
          }
          if x2 >= x0 && x2 <= x1 && y2 >= y0 && y2 <= y1 {
            var offset2 := U32(x2 + y2 * g.width);
            if offset2 < nc && HasCode(g, cx, cy, CELL_OPEN as nat) == 0 {
              assert false;
            }
          }
        }
        cy := cy + 1;
      }
      cx := cx + 1;
    }
    r, g' := SUCCESS, g;
  }

  // ---------------------------------------------------------------------
  // FOV frame

  /** `after` differs from `before` only in cells that gained the FOV bits (SEEN|MEMO). */
  ghost predicate OnlyFovMarks(before: Grid, after: Grid)
  {
    && after.width == before.width && after.height == before.height && after.pathMaps == before.pathMaps
    && |after.cells| == |before.cells|
    && forall i :: 0 <= i < |before.cells| ==> after.cells[i] == before.cells[i] || after.cells[i] == before.cells[i] | CELL_FOV
  }

  lemma OnlyFovMarksTrans(a: Grid, b: Grid, c: Grid)
    requires OnlyFovMarks(a, b) && OnlyFovMarks(b, c)
    ensures OnlyFovMarks(a, c)
  {
    forall i | 0 <= i < |a.cells|
      ensures c.cells[i] == a.cells[i] || c.cells[i] == a.cells[i] | CELL_FOV
    {
      assert (a.cells[i] | CELL_FOV) | CELL_FOV == a.cells[i] | CELL_FOV;
    }
  }

  lemma MarkIsFovMark(g: Grid, x: int, y: int)
    requires g.Valid() && g.InGrid(x, y)
    ensures OnlyFovMarks(g, Mark(g, x, y))
  {
    var r := Mark(g, x, y);
    forall i | 0 <= i < |g.cells|
      ensures r.cells[i] == g.cells[i] || r.cells[i] == g.cells[i] | CELL_FOV
    {
      IdxInRange(g.width, g.height, x, y);
    }
  }

  /** A FOV mark never changes any bit other than SEEN and MEMO, in particular OPEN. */
  lemma FovMarkKeepsOtherBits(v: bv16)
    ensures (v | CELL_FOV) & CELL_OPEN == v & CELL_OPEN
    ensures (v | CELL_FOV) & !CELL_FOV == v & !CELL_FOV
    ensures (v | CELL_FOV) & CELL_FOV == CELL_FOV
  {
  }
}
