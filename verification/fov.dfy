/**
 * What the six field-of-view algorithms share. Each one reads only the OPEN bit of in-grid
 * cells, which a FOV mark never changes (Grid.FovMarkKeepsOtherBits), so an algorithm is modelled
 * as computing the list of cells it marks from an OPEN oracle, and the marks are then written in
 * one pass (Paint). The postcondition shape LitOnly says which cells may have gained the marks.
 */
module Fov {
  import opened Util
  import opened Defines
  import opened Grid
  import opened Store

  /** An in-grid cell that has the OPEN bit (does not block sight). */
  predicate IsOpen(g: Grid, x: int, y: int)
    requires g.Valid()
  {
    g.InGrid(x, y) && Has(g, x, y, CELL_OPEN)
  }

  /** The OPEN oracle the algorithms read, false off the grid. */
  function OpenOf(g: Grid): (open: (int, int) -> bool)
    requires g.Valid()
    ensures forall x, y :: open(x, y) == IsOpen(g, x, y)
  {
    (x, y) => IsOpen(g, x, y)
  }

  /** Squared Euclidean distance, the radius test most algorithms use. */
  function Dist2(x0: int, y0: int, x: int, y: int): int
  {
    (x - x0) * (x - x0) + (y - y0) * (y - y0)
  }

  /** Inside the radius-r disc (r2 = r*r) around (x0, y0); a radius of 0 means no limit. */
  predicate InDisc(x0: int, y0: int, r2: int, x: int, y: int)
  {
    r2 > 0 ==> Dist2(x0, y0, x, y) <= r2
  }

  /** A disc point lies in the square of half-side r around the centre. */
  lemma DiscInSquare(x0: int, y0: int, r: nat, x: int, y: int)
    requires Dist2(x0, y0, x, y) <= r * r
    ensures Abs(x - x0) <= r && Abs(y - y0) <= r
  {
    var a, b := Abs(x - x0), Abs(y - y0);
    assert a * a == (x - x0) * (x - x0) && b * b == (y - y0) * (y - y0);
    assert b * b >= 0;
    if a > r {
      MulStrict(r, a);
    }
    if b > r {
      MulStrict(r, b);
    }
  }

  lemma MulStrict(r: nat, a: nat)
    requires r < a
    ensures r * r < a * a
  {
    assert r * r <= r * a;
    assert r * a < a * a;
  }

  /** Every listed cell lies on the grid. */
  predicate AllInGrid(g: Grid, cells: seq<Step>)
  {
    forall k :: 0 <= k < |cells| ==> g.InGrid(cells[k].x, cells[k].y)
  }

  /** RLFL_set_flag / RLFL_clear_flag of `bits` on each listed cell in turn (all on the grid). */
  function Paint(g: Grid, cells: seq<Step>, bits: bv16, fill: bool): (r: Grid)
    requires g.Valid() && AllInGrid(g, cells)
    ensures r.Valid() && r.width == g.width && r.height == g.height && r.pathMaps == g.pathMaps
    decreases |cells|
  {
    if cells == [] then g
    else
      var c := cells[0];
      Paint(WithCell(g, c.x, c.y, Apply(Cell(g, c.x, c.y), bits, fill)), cells[1..], bits, fill)
  }

  /** Setting or clearing the same bits twice is the same as once. */
  lemma ApplyTwice(v: bv16, bits: bv16, fill: bool)
    ensures Apply(Apply(v, bits, fill), bits, fill) == Apply(v, bits, fill)
  {
  }

  /** After Paint a listed cell has the bits applied once, every other cell is untouched. */
  lemma {:induction false} PaintCells(g: Grid, cells: seq<Step>, bits: bv16, fill: bool, x: int, y: int)
    requires g.Valid() && AllInGrid(g, cells) && g.InGrid(x, y)
    ensures Cell(Paint(g, cells, bits, fill), x, y) ==
      if Step(x, y) in cells then Apply(Cell(g, x, y), bits, fill) else Cell(g, x, y)
    decreases |cells|
  {
    if cells != [] {
      var c := cells[0];
      var g1 := WithCell(g, c.x, c.y, Apply(Cell(g, c.x, c.y), bits, fill));
      assert AllInGrid(g1, cells[1..]) by {
        forall k | 0 <= k < |cells[1..]|
          ensures g1.InGrid(cells[1..][k].x, cells[1..][k].y)
        {
          assert cells[1..][k] == cells[k + 1];
        }
      }
      PaintCells(g1, cells[1..], bits, fill, x, y);
      assert Step(x, y) in cells <==> Step(x, y) == c || Step(x, y) in cells[1..] by {
        assert cells == [c] + cells[1..];
      }
      ApplyTwice(Cell(g, x, y), bits, fill);
    }
  }

  /**
   * `after` is `before` with the FOV bits (SEEN|MEMO) set on some cells, each of which satisfies
   * `lit`; no other bit and no other cell changes.
   */
  ghost predicate LitOnly(before: Grid, after: Grid, lit: (int, int) -> bool)
    requires before.Valid() && after.Valid()
  {
    && after.width == before.width && after.height == before.height && after.pathMaps == before.pathMaps
    && forall x, y :: before.InGrid(x, y) ==>
         Cell(after, x, y) == Cell(before, x, y) || (lit(x, y) && Cell(after, x, y) == Cell(before, x, y) | CELL_FOV)
  }

  /** Only the origin: what an algorithm may mark when its radius leaves no room for anything else. */
  function OriginOnly(ox: int, oy: int): (lit: (int, int) -> bool)
    ensures forall x, y :: lit(x, y) <==> x == ox && y == oy
  {
    (x, y) => x == ox && y == oy
  }

  /** The cell at (x, y) carries both FOV bits. */
  predicate Marked(g: Grid, x: int, y: int)
    requires g.Valid() && g.InGrid(x, y)
  {
    Cell(g, x, y) & CELL_FOV == CELL_FOV
  }

  /** Marking a list of cells that all satisfy `lit` changes only `lit` cells, and marks every listed cell. */
  lemma PaintLitOnly(g: Grid, cells: seq<Step>, lit: (int, int) -> bool)
    requires g.Valid() && AllInGrid(g, cells)
    requires forall k :: 0 <= k < |cells| ==> lit(cells[k].x, cells[k].y)
    ensures LitOnly(g, Paint(g, cells, CELL_FOV, true), lit)
    ensures forall k :: 0 <= k < |cells| ==> Marked(Paint(g, cells, CELL_FOV, true), cells[k].x, cells[k].y)
  {
    var r := Paint(g, cells, CELL_FOV, true);
    forall x, y | g.InGrid(x, y)
      ensures Cell(r, x, y) == Cell(g, x, y) || (lit(x, y) && Cell(r, x, y) == Cell(g, x, y) | CELL_FOV)
    {
      PaintCells(g, cells, CELL_FOV, true, x, y);
      if Step(x, y) in cells {
        var k :| 0 <= k < |cells| && cells[k] == Step(x, y);
        assert lit(cells[k].x, cells[k].y);
      }
    }
    forall k | 0 <= k < |cells|
      ensures Marked(r, cells[k].x, cells[k].y)
    {
      PaintCells(g, cells, CELL_FOV, true, cells[k].x, cells[k].y);
      FovMarkKeepsOtherBits(Cell(g, cells[k].x, cells[k].y));
    }
  }

  /** A cell already marked stays marked under LitOnly (marks are only ever added). */
  lemma LitOnlyKeepsMarks(a: Grid, b: Grid, lit: (int, int) -> bool, x: int, y: int)
    requires a.Valid() && b.Valid() && LitOnly(a, b, lit) && a.InGrid(x, y) && Marked(a, x, y)
    ensures Marked(b, x, y)
  {
    FovMarkKeepsOtherBits(Cell(a, x, y));
  }
}
