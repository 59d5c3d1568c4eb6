/**
 * RLFL_fov, the entry point of the field-of-view code: it checks the map, the origin and the
 * radius (in that order, before any write), replaces a radius of 0 by one that reaches every
 * cell of the map, clears SEEN and LIT on the whole map and runs the chosen algorithm. An
 * unknown algorithm is reported as OUT_OF_BOUNDS, after the clear.
 */
module FovDispatch {
  import opened Util
  import opened Defines
  import opened Grid
  import opened Store
  import opened Fov
  import FovCircular
  import FovDiamond
  import FovShadow
  import FovDigital
  import FovRestrictive
  import FovPermissive

  /** The bits RLFL_fov clears on every cell before a scan. */
  const CELL_STALE: bv16 := CELL_SEEN | CELL_LIT

  /** The algorithm codes the switch of RLFL_fov handles (FOV_CIRCULAR .. FOV_PERMISSIVE). */
  predicate Known(algorithm: int)
  {
    FOV_CIRCULAR <= algorithm <= FOV_PERMISSIVE
  }

  /** The algorithms whose own entry point rejects a radius of MAX_RADIUS or more. */
  predicate Rechecks(algorithm: int)
  {
    algorithm == FOV_CIRCULAR || algorithm == FOV_DIGITAL || algorithm == FOV_RESTRICTIVE
  }

  // ---------------------------------------------------------------------
  // The radius of a whole-map scan

  /**
   * The radius RLFL_fov uses when asked for 0: one more than the integer part of the length of
   * the vector (MAX(width - ox, ox), MAX(height - oy, oy)).
   */
  function AutoRadius(g: Grid, ox: int, oy: int): (r: nat)
    requires g.InGrid(ox, oy)
    ensures r >= 1
  {
    var mx := Max(g.width - ox, ox);
    var my := Max(g.height - oy, oy);
    ISqrt(mx * mx + my * my) + 1
  }

  lemma SquareBelow(a: int, m: int)
    requires -m <= a <= m
    ensures a * a <= m * m
  {
    var b := Abs(a);
    assert a * a == b * b;
    assert b * b <= m * b;
    assert m * b <= m * m;
  }

  /** Both legs of a vector shorter than r are shorter than r. */
  lemma LegsBelow(a: int, b: int, r: nat)
    requires a * a + b * b < r * r
    ensures Abs(a) < r && Abs(b) < r
  {
    assert a * a == Abs(a) * Abs(a) && b * b == Abs(b) * Abs(b);
    if Abs(a) >= r {
      SquareBelow(r, Abs(a));
    }
    if Abs(b) >= r {
      SquareBelow(r, Abs(b));
    }
  }

  /**
   * The automatic radius reaches the whole map: every in-grid cell lies strictly inside its
   * disc, and so within its square.
   */
  lemma AutoRadiusCovers(g: Grid, ox: int, oy: int, x: int, y: int)
    requires g.InGrid(ox, oy) && g.InGrid(x, y)
    ensures Dist2(ox, oy, x, y) < AutoRadius(g, ox, oy) * AutoRadius(g, ox, oy)
    ensures Chebyshev(ox, oy, x, y) < AutoRadius(g, ox, oy)
  {
    var mx := Max(g.width - ox, ox);
    var my := Max(g.height - oy, oy);
    var r := AutoRadius(g, ox, oy);
    assert mx * mx + my * my < r * r;
    SquareBelow(x - ox, mx);
    SquareBelow(y - oy, my);
    LegsBelow(x - ox, y - oy, r);
  }

  /**
   * The radius the algorithm runs with: the caller's when positive, otherwise AutoRadius. The
   * corrected dispatcher caps the automatic radius at MAX_RADIUS - 1 for the algorithms that
   * reject larger ones.
   */
  function UsedRadius(g: Grid, ox: int, oy: int, radius: nat, algorithm: int, asWritten: bool): nat
    requires g.InGrid(ox, oy)
  {
    if radius > 0 then radius
    else if asWritten || !Rechecks(algorithm) then AutoRadius(g, ox, oy)
    else Min(AutoRadius(g, ox, oy), MAX_RADIUS - 1)
  }

  /**
   * Whenever the origin is at least MAX_RADIUS - 1 cells from the far edge along an axis (on a
   * 100x100 map, from any origin), the radius handed on as written for radius 0 is at least
   * MAX_RADIUS, which circular, digital and restrictive reject; the corrected radius stays below
   * MAX_RADIUS.
   */
  lemma WholeMapRadiusRejected(g: Grid, ox: int, oy: int, algorithm: int)
    requires g.InGrid(ox, oy) && Rechecks(algorithm)
    requires Max(g.width - ox, ox) >= MAX_RADIUS - 1 || Max(g.height - oy, oy) >= MAX_RADIUS - 1
    ensures UsedRadius(g, ox, oy, 0, algorithm, true) >= MAX_RADIUS
    ensures UsedRadius(g, ox, oy, 0, algorithm, false) < MAX_RADIUS
  {
    var mx := Max(g.width - ox, ox);
    var my := Max(g.height - oy, oy);
    var n := mx * mx + my * my;
    var s := ISqrt(n);
    if mx >= MAX_RADIUS - 1 {
      SquareBelow(MAX_RADIUS - 1, mx);
    } else {
      SquareBelow(MAX_RADIUS - 1, my);
    }
    assert mx * mx >= 0 && my * my >= 0;
    assert n >= (MAX_RADIUS - 1) * (MAX_RADIUS - 1);
    if s < MAX_RADIUS - 1 {
      SquareBelow(s + 1, MAX_RADIUS - 1);
    }
  }

  // ---------------------------------------------------------------------
  // The clear

  /** RLFL_clear_map(m, CELL_SEEN|CELL_LIT) as a value: every cell loses SEEN and LIT. */
  function Wipe(g: Grid): (gc: Grid)
    requires g.Valid()
    ensures gc.Valid() && gc.width == g.width && gc.height == g.height && gc.pathMaps == g.pathMaps
  {
    g.(cells := seq(|g.cells|, i requires 0 <= i < |g.cells| => g.cells[i] & !CELL_STALE))
  }

  /** No in-grid cell carries SEEN or LIT. */
  ghost predicate Unmarked(g: Grid)
    requires g.Valid()
  {
    forall x, y :: g.InGrid(x, y) ==> Cell(g, x, y) & CELL_STALE == 0
  }

  /** Wipe clears SEEN and LIT on every cell, keeps every other bit, and is idempotent. */
  lemma WipeClears(g: Grid)
    requires g.Valid()
    ensures Unmarked(Wipe(g)) && Wipe(Wipe(g)) == Wipe(g)
    ensures forall x, y :: g.InGrid(x, y) ==> Cell(Wipe(g), x, y) & !CELL_STALE == Cell(g, x, y) & !CELL_STALE
    ensures forall x, y :: IsOpen(Wipe(g), x, y) == IsOpen(g, x, y)
  {
    var gc := Wipe(g);
    forall x, y | g.InGrid(x, y)
      ensures Cell(gc, x, y) & CELL_STALE == 0
      ensures Cell(gc, x, y) & !CELL_STALE == Cell(g, x, y) & !CELL_STALE
      ensures Has(gc, x, y, CELL_OPEN) == Has(g, x, y, CELL_OPEN)
    {
      IdxInRange(g.width, g.height, x, y);
      WipeBits(Cell(g, x, y));
    }
    assert Wipe(gc).cells == gc.cells by {
      forall i | 0 <= i < |gc.cells|
        ensures Wipe(gc).cells[i] == gc.cells[i]
      {
        WipeBits(g.cells[i]);
      }
    }
  }

  lemma WipeBits(v: bv16)
    ensures (v & !CELL_STALE) & CELL_STALE == 0
    ensures (v & !CELL_STALE) & !CELL_STALE == v & !CELL_STALE
    ensures (v & !CELL_STALE) & CELL_OPEN == v & CELL_OPEN
  {
  }

  /** RLFL_clear_map, as the grid's map-wide clear computes it, is Wipe. */
  lemma ClearIsWipe(g: Grid, gc: Grid)
    requires g.Valid() && gc.Valid() && gc.width == g.width && gc.height == g.height && gc.pathMaps == g.pathMaps
    requires forall x, y :: g.InGrid(x, y) ==> Cell(gc, x, y) == Apply(Cell(g, x, y), CELL_STALE, false)
    ensures gc == Wipe(g)
  {
    forall i | 0 <= i < |g.cells|
      ensures gc.cells[i] == Wipe(g).cells[i]
    {
      IndexRow(g.width, g.height, i);
      assert g.InGrid(i % g.width, i / g.width);
    }
    assert gc.cells == Wipe(g).cells;
  }

  // ---------------------------------------------------------------------
  // What a scan leaves behind

  /** Every SEEN cell is one lit allows, and no cell is LIT. */
  ghost predicate Fresh(g: Grid, lit: (int, int) -> bool)
    requires g.Valid()
  {
    forall x, y :: g.InGrid(x, y) ==> (Has(g, x, y, CELL_SEEN) ==> lit(x, y)) && !Has(g, x, y, CELL_LIT)
  }

  /** The cells each algorithm may mark on grid g. */
  ghost function Visible(g: Grid, algorithm: int, ox: int, oy: int, radius: nat, lw: bool): (int, int) -> bool
    requires g.Valid() && Known(algorithm)
  {
    if algorithm == FOV_CIRCULAR then FovCircular.CircularLit(g, ox, oy, radius * radius, lw)
    else if algorithm == FOV_DIAMOND then FovDiamond.DiamondLit(g, ox, oy, radius * radius)
    else if algorithm == FOV_SHADOW then FovShadow.ShadowLit(g, ox, oy, radius, lw)
    else if algorithm == FOV_DIGITAL then FovDigital.DigitalLit(g, ox, oy, radius, lw)
    else if algorithm == FOV_RESTRICTIVE then FovRestrictive.RestrictiveLit(g, ox, oy, radius, lw)
    else FovPermissive.PermissiveLit(g, ox, oy, radius, lw)
  }

  lemma MarkBits(v: bv16)
    requires v & CELL_STALE == 0
    ensures v & CELL_SEEN == 0 && v & CELL_LIT == 0
    ensures (v | CELL_FOV) & CELL_LIT == 0
    ensures FovPermissive.WithSeen(v) & CELL_LIT == 0
    ensures FovRestrictive.Dim(v) & CELL_SEEN == 0 && FovRestrictive.Dim(v) & CELL_LIT == 0
    ensures FovRestrictive.Lit(v) == v | CELL_FOV
  {
  }

  /** Marks set by LitOnly on an unmarked grid are fresh. */
  lemma LitOnlyFresh(g: Grid, g': Grid, lit: (int, int) -> bool)
    requires g.Valid() && g'.Valid() && Unmarked(g) && LitOnly(g, g', lit)
    ensures Fresh(g', lit)
  {
    forall x, y | g'.InGrid(x, y)
      ensures (Has(g', x, y, CELL_SEEN) ==> lit(x, y)) && !Has(g', x, y, CELL_LIT)
    {
      MarkBits(Cell(g, x, y));
    }
  }

  /** Outcomes of the restrictive scan on an unmarked grid are fresh. */
  lemma MarksOnlyFresh(g: Grid, g': Grid, ox: int, oy: int, radius: nat, lw: bool)
    requires g.Valid() && g'.Valid() && Unmarked(g) && FovRestrictive.MarksOnly(g, g', ox, oy, 0, radius, lw)
    ensures Fresh(g', FovRestrictive.RestrictiveLit(g, ox, oy, radius, lw))
  {
    forall x, y | g'.InGrid(x, y)
      ensures (Has(g', x, y, CELL_SEEN) ==> FovRestrictive.RestrictiveLit(g, ox, oy, radius, lw)(x, y)) && !Has(g', x, y, CELL_LIT)
    {
      MarkBits(Cell(g, x, y));
      if Cell(g', x, y) != Cell(g, x, y) {
        FovRestrictive.OutcomeSeen(Cell(g, x, y), Cell(g', x, y), lw || (x == ox && y == oy));
      }
    }
  }

  /** SEEN marks of the permissive scan on an unmarked grid are fresh. */
  lemma SeenOnlyFresh(g: Grid, g': Grid, lit: (int, int) -> bool)
    requires g.Valid() && g'.Valid() && Unmarked(g) && FovPermissive.SeenOnly(g, g', lit)
    ensures Fresh(g', lit)
  {
    forall x, y | g'.InGrid(x, y)
      ensures (Has(g', x, y, CELL_SEEN) ==> lit(x, y)) && !Has(g', x, y, CELL_LIT)
    {
      MarkBits(Cell(g, x, y));
    }
  }

  lemma MarkedIsSeen(g: Grid, x: int, y: int)
    requires g.Valid() && g.InGrid(x, y) && Marked(g, x, y)
    ensures Has(g, x, y, CELL_SEEN)
  {
  }

  // ---------------------------------------------------------------------
  // The switch

  /**
   * The switch of RLFL_fov on a known algorithm: the algorithm's own radius check (circular,
   * digital, restrictive) comes first and leaves the grid alone; otherwise the scan succeeds,
   * the origin is SEEN, and on a grid without SEEN or LIT the only SEEN cells afterwards are
   * those the algorithm may mark, and no cell is LIT. With asWritten the permissive scan is the
   * one whose loop guard stops it before any quadrant cell, so the origin alone is SEEN.
   */
  method Scan(g: Grid, ox: int, oy: int, radius: nat, algorithm: int, lw: bool, asWritten: bool) returns (r: int, g': Grid)
    requires g.Valid() && g.InGrid(ox, oy) && Known(algorithm)
    ensures g'.Valid() && g'.width == g.width && g'.height == g.height && g'.pathMaps == g.pathMaps
    ensures Rechecks(algorithm) && radius >= MAX_RADIUS ==> r == ERR_GENERIC && g' == g
    ensures !(Rechecks(algorithm) && radius >= MAX_RADIUS) ==>
      && r == SUCCESS && Has(g', ox, oy, CELL_SEEN)
      && (Unmarked(g) ==> Fresh(g', Visible(g, algorithm, ox, oy, radius, lw)))
    ensures asWritten && algorithm == FOV_PERMISSIVE && Unmarked(g) ==> Fresh(g', OriginOnly(ox, oy))
  {
    if Rechecks(algorithm) {
      r, g' := ScanChecked(g, ox, oy, radius, algorithm, lw);
    } else {
      r, g' := ScanUnchecked(g, ox, oy, radius, algorithm, lw, asWritten);
    }
  }

  /** The cases FOV_CIRCULAR, FOV_DIGITAL and FOV_RESTRICTIVE, whose entry points check the radius again. */
  method ScanChecked(g: Grid, ox: int, oy: int, radius: nat, algorithm: int, lw: bool) returns (r: int, g': Grid)
    requires g.Valid() && g.InGrid(ox, oy) && Known(algorithm) && Rechecks(algorithm)
    ensures g'.Valid() && g'.width == g.width && g'.height == g.height && g'.pathMaps == g.pathMaps
    ensures radius >= MAX_RADIUS ==> r == ERR_GENERIC && g' == g
    ensures radius < MAX_RADIUS ==>
      && r == SUCCESS && Has(g', ox, oy, CELL_SEEN)
      && (Unmarked(g) ==> Fresh(g', Visible(g, algorithm, ox, oy, radius, lw)))
  {
    if algorithm == FOV_CIRCULAR {
      r, g' := FovCircular.Circular(g, ox, oy, radius, lw);
      if radius < MAX_RADIUS {
        MarkedIsSeen(g', ox, oy);
        if Unmarked(g) {
          LitOnlyFresh(g, g', FovCircular.CircularLit(g, ox, oy, radius * radius, lw));
        }
      }
    } else if algorithm == FOV_DIGITAL {
      r, g' := FovDigital.Digital(g, ox, oy, radius, lw);
      if radius < MAX_RADIUS {
        MarkedIsSeen(g', ox, oy);
        if Unmarked(g) {
          LitOnlyFresh(g, g', FovDigital.DigitalLit(g, ox, oy, radius, lw));
        }
      }
    } else {
      r, g' := ScanRestrictive(g, ox, oy, radius, lw);
    }
  }

  /** The case FOV_RESTRICTIVE. */
  method ScanRestrictive(g: Grid, ox: int, oy: int, radius: nat, lw: bool) returns (r: int, g': Grid)
    requires g.Valid() && g.InGrid(ox, oy)
    ensures g'.Valid() && g'.width == g.width && g'.height == g.height && g'.pathMaps == g.pathMaps
    ensures radius >= MAX_RADIUS ==> r == ERR_GENERIC && g' == g
    ensures radius < MAX_RADIUS ==>
      && r == SUCCESS && Has(g', ox, oy, CELL_SEEN)
      && (Unmarked(g) ==> Fresh(g', FovRestrictive.RestrictiveLit(g, ox, oy, radius, lw)))
  {
    var res := FovRestrictive.Restrictive(g, ox, oy, radius, lw);
    r, g' := res.0, res.1;
    if radius < MAX_RADIUS {
      MarkedIsSeen(g', ox, oy);
      if Unmarked(g) {
        MarksOnlyFresh(g, g', ox, oy, radius, lw);
      }
    }
  }

  /**
   * The cases FOV_DIAMOND, FOV_SHADOW and FOV_PERMISSIVE, which take any radius; asWritten picks
   * the permissive scan as written.
   */
  method ScanUnchecked(g: Grid, ox: int, oy: int, radius: nat, algorithm: int, lw: bool, asWritten: bool) returns (r: int, g': Grid)
    requires g.Valid() && g.InGrid(ox, oy) && Known(algorithm) && !Rechecks(algorithm)
    ensures g'.Valid() && g'.width == g.width && g'.height == g.height && g'.pathMaps == g.pathMaps
    ensures r == SUCCESS && Has(g', ox, oy, CELL_SEEN)
    ensures Unmarked(g) ==> Fresh(g', Visible(g, algorithm, ox, oy, radius, lw))
    ensures asWritten && algorithm == FOV_PERMISSIVE && Unmarked(g) ==> Fresh(g', OriginOnly(ox, oy))
  {
    if algorithm == FOV_DIAMOND {
      r, g' := FovDiamond.Diamond(g, ox, oy, radius, lw);
      MarkedIsSeen(g', ox, oy);
      if Unmarked(g) {
        LitOnlyFresh(g, g', FovDiamond.DiamondLit(g, ox, oy, radius * radius));
      }
    } else if algorithm == FOV_SHADOW {
      r, g' := FovShadow.Shadow(g, ox, oy, radius, lw);
      MarkedIsSeen(g', ox, oy);
      if Unmarked(g) {
        LitOnlyFresh(g, g', FovShadow.ShadowLit(g, ox, oy, radius, lw));
      }
    } else {
      r, g' := FovPermissive.Run(g, ox, oy, radius, lw, asWritten);
      if Unmarked(g) {
        SeenOnlyFresh(g, g', FovPermissive.PermissiveLit(g, ox, oy, radius, lw));
        if asWritten {
          SeenOnlyFresh(g, g', OriginOnly(ox, oy));
        }
      }
    }
  }

  /**
   * What RLFL_fov leaves once its three checks pass, given the radius it hands on: only map m
   * changes and keeps its shape; it is the cleared map when the algorithm is unknown (reported
   * as OUT_OF_BOUNDS) or rejects the radius (GENERIC); otherwise the call succeeds, the origin is
   * SEEN, every SEEN cell is one the algorithm may mark and no cell is LIT. As written
   * (asWritten), the permissive scan leaves the origin as the only SEEN cell.
   */
  ghost predicate Scanned(st: State, st': State, m: int, ox: int, oy: int, used: nat, algorithm: int, lw: bool, asWritten: bool, r: int)
    requires st.Valid() && st'.Valid() && CellValid(st, m, ox, oy)
  {
    var gc := Wipe(TheMap(st, m));
    && MapValid(st', m)
    && (forall k :: 0 <= k < MAX_MAPS && k != m ==> st'.maps[k] == st.maps[k])
    && st'.paths == st.paths && st'.projects == st.projects
    && TheMap(st', m).width == gc.width && TheMap(st', m).height == gc.height && TheMap(st', m).pathMaps == gc.pathMaps
    && (!Known(algorithm) ==> r == ERR_OUT_OF_BOUNDS && TheMap(st', m) == gc)
    && (Known(algorithm) && Rechecks(algorithm) && used >= MAX_RADIUS ==> r == ERR_GENERIC && TheMap(st', m) == gc)
    && (Known(algorithm) && !(Rechecks(algorithm) && used >= MAX_RADIUS) ==>
          && r == SUCCESS && Has(TheMap(st', m), ox, oy, CELL_SEEN)
          && Fresh(TheMap(st', m), Visible(gc, algorithm, ox, oy, used, lw)))
    && (asWritten && algorithm == FOV_PERMISSIVE ==> Fresh(TheMap(st', m), OriginOnly(ox, oy)))
  }

  /** RLFL_fov, with the automatic radius as written (asWritten) or capped (otherwise). */
  method Dispatch(st: State, m: int, ox: int, oy: int, radius: nat, algorithm: int, lw: bool, asWritten: bool)
    returns (r: int, st': State)
    requires st.Valid()
    ensures st'.Valid()
    ensures !MapValid(st, m) ==> r == ERR_NO_MAP && st' == st
    ensures MapValid(st, m) && !CellValid(st, m, ox, oy) ==> r == ERR_OUT_OF_BOUNDS && st' == st
    ensures CellValid(st, m, ox, oy) && radius >= MAX_RADIUS ==> r == ERR_GENERIC && st' == st
    ensures CellValid(st, m, ox, oy) && radius < MAX_RADIUS ==>
      Scanned(st, st', m, ox, oy, UsedRadius(TheMap(st, m), ox, oy, radius, algorithm, asWritten), algorithm, lw, asWritten, r)
  {
    if !MapValid(st, m) {
      return ERR_NO_MAP, st;
    }
    if !CellValid(st, m, ox, oy) {
      return ERR_OUT_OF_BOUNDS, st;
    }
    if radius >= MAX_RADIUS {
      return ERR_GENERIC, st;
    }
    var g := TheMap(st, m);
    var used := UsedRadius(g, ox, oy, radius, algorithm, asWritten);
    var gc := ApplyMap(g, CELL_STALE, false);
    ClearIsWipe(g, gc);
    WipeClears(g);
    var g' := gc;
    r := ERR_OUT_OF_BOUNDS;
    if Known(algorithm) {
      r, g' := Scan(gc, ox, oy, used, algorithm, lw, asWritten);
    }
    st' := WithMap(st, m, g');
  }

  /**
   * RLFL_fov with the automatic radius capped at MAX_RADIUS - 1 for the algorithms that reject
   * larger radii: the checks come in the order NO_MAP, OUT_OF_BOUNDS, GENERIC with nothing
   * written, and past them every known algorithm succeeds, radius 0 included.
   */
  method FieldOfView(st: State, m: int, ox: int, oy: int, radius: nat, algorithm: int, lw: bool) returns (r: int, st': State)
    requires st.Valid()
    ensures st'.Valid()
    ensures !MapValid(st, m) ==> r == ERR_NO_MAP && st' == st
    ensures MapValid(st, m) && !CellValid(st, m, ox, oy) ==> r == ERR_OUT_OF_BOUNDS && st' == st
    ensures CellValid(st, m, ox, oy) && radius >= MAX_RADIUS ==> r == ERR_GENERIC && st' == st
    ensures CellValid(st, m, ox, oy) && radius < MAX_RADIUS ==>
      Scanned(st, st', m, ox, oy, UsedRadius(TheMap(st, m), ox, oy, radius, algorithm, false), algorithm, lw, false, r)
    ensures CellValid(st, m, ox, oy) && radius < MAX_RADIUS ==> (r == SUCCESS <==> Known(algorithm))
  {
    r, st' := Dispatch(st, m, ox, oy, radius, algorithm, lw, false);
  }

  /**
   * RLFL_fov as written: the automatic radius is handed on uncapped, so circular, digital and
   * restrictive answer GENERIC for it once it reaches MAX_RADIUS, after the map has been
   * cleared (see WholeMapRadiusRejected for a map where it does); and FOV_PERMISSIVE runs the
   * permissive scan as written, so on success the origin is the one SEEN cell of the map.
   */
  method FieldOfViewAsWritten(st: State, m: int, ox: int, oy: int, radius: nat, algorithm: int, lw: bool) returns (r: int, st': State)
    requires st.Valid()
    ensures st'.Valid()
    ensures !MapValid(st, m) ==> r == ERR_NO_MAP && st' == st
    ensures MapValid(st, m) && !CellValid(st, m, ox, oy) ==> r == ERR_OUT_OF_BOUNDS && st' == st
    ensures CellValid(st, m, ox, oy) && radius >= MAX_RADIUS ==> r == ERR_GENERIC && st' == st
    ensures CellValid(st, m, ox, oy) && radius < MAX_RADIUS ==>
      Scanned(st, st', m, ox, oy, UsedRadius(TheMap(st, m), ox, oy, radius, algorithm, true), algorithm, lw, true, r)
    ensures CellValid(st, m, ox, oy) && radius < MAX_RADIUS && algorithm == FOV_PERMISSIVE ==>
      && r == SUCCESS
      && forall x, y :: TheMap(st', m).InGrid(x, y) ==> (Has(TheMap(st', m), x, y, CELL_SEEN) <==> x == ox && y == oy)
  {
    r, st' := Dispatch(st, m, ox, oy, radius, algorithm, lw, true);
  }
}
