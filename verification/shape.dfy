/**
 * The cells a projection collects (project.c): the origin, the beam along the
 * basic path, then either a ball of rings around the epicentre (ball_shape) or
 * a cone of arcs fanning out from the origin (breath_shape). add_step records
 * a cell at most once, so every list here is duplicate-free and in scan order.
 */
module Shape {
  import opened Util
  import opened Defines
  import opened Grid
  import opened Store

  predicate NoDup(s: seq<Step>)
  {
    forall i, j :: 0 <= i < j < |s| ==> s[i] != s[j]
  }

  /** r keeps acc as its prefix: cells are only ever appended. */
  predicate Extends(acc: seq<Step>, r: seq<Step>)
  {
    |acc| <= |r| && r[..|acc|] == acc
  }

  lemma ExtendsTrans(a: seq<Step>, b: seq<Step>, c: seq<Step>)
    requires Extends(a, b) && Extends(b, c)
    ensures Extends(a, c)
  {
    assert c[..|a|] == c[..|b|][..|a|];
  }

  predicate Flag(flg: bv16, b: bv16)
  {
    flg & b != 0
  }

  /** add_step: append the cell unless it is already recorded. */
  function AddStep(acc: seq<Step>, c: Step): seq<Step>
  {
    if c in acc then acc else acc + [c]
  }

  /** add_step keeps the list duplicate-free, only appends, and adds exactly c. */
  lemma AddStepFacts(acc: seq<Step>, c: Step)
    ensures var r := AddStep(acc, c);
      && (NoDup(acc) ==> NoDup(r))
      && (forall e :: e in r <==> e in acc || e == c)
      && Extends(acc, r) && |r| <= |acc| + 1
  {
  }

  // ---------------------------------------------------------------------
  // Square scans

  /** One row of a scan: x from x to x1 on row y, recording each cell ring d accepts. */
  function ScanRow(acc: seq<Step>, ring: (int, Step) -> bool, d: int, x: int, x1: int, y: int): (r: seq<Step>)
    decreases x1 - x + 1
    ensures NoDup(acc) ==> NoDup(r)
    ensures Extends(acc, r)
    ensures forall c :: c in r <==> c in acc || (c.y == y && x <= c.x <= x1 && ring(d, c))
  {
    if x > x1 then acc
    else
      AddStepFacts(acc, Step(x, y));
      var acc' := if ring(d, Step(x, y)) then AddStep(acc, Step(x, y)) else acc;
      var r := ScanRow(acc', ring, d, x + 1, x1, y);
      ExtendsTrans(acc, acc', r);
      r
  }

  /** The rows y..y1 of a scan, each from x0 to x1 (the nested loops of ball_shape and breath_shape). */
  function ScanBox(acc: seq<Step>, ring: (int, Step) -> bool, d: int, x0: int, x1: int, y: int, y1: int): (r: seq<Step>)
    decreases y1 - y + 1
    ensures NoDup(acc) ==> NoDup(r)
    ensures Extends(acc, r)
    ensures forall c :: c in r <==> c in acc || (y <= c.y <= y1 && x0 <= c.x <= x1 && ring(d, c))
  {
    if y > y1 then acc
    else
      var acc' := ScanRow(acc, ring, d, x0, x1, y);
      var r := ScanBox(acc', ring, d, x0, x1, y + 1, y1);
      ExtendsTrans(acc, acc', r);
      r
  }

  /** The scan square of radius d around (cx, cy). */
  predicate InSquare(cx: int, cy: int, d: int, c: Step)
  {
    cx - d <= c.x <= cx + d && cy - d <= c.y <= cy + d
  }

  /** A cell at distance d from b lies in the square of radius d around b. */
  lemma DistanceInSquare(b: Step, c: Step)
    ensures InSquare(b.x, b.y, Distance(b.x, b.y, c.x, c.y), c)
  {
    DistanceProperties(b.x, b.y, c.x, c.y);
  }

  /**
   * Rings d..rad around b, inside out: ring e scans the square of radius e around b row by
   * row and records the cells ring(e, _) accepts. ball_shape and each ripple of breath_shape
   * are this loop with their own ring test.
   */
  function Rings(acc: seq<Step>, cx: int, cy: int, d: int, rad: int, ring: (int, Step) -> bool): (r: seq<Step>)
    decreases rad - d + 1
  {
    if d > rad then acc
    else Rings(ScanBox(acc, ring, d, cx - d, cx + d, cy - d, cy + d), cx, cy, d + 1, rad, ring)
  }

  /** When every ring lies in its scan square, the rings record exactly their cells, each once, after acc. */
  lemma {:induction false} RingsCells(acc: seq<Step>, cx: int, cy: int, d: int, rad: int, ring: (int, Step) -> bool)
    requires forall e, c :: ring(e, c) ==> InSquare(cx, cy, e, c)
    decreases rad - d + 1
    ensures var r := Rings(acc, cx, cy, d, rad, ring);
      && (NoDup(acc) ==> NoDup(r))
      && Extends(acc, r)
      && forall c :: c in r <==> (c in acc || exists e :: d <= e <= rad && ring(e, c))
  {
    if d <= rad {
      var acc' := ScanBox(acc, ring, d, cx - d, cx + d, cy - d, cy + d);
      var r := Rings(acc', cx, cy, d + 1, rad, ring);
      RingsCells(acc', cx, cy, d + 1, rad, ring);
      ExtendsTrans(acc, acc', r);
      forall c
        ensures c in r <==> (c in acc || exists e :: d <= e <= rad && ring(e, c))
      {
        if c in acc' && c !in acc {
          assert ring(d, c);
        }
        if e :| d <= e <= rad && ring(e, c) {
          if e == d {
            assert InSquare(cx, cy, d, c);
          }
        }
      }
    }
  }

  /** The wall test of ball and cone: an in-grid cell that is OPEN, or any in-grid cell when walls are ignored. */
  predicate Admits(g: Grid, thru: bool, c: Step)
    requires g.Valid()
  {
    g.InGrid(c.x, c.y) && (thru || Has(g, c.x, c.y, CELL_OPEN))
  }

  // ---------------------------------------------------------------------
  // Ball

  /** ball_shape's ripple test on the square of radius d: square, diamond or (default) circular. */
  predicate RingTest(flg: bv16, b: Step, d: int, c: Step)
  {
    var dx, dy := c.x - b.x, c.y - b.y;
    if Flag(flg, PROJECT_SQUARE) then Abs(dx) == d || Abs(dy) == d
    else if Flag(flg, PROJECT_DIAMOND) then
      if dx != 0 && dy != 0 then Abs(dx) + Abs(dy) == d else Distance(b.x, b.y, c.x, c.y) == d
    else Distance(b.x, b.y, c.x, c.y) == d
  }

  /**
   * The metric whose level sets are the ripples: Chebyshev distance for SQUARE, Manhattan distance
   * for DIAMOND (on an axis RLFL_distance agrees with it), RLFL_distance otherwise.
   */
  function RingMetric(flg: bv16, b: Step, c: Step): nat
  {
    if Flag(flg, PROJECT_SQUARE) then Chebyshev(b.x, b.y, c.x, c.y)
    else if Flag(flg, PROJECT_DIAMOND) then Abs(c.x - b.x) + Abs(c.y - b.y)
    else Distance(b.x, b.y, c.x, c.y)
  }

  /** A cell of the scan square of radius e passes the ripple test for e exactly when its metric is e. */
  lemma RingIsLevelSet(flg: bv16, b: Step, e: int, c: Step)
    ensures InSquare(b.x, b.y, e, c) && RingTest(flg, b, e, c) <==> RingMetric(flg, b, c) == e
  {
    DistanceInSquare(b, c);
  }

  /** A cell ball_shape records for ring d around b. */
  predicate InRing(g: Grid, flg: bv16, b: Step, d: int, c: Step)
    requires g.Valid()
  {
    InSquare(b.x, b.y, d, c) && RingTest(flg, b, d, c) && Admits(g, Flag(flg, PROJECT_THRU), c)
  }

  /** ball_shape from ring d outward to ring rad around b. */
  function Ball(g: Grid, acc: seq<Step>, b: Step, d: int, rad: int, flg: bv16): (r: seq<Step>)
    requires g.Valid()
  {
    Rings(acc, b.x, b.y, d, rad, (e, c) => InRing(g, flg, b, e, c))
  }

  /** The ball records exactly the cells of rings d..rad, each once, after the cells it was given. */
  lemma BallCells(g: Grid, acc: seq<Step>, b: Step, d: int, rad: int, flg: bv16)
    requires g.Valid()
    ensures var r := Ball(g, acc, b, d, rad, flg);
      && (NoDup(acc) ==> NoDup(r))
      && Extends(acc, r)
      && forall c :: c in r <==> (c in acc || exists e :: d <= e <= rad && InRing(g, flg, b, e, c))
  {
    var ring := (e, c) => InRing(g, flg, b, e, c);
    RingsCells(acc, b.x, b.y, d, rad, ring);
    forall e, c | InRing(g, flg, b, e, c)
      ensures ring(e, c)
    {
    }
  }

  /**
   * The rings d..rad of a ball hold exactly the admitted cells whose ring metric lies in d..rad:
   * a filled square, diamond or RLFL_distance disc (an annulus with SHEL).
   */
  lemma BallShape(g: Grid, flg: bv16, b: Step, d: int, rad: int, c: Step)
    requires g.Valid()
    ensures (exists e :: d <= e <= rad && InRing(g, flg, b, e, c))
        <==> (Admits(g, Flag(flg, PROJECT_THRU), c) && d <= RingMetric(flg, b, c) <= rad)
  {
    var m := RingMetric(flg, b, c);
    RingIsLevelSet(flg, b, m, c);
    if Admits(g, Flag(flg, PROJECT_THRU), c) && d <= m <= rad {
      assert InRing(g, flg, b, m, c);
    }
    if e :| d <= e <= rad && InRing(g, flg, b, e, c) {
      RingIsLevelSet(flg, b, e, c);
    }
  }

  // ---------------------------------------------------------------------
  // Cone

  /** A cell breath_shape records at origin distance bdis and base distance cdis. */
  predicate ArcCell(g: Grid, thru: bool, origin: Step, bdis: int, base: Step, cdis: int, c: Step)
    requires g.Valid()
  {
    Admits(g, thru, c) && Distance(origin.x, origin.y, c.x, c.y) == bdis && Distance(base.x, base.y, c.x, c.y) == cdis
  }

  /** The arcs of one ripple: base distances cdis..brad around the base. */
  function Arcs(g: Grid, acc: seq<Step>, thru: bool, origin: Step, bdis: int, base: Step, cdis: int, brad: int): (r: seq<Step>)
    requires g.Valid()
  {
    Rings(acc, base.x, base.y, cdis, brad, (e, c) => ArcCell(g, thru, origin, bdis, base, e, c))
  }

  /** One ripple records the admitted cells at origin distance bdis whose base distance is in cdis..brad. */
  lemma ArcsCells(g: Grid, acc: seq<Step>, thru: bool, origin: Step, bdis: int, base: Step, cdis: int, brad: int)
    requires g.Valid()
    ensures var r := Arcs(g, acc, thru, origin, bdis, base, cdis, brad);
      && (NoDup(acc) ==> NoDup(r))
      && Extends(acc, r)
      && forall c :: c in r <==> (c in acc ||
           (Admits(g, thru, c) && Distance(origin.x, origin.y, c.x, c.y) == bdis
            && cdis <= Distance(base.x, base.y, c.x, c.y) <= brad))
  {
    var ring := (e, c) => ArcCell(g, thru, origin, bdis, base, e, c);
    forall e, c | ring(e, c)
      ensures InSquare(base.x, base.y, e, c)
    {
      DistanceInSquare(base, c);
    }
    RingsCells(acc, base.x, base.y, cdis, brad, ring);
    forall c | Admits(g, thru, c) && Distance(origin.x, origin.y, c.x, c.y) == bdis
               && cdis <= Distance(base.x, base.y, c.x, c.y) <= brad
      ensures ring(Distance(base.x, base.y, c.x, c.y), c)
    {
    }
  }

  /** One ripple of the cone: its origin distance, its base point on the beam, and its arc radius. */
  datatype Ripple = Ripple(bdis: int, base: Step, brad: int)

  /** A cell of a cone ripple: admitted, on the ripple's circle around the origin, within brad of the base. */
  predicate ConeCell(g: Grid, thru: bool, origin: Step, rp: Ripple, c: Step)
    requires g.Valid()
  {
    Admits(g, thru, c) && Distance(origin.x, origin.y, c.x, c.y) == rp.bdis
    && Distance(rp.base.x, rp.base.y, c.x, c.y) <= rp.brad
  }

  /** The arc radius after path_index beam cells: rad*(path_index+brev)/(dist+brev), truncated as C does. */
  function ConeRadius(rad: int, pathIndex: nat, brev: nat, dist: nat): int
    requires dist + brev > 0
  {
    CDiv(rad * (pathIndex + brev), dist + brev)
  }

  /**
   * breath_shape from ripple bdis to mdis: the base moves to the next beam cell once the ripple
   * has reached it, the arcs of the ripple are recorded, and the arc radius grows with the base.
   * Also returns the ripples it drew, for the specification.
   */
  function ConeFrom(g: Grid, acc: seq<Step>, thru: bool, origin: Step, trace: seq<Step>, dist: nat, rad: int,
                    brev: nat, mdis: int, bdis: int, base: Step, pathIndex: nat, brad: int): (r: (seq<Step>, seq<Ripple>))
    requires g.Valid() && 0 < dist <= |trace| && pathIndex <= dist
    decreases mdis - bdis + 1
  {
    if bdis > mdis then (acc, [])
    else
      var nx := ConeAdvance(origin, trace, dist, bdis, base, pathIndex);
      var rest := ConeFrom(g, Arcs(g, acc, thru, origin, bdis, nx.0, 0, brad), thru, origin, trace, dist, rad, brev,
                           mdis, bdis + 1, nx.0, nx.1, ConeRadius(rad, nx.1, brev, dist));
      (rest.0, [Ripple(bdis, nx.0, brad)] + rest.1)
  }

  /**
   * The base and path index for ripple bdis: the base moves to the next beam cell once the
   * ripple's origin distance has reached that cell's.
   */
  function ConeAdvance(origin: Step, trace: seq<Step>, dist: nat, bdis: int, base: Step, pathIndex: nat): (r: (Step, nat))
    requires dist <= |trace| && pathIndex <= dist
    ensures r.1 <= dist && (r.0 == base || r.0 in trace[..dist])
  {
    if pathIndex < dist && bdis >= Distance(trace[pathIndex].x, trace[pathIndex].y, origin.x, origin.y) then
      assert trace[..dist][pathIndex] == trace[pathIndex];
      (trace[pathIndex], pathIndex + 1)
    else (base, pathIndex)
  }

  /** brad never exceeds the requested radius (or 0 for a negative one), since path_index <= dist. */
  lemma ConeRadiusBound(rad: int, pathIndex: nat, brev: nat, dist: nat)
    requires dist + brev > 0 && pathIndex <= dist
    ensures ConeRadius(rad, pathIndex, brev, dist) <= Max(rad, 0)
  {
    ScaledBound(rad, pathIndex + brev, dist + brev);
    CDivAtMost(rad * (pathIndex + brev), dist + brev, Max(rad, 0));
  }

  lemma ScaledBound(rad: int, n: nat, b: nat)
    requires n <= b
    ensures rad * n <= Max(rad, 0) * b
  {
    if rad >= 0 {
      MulMonotone(n, b, rad);
    } else {
      MulMonotone(0, n, -rad);
    }
  }

  /** Truncating division by a positive b of anything at most r * b is at most r. */
  lemma CDivAtMost(a: int, b: int, r: nat)
    requires 0 < b && a <= r * b
    ensures CDiv(a, b) <= r
  {
    if a >= 0 {
      DivAtMost(a, b, r);
    }
  }

  lemma DivAtMost(a: int, b: int, r: int)
    requires 0 <= a && 0 < b && a <= r * b
    ensures a / b <= r
  {
    var q := a / b;
    assert q * b <= a;
    if q > r {
      MulMonotone(r + 1, q, b);
    }
  }

  /**
   * The ripples of the cone from ripple bdis on: one per origin distance bdis..mdis, each based
   * on the current base or on one of the first dist beam cells, with an arc radius no larger
   * than rad.
   */
  lemma {:induction false} ConeRipples(g: Grid, acc: seq<Step>, thru: bool, origin: Step, trace: seq<Step>, dist: nat,
                                       rad: int, brev: nat, mdis: int, bdis: int, base: Step, pathIndex: nat, brad: int)
    requires g.Valid() && 0 < dist <= |trace| && pathIndex <= dist && brad <= Max(rad, 0)
    decreases mdis - bdis + 1
    ensures var rs := ConeFrom(g, acc, thru, origin, trace, dist, rad, brev, mdis, bdis, base, pathIndex, brad).1;
      && |rs| == Max(mdis - bdis + 1, 0)
      && forall k :: 0 <= k < |rs| ==>
           && rs[k].bdis == bdis + k && rs[k].brad <= Max(rad, 0)
           && (rs[k].base == base || rs[k].base in trace[..dist])
  {
    if bdis <= mdis {
      var nx := ConeAdvance(origin, trace, dist, bdis, base, pathIndex);
      ConeRadiusBound(rad, nx.1, brev, dist);
      ConeRipples(g, Arcs(g, acc, thru, origin, bdis, nx.0, 0, brad), thru, origin, trace, dist, rad, brev, mdis,
                  bdis + 1, nx.0, nx.1, ConeRadius(rad, nx.1, brev, dist));
      var rest := ConeFrom(g, Arcs(g, acc, thru, origin, bdis, nx.0, 0, brad), thru, origin, trace, dist, rad, brev,
                           mdis, bdis + 1, nx.0, nx.1, ConeRadius(rad, nx.1, brev, dist)).1;
      RipplesStep(trace, dist, rad, bdis, base, Ripple(bdis, nx.0, brad), rest);
    }
  }

  lemma RipplesStep(trace: seq<Step>, dist: nat, rad: int, bdis: int, base: Step, rp: Ripple, rest: seq<Ripple>)
    requires dist <= |trace|
    requires rp.bdis == bdis && rp.brad <= Max(rad, 0) && (rp.base == base || rp.base in trace[..dist])
    requires forall k :: 0 <= k < |rest| ==>
               && rest[k].bdis == bdis + 1 + k && rest[k].brad <= Max(rad, 0)
               && (rest[k].base == rp.base || rest[k].base in trace[..dist])
    ensures forall k :: 0 <= k < |[rp] + rest| ==>
              && ([rp] + rest)[k].bdis == bdis + k && ([rp] + rest)[k].brad <= Max(rad, 0)
              && (([rp] + rest)[k].base == base || ([rp] + rest)[k].base in trace[..dist])
  {
    var rs := [rp] + rest;
    forall k | 0 <= k < |rs|
      ensures rs[k].bdis == bdis + k && rs[k].brad <= Max(rad, 0) && (rs[k].base == base || rs[k].base in trace[..dist])
    {
      if k > 0 {
        assert rs[k] == rest[k - 1];
      }
    }
  }

  /** r extends acc, keeps it duplicate-free, and adds exactly the cone cells of the ripples rs. */
  ghost predicate ConeCover(g: Grid, thru: bool, origin: Step, acc: seq<Step>, r: seq<Step>, rs: seq<Ripple>)
    requires g.Valid()
  {
    && (NoDup(acc) ==> NoDup(r))
    && Extends(acc, r)
    && forall c :: c in r <==> (c in acc || exists k :: 0 <= k < |rs| && ConeCell(g, thru, origin, rs[k], c))
  }

  /** The cone records exactly the admitted cells of its ripples, each once, after the cells it was given. */
  lemma {:induction false} ConeCells(g: Grid, acc: seq<Step>, thru: bool, origin: Step, trace: seq<Step>, dist: nat,
                                     rad: int, brev: nat, mdis: int, bdis: int, base: Step, pathIndex: nat, brad: int)
    requires g.Valid() && 0 < dist <= |trace| && pathIndex <= dist
    decreases mdis - bdis + 1
    ensures var r := ConeFrom(g, acc, thru, origin, trace, dist, rad, brev, mdis, bdis, base, pathIndex, brad);
      ConeCover(g, thru, origin, acc, r.0, r.1)
  {
    if bdis <= mdis {
      var nx := ConeAdvance(origin, trace, dist, bdis, base, pathIndex);
      var acc' := Arcs(g, acc, thru, origin, bdis, nx.0, 0, brad);
      ArcsCells(g, acc, thru, origin, bdis, nx.0, 0, brad);
      ConeCells(g, acc', thru, origin, trace, dist, rad, brev, mdis, bdis + 1, nx.0, nx.1, ConeRadius(rad, nx.1, brev, dist));
      var rest := ConeFrom(g, acc', thru, origin, trace, dist, rad, brev, mdis, bdis + 1, nx.0, nx.1, ConeRadius(rad, nx.1, brev, dist));
      ConeStep(g, thru, origin, acc, acc', rest.0, Ripple(bdis, nx.0, brad), rest.1);
    }
  }

  /** One ripple of ConeCells: the cells of the ripple drawn now and of the rest combine. */
  lemma ConeStep(g: Grid, thru: bool, origin: Step, acc: seq<Step>, acc': seq<Step>, r: seq<Step>, rp: Ripple, rest: seq<Ripple>)
    requires g.Valid()
    requires (NoDup(acc) ==> NoDup(acc')) && Extends(acc, acc')
    requires forall c :: c in acc' <==> (c in acc ||
               (Admits(g, thru, c) && Distance(origin.x, origin.y, c.x, c.y) == rp.bdis
                && 0 <= Distance(rp.base.x, rp.base.y, c.x, c.y) <= rp.brad))
    requires ConeCover(g, thru, origin, acc', r, rest)
    ensures ConeCover(g, thru, origin, acc, r, [rp] + rest)
  {
    ExtendsTrans(acc, acc', r);
    var rs := [rp] + rest;
    forall c
      ensures c in r <==> (c in acc || exists k :: 0 <= k < |rs| && ConeCell(g, thru, origin, rs[k], c))
    {
      if k :| 0 <= k < |rs| && ConeCell(g, thru, origin, rs[k], c) {
        if k > 0 {
          assert rs[k] == rest[k - 1];
        }
      }
      if k :| 0 <= k < |rest| && ConeCell(g, thru, origin, rest[k], c) {
        assert rs[k + 1] == rest[k];
      }
      if c in acc' && c !in acc {
        assert ConeCell(g, thru, origin, rs[0], c);
      }
    }
  }

  // ---------------------------------------------------------------------
  // Beam

  /**
   * The beam's wall test: an in-grid cell that is not OPEN stops it unless THRU is set. For an
   * off-grid cell has_flag returns an error code, which C reads as true, so such a cell never
   * stops the beam.
   */
  predicate Blocks(g: Grid, flg: bv16, c: Step)
    requires g.Valid()
  {
    !Flag(flg, PROJECT_THRU) && g.InGrid(c.x, c.y) && !Has(g, c.x, c.y, CELL_OPEN)
  }

  /** Blocks is the C test `!has_flag(m, x, y, CELL_OPEN) && !(flg & PROJECT_THRU)` read through has_flag's result codes. */
  lemma BlocksIsHasFlag(g: Grid, flg: bv16, c: Step)
    requires g.Valid()
    ensures Blocks(g, flg, c) <==> HasCode(g, c.x, c.y, CELL_OPEN as nat) == 0 && !Flag(flg, PROJECT_THRU)
  {
    ConstBits(CELL_OPEN);
  }

  /**
   * Where the beam stopped: the cells recorded so far, how many path cells it recorded (len),
   * the loop index it stopped at (size, which becomes C's path_size) and the last recorded cell
   * (the blast epicentre).
   */
  datatype BeamEnd = BeamEnd(cells: seq<Step>, len: nat, size: nat, epicentre: Step)

  /**
   * The beam loop of RLFL_project from path index i: stop before a blocked cell, record the
   * cell, and stop after it when it is the target and PASS is not set; at most range cells.
   * The wall test is passed in as `blocked` (Blocks for the map and flags) and PASS as `pass`.
   */
  function Beam(trace: seq<Step>, target: Step, range: int, blocked: Step -> bool, pass: bool,
                i: nat, acc: seq<Step>, last: Step): (b: BeamEnd)
    requires i <= |trace|
    decreases |trace| - i
    ensures i <= b.size <= b.len <= |trace|
  {
    if i < |trace| && i < range then
      if blocked(trace[i]) then BeamEnd(acc, i, i, last)
      else
        var acc' := AddStep(acc, trace[i]);
        if !pass && trace[i] == target then BeamEnd(acc', i + 1, i, trace[i])
        else Beam(trace, target, range, blocked, pass, i + 1, acc', trace[i])
    else BeamEnd(acc, i, i, last)
  }

  /**
   * The beam records at most range cells, none of them blocked, and stops at the first blocked
   * cell, at the target (unless PASS), at the end of the path or at range; its epicentre is the
   * last cell it recorded.
   */
  lemma BeamStops(trace: seq<Step>, target: Step, range: int, blocked: Step -> bool, pass: bool,
                  i: nat, acc: seq<Step>, last: Step)
    requires i <= |trace|
    ensures var b := Beam(trace, target, range, blocked, pass, i, acc, last);
      && b.len <= b.size + 1 && b.len <= Max(i, range)
      && (forall k :: i <= k < b.len ==> !blocked(trace[k]))
      && (forall k :: i <= k < b.size ==> pass || trace[k] != target)
      && (b.len == b.size + 1 ==> !pass && trace[b.size] == target)
      && (b.len == b.size ==> b.size == |trace| || b.size >= range || blocked(trace[b.size]))
      && b.epicentre == (if b.len == i then last else trace[b.len - 1])
  {
    BeamBounds(trace, target, range, blocked, pass, i, acc, last);
    BeamTargetStop(trace, target, range, blocked, pass, i, acc, last);
    BeamWhyStop(trace, target, range, blocked, pass, i, acc, last);
    BeamEpicentre(trace, target, range, blocked, pass, i, acc, last);
    BeamUnblocked(trace, target, range, blocked, pass, i, acc, last);
    BeamBeforeTarget(trace, target, range, blocked, pass, i, acc, last);
  }

  /** How far the beam gets: at most one cell past its recorded size, and not beyond the range. */
  lemma {:induction false} BeamBounds(trace: seq<Step>, target: Step, range: int, blocked: Step -> bool, pass: bool,
      i: nat, acc: seq<Step>, last: Step)
    requires i <= |trace|
    decreases |trace| - i
    ensures var b := Beam(trace, target, range, blocked, pass, i, acc, last);
      b.len <= b.size + 1 && b.len <= Max(i, range)
  {
    if i < |trace| && i < range && !blocked(trace[i]) && (pass || trace[i] != target) {
      BeamBounds(trace, target, range, blocked, pass, i + 1, AddStep(acc, trace[i]), trace[i]);
    }
  }

  /** A beam one cell longer than its size stopped on the target, which PASS would have let it cross. */
  lemma {:induction false} BeamTargetStop(trace: seq<Step>, target: Step, range: int, blocked: Step -> bool, pass: bool,
      i: nat, acc: seq<Step>, last: Step)
    requires i <= |trace|
    decreases |trace| - i
    ensures var b := Beam(trace, target, range, blocked, pass, i, acc, last);
      b.len == b.size + 1 ==> !pass && trace[b.size] == target
  {
    if i < |trace| && i < range && !blocked(trace[i]) && (pass || trace[i] != target) {
      BeamTargetStop(trace, target, range, blocked, pass, i + 1, AddStep(acc, trace[i]), trace[i]);
    }
  }

  /** A beam as long as its size stopped at the end of the path, at the range or before a blocked cell. */
  lemma {:induction false} BeamWhyStop(trace: seq<Step>, target: Step, range: int, blocked: Step -> bool, pass: bool,
      i: nat, acc: seq<Step>, last: Step)
    requires i <= |trace|
    decreases |trace| - i
    ensures var b := Beam(trace, target, range, blocked, pass, i, acc, last);
      b.len == b.size ==> b.size == |trace| || b.size >= range || blocked(trace[b.size])
  {
    if i < |trace| && i < range && !blocked(trace[i]) && (pass || trace[i] != target) {
      BeamWhyStop(trace, target, range, blocked, pass, i + 1, AddStep(acc, trace[i]), trace[i]);
    }
  }

  /** The epicentre is the last cell the beam passed, or the given cell when it passed none. */
  lemma {:induction false} BeamEpicentre(trace: seq<Step>, target: Step, range: int, blocked: Step -> bool, pass: bool,
      i: nat, acc: seq<Step>, last: Step)
    requires i <= |trace|
    decreases |trace| - i
    ensures var b := Beam(trace, target, range, blocked, pass, i, acc, last);
      b.epicentre == (if b.len == i then last else trace[b.len - 1])
  {
    if i < |trace| && i < range && !blocked(trace[i]) && (pass || trace[i] != target) {
      BeamEpicentre(trace, target, range, blocked, pass, i + 1, AddStep(acc, trace[i]), trace[i]);
    }
  }

  /** No cell the beam passed is blocked. */
  lemma {:induction false} BeamUnblocked(trace: seq<Step>, target: Step, range: int, blocked: Step -> bool, pass: bool,
      i: nat, acc: seq<Step>, last: Step)
    requires i <= |trace|
    decreases |trace| - i
    ensures var b := Beam(trace, target, range, blocked, pass, i, acc, last);
      forall k :: i <= k < b.len ==> !blocked(trace[k])
  {
    if i < |trace| && i < range && !blocked(trace[i]) && (pass || trace[i] != target) {
      BeamUnblocked(trace, target, range, blocked, pass, i + 1, AddStep(acc, trace[i]), trace[i]);
    }
  }

  /** No cell before the beam's size is the target, unless PASS is set. */
  lemma {:induction false} BeamBeforeTarget(trace: seq<Step>, target: Step, range: int, blocked: Step -> bool, pass: bool,
      i: nat, acc: seq<Step>, last: Step)
    requires i <= |trace|
    decreases |trace| - i
    ensures var b := Beam(trace, target, range, blocked, pass, i, acc, last);
      forall k :: i <= k < b.size ==> pass || trace[k] != target
  {
    if i < |trace| && i < range && !blocked(trace[i]) && (pass || trace[i] != target) {
      BeamBeforeTarget(trace, target, range, blocked, pass, i + 1, AddStep(acc, trace[i]), trace[i]);
    }
  }

  /** The beam records exactly the path cells it passed, each once, after the cells it was given. */
  lemma {:induction false} BeamRecords(trace: seq<Step>, target: Step, range: int, blocked: Step -> bool, pass: bool,
                                       i: nat, acc: seq<Step>, last: Step)
    requires i <= |trace|
    decreases |trace| - i
    ensures var b := Beam(trace, target, range, blocked, pass, i, acc, last);
      && (NoDup(acc) ==> NoDup(b.cells))
      && Extends(acc, b.cells)
      && forall c :: c in b.cells <==> (c in acc || c in trace[i..b.len])
  {
    if i < |trace| && i < range && !blocked(trace[i]) {
      var acc' := AddStep(acc, trace[i]);
      AddStepFacts(acc, trace[i]);
      if !pass && trace[i] == target {
        assert trace[i..i + 1] == [trace[i]];
      } else {
        var b := Beam(trace, target, range, blocked, pass, i + 1, acc', trace[i]);
        assert Beam(trace, target, range, blocked, pass, i, acc, last) == b;
        BeamRecords(trace, target, range, blocked, pass, i + 1, acc', trace[i]);
        ExtendsTrans(acc, acc', b.cells);
        SliceCons(trace, i, b.len);
      }
    }
  }

  // ---------------------------------------------------------------------
  // Projection

  /** The beam of RLFL_project: the origin is recorded first, then the path is followed from index 0. */
  function BeamOf(g: Grid, origin: Step, target: Step, trace: seq<Step>, range: int, flg: bv16): (b: BeamEnd)
    requires g.Valid()
    ensures b.size <= b.len <= |trace|
  {
    Beam(trace, target, range, c => Blocks(g, flg, c), Flag(flg, PROJECT_PASS), 0, [origin], origin)
  }

  /** CONE with an empty beam falls back to a ball of radius 1. */
  function BallRadius(b: BeamEnd, rad: int, flg: bv16): int
  {
    if Flag(flg, PROJECT_CONE) && b.size == 0 then 1 else rad
  }

  /** The cone is drawn when CONE is set and the beam is longer than rad (so not empty). */
  predicate IsCone(b: BeamEnd, rad: int, flg: bv16)
  {
    Flag(flg, PROJECT_CONE) && b.size != 0 && b.size > rad
  }

  /** The farthest ripple of the cone: the epicentre's distance from the origin plus rad. */
  function ConeReach(origin: Step, b: BeamEnd, rad: int): int
  {
    Distance(origin.x, origin.y, b.epicentre.x, b.epicentre.y) + rad
  }

  /**
   * The blast after the beam (C's `dist <= range` guard, then breath_shape or ball_shape): the
   * cells, and the cone's ripples (none for a ball).
   */
  function Explode(g: Grid, origin: Step, trace: seq<Step>, b: BeamEnd, rad: int, range: int, flg: bv16): (r: (seq<Step>, seq<Ripple>))
    requires g.Valid() && b.size <= |trace|
  {
    var rad' := BallRadius(b, rad, flg);
    if b.size > range then (b.cells, [])
    else if IsCone(b, rad, flg) then Cone(g, b.cells, origin, trace, b, rad, flg)
    else (Ball(g, b.cells, b.epicentre, if Flag(flg, PROJECT_SHEL) then rad' else 0, rad', flg), [])
  }

  /**
   * breath_shape for beam b: its ripples from 0 to ConeReach, the cells recorded after acc, which
   * is whatever the list add_step appends to held before.
   */
  function Cone(g: Grid, acc: seq<Step>, origin: Step, trace: seq<Step>, b: BeamEnd, rad: int, flg: bv16): (r: (seq<Step>, seq<Ripple>))
    requires g.Valid() && b.size <= |trace| && IsCone(b, rad, flg)
  {
    ConeFrom(g, acc, Flag(flg, PROJECT_THRU), origin, trace, b.size, rad, (rad * rad) / b.size,
             ConeReach(origin, b, rad), 0, origin, 0, 0)
  }

  /** The cone's ripples are fixed by the geometry alone, whatever list it is recorded into. */
  lemma ConeRipplesFixed(g: Grid, acc1: seq<Step>, acc2: seq<Step>, origin: Step, trace: seq<Step>, b: BeamEnd, rad: int, flg: bv16)
    requires g.Valid() && b.size <= |trace| && IsCone(b, rad, flg)
    ensures Cone(g, acc1, origin, trace, b, rad, flg).1 == Cone(g, acc2, origin, trace, b, rad, flg).1
  {
    RipplesFixed(g, acc1, acc2, Flag(flg, PROJECT_THRU), origin, trace, b.size, rad, (rad * rad) / b.size,
                 ConeReach(origin, b, rad), 0, origin, 0, 0);
  }

  lemma {:induction false} RipplesFixed(g: Grid, acc1: seq<Step>, acc2: seq<Step>, thru: bool, origin: Step, trace: seq<Step>,
                                        dist: nat, rad: int, brev: nat, mdis: int, bdis: int, base: Step, pathIndex: nat, brad: int)
    requires g.Valid() && 0 < dist <= |trace| && pathIndex <= dist
    ensures ConeFrom(g, acc1, thru, origin, trace, dist, rad, brev, mdis, bdis, base, pathIndex, brad).1
         == ConeFrom(g, acc2, thru, origin, trace, dist, rad, brev, mdis, bdis, base, pathIndex, brad).1
    decreases mdis - bdis + 1
  {
    if bdis <= mdis {
      var nx := ConeAdvance(origin, trace, dist, bdis, base, pathIndex);
      RipplesFixed(g, Arcs(g, acc1, thru, origin, bdis, nx.0, 0, brad), Arcs(g, acc2, thru, origin, bdis, nx.0, 0, brad),
                   thru, origin, trace, dist, rad, brev, mdis, bdis + 1, nx.0, nx.1, ConeRadius(rad, nx.1, brev, dist));
    }
  }

  /** The cone recorded after any list acc adds exactly the cone's cells to it, each once. */
  lemma ConeOntoCells(g: Grid, acc: seq<Step>, origin: Step, trace: seq<Step>, b: BeamEnd, rad: int, range: int, flg: bv16)
    requires g.Valid() && b.size <= |trace| && b.size <= range && IsCone(b, rad, flg)
    ensures var r := Cone(g, acc, origin, trace, b, rad, flg).0;
      && (NoDup(acc) ==> NoDup(r)) && Extends(acc, r)
      && forall c :: c in r <==> (c in acc || InBlast(g, origin, trace, b, rad, range, flg, c))
  {
    ConeCells(g, acc, Flag(flg, PROJECT_THRU), origin, trace, b.size, rad, (rad * rad) / b.size,
              ConeReach(origin, b, rad), 0, origin, 0, 0);
    ConeRipplesFixed(g, acc, b.cells, origin, trace, b, rad, flg);
  }

  /** The cells RLFL_project records: the origin, the beam, then the ball or the cone. */
  function ProjectCells(g: Grid, origin: Step, target: Step, trace: seq<Step>, rad: int, range: int, flg: bv16): seq<Step>
    requires g.Valid()
  {
    Explode(g, origin, trace, BeamOf(g, origin, target, trace, range, flg), rad, range, flg).0
  }

  /**
   * A cell of the blast after beam b: for a ball, an admitted cell on one of its rings around the
   * epicentre (from rad with SHEL, else from 0); for a cone, an admitted cell of one of its ripples.
   */
  ghost predicate InBlast(g: Grid, origin: Step, trace: seq<Step>, b: BeamEnd, rad: int, range: int, flg: bv16, c: Step)
    requires g.Valid() && b.size <= |trace|
  {
    var rad' := BallRadius(b, rad, flg);
    var rs := Explode(g, origin, trace, b, rad, range, flg).1;
    if IsCone(b, rad, flg) then exists k :: 0 <= k < |rs| && ConeCell(g, Flag(flg, PROJECT_THRU), origin, rs[k], c)
    else exists e :: (if Flag(flg, PROJECT_SHEL) then rad' else 0) <= e <= rad' && InRing(g, flg, b.epicentre, e, c)
  }

  /** When the blast happens it records exactly its cells, each once, after the beam's. */
  lemma ExplodeCells(g: Grid, origin: Step, trace: seq<Step>, b: BeamEnd, rad: int, range: int, flg: bv16)
    requires g.Valid() && b.size <= |trace| && b.size <= range
    ensures var r := Explode(g, origin, trace, b, rad, range, flg);
      && (NoDup(b.cells) ==> NoDup(r.0)) && Extends(b.cells, r.0)
      && forall c :: c in r.0 <==> (c in b.cells || InBlast(g, origin, trace, b, rad, range, flg, c))
  {
    var rad' := BallRadius(b, rad, flg);
    if IsCone(b, rad, flg) {
      ConeCells(g, b.cells, Flag(flg, PROJECT_THRU), origin, trace, b.size, rad, (rad * rad) / b.size,
                ConeReach(origin, b, rad), 0, origin, 0, 0);
    } else {
      BallCells(g, b.cells, b.epicentre, if Flag(flg, PROJECT_SHEL) then rad' else 0, rad', flg);
    }
  }

  /** The beam, as BeamOf computes it, with the closure applications read back as Blocks and PASS. */
  lemma BeamOfFacts(g: Grid, origin: Step, target: Step, trace: seq<Step>, range: int, flg: bv16)
    requires g.Valid()
    ensures var b := BeamOf(g, origin, target, trace, range, flg);
      && b.len <= b.size + 1 && b.len <= Max(0, range)
      && (forall k :: 0 <= k < b.len ==> !Blocks(g, flg, trace[k]))
      && (forall k :: 0 <= k < b.size ==> Flag(flg, PROJECT_PASS) || trace[k] != target)
      && (b.len == b.size + 1 ==> !Flag(flg, PROJECT_PASS) && trace[b.size] == target)
      && (b.len == b.size ==> b.size == |trace| || b.size >= range || Blocks(g, flg, trace[b.size]))
      && b.epicentre == (if b.len == 0 then origin else trace[b.len - 1])
      && NoDup(b.cells) && Extends([origin], b.cells)
      && forall c :: c in b.cells <==> (c == origin || c in trace[..b.len])
  {
    BeamOfStops(g, origin, target, trace, range, flg);
    BeamOfRecords(g, origin, target, trace, range, flg);
  }

  lemma BeamOfStops(g: Grid, origin: Step, target: Step, trace: seq<Step>, range: int, flg: bv16)
    requires g.Valid()
    ensures var b := BeamOf(g, origin, target, trace, range, flg);
      && b.len <= b.size + 1 && b.len <= Max(0, range)
      && (forall k :: 0 <= k < b.len ==> !Blocks(g, flg, trace[k]))
      && (forall k :: 0 <= k < b.size ==> Flag(flg, PROJECT_PASS) || trace[k] != target)
      && (b.len == b.size + 1 ==> !Flag(flg, PROJECT_PASS) && trace[b.size] == target)
      && (b.len == b.size ==> b.size == |trace| || b.size >= range || Blocks(g, flg, trace[b.size]))
      && b.epicentre == (if b.len == 0 then origin else trace[b.len - 1])
  {
    var blocked := c => Blocks(g, flg, c);
    assert forall c :: blocked(c) == Blocks(g, flg, c);
    BeamStops(trace, target, range, blocked, Flag(flg, PROJECT_PASS), 0, [origin], origin);
  }

  lemma BeamOfRecords(g: Grid, origin: Step, target: Step, trace: seq<Step>, range: int, flg: bv16)
    requires g.Valid()
    ensures var b := BeamOf(g, origin, target, trace, range, flg);
      && NoDup(b.cells) && Extends([origin], b.cells)
      && forall c :: c in b.cells <==> (c == origin || c in trace[..b.len])
  {
    BeamRecords(trace, target, range, c => Blocks(g, flg, c), Flag(flg, PROJECT_PASS), 0, [origin], origin);
  }

  /**
   * With a non-negative range (RLFL_project replaces a negative one) the beam never outruns the
   * range, so the blast always happens; the origin is the first cell, no cell is recorded twice,
   * and the cells are exactly the origin, the beam's path cells and the blast.
   */
  lemma ProjectionCells(g: Grid, origin: Step, target: Step, trace: seq<Step>, rad: int, range: int, flg: bv16)
    requires g.Valid() && range >= 0
    ensures var b := BeamOf(g, origin, target, trace, range, flg);
      var cells := ProjectCells(g, origin, target, trace, rad, range, flg);
      && b.size <= b.len <= range
      && |cells| > 0 && cells[0] == origin && NoDup(cells)
      && forall c :: c in cells <==> (c == origin || c in trace[..b.len] || InBlast(g, origin, trace, b, rad, range, flg, c))
  {
    var b := BeamOf(g, origin, target, trace, range, flg);
    BeamOfFacts(g, origin, target, trace, range, flg);
    ExplodeCells(g, origin, trace, b, rad, range, flg);
    var cells := Explode(g, origin, trace, b, rad, range, flg).0;
    ExtendsTrans([origin], b.cells, cells);
    assert cells[..1] == [origin];
  }

  /**
   * The cone's ripples: one for each origin distance 0..reach, each based on the origin or on a
   * beam cell, with an arc radius of at most rad.
   */
  lemma ConeGeometry(g: Grid, origin: Step, trace: seq<Step>, b: BeamEnd, rad: int, range: int, flg: bv16)
    requires g.Valid() && b.size <= |trace| && b.size <= range && IsCone(b, rad, flg)
    ensures var rs := Explode(g, origin, trace, b, rad, range, flg).1;
      && |rs| == Max(ConeReach(origin, b, rad) + 1, 0)
      && forall k :: 0 <= k < |rs| ==>
           rs[k].bdis == k && rs[k].brad <= Max(rad, 0) && (rs[k].base == origin || rs[k].base in trace[..b.size])
  {
    ConeRipples(g, b.cells, Flag(flg, PROJECT_THRU), origin, trace, b.size, rad, (rad * rad) / b.size,
                ConeReach(origin, b, rad), 0, origin, 0, 0);
  }

  /** Every cone cell lies within reach of the origin, and within rad of the origin or of a beam cell. */
  lemma ConeNearBeam(g: Grid, origin: Step, trace: seq<Step>, b: BeamEnd, rad: int, range: int, flg: bv16, c: Step)
    requires g.Valid() && b.size <= |trace| && b.size <= range && IsCone(b, rad, flg)
    requires InBlast(g, origin, trace, b, rad, range, flg, c)
    ensures Distance(origin.x, origin.y, c.x, c.y) <= ConeReach(origin, b, rad)
    ensures exists p :: (p == origin || p in trace[..b.size]) && Distance(p.x, p.y, c.x, c.y) <= Max(rad, 0)
  {
    ConeGeometry(g, origin, trace, b, rad, range, flg);
    var rs := Explode(g, origin, trace, b, rad, range, flg).1;
    var k :| 0 <= k < |rs| && ConeCell(g, Flag(flg, PROJECT_THRU), origin, rs[k], c);
    RippleCell(g, Flag(flg, PROJECT_THRU), origin, rs[k], c, ConeReach(origin, b, rad), Max(rad, 0));
  }

  lemma RippleCell(g: Grid, thru: bool, origin: Step, rp: Ripple, c: Step, reach: int, bound: int)
    requires g.Valid() && ConeCell(g, thru, origin, rp, c) && rp.bdis <= reach && rp.brad <= bound
    ensures Distance(origin.x, origin.y, c.x, c.y) <= reach
    ensures Distance(rp.base.x, rp.base.y, c.x, c.y) <= bound
  {
  }

  /** CONE with an empty beam draws a ball of radius 1 around the epicentre instead. */
  lemma ConeFallback(g: Grid, origin: Step, trace: seq<Step>, b: BeamEnd, rad: int, range: int, flg: bv16, c: Step)
    requires g.Valid() && b.size <= |trace| && Flag(flg, PROJECT_CONE) && b.size == 0
    ensures InBlast(g, origin, trace, b, rad, range, flg, c)
        <==> (Admits(g, Flag(flg, PROJECT_THRU), c) && (if Flag(flg, PROJECT_SHEL) then 1 else 0) <= RingMetric(flg, b.epicentre, c) <= 1)
  {
    BallShape(g, flg, b.epicentre, if Flag(flg, PROJECT_SHEL) then 1 else 0, 1, c);
  }

  lemma SliceCons(s: seq<Step>, i: int, n: int)
    requires 0 <= i < n <= |s|
    ensures forall c :: c in s[i..n] <==> c == s[i] || c in s[i + 1..n]
  {
    assert s[i..n] == [s[i]] + s[i + 1..n];
  }
}
