/**
 * Diamond ray casting (fov_diamond_raycasting.c): rays grow outward from the origin in
 * breadth-first order over a perimeter list; each cell's ray merges the obscurity carried by its
 * x- and y-neighbour toward the origin, and walls start a new obscurity vector. The rays live
 * in an arena indexed like the cells (raymap2), so a reference to a ray is its cell index.
 */
module FovDiamond {
  import opened Util
  import opened Defines
  import opened Grid
  import opened Store
  import opened Fov

  /**
   * ray_data_t: location relative to the origin, obscurity vector, Bresenham error, the cells
   * of the two input rays, whether the ray was put on the perimeter, and whether it is ignored.
   */
  datatype RayData = RayData(xloc: int, yloc: int, xob: int, yob: int, xerr: int, yerr: int,
                             xinput: Option<nat>, yinput: Option<nat>, added: bool, ignore: bool)

  /** The zeroed ray calloc leaves in every arena slot. */
  const Fresh := RayData(0, 0, 0, 0, 0, 0, None, None, false, false)

  /** IS_OBSCURE. */
  predicate Obscure(r: RayData)
  {
    (r.xerr > 0 && r.xerr <= r.xob) || (r.yerr > 0 && r.yerr <= r.yob)
  }

  /** process_x_input: copy the obscurity of the x-input, shifting its errors by its y-obscurity. */
  function ProcessXInput(r: RayData, xi: RayData): RayData
  {
    if xi.xob == 0 && xi.yob == 0 then r
    else
      var r1 := if xi.xerr > 0 && r.xob == 0
        then r.(xerr := xi.xerr - xi.yob, yerr := xi.yerr + xi.yob, xob := xi.xob, yob := xi.yob)
        else r;
      if xi.yerr <= 0 && xi.yob > 0 && xi.xerr > 0
      then r1.(yerr := xi.yerr + xi.yob, xerr := xi.xerr - xi.yob, xob := xi.xob, yob := xi.yob)
      else r1
  }

  /** process_y_input: the same with the axes exchanged. */
  function ProcessYInput(r: RayData, yi: RayData): RayData
  {
    if yi.xob == 0 && yi.yob == 0 then r
    else
      var r1 := if yi.yerr > 0 && r.yob == 0
        then r.(yerr := yi.yerr - yi.xob, xerr := yi.xerr + yi.xob, xob := yi.xob, yob := yi.yob)
        else r;
      if yi.xerr <= 0 && yi.xob > 0 && yi.yerr > 0
      then r1.(yerr := yi.yerr - yi.xob, xerr := yi.xerr + yi.xob, xob := yi.xob, yob := yi.yob)
      else r1
  }

  // ---------------------------------------------------------------------
  // The arena

  /** The number of rays already put on the perimeter. */
  function CountAdded(rays: seq<RayData>): (n: nat)
    ensures n <= |rays|
  {
    if rays == [] then 0 else CountAdded(rays[..|rays| - 1]) + (if rays[|rays| - 1].added then 1 else 0)
  }

  /** Replacing one ray changes the count by the change of its `added` flag. */
  lemma {:induction false} CountUpdate(rays: seq<RayData>, j: nat, r: RayData)
    requires j < |rays|
    ensures CountAdded(rays[j := r]) + (if rays[j].added then 1 else 0) == CountAdded(rays) + (if r.added then 1 else 0)
    decreases |rays|
  {
    var last := |rays| - 1;
    assert rays[j := r][..last] == if j == last then rays[..last] else rays[..last][j := r];
    if j < last {
      CountUpdate(rays[..last], j, r);
    }
  }

  /** The ray stored at arena slot j names cell j: its location plus the origin is that cell. */
  predicate Placed(w: nat, h: nat, ox: int, oy: int, j: nat, r: RayData)
  {
    0 <= r.xloc + ox < w && 0 <= r.yloc + oy < h && Idx(w, r.xloc + ox, r.yloc + oy) == j
  }

  /**
   * What the arena and the perimeter keep: every added ray is placed, is not the origin and has
   * an input; inputs point into the arena; the perimeter holds exactly the added rays, one entry
   * per added ray.
   */
  ghost predicate Arena(w: nat, h: nat, ox: int, oy: int, rays: seq<RayData>, perim: seq<nat>)
  {
    && |rays| == Mul(w, h)
    && (forall j :: 0 <= j < |rays| && rays[j].added ==>
          && Placed(w, h, ox, oy, j, rays[j]) && (rays[j].xloc != 0 || rays[j].yloc != 0)
          && (rays[j].xinput.Some? || rays[j].yinput.Some?))
    && (forall j :: 0 <= j < |rays| && rays[j].xinput.Some? ==> rays[j].xinput.value < |rays|)
    && (forall j :: 0 <= j < |rays| && rays[j].yinput.Some? ==> rays[j].yinput.value < |rays|)
    && (forall k :: 0 <= k < |perim| ==> perim[k] < |rays| && rays[perim[k]].added)
    && (forall j :: 0 <= j < |rays| && rays[j].added ==> j in perim)
    && (forall k1, k2 :: 0 <= k1 < k2 < |perim| ==> perim[k1] != perim[k2])
    && |perim| == CountAdded(rays)
  }

  /** b keeps what the final marking reads of a, and stays added. */
  predicate Keeps(a: RayData, b: RayData)
  {
    && b.xloc == a.xloc && b.yloc == a.yloc && b.xob == a.xob && b.yob == a.yob
    && b.xerr == a.xerr && b.yerr == a.yerr && b.ignore == a.ignore && (a.added ==> b.added)
  }

  /** From (rays, perim) to (rays', perim'): the perimeter only grows at its end and added rays keep what the marking reads. */
  predicate Grows(rays: seq<RayData>, perim: seq<nat>, rays': seq<RayData>, perim': seq<nat>)
  {
    && |rays'| == |rays| && |perim'| >= |perim| && perim'[..|perim|] == perim
    && forall j :: 0 <= j < |rays| && rays[j].added ==> Keeps(rays[j], rays'[j])
  }

  lemma GrowsTrans(a: seq<RayData>, pa: seq<nat>, b: seq<RayData>, pb: seq<nat>, c: seq<RayData>, pc: seq<nat>)
    requires Grows(a, pa, b, pb) && Grows(b, pb, c, pc)
    ensures Grows(a, pa, c, pc)
  {
    assert pc[..|pa|] == pc[..|pb|][..|pa|];
    forall j | 0 <= j < |a| && a[j].added
      ensures Keeps(a[j], c[j])
    {
      assert Keeps(a[j], b[j]) && Keeps(b[j], c[j]);
    }
  }

  /**
   * new_ray then processRay for the cell at (x, y) relative to the origin, fed by the ray in
   * slot `input` whose y-location is inputY: nothing off the grid; otherwise the location is
   * set, the input recorded as the x-input when the rows agree and as the y-input otherwise, and
   * a ray not yet added is appended to the perimeter.
   */
  function Visit(w: nat, h: nat, ox: int, oy: int, rays: seq<RayData>, perim: seq<nat>, x: int, y: int, input: nat, inputY: int): (res: (seq<RayData>, seq<nat>))
    requires Arena(w, h, ox, oy, rays, perim) && input < |rays| && (x != 0 || y != 0)
    ensures Arena(w, h, ox, oy, res.0, res.1) && Grows(rays, perim, res.0, res.1)
  {
    if !(0 <= x + ox < w && 0 <= y + oy < h) then (rays, perim)
    else
      IdxInRange(w, h, x + ox, y + oy);
      var t := Idx(w, x + ox, y + oy);
      var r := rays[t].(xloc := x, yloc := y);
      var r1 := if y == inputY then r.(xinput := Some(input)) else r.(yinput := Some(input));
      var res := if !r1.added then (rays[t := r1.(added := true)], perim + [t]) else (rays[t := r1], perim);
      VisitKeepsArena(w, h, ox, oy, rays, perim, x, y, t, r1, res.0, res.1);
      res
  }

  lemma VisitKeepsArena(w: nat, h: nat, ox: int, oy: int, rays: seq<RayData>, perim: seq<nat>, x: int, y: int, t: nat, r1: RayData, rays': seq<RayData>, perim': seq<nat>)
    requires Arena(w, h, ox, oy, rays, perim) && (x != 0 || y != 0)
    requires 0 <= x + ox < w && 0 <= y + oy < h && t == Idx(w, x + ox, y + oy) && t < |rays|
    requires r1.xloc == x && r1.yloc == y && (r1.xinput.Some? || r1.yinput.Some?)
    requires r1.xob == rays[t].xob && r1.yob == rays[t].yob && r1.xerr == rays[t].xerr && r1.yerr == rays[t].yerr
    requires r1.ignore == rays[t].ignore && r1.added == rays[t].added
    requires r1.xinput.Some? ==> r1.xinput.value < |rays|
    requires r1.yinput.Some? ==> r1.yinput.value < |rays|
    requires !r1.added ==> rays' == rays[t := r1.(added := true)] && perim' == perim + [t]
    requires r1.added ==> rays' == rays[t := r1] && perim' == perim
    ensures Arena(w, h, ox, oy, rays', perim') && Grows(rays, perim, rays', perim')
  {
    if rays[t].added {
      assert Placed(w, h, ox, oy, t, rays[t]);
      IdxInjective(w, rays[t].xloc + ox, rays[t].yloc + oy, x + ox, y + oy);
      ArenaReplace(w, h, ox, oy, rays, perim, t, r1);
    } else {
      ArenaAdd(w, h, ox, oy, rays, perim, t, r1.(added := true));
    }
  }

  /** Rewriting an arena slot without changing whether it is added keeps the arena, given the new ray is well formed. */
  lemma ArenaReplace(w: nat, h: nat, ox: int, oy: int, rays: seq<RayData>, perim: seq<nat>, t: nat, r: RayData)
    requires Arena(w, h, ox, oy, rays, perim) && t < |rays| && r.added == rays[t].added
    requires r.added ==> Placed(w, h, ox, oy, t, r) && (r.xloc != 0 || r.yloc != 0) && (r.xinput.Some? || r.yinput.Some?)
    requires r.xinput.Some? ==> r.xinput.value < |rays|
    requires r.yinput.Some? ==> r.yinput.value < |rays|
    ensures Arena(w, h, ox, oy, rays[t := r], perim)
    ensures (rays[t].added ==> Keeps(rays[t], r)) ==> Grows(rays, perim, rays[t := r], perim)
  {
    CountUpdate(rays, t, r);
    assert perim[..|perim|] == perim;
  }

  /** Adding a ray that was not on the perimeter, and appending its slot, keeps the arena. */
  lemma ArenaAdd(w: nat, h: nat, ox: int, oy: int, rays: seq<RayData>, perim: seq<nat>, t: nat, r: RayData)
    requires Arena(w, h, ox, oy, rays, perim) && t < |rays| && !rays[t].added && r.added
    requires Placed(w, h, ox, oy, t, r) && (r.xloc != 0 || r.yloc != 0) && (r.xinput.Some? || r.yinput.Some?)
    requires r.xinput.Some? ==> r.xinput.value < |rays|
    requires r.yinput.Some? ==> r.yinput.value < |rays|
    ensures Arena(w, h, ox, oy, rays[t := r], perim + [t]) && Grows(rays, perim, rays[t := r], perim + [t])
  {
    CountUpdate(rays, t, r);
    assert (perim + [t])[..|perim|] == perim;
    assert t !in perim;
  }

  /**
   * expandPerimeterFrom: visit the neighbours that lie farther from the origin — right when
   * xloc >= 0, left when xloc <= 0, down when yloc >= 0, up when yloc <= 0 — with this ray as
   * their input.
   */
  function Expand(w: nat, h: nat, ox: int, oy: int, rays: seq<RayData>, perim: seq<nat>, i: nat): (res: (seq<RayData>, seq<nat>))
    requires Arena(w, h, ox, oy, rays, perim) && i < |rays|
    ensures Arena(w, h, ox, oy, res.0, res.1) && Grows(rays, perim, res.0, res.1)
  {
    var x, y := rays[i].xloc, rays[i].yloc;
    var s1 := if x >= 0 then Visit(w, h, ox, oy, rays, perim, x + 1, y, i, y) else (rays, perim);
    var s2 := if x <= 0 then Visit(w, h, ox, oy, s1.0, s1.1, x - 1, y, i, y) else s1;
    GrowsTrans(rays, perim, s1.0, s1.1, s2.0, s2.1);
    var s3 := if y >= 0 then Visit(w, h, ox, oy, s2.0, s2.1, x, y + 1, i, y) else s2;
    GrowsTrans(rays, perim, s2.0, s2.1, s3.0, s3.1);
    var s4 := if y <= 0 then Visit(w, h, ox, oy, s3.0, s3.1, x, y - 1, i, y) else s3;
    GrowsTrans(rays, perim, s3.0, s3.1, s4.0, s4.1);
    s4
  }

  /**
   * merge_input for the ray in slot i: run the x-input then the y-input through it; ignore the
   * ray when its only input is obscure or both are; a kept ray on a cell that is not OPEN
   * becomes a wall, its obscurity vector and errors set to its absolute location. Each write goes
   * to the arena before the next read, as the C code does.
   */
  function MergedRay(g: Grid, ox: int, oy: int, rays: seq<RayData>, i: nat): (r: RayData)
    requires g.Valid() && i < |rays| && g.InGrid(rays[i].xloc + ox, rays[i].yloc + oy)
    requires rays[i].xinput.Some? || rays[i].yinput.Some?
    requires rays[i].xinput.Some? ==> rays[i].xinput.value < |rays|
    requires rays[i].yinput.Some? ==> rays[i].yinput.value < |rays|
    ensures r.xloc == rays[i].xloc && r.yloc == rays[i].yloc && r.added == rays[i].added
    ensures r.xinput == rays[i].xinput && r.yinput == rays[i].yinput
    ensures !r.ignore ==> IsOpen(g, r.xloc + ox, r.yloc + oy) || (r.xerr == r.xob == Abs(r.xloc) && r.yerr == r.yob == Abs(r.yloc))
  {
    var xi, yi := rays[i].xinput, rays[i].yinput;
    var rays1 := if xi.Some? then rays[i := ProcessXInput(rays[i], rays[xi.value])] else rays;
    var rays2 := if yi.Some? then rays1[i := ProcessYInput(rays1[i], rays1[yi.value])] else rays1;
    var ignore :=
      if xi.None? then Obscure(rays2[yi.value])
      else if yi.None? then Obscure(rays2[xi.value])
      else Obscure(rays2[xi.value]) && Obscure(rays2[yi.value]);
    var r := if ignore then rays2[i].(ignore := true) else rays2[i];
    if !r.ignore && !Has(g, r.xloc + ox, r.yloc + oy, CELL_OPEN)
    then r.(xerr := Abs(r.xloc), xob := Abs(r.xloc), yerr := Abs(r.yloc), yob := Abs(r.yloc))
    else r
  }

  /** The arena after merge_input of slot i; the merged ray is settled when within the radius. */
  function Merge(g: Grid, ox: int, oy: int, rays: seq<RayData>, perim: seq<nat>, i: nat): (rays': seq<RayData>)
    requires g.Valid() && Arena(g.width, g.height, ox, oy, rays, perim) && i < |rays| && rays[i].added
    ensures Arena(g.width, g.height, ox, oy, rays', perim)
    ensures forall j :: 0 <= j < |rays| && j != i ==> rays'[j] == rays[j]
    ensures rays'[i].xloc == rays[i].xloc && rays'[i].yloc == rays[i].yloc && rays'[i].added
    ensures !rays'[i].ignore ==> IsOpen(g, rays[i].xloc + ox, rays[i].yloc + oy) || Obscure(rays'[i])
  {
    var r := MergedRay(g, ox, oy, rays, i);
    ArenaReplace(g.width, g.height, ox, oy, rays, perim, i, r);
    rays[i := r]
  }

  /** A ray set aside for lying beyond the radius. */
  function SetIgnore(w: nat, h: nat, ox: int, oy: int, rays: seq<RayData>, perim: seq<nat>, i: nat): (rays': seq<RayData>)
    requires Arena(w, h, ox, oy, rays, perim) && i < |rays|
    ensures Arena(w, h, ox, oy, rays', perim) && rays'[i].ignore
    ensures forall j :: 0 <= j < |rays| && j != i ==> rays'[j] == rays[j]
    ensures rays'[i].added == rays[i].added
  {
    ArenaReplace(w, h, ox, oy, rays, perim, i, rays[i].(ignore := true));
    rays[i := rays[i].(ignore := true)]
  }

  // ---------------------------------------------------------------------
  // RLFL_fov_diamond_raycasting

  /**
   * A ray whose fate is settled: ignored, or within the radius and either on an OPEN cell or
   * obscure. Only settled rays that are neither ignored nor obscure are marked.
   */
  ghost predicate Settled(g: Grid, ox: int, oy: int, r2: int, r: RayData)
    requires g.Valid()
  {
    r.ignore || ((r2 > 0 ==> Reach(r) <= r2) && (IsOpen(g, r.xloc + ox, r.yloc + oy) || Obscure(r)))
  }

  /** The squared distance of a ray from the origin, as the perimeter loop computes it. */
  function Reach(r: RayData): int
  {
    r.xloc * r.xloc + r.yloc * r.yloc
  }

  /** The cells diamond ray casting may mark on g: the origin, and OPEN cells inside the disc. */
  function DiamondLit(g: Grid, ox: int, oy: int, r2: int): (lit: (int, int) -> bool)
    requires g.Valid()
    ensures forall x, y :: lit(x, y) <==> (x == ox && y == oy) || (InDisc(ox, oy, r2, x, y) && IsOpen(g, x, y))
  {
    (x, y) => (x == ox && y == oy) || (InDisc(ox, oy, r2, x, y) && IsOpen(g, x, y))
  }

  /** A settled, placed ray that is neither ignored nor obscure names a cell DiamondLit admits. */
  lemma MarkedRayIsLit(g: Grid, ox: int, oy: int, r2: int, c: nat, r: RayData)
    requires g.Valid() && g.width > 0 && Placed(g.width, g.height, ox, oy, c, r)
    requires Settled(g, ox, oy, r2, r) && !r.ignore && !Obscure(r)
    ensures g.InGrid(c % g.width, c / g.width) && DiamondLit(g, ox, oy, r2)(c % g.width, c / g.width)
  {
    IdxOfCoords(g.width, c);
    IdxInjective(g.width, c % g.width, c / g.width, r.xloc + ox, r.yloc + oy);
    assert Dist2(ox, oy, c % g.width, c / g.width) == Reach(r);
  }

  /** Every ray on the perimeter up to `upto` is settled. */
  ghost predicate SettledUpTo(g: Grid, ox: int, oy: int, r2: int, rays: seq<RayData>, perim: seq<nat>, upto: nat)
    requires g.Valid() && upto <= |perim| && forall k :: 0 <= k < |perim| ==> perim[k] < |rays|
  {
    forall k :: 0 <= k < upto ==> Settled(g, ox, oy, r2, rays[perim[k]])
  }

  /**
   * One turn of the perimeter loop on entry `idx`: the ray beyond the radius is ignored; one
   * within it is merged and, unless ignored, expanded. The entry becomes settled, earlier ones stay so.
   */
  method WalkStep(g: Grid, ox: int, oy: int, r2: int, rays: seq<RayData>, perim: seq<nat>, idx: nat)
    returns (rays': seq<RayData>, perim': seq<nat>)
    requires g.Valid() && Arena(g.width, g.height, ox, oy, rays, perim) && idx < |perim|
    requires SettledUpTo(g, ox, oy, r2, rays, perim, idx)
    ensures Arena(g.width, g.height, ox, oy, rays', perim') && |perim'| >= |perim|
    ensures SettledUpTo(g, ox, oy, r2, rays', perim', idx + 1)
  {
    var i := perim[idx];
    var ray := rays[i];
    var distance := if r2 > 0 then Reach(ray) else 0;
    var mid := if distance <= r2 then Merge(g, ox, oy, rays, perim, i) else SetIgnore(g.width, g.height, ox, oy, rays, perim, i);
    SettledAfterUpdate(g, ox, oy, r2, rays, mid, perim, idx);
    rays', perim' := mid, perim;
    if distance <= r2 && !mid[i].ignore {
      var s := Expand(g.width, g.height, ox, oy, mid, perim, i);
      SettledAfterExpand(g, ox, oy, r2, mid, s.0, perim, s.1, idx + 1);
      rays', perim' := s.0, s.1;
    }
  }

  /** Settling entry idx by rewriting its slot keeps the earlier, distinct entries settled. */
  lemma SettledAfterUpdate(g: Grid, ox: int, oy: int, r2: int, rays: seq<RayData>, mid: seq<RayData>, perim: seq<nat>, idx: nat)
    requires g.Valid() && idx < |perim| && |mid| == |rays|
    requires forall k :: 0 <= k < |perim| ==> perim[k] < |rays|
    requires forall k1, k2 :: 0 <= k1 < k2 < |perim| ==> perim[k1] != perim[k2]
    requires forall j :: 0 <= j < |rays| && j != perim[idx] ==> mid[j] == rays[j]
    requires SettledUpTo(g, ox, oy, r2, rays, perim, idx) && Settled(g, ox, oy, r2, mid[perim[idx]])
    ensures SettledUpTo(g, ox, oy, r2, mid, perim, idx + 1)
  {
    forall k | 0 <= k < idx + 1
      ensures Settled(g, ox, oy, r2, mid[perim[k]])
    {
      if k < idx {
        assert perim[k] != perim[idx];
      }
    }
  }

  /** Expansion keeps every settled entry settled: it only appends, and added rays keep what Settled reads. */
  lemma SettledAfterExpand(g: Grid, ox: int, oy: int, r2: int, rays: seq<RayData>, rays': seq<RayData>, perim: seq<nat>, perim': seq<nat>, upto: nat)
    requires g.Valid() && upto <= |perim| && Grows(rays, perim, rays', perim')
    requires forall k :: 0 <= k < |perim| ==> perim[k] < |rays| && rays[perim[k]].added
    requires forall k :: 0 <= k < |perim'| ==> perim'[k] < |rays'|
    requires SettledUpTo(g, ox, oy, r2, rays, perim, upto)
    ensures SettledUpTo(g, ox, oy, r2, rays', perim', upto)
  {
    forall k | 0 <= k < upto
      ensures Settled(g, ox, oy, r2, rays'[perim'[k]])
    {
      assert perim'[k] == perim'[..|perim|][k];
      assert Keeps(rays[perim[k]], rays'[perim[k]]);
    }
  }

  /** The perimeter loop from the origin's expansion until every added ray has been taken off it. */
  method Walk(g: Grid, ox: int, oy: int, r2: int) returns (rays: seq<RayData>, perim: seq<nat>)
    requires g.Valid() && g.InGrid(ox, oy)
    ensures Arena(g.width, g.height, ox, oy, rays, perim)
    ensures forall j :: 0 <= j < |rays| && rays[j].added ==> Settled(g, ox, oy, r2, rays[j])
  {
    var w, h := g.width, g.height;
    var n := Mul(w, h);
    IdxInRange(w, h, ox, oy);
    CountZero(n);
    var s := Expand(w, h, ox, oy, seq(n, _ => Fresh), [], Idx(w, ox, oy));
    rays, perim := s.0, s.1;
    var idx := 0;
    while idx < |perim|
      invariant Arena(w, h, ox, oy, rays, perim)
      invariant 0 <= idx <= |perim|
      invariant SettledUpTo(g, ox, oy, r2, rays, perim, idx)
      decreases n - |perim|, |perim| - idx
    {
      rays, perim := WalkStep(g, ox, oy, r2, rays, perim, idx);
      idx := idx + 1;
    }
    forall j | 0 <= j < |rays| && rays[j].added
      ensures Settled(g, ox, oy, r2, rays[j])
    {
      var k :| 0 <= k < |perim| && perim[k] == j;
    }
  }

  /** The final pass: the cells of the added rays that are neither ignored nor obscure, then the origin. */
  method Collect(g: Grid, ox: int, oy: int, r2: int, rays: seq<RayData>, perim: seq<nat>) returns (lit: seq<Step>)
    requires g.Valid() && g.InGrid(ox, oy) && Arena(g.width, g.height, ox, oy, rays, perim)
    requires forall j :: 0 <= j < |rays| && rays[j].added ==> Settled(g, ox, oy, r2, rays[j])
    ensures AllInGrid(g, lit) && Step(ox, oy) in lit
    ensures forall k :: 0 <= k < |lit| ==> DiamondLit(g, ox, oy, r2)(lit[k].x, lit[k].y)
  {
    lit := [];
    var c := 0;
    while c < |rays|
      invariant c <= |rays|
      invariant AllInGrid(g, lit)
      invariant forall k :: 0 <= k < |lit| ==> DiamondLit(g, ox, oy, r2)(lit[k].x, lit[k].y)
    {
      var ray := rays[c];
      if ray.added && !ray.ignore && !Obscure(ray) {
        MarkedRayIsLit(g, ox, oy, r2, c, ray);
        lit := lit + [Step(c % g.width, c / g.width)];
      }
      c := c + 1;
    }
    lit := lit + [Step(ox, oy)];
    assert lit[|lit| - 1] == Step(ox, oy);
  }

  /**
   * RLFL_fov_diamond_raycasting after the map check, for an origin on the map: the perimeter
   * walk, the marking of every added ray that is neither ignored nor obscure, the origin mark,
   * the fov_finish passes when walls are lit, and SUCCESS. Only the origin and OPEN cells inside
   * the disc gain the marks — walls are never marked, whatever `lw` says.
   */
  method Diamond(g: Grid, ox: int, oy: int, radius: nat, lw: bool) returns (r: int, g': Grid)
    requires g.Valid() && g.InGrid(ox, oy)
    ensures r == SUCCESS && g'.Valid()
    ensures LitOnly(g, g', DiamondLit(g, ox, oy, radius * radius)) && Marked(g', ox, oy)
  {
    var r2 := radius * radius;
    var rays, perim := Walk(g, ox, oy, r2);
    var lit := Collect(g, ox, oy, r2, rays, perim);
    PaintLitOnly(g, lit, DiamondLit(g, ox, oy, r2));
    g' := Paint(g, lit, CELL_FOV, true);
    if lw {
      var w, h := g.width, g.height;
      var _, g1 := FovFinish(g', 0, 0, ox, oy, -1, -1);
      var _, g2 := FovFinish(g1, ox, 0, w - 1, oy, 1, -1);
      var _, g3 := FovFinish(g2, 0, oy, ox, h - 1, -1, 1);
      var _, g4 := FovFinish(g3, ox, oy, w - 1, h - 1, 1, 1);
      g' := g4;
    }
    r := SUCCESS;
  }

  lemma CountZero(n: nat)
    ensures CountAdded(seq(n, _ => Fresh)) == 0
  {
    if n > 0 {
      assert seq(n, _ => Fresh)[..n - 1] == seq(n - 1, _ => Fresh);
      CountZero(n - 1);
    }
  }
}
