/**
 * The straight-line path walker (the Angband "project_path" line): a
 * fixed-point Bresenham walk from the origin toward the destination that
 * records every cell it enters, marks it PATH, and stops according to the
 * BEAM, THRU and STOP flags and the OPEN, PERM and OCUP bits of the cell.
 */
module PathBasic {
  import opened Util
  import opened Defines
  import opened List
  import opened Grid
  import opened Store

  /** The default range when a negative one is given (MAX_RANGE of the header the walker is compiled against). */
  const BASIC_MAX_RANGE: int := 300

  predicate FlagSet(flg: bv16, b: bv16)
  {
    flg & b != 0
  }

  /** n*s for a direction s of 1 or -1. */
  function Off(s: int, n: int): int
  {
    if s > 0 then n else -n
  }

  /** A coordinate change of 0 or one unit in direction s. */
  predicate InDir(d: int, s: int)
  {
    d == 0 || d == s
  }

  /** The flag-and-bit half of test_step's verdict on an in-grid cell with mask c. */
  predicate CellStops(c: bv16, flg: bv16)
  {
    || (if FlagSet(flg, PROJECT_THRU) then c & CELL_PERM != 0 else c & CELL_OPEN == 0)
    || (FlagSet(flg, PROJECT_STOP) && c & CELL_OCUP != 0)
  }

  /** test_step's verdict on a cell it has just recorded. */
  predicate Stops(g: Grid, s: Step, dest: Step, flg: bv16)
    requires g.Valid()
  {
    || (!FlagSet(flg, PROJECT_BEAM) && s == dest)
    || !g.InGrid(s.x, s.y)
    || CellStops(Cell(g, s.x, s.y), flg)
  }

  /**
   * Stops is test_step as C evaluates it: has_flag's result read as a truth value,
   * where an off-grid cell yields a nonzero error code, and the in-grid check last.
   */
  lemma StopRules(g: Grid, s: Step, dest: Step, flg: bv16)
    requires g.Valid()
    ensures Stops(g, s, dest, flg) <==>
      || (!FlagSet(flg, PROJECT_BEAM) && s == dest)
      || (if FlagSet(flg, PROJECT_THRU) then HasCode(g, s.x, s.y, CELL_PERM as nat) != 0
          else HasCode(g, s.x, s.y, CELL_OPEN as nat) == 0)
      || (FlagSet(flg, PROJECT_STOP) && HasCode(g, s.x, s.y, CELL_OCUP as nat) != 0)
      || !g.InGrid(s.x, s.y)
  {
    ConstBits(CELL_OPEN);
    ConstBits(CELL_PERM);
    ConstBits(CELL_OCUP);
  }

  /** Every cell is OPEN, and none is PERM or OCUP. */
  ghost predicate ClearGrid(g: Grid)
    requires g.Valid()
  {
    forall x, y :: g.InGrid(x, y) ==> Has(g, x, y, CELL_OPEN) && !Has(g, x, y, CELL_PERM) && !Has(g, x, y, CELL_OCUP)
  }

  /** g' has the same shape as g and the same cells except possibly for the PATH bit. */
  ghost predicate SameButPath(g: Grid, g': Grid)
    requires g.Valid() && g'.Valid()
  {
    && g'.width == g.width && g'.height == g.height && g'.pathMaps == g.pathMaps
    && forall x, y :: g.InGrid(x, y) ==> Cell(g', x, y) & !CELL_PATH == Cell(g, x, y) & !CELL_PATH
  }

  lemma SameButPathBits(a: bv16, b: bv16, flg: bv16)
    requires a & !CELL_PATH == b & !CELL_PATH
    ensures CellStops(a, flg) == CellStops(b, flg)
  {
    assert a & CELL_OPEN == (a & !CELL_PATH) & CELL_OPEN;
    assert b & CELL_OPEN == (b & !CELL_PATH) & CELL_OPEN;
    assert a & CELL_PERM == (a & !CELL_PATH) & CELL_PERM;
    assert b & CELL_PERM == (b & !CELL_PATH) & CELL_PERM;
    assert a & CELL_OCUP == (a & !CELL_PATH) & CELL_OCUP;
    assert b & CELL_OCUP == (b & !CELL_PATH) & CELL_OCUP;
  }

  /** The stop verdict never depends on the PATH bit. */
  lemma StopsIgnoresPath(g: Grid, g': Grid, s: Step, dest: Step, flg: bv16)
    requires g.Valid() && g'.Valid() && SameButPath(g, g')
    ensures Stops(g', s, dest, flg) == Stops(g, s, dest, flg)
  {
    if g.InGrid(s.x, s.y) {
      SameButPathBits(Cell(g', s.x, s.y), Cell(g, s.x, s.y), flg);
    }
  }

  /** g' is g with PATH set on the in-grid cells of trace and nothing else changed. */
  ghost predicate Marks(g: Grid, g': Grid, trace: seq<Step>)
    requires g.Valid() && g'.Valid()
  {
    && g'.width == g.width && g'.height == g.height && g'.pathMaps == g.pathMaps
    && forall x, y :: g.InGrid(x, y) ==>
         Cell(g', x, y) == (if Step(x, y) in trace then Cell(g, x, y) | CELL_PATH else Cell(g, x, y))
  }

  lemma MarksSameButPath(g: Grid, g': Grid, trace: seq<Step>)
    requires g.Valid() && g'.Valid() && Marks(g, g', trace)
    ensures SameButPath(g, g')
  {
  }

  /** add_step: record the cell and set PATH on it (a no-op off the grid). */
  function AddStep(g: Grid, trace: seq<Step>, s: Step): (r: (Grid, seq<Step>))
    requires g.Valid()
    ensures r.0.Valid() && r.1 == trace + [s]
  {
    (SetFlagAt(g, s.x, s.y, CELL_PATH as nat).1, trace + [s])
  }

  lemma AddStepMarks(g0: Grid, g: Grid, trace: seq<Step>, s: Step)
    requires g0.Valid() && g.Valid() && Marks(g0, g, trace)
    ensures Marks(g0, AddStep(g, trace, s).0, trace + [s])
  {
    var g' := AddStep(g, trace, s).0;
    forall x, y | g0.InGrid(x, y)
      ensures Cell(g', x, y) == (if Step(x, y) in trace + [s] then Cell(g0, x, y) | CELL_PATH else Cell(g0, x, y))
    {
      if x == s.x && y == s.y {
        assert (Cell(g0, x, y) | CELL_PATH) | CELL_PATH == Cell(g0, x, y) | CELL_PATH;
      }
    }
  }

  /** The grid after add_step has marked every cell of trace, in order, starting from g0. */
  function Replay(g0: Grid, trace: seq<Step>): (g: Grid)
    requires g0.Valid()
    ensures g.Valid()
  {
    if trace == [] then g0 else AddStep(Replay(g0, trace[..|trace| - 1]), trace[..|trace| - 1], trace[|trace| - 1]).0
  }

  lemma ReplayExtend(g0: Grid, trace: seq<Step>, s: Step)
    requires g0.Valid()
    ensures Replay(g0, trace + [s]) == AddStep(Replay(g0, trace), trace, s).0
  {
    assert (trace + [s])[..|trace|] == trace;
  }

  /** Replaying add_step over a trace sets PATH on exactly its in-grid cells. */
  lemma {:induction false} ReplayMarks(g0: Grid, trace: seq<Step>)
    requires g0.Valid()
    ensures Marks(g0, Replay(g0, trace), trace)
  {
    if trace != [] {
      var front := trace[..|trace| - 1];
      ReplayMarks(g0, front);
      AddStepMarks(g0, Replay(g0, front), front, trace[|trace| - 1]);
      assert front + [trace[|trace| - 1]] == trace;
    }
  }

  /** One step of a walk: each coordinate moves by 0 or one unit in its direction, and a major axis always moves. */
  predicate StepOk(prev: Step, cur: Step, sx: int, sy: int, xMajor: bool, yMajor: bool)
  {
    && InDir(cur.x - prev.x, sx) && InDir(cur.y - prev.y, sy)
    && (xMajor ==> cur.x - prev.x == sx) && (yMajor ==> cur.y - prev.y == sy)
  }

  /** trace is a walk from origin: every cell is one StepOk away from the one before it. */
  ghost predicate Walk(origin: Step, trace: seq<Step>, sx: int, sy: int, xMajor: bool, yMajor: bool)
  {
    && (|trace| > 0 ==> StepOk(origin, trace[0], sx, sy, xMajor, yMajor))
    && forall i, j {:trigger trace[i], trace[j]} :: 0 <= i && j == i + 1 && j < |trace| ==>
         StepOk(trace[i], trace[j], sx, sy, xMajor, yMajor)
  }

  /**
   * The stop test of the walkers: the cell stops the walk, or its major coordinate
   * (y when vertical, x otherwise) has left 0 .. limit-1.
   */
  ghost predicate Halts(stop: Step -> bool, limit: int, vertical: bool, s: Step)
  {
    var u := if vertical then s.y else s.x;
    u < 0 || u >= limit || stop(s)
  }

  /** Every recorded cell but the last passed the stop test. */
  ghost predicate OnlyLastStops(stop: Step -> bool, limit: int, vertical: bool, trace: seq<Step>)
  {
    forall i :: 0 <= i < |trace| - 1 ==> !Halts(stop, limit, vertical, trace[i])
  }

  /** The walk ended because the last recorded cell stopped it. */
  ghost predicate EndsStopped(stop: Step -> bool, limit: int, vertical: bool, trace: seq<Step>)
  {
    |trace| > 0 && Halts(stop, limit, vertical, trace[|trace| - 1])
  }

  /** Prepending a cell that does not halt keeps both stop properties of the rest. */
  lemma StopsCons(stop: Step -> bool, limit: int, vertical: bool, s: Step, rest: seq<Step>)
    requires !Halts(stop, limit, vertical, s) && OnlyLastStops(stop, limit, vertical, rest)
    ensures OnlyLastStops(stop, limit, vertical, [s] + rest)
    ensures EndsStopped(stop, limit, vertical, [s] + rest) == EndsStopped(stop, limit, vertical, rest)
  {
    assert forall i :: 1 <= i < |[s] + rest| ==> ([s] + rest)[i] == rest[i - 1];
  }

  /** Inside the w-by-h box, stop holds exactly at dest: the walk on a clear grid. */
  ghost predicate ClearWithin(stop: Step -> bool, w: int, h: int, dest: Step)
  {
    forall s: Step {:trigger InBox(w, h, s)} :: InBox(w, h, s) ==> (stop(s) <==> s == dest)
  }

  predicate InBox(w: int, h: int, s: Step)
  {
    0 <= s.x < w && 0 <= s.y < h
  }

  // ---------------------------------------------------------------------
  // Fixed-point arithmetic of the straight branches

  /** With frac = 2*av*e and half = au*av, the C test `frac > half` is the Bresenham error test. */
  lemma FracTest(frac: int, half: int, e: int, au: int, av: nat)
    requires au > 0 && frac == 2 * av * e && half == au * av
    ensures frac > half <==> av > 0 && 2 * e > au
  {
    if av > 0 {
      if 2 * e > au {
        MulMonotone(au + 1, 2 * e, av);
      } else {
        MulMonotone(2 * e, au, av);
      }
    }
  }

  /** The fixed-point invariant of the straight branches: frac = 2*av*e with e = t*av - k*au inside (-au/2, au/2]. */
  predicate SlopeInv(frac: int, e: int, t: int, k: int, au: int, av: int)
  {
    frac == 2 * av * e && e == t * av - k * au && -au < 2 * e <= au
  }

  /**
   * One "slant" update (frac += m, and on frac > half a minor move with frac -= full) followed by
   * the major move keeps SlopeInv; the C test frac > half is the Bresenham error test.
   */
  lemma Advance(frac: int, e: int, t: int, k: int, frac': int, e': int, k': int,
                m: int, half: int, full: int, au: int, av: nat)
    requires au > av && m == av * av * 2 && half == au * av && full == half * 2
    requires SlopeInv(frac, e, t, k, au, av)
    requires m == 0 ==> frac' == frac && e' == e && k' == k
    requires m != 0 && frac + m > half ==> frac' == frac + m - full && e' == e + av - au && k' == k + 1
    requires m != 0 && frac + m <= half ==> frac' == frac + m && e' == e + av && k' == k
    ensures SlopeInv(frac', e', t + 1, k', au, av)
  {
    Distrib(t, 1, av);
    Distrib(k, 1, au);
    if m == 0 {
      if av > 0 {
        MulMonotone(1, av, av);
      }
    } else {
      Distrib3(2 * av, e, av, -au);
      FracTest(frac + m, half, e + av, au, av);
    }
  }

  lemma Distrib(a: int, b: int, c: int)
    ensures (a + b) * c == a * c + b * c
  {
  }

  lemma Distrib3(a: int, b: int, c: int, d: int)
    ensures a * (b + c) == a * b + a * c && a * (b + c + d) == a * b + a * c + a * d
  {
  }

  /**
   * The fixed-point state (frac, k, e) of a straight branch after t major steps: one slant
   * update per step, where k counts minor moves and e is the Bresenham error frac/(2*av).
   */
  function SlantAt(t: nat, m: int, half: int, full: int, au: int, av: int): (r: (int, int, int))
    ensures r.1 >= 0
  {
    if t == 0 then (0, 0, 0)
    else
      var prev := SlantAt(t - 1, m, half, full, au, av);
      if m != 0 && prev.0 + m > half then (prev.0 + m - full, prev.1 + 1, prev.2 + av - au)
      else if m != 0 then (prev.0 + m, prev.1, prev.2 + av)
      else prev
  }

  /** Every state of the slant recurrence satisfies the fixed-point invariant, and k never decreases below 0. */
  lemma {:induction false} SlantAtInv(t: nat, m: int, half: int, full: int, au: int, av: nat)
    requires au > av && m == av * av * 2 && half == au * av && full == half * 2
    ensures var r := SlantAt(t, m, half, full, au, av); SlopeInv(r.0, r.2, t, r.1, au, av) && 0 <= r.1
  {
    if t > 0 {
      SlantAtInv(t - 1, m, half, full, au, av);
      var p := SlantAt(t - 1, m, half, full, au, av);
      var r := SlantAt(t, m, half, full, au, av);
      Advance(p.0, p.2, t - 1, p.1, r.0, r.2, r.1, m, half, full, au, av);
    }
  }

  /** While the major axis has not passed the destination, the minor axis has not either. */
  lemma MinorBound(t: int, k: int, e: int, au: int, av: nat)
    requires 1 <= t <= au && 0 <= k && e == t * av - k * au && -au < 2 * e
    ensures k <= av
  {
    if k > av {
      MulMonotone(t, au, av);
      MulMonotone(av + 1, k, au);
      assert false;
    }
  }

  /** On the destination's row (column) the walk is on the destination's column (row). */
  lemma MinorAtEnd(k: int, e: int, au: int, av: nat)
    requires au > 0 && e == au * av - k * au && -au < 2 * e <= au
    ensures k == av
  {
    if k < av {
      MulMonotone(k + 1, av, au);
      assert false;
    } else if k > av {
      MulMonotone(av + 1, k, au);
      assert false;
    }
  }

  function Pos(vertical: bool, u: int, v: int): Step
  {
    if vertical then Step(v, u) else Step(u, v)
  }

  lemma LastOfCons<T>(a: T, rest: seq<T>)
    requires |rest| > 0
    ensures |[a] + rest| == |rest| + 1 && ([a] + rest)[|rest|] == rest[|rest| - 1]
  {
  }

  lemma WalkCons(origin: Step, s: Step, rest: seq<Step>, sx: int, sy: int, xMajor: bool, yMajor: bool)
    requires StepOk(origin, s, sx, sy, xMajor, yMajor) && Walk(s, rest, sx, sy, xMajor, yMajor)
    ensures Walk(origin, [s] + rest, sx, sy, xMajor, yMajor)
  {
    var t := [s] + rest;
    forall i, j | 0 <= i && j == i + 1 && j < |t|
      ensures StepOk(t[i], t[j], sx, sy, xMajor, yMajor)
    {
      if i > 0 {
        assert t[i] == rest[i - 1] && t[j] == rest[j - 1];
      }
    }
  }

  /** On a clear grid without BEAM, an in-grid cell stops the walk exactly when it is the destination. */
  lemma ClearStops(g: Grid, s: Step, dest: Step, flg: bv16)
    requires g.Valid() && ClearGrid(g) && !FlagSet(flg, PROJECT_BEAM) && g.InGrid(s.x, s.y)
    ensures Stops(g, s, dest, flg) <==> s == dest
  {
    assert Has(g, s.x, s.y, CELL_OPEN) && !Has(g, s.x, s.y, CELL_PERM) && !Has(g, s.x, s.y, CELL_OCUP);
  }

  /** test_step on map g toward dest, as a stop test for the walkers. */
  function StopTest(g: Grid, dest: Step, flg: bv16): Step -> bool
    requires g.Valid()
  {
    s => Stops(g, s, dest, flg)
  }

  /** Stops already halts off the grid, so the walkers' extra bound test changes nothing. */
  lemma HaltsIsStops(g: Grid, vertical: bool, dest: Step, flg: bv16, s: Step)
    requires g.Valid()
    ensures Halts(StopTest(g, dest, flg), if vertical then g.height else g.width, vertical, s) == Stops(g, s, dest, flg)
  {
  }

  lemma ClearGridWithin(g: Grid, dest: Step, flg: bv16)
    requires g.Valid() && ClearGrid(g) && !FlagSet(flg, PROJECT_BEAM)
    ensures ClearWithin(StopTest(g, dest, flg), g.width, g.height, dest)
  {
    forall s: Step | InBox(g.width, g.height, s)
      ensures Stops(g, s, dest, flg) <==> s == dest
    {
      ClearStops(g, s, dest, flg);
    }
  }

  // ---------------------------------------------------------------------
  // The straight branches (ay > ax: vertical; ax > ay: horizontal). Both are
  // written once over a major coordinate u (y when vertical) and a minor
  // coordinate v; the walk leaves the grid at u == -1 or u == limit.

  /** The loop state of a straight branch: the cell (u, v) in (major, minor) terms, the slant accumulator and the minor-move count. */
  datatype Cursor = Cursor(u: int, v: int, frac: int, k: nat)

  /** One slant update and major move: frac += m (when m != 0); on frac > half a minor move, frac -= full and k += 1. */
  function Next(c: Cursor, su: int, sv: int, m: int, half: int, full: int): (n: Cursor)
    ensures n.u == c.u + su
    ensures (n.v == c.v + sv && n.k == c.k + 1) || (n.v == c.v && n.k == c.k)
  {
    var f := if m != 0 then c.frac + m else c.frac;
    if m != 0 && f > half then Cursor(c.u + su, c.v + sv, f - full, c.k + 1)
    else Cursor(c.u + su, c.v, f, c.k)
  }

  /**
   * The loop of a straight branch from cursor c: the range test on the minor-move count,
   * then the stop test on the cell, then Next. Yields the recorded cells and the final count.
   */
  function StraightFrom(stop: Step -> bool, limit: nat, vertical: bool, su: int, sv: int, m: int, half: int, full: int,
                        range: int, c: Cursor): (r: (seq<Step>, nat))
    requires (su == 1 || su == -1) && -1 <= c.u <= limit
    ensures c.k <= r.1 <= c.k + |r.0|
    ensures |r.0| > 0 ==> r.0[0] == Pos(vertical, c.u, c.v)
    decreases if su > 0 then limit - c.u else c.u + 1
  {
    if c.k / 2 >= range then ([], c.k)
    else if c.u < 0 || c.u >= limit || stop(Pos(vertical, c.u, c.v)) then ([Pos(vertical, c.u, c.v)], c.k)
    else
      var rest := StraightFrom(stop, limit, vertical, su, sv, m, half, full, range, Next(c, su, sv, m, half, full));
      ([Pos(vertical, c.u, c.v)] + rest.0, rest.1)
  }

  /** The slant constants of a straight branch: m = 2*av*av, half = au*av, full = 2*half. */
  function Slant(au: nat, av: nat): (c: (int, int, int))
  {
    (av * av * 2, au * av, au * av * 2)
  }

  /** The cursor at the origin, before any move. */
  function Origin(u1: int, v1: int): Cursor
  {
    Cursor(u1, v1, 0, 0)
  }

  /** A straight branch from (u1, v1): the first major move and slant update before the loop, then the loop. */
  function Straight(stop: Step -> bool, limit: nat, vertical: bool, u1: int, v1: int, su: int, sv: int,
                    au: nat, av: nat, range: int): (r: (seq<Step>, nat))
    requires (su == 1 || su == -1) && 0 <= u1 < limit
  {
    var (m, half, full) := Slant(au, av);
    StraightFrom(stop, limit, vertical, su, sv, m, half, full, range, Next(Origin(u1, v1), su, sv, m, half, full))
  }

  /** One round of a straight loop that neither hits the range test nor stops: the cell is recorded and the walk goes on. */
  lemma StraightFromCons(stop: Step -> bool, limit: nat, vertical: bool, su: int, sv: int, m: int, half: int, full: int,
                         range: int, c: Cursor)
    requires (su == 1 || su == -1) && 0 <= c.u < limit && c.k / 2 < range && !stop(Pos(vertical, c.u, c.v))
    ensures StraightFrom(stop, limit, vertical, su, sv, m, half, full, range, c).0
         == [Pos(vertical, c.u, c.v)] + StraightFrom(stop, limit, vertical, su, sv, m, half, full, range, Next(c, su, sv, m, half, full)).0
  {
  }

  lemma StraightFromLast(stop: Step -> bool, limit: nat, vertical: bool, su: int, sv: int, m: int, half: int, full: int,
                         range: int, c: Cursor)
    requires (su == 1 || su == -1) && 0 <= c.u < limit && c.k / 2 < range && stop(Pos(vertical, c.u, c.v))
    ensures StraightFrom(stop, limit, vertical, su, sv, m, half, full, range, c).0 == [Pos(vertical, c.u, c.v)]
  {
  }

  /** The straight loop stops at its last cell and only there, or the range test cut it off. */
  lemma {:induction false} StraightFromStops(stop: Step -> bool, limit: nat, vertical: bool, su: int, sv: int,
                                             m: int, half: int, full: int, range: int, c: Cursor)
    requires (su == 1 || su == -1) && -1 <= c.u <= limit
    ensures var r := StraightFrom(stop, limit, vertical, su, sv, m, half, full, range, c);
      OnlyLastStops(stop, limit, vertical, r.0) && (EndsStopped(stop, limit, vertical, r.0) || r.1 / 2 >= range)
    decreases if su > 0 then limit - c.u else c.u + 1
  {
    if c.k / 2 < range && 0 <= c.u < limit && !stop(Pos(vertical, c.u, c.v)) {
      var n := Next(c, su, sv, m, half, full);
      StraightFromStops(stop, limit, vertical, su, sv, m, half, full, range, n);
      StopsCons(stop, limit, vertical, Pos(vertical, c.u, c.v), StraightFrom(stop, limit, vertical, su, sv, m, half, full, range, n).0);
    }
  }

  /** A straight branch stops at its last cell and only there, or the range test cut it off. */
  lemma StraightStops(stop: Step -> bool, limit: nat, vertical: bool, u1: int, v1: int, su: int, sv: int,
                      au: nat, av: nat, range: int)
    requires (su == 1 || su == -1) && 0 <= u1 < limit
    ensures var r := Straight(stop, limit, vertical, u1, v1, su, sv, au, av, range);
      OnlyLastStops(stop, limit, vertical, r.0) && (EndsStopped(stop, limit, vertical, r.0) || r.1 / 2 >= range)
  {
    var (m, half, full) := Slant(au, av);
    StraightFromStops(stop, limit, vertical, su, sv, m, half, full, range, Next(Origin(u1, v1), su, sv, m, half, full));
  }

  /** Every cell of a straight loop is one StepOk from the one before, starting from prev. */
  lemma {:induction false} StraightFromWalks(stop: Step -> bool, limit: nat, vertical: bool, su: int, sv: int,
                                             m: int, half: int, full: int, range: int, c: Cursor, prev: Step)
    requires (su == 1 || su == -1) && (sv == 1 || sv == -1) && -1 <= c.u <= limit
    requires StepOk(prev, Pos(vertical, c.u, c.v), if vertical then sv else su, if vertical then su else sv, !vertical, vertical)
    ensures Walk(prev, StraightFrom(stop, limit, vertical, su, sv, m, half, full, range, c).0,
                 if vertical then sv else su, if vertical then su else sv, !vertical, vertical)
    decreases if su > 0 then limit - c.u else c.u + 1
  {
    if c.k / 2 < range && 0 <= c.u < limit && !stop(Pos(vertical, c.u, c.v)) {
      var n := Next(c, su, sv, m, half, full);
      StraightFromWalks(stop, limit, vertical, su, sv, m, half, full, range, n, Pos(vertical, c.u, c.v));
      WalkCons(prev, Pos(vertical, c.u, c.v), StraightFrom(stop, limit, vertical, su, sv, m, half, full, range, n).0,
               if vertical then sv else su, if vertical then su else sv, !vertical, vertical);
    }
  }

  /** A straight branch is a walk from its origin whose major axis always moves. */
  lemma StraightWalks(stop: Step -> bool, limit: nat, vertical: bool, u1: int, v1: int, su: int, sv: int,
                      au: nat, av: nat, range: int)
    requires (su == 1 || su == -1) && (sv == 1 || sv == -1) && 0 <= u1 < limit
    ensures Walk(Pos(vertical, u1, v1), Straight(stop, limit, vertical, u1, v1, su, sv, au, av, range).0,
                 if vertical then sv else su, if vertical then su else sv, !vertical, vertical)
  {
    var (m, half, full) := Slant(au, av);
    StraightFromWalks(stop, limit, vertical, su, sv, m, half, full, range, Next(Origin(u1, v1), su, sv, m, half, full),
                      Pos(vertical, u1, v1));
  }

  /** The origin and destination of a straight branch inside a w-by-h grid, in (major, minor) terms. */
  ghost predicate StraightFrame(w: int, h: int, vertical: bool, u1: int, v1: int, su: int, sv: int, au: nat, av: nat, dest: Step)
  {
    && (su == 1 || su == -1) && (sv == 1 || sv == -1) && au > av
    && 0 <= Pos(vertical, u1, v1).x < w && 0 <= Pos(vertical, u1, v1).y < h
    && dest == Pos(vertical, u1 + Off(su, au), v1 + Off(sv, av))
    && 0 <= dest.x < w && 0 <= dest.y < h
  }

  /** The cursor after t rounds of Next from the origin. */
  function CursorAt(u1: int, v1: int, su: int, sv: int, au: nat, av: nat, t: nat): (c: Cursor)
  {
    if t == 0 then Origin(u1, v1)
    else Next(CursorAt(u1, v1, su, sv, au, av, t - 1), su, sv, Slant(au, av).0, Slant(au, av).1, Slant(au, av).2)
  }

  /** The cursor at step t is t major moves and k minor moves from the origin, with the slant state of SlantAt. */
  lemma {:induction false} CursorAtSlant(u1: int, v1: int, su: int, sv: int, au: nat, av: nat, t: nat)
    requires su == 1 || su == -1
    requires sv == 1 || sv == -1
    ensures var (frac, k, _) := SlantAt(t, Slant(au, av).0, Slant(au, av).1, Slant(au, av).2, au, av);
      CursorAt(u1, v1, su, sv, au, av, t) == Cursor(u1 + Off(su, t), v1 + Off(sv, k), frac, k)
  {
    if t > 0 {
      CursorAtSlant(u1, v1, su, sv, au, av, t - 1);
    }
  }

  /** Up to the destination's major coordinate the minor-move count stays within 0 .. av, reaching av at t == au. */
  lemma SlantBounds(t: nat, au: nat, av: nat)
    requires au > av && 1 <= t <= au
    ensures var k := SlantAt(t, Slant(au, av).0, Slant(au, av).1, Slant(au, av).2, au, av).1;
      0 <= k <= av && (t == au ==> k == av)
  {
    var (m, half, full) := Slant(au, av);
    SlantAtInv(t, m, half, full, au, av);
    var (frac, k, e) := SlantAt(t, m, half, full, au, av);
    MinorBound(t, k, e, au, av);
    if t == au {
      MinorAtEnd(k, e, au, av);
    }
  }

  /**
   * Major step t (1 <= t <= au) of a straight branch on a clear grid: the cell is on the grid,
   * it stops the walk exactly when t == au, and Next yields the cursor of step t + 1.
   */
  lemma StraightClearStep(stop: Step -> bool, w: int, h: int, vertical: bool, u1: int, v1: int, su: int, sv: int,
                          au: nat, av: nat, dest: Step, t: nat)
    requires StraightFrame(w, h, vertical, u1, v1, su, sv, au, av, dest) && ClearWithin(stop, w, h, dest)
    requires 1 <= t <= au
    ensures var c := CursorAt(u1, v1, su, sv, au, av, t);
      && c.k <= av
      && 0 <= c.u < (if vertical then h else w)
      && (stop(Pos(vertical, c.u, c.v)) <==> t == au)
      && (t == au ==> Pos(vertical, c.u, c.v) == dest)
  {
    SlantBounds(t, au, av);
    CursorAtSlant(u1, v1, su, sv, au, av, t);
    var c := CursorAt(u1, v1, su, sv, au, av, t);
    assert InBox(w, h, Pos(vertical, c.u, c.v));
    assert Pos(vertical, c.u, c.v) == dest <==> t == au;
  }

  /** The cells a straight loop records from major step t on, on a clear grid. */
  function StraightTail(stop: Step -> bool, w: int, h: int, vertical: bool, u1: int, v1: int,
                        su: int, sv: int, au: nat, av: nat, dest: Step, range: int, t: nat): (r: seq<Step>)
    requires StraightFrame(w, h, vertical, u1, v1, su, sv, au, av, dest) && ClearWithin(stop, w, h, dest)
    requires 1 <= t <= au
  {
    StraightClearStep(stop, w, h, vertical, u1, v1, su, sv, au, av, dest, t);
    var sl := Slant(au, av);
    StraightFrom(stop, if vertical then h else w, vertical, su, sv, sl.0, sl.1, sl.2, range, CursorAt(u1, v1, su, sv, au, av, t)).0
  }

  /** At t == au the loop records the destination and stops. */
  lemma StraightTailLast(stop: Step -> bool, w: int, h: int, vertical: bool, u1: int, v1: int,
                         su: int, sv: int, au: nat, av: nat, dest: Step, range: int)
    requires StraightFrame(w, h, vertical, u1, v1, su, sv, au, av, dest) && ClearWithin(stop, w, h, dest)
    requires range > au
    ensures StraightTail(stop, w, h, vertical, u1, v1, su, sv, au, av, dest, range, au) == [dest]
  {
    var sl := Slant(au, av);
    StraightClearStep(stop, w, h, vertical, u1, v1, su, sv, au, av, dest, au);
    StraightFromLast(stop, if vertical then h else w, vertical, su, sv, sl.0, sl.1, sl.2, range, CursorAt(u1, v1, su, sv, au, av, au));
  }

  /** Before t == au the loop records a cell that is not the destination and goes on with step t + 1. */
  lemma StraightTailCons(stop: Step -> bool, w: int, h: int, vertical: bool, u1: int, v1: int,
                         su: int, sv: int, au: nat, av: nat, dest: Step, range: int, t: nat)
    requires StraightFrame(w, h, vertical, u1, v1, su, sv, au, av, dest) && ClearWithin(stop, w, h, dest)
    requires range > au && 1 <= t < au
    ensures var c := CursorAt(u1, v1, su, sv, au, av, t);
      StraightTail(stop, w, h, vertical, u1, v1, su, sv, au, av, dest, range, t)
      == [Pos(vertical, c.u, c.v)] + StraightTail(stop, w, h, vertical, u1, v1, su, sv, au, av, dest, range, t + 1)
  {
    var sl := Slant(au, av);
    var c := CursorAt(u1, v1, su, sv, au, av, t);
    StraightClearStep(stop, w, h, vertical, u1, v1, su, sv, au, av, dest, t);
    StraightFromCons(stop, if vertical then h else w, vertical, su, sv, sl.0, sl.1, sl.2, range, c);
  }

  /** From major step t on a clear grid with range > au, the loop records au - t + 1 cells ending at dest. */
  lemma {:induction false} StraightFromReaches(stop: Step -> bool, w: int, h: int, vertical: bool, u1: int, v1: int,
                                               su: int, sv: int, au: nat, av: nat, dest: Step, range: int, t: nat)
    requires StraightFrame(w, h, vertical, u1, v1, su, sv, au, av, dest) && ClearWithin(stop, w, h, dest)
    requires range > au && 1 <= t <= au
    ensures var r := StraightTail(stop, w, h, vertical, u1, v1, su, sv, au, av, dest, range, t);
      |r| == au - t + 1 && r[|r| - 1] == dest
    decreases au - t
  {
    if t == au {
      StraightTailLast(stop, w, h, vertical, u1, v1, su, sv, au, av, dest, range);
    } else {
      var c := CursorAt(u1, v1, su, sv, au, av, t);
      StraightTailCons(stop, w, h, vertical, u1, v1, su, sv, au, av, dest, range, t);
      StraightFromReaches(stop, w, h, vertical, u1, v1, su, sv, au, av, dest, range, t + 1);
      LastOfCons(Pos(vertical, c.u, c.v), StraightTail(stop, w, h, vertical, u1, v1, su, sv, au, av, dest, range, t + 1));
    }
  }

  /** On a clear grid with range > au, a straight branch records au cells, the last of them dest. */
  lemma StraightReaches(stop: Step -> bool, w: int, h: int, vertical: bool, u1: int, v1: int, su: int, sv: int,
                        au: nat, av: nat, dest: Step, range: int)
    requires StraightFrame(w, h, vertical, u1, v1, su, sv, au, av, dest) && ClearWithin(stop, w, h, dest)
    requires range > au
    ensures var limit: nat := if vertical then h else w;
      0 <= u1 < limit &&
      var r := Straight(stop, limit, vertical, u1, v1, su, sv, au, av, range).0;
      |r| == au && r[|r| - 1] == dest
  {
    assert CursorAt(u1, v1, su, sv, au, av, 0) == Origin(u1, v1);
    StraightFromReaches(stop, w, h, vertical, u1, v1, su, sv, au, av, dest, range, 1);
    assert StraightTail(stop, w, h, vertical, u1, v1, su, sv, au, av, dest, range, 1)
        == Straight(stop, if vertical then h else w, vertical, u1, v1, su, sv, au, av, range).0;
  }

  // ---------------------------------------------------------------------
  // The diagonal branch (ax == ay)

  /** The diagonal loop from (x, y): the range test (its counter stays 0), the stop test, then both coordinates advance. */
  function DiagonalFrom(stop: Step -> bool, width: nat, sx: int, sy: int, range: int, x: int, y: int): (r: seq<Step>)
    requires (sx == 1 || sx == -1) && -1 <= x <= width
    ensures |r| > 0 ==> r[0] == Step(x, y)
    decreases if sx > 0 then width - x else x + 1
  {
    var n := 0;
    if n + n / 2 >= range then []
    else if x < 0 || x >= width || stop(Step(x, y)) then [Step(x, y)]
    else
      [Step(x, y)] + DiagonalFrom(stop, width, sx, sy, range, x + sx, y + sy)
  }

  lemma {:induction false} DiagonalFromWalks(stop: Step -> bool, width: nat, sx: int, sy: int, range: int,
                                             x: int, y: int, prev: Step)
    requires (sx == 1 || sx == -1) && (sy == 1 || sy == -1) && -1 <= x <= width
    requires StepOk(prev, Step(x, y), sx, sy, true, true)
    ensures Walk(prev, DiagonalFrom(stop, width, sx, sy, range, x, y), sx, sy, true, true)
    decreases if sx > 0 then width - x else x + 1
  {
    if 0 < range && 0 <= x < width && !stop(Step(x, y)) {
      DiagonalFromWalks(stop, width, sx, sy, range, x + sx, y + sy, Step(x, y));
      WalkCons(prev, Step(x, y), DiagonalFrom(stop, width, sx, sy, range, x + sx, y + sy), sx, sy, true, true);
    }
  }

  lemma DiagonalFromCons(stop: Step -> bool, width: nat, sx: int, sy: int, range: int, x: int, y: int)
    requires (sx == 1 || sx == -1) && range > 0 && 0 <= x < width && !stop(Step(x, y))
    ensures DiagonalFrom(stop, width, sx, sy, range, x, y) == [Step(x, y)] + DiagonalFrom(stop, width, sx, sy, range, x + sx, y + sy)
  {
  }

  lemma DiagonalFromLast(stop: Step -> bool, width: nat, sx: int, sy: int, range: int, x: int, y: int)
    requires (sx == 1 || sx == -1) && range > 0 && 0 <= x < width && stop(Step(x, y))
    ensures DiagonalFrom(stop, width, sx, sy, range, x, y) == [Step(x, y)]
  {
  }

  /** The diagonal stops at its last cell and only there, or the range test cut it off. */
  lemma {:induction false} DiagonalFromStops(stop: Step -> bool, width: nat, sx: int, sy: int, range: int, x: int, y: int)
    requires (sx == 1 || sx == -1) && -1 <= x <= width
    ensures var r := DiagonalFrom(stop, width, sx, sy, range, x, y);
      OnlyLastStops(stop, width, false, r) && (EndsStopped(stop, width, false, r) || range <= 0)
    decreases if sx > 0 then width - x else x + 1
  {
    if 0 < range && 0 <= x < width && !stop(Step(x, y)) {
      DiagonalFromStops(stop, width, sx, sy, range, x + sx, y + sy);
      StopsCons(stop, width, false, Step(x, y), DiagonalFrom(stop, width, sx, sy, range, x + sx, y + sy));
    }
  }

  /** The origin and destination of the diagonal branch inside a w-by-h grid, a >= 1 steps apart. */
  ghost predicate DiagonalFrame(w: int, h: int, x1: int, y1: int, sx: int, sy: int, a: nat, dest: Step)
  {
    && (sx == 1 || sx == -1) && (sy == 1 || sy == -1) && a >= 1
    && 0 <= x1 < w && 0 <= y1 < h
    && dest == Step(x1 + Off(sx, a), y1 + Off(sy, a))
    && 0 <= dest.x < w && 0 <= dest.y < h
  }

  /** The cells the diagonal loop records from step t on. */
  function DiagonalTail(stop: Step -> bool, w: nat, h: int, x1: int, y1: int, sx: int, sy: int, a: nat, dest: Step,
                        range: int, t: nat): (r: seq<Step>)
    requires DiagonalFrame(w, h, x1, y1, sx, sy, a, dest) && 1 <= t <= a
  {
    DiagonalFrom(stop, w, sx, sy, range, x1 + Off(sx, t), y1 + Off(sy, t))
  }

  /** Step t (1 <= t <= a) of the diagonal on a clear grid: the cell is on the grid and stops the walk exactly when t == a. */
  lemma DiagonalClearStep(stop: Step -> bool, w: nat, h: int, x1: int, y1: int, sx: int, sy: int, a: nat, dest: Step, t: nat)
    requires DiagonalFrame(w, h, x1, y1, sx, sy, a, dest) && ClearWithin(stop, w, h, dest) && 1 <= t <= a
    ensures 0 <= x1 + Off(sx, t) < w && 0 <= y1 + Off(sy, t) < h
    ensures stop(Step(x1 + Off(sx, t), y1 + Off(sy, t))) <==> t == a
    ensures x1 + Off(sx, t + 1) == x1 + Off(sx, t) + sx && y1 + Off(sy, t + 1) == y1 + Off(sy, t) + sy
  {
    assert InBox(w, h, Step(x1 + Off(sx, t), y1 + Off(sy, t)));
  }

  lemma DiagonalTailLast(stop: Step -> bool, w: nat, h: int, x1: int, y1: int, sx: int, sy: int, a: nat, dest: Step, range: int)
    requires DiagonalFrame(w, h, x1, y1, sx, sy, a, dest) && ClearWithin(stop, w, h, dest) && range > 0
    ensures DiagonalTail(stop, w, h, x1, y1, sx, sy, a, dest, range, a) == [dest]
  {
    DiagonalClearStep(stop, w, h, x1, y1, sx, sy, a, dest, a);
    DiagonalFromLast(stop, w, sx, sy, range, x1 + Off(sx, a), y1 + Off(sy, a));
  }

  lemma DiagonalTailCons(stop: Step -> bool, w: nat, h: int, x1: int, y1: int, sx: int, sy: int, a: nat, dest: Step,
                         range: int, t: nat)
    requires DiagonalFrame(w, h, x1, y1, sx, sy, a, dest) && range > 0 && 1 <= t < a
    requires 0 <= x1 + Off(sx, t) < w && !stop(Step(x1 + Off(sx, t), y1 + Off(sy, t)))
    ensures DiagonalTail(stop, w, h, x1, y1, sx, sy, a, dest, range, t)
         == [Step(x1 + Off(sx, t), y1 + Off(sy, t))] + DiagonalTail(stop, w, h, x1, y1, sx, sy, a, dest, range, t + 1)
  {
    var x, y := x1 + Off(sx, t), y1 + Off(sy, t);
    assert x1 + Off(sx, t + 1) == x + sx && y1 + Off(sy, t + 1) == y + sy;
    DiagonalFromCons(stop, w, sx, sy, range, x, y);
  }

  /** From step t on a clear grid with range > 0, the diagonal records a - t + 1 cells ending at dest. */
  lemma {:induction false} DiagonalFromReaches(stop: Step -> bool, w: nat, h: int, x1: int, y1: int, sx: int, sy: int,
                                               a: nat, dest: Step, range: int, t: nat)
    requires DiagonalFrame(w, h, x1, y1, sx, sy, a, dest) && ClearWithin(stop, w, h, dest) && range > 0 && 1 <= t <= a
    ensures var r := DiagonalTail(stop, w, h, x1, y1, sx, sy, a, dest, range, t);
      |r| == a - t + 1 && r[|r| - 1] == dest
    decreases a - t
  {
    if t == a {
      DiagonalTailLast(stop, w, h, x1, y1, sx, sy, a, dest, range);
    } else {
      DiagonalClearStep(stop, w, h, x1, y1, sx, sy, a, dest, t);
      DiagonalTailCons(stop, w, h, x1, y1, sx, sy, a, dest, range, t);
      DiagonalFromReaches(stop, w, h, x1, y1, sx, sy, a, dest, range, t + 1);
      LastOfCons(Step(x1 + Off(sx, t), y1 + Off(sy, t)), DiagonalTail(stop, w, h, x1, y1, sx, sy, a, dest, range, t + 1));
    }
  }

  // ---------------------------------------------------------------------
  // RLF_path_basic

  /** The direction from a to b along one axis: -1 when b < a, else 1. */
  function Dir(a: int, b: int): (d: int)
    ensures (d == 1 || d == -1) && b == a + Off(d, Abs(b - a))
  {
    if b < a then -1 else 1
  }

  /** The cells the walker records from (x1, y1) toward (x2, y2): the vertical, horizontal or diagonal branch. */
  function BasicTrace(g0: Grid, x1: int, y1: int, x2: int, y2: int, range: int, flg: bv16): (trace: seq<Step>)
    requires g0.Valid() && g0.InGrid(x1, y1)
  {
    var ax, ay := Abs(x2 - x1), Abs(y2 - y1);
    var sx, sy := Dir(x1, x2), Dir(y1, y2);
    var stop := StopTest(g0, Step(x2, y2), flg);
    if ay > ax then Straight(stop, g0.height, true, y1, x1, sy, sx, ay, ax, range).0
    else if ax > ay then Straight(stop, g0.width, false, x1, y1, sx, sy, ax, ay, range).0
    else DiagonalFrom(stop, g0.width, sx, sy, range, x1 + sx, y1 + sy)
  }

  /** The trace is a walk from the origin toward the destination: the major axis moves every step. */
  lemma BasicTraceWalks(g0: Grid, x1: int, y1: int, x2: int, y2: int, range: int, flg: bv16)
    requires g0.Valid() && g0.InGrid(x1, y1)
    ensures var ax, ay := Abs(x2 - x1), Abs(y2 - y1);
      Walk(Step(x1, y1), BasicTrace(g0, x1, y1, x2, y2, range, flg), Dir(x1, x2), Dir(y1, y2), ax >= ay, ay >= ax)
  {
    var ax, ay := Abs(x2 - x1), Abs(y2 - y1);
    var sx, sy := Dir(x1, x2), Dir(y1, y2);
    var stop := StopTest(g0, Step(x2, y2), flg);
    if ay > ax {
      StraightWalks(stop, g0.height, true, y1, x1, sy, sx, ay, ax, range);
    } else if ax > ay {
      StraightWalks(stop, g0.width, false, x1, y1, sx, sy, ax, ay, range);
    } else {
      DiagonalFromWalks(stop, g0.width, sx, sy, range, x1 + sx, y1 + sy, Step(x1, y1));
    }
  }

  /** test_step passed every recorded cell but the last; the last stopped the walk unless the range test did. */
  lemma BasicTraceStops(g0: Grid, x1: int, y1: int, x2: int, y2: int, range: int, flg: bv16)
    requires g0.Valid() && g0.InGrid(x1, y1)
    ensures var trace := BasicTrace(g0, x1, y1, x2, y2, range, flg);
      && (forall i :: 0 <= i < |trace| - 1 ==> !Stops(g0, trace[i], Step(x2, y2), flg))
      && ((|trace| > 0 && Stops(g0, trace[|trace| - 1], Step(x2, y2), flg)) || 2 * range <= |trace| + 1)
  {
    var ax, ay := Abs(x2 - x1), Abs(y2 - y1);
    var sx, sy := Dir(x1, x2), Dir(y1, y2);
    var dest := Step(x2, y2);
    var stop := StopTest(g0, dest, flg);
    var trace := BasicTrace(g0, x1, y1, x2, y2, range, flg);
    var vertical := ay > ax;
    var limit := if vertical then g0.height else g0.width;
    if ay > ax {
      StraightStops(stop, g0.height, true, y1, x1, sy, sx, ay, ax, range);
    } else if ax > ay {
      StraightStops(stop, g0.width, false, x1, y1, sx, sy, ax, ay, range);
    } else {
      DiagonalFromStops(stop, g0.width, sx, sy, range, x1 + sx, y1 + sy);
    }
    forall i | 0 <= i < |trace|
      ensures Halts(stop, limit, vertical, trace[i]) == Stops(g0, trace[i], dest, flg)
    {
      HaltsIsStops(g0, vertical, dest, flg, trace[i]);
    }
  }

  /** On a clear grid without BEAM and with range beyond the distance, the trace is max(ax, ay) cells ending at the destination. */
  lemma BasicTraceReaches(g0: Grid, x1: int, y1: int, x2: int, y2: int, range: int, flg: bv16)
    requires g0.Valid() && g0.InGrid(x1, y1) && g0.InGrid(x2, y2) && (x1 != x2 || y1 != y2)
    requires ClearGrid(g0) && !FlagSet(flg, PROJECT_BEAM) && range > Max(Abs(x2 - x1), Abs(y2 - y1))
    ensures var trace := BasicTrace(g0, x1, y1, x2, y2, range, flg);
      |trace| == Max(Abs(x2 - x1), Abs(y2 - y1)) && trace[|trace| - 1] == Step(x2, y2)
  {
    ClearGridWithin(g0, Step(x2, y2), flg);
    if Abs(y2 - y1) > Abs(x2 - x1) {
      VerticalReaches(g0, x1, y1, x2, y2, range, flg);
    } else if Abs(x2 - x1) > Abs(y2 - y1) {
      HorizontalReaches(g0, x1, y1, x2, y2, range, flg);
    } else {
      DiagonalBranchReaches(g0, x1, y1, x2, y2, range, flg);
    }
  }

  lemma VerticalReaches(g0: Grid, x1: int, y1: int, x2: int, y2: int, range: int, flg: bv16)
    requires g0.Valid() && g0.InGrid(x1, y1) && g0.InGrid(x2, y2)
    requires Abs(y2 - y1) > Abs(x2 - x1) && range > Abs(y2 - y1)
    requires ClearWithin(StopTest(g0, Step(x2, y2), flg), g0.width, g0.height, Step(x2, y2))
    ensures var trace := BasicTrace(g0, x1, y1, x2, y2, range, flg);
      |trace| == Abs(y2 - y1) && trace[|trace| - 1] == Step(x2, y2)
  {
    StraightReaches(StopTest(g0, Step(x2, y2), flg), g0.width, g0.height, true, y1, x1, Dir(y1, y2), Dir(x1, x2),
                    Abs(y2 - y1), Abs(x2 - x1), Step(x2, y2), range);
    BasicTraceIsStraight(g0, x1, y1, x2, y2, range, flg);
  }

  lemma HorizontalReaches(g0: Grid, x1: int, y1: int, x2: int, y2: int, range: int, flg: bv16)
    requires g0.Valid() && g0.InGrid(x1, y1) && g0.InGrid(x2, y2)
    requires Abs(x2 - x1) > Abs(y2 - y1) && range > Abs(x2 - x1)
    requires ClearWithin(StopTest(g0, Step(x2, y2), flg), g0.width, g0.height, Step(x2, y2))
    ensures var trace := BasicTrace(g0, x1, y1, x2, y2, range, flg);
      |trace| == Abs(x2 - x1) && trace[|trace| - 1] == Step(x2, y2)
  {
    StraightReaches(StopTest(g0, Step(x2, y2), flg), g0.width, g0.height, false, x1, y1, Dir(x1, x2), Dir(y1, y2),
                    Abs(x2 - x1), Abs(y2 - y1), Step(x2, y2), range);
    BasicTraceIsStraight(g0, x1, y1, x2, y2, range, flg);
  }

  lemma DiagonalBranchReaches(g0: Grid, x1: int, y1: int, x2: int, y2: int, range: int, flg: bv16)
    requires g0.Valid() && g0.InGrid(x1, y1) && g0.InGrid(x2, y2) && (x1 != x2 || y1 != y2)
    requires Abs(x2 - x1) == Abs(y2 - y1) && range > 0
    requires ClearWithin(StopTest(g0, Step(x2, y2), flg), g0.width, g0.height, Step(x2, y2))
    ensures var trace := BasicTrace(g0, x1, y1, x2, y2, range, flg);
      |trace| == Abs(x2 - x1) && trace[|trace| - 1] == Step(x2, y2)
  {
    DiagonalFrameHolds(g0.width, g0.height, x1, y1, x2, y2);
    DiagonalReaches(StopTest(g0, Step(x2, y2), flg), g0.width, g0.height, x1, y1, Dir(x1, x2), Dir(y1, y2),
                    Abs(x2 - x1), Step(x2, y2), range);
    BasicTraceIsDiagonal(g0, x1, y1, x2, y2, range, flg);
  }

  /** With one axis strictly longer, the trace is the straight walk along it. */
  lemma BasicTraceIsStraight(g0: Grid, x1: int, y1: int, x2: int, y2: int, range: int, flg: bv16)
    requires g0.Valid() && g0.InGrid(x1, y1) && Abs(x2 - x1) != Abs(y2 - y1)
    ensures var ax, ay := Abs(x2 - x1), Abs(y2 - y1);
      var stop := StopTest(g0, Step(x2, y2), flg);
      BasicTrace(g0, x1, y1, x2, y2, range, flg)
      == if ay > ax then Straight(stop, g0.height, true, y1, x1, Dir(y1, y2), Dir(x1, x2), ay, ax, range).0
         else Straight(stop, g0.width, false, x1, y1, Dir(x1, x2), Dir(y1, y2), ax, ay, range).0
  {
  }

  lemma BasicTraceIsDiagonal(g0: Grid, x1: int, y1: int, x2: int, y2: int, range: int, flg: bv16)
    requires g0.Valid() && g0.InGrid(x1, y1) && Abs(x2 - x1) == Abs(y2 - y1)
    ensures BasicTrace(g0, x1, y1, x2, y2, range, flg)
         == DiagonalFrom(StopTest(g0, Step(x2, y2), flg), g0.width, Dir(x1, x2), Dir(y1, y2), range,
                         x1 + Dir(x1, x2), y1 + Dir(y1, y2))
  {
  }

  /** On a clear grid with range > 0, the diagonal branch records a cells, the last of them dest. */
  lemma DiagonalReaches(stop: Step -> bool, w: nat, h: int, x1: int, y1: int, sx: int, sy: int, a: nat, dest: Step, range: int)
    requires DiagonalFrame(w, h, x1, y1, sx, sy, a, dest) && ClearWithin(stop, w, h, dest) && range > 0
    ensures var r := DiagonalFrom(stop, w, sx, sy, range, x1 + sx, y1 + sy);
      |r| == a && r[|r| - 1] == dest
  {
    DiagonalFromReaches(stop, w, h, x1, y1, sx, sy, a, dest, range, 1);
    DiagonalTailFirst(stop, w, h, x1, y1, sx, sy, a, dest, range);
  }

  lemma DiagonalTailFirst(stop: Step -> bool, w: nat, h: int, x1: int, y1: int, sx: int, sy: int, a: nat, dest: Step, range: int)
    requires DiagonalFrame(w, h, x1, y1, sx, sy, a, dest)
    ensures DiagonalTail(stop, w, h, x1, y1, sx, sy, a, dest, range, 1) == DiagonalFrom(stop, w, sx, sy, range, x1 + sx, y1 + sy)
  {
  }

  lemma DiagonalFrameHolds(w: int, h: int, x1: int, y1: int, x2: int, y2: int)
    requires 0 <= x1 < w && 0 <= y1 < h && 0 <= x2 < w && 0 <= y2 < h
    requires Abs(x2 - x1) == Abs(y2 - y1) && (x1 != x2 || y1 != y2)
    ensures DiagonalFrame(w, h, x1, y1, Dir(x1, x2), Dir(y1, y2), Abs(x2 - x1), Step(x2, y2))
  {
  }

  /**
   * What RLF_path_basic promises about its trace: a walk from the origin whose major axis
   * moves every step, stopped by test_step at its last cell and nowhere before (unless the
   * range test cut it), reaching the destination on a clear grid within range.
   */
  ghost predicate TraceShape(g0: Grid, x1: int, y1: int, x2: int, y2: int, range: int, flg: bv16, trace: seq<Step>)
    requires g0.Valid()
  {
    var ax, ay := Abs(x2 - x1), Abs(y2 - y1);
    var dest := Step(x2, y2);
    && Walk(Step(x1, y1), trace, Dir(x1, x2), Dir(y1, y2), ax >= ay, ay >= ax)
    && (forall k :: 0 <= k < |trace| - 1 ==> !Stops(g0, trace[k], dest, flg))
    && ((|trace| > 0 && Stops(g0, trace[|trace| - 1], dest, flg)) || 2 * range <= |trace| + 1)
    && (ClearGrid(g0) && !FlagSet(flg, PROJECT_BEAM) && range > Max(ax, ay) ==>
          |trace| == Max(ax, ay) && trace[|trace| - 1] == dest)
  }

  lemma BasicTraceShape(g0: Grid, x1: int, y1: int, x2: int, y2: int, range: int, flg: bv16)
    requires g0.Valid() && g0.InGrid(x1, y1) && g0.InGrid(x2, y2) && (x1 != x2 || y1 != y2)
    ensures TraceShape(g0, x1, y1, x2, y2, range, flg, BasicTrace(g0, x1, y1, x2, y2, range, flg))
  {
    BasicTraceWalks(g0, x1, y1, x2, y2, range, flg);
    BasicTraceStops(g0, x1, y1, x2, y2, range, flg);
    if ClearGrid(g0) && !FlagSet(flg, PROJECT_BEAM) && range > Max(Abs(x2 - x1), Abs(y2 - y1)) {
      BasicTraceReaches(g0, x1, y1, x2, y2, range, flg);
    }
  }



  /** Every in-grid cell of g' is the one of g with PATH set when it is on the trace and cleared otherwise. */
  ghost predicate PathMarked(g: Grid, g': Grid, trace: seq<Step>)
    requires g.Valid() && g'.Valid()
  {
    && g'.width == g.width && g'.height == g.height && g'.pathMaps == g.pathMaps
    && forall x, y :: g.InGrid(x, y) ==> Cell(g', x, y) == Apply(Cell(g, x, y), CELL_PATH, Step(x, y) in trace)
  }

  /** Clearing PATH everywhere and then replaying add_step marks exactly the trace. */
  lemma ClearThenReplay(g0: Grid, gc: Grid, trace: seq<Step>)
    requires g0.Valid() && gc.Valid() && gc.width == g0.width && gc.height == g0.height && gc.pathMaps == g0.pathMaps
    requires forall x, y :: g0.InGrid(x, y) ==> Cell(gc, x, y) == Apply(Cell(g0, x, y), CELL_PATH, false)
    ensures PathMarked(g0, Replay(gc, trace), trace)
  {
    var g' := Replay(gc, trace);
    ReplayMarks(gc, trace);
    forall x, y | g0.InGrid(x, y)
      ensures Cell(g', x, y) == Apply(Cell(g0, x, y), CELL_PATH, Step(x, y) in trace)
    {
      ClearThenMark(Cell(g0, x, y), Cell(gc, x, y), Cell(g', x, y), Step(x, y) in trace);
    }
  }

  lemma ClearThenMark(v: bv16, cleared: bv16, marked: bv16, on: bool)
    requires cleared == Apply(v, CELL_PATH, false)
    requires marked == if on then cleared | CELL_PATH else cleared
    ensures marked == Apply(v, CELL_PATH, on)
  {
  }

  /** The status RLF_path_basic's checks yield, in the order the C code makes them. */
  function BasicCheck(st: State, m: int, x1: int, y1: int, x2: int, y2: int): (r: int)
    ensures r == SUCCESS <==>
      CellValid(st, m, x1, y1) && CellValid(st, m, x2, y2) && (x1 != x2 || y1 != y2) && LowestFree(st.paths) < MAX_PATHS
    ensures !MapValid(st, m) ==> r == ERR_NO_MAP
    ensures MapValid(st, m) && LowestFree(st.paths) >= MAX_PATHS ==> r == ERR_FLAG
    ensures MapValid(st, m) && LowestFree(st.paths) < MAX_PATHS && !(CellValid(st, m, x1, y1) && CellValid(st, m, x2, y2)) ==>
      r == ERR_GENERIC
    ensures MapValid(st, m) && LowestFree(st.paths) < MAX_PATHS && x1 == x2 && y1 == y2 ==> r == ERR_GENERIC
  {
    if !MapValid(st, m) then ERR_NO_MAP
    else if LowestFree(st.paths) >= MAX_PATHS then ERR_FLAG
    else if !CellValid(st, m, x1, y1) || !CellValid(st, m, x2, y2) then ERR_GENERIC
    else if x1 == x2 && y1 == y2 then ERR_GENERIC
    else SUCCESS
  }

  /** The path record RLF_path_basic stores: endpoints, zero bounds, the steps, their count, valid, and the map. */
  function BasicPath(m: int, x1: int, y1: int, x2: int, y2: int, trace: seq<Step>): (p: Path)
    ensures p.steps.Valid() && p.steps.fsize == |trace| && p.size == |trace| && p.valid && p.mapIndex == m
    ensures forall k :: 0 <= k < |trace| ==> p.steps.Elements()[k] == Some(trace[k])
  {
    Path(x1, y1, x2, y2, 0, 0, FromSeq(trace), |trace|, true, m)
  }

  /** st' is st with map m PATH-marked along trace and the path stored in the lowest free slot. */
  ghost predicate BasicStored(st: State, st': State, m: int, x1: int, y1: int, x2: int, y2: int, trace: seq<Step>)
    requires st.Valid() && st'.Valid() && MapValid(st, m) && LowestFree(st.paths) < MAX_PATHS
  {
    && st'.projects == st.projects
    && st'.paths == st.paths[LowestFree(st.paths) := Some(BasicPath(m, x1, y1, x2, y2, trace))]
    && MapValid(st', m) && PathMarked(TheMap(st, m), TheMap(st', m), trace)
    && (forall k :: 0 <= k < MAX_MAPS && k != m ==> st'.maps[k] == st.maps[k])
  }

  /**
   * RLF_path_basic: the checks in order (no map, no free path slot, an endpoint off the map,
   * identical endpoints), a negative range replaced by 300, PATH cleared on the whole map, the
   * walk, and the path stored in the lowest free slot.
   */
  method PathBasic(st: State, m: int, x1: int, y1: int, x2: int, y2: int, range: int, flg: bv16)
    returns (r: int, st': State, trace: seq<Step>)
    requires st.Valid()
    ensures st'.Valid() && r == BasicCheck(st, m, x1, y1, x2, y2)
    ensures r != SUCCESS ==> st' == st && trace == []
    ensures r == SUCCESS ==>
      && BasicStored(st, st', m, x1, y1, x2, y2, trace)
      && TraceShape(TheMap(st, m), x1, y1, x2, y2, if range < 0 then BASIC_MAX_RANGE else range, flg, trace)
  {
    r := BasicCheck(st, m, x1, y1, x2, y2);
    if r != SUCCESS {
      return r, st, [];
    }
    var rng := if range < 0 then BASIC_MAX_RANGE else range;
    var g0 := TheMap(st, m);
    var gc := ApplyMap(g0, CELL_PATH, false);
    trace := BasicTrace(g0, x1, y1, x2, y2, rng, flg);
    BasicTraceShape(g0, x1, y1, x2, y2, rng, flg);
    var g' := Replay(gc, trace);
    ClearThenReplay(g0, gc, trace);
    st' := WithPath(WithMap(st, m, g'), LowestFree(st.paths), BasicPath(m, x1, y1, x2, y2, trace));
  }
}
