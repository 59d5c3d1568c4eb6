/**
 * Path maps: the per-map integer layers that RLFL_path_fill_map computes and
 * RLFL_path_step_map walks. Both path_astar.c and dijkstra.c read a slot and
 * pick the best of the eight neighbours of a cell; the slot access and the
 * neighbour scan they share live here.
 */
module PathMap {
  import opened Util
  import opened Defines
  import opened Grid
  import opened Store

  /** INT_MAX of a 32-bit C int: the starting "best" of a descending scan. */
  const INT_MAX: int := 2147483647

  // ---------------------------------------------------------------------
  // Slot access

  /** What reading `map->path_map[p]` yields: a slot (empty or not), or a read past the array. */
  datatype SlotRead = Slot(values: Option<seq<int>>) | Overrun

  /**
   * The array access `path_map[p]` as C performs it: the array has MAX_PATHS entries, so any
   * larger index reads memory that is not a slot.
   */
  function ReadSlotAsWritten(g: Grid, p: nat): (r: SlotRead)
    requires g.Valid()
    ensures r.Overrun? <==> p >= MAX_PATHS
    ensures r.Slot? ==> r.values == g.pathMaps[p]
  {
    if p < |g.pathMaps| then Slot(g.pathMaps[p]) else Overrun
  }

  /** The slot guard of both step_map functions as written: `p > RLFL_MAX_PATHS` rejects (p is unsigned). */
  predicate StepGuardAsWritten(p: nat)
  {
    !(p > MAX_PATHS)
  }

  /** The guard lets p == MAX_PATHS through, and the read that follows is past the slot array. */
  lemma StepGuardAdmitsOverrun(g: Grid)
    requires g.Valid()
    ensures StepGuardAsWritten(MAX_PATHS) && ReadSlotAsWritten(g, MAX_PATHS).Overrun?
  {
  }

  /** The guard as intended: only the MAX_PATHS real slots pass, so the read never overruns. */
  predicate StepGuard(p: nat)
  {
    p < MAX_PATHS
  }

  /** A path map slot read after the intended guard: None for a bad index or an empty slot. */
  function PathSlot(g: Grid, p: nat): (r: Option<seq<int>>)
    requires g.Valid()
    ensures r.Some? <==> StepGuard(p) && g.pathMaps[p].Some?
    ensures r.Some? ==> r == g.pathMaps[p] && |r.value| == Mul(g.width, g.height)
  {
    if StepGuard(p) && g.pathMaps[p].Some? then g.pathMaps[p] else None
  }

  /** Below the slot count the intended guard and the written one agree, and the read is a real slot. */
  lemma StepGuardAgrees(g: Grid, p: nat)
    requires g.Valid()
    ensures StepGuard(p) <==> StepGuardAsWritten(p) && p != MAX_PATHS
    ensures StepGuard(p) <==> ReadSlotAsWritten(g, p).Slot?
  {
  }

  /** The status of step_map's checks before the scan, in the order both C versions make them, with the intended slot guard. */
  function StepCheck(st: State, m: int, p: nat, ox: int, oy: int): (r: int)
    requires st.Valid()
    ensures r == SUCCESS <==> CellValid(st, m, ox, oy) && PathSlot(TheMap(st, m), p).Some?
    ensures !MapValid(st, m) ==> r == ERR_NO_MAP
    ensures MapValid(st, m) && !CellValid(st, m, ox, oy) ==> r == ERR_OUT_OF_BOUNDS
    ensures CellValid(st, m, ox, oy) && PathSlot(TheMap(st, m), p).None? ==> r == ERR_NO_PATH
  {
    if !MapValid(st, m) then ERR_NO_MAP
    else if !CellValid(st, m, ox, oy) then ERR_OUT_OF_BOUNDS
    else if PathSlot(TheMap(st, m), p).None? then ERR_NO_PATH
    else SUCCESS
  }

  /** Path map slot p of g set to v (None empties it); cells and the other slots are untouched. */
  function WithSlot(g: Grid, p: nat, v: Option<seq<int>>): (g': Grid)
    requires g.Valid() && p < MAX_PATHS && (v.Some? ==> |v.value| == Mul(g.width, g.height))
    ensures g'.Valid() && g'.width == g.width && g'.height == g.height && g'.cells == g.cells
    ensures g'.pathMaps[p] == v && forall q :: 0 <= q < MAX_PATHS && q != p ==> g'.pathMaps[q] == g.pathMaps[q]
  {
    g.(pathMaps := g.pathMaps[p := v])
  }

  // ---------------------------------------------------------------------
  // Neighbour scan

  /** `cc` replaces the running best `n`: strictly larger when stepping away, strictly smaller otherwise. */
  predicate Beats(away: bool, n: int, cc: int)
  {
    if away then n < cc else n > cc
  }

  /**
   * The scan loop of step_map over candidate values in direction order (None for a neighbour
   * that is skipped): j is the first candidate strictly better than every one before it and at
   * least as good as every one after it, or -1 when none beats the starting value.
   */
  method Pick(cands: seq<Option<int>>, away: bool, start: int) returns (j: int, n: int)
    ensures -1 <= j < |cands|
    ensures j == -1 <==> forall i :: 0 <= i < |cands| && cands[i].Some? ==> !Beats(away, start, cands[i].value)
    ensures j >= 0 ==> cands[j] == Some(n) && Beats(away, start, n)
    ensures j >= 0 ==> forall i :: 0 <= i < j && cands[i].Some? ==> Beats(away, cands[i].value, n)
    ensures j >= 0 ==> forall i :: j < i < |cands| && cands[i].Some? ==> !Beats(away, n, cands[i].value)
  {
    j, n := -1, start;
    var i := 0;
    while i < |cands|
      invariant 0 <= i <= |cands| && -1 <= j < i
      invariant j == -1 ==> n == start && forall k :: 0 <= k < i && cands[k].Some? ==> !Beats(away, start, cands[k].value)
      invariant j >= 0 ==> cands[j] == Some(n) && Beats(away, start, n)
      invariant j >= 0 ==> forall k :: 0 <= k < j && cands[k].Some? ==> Beats(away, cands[k].value, n)
      invariant forall k :: j < k < i && cands[k].Some? ==> !Beats(away, n, cands[k].value)
    {
      if cands[i].Some? && Beats(away, n, cands[i].value) {
        n, j := cands[i].value, i;
      }
      i := i + 1;
    }
  }

  /** The neighbour of (ox, oy) in direction d. */
  function Toward(ox: int, oy: int, d: Step): Step
  {
    Step(ox + d.x, oy + d.y)
  }

  /** Which stored values a scan passes over: negative ones (A*) or PATH_UNKNOWN (Dijkstra). */
  datatype Skip = SkipNegative | SkipUnknown

  predicate Skipped(skip: Skip, cc: int)
  {
    match skip
    case SkipNegative => cc < 0
    case SkipUnknown => cc == PATH_UNKNOWN
  }

  /** The value the scan considers in direction d: none for an off-map neighbour or a skipped value. */
  function Seen(g: Grid, vals: seq<int>, ox: int, oy: int, d: Step, skip: Skip): (c: Option<int>)
    requires g.Valid() && |vals| == Mul(g.width, g.height)
    ensures c.Some? <==> g.InGrid(ox + d.x, oy + d.y) && !Skipped(skip, ValAt(g, vals, ox + d.x, oy + d.y))
    ensures c.Some? ==> c.value == ValAt(g, vals, ox + d.x, oy + d.y)
  {
    var x, y := ox + d.x, oy + d.y;
    if g.InGrid(x, y) && !Skipped(skip, ValAt(g, vals, x, y)) then Some(ValAt(g, vals, x, y)) else None
  }

  /** The path map value of cell (x, y), at its row-major index. */
  function ValAt(g: Grid, vals: seq<int>, x: int, y: int): int
    requires g.Valid() && |vals| == Mul(g.width, g.height) && g.InGrid(x, y)
  {
    IdxInRange(g.width, g.height, x, y);
    vals[Idx(g.width, x, y)]
  }

  /**
   * Direction k is the one step_map takes: its value beats the starting value, is strictly
   * better than every earlier direction's and no later direction's value is strictly better.
   */
  ghost predicate BestAt(g: Grid, vals: seq<int>, ox: int, oy: int, dirs: seq<Step>, skip: Skip, away: bool, start: int, k: int)
    requires g.Valid() && |vals| == Mul(g.width, g.height)
  {
    && 0 <= k < |dirs|
    && var v := Seen(g, vals, ox, oy, dirs[k], skip);
    && v.Some? && Beats(away, start, v.value)
    && (forall i :: 0 <= i < k && Seen(g, vals, ox, oy, dirs[i], skip).Some? ==>
          Beats(away, Seen(g, vals, ox, oy, dirs[i], skip).value, v.value))
    && (forall i :: k < i < |dirs| && Seen(g, vals, ox, oy, dirs[i], skip).Some? ==>
          !Beats(away, v.value, Seen(g, vals, ox, oy, dirs[i], skip).value))
  }

  /** No direction offers a value that beats the starting value. */
  ghost predicate Stuck(g: Grid, vals: seq<int>, ox: int, oy: int, dirs: seq<Step>, skip: Skip, away: bool, start: int)
    requires g.Valid() && |vals| == Mul(g.width, g.height)
  {
    forall i :: 0 <= i < |dirs| && Seen(g, vals, ox, oy, dirs[i], skip).Some? ==>
      !Beats(away, start, Seen(g, vals, ox, oy, dirs[i], skip).value)
  }

  /**
   * The body of step_map after its checks: scan the neighbours in `dirs` order. On success the
   * result is the neighbour in the best direction; otherwise (x, y) stays at the origin and the
   * status is GENERIC.
   */
  method StepOn(g: Grid, vals: seq<int>, ox: int, oy: int, dirs: seq<Step>, skip: Skip, away: bool, start: int)
    returns (r: int, x: int, y: int)
    requires g.Valid() && |vals| == Mul(g.width, g.height)
    ensures r == SUCCESS || r == ERR_GENERIC
    ensures r == ERR_GENERIC <==> Stuck(g, vals, ox, oy, dirs, skip, away, start)
    ensures r == ERR_GENERIC ==> x == ox && y == oy
    ensures r == SUCCESS ==> exists k :: BestAt(g, vals, ox, oy, dirs, skip, away, start, k) && Step(x, y) == Toward(ox, oy, dirs[k])
  {
    var cands := seq(|dirs|, i requires 0 <= i < |dirs| => Seen(g, vals, ox, oy, dirs[i], skip));
    assert forall i :: 0 <= i < |dirs| ==> cands[i] == Seen(g, vals, ox, oy, dirs[i], skip);
    var j, n := Pick(cands, away, start);
    if j < 0 {
      return ERR_GENERIC, ox, oy;
    }
    assert BestAt(g, vals, ox, oy, dirs, skip, away, start, j);
    r, x, y := SUCCESS, ox + dirs[j].x, oy + dirs[j].y;
  }

  /** A stored value never beats INT_MAX in a descending scan, so a cell holding INT_MAX is never chosen. */
  lemma IntMaxNeverBeaten(v: int)
    requires v >= INT_MAX
    ensures !Beats(false, INT_MAX, v)
  {
  }
}
