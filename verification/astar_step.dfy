/**
 * RLFL_path_step_map as path_astar.c defines it: one step on a path map from a
 * cell towards the lowest (or, stepping away, the highest) non-negative value
 * among its eight neighbours, taken in the dirx/diry order of that file.
 */
module AstarStep {
  import opened Util
  import opened Defines
  import opened Grid
  import opened Store
  import opened PathMap
  import PathAstar

  /** The first value the scan compares against: -1 stepping away (any stored value beats it), INT_MAX otherwise. */
  function ScanStart(away: bool): (n: int)
    ensures away ==> forall cc :: cc >= 0 ==> Beats(away, n, cc)
    ensures !away ==> forall cc :: cc < INT_MAX ==> Beats(away, n, cc)
  {
    if away then -1 else INT_MAX
  }

  /**
   * RLFL_path_step_map (path_astar.c): after the checks, the neighbour of (ox, oy), in dirx/diry
   * order, whose non-negative value is strictly best so far, or (ox, oy) and GENERIC when no
   * neighbour qualifies. The state is never changed.
   */
  method AstarStepMap(st: State, m: int, p: nat, ox: int, oy: int, away: bool) returns (r: int, x: int, y: int)
    requires st.Valid()
    ensures StepCheck(st, m, p, ox, oy) != SUCCESS ==> r == StepCheck(st, m, p, ox, oy)
    ensures StepCheck(st, m, p, ox, oy) == SUCCESS ==>
      var g := TheMap(st, m);
      var vals := PathSlot(g, p).value;
      && (r == SUCCESS || r == ERR_GENERIC)
      && (r == ERR_GENERIC <==> Stuck(g, vals, ox, oy, PathAstar.Dirs, SkipNegative, away, ScanStart(away)))
      && (r == ERR_GENERIC ==> x == ox && y == oy)
      && (r == SUCCESS ==> exists k :: BestAt(g, vals, ox, oy, PathAstar.Dirs, SkipNegative, away, ScanStart(away), k)
                                     && Step(x, y) == Toward(ox, oy, PathAstar.Dirs[k]))
  {
    r := StepCheck(st, m, p, ox, oy);
    if r != SUCCESS {
      return r, ox, oy;
    }
    var g := TheMap(st, m);
    var dirs := PathAstar.Dirs;
    r, x, y := StepOn(g, PathSlot(g, p).value, ox, oy, dirs, SkipNegative, away, ScanStart(away));
  }

  /** Stepping away, the scan is stuck exactly when no neighbour on the map holds a non-negative value. */
  lemma AwayStuckIffNoValue(g: Grid, vals: seq<int>, ox: int, oy: int, dirs: seq<Step>)
    requires g.Valid() && |vals| == Mul(g.width, g.height)
    ensures Stuck(g, vals, ox, oy, dirs, SkipNegative, true, ScanStart(true)) <==>
      forall i :: 0 <= i < |dirs| ==> Seen(g, vals, ox, oy, dirs[i], SkipNegative).None?
  {
  }
}
