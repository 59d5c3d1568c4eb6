/**
 * The path map entry points of dijkstra.c, the versions the Python bindings
 * call: fill a free path map slot with the distance map of a goal, step on a
 * path map, and empty one slot or all of them.
 */
module DijkstraMap {
  import opened Util
  import opened Defines
  import opened Grid
  import opened Store
  import opened PathMap
  import opened Dijkstra

  /** save_dijkstra_map: PATH_UNKNOWN for an impassable cell, the distance cast to an integer otherwise. */
  function SaveMap(links: seq<Link>): (vals: seq<int>)
    ensures |vals| == |links|
    ensures forall i :: 0 <= i < |links| && !links[i].passable ==> vals[i] == PATH_UNKNOWN
    ensures forall i :: 0 <= i < |links| && links[i].passable && links[i].distance >= 0.0 ==>
      0 <= vals[i] && vals[i] as real <= links[i].distance < vals[i] as real + 1.0
    ensures forall i :: 0 <= i < |links| && links[i].passable ==> vals[i] as real <= Max0(links[i].distance)
  {
    seq(|links|, i requires 0 <= i < |links| => if links[i].passable then Trunc(links[i].distance) else PATH_UNKNOWN)
  }

  /** The larger of r and 0. */
  function Max0(r: real): (m: real)
    ensures m >= 0.0 && m >= r && (m == 0.0 || m == r)
  {
    if r < 0.0 then 0.0 else r
  }

  /** The start links and the bare initial links have the same cells: the goal differs only in distance. */
  lemma StartKeepsCells(g: Grid, ox: int, oy: int)
    requires g.Valid() && g.InGrid(ox, oy)
    ensures SameCells(InitLinks(g), StartLinks(g, ox, oy))
  {
    var a, b := InitLinks(g), StartLinks(g, ox, oy);
    forall k | 0 <= k < |a|
      ensures SameCell(a[k], b[k])
    {
    }
  }

  /** The stored map of a finished scan. */
  function Saved(g: Grid, ox: int, oy: int, dcost: real, dirs: seq<Step>, fuel: nat): (vals: seq<int>)
    requires g.Valid() && g.InGrid(ox, oy)
    requires Relaxation(g.width, g.height, dcost, StartScan(g, ox, oy), dirs, fuel).Some?
    ensures |vals| == Mul(g.width, g.height)
  {
    SaveMap(Relaxation(g.width, g.height, dcost, StartScan(g, ox, oy), dirs, fuel).value)
  }

  /** The scan keeps the cells of the bare initial links. */
  lemma ScanKeepsCells(g: Grid, ox: int, oy: int, dcost: real, dirs: seq<Step>, fuel: nat)
    requires g.Valid() && g.InGrid(ox, oy)
    requires Relaxation(g.width, g.height, dcost, StartScan(g, ox, oy), dirs, fuel).Some?
    ensures SameCells(InitLinks(g), Relaxation(g.width, g.height, dcost, StartScan(g, ox, oy), dirs, fuel).value)
  {
    var sc := StartScan(g, ox, oy);
    StartKeepsCells(g, ox, oy);
    RelaxationKeepsCells(g.width, g.height, dcost, sc, dirs, fuel);
    SameCellsTrans(InitLinks(g), sc.links, Relaxation(g.width, g.height, dcost, sc, dirs, fuel).value);
  }

  /** A finished scan stores PATH_UNKNOWN on every cell without OPEN or WALK. */
  lemma SavedImpassable(g: Grid, ox: int, oy: int, dcost: real, dirs: seq<Step>, fuel: nat)
    requires g.Valid() && g.InGrid(ox, oy)
    requires Relaxation(g.width, g.height, dcost, StartScan(g, ox, oy), dirs, fuel).Some?
    ensures forall x, y :: g.InGrid(x, y) && !Has(g, x, y, CELL_OPEN | CELL_WALK) ==>
      ValAt(g, Saved(g, ox, oy, dcost, dirs, fuel), x, y) == PATH_UNKNOWN
  {
    var links := Relaxation(g.width, g.height, dcost, StartScan(g, ox, oy), dirs, fuel).value;
    InitLinksSpec(g);
    ScanKeepsCells(g, ox, oy, dcost, dirs, fuel);
    forall x, y | g.InGrid(x, y) && !Has(g, x, y, CELL_OPEN | CELL_WALK)
      ensures ValAt(g, Saved(g, ox, oy, dcost, dirs, fuel), x, y) == PATH_UNKNOWN
    {
      IdxInRange(g.width, g.height, x, y);
      assert SameCell(InitLinks(g)[Idx(g.width, x, y)], links[Idx(g.width, x, y)]);
    }
  }

  /** With dcost >= -1 a finished scan stores nothing negative, and 0 at a passable goal. */
  lemma SavedGoal(g: Grid, ox: int, oy: int, dcost: real, dirs: seq<Step>, fuel: nat)
    requires g.Valid() && g.InGrid(ox, oy) && dcost >= -1.0
    requires Relaxation(g.width, g.height, dcost, StartScan(g, ox, oy), dirs, fuel).Some?
    ensures Has(g, ox, oy, CELL_OPEN | CELL_WALK) ==> ValAt(g, Saved(g, ox, oy, dcost, dirs, fuel), ox, oy) == 0
    ensures forall i :: 0 <= i < |Saved(g, ox, oy, dcost, dirs, fuel)| ==> Saved(g, ox, oy, dcost, dirs, fuel)[i] >= 0
  {
    var links := Relaxation(g.width, g.height, dcost, StartScan(g, ox, oy), dirs, fuel).value;
    GoalKeepsZero(g, ox, oy, dcost, dirs, fuel);
    InitLinksSpec(g);
    ScanKeepsCells(g, ox, oy, dcost, dirs, fuel);
    IdxInRange(g.width, g.height, ox, oy);
    assert SameCell(InitLinks(g)[Idx(g.width, ox, oy)], links[Idx(g.width, ox, oy)]);
  }

  /** One walk of SavedBound. */
  lemma SavedBoundOne(g: Grid, ox: int, oy: int, dcost: real, dirs: seq<Step>, fuel: nat, ds: seq<nat>)
    requires g.Valid() && g.InGrid(ox, oy) && dcost <= 0.0 && Has(g, ox, oy, CELL_OPEN | CELL_WALK)
    requires Relaxation(g.width, g.height, dcost, StartScan(g, ox, oy), dirs, fuel).Some?
    requires MoveTo(g.width, g.height, InitLinks(g), ox, oy, dirs, ds).Some?
    ensures var e := MoveTo(g.width, g.height, InitLinks(g), ox, oy, dirs, ds).value;
      g.InGrid(e.x, e.y) && ValAt(g, Saved(g, ox, oy, dcost, dirs, fuel), e.x, e.y) <= |ds|
  {
    var w, h := g.width, g.height;
    var links := Relaxation(w, h, dcost, StartScan(g, ox, oy), dirs, fuel).value;
    ScanKeepsCells(g, ox, oy, dcost, dirs, fuel);
    MoveToFrame(w, h, InitLinks(g), links, ox, oy, dirs, ds);
    ScanBound(g, ox, oy, dcost, dirs, fuel, ds);
    var e := MoveTo(w, h, links, ox, oy, dirs, ds).value;
    IdxInRange(w, h, e.x, e.y);
    var k := Idx(w, e.x, e.y);
    var vals := SaveMap(links);
    assert links[k].passable && links[k].distance <= |ds| as real;
    assert vals[k] as real <= Max0(links[k].distance) <= |ds| as real;
  }

  /**
   * With dcost <= 0 and a passable goal, a finished scan stores at most n on a cell reached from
   * the goal by n allowed moves through OPEN or WALK cells.
   */
  lemma SavedBound(g: Grid, ox: int, oy: int, dcost: real, dirs: seq<Step>, fuel: nat)
    requires g.Valid() && g.InGrid(ox, oy) && dcost <= 0.0 && Has(g, ox, oy, CELL_OPEN | CELL_WALK)
    requires Relaxation(g.width, g.height, dcost, StartScan(g, ox, oy), dirs, fuel).Some?
    ensures forall ds :: MoveTo(g.width, g.height, InitLinks(g), ox, oy, dirs, ds).Some? ==>
      var e := MoveTo(g.width, g.height, InitLinks(g), ox, oy, dirs, ds).value;
      g.InGrid(e.x, e.y) && ValAt(g, Saved(g, ox, oy, dcost, dirs, fuel), e.x, e.y) <= |ds|
  {
    forall ds | MoveTo(g.width, g.height, InitLinks(g), ox, oy, dirs, ds).Some?
      ensures var e := MoveTo(g.width, g.height, InitLinks(g), ox, oy, dirs, ds).value;
        g.InGrid(e.x, e.y) && ValAt(g, Saved(g, ox, oy, dcost, dirs, fuel), e.x, e.y) <= |ds|
    {
      SavedBoundOne(g, ox, oy, dcost, dirs, fuel, ds);
    }
  }

  /**
   * RLFL_path_fill_map (dijkstra.c) without the safety remap: check the map and the goal, take
   * the lowest empty path map slot, run the scan from the goal and store the result there; the
   * slot index is the status. `complete` is false when the scan ran out of fuel, and then nothing
   * changes.
   */
  method FillMap(st: State, m: int, ox: int, oy: int, dcost: real, fuel: nat) returns (r: int, st': State, complete: bool)
    requires st.Valid()
    ensures st'.Valid()
    ensures !MapValid(st, m) ==> r == ERR_NO_MAP && st' == st && complete
    ensures MapValid(st, m) && !CellValid(st, m, ox, oy) ==> r == ERR_OUT_OF_BOUNDS && st' == st && complete
    ensures CellValid(st, m, ox, oy) && LowestFree(TheMap(st, m).pathMaps) == MAX_PATHS ==>
      r == ERR_NO_PATH && st' == st && complete
    ensures !complete ==> st' == st && r == ERR_GENERIC
    ensures complete && r >= 0 <==> CellValid(st, m, ox, oy) && LowestFree(TheMap(st, m).pathMaps) < MAX_PATHS && complete
    ensures r >= 0 ==>
      var g := TheMap(st, m);
      && r == LowestFree(g.pathMaps) && r < MAX_PATHS && MapValid(st', m)
      && st'.paths == st.paths && st'.projects == st.projects
      && (forall k :: 0 <= k < MAX_MAPS && k != m ==> st'.maps[k] == st.maps[k])
      && var g' := TheMap(st', m);
      && g'.width == g.width && g'.height == g.height && g'.cells == g.cells
      && (forall q :: 0 <= q < MAX_PATHS && q != r ==> g'.pathMaps[q] == g.pathMaps[q])
      && g'.pathMaps[r].Some?
      && var vals := g'.pathMaps[r].value;
      && (forall x, y :: g.InGrid(x, y) && !Has(g, x, y, CELL_OPEN | CELL_WALK) ==> ValAt(g, vals, x, y) == PATH_UNKNOWN)
      && (dcost >= -1.0 ==> forall i :: 0 <= i < |vals| ==> vals[i] >= 0)
      && (dcost >= -1.0 && Has(g, ox, oy, CELL_OPEN | CELL_WALK) ==> ValAt(g, vals, ox, oy) == 0)
      && (dcost <= 0.0 && Has(g, ox, oy, CELL_OPEN | CELL_WALK) ==>
            forall ds :: MoveTo(g.width, g.height, InitLinks(g), ox, oy, NbDirs, ds).Some? ==>
              var e := MoveTo(g.width, g.height, InitLinks(g), ox, oy, NbDirs, ds).value;
              g.InGrid(e.x, e.y) && ValAt(g, vals, e.x, e.y) <= |ds|)
  {
    complete := true;
    st' := st;
    if !MapValid(st, m) {
      return ERR_NO_MAP, st, true;
    }
    if !CellValid(st, m, ox, oy) {
      return ERR_OUT_OF_BOUNDS, st, true;
    }
    var g := TheMap(st, m);
    var pm := LowestFree(g.pathMaps);
    if pm >= MAX_PATHS {
      return ERR_NO_PATH, st, true;
    }
    var dirs := NbDirs;
    var sc := StartScan(g, ox, oy);
    var links := Relaxation(g.width, g.height, dcost, sc, dirs, fuel);
    if links.None? {
      return ERR_GENERIC, st, false;
    }
    var vals := Saved(g, ox, oy, dcost, dirs, fuel);
    SavedImpassable(g, ox, oy, dcost, dirs, fuel);
    if dcost >= -1.0 {
      SavedGoal(g, ox, oy, dcost, dirs, fuel);
    }
    if dcost <= 0.0 && Has(g, ox, oy, CELL_OPEN | CELL_WALK) {
      SavedBound(g, ox, oy, dcost, dirs, fuel);
    }
    st' := WithMap(st, m, WithSlot(g, pm, Some(vals)));
    r := pm;
  }

  /**
   * RLFL_path_step_map (dijkstra.c): after the checks, the neighbour of (ox, oy), in nbDirs
   * order, whose stored value is the strictly smallest so far, passing over PATH_UNKNOWN, or
   * (ox, oy) and GENERIC when no neighbour has a value. The state is never changed.
   */
  method DijkstraStepMap(st: State, m: int, p: nat, ox: int, oy: int) returns (r: int, x: int, y: int)
    requires st.Valid()
    ensures StepCheck(st, m, p, ox, oy) != SUCCESS ==> r == StepCheck(st, m, p, ox, oy)
    ensures StepCheck(st, m, p, ox, oy) == SUCCESS ==>
      var g := TheMap(st, m);
      var vals := PathSlot(g, p).value;
      && (r == SUCCESS || r == ERR_GENERIC)
      && (r == ERR_GENERIC <==> Stuck(g, vals, ox, oy, NbDirs, SkipUnknown, false, INT_MAX))
      && (r == ERR_GENERIC ==> x == ox && y == oy)
      && (r == SUCCESS ==> exists k :: BestAt(g, vals, ox, oy, NbDirs, SkipUnknown, false, INT_MAX, k)
                                     && Step(x, y) == Toward(ox, oy, NbDirs[k]))
  {
    r := StepCheck(st, m, p, ox, oy);
    if r != SUCCESS {
      return r, ox, oy;
    }
    var g := TheMap(st, m);
    var dirs := NbDirs;
    r, x, y := StepOn(g, PathSlot(g, p).value, ox, oy, dirs, SkipUnknown, false, INT_MAX);
  }

  /**
   * The slot access of RLFL_path_wipe_map as written: after the map check it reads
   * `path_map[p]` with no check on p. None stands for the NO_MAP return before any read.
   */
  function WipeReadAsWritten(st: State, m: int, p: nat): (r: Option<SlotRead>)
    requires st.Valid()
    ensures r.None? <==> !MapValid(st, m)
  {
    if !MapValid(st, m) then None else Some(ReadSlotAsWritten(TheMap(st, m), p))
  }

  /** On any map, wiping slot MAX_PATHS reads (and would free) the word after the slot array. */
  lemma WipeOverruns(st: State, m: int)
    requires st.Valid() && MapValid(st, m)
    ensures WipeReadAsWritten(st, m, MAX_PATHS) == Some(Overrun)
  {
  }

  /**
   * RLFL_path_wipe_map with the slot index checked: NO_MAP for a bad map, otherwise SUCCESS with
   * slot p emptied when it is a real slot; an index past the slots changes nothing.
   */
  function WipeMap(st: State, m: int, p: nat): (res: (int, State))
    requires st.Valid()
    ensures res.1.Valid()
    ensures !MapValid(st, m) ==> res == (ERR_NO_MAP, st)
    ensures MapValid(st, m) ==> res.0 == SUCCESS
    ensures MapValid(st, m) && p >= MAX_PATHS ==> res.1 == st
    ensures MapValid(st, m) && p < MAX_PATHS ==>
      && MapValid(res.1, m) && res.1.paths == st.paths && res.1.projects == st.projects
      && (forall k :: 0 <= k < MAX_MAPS && k != m ==> res.1.maps[k] == st.maps[k])
      && TheMap(res.1, m).pathMaps[p].None?
      && TheMap(res.1, m).cells == TheMap(st, m).cells
      && TheMap(res.1, m).width == TheMap(st, m).width && TheMap(res.1, m).height == TheMap(st, m).height
      && (forall q :: 0 <= q < MAX_PATHS && q != p ==> TheMap(res.1, m).pathMaps[q] == TheMap(st, m).pathMaps[q])
  {
    if !MapValid(st, m) then (ERR_NO_MAP, st)
    else if p >= MAX_PATHS then (SUCCESS, st)
    else (SUCCESS, WithMap(st, m, WithSlot(TheMap(st, m), p, None)))
  }

  /** Where the written access stays inside the slot array, the checked wipe is what the C code does. */
  lemma WipeAgrees(st: State, m: int, p: nat)
    requires st.Valid() && MapValid(st, m)
    ensures WipeReadAsWritten(st, m, p) == Some(Overrun) <==> p >= MAX_PATHS
  {
  }

  /** Wiping slots i.. of map m, one RLFL_path_wipe_map call each, as the loop of wipe_all_maps does. */
  function WipeFrom(st: State, m: int, i: nat): (r: State)
    requires st.Valid() && MapValid(st, m) && i <= MAX_PATHS
    ensures r.Valid() && MapValid(r, m)
    decreases MAX_PATHS - i
  {
    if i == MAX_PATHS then st else WipeFrom(WipeMap(st, m, i).1, m, i + 1)
  }

  /** RLFL_path_wipe_all_maps: NO_MAP for a bad map, otherwise every slot emptied. */
  function WipeAllMaps(st: State, m: int): (res: (int, State))
    requires st.Valid()
    ensures res.1.Valid()
    ensures !MapValid(st, m) ==> res == (ERR_NO_MAP, st)
    ensures MapValid(st, m) ==> res.0 == SUCCESS && MapValid(res.1, m)
  {
    if !MapValid(st, m) then (ERR_NO_MAP, st) else (SUCCESS, WipeFrom(st, m, 0))
  }

  /**
   * Wiping from slot i empties slots i.. and keeps the slots below i, the cells, the other maps
   * and the other registries.
   */
  lemma {:induction false} WipeFromSpec(st: State, m: int, i: nat)
    requires st.Valid() && MapValid(st, m) && i <= MAX_PATHS
    ensures var r := WipeFrom(st, m, i);
      && r.paths == st.paths && r.projects == st.projects
      && (forall k :: 0 <= k < MAX_MAPS && k != m ==> r.maps[k] == st.maps[k])
      && TheMap(r, m).cells == TheMap(st, m).cells
      && TheMap(r, m).width == TheMap(st, m).width && TheMap(r, m).height == TheMap(st, m).height
      && (forall q :: 0 <= q < i ==> TheMap(r, m).pathMaps[q] == TheMap(st, m).pathMaps[q])
      && (forall q :: i <= q < MAX_PATHS ==> TheMap(r, m).pathMaps[q].None?)
    decreases MAX_PATHS - i
  {
    if i < MAX_PATHS {
      var s1 := WipeMap(st, m, i).1;
      WipeFromSpec(s1, m, i + 1);
    }
  }

  /** After wipe_all_maps every slot of the map is empty, so the next fill_map takes slot 0. */
  lemma WipeAllEmpties(st: State, m: int)
    requires st.Valid() && MapValid(st, m)
    ensures var r := WipeAllMaps(st, m).1;
      && (forall q :: 0 <= q < MAX_PATHS ==> TheMap(r, m).pathMaps[q].None?)
      && TheMap(r, m).cells == TheMap(st, m).cells
      && LowestFree(TheMap(r, m).pathMaps) == 0
  {
    WipeFromSpec(st, m, 0);
  }

  /** After wiping slot p, the next fill_map takes slot p or a lower one. */
  lemma WipeFreesSlot(st: State, m: int, p: nat)
    requires st.Valid() && MapValid(st, m) && p < MAX_PATHS
    ensures LowestFree(TheMap(WipeMap(st, m, p).1, m).pathMaps) <= p
  {
    LowestFreeAtMost(TheMap(WipeMap(st, m, p).1, m).pathMaps, p);
  }

  /** An empty slot at p bounds the lowest free slot. */
  lemma LowestFreeAtMost<T>(slots: seq<Option<T>>, p: nat)
    requires p < |slots| && slots[p].None?
    ensures LowestFree(slots) <= p
  {
  }
}
