/**
 * Projections (project.c): RLFL_project traces a basic path from the origin
 * toward the target, records the beam and the ball or cone around it in the
 * lowest free projection slot, and deletes the path again; the projection
 * registry accessors; and the project_* wrappers of rlfl.c.
 */
module Project {
  import opened Util
  import opened Defines
  import opened List
  import opened Grid
  import opened Store
  import opened Shape
  import PathBasic
  import Rlfl

  // ---------------------------------------------------------------------
  // Registry accessors

  /**
   * A projection handle that names a stored projection: below MAX_PROJECTS and occupied. C tests
   * only `p >= RLFL_MAX_PROJECTS` on a signed p; a negative handle is treated as out of range.
   */
  predicate ProjectValid(st: State, p: int)
  {
    0 <= p < |st.projects| && st.projects[p].Some?
  }

  /** RLFL_project_size: NO_MAP for a bad or empty slot, else the number of recorded cells. */
  function ProjectSize(st: State, p: int): (r: int)
    requires st.Valid()
    ensures !ProjectValid(st, p) ==> r == ERR_NO_MAP
    ensures ProjectValid(st, p) ==> r == st.projects[p].value.fsize
  {
    if !ProjectValid(st, p) then ERR_NO_MAP else st.projects[p].value.fsize
  }

  /**
   * RLFL_project_step: NO_MAP for a bad or empty slot, GENERIC when the list has no element i
   * (a negative i is a huge unsigned index), else cell i.
   */
  function ProjectStep(st: State, p: int, i: int): (res: (int, Option<Step>))
    requires st.Valid()
    ensures res.0 == SUCCESS <==> res.1.Some?
    ensures !ProjectValid(st, p) ==> res == (ERR_NO_MAP, None)
    ensures ProjectValid(st, p) && (i < 0 || i >= st.projects[p].value.fsize) ==> res == (ERR_GENERIC, None)
    ensures ProjectValid(st, p) && 0 <= i < st.projects[p].value.fsize ==>
      res.1 == st.projects[p].value.Elements()[i] && (res.0 == SUCCESS || res.0 == ERR_GENERIC)
  {
    if !ProjectValid(st, p) then (ERR_NO_MAP, None)
    else if i < 0 then (ERR_GENERIC, None)
    else
      var step := Get(st.projects[p].value, i);
      if step.None? then (ERR_GENERIC, None) else (SUCCESS, step)
  }

  /** RLFL_project_delete: NO_MAP for a bad or empty slot, else the slot is emptied and nothing else changes. */
  function ProjectDelete(st: State, p: int): (res: (int, State))
    requires st.Valid()
    ensures res.1.Valid()
    ensures !ProjectValid(st, p) ==> res == (ERR_NO_MAP, st)
    ensures ProjectValid(st, p) ==>
      && res.0 == SUCCESS && !ProjectValid(res.1, p)
      && (forall q :: 0 <= q < MAX_PROJECTS && q != p ==> res.1.projects[q] == st.projects[q])
      && res.1.maps == st.maps && res.1.paths == st.paths
  {
    if !ProjectValid(st, p) then (ERR_NO_MAP, st) else (SUCCESS, st.(projects := st.projects[p := None]))
  }

  /** After project_delete the slot is gone: size, step and a second delete all report NO_MAP. */
  lemma DeleteThenSize(st: State, p: int, i: int)
    requires st.Valid()
    ensures ProjectSize(ProjectDelete(st, p).1, p) == ERR_NO_MAP
    ensures ProjectStep(ProjectDelete(st, p).1, p, i) == (ERR_NO_MAP, None)
    ensures ProjectDelete(ProjectDelete(st, p).1, p).0 == ERR_NO_MAP
  {
  }

  /** A projection stored from a list of cells reads back through the accessors: its size, each cell in order, GENERIC past the end. */
  lemma StoredProjectionReads(st: State, p: int, cells: seq<Step>)
    requires st.Valid() && 0 <= p < MAX_PROJECTS && st.projects[p] == Some(FromSeq(cells))
    ensures ProjectSize(st, p) == |cells|
    ensures forall k :: 0 <= k < |cells| ==> ProjectStep(st, p, k) == (SUCCESS, Some(cells[k]))
    ensures ProjectStep(st, p, |cells|) == (ERR_GENERIC, None)
  {
  }

  // ---------------------------------------------------------------------
  // RLFL_project

  /**
   * A successful projection into slot n: the path registry is as before (the path was created
   * and deleted again), slot n holds the cells, only map m changed and only by the path's PATH
   * marks, the trace is a basic path from origin to target (none for identical endpoints or a
   * full path registry), and the cells are those the beam and the blast record on the marked map.
   */
  ghost predicate Projected(st: State, st': State, m: int, ox: int, oy: int, tx: int, ty: int, rad: int, rng: int, flg: bv16,
                            n: int, cells: seq<Step>, trace: seq<Step>)
    requires st.Valid() && st'.Valid()
  {
    && 0 <= n < MAX_PROJECTS && st.projects[n].None?
    && Traced(st, st', m, ox, oy, tx, ty, rng, flg, trace)
    && st'.projects == st.projects[n := Some(FromSeq(cells))]
    && cells == ProjectCells(TheMap(st', m), Step(ox, oy), Step(tx, ty), trace, rad, rng, flg)
  }

  /**
   * The path half of Projected: the path registry is as before, only map m changed and only by
   * the path's PATH marks, and the trace is a basic path from origin to target (none for
   * identical endpoints or a full path registry).
   */
  ghost predicate Traced(st: State, st': State, m: int, ox: int, oy: int, tx: int, ty: int, rng: int, flg: bv16, trace: seq<Step>)
    requires st.Valid() && st'.Valid()
  {
    && MapValid(st, m) && MapValid(st', m)
    && st'.paths == st.paths
    && (forall k :: 0 <= k < MAX_MAPS && k != m ==> st'.maps[k] == st.maps[k])
    && (PathBasic.PathMarked(TheMap(st, m), TheMap(st', m), trace) || (trace == [] && TheMap(st', m) == TheMap(st, m)))
    && (trace != [] ==> PathBasic.TraceShape(TheMap(st, m), ox, oy, tx, ty, rng, flg, trace))
    && (ox == tx && oy == ty ==> trace == [])
  }

  /**
   * What RLFL_project promises for its arguments: NO_MAP, then FLAG when the projection
   * registry is full, then OUT_OF_BOUNDS for the origin or the target, each leaving the state
   * alone; otherwise the projection is stored in the lowest free slot (with a negative range
   * replaced by MAX_RANGE) and that slot is returned.
   */
  ghost predicate Outcome(st: State, m: int, ox: int, oy: int, tx: int, ty: int, rad: int, range: int, flg: bv16,
                          r: int, st': State, cells: seq<Step>, trace: seq<Step>)
    requires st.Valid() && st'.Valid()
  {
    && (r < 0 ==> st' == st)
    && (!MapValid(st, m) ==> r == ERR_NO_MAP)
    && (MapValid(st, m) && LowestFree(st.projects) >= MAX_PROJECTS ==> r == ERR_FLAG)
    && (MapValid(st, m) && LowestFree(st.projects) < MAX_PROJECTS && !(CellValid(st, m, ox, oy) && CellValid(st, m, tx, ty)) ==>
          r == ERR_OUT_OF_BOUNDS)
    && (CellValid(st, m, ox, oy) && CellValid(st, m, tx, ty) && LowestFree(st.projects) < MAX_PROJECTS ==>
          r == LowestFree(st.projects))
    && (r >= 0 ==> Projected(st, st', m, ox, oy, tx, ty, rad, if range < 0 then MAX_RANGE else range, flg, r, cells, trace))
  }

  /** A 16-bit flag word survives the widening to unsigned long and the basic walker's truncation. */
  lemma FlagsWidenNarrow(b: bv16)
    ensures ((b as int) % 0x1_0000) as bv16 == b
  {
    Bv16Fits(b);
    SmallMod(b as int);
    Bv16RoundTrip(b);
  }

  lemma Bv16Fits(b: bv16)
    ensures b as int < 0x1_0000
  {
  }

  lemma SmallMod(x: int)
    requires 0 <= x < 0x1_0000
    ensures x % 0x1_0000 == x
  {
  }

  lemma Bv16RoundTrip(b: bv16)
    ensures (b as int) as bv16 == b
  {
  }

  /** Creating a path in the lowest free slot and deleting it again leaves the path registry as it was. */
  lemma CreateThenDelete(paths: seq<Option<Path>>, p: int, path: Path)
    requires 0 <= p < |paths| && paths[p].None?
    ensures paths[p := Some(path)][p := None] == paths
  {
  }

  /** The state RLFL_project leaves: path pr deleted again and the cells stored in projection slot n. */
  function Finish(st1: State, pr: int, n: int, cells: seq<Step>): (st': State)
    requires st1.Valid() && 0 <= n < MAX_PROJECTS
    ensures st'.Valid() && st'.maps == st1.maps && st'.projects[n] == Some(FromSeq(cells))
  {
    var st2 := Rlfl.PathDelete(st1, pr).1;
    st2.(projects := st2.projects[n := Some(FromSeq(cells))])
  }

  /** What path_create promised (or its failure) turns, after the cells are recorded, into a stored projection. */
  lemma FinishProjects(st: State, st1: State, m: int, ox: int, oy: int, tx: int, ty: int, rad: int, rng: int, flg: bv16,
                       pr: int, tr: seq<Step>, n: int)
    requires st.Valid() && st1.Valid() && MapValid(st, m) && rng >= 0
    requires n == LowestFree(st.projects) && n < MAX_PROJECTS
    requires pr < 0 ==> st1 == st
    requires ox == tx && oy == ty ==> pr < 0
    requires pr >= 0 ==> pr == LowestFree(st.paths) && pr < MAX_PATHS
    requires pr >= 0 ==> PathBasic.BasicStored(st, st1, m, ox, oy, tx, ty, tr)
    requires pr >= 0 ==> PathBasic.TraceShape(TheMap(st, m), ox, oy, tx, ty, rng, flg, tr)
    ensures var trace := if pr >= 0 then tr else [];
      var cells := ProjectCells(TheMap(st1, m), Step(ox, oy), Step(tx, ty), trace, rad, rng, flg);
      Projected(st, Finish(st1, pr, n, cells), m, ox, oy, tx, ty, rad, rng, flg, n, cells, trace)
  {
    if pr >= 0 {
      FinishWithPath(st, st1, m, ox, oy, tx, ty, rad, rng, flg, pr, tr, n);
    } else {
      FinishWithoutPath(st, m, ox, oy, tx, ty, rad, rng, flg, pr, n);
    }
  }

  lemma FinishWithPath(st: State, st1: State, m: int, ox: int, oy: int, tx: int, ty: int, rad: int, rng: int, flg: bv16,
                       pr: int, tr: seq<Step>, n: int)
    requires st.Valid() && st1.Valid() && MapValid(st, m) && rng >= 0
    requires n == LowestFree(st.projects) && n < MAX_PROJECTS
    requires ox != tx || oy != ty
    requires pr == LowestFree(st.paths) && pr < MAX_PATHS
    requires PathBasic.BasicStored(st, st1, m, ox, oy, tx, ty, tr)
    requires PathBasic.TraceShape(TheMap(st, m), ox, oy, tx, ty, rng, flg, tr)
    ensures var cells := ProjectCells(TheMap(st1, m), Step(ox, oy), Step(tx, ty), tr, rad, rng, flg);
      Projected(st, Finish(st1, pr, n, cells), m, ox, oy, tx, ty, rad, rng, flg, n, cells, tr)
  {
    CreateThenDelete(st.paths, pr, PathBasic.BasicPath(m, ox, oy, tx, ty, tr));
  }

  lemma FinishWithoutPath(st: State, m: int, ox: int, oy: int, tx: int, ty: int, rad: int, rng: int, flg: bv16,
                          pr: int, n: int)
    requires st.Valid() && MapValid(st, m) && rng >= 0 && pr < 0
    requires n == LowestFree(st.projects) && n < MAX_PROJECTS
    ensures var cells := ProjectCells(TheMap(st, m), Step(ox, oy), Step(tx, ty), [], rad, rng, flg);
      Projected(st, Finish(st, pr, n, cells), m, ox, oy, tx, ty, rad, rng, flg, n, cells, [])
  {
  }

  /**
   * RLFL_project as written: the checks, then a basic path from origin to target through
   * path_create, whose result (SUCCESS, that is 0, for a basic path) is taken as the path's
   * handle; the beam and the cone read the path in slot 0 through path_size and path_step, slot
   * 0 is deleted afterwards, and SUCCESS is returned whatever projection slot was used. The same
   * handle 0 is what breath_shape gives add_step, so a cone goes to projection slot 0.
   */
  method Project(st: State, m: int, ox: int, oy: int, tx: int, ty: int, rad: int, range: int, flg: bv16)
    returns (r: int, st': State, cells: seq<Step>, trace: seq<Step>)
    requires st.Valid()
    ensures st'.Valid()
    ensures OutcomeAsWritten(st, m, ox, oy, tx, ty, rad, range, flg, r, st', cells, trace)
  {
    r := Check(st, m, ox, oy, tx, ty);
    if r != SUCCESS {
      CheckFailsAsWritten(st, m, ox, oy, tx, ty, rad, range, flg);
      return r, st, [], [];
    }
    var n := LowestFree(st.projects);
    var rng := if range < 0 then MAX_RANGE else range;
    var pathN, st1, tr, complete := Rlfl.PathCreate(st, m, ox, oy, tx, ty, PATH_BASIC, rng, flg as nat, 0.0, 0);
    FlagsWidenNarrow(flg);
    trace := if pathN >= 0 then SlotTrace(st1, pathN) else [];
    cells := SlotCells(TheMap(st1, m), Step(ox, oy), Step(tx, ty), trace, rad, rng, flg, n);
    st' := FinishCone(st1, pathN, n, TheMap(st1, m), Step(ox, oy), Step(tx, ty), trace, rad, rng, flg);
    r := SUCCESS;
    SuccessAsWritten(st, st1, m, ox, oy, tx, ty, rad, range, flg, pathN, tr, trace, cells, st');
  }

  /**
   * The cone goes astray as written: breath_shape draws it (CONE set, a beam longer than rad) and
   * hands add_step the path handle 0, while the new projection sits in slot n, which is not 0.
   */
  predicate ConeMisrouted(g: Grid, origin: Step, target: Step, trace: seq<Step>, rad: int, rng: int, flg: bv16, n: int)
    requires g.Valid()
  {
    var b := BeamOf(g, origin, target, trace, rng, flg);
    n != 0 && b.size <= rng && IsCone(b, rad, flg)
  }

  /** The cells slot n ends with as written: the intended ones, or only origin and beam when the cone went astray. */
  function SlotCells(g: Grid, origin: Step, target: Step, trace: seq<Step>, rad: int, rng: int, flg: bv16, n: int): seq<Step>
    requires g.Valid()
  {
    if ConeMisrouted(g, origin, target, trace, rad, rng, flg, n) then BeamOf(g, origin, target, trace, rng, flg).cells
    else ProjectCells(g, origin, target, trace, rad, rng, flg)
  }

  /** The cells of the non-NULL entries of a list, in order: what add_step's duplicate test compares against. */
  function Present(s: seq<Option<Step>>): (r: seq<Step>)
    ensures forall c :: c in r <==> Some(c) in s
  {
    if s == [] then []
    else (if s[0].Some? then [s[0].value] else []) + Present(s[1..])
  }

  /**
   * Projection list l after breath_shape has passed the cone's cells to add_step for it: every
   * cell not already present is appended once, in ripple order, so the list keeps its entries
   * and a cell is present afterwards iff it was before or it belongs to the blast.
   */
  function ConeOnto(l: ListT<Step>, g: Grid, origin: Step, target: Step, trace: seq<Step>, rad: int, rng: int, flg: bv16): (r: ListT<Step>)
    requires l.Valid() && g.Valid() && rng >= 0
    requires IsCone(BeamOf(g, origin, target, trace, rng, flg), rad, flg)
    ensures r.Valid() && r.fsize >= l.fsize && r.Elements()[..l.fsize] == l.Elements()
    ensures forall c :: Some(c) in r.Elements() <==>
      Some(c) in l.Elements() || InBlast(g, origin, trace, BeamOf(g, origin, target, trace, rng, flg), rad, rng, flg, c)
  {
    var b := BeamOf(g, origin, target, trace, rng, flg);
    var acc := Present(l.Elements());
    var cone := Cone(g, acc, origin, trace, b, rad, flg).0;
    BeamWithinRange(g, origin, target, trace, rng, flg);
    ConeOntoCells(g, acc, origin, trace, b, rad, rng, flg);
    AppendedCone(l, acc, cone);
    AppendAll(l, cone[|acc|..])
  }

  /** The beam never runs further than the range. */
  lemma BeamWithinRange(g: Grid, origin: Step, target: Step, trace: seq<Step>, rng: int, flg: bv16)
    requires g.Valid() && rng >= 0
    ensures BeamOf(g, origin, target, trace, rng, flg).size <= rng
  {
    BeamOfFacts(g, origin, target, trace, rng, flg);
  }

  /** Appending to l the part of cone past the cells already present makes l hold exactly the cells of cone. */
  lemma AppendedCone(l: ListT<Step>, acc: seq<Step>, cone: seq<Step>)
    requires l.Valid() && acc == Present(l.Elements()) && Extends(acc, cone)
    ensures forall c :: Some(c) in AppendAll(l, cone[|acc|..]).Elements() <==> c in cone
  {
    var extra := cone[|acc|..];
    var r := AppendAll(l, extra);
    AppendAllEntries(l, extra);
    EntriesHold(extra);
    SplitMembers(acc, cone);
    forall c
      ensures Some(c) in r.Elements() <==> c in cone
    {
      assert Some(c) in r.Elements() <==> Some(c) in l.Elements() || Some(c) in Entries(extra);
    }
  }

  /** A sequence extending acc holds the cells of acc and of its part past acc, and no others. */
  lemma SplitMembers(acc: seq<Step>, cone: seq<Step>)
    requires Extends(acc, cone)
    ensures forall c :: c in cone <==> c in acc || c in cone[|acc|..]
  {
    assert cone == acc + cone[|acc|..];
  }

  /**
   * The state RLFL_project leaves as written: path pr deleted, slot n holding SlotCells, and when
   * the cone went astray its cells added to projection slot 0 (add_step reports NO_MAP and adds
   * nothing when that slot is empty).
   */
  function FinishCone(st1: State, pr: int, n: int, g: Grid, origin: Step, target: Step, trace: seq<Step>,
                      rad: int, rng: int, flg: bv16): (st': State)
    requires st1.Valid() && 0 <= n < MAX_PROJECTS && g.Valid() && rng >= 0
    ensures st'.Valid() && st'.maps == st1.maps
  {
    var st2 := Finish(st1, pr, n, SlotCells(g, origin, target, trace, rad, rng, flg, n));
    if ConeMisrouted(g, origin, target, trace, rad, rng, flg, n) && st2.projects[0].Some? then
      st2.(projects := st2.projects[0 := Some(ConeOnto(st2.projects[0].value, g, origin, target, trace, rad, rng, flg))])
    else st2
  }

  /**
   * When the cone goes astray, the new projection holds the origin and the beam alone, and it
   * lacks every blast cell off the beam that the intended projection holds.
   */
  lemma ConeMisroutedCells(g: Grid, origin: Step, target: Step, trace: seq<Step>, rad: int, rng: int, flg: bv16, n: int)
    requires g.Valid() && rng >= 0 && ConeMisrouted(g, origin, target, trace, rad, rng, flg, n)
    ensures var b := BeamOf(g, origin, target, trace, rng, flg);
      var cells := SlotCells(g, origin, target, trace, rad, rng, flg, n);
      && (forall c :: c in cells <==> c == origin || c in trace[..b.len])
      && (forall c :: InBlast(g, origin, trace, b, rad, rng, flg, c) && c !in b.cells ==>
            c in ProjectCells(g, origin, target, trace, rad, rng, flg) && c !in cells)
  {
    BeamOfFacts(g, origin, target, trace, rng, flg);
    ProjectionCells(g, origin, target, trace, rad, rng, flg);
  }

  /** RLFL_project's checks in order: the map, a free projection slot, then origin and target. */
  function Check(st: State, m: int, ox: int, oy: int, tx: int, ty: int): (r: int)
    requires st.Valid()
    ensures r == SUCCESS <==> CellValid(st, m, ox, oy) && CellValid(st, m, tx, ty) && LowestFree(st.projects) < MAX_PROJECTS
    ensures r != SUCCESS ==> r < 0
  {
    if !MapValid(st, m) then ERR_NO_MAP
    else if LowestFree(st.projects) >= MAX_PROJECTS then ERR_FLAG
    else if !CellValid(st, m, ox, oy) || !CellValid(st, m, tx, ty) then ERR_OUT_OF_BOUNDS
    else SUCCESS
  }

  /** A failed check is the whole outcome, as written and as intended. */
  lemma CheckFailsAsWritten(st: State, m: int, ox: int, oy: int, tx: int, ty: int, rad: int, range: int, flg: bv16)
    requires st.Valid() && Check(st, m, ox, oy, tx, ty) != SUCCESS
    ensures OutcomeAsWritten(st, m, ox, oy, tx, ty, rad, range, flg, Check(st, m, ox, oy, tx, ty), st, [], [])
    ensures Outcome(st, m, ox, oy, tx, ty, rad, range, flg, Check(st, m, ox, oy, tx, ty), st, [], [])
  {
  }

  lemma SuccessAsWritten(st: State, st1: State, m: int, ox: int, oy: int, tx: int, ty: int, rad: int, range: int, flg: bv16,
                         pathN: int, tr: seq<Step>, trace: seq<Step>, cells: seq<Step>, st': State)
    requires st.Valid() && st1.Valid() && MapValid(st, m)
    requires CellValid(st, m, ox, oy) && CellValid(st, m, tx, ty) && LowestFree(st.projects) < MAX_PROJECTS
    requires pathN < 0 ==> st1 == st
    requires ox == tx && oy == ty ==> pathN < 0
    requires LowestFree(st.paths) < MAX_PATHS && (ox != tx || oy != ty) ==> pathN >= 0
    requires pathN >= 0 ==> pathN == SUCCESS && LowestFree(st.paths) < MAX_PATHS
    requires pathN >= 0 ==> PathBasic.BasicStored(st, st1, m, ox, oy, tx, ty, tr)
    requires pathN >= 0 ==> PathBasic.TraceShape(TheMap(st, m), ox, oy, tx, ty, if range < 0 then MAX_RANGE else range, flg, tr)
    requires trace == if pathN >= 0 then SlotTrace(st1, pathN) else []
    requires cells == SlotCells(TheMap(st1, m), Step(ox, oy), Step(tx, ty), trace, rad, if range < 0 then MAX_RANGE else range, flg,
                                LowestFree(st.projects))
    requires st' == FinishCone(st1, pathN, LowestFree(st.projects), TheMap(st1, m), Step(ox, oy), Step(tx, ty), trace, rad,
                               if range < 0 then MAX_RANGE else range, flg)
    ensures st'.Valid()
    ensures OutcomeAsWritten(st, m, ox, oy, tx, ty, rad, range, flg, SUCCESS, st', cells, trace)
  {
    FinishAsWritten(st, st1, m, ox, oy, tx, ty, rad, if range < 0 then MAX_RANGE else range, flg, pathN, tr, LowestFree(st.projects));
  }

  /**
   * What the rest of RLFL_project makes of path_create's outcome: the projection is stored, and
   * whether it is the intended one depends on whether slot 0 held an older path and on whether
   * a cone went to projection slot 0.
   */
  lemma FinishAsWritten(st: State, st1: State, m: int, ox: int, oy: int, tx: int, ty: int, rad: int, rng: int, flg: bv16,
                        pathN: int, tr: seq<Step>, n: int)
    requires st.Valid() && st1.Valid() && MapValid(st, m) && rng >= 0
    requires CellValid(st, m, ox, oy) && CellValid(st, m, tx, ty)
    requires n == LowestFree(st.projects) && n < MAX_PROJECTS
    requires pathN < 0 ==> st1 == st
    requires ox == tx && oy == ty ==> pathN < 0
    requires LowestFree(st.paths) < MAX_PATHS && (ox != tx || oy != ty) ==> pathN >= 0
    requires pathN >= 0 ==> pathN == SUCCESS && LowestFree(st.paths) < MAX_PATHS
    requires pathN >= 0 ==> PathBasic.BasicStored(st, st1, m, ox, oy, tx, ty, tr)
    requires pathN >= 0 ==> PathBasic.TraceShape(TheMap(st, m), ox, oy, tx, ty, rng, flg, tr)
    ensures var trace := if pathN >= 0 then SlotTrace(st1, pathN) else [];
      var g1 := TheMap(st1, m);
      StoredAsWritten(st, FinishCone(st1, pathN, n, g1, Step(ox, oy), Step(tx, ty), trace, rad, rng, flg), m, ox, oy, tx, ty,
                      rad, rng, flg, SlotCells(g1, Step(ox, oy), Step(tx, ty), trace, rad, rng, flg, n), trace)
  {
    if pathN < 0 {
      PathlessAsWritten(st, m, ox, oy, tx, ty, rad, rng, flg, pathN, n);
    } else if LowestFree(st.paths) > 0 {
      StaleAsWritten(st, st1, m, ox, oy, tx, ty, rad, rng, flg, tr, n);
    } else {
      FreshAsWritten(st, st1, m, ox, oy, tx, ty, rad, rng, flg, tr, n);
    }
  }

  /** FinishAsWritten while path slot 0 is free and the new path went there: the path half is the intended one. */
  lemma FreshAsWritten(st: State, st1: State, m: int, ox: int, oy: int, tx: int, ty: int, rad: int, rng: int, flg: bv16,
                       tr: seq<Step>, n: int)
    requires st.Valid() && st1.Valid() && MapValid(st, m) && rng >= 0
    requires n == LowestFree(st.projects) && n < MAX_PROJECTS
    requires ox != tx || oy != ty
    requires LowestFree(st.paths) == 0
    requires PathBasic.BasicStored(st, st1, m, ox, oy, tx, ty, tr)
    requires PathBasic.TraceShape(TheMap(st, m), ox, oy, tx, ty, rng, flg, tr)
    ensures var trace := SlotTrace(st1, 0);
      var g1 := TheMap(st1, m);
      StoredAsWritten(st, FinishCone(st1, 0, n, g1, Step(ox, oy), Step(tx, ty), trace, rad, rng, flg), m, ox, oy, tx, ty,
                      rad, rng, flg, SlotCells(g1, Step(ox, oy), Step(tx, ty), trace, rad, rng, flg, n), trace)
  {
    SlotTraceOfStored(st1, 0, PathBasic.BasicPath(m, ox, oy, tx, ty, tr), tr);
    FinishWithPath(st, st1, m, ox, oy, tx, ty, rad, rng, flg, 0, tr, n);
    IntendedPathStored(st, st1, m, ox, oy, tx, ty, rad, rng, flg, 0, n, tr);
  }

  /** FinishAsWritten when no path was created: the projection is traced along no path. */
  lemma PathlessAsWritten(st: State, m: int, ox: int, oy: int, tx: int, ty: int, rad: int, rng: int, flg: bv16,
                          pathN: int, n: int)
    requires st.Valid() && MapValid(st, m) && rng >= 0 && pathN < 0
    requires n == LowestFree(st.projects) && n < MAX_PROJECTS
    requires LowestFree(st.paths) >= MAX_PATHS || (ox == tx && oy == ty)
    ensures var g := TheMap(st, m);
      StoredAsWritten(st, FinishCone(st, pathN, n, g, Step(ox, oy), Step(tx, ty), [], rad, rng, flg), m, ox, oy, tx, ty,
                      rad, rng, flg, SlotCells(g, Step(ox, oy), Step(tx, ty), [], rad, rng, flg, n), [])
  {
    FinishWithoutPath(st, m, ox, oy, tx, ty, rad, rng, flg, pathN, n);
    IntendedPathStored(st, st, m, ox, oy, tx, ty, rad, rng, flg, pathN, n, []);
  }

  /**
   * The step shared by both intended-path cases: the intended finish was Projected, so the
   * as-written one is stored as written.
   */
  lemma IntendedPathStored(st: State, st1: State, m: int, ox: int, oy: int, tx: int, ty: int, rad: int, rng: int, flg: bv16,
                           pr: int, n: int, trace: seq<Step>)
    requires st.Valid() && st1.Valid() && MapValid(st1, m) && rng >= 0
    requires n == LowestFree(st.projects) && n < MAX_PROJECTS && st1.projects == st.projects
    requires st.paths[0].None? || LowestFree(st.paths) >= MAX_PATHS || (ox == tx && oy == ty)
    requires var g1 := TheMap(st1, m);
      var pcells := ProjectCells(g1, Step(ox, oy), Step(tx, ty), trace, rad, rng, flg);
      Projected(st, Finish(st1, pr, n, pcells), m, ox, oy, tx, ty, rad, rng, flg, n, pcells, trace)
    ensures var g1 := TheMap(st1, m);
      StoredAsWritten(st, FinishCone(st1, pr, n, g1, Step(ox, oy), Step(tx, ty), trace, rad, rng, flg), m, ox, oy, tx, ty,
                      rad, rng, flg, SlotCells(g1, Step(ox, oy), Step(tx, ty), trace, rad, rng, flg, n), trace)
  {
    var g1 := TheMap(st1, m);
    var o, t := Step(ox, oy), Step(tx, ty);
    var pcells := ProjectCells(g1, o, t, trace, rad, rng, flg);
    var st2 := Finish(st1, pr, n, pcells);
    var st' := FinishCone(st1, pr, n, g1, o, t, trace, rad, rng, flg);
    ConeStored(st, st1, pr, n, g1, o, t, trace, rad, rng, flg);
    TracedFrame(st, st2, st', m, ox, oy, tx, ty, rng, flg, trace);
  }

  /** Traced reads only the maps and the paths of the state after the call. */
  lemma TracedFrame(st: State, st2: State, st': State, m: int, ox: int, oy: int, tx: int, ty: int, rng: int, flg: bv16,
                    trace: seq<Step>)
    requires st.Valid() && st2.Valid() && st'.Valid()
    requires st'.maps == st2.maps && st'.paths == st2.paths
    requires Traced(st, st2, m, ox, oy, tx, ty, rng, flg, trace)
    ensures Traced(st, st', m, ox, oy, tx, ty, rng, flg, trace)
  {
  }

  /** FinishAsWritten while path slot 0 holds an older path and a new one was created. */
  lemma StaleAsWritten(st: State, st1: State, m: int, ox: int, oy: int, tx: int, ty: int, rad: int, rng: int, flg: bv16,
                       tr: seq<Step>, n: int)
    requires st.Valid() && st1.Valid() && MapValid(st, m) && rng >= 0
    requires n == LowestFree(st.projects) && n < MAX_PROJECTS
    requires ox != tx || oy != ty
    requires 0 < LowestFree(st.paths) < MAX_PATHS
    requires PathBasic.BasicStored(st, st1, m, ox, oy, tx, ty, tr)
    requires PathBasic.TraceShape(TheMap(st, m), ox, oy, tx, ty, rng, flg, tr)
    ensures var trace := SlotTrace(st1, 0);
      var g1 := TheMap(st1, m);
      StoredAsWritten(st, FinishCone(st1, 0, n, g1, Step(ox, oy), Step(tx, ty), trace, rad, rng, flg), m, ox, oy, tx, ty,
                      rad, rng, flg, SlotCells(g1, Step(ox, oy), Step(tx, ty), trace, rad, rng, flg, n), trace)
  {
    var trace := SlotTrace(st1, 0);
    var g1 := TheMap(st1, m);
    var o, t := Step(ox, oy), Step(tx, ty);
    var st' := FinishCone(st1, 0, n, g1, o, t, trace, rad, rng, flg);
    ConeStored(st, st1, 0, n, g1, o, t, trace, rad, rng, flg);
    assert st'.maps == st1.maps;
    assert TheMap(st', m) == g1;
    FinishStale(st, st1, m, ox, oy, tx, ty, rng, flg, tr, st');
  }

  /** The projection registry FinishCone leaves, and that it differs from Finish's only in the projections. */
  lemma ConeStored(st: State, st1: State, pr: int, n: int, g: Grid, origin: Step, target: Step, trace: seq<Step>,
                   rad: int, rng: int, flg: bv16)
    requires st.Valid() && st1.Valid() && g.Valid() && rng >= 0
    requires n == LowestFree(st.projects) && n < MAX_PROJECTS && st1.projects == st.projects
    ensures var st' := FinishCone(st1, pr, n, g, origin, target, trace, rad, rng, flg);
      var cells := SlotCells(g, origin, target, trace, rad, rng, flg, n);
      var st2 := Finish(st1, pr, n, ProjectCells(g, origin, target, trace, rad, rng, flg));
      && st'.maps == st2.maps && st'.paths == st2.paths
      && (!ConeMisrouted(g, origin, target, trace, rad, rng, flg, n) ==> st' == st2)
      && (!ConeMisrouted(g, origin, target, trace, rad, rng, flg, n) ==> st'.projects == st.projects[n := Some(FromSeq(cells))])
      && (ConeMisrouted(g, origin, target, trace, rad, rng, flg, n) ==>
            && st.projects[0].Some?
            && st'.projects == st.projects[n := Some(FromSeq(cells))]
                                          [0 := Some(ConeOnto(st.projects[0].value, g, origin, target, trace, rad, rng, flg))])
  {
  }

  /**
   * While slot 0 holds an older path, project follows and deletes that one; the new path stays
   * in its slot, and map m carries the new path's PATH marks. Stated for any state with the
   * maps and paths the finish leaves, whatever went to the projection registry.
   */
  lemma FinishStale(st: State, st1: State, m: int, ox: int, oy: int, tx: int, ty: int, rng: int, flg: bv16,
                    tr: seq<Step>, st': State)
    requires st.Valid() && st1.Valid() && st'.Valid() && MapValid(st, m) && rng >= 0
    requires st.paths[0].Some? && LowestFree(st.paths) < MAX_PATHS && (ox != tx || oy != ty)
    requires PathBasic.BasicStored(st, st1, m, ox, oy, tx, ty, tr)
    requires PathBasic.TraceShape(TheMap(st, m), ox, oy, tx, ty, rng, flg, tr)
    requires st'.maps == st1.maps && st'.paths == Rlfl.PathDelete(st1, 0).1.paths
    ensures SlotTrace(st1, 0) == SlotTrace(st, 0)
    ensures StaleFollowed(st, st', m, ox, oy, tx, ty, rng, flg, SlotTrace(st1, 0))
    ensures SlotTrace(st', LowestFree(st.paths)) == tr
  {
    var p := LowestFree(st.paths);
    SlotTraceFrame(st, st1, 0);
    SlotTraceOfStored(st', p, PathBasic.BasicPath(m, ox, oy, tx, ty, tr), tr);
  }

  /**
   * The stale-path case of RLFL_project: `trace` is the older path read back from slot 0, which
   * is deleted; the new path stays behind in the lowest free slot as a basic path from origin
   * to target, and map m, alone among the maps, changed only by that new path's PATH marks.
   */
  ghost predicate StaleFollowed(st: State, st': State, m: int, ox: int, oy: int, tx: int, ty: int, rng: int, flg: bv16,
                                trace: seq<Step>)
    requires st.Valid() && st'.Valid()
  {
    var p := LowestFree(st.paths);
    && p < MAX_PATHS
    && trace == SlotTrace(st, 0)
    && st'.paths[0].None?
    && st'.paths[p] == Some(PathBasic.BasicPath(m, ox, oy, tx, ty, SlotTrace(st', p)))
    && (forall q :: 0 < q < MAX_PATHS && q != p ==> st'.paths[q] == st.paths[q])
    && MapValid(st, m) && MapValid(st', m)
    && (forall k :: 0 <= k < MAX_MAPS && k != m ==> st'.maps[k] == st.maps[k])
    && PathBasic.PathMarked(TheMap(st, m), TheMap(st', m), SlotTrace(st', p))
    && PathBasic.TraceShape(TheMap(st, m), ox, oy, tx, ty, rng, flg, SlotTrace(st', p))
  }

  /**
   * What RLFL_project does as written, for its arguments: the checks and their errors as in
   * Outcome, then SUCCESS whenever they pass. The projection goes to the lowest free slot and
   * holds the cells beam and blast record along `trace`, except that a cone's cells go to
   * projection slot 0 when that is not the new slot. While path slot 0 is free, or no path
   * could be created, `trace` is the intended path. While slot 0 holds an older path and a new
   * one is created, `trace` is the older path read back from slot 0, the older path is
   * deleted, and the new path stays behind in its own slot.
   */
  ghost predicate OutcomeAsWritten(st: State, m: int, ox: int, oy: int, tx: int, ty: int, rad: int, range: int, flg: bv16,
                                   r: int, st': State, cells: seq<Step>, trace: seq<Step>)
    requires st.Valid() && st'.Valid()
  {
    var rng := if range < 0 then MAX_RANGE else range;
    var n := LowestFree(st.projects);
    && (r < 0 ==> st' == st)
    && (!MapValid(st, m) ==> r == ERR_NO_MAP)
    && (MapValid(st, m) && n >= MAX_PROJECTS ==> r == ERR_FLAG)
    && (MapValid(st, m) && n < MAX_PROJECTS && !(CellValid(st, m, ox, oy) && CellValid(st, m, tx, ty)) ==>
          r == ERR_OUT_OF_BOUNDS)
    && (CellValid(st, m, ox, oy) && CellValid(st, m, tx, ty) && n < MAX_PROJECTS ==> r == SUCCESS)
    && (r >= 0 ==> n < MAX_PROJECTS && StoredAsWritten(st, st', m, ox, oy, tx, ty, rad, rng, flg, cells, trace))
  }

  /**
   * The successful half of OutcomeAsWritten, for a range already defaulted. Slot n holds
   * SlotCells; when the cone went astray, the list in slot 0 has the cone's cells added.
   */
  ghost predicate StoredAsWritten(st: State, st': State, m: int, ox: int, oy: int, tx: int, ty: int, rad: int, rng: int, flg: bv16,
                                  cells: seq<Step>, trace: seq<Step>)
    requires st.Valid() && st'.Valid()
  {
    var n := LowestFree(st.projects);
    var p := LowestFree(st.paths);
    var newPath := st.paths[0].None? || p >= MAX_PATHS || (ox == tx && oy == ty);
    && n < MAX_PROJECTS && MapValid(st', m) && rng >= 0
    && var g', o, t := TheMap(st', m), Step(ox, oy), Step(tx, ty);
    && cells == SlotCells(g', o, t, trace, rad, rng, flg, n)
    && (!ConeMisrouted(g', o, t, trace, rad, rng, flg, n) ==> st'.projects == st.projects[n := Some(FromSeq(cells))])
    && (ConeMisrouted(g', o, t, trace, rad, rng, flg, n) ==>
          && st.projects[0].Some?
          && st'.projects == st.projects[n := Some(FromSeq(cells))][0 := Some(ConeOnto(st.projects[0].value, g', o, t, trace, rad, rng, flg))])
    && (newPath ==> Traced(st, st', m, ox, oy, tx, ty, rng, flg, trace))
    && (newPath && !ConeMisrouted(g', o, t, trace, rad, rng, flg, n) ==> Projected(st, st', m, ox, oy, tx, ty, rad, rng, flg, n, cells, trace))
    && (!newPath ==> StaleFollowed(st, st', m, ox, oy, tx, ty, rng, flg, trace))
  }

  /**
   * The cells RLFL_project reads back from path slot p: path_step for 0, 1, ... below
   * path_size, up to the first step path_step cannot return (none for a bad or empty slot).
   */
  function SlotTrace(st: State, p: int): (t: seq<Step>)
    requires st.Valid()
    ensures !Rlfl.PathValid(st, p) ==> t == []
    ensures |t| <= Max(Rlfl.PathSize(st, p), 0)
    ensures forall k :: 0 <= k < |t| ==> Rlfl.PathStep(st, p, k) == (SUCCESS, Some(t[k]))
  {
    ReadSteps(st, p, 0)
  }

  function ReadSteps(st: State, p: int, i: nat): (t: seq<Step>)
    requires st.Valid()
    ensures !Rlfl.PathValid(st, p) ==> t == []
    ensures i + |t| <= Max(Rlfl.PathSize(st, p), i)
    ensures forall k :: 0 <= k < |t| ==> Rlfl.PathStep(st, p, i + k) == (SUCCESS, Some(t[k]))
    decreases Rlfl.PathSize(st, p) - i
  {
    if i >= Rlfl.PathSize(st, p) then []
    else
      var s := Rlfl.PathStep(st, p, i).1;
      if s.None? then [] else [s.value] + ReadSteps(st, p, i + 1)
  }

  /** A path stored with its steps in order reads back from its slot as exactly those steps. */
  lemma SlotTraceOfStored(st: State, p: int, path: Path, trace: seq<Step>)
    requires st.Valid() && 0 <= p < MAX_PATHS && st.paths[p] == Some(path)
    requires path.steps.Valid() && path.size == |trace| && path.steps.fsize == |trace|
    requires forall k :: 0 <= k < |trace| ==> path.steps.Elements()[k] == Some(trace[k])
    ensures SlotTrace(st, p) == trace
  {
    ReadStoredSteps(st, p, path, trace, 0);
  }

  lemma {:induction false} ReadStoredSteps(st: State, p: int, path: Path, trace: seq<Step>, i: nat)
    requires st.Valid() && 0 <= p < MAX_PATHS && st.paths[p] == Some(path)
    requires path.steps.Valid() && path.size == |trace| && path.steps.fsize == |trace|
    requires forall k :: 0 <= k < |trace| ==> path.steps.Elements()[k] == Some(trace[k])
    requires i <= |trace|
    ensures ReadSteps(st, p, i) == trace[i..]
    decreases |trace| - i
  {
    if i < |trace| {
      ReadStoredSteps(st, p, path, trace, i + 1);
      assert trace[i..] == [trace[i]] + trace[i + 1..];
    }
  }

  /** What is read back from a slot depends on that slot alone. */
  lemma SlotTraceFrame(st: State, st': State, p: int)
    requires st.Valid() && st'.Valid() && 0 <= p < MAX_PATHS && st'.paths[p] == st.paths[p]
    ensures SlotTrace(st', p) == SlotTrace(st, p)
  {
    ReadStepsFrame(st, st', p, 0);
  }

  lemma {:induction false} ReadStepsFrame(st: State, st': State, p: int, i: nat)
    requires st.Valid() && st'.Valid() && 0 <= p < MAX_PATHS && st'.paths[p] == st.paths[p]
    ensures ReadSteps(st', p, i) == ReadSteps(st, p, i)
    decreases Rlfl.PathSize(st, p) - i
  {
    if i < Rlfl.PathSize(st, p) {
      ReadStepsFrame(st, st', p, i + 1);
    }
  }

  /**
   * RLFL_project as its callers use it: the projection is returned as its slot, and the path
   * followed and deleted is the one path_create just traced.
   */
  method ProjectIntended(st: State, m: int, ox: int, oy: int, tx: int, ty: int, rad: int, range: int, flg: bv16)
    returns (r: int, st': State, cells: seq<Step>, trace: seq<Step>)
    requires st.Valid()
    ensures st'.Valid()
    ensures Outcome(st, m, ox, oy, tx, ty, rad, range, flg, r, st', cells, trace)
  {
    r := Check(st, m, ox, oy, tx, ty);
    if r != SUCCESS {
      CheckFailsAsWritten(st, m, ox, oy, tx, ty, rad, range, flg);
      return r, st, [], [];
    }
    var n := LowestFree(st.projects);
    var rng := if range < 0 then MAX_RANGE else range;
    var pr, st1, tr, complete := Rlfl.PathCreateIntended(st, m, ox, oy, tx, ty, PATH_BASIC, rng, flg as nat, 0.0, 0);
    FlagsWidenNarrow(flg);
    trace := if pr >= 0 then tr else [];
    cells := ProjectCells(TheMap(st1, m), Step(ox, oy), Step(tx, ty), trace, rad, rng, flg);
    st' := Finish(st1, pr, n, cells);
    r := n;
    SuccessIntended(st, st1, m, ox, oy, tx, ty, rad, range, flg, pr, tr, trace, cells, st');
  }

  lemma SuccessIntended(st: State, st1: State, m: int, ox: int, oy: int, tx: int, ty: int, rad: int, range: int, flg: bv16,
                        pr: int, tr: seq<Step>, trace: seq<Step>, cells: seq<Step>, st': State)
    requires st.Valid() && st1.Valid() && MapValid(st, m)
    requires CellValid(st, m, ox, oy) && CellValid(st, m, tx, ty) && LowestFree(st.projects) < MAX_PROJECTS
    requires pr < 0 ==> st1 == st
    requires ox == tx && oy == ty ==> pr < 0
    requires pr >= 0 ==> pr == LowestFree(st.paths) && pr < MAX_PATHS
    requires pr >= 0 ==> PathBasic.BasicStored(st, st1, m, ox, oy, tx, ty, tr)
    requires pr >= 0 ==> PathBasic.TraceShape(TheMap(st, m), ox, oy, tx, ty, if range < 0 then MAX_RANGE else range, flg, tr)
    requires trace == if pr >= 0 then tr else []
    requires cells == ProjectCells(TheMap(st1, m), Step(ox, oy), Step(tx, ty), trace, rad, if range < 0 then MAX_RANGE else range, flg)
    requires st' == Finish(st1, pr, LowestFree(st.projects), cells)
    ensures st'.Valid()
    ensures Outcome(st, m, ox, oy, tx, ty, rad, range, flg, LowestFree(st.projects), st', cells, trace)
  {
    FinishProjects(st, st1, m, ox, oy, tx, ty, rad, if range < 0 then MAX_RANGE else range, flg, pr, tr, LowestFree(st.projects));
  }

  /** A successful projection starts at the origin, records no cell twice, and reads back through the accessors. */
  lemma ProjectedReads(st: State, st': State, m: int, ox: int, oy: int, tx: int, ty: int, rad: int, rng: int, flg: bv16,
                       n: int, cells: seq<Step>, trace: seq<Step>)
    requires st.Valid() && st'.Valid() && rng >= 0
    requires Projected(st, st', m, ox, oy, tx, ty, rad, rng, flg, n, cells, trace)
    ensures |cells| > 0 && cells[0] == Step(ox, oy) && NoDup(cells)
    ensures ProjectSize(st', n) == |cells|
    ensures forall k :: 0 <= k < |cells| ==> ProjectStep(st', n, k) == (SUCCESS, Some(cells[k]))
  {
    ProjectionCells(TheMap(st', m), Step(ox, oy), Step(tx, ty), trace, rad, rng, flg);
    StoredProjectionReads(st', n, cells);
  }

  // ---------------------------------------------------------------------
  // Wrappers (rlfl.c)

  /** The flags argument (unsigned long) as RLFL_project's unsigned short: its low 16 bits. */
  function Flags16(flags: nat): bv16
  {
    (flags % 0x1_0000) as bv16
  }

  /** An unsigned int radius passed as RLFL_project's int: values from 2^31 on wrap to negative. */
  function RadInt(rad: nat): (r: int)
    ensures -0x8000_0000 <= r < 0x8000_0000
    ensures (r - rad) % 0x1_0000_0000 == 0
  {
    var u := rad % 0x1_0000_0000;
    if u >= 0x8000_0000 then u - 0x1_0000_0000 else u
  }

  /** C's `-1` passed as an unsigned int coordinate. */
  const UNSIGNED_MINUS_ONE: int := 0xFFFF_FFFF

  /** RLFL_project_ball: the map check, then RLFL_project with PROJECT_JUMP added to the flags. */
  method ProjectBall(st: State, m: int, x1: int, y1: int, x2: int, y2: int, rad: nat, range: int, flags: nat)
    returns (r: int, st': State, cells: seq<Step>, trace: seq<Step>)
    requires st.Valid()
    ensures st'.Valid()
    ensures OutcomeAsWritten(st, m, x1, y1, x2, y2, RadInt(rad), range, Flags16(flags) | PROJECT_JUMP, r, st', cells, trace)
  {
    if !MapValid(st, m) {
      return ERR_NO_MAP, st, [], [];
    }
    r, st', cells, trace := Project(st, m, x1, y1, x2, y2, RadInt(rad), range, Flags16(flags) | PROJECT_JUMP);
  }

  /** RLFL_project_beam: the map check, then RLFL_project with radius 0. */
  method ProjectBeam(st: State, m: int, x1: int, y1: int, x2: int, y2: int, range: int, flags: nat)
    returns (r: int, st': State, cells: seq<Step>, trace: seq<Step>)
    requires st.Valid()
    ensures st'.Valid()
    ensures OutcomeAsWritten(st, m, x1, y1, x2, y2, 0, range, Flags16(flags), r, st', cells, trace)
  {
    if !MapValid(st, m) {
      return ERR_NO_MAP, st, [], [];
    }
    r, st', cells, trace := Project(st, m, x1, y1, x2, y2, 0, range, Flags16(flags));
  }

  /** RLFL_project_cone: the map check, then RLFL_project with PROJECT_CONE added to the flags. */
  method ProjectCone(st: State, m: int, x1: int, y1: int, x2: int, y2: int, rad: nat, range: int, flags: nat)
    returns (r: int, st': State, cells: seq<Step>, trace: seq<Step>)
    requires st.Valid()
    ensures st'.Valid()
    ensures OutcomeAsWritten(st, m, x1, y1, x2, y2, RadInt(rad), range, Flags16(flags) | PROJECT_CONE, r, st', cells, trace)
  {
    if !MapValid(st, m) {
      return ERR_NO_MAP, st, [], [];
    }
    r, st', cells, trace := Project(st, m, x1, y1, x2, y2, RadInt(rad), range, Flags16(flags) | PROJECT_CONE);
  }

  /**
   * RLFL_project_wave as written: the target is passed as (-1, -1), which as unsigned int is
   * outside every map, so the call fails whatever the arguments and never stores a projection.
   */
  method ProjectWaveAsWritten(st: State, m: int, x1: int, y1: int, rad: nat, range: int, flags: nat)
    returns (r: int, st': State)
    requires st.Valid()
    ensures st'.Valid() && r < 0 && st' == st
    ensures MapValid(st, m) && LowestFree(st.projects) < MAX_PROJECTS ==> r == ERR_OUT_OF_BOUNDS
  {
    if !MapValid(st, m) {
      return ERR_NO_MAP, st;
    }
    var cells, trace;
    r, st', cells, trace := Project(st, m, x1, y1, UNSIGNED_MINUS_ONE, UNSIGNED_MINUS_ONE, RadInt(rad), range,
                                    Flags16(flags) | PROJECT_WAVE);
  }

  /**
   * RLFL_project_wave with the target it evidently means, the origin itself: no path is traced
   * (its endpoints coincide) and the blast is centred on the origin.
   */
  method ProjectWave(st: State, m: int, x1: int, y1: int, rad: nat, range: int, flags: nat)
    returns (r: int, st': State, cells: seq<Step>, trace: seq<Step>)
    requires st.Valid()
    ensures st'.Valid()
    ensures OutcomeAsWritten(st, m, x1, y1, x1, y1, RadInt(rad), range, Flags16(flags) | PROJECT_WAVE, r, st', cells, trace)
    ensures r >= 0 ==> trace == []
  {
    if !MapValid(st, m) {
      return ERR_NO_MAP, st, [], [];
    }
    r, st', cells, trace := Project(st, m, x1, y1, x1, y1, RadInt(rad), range, Flags16(flags) | PROJECT_WAVE);
  }

  /** RLFL_project_cloud as written: like the wave, its (-1, -1) target makes every call fail. */
  method ProjectCloudAsWritten(st: State, m: int, x1: int, y1: int, rad: nat, flags: nat)
    returns (r: int, st': State)
    requires st.Valid()
    ensures st'.Valid() && r < 0 && st' == st
    ensures MapValid(st, m) && LowestFree(st.projects) < MAX_PROJECTS ==> r == ERR_OUT_OF_BOUNDS
  {
    if !MapValid(st, m) {
      return ERR_NO_MAP, st;
    }
    var cells, trace;
    r, st', cells, trace := Project(st, m, x1, y1, UNSIGNED_MINUS_ONE, UNSIGNED_MINUS_ONE, RadInt(rad), -1, Flags16(flags));
  }

  /** RLFL_project_cloud with the origin as its target and the default range. */
  method ProjectCloud(st: State, m: int, x1: int, y1: int, rad: nat, flags: nat)
    returns (r: int, st': State, cells: seq<Step>, trace: seq<Step>)
    requires st.Valid()
    ensures st'.Valid()
    ensures OutcomeAsWritten(st, m, x1, y1, x1, y1, RadInt(rad), -1, Flags16(flags), r, st', cells, trace)
    ensures r >= 0 ==> trace == []
  {
    if !MapValid(st, m) {
      return ERR_NO_MAP, st, [], [];
    }
    r, st', cells, trace := Project(st, m, x1, y1, x1, y1, RadInt(rad), -1, Flags16(flags));
  }

  /**
   * With no path (a wave or cloud, or any projection whose path could not be traced) the beam
   * is empty and the blast is a ball around the origin: every cell other than the origin is an
   * admitted cell whose ring metric from the origin lies between the first ring and the radius
   * (radius 1 when CONE is set).
   */
  lemma NoPathIsBall(g: Grid, origin: Step, target: Step, rad: int, range: int, flg: bv16, c: Step)
    requires g.Valid() && range >= 0
    ensures var b := BeamOf(g, origin, target, [], range, flg);
      var rad' := if Flag(flg, PROJECT_CONE) then 1 else rad;
      && b.len == 0 && b.epicentre == origin
      && (c in ProjectCells(g, origin, target, [], rad, range, flg) <==>
            (c == origin || (Admits(g, Flag(flg, PROJECT_THRU), c)
                             && (if Flag(flg, PROJECT_SHEL) then rad' else 0) <= RingMetric(flg, origin, c) <= rad')))
  {
    var b := BeamOf(g, origin, target, [], range, flg);
    BeamOfFacts(g, origin, target, [], range, flg);
    ProjectionCells(g, origin, target, [], rad, range, flg);
    var rad' := BallRadius(b, rad, flg);
    BallShape(g, flg, b.epicentre, if Flag(flg, PROJECT_SHEL) then rad' else 0, rad', c);
  }
}
