/**
 * The public map and path API of rlfl.c over the whole library state: the
 * map registry (new_map, wipe_map, wipe_all, map_size, translate_xy), the
 * flag operations with their fixed error order, and the path registry
 * (path_create, path_size, path_delete, path_step).
 */
module Rlfl {
  import opened Util
  import opened Defines
  import opened List
  import opened Grid
  import opened Store
  import PathBasic
  import PathAstar

  // ---------------------------------------------------------------------
  // Map registry

  /** A map as alloc_map leaves it: calloc'd cells (all 0) and every path map slot NULL. */
  function BlankGrid(w: nat, h: nat): (g: Grid)
    requires w < MAX_WIDTH && h < MAX_HEIGHT
    ensures g.Valid() && g.width == w && g.height == h
    ensures forall x, y :: g.InGrid(x, y) ==> Cell(g, x, y) == 0
    ensures forall p :: 0 <= p < MAX_PATHS ==> g.pathMaps[p].None?
  {
    var g := Grid(w, h, seq(Mul(w, h), _ => 0), seq(MAX_PATHS, _ => None));
    assert forall x, y :: g.InGrid(x, y) ==> Cell(g, x, y) == 0 by {
      forall x, y | g.InGrid(x, y)
        ensures Cell(g, x, y) == 0
      {
        IdxInRange(w, h, x, y);
      }
    }
    g
  }

  /**
   * RLFL_new_map: NO_MAP when every slot is taken (checked first), SIZE when a side reaches
   * the 5000 ceiling, otherwise a blank map in the lowest empty slot, whose index is returned.
   */
  function NewMap(st: State, w: nat, h: nat): (res: (int, State))
    requires st.Valid()
    ensures res.1.Valid()
    ensures (forall k :: 0 <= k < MAX_MAPS ==> st.maps[k].Some?) ==> res == (ERR_NO_MAP, st)
    ensures (exists k :: 0 <= k < MAX_MAPS && st.maps[k].None?) && (w >= MAX_WIDTH || h >= MAX_HEIGHT) ==>
      res == (ERR_SIZE, st)
    ensures res.0 >= 0 ==>
      var m := res.0;
      && m < MAX_MAPS && st.maps[m].None? && (forall k :: 0 <= k < m ==> st.maps[k].Some?)
      && MapValid(res.1, m) && TheMap(res.1, m).width == w && TheMap(res.1, m).height == h
      && (forall x, y :: TheMap(res.1, m).InGrid(x, y) ==> Cell(TheMap(res.1, m), x, y) == 0)
      && (forall p :: 0 <= p < MAX_PATHS ==> TheMap(res.1, m).pathMaps[p].None?)
      && (forall k :: 0 <= k < MAX_MAPS && k != m ==> res.1.maps[k] == st.maps[k])
      && res.1.paths == st.paths && res.1.projects == st.projects
    ensures res.0 < 0 ==> res.1 == st
  {
    var i := LowestFree(st.maps);
    if i >= MAX_MAPS then (ERR_NO_MAP, st)
    else if w >= MAX_WIDTH || h >= MAX_HEIGHT then (ERR_SIZE, st)
    else (i, st.(maps := st.maps[i := Some(BlankGrid(w, h))]))
  }

  /**
   * RLFL_wipe_map: a valid map is freed (with its path maps) and its slot emptied; anything
   * else is GENERIC. Nothing outside the slot changes.
   */
  function WipeMapSlot(st: State, m: int): (res: (int, State))
    requires st.Valid()
    ensures res.1.Valid()
    ensures !MapValid(st, m) ==> res == (ERR_GENERIC, st)
    ensures MapValid(st, m) ==>
      && res.0 == SUCCESS && !MapValid(res.1, m)
      && (forall k :: 0 <= k < MAX_MAPS && k != m ==> res.1.maps[k] == st.maps[k])
      && res.1.paths == st.paths && res.1.projects == st.projects
  {
    if !MapValid(st, m) then (ERR_GENERIC, st)
    else (SUCCESS, st.(maps := st.maps[m := None]))
  }

  /** Creating a map and wiping the handle it returns gives back the state before the call. */
  lemma NewThenWipe(st: State, w: nat, h: nat)
    requires st.Valid()
    ensures NewMap(st, w, h).0 >= 0 ==> WipeMapSlot(NewMap(st, w, h).1, NewMap(st, w, h).0) == (SUCCESS, st)
  {
    var (m, st1) := NewMap(st, w, h);
    if m >= 0 {
      assert st1.maps[m := None] == st.maps;
    }
  }

  /** A wiped slot is reusable: the next map of an allowed size gets that slot or a lower one. */
  lemma WipeThenNew(st: State, m: int, w: nat, h: nat)
    requires st.Valid() && MapValid(st, m) && w < MAX_WIDTH && h < MAX_HEIGHT
    ensures 0 <= NewMap(WipeMapSlot(st, m).1, w, h).0 <= m
  {
    var st1 := WipeMapSlot(st, m).1;
    assert st1.maps[m].None?;
  }

  /** The loop of RLFL_wipe_all from slot i on: one wipe_map call per slot. */
  function WipeMapsFrom(st: State, i: nat): (r: State)
    requires st.Valid() && i <= MAX_MAPS
    ensures r.Valid()
    decreases MAX_MAPS - i
  {
    if i == MAX_MAPS then st else WipeMapsFrom(WipeMapSlot(st, i).1, i + 1)
  }

  /** Wiping from slot i empties the slots i.. and keeps the lower slots and the other registries. */
  lemma {:induction false} WipeMapsFromSpec(st: State, i: nat)
    requires st.Valid() && i <= MAX_MAPS
    ensures var r := WipeMapsFrom(st, i);
      && r.paths == st.paths && r.projects == st.projects
      && (forall k :: 0 <= k < i ==> r.maps[k] == st.maps[k])
      && (forall k :: i <= k < MAX_MAPS ==> r.maps[k].None?)
    decreases MAX_MAPS - i
  {
    if i < MAX_MAPS {
      WipeMapsFromSpec(WipeMapSlot(st, i).1, i + 1);
    }
  }

  /** RLFL_wipe_all: every map slot emptied; the path and projection registries are untouched. */
  function WipeAll(st: State): (r: State)
    requires st.Valid()
    ensures r.Valid() && r.paths == st.paths && r.projects == st.projects
    ensures forall k :: 0 <= k < MAX_MAPS ==> !MapValid(r, k)
  {
    WipeMapsFromSpec(st, 0);
    WipeMapsFrom(st, 0)
  }

  /** After wipe_all the next map of an allowed size is created in slot 0. */
  lemma WipeAllThenNew(st: State, w: nat, h: nat)
    requires st.Valid() && w < MAX_WIDTH && h < MAX_HEIGHT
    ensures NewMap(WipeAll(st), w, h).0 == 0
  {
    var r := WipeAll(st);
    assert !MapValid(r, 0);
  }

  /** RLFL_map_size: NO_MAP, or SUCCESS with the width and height. */
  function MapSize(st: State, m: int): (res: (int, nat, nat))
    requires st.Valid()
    ensures !MapValid(st, m) ==> res.0 == ERR_NO_MAP
    ensures MapValid(st, m) ==> res == (SUCCESS, TheMap(st, m).width, TheMap(st, m).height)
  {
    if !MapValid(st, m) then (ERR_NO_MAP, 0, 0)
    else (SUCCESS, TheMap(st, m).width, TheMap(st, m).height)
  }

  /** A map reports the size it was created with. */
  lemma NewMapSize(st: State, w: nat, h: nat)
    requires st.Valid()
    ensures NewMap(st, w, h).0 >= 0 ==> MapSize(NewMap(st, w, h).1, NewMap(st, w, h).0) == (SUCCESS, w, h)
  {
  }

  // ---------------------------------------------------------------------
  // Index translation

  /** The range of a C int. */
  predicate IsInt32(n: int)
  {
    -0x8000_0000 <= n < 0x8000_0000
  }

  /**
   * RLFL_translate_xy as intended: NO_MAP for a bad handle; SIZE for a map of width 0, which
   * new_map accepts and on which the C divides by zero; otherwise the signed index is converted
   * to unsigned for both `%` and `/` against the unsigned width, and the quotient is passed back
   * through a C int to abs (it only goes negative for width 1 and a negative index).
   */
  function TranslateXY(st: State, m: int, index: int): (res: (int, Option<Step>))
    requires st.Valid() && IsInt32(index)
    ensures !MapValid(st, m) <==> res == (ERR_NO_MAP, None)
    ensures MapValid(st, m) && TheMap(st, m).width == 0 <==> res == (ERR_SIZE, None)
    ensures MapValid(st, m) && TheMap(st, m).width > 0 ==>
      res.0 == SUCCESS && res.1.Some? && 0 <= res.1.value.x < TheMap(st, m).width && res.1.value.y >= 0
  {
    if !MapValid(st, m) then (ERR_NO_MAP, None)
    else if TheMap(st, m).width == 0 then (ERR_SIZE, None)
    else (SUCCESS, Some(Coords(TheMap(st, m).width, index)))
  }

  /**
   * RLFL_translate_xy as written: None stands for the division by a width of 0, which the C
   * performs on any map new_map made with w = 0; every other call agrees with TranslateXY.
   */
  function TranslateXYAsWritten(st: State, m: int, index: int): (res: Option<(int, Option<Step>)>)
    requires st.Valid() && IsInt32(index)
    ensures res.None? <==> MapValid(st, m) && TheMap(st, m).width == 0
    ensures res.Some? ==> res.value == TranslateXY(st, m, index) && res.value.0 != ERR_SIZE
  {
    if !MapValid(st, m) then Some((ERR_NO_MAP, None))
    else if TheMap(st, m).width == 0 then None
    else Some((SUCCESS, Some(Coords(TheMap(st, m).width, index))))
  }

  /**
   * The division is reachable: new_map accepts a width of 0 whenever a slot is free, and
   * translate_xy on the handle it returns divides by that width.
   */
  lemma ZeroWidthDividesByZero(st: State, h: nat, index: int)
    requires st.Valid() && h < MAX_HEIGHT && IsInt32(index)
    requires exists k :: 0 <= k < MAX_MAPS && st.maps[k].None?
    ensures var (m, st') := NewMap(st, 0, h);
      && m >= 0
      && TranslateXYAsWritten(st', m, index).None?
      && TranslateXY(st', m, index) == (ERR_SIZE, None)
  {
    var k :| 0 <= k < MAX_MAPS && st.maps[k].None?;
  }

  /** The arithmetic of translate_xy for width w: the unsigned remainder and the abs of the quotient as a C int. */
  function Coords(w: nat, index: int): (s: Step)
    requires w > 0
    ensures 0 <= s.x < w && s.y >= 0
  {
    var u := U32(index);
    var q := u / w;
    Step(u % w, if q >= 0x8000_0000 then Abs(q - 0x1_0000_0000) else q)
  }

  /** A grid has fewer than 25 000 000 cells, so every in-grid index fits a C int. */
  lemma CellCountFits(w: nat, h: nat)
    requires w < MAX_WIDTH && h < MAX_HEIGHT
    ensures Mul(w, h) < 0x8000_0000
  {
    MulIsProduct(w, h);
    MulMonotone(w, MAX_WIDTH, h);
    MulMonotone(h, MAX_HEIGHT, MAX_WIDTH);
  }

  /** translate_xy inverts the row-major index: the index of (x, y) translates back to (x, y). */
  lemma TranslateRoundTrip(st: State, m: int, x: int, y: int)
    requires st.Valid() && CellValid(st, m, x, y)
    ensures IsInt32(Idx(TheMap(st, m).width, x, y))
    ensures TranslateXY(st, m, Idx(TheMap(st, m).width, x, y)) == (SUCCESS, Some(Step(x, y)))
  {
    var g := TheMap(st, m);
    var i := Idx(g.width, x, y);
    IdxInRange(g.width, g.height, x, y);
    CellCountFits(g.width, g.height);
    IdxOfCoords(g.width, i);
    IdxInjective(g.width, i % g.width, i / g.width, x, y);
  }

  /** Every in-grid index translates to an in-grid cell whose index it is. */
  lemma TranslateCovers(st: State, m: int, i: int)
    requires st.Valid() && MapValid(st, m) && TheMap(st, m).width > 0
    requires 0 <= i < Mul(TheMap(st, m).width, TheMap(st, m).height)
    ensures IsInt32(i)
    ensures var r := TranslateXY(st, m, i);
      r.1.Some? && CellValid(st, m, r.1.value.x, r.1.value.y) && Idx(TheMap(st, m).width, r.1.value.x, r.1.value.y) == i
  {
    var g := TheMap(st, m);
    CellCountFits(g.width, g.height);
    IdxOfCoords(g.width, i);
    MulIsProduct(g.width, g.height);
    MulIsProduct(i / g.width, g.width);
    if i / g.width >= g.height {
      MulMonotone(g.height, i / g.width, g.width);
      assert false;
    }
  }

  // ---------------------------------------------------------------------
  // Flags

  /** st' is st with only the mask of cell (x, y) of map m possibly changed. */
  ghost predicate OnlyCell(st: State, st': State, m: int, x: int, y: int)
    requires st.Valid() && st'.Valid() && CellValid(st, m, x, y)
  {
    && MapValid(st', m)
    && TheMap(st', m).width == TheMap(st, m).width && TheMap(st', m).height == TheMap(st, m).height
    && TheMap(st', m).pathMaps == TheMap(st, m).pathMaps
    && (forall x2, y2 :: TheMap(st, m).InGrid(x2, y2) && (x2 != x || y2 != y) ==>
          Cell(TheMap(st', m), x2, y2) == Cell(TheMap(st, m), x2, y2))
    && (forall k :: 0 <= k < MAX_MAPS && k != m ==> st'.maps[k] == st.maps[k])
    && st'.paths == st.paths && st'.projects == st.projects
  }

  /**
   * RLFL_set_flag: NO_MAP, then OUT_OF_BOUNDS, then FLAG (each leaving the state alone);
   * on success the flag is OR-ed into cell (x, y) and nothing else changes.
   */
  function SetFlag(st: State, m: int, x: int, y: int, flag: nat): (res: (int, State))
    requires st.Valid()
    ensures res.1.Valid()
    ensures !MapValid(st, m) ==> res == (ERR_NO_MAP, st)
    ensures MapValid(st, m) && !CellValid(st, m, x, y) ==> res == (ERR_OUT_OF_BOUNDS, st)
    ensures CellValid(st, m, x, y) && !FlagValid(flag) ==> res == (ERR_FLAG, st)
    ensures CellValid(st, m, x, y) && FlagValid(flag) ==>
      && res.0 == SUCCESS && OnlyCell(st, res.1, m, x, y)
      && Cell(TheMap(res.1, m), x, y) == Cell(TheMap(st, m), x, y) | Bits(flag)
  {
    if !MapValid(st, m) then (ERR_NO_MAP, st)
    else
      var (r, g') := SetFlagAt(TheMap(st, m), x, y, flag);
      if r != SUCCESS then (r, st) else (SUCCESS, WithMap(st, m, g'))
  }

  /** RLFL_clear_flag: the same checks as set_flag; on success the flag is AND-NOT-ed out of cell (x, y). */
  function ClearFlag(st: State, m: int, x: int, y: int, flag: nat): (res: (int, State))
    requires st.Valid()
    ensures res.1.Valid()
    ensures !MapValid(st, m) ==> res == (ERR_NO_MAP, st)
    ensures MapValid(st, m) && !CellValid(st, m, x, y) ==> res == (ERR_OUT_OF_BOUNDS, st)
    ensures CellValid(st, m, x, y) && !FlagValid(flag) ==> res == (ERR_FLAG, st)
    ensures CellValid(st, m, x, y) && FlagValid(flag) ==>
      && res.0 == SUCCESS && OnlyCell(st, res.1, m, x, y)
      && Cell(TheMap(res.1, m), x, y) == Cell(TheMap(st, m), x, y) & !Bits(flag)
  {
    if !MapValid(st, m) then (ERR_NO_MAP, st)
    else
      var (r, g') := ClearFlagAt(TheMap(st, m), x, y, flag);
      if r != SUCCESS then (r, st) else (SUCCESS, WithMap(st, m, g'))
  }

  /** RLFL_has_flag: NO_MAP for a bad handle, otherwise the cell-level answer (OUT_OF_BOUNDS, FLAG, or 1/0). */
  function HasFlag(st: State, m: int, x: int, y: int, flag: nat): (r: int)
    requires st.Valid()
    ensures !MapValid(st, m) ==> r == ERR_NO_MAP
    ensures MapValid(st, m) ==> r == HasCode(TheMap(st, m), x, y, flag)
  {
    if !MapValid(st, m) then ERR_NO_MAP else HasCode(TheMap(st, m), x, y, flag)
  }

  /**
   * has_flag's answers: NO_MAP, then OUT_OF_BOUNDS, then FLAG, and otherwise 1 exactly when
   * the cell shares a bit with the flag and 0 exactly when it shares none.
   */
  lemma HasFlagAnswers(st: State, m: int, x: int, y: int, flag: nat)
    requires st.Valid()
    ensures !MapValid(st, m) ==> HasFlag(st, m, x, y, flag) == ERR_NO_MAP
    ensures MapValid(st, m) && !CellValid(st, m, x, y) ==> HasFlag(st, m, x, y, flag) == ERR_OUT_OF_BOUNDS
    ensures CellValid(st, m, x, y) && !FlagValid(flag) ==> HasFlag(st, m, x, y, flag) == ERR_FLAG
    ensures HasFlag(st, m, x, y, flag) == 1 <==>
      CellValid(st, m, x, y) && FlagValid(flag) && Cell(TheMap(st, m), x, y) & Bits(flag) != 0
    ensures HasFlag(st, m, x, y, flag) == 0 <==>
      CellValid(st, m, x, y) && FlagValid(flag) && Cell(TheMap(st, m), x, y) & Bits(flag) == 0
  {
  }

  /** RLFL_get_flags: NO_MAP, OUT_OF_BOUNDS, else the cell's whole mask (never negative). */
  function GetFlags(st: State, m: int, x: int, y: int): (r: int)
    requires st.Valid()
    ensures !MapValid(st, m) ==> r == ERR_NO_MAP
    ensures MapValid(st, m) && !CellValid(st, m, x, y) ==> r == ERR_OUT_OF_BOUNDS
    ensures r >= 0 <==> CellValid(st, m, x, y)
    ensures r >= 0 ==> r == Cell(TheMap(st, m), x, y) as int
  {
    if !MapValid(st, m) then ERR_NO_MAP
    else if !CellValid(st, m, x, y) then ERR_OUT_OF_BOUNDS
    else Cell(TheMap(st, m), x, y) as int
  }

  /** get_flags after set_flag returns the old mask with the flag's bits added. */
  lemma SetThenGet(st: State, m: int, x: int, y: int, flag: nat)
    requires st.Valid() && CellValid(st, m, x, y) && FlagValid(flag)
    ensures GetFlags(SetFlag(st, m, x, y, flag).1, m, x, y) == (Cell(TheMap(st, m), x, y) | Bits(flag)) as int
  {
  }

  /** get_flags after clear_flag returns the old mask with the flag's bits removed. */
  lemma ClearThenGet(st: State, m: int, x: int, y: int, flag: nat)
    requires st.Valid() && CellValid(st, m, x, y) && FlagValid(flag)
    ensures GetFlags(ClearFlag(st, m, x, y, flag).1, m, x, y) == (Cell(TheMap(st, m), x, y) & !Bits(flag)) as int
  {
  }

  /** A valid nonzero flag has a nonzero bit pattern. */
  lemma BitsNonZero(flag: nat)
    requires FlagValid(flag) && flag != 0
    ensures Bits(flag) != 0
  {
  }

  lemma OrThenAnd(c: bv16, b: bv16)
    ensures (c | b) & b == b
  {
  }

  lemma AndNotThenAnd(c: bv16, b: bv16)
    ensures (c & !b) & b == 0
  {
  }

  lemma OrThenAndNot(c: bv16, b: bv16)
    requires c & b == 0
    ensures (c | b) & !b == c
  {
  }

  /** After set_flag of a nonzero flag, has_flag of it is 1 there; every other cell answers as before. */
  lemma SetThenHas(st: State, m: int, x: int, y: int, flag: nat, x2: int, y2: int, f2: nat)
    requires st.Valid() && CellValid(st, m, x, y) && FlagValid(flag) && flag != 0
    ensures HasFlag(SetFlag(st, m, x, y, flag).1, m, x, y, flag) == 1
    ensures x2 != x || y2 != y ==> HasFlag(SetFlag(st, m, x, y, flag).1, m, x2, y2, f2) == HasFlag(st, m, x2, y2, f2)
  {
    BitsNonZero(flag);
    OrThenAnd(Cell(TheMap(st, m), x, y), Bits(flag));
  }

  /** After clear_flag, has_flag of the same flag is 0 there; every other cell answers as before. */
  lemma ClearThenHas(st: State, m: int, x: int, y: int, flag: nat, x2: int, y2: int, f2: nat)
    requires st.Valid() && CellValid(st, m, x, y) && FlagValid(flag)
    ensures HasFlag(ClearFlag(st, m, x, y, flag).1, m, x, y, flag) == 0
    ensures x2 != x || y2 != y ==> HasFlag(ClearFlag(st, m, x, y, flag).1, m, x2, y2, f2) == HasFlag(st, m, x2, y2, f2)
  {
    AndNotThenAnd(Cell(TheMap(st, m), x, y), Bits(flag));
  }

  /** Setting a flag the cell did not have and clearing it again restores the state exactly. */
  lemma SetThenClear(st: State, m: int, x: int, y: int, flag: nat)
    requires st.Valid() && CellValid(st, m, x, y) && FlagValid(flag)
    requires HasFlag(st, m, x, y, flag) == 0
    ensures ClearFlag(SetFlag(st, m, x, y, flag).1, m, x, y, flag) == (SUCCESS, st)
  {
    CellSetThenClear(TheMap(st, m), x, y, flag, Cell(TheMap(st, m), x, y), Bits(flag));
    MapsRestored(st.maps, m, SetFlagAt(TheMap(st, m), x, y, flag).1);
  }

  lemma MapsRestored(maps: seq<Option<Grid>>, m: int, g1: Grid)
    requires 0 <= m < |maps|
    ensures maps[m := Some(g1)][m := maps[m]] == maps
  {
  }

  /** On one grid: OR-ing in bits b the cell's mask c lacks and AND-NOT-ing them out again gives back the grid. */
  lemma CellSetThenClear(g: Grid, x: int, y: int, flag: nat, c: bv16, b: bv16)
    requires g.Valid() && g.InGrid(x, y) && FlagValid(flag)
    requires c == Cell(g, x, y) && b == Bits(flag) && c & b == 0
    ensures ClearFlagAt(SetFlagAt(g, x, y, flag).1, x, y, flag) == (SUCCESS, g)
  {
    SetIsWrite(g, x, y, flag);
    ClearUndoesWrite(g, x, y, flag, c, b);
  }

  lemma SetIsWrite(g: Grid, x: int, y: int, flag: nat)
    requires g.Valid() && g.InGrid(x, y) && FlagValid(flag)
    ensures SetFlagAt(g, x, y, flag).1 == WithCell(g, x, y, Cell(g, x, y) | Bits(flag))
  {
  }

  lemma ClearUndoesWrite(g: Grid, x: int, y: int, flag: nat, c: bv16, b: bv16)
    requires g.Valid() && g.InGrid(x, y) && FlagValid(flag)
    requires c == Cell(g, x, y) && b == Bits(flag) && c & b == 0
    ensures ClearFlagAt(WithCell(g, x, y, c | b), x, y, flag) == (SUCCESS, g)
  {
    ClearAfterWrite(g, x, y, flag, c | b);
    WriteTwice(g, x, y, c, b);
  }

  lemma WriteTwice(g: Grid, x: int, y: int, c: bv16, b: bv16)
    requires g.Valid() && g.InGrid(x, y) && Cell(g, x, y) == c && c & b == 0
    ensures WithCell(WithCell(g, x, y, c | b), x, y, (c | b) & !b) == g
  {
    OrThenAndNot(c, b);
    WithCellRestores(g, x, y, c | b);
  }

  /** clear_flag on a cell just written with v writes v AND-NOT the flag back. */
  lemma ClearAfterWrite(g: Grid, x: int, y: int, flag: nat, v: bv16)
    requires g.Valid() && g.InGrid(x, y) && FlagValid(flag)
    ensures ClearFlagAt(WithCell(g, x, y, v), x, y, flag) == (SUCCESS, WithCell(WithCell(g, x, y, v), x, y, v & !Bits(flag)))
  {
  }

  /** Writing a cell and then writing its old mask back gives the original grid. */
  lemma WithCellRestores(g: Grid, x: int, y: int, v: bv16)
    requires g.Valid() && g.InGrid(x, y)
    ensures WithCell(WithCell(g, x, y, v), x, y, Cell(g, x, y)) == g
  {
    IdxInRange(g.width, g.height, x, y);
    var i := Idx(g.width, x, y);
    assert g.cells[i := v][i := g.cells[i]] == g.cells;
  }

  /**
   * RLFL_fill_map / RLFL_clear_map: NO_MAP, then FLAG, else the flag is OR-ed into (fill) or
   * AND-NOT-ed out of every cell of the map; has_flag of a nonzero flag then answers 1 (fill)
   * or 0 (clear) on every cell.
   */
  method ApplyFlag(st: State, m: int, flag: nat, fill: bool) returns (r: int, st': State)
    requires st.Valid()
    ensures st'.Valid()
    ensures !MapValid(st, m) ==> r == ERR_NO_MAP && st' == st
    ensures MapValid(st, m) && !FlagValid(flag) ==> r == ERR_FLAG && st' == st
    ensures MapValid(st, m) && FlagValid(flag) ==>
      && r == SUCCESS && Applied(st, st', m, Bits(flag), fill)
      && (forall x, y :: CellValid(st, m, x, y) ==> HasFlag(st', m, x, y, flag) == (if fill && flag != 0 then 1 else 0))
  {
    if !MapValid(st, m) {
      return ERR_NO_MAP, st;
    }
    if !FlagValid(flag) {
      return ERR_FLAG, st;
    }
    var g := ApplyMap(TheMap(st, m), Bits(flag), fill);
    r, st' := SUCCESS, WithMap(st, m, g);
    AppliedHas(st, st', m, flag, fill);
  }

  /** st' is st with bits applied (OR-ed in or AND-NOT-ed out) on every cell of map m and nothing else changed. */
  ghost predicate Applied(st: State, st': State, m: int, bits: bv16, fill: bool)
    requires st.Valid() && st'.Valid() && MapValid(st, m)
  {
    && MapValid(st', m)
    && TheMap(st', m).width == TheMap(st, m).width && TheMap(st', m).height == TheMap(st, m).height
    && TheMap(st', m).pathMaps == TheMap(st, m).pathMaps
    && (forall x, y :: CellValid(st, m, x, y) ==> Cell(TheMap(st', m), x, y) == Apply(Cell(TheMap(st, m), x, y), bits, fill))
    && (forall k :: 0 <= k < MAX_MAPS && k != m ==> st'.maps[k] == st.maps[k])
    && st'.paths == st.paths && st'.projects == st.projects
  }

  /** After a map-wide fill of a nonzero flag every cell has it; after a map-wide clear none does. */
  lemma AppliedHas(st: State, st': State, m: int, flag: nat, fill: bool)
    requires st.Valid() && st'.Valid() && MapValid(st, m) && FlagValid(flag) && Applied(st, st', m, Bits(flag), fill)
    ensures forall x, y :: CellValid(st, m, x, y) ==> HasFlag(st', m, x, y, flag) == (if fill && flag != 0 then 1 else 0)
  {
    forall x, y | CellValid(st, m, x, y)
      ensures HasFlag(st', m, x, y, flag) == (if fill && flag != 0 then 1 else 0)
    {
      var c := Cell(TheMap(st, m), x, y);
      if fill {
        OrThenAnd(c, Bits(flag));
        if flag != 0 {
          BitsNonZero(flag);
        }
      } else {
        AndNotThenAnd(c, Bits(flag));
      }
    }
  }

  // ---------------------------------------------------------------------
  // Path registry

  /** A path slot handle that names a stored path (C's unsigned p, so a negative handle is out of range). */
  predicate PathValid(st: State, p: int)
  {
    0 <= p < |st.paths| && st.paths[p].Some?
  }

  /** RLFL_path_size: NO_PATH for a bad or empty slot, else the stored size. */
  function PathSize(st: State, p: int): (r: int)
    requires st.Valid()
    ensures !PathValid(st, p) ==> r == ERR_NO_PATH
    ensures PathValid(st, p) ==> r == st.paths[p].value.size
  {
    if !PathValid(st, p) then ERR_NO_PATH else st.paths[p].value.size
  }

  /** RLFL_path_delete: NO_PATH for a bad or empty slot, else the slot is emptied and nothing else changes. */
  function PathDelete(st: State, p: int): (res: (int, State))
    requires st.Valid()
    ensures res.1.Valid()
    ensures !PathValid(st, p) ==> res == (ERR_NO_PATH, st)
    ensures PathValid(st, p) ==>
      && res.0 == SUCCESS && !PathValid(res.1, p)
      && (forall q :: 0 <= q < MAX_PATHS && q != p ==> res.1.paths[q] == st.paths[q])
      && res.1.maps == st.maps && res.1.projects == st.projects
  {
    if !PathValid(st, p) then (ERR_NO_PATH, st) else (SUCCESS, st.(paths := st.paths[p := None]))
  }

  /**
   * RLFL_path_step: NO_MAP (not NO_PATH) for a bad or empty slot, GENERIC when the list has
   * no element s, else the step.
   */
  function PathStep(st: State, p: int, s: nat): (res: (int, Option<Step>))
    requires st.Valid()
    ensures res.0 == SUCCESS <==> res.1.Some?
    ensures !PathValid(st, p) ==> res == (ERR_NO_MAP, None)
    ensures PathValid(st, p) ==> res.0 == SUCCESS || res.0 == ERR_GENERIC
    ensures PathValid(st, p) ==> res.1 == Get(st.paths[p].value.steps, s)
  {
    if !PathValid(st, p) then (ERR_NO_MAP, None)
    else
      var step := Get(st.paths[p].value.steps, s);
      if step.None? then (ERR_GENERIC, None) else (SUCCESS, step)
  }

  /** After path_delete the slot is gone for size (NO_PATH), step (NO_MAP) and a second delete (NO_PATH). */
  lemma DeleteThenSize(st: State, p: int, s: nat)
    requires st.Valid()
    ensures PathSize(PathDelete(st, p).1, p) == ERR_NO_PATH
    ensures PathStep(PathDelete(st, p).1, p, s) == (ERR_NO_MAP, None)
    ensures PathDelete(PathDelete(st, p).1, p).0 == ERR_NO_PATH
  {
  }

  /** A path stored by the walkers reads back through the accessors: its size, each step in order, and GENERIC past the end. */
  lemma StoredPathReads(st: State, p: int, m: int, ox: int, oy: int, dx: int, dy: int, trace: seq<Step>)
    requires st.Valid() && 0 <= p < MAX_PATHS && st.paths[p] == Some(PathBasic.BasicPath(m, ox, oy, dx, dy, trace))
    ensures PathSize(st, p) == |trace|
    ensures forall k :: 0 <= k < |trace| ==> PathStep(st, p, k) == (SUCCESS, Some(trace[k]))
    ensures PathStep(st, p, |trace|) == (ERR_GENERIC, None)
  {
  }

  /** The algorithms path_create dispatches to. */
  predicate KnownAlgorithm(a: int)
  {
    a == PATH_BASIC || a == PATH_ASTAR
  }

  /**
   * RLFL_path_create: NO_MAP, then OUT_OF_BOUNDS unless both ends are in the map, then the
   * chosen walker, whose result it returns; an unknown algorithm is GENERIC. The walker's own
   * checks follow: FLAG when the path registry is full, GENERIC for a basic path from a cell to
   * itself or an A* search that empties its open set. On success the path is in the lowest
   * empty slot; A* returns that slot, the basic walker returns SUCCESS (0) whatever the slot.
   * flags reach the basic walker as its low 16 bits, which hold every PROJECT_* bit it tests;
   * dcost reaches A* as C's truncation to int. `complete` is false when A* ran out of fuel.
   */
  method PathCreate(st: State, m: int, ox: int, oy: int, dx: int, dy: int, algorithm: int,
                    range: int, flags: nat, dcost: real, fuel: nat)
    returns (r: int, st': State, trace: seq<Step>, complete: bool)
    requires st.Valid()
    ensures st'.Valid()
    ensures r < 0 ==> st' == st
    ensures !MapValid(st, m) ==> r == ERR_NO_MAP
    ensures MapValid(st, m) && !(CellValid(st, m, ox, oy) && CellValid(st, m, dx, dy)) ==> r == ERR_OUT_OF_BOUNDS
    ensures CellValid(st, m, ox, oy) && CellValid(st, m, dx, dy) && !KnownAlgorithm(algorithm) ==> r == ERR_GENERIC
    ensures CellValid(st, m, ox, oy) && CellValid(st, m, dx, dy) && KnownAlgorithm(algorithm) && LowestFree(st.paths) >= MAX_PATHS ==>
      r == ERR_FLAG
    ensures algorithm == PATH_BASIC && CellValid(st, m, ox, oy) && ox == dx && oy == dy ==> r < 0
    ensures (&& algorithm == PATH_BASIC && CellValid(st, m, ox, oy) && CellValid(st, m, dx, dy) && (ox != dx || oy != dy)
             && LowestFree(st.paths) < MAX_PATHS) ==> r == SUCCESS
    ensures !complete ==> algorithm == PATH_ASTAR && r == ERR_GENERIC
    ensures r >= 0 ==>
      && KnownAlgorithm(algorithm) && LowestFree(st.paths) < MAX_PATHS
      && CellValid(st, m, ox, oy) && CellValid(st, m, dx, dy)
      && PathBasic.BasicStored(st, st', m, ox, oy, dx, dy, trace)
      && PathSize(st', LowestFree(st.paths)) == |trace|
      && (forall k :: 0 <= k < |trace| ==> PathStep(st', LowestFree(st.paths), k) == (SUCCESS, Some(trace[k])))
    ensures r >= 0 && algorithm == PATH_BASIC ==>
      && r == SUCCESS
      && PathBasic.TraceShape(TheMap(st, m), ox, oy, dx, dy, if range < 0 then PathBasic.BASIC_MAX_RANGE else range,
                              (flags % 0x1_0000) as bv16, trace)
    ensures r >= 0 && algorithm == PATH_ASTAR ==>
      r == LowestFree(st.paths) && PathAstar.Route(TheMap(st, m), trace, ox, oy, dx, dy)
  {
    complete := true;
    if !MapValid(st, m) {
      return ERR_NO_MAP, st, [], true;
    }
    if !(CellValid(st, m, ox, oy) && CellValid(st, m, dx, dy)) {
      return ERR_OUT_OF_BOUNDS, st, [], true;
    }
    if algorithm == PATH_BASIC {
      r, st', trace := PathBasic.PathBasic(st, m, ox, oy, dx, dy, range, (flags % 0x1_0000) as bv16);
    } else if algorithm == PATH_ASTAR {
      r, st', trace, complete := PathAstar.PathAstar(st, m, ox, oy, dx, dy, range, flags, Trunc(dcost), fuel);
    } else {
      return ERR_GENERIC, st, [], true;
    }
    if r >= 0 {
      StoredPathReads(st', LowestFree(st.paths), m, ox, oy, dx, dy, trace);
    }
  }

  /**
   * RLFL_path_create as its callers use it: every success returns the slot the new path was
   * stored in, so the handle reads back the path just traced.
   */
  method PathCreateIntended(st: State, m: int, ox: int, oy: int, dx: int, dy: int, algorithm: int,
                            range: int, flags: nat, dcost: real, fuel: nat)
    returns (r: int, st': State, trace: seq<Step>, complete: bool)
    requires st.Valid()
    ensures st'.Valid()
    ensures r < 0 ==> st' == st
    ensures !MapValid(st, m) ==> r == ERR_NO_MAP
    ensures MapValid(st, m) && !(CellValid(st, m, ox, oy) && CellValid(st, m, dx, dy)) ==> r == ERR_OUT_OF_BOUNDS
    ensures CellValid(st, m, ox, oy) && CellValid(st, m, dx, dy) && !KnownAlgorithm(algorithm) ==> r == ERR_GENERIC
    ensures CellValid(st, m, ox, oy) && CellValid(st, m, dx, dy) && KnownAlgorithm(algorithm) && LowestFree(st.paths) >= MAX_PATHS ==>
      r == ERR_FLAG
    ensures algorithm == PATH_BASIC && CellValid(st, m, ox, oy) && ox == dx && oy == dy ==> r < 0
    ensures !complete ==> algorithm == PATH_ASTAR && r == ERR_GENERIC
    ensures r >= 0 ==>
      && KnownAlgorithm(algorithm) && r == LowestFree(st.paths) && r < MAX_PATHS
      && CellValid(st, m, ox, oy) && CellValid(st, m, dx, dy)
      && PathBasic.BasicStored(st, st', m, ox, oy, dx, dy, trace)
      && PathSize(st', r) == |trace|
      && (forall k :: 0 <= k < |trace| ==> PathStep(st', r, k) == (SUCCESS, Some(trace[k])))
    ensures r >= 0 && algorithm == PATH_BASIC ==>
      PathBasic.TraceShape(TheMap(st, m), ox, oy, dx, dy, if range < 0 then PathBasic.BASIC_MAX_RANGE else range,
                           (flags % 0x1_0000) as bv16, trace)
    ensures r >= 0 && algorithm == PATH_ASTAR ==> PathAstar.Route(TheMap(st, m), trace, ox, oy, dx, dy)
  {
    r, st', trace, complete := PathCreate(st, m, ox, oy, dx, dy, algorithm, range, flags, dcost, fuel);
    if r >= 0 {
      r := LowestFree(st.paths);
    }
  }

  /**
   * The handle path_create returns for a basic path, as written: while slot 0 holds an older
   * path, the new path goes to another slot, and handle 0 still names the older path.
   */
  method BasicHandleIsStale(st: State, m: int, ox: int, oy: int, dx: int, dy: int, range: int, flags: nat)
    returns (r: int, st': State, trace: seq<Step>)
    requires st.Valid() && st.paths[0].Some?
    ensures st'.Valid() && |st'.paths| == MAX_PATHS
    ensures r >= 0 ==>
      && r == SUCCESS && 0 < LowestFree(st.paths) < MAX_PATHS
      && st'.paths[r] == st.paths[0]
      && st'.paths[LowestFree(st.paths)] == Some(PathBasic.BasicPath(m, ox, oy, dx, dy, trace))
  {
    var complete;
    r, st', trace, complete := PathCreate(st, m, ox, oy, dx, dy, PATH_BASIC, range, flags, 0.0, 0);
  }
}
