/**
 * The library's global state as one value: the map registry, the path
 * registry and the projection registry, each a fixed number of slots that
 * are empty (NULL) or hold a record.
 */
module Store {
  import opened Util
  import opened Defines
  import opened List
  import opened Grid

  /** RLFL_step_t: one cell of a path or projection (coordinates are unsigned in C). */
  datatype Step = Step(x: int, y: int)

  /** RLFL_path_t: endpoints, bounds, the list of steps, their count, validity and the owning map. */
  datatype Path = Path(ox: int, oy: int, dx: int, dy: int, w: int, h: int,
                       steps: ListT<Step>, size: int, valid: bool, mapIndex: int)

  datatype State = State(maps: seq<Option<Grid>>, paths: seq<Option<Path>>, projects: seq<Option<ListT<Step>>>)
  {
    ghost predicate Valid()
    {
      && |maps| == MAX_MAPS && |paths| == MAX_PATHS && |projects| == MAX_PROJECTS
      && (forall m :: 0 <= m < |maps| && maps[m].Some? ==> maps[m].value.Valid())
      && (forall p :: 0 <= p < |paths| && paths[p].Some? ==> paths[p].value.steps.Valid())
      && (forall p :: 0 <= p < |projects| && projects[p].Some? ==> projects[p].value.Valid())
    }
  }

  /** The state at library load: every slot empty. */
  function Initial(): (st: State)
    ensures st.Valid()
    ensures forall m :: 0 <= m < MAX_MAPS ==> st.maps[m].None?
  {
    State(seq(MAX_MAPS, _ => None), seq(MAX_PATHS, _ => None), seq(MAX_PROJECTS, _ => None))
  }

  /** RLFL_map_valid: the handle is below the registry size and its slot is occupied. */
  predicate MapValid(st: State, m: int)
  {
    0 <= m < |st.maps| && st.maps[m].Some?
  }

  /** RLFL_cell_valid: the map is valid and (x, y) lies inside it. */
  predicate CellValid(st: State, m: int, x: int, y: int)
  {
    MapValid(st, m) && st.maps[m].value.InGrid(x, y)
  }

  function TheMap(st: State, m: int): (g: Grid)
    requires st.Valid() && MapValid(st, m)
    ensures g.Valid()
  {
    st.maps[m].value
  }

  /** st with map m replaced by g; the other registries are untouched. */
  function WithMap(st: State, m: int, g: Grid): (r: State)
    requires st.Valid() && MapValid(st, m) && g.Valid()
    ensures r.Valid() && MapValid(r, m) && TheMap(r, m) == g
    ensures r.paths == st.paths && r.projects == st.projects
    ensures forall k :: 0 <= k < MAX_MAPS && k != m ==> r.maps[k] == st.maps[k]
  {
    st.(maps := st.maps[m := Some(g)])
  }

  /** st with path slot i set to p; the other registries are untouched. */
  function WithPath(st: State, i: int, p: Path): (r: State)
    requires st.Valid() && 0 <= i < MAX_PATHS && p.steps.Valid()
    ensures r.Valid() && r.paths[i] == Some(p)
    ensures r.maps == st.maps && r.projects == st.projects
    ensures forall k :: 0 <= k < MAX_PATHS && k != i ==> r.paths[k] == st.paths[k]
  {
    st.(paths := st.paths[i := Some(p)])
  }

  /** The lowest empty slot of a registry, or |slots| when every slot is taken. */
  function LowestFree<T>(slots: seq<Option<T>>): (i: nat)
    ensures i <= |slots|
    ensures i < |slots| ==> slots[i].None?
    ensures forall k :: 0 <= k < i ==> slots[k].Some?
  {
    if slots == [] then 0
    else if slots[0].None? then 0
    else 1 + LowestFree(slots[1..])
  }
}
