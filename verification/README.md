# RLFL in Dafny

A model of the core of RLFL, a C library of grid algorithms for roguelike games, and proofs about it.

The library keeps fixed-size registries of maps, paths and projections. A map is a `width * height` array of 16-bit cell masks (OPEN, WALK, SEEN, MEMO, PATH, ...). Its operations are:

- set, test and clear cell flags;
- trace straight-line paths (the Angband `project_path` walker) and A\* paths;
- fill Dijkstra distance maps and step along them;
- cast projections (beams, balls, cones);
- compute fields of view with six algorithms.

The model is a set of pure functions and short methods over immutable values:

- **Data:**
  - a map is a `Grid` (dimensions, a `seq<bv16>` of cells and its path-map slots);
  - the library's globals are one `State` of three slot registries;
  - the C growable list of `void *` is `ListT`, with `None` for NULL.
- **Results:** every C entry point returns its status code together with the new state, so each error path is part of the contract.
- **Arithmetic:**
  - C integer arithmetic is modelled as `int`, with explicit truncation where the C code casts;
  - the float slopes of two FOV algorithms are always ratios of small integers, and are modelled as `real`.

The files follow the source:

| file | module | models |
|---|---|---|
| `util.dfy` | `Util` | `Option`, `Min`/`Max`/`Abs`, C truncation, integer square root |
| `defines.dfy` | `Defines` | the constants of `headers/defines.h` |
| `grid.dfy` | `Grid` | one map: row-major indexing, the flag operations on a cell, map-wide fill/clear, `RLFL_distance`, `RLFL_fov_finish` |
| `store.dfy` | `Store` | the map, path and projection registries; `RLFL_map_valid`, `RLFL_cell_valid`, the lowest-free-slot search |
| `rlfl.dfy` | `Rlfl` | the public entry points of `rlfl.c` (maps, flags, path registry) |
| `list.dfy` | `List` | `list_t.c` |
| `path_basic.dfy` | `PathBasic` | `path_basic.c` |
| `astar_open.dfy`, `path_astar.dfy`, `astar_step.dfy` | `AstarOpen`, `PathAstar`, `AstarStep` | the open set, the search and the path-map stepper of `path_astar.c` |
| `pathmap.dfy` | `PathMap` | the slot guard and the neighbour scan shared by both `RLFL_path_step_map` versions |
| `dijkstra.dfy`, `dijkstra_map.dfy` | `Dijkstra`, `DijkstraMap` | `dijkstra.c`: the scan, then the stored map and its entry points |
| `shape.dfy`, `project.dfy` | `Shape`, `Project` | `project.c` and the `RLFL_project_*` wrappers |
| `fov.dfy` | `Fov` | what the FOV algorithms share: the OPEN oracle and marking |
| `fov_circular.dfy` ... `fov_permissive.dfy` | `FovCircular`, `FovDiamond`, `FovDigital`, `FovShadow`, `FovRestrictive`, `FovPermissive` | the six FOV algorithms |
| `fov_dispatch.dfy` | `FovDispatch` | `RLFL_fov` |

**Registry sizes.** `defines.h` falls back to 12 maps, paths and projections (lines 21-28), but `setup.py` (lines 8-14) builds with 16 of each. The model uses 16. The proofs depend only on the counts being positive.

**FOV marks.** Every FOV algorithm is modelled as a method from a grid to a grid, with three parts to its contract:

1. **Error paths.** These come first, and leave the grid unchanged.
2. **Upper bound.** A `lit` predicate lists every cell the algorithm may mark. The relations `LitOnly`, `MarksOnly` and `SeenOnly` say that marks are added only on `lit` cells and that no other bit changes.
3. **Lower bound.** The origin is always marked.

The permissive algorithm also promises that its first cell is visited.

## Model

| member | source | states |
|---|---|---|
| Defines.CellBitsAreSingleBits | src/headers/defines.h:53-69 | the sixteen named cell bits, DARK to MARK, are the bits 0x0001 to 0x8000 in order |
| Defines.CellBitsAreDistinct | src/headers/defines.h:53-69 | no two named cell bits coincide |
| Defines.FovIsSeenAndMemo | src/headers/defines.h:70 | CELL_FOV is 0x0060: it has SEEN and MEMO and no other named bit |
| Defines.MaskIsAllButGoal | src/headers/defines.h:71-73 | CELL_MASK is 0xDFFF: it covers every named bit except GOAL, which it lacks |
| Defines.StatusCodesDistinct | src/headers/defines.h:43-50 | SUCCESS is 0, every error code is negative, and the eight codes are pairwise distinct |
| Defines.UnknownBeyondMaxDistance | src/headers/defines.h:90-92 | PATH_UNKNOWN is above MAX_DISTANCE, and PATH_IMPASSIBLE is negative |
| Store.LowestFree | src/rlfl.c:44-47 | the slot the registries hand out is empty and every slot below it is taken, or it is the slot count when all are taken |
| Store.Initial | src/rlfl.c:24-30 | at load every registry slot is empty |
| Grid.IdxInjective | src/headers/defines.h:107 | the row-major index `x + y*w` of an in-grid cell names no other in-grid cell |
| Grid.IndexRow | src/rlfl.c:168-169 | every index below `w*h` names the in-grid cell `(k % w, k / w)`, whose index it is |
| Grid.FlagValidIsRangeCheck | src/rlfl.c:335-343 | `flag_valid` holds exactly for flags up to CELL_MASK: a numeric range check that lets 0 and GOAL (0x2000) through, although GOAL is not in the mask, and refuses 0xE000 |
| Grid.HasCode | src/rlfl.c:236-245 | on a valid map: OUT_OF_BOUNDS off the grid, then FLAG for an invalid flag, else 1 exactly when the cell shares a bit with the flag, and 0 otherwise |
| Grid.SetFlagAt | src/rlfl.c:215-223 | the same error order; on success cell (x, y) gains the flag's bits and every other cell is unchanged |
| Grid.ClearFlagAt | src/rlfl.c:258-265 | the same error order; on success cell (x, y) loses the flag's bits and every other cell is unchanged |
| Grid.ApplyMap | src/rlfl.c:299-305 | the fill or clear loop over all `width*height` cells ORs the bits into, or AND-NOTs them out of, every cell; dimensions and path maps are unchanged |
| Grid.DistanceProperties | src/rlfl.c:354-368 | `RLFL_distance` is symmetric, is 0 exactly at equal points, lies between the Chebyshev distance and 3/2 of it, and is at most the Manhattan distance |
| Grid.DistanceExamples | src/rlfl.c:354-368 | the values the library's distance test expects: 15 for (1,1)-(11,11), 10 for a straight run of 10, 12 for (10,5) |
| Grid.FovFinish | src/rlfl.c:563-611 | `RLFL_fov_finish` returns SUCCESS and leaves the grid exactly as it was: every inner guard asks for a non-OPEN cell inside the outer guard's OPEN cell |
| Grid.FovMarkKeepsOtherBits | src/headers/defines.h:70 | an FOV mark sets SEEN and MEMO and changes no other bit, OPEN in particular |
| Rlfl.NewMap | src/rlfl.c:40-59 | NO_MAP when every slot is taken (checked first), then SIZE when a side reaches 5000; otherwise the result is the lowest empty slot, holding a map of the given size with all cells 0 and no path maps, and no other slot or registry changes; a failure changes nothing |
| Rlfl.WipeMapSlot | src/rlfl.c:65-84 | GENERIC and no change for an invalid handle; otherwise the slot is emptied and nothing else changes |
| Rlfl.NewThenWipe | src/rlfl.c:40-84 | wiping the handle `new_map` just returned restores the state before the call |
| Rlfl.WipeThenNew | src/rlfl.c:40-84 | a wiped slot is reusable: the next map of an allowed size gets that slot or a lower one |
| Rlfl.WipeMapsFromSpec | src/rlfl.c:90-97 | the wipe loop from slot i on empties slots i and above and keeps the lower slots and the other registries |
| Rlfl.WipeAll | src/rlfl.c:90-97 | `RLFL_wipe_all` empties every map slot and leaves the path and projection registries alone |
| Rlfl.WipeAllThenNew | src/rlfl.c:40-97 | after `wipe_all` the next map is created in slot 0 |
| Rlfl.MapSize | src/rlfl.c:191-203 | NO_MAP for a bad handle, else SUCCESS with the width and height |
| Rlfl.NewMapSize | src/rlfl.c:191-203 | a new map reports the size it was created with (also lines 40-59) |
| Rlfl.TranslateXY | src/rlfl.c:160-172 | NO_MAP exactly for a bad handle; SIZE exactly for a map of width 0 (where the C divides by zero); otherwise SUCCESS and a column in `0..width-1` and a non-negative row |
| Rlfl.TranslateXYAsWritten | src/rlfl.c:160-172 | translate_xy as written divides by the width exactly when the map is valid and its width is 0; every other call answers as TranslateXY, and never SIZE |
| Rlfl.ZeroWidthDividesByZero | src/rlfl.c:104-133 | new_map accepts a width of 0 whenever a slot is free, and translate_xy on the handle it returns divides by zero (also lines 166-169) |
| Rlfl.CellCountFits | src/headers/defines.h:36-40 | below the 5000x5000 ceiling every cell index fits a C int |
| Rlfl.TranslateRoundTrip | src/rlfl.c:160-172 | `translate_xy` of the index of an in-grid cell gives back that cell |
| Rlfl.TranslateCovers | src/rlfl.c:160-172 | every index below `w*h` translates to an in-grid cell whose index it is |
| Rlfl.SetFlag | src/rlfl.c:209-224 | NO_MAP, then OUT_OF_BOUNDS, then FLAG, each leaving the state unchanged; on success the flag is ORed into cell (x, y) and no other cell, map or registry changes |
| Rlfl.ClearFlag | src/rlfl.c:252-266 | the same error order; on success the flag is AND-NOTed out of cell (x, y) and nothing else changes |
| Rlfl.HasFlagAnswers | src/rlfl.c:230-246 | NO_MAP, then OUT_OF_BOUNDS, then FLAG; 1 exactly when the cell shares a bit with a valid flag, and 0 exactly when it shares none |
| Rlfl.GetFlags | src/rlfl.c:275-285 | NO_MAP, then OUT_OF_BOUNDS; the result is non-negative exactly for a valid cell, and then it is the cell's whole mask |
| Rlfl.SetThenGet | src/rlfl.c:209-285 | `get_flags` after `set_flag` gives the old mask with the flag's bits added |
| Rlfl.ClearThenGet | src/rlfl.c:252-285 | `get_flags` after `clear_flag` gives the old mask with the flag's bits removed |
| Rlfl.SetThenHas | src/rlfl.c:209-246 | after `set_flag` of a nonzero flag, `has_flag` of it answers 1 at that cell, and every other cell answers as before |
| Rlfl.ClearThenHas | src/rlfl.c:230-266 | after `clear_flag`, `has_flag` of it answers 0 at that cell, and every other cell answers as before |
| Rlfl.SetThenClear | src/rlfl.c:209-266 | setting a flag the cell lacks and clearing it again restores the state exactly |
| Rlfl.ApplyFlag | src/rlfl.c:291-329 | `fill_map`/`clear_map`: NO_MAP, then FLAG, each unchanged; on success every cell of that map gains (fill) or loses (clear) the bits, nothing else changes, and `has_flag` of a nonzero flag then answers 1 (fill) or 0 (clear) on every cell |
| Rlfl.AppliedHas | src/rlfl.c:291-329 | after a map-wide fill of a nonzero flag every cell has it; after a map-wide clear no cell has it |
| Rlfl.PathSize | src/rlfl.c:461-468 | NO_PATH for an out-of-range or empty slot, else the stored size |
| Rlfl.PathDelete | src/rlfl.c:474-485 | NO_PATH for an out-of-range or empty slot; otherwise the slot is emptied and nothing else changes |
| Rlfl.PathStep | src/rlfl.c:491-510 | NO_MAP (not NO_PATH) for a bad slot; otherwise SUCCESS with element s of the path, or GENERIC when there is none |
| Rlfl.DeleteThenSize | src/rlfl.c:461-510 | after `path_delete` the slot is gone: size answers NO_PATH, step NO_MAP, and a second delete NO_PATH |
| Rlfl.StoredPathReads | src/rlfl.c:461-510 | a stored path reads back through the accessors: its size, each step in order, and GENERIC one past the end |
| Rlfl.PathCreate | src/rlfl.c:437-455 | NO_MAP, then OUT_OF_BOUNDS unless both ends are on the map, then GENERIC for an unknown algorithm. A failure changes nothing. A success stores the traced path in the lowest free slot and reads back through the accessors. A basic path returns SUCCESS, that is 0, and its trace has the walker's shape; an A\* path returns its slot, and its trace is a route from destination to origin |
| Rlfl.PathCreateIntended | src/rlfl.c:437-455 | the same checks, and every success returns the slot the path was stored in, so the handle reads back the path just traced |
| Rlfl.BasicHandleIsStale | src/rlfl.c:449 | while slot 0 holds an older path, a basic path goes to a higher slot, yet the returned handle 0 still names the older path |
| List.Create | src/list_t.c:30-33 | a fresh list is empty, with capacity 0 |
| List.CreateSize | src/list_t.c:39-46 | an empty list whose capacity is `size`, or 0 when `size <= 1` |
| List.Grow | src/list_t.c:207-220 | capacity doubles (16 from empty), the elements in use are kept, and the size is then at least two below the capacity |
| List.Append | src/list_t.c:52-58 | the size grows by one, the elements become the old ones followed by e, and the size stays below the capacity |
| List.AppendAll | src/list_t.c:52-58 | appending a sequence keeps the old elements in place, adds the sequence after them in order, and grows the size by its length |
| List.AppendAllEntries | src/list_t.c:52-58 | appending a sequence element by element leaves exactly the old elements followed by one entry per appended element, in order |
| List.Pop | src/list_t.c:64-70 | intended pop: NULL and no change on an empty list; otherwise the last element, with the size one less |
| List.PopAfterAppend | src/list_t.c:52-70 | (intended) popping what was just appended gives it back and restores the elements |
| List.Get | src/list_t.c:90-95 | intended get: element `index` below the size, NULL at or beyond it |
| List.Set | src/list_t.c:101-109 | the capacity grows until it exceeds the index, e is stored there, and the size becomes `max(size, index+1)` |
| List.SetKeepsOthers | src/list_t.c:101-109 | `set` keeps every other element in use; without growth it keeps every other slot, and growth NULLs the new slots |
| List.SetKeepsClean | src/list_t.c:101-109 | `set` keeps every slot beyond the size NULL |
| List.Room | src/list_t.c:55-56 | the buffer append and insert write into keeps the elements and has room for two more (also lines 143-144) |
| List.Insert | src/list_t.c:139-151 | `before` in `0..size` puts e at `before` with the rest shifted right (size + 1); a negative `before` or one beyond the grown capacity writes outside the buffer; one between size and capacity stores e there and pulls the stale slot at the old size into the elements |
| List.RemoveAt | src/list_t.c:189-201 | the element at the iterator is removed and the rest shift left (size - 1, capacity kept); the iterator returned is the slot before, or NULL-1 when the list is left empty |
| List.Size | src/list_t.c:157-161 | 0 for a NULL list, else the number of elements in use |
| List.Empty | src/list_t.c:167-171 | the elements become empty and the capacity is kept |
| PathBasic.StopRules | src/path_basic.c:243-277 | `test_step` stops at the destination unless BEAM is set; without THRU at a cell that is not OPEN, with THRU only at a PERM cell; with STOP at an OCUP cell; and off the grid. `has_flag`'s error codes are read as truth values, as C does |
| PathBasic.StopsIgnoresPath | src/path_basic.c:243-277 | the stop verdict never depends on the PATH bits that `add_step` writes (also lines 286) |
| PathBasic.ReplayMarks | src/path_basic.c:279-288 | replaying `add_step` over a trace sets PATH on exactly its in-grid cells and changes no other bit |
| PathBasic.ClearThenReplay | src/path_basic.c:42 | clearing PATH map-wide and then recording the trace leaves PATH on exactly the trace's cells, and every other bit as it was (also lines 279-288) |
| PathBasic.FracTest | src/path_basic.c:89-93 | with `half = ax*ay` and frac scaled by `2*av`, the C test `frac > half` is the Bresenham error test `2e > au` (also lines 107, 135) |
| PathBasic.Advance | src/path_basic.c:128-150 | one slant update followed by the major move keeps the fixed-point invariant that ties frac, the minor-move count and the Bresenham error together |
| PathBasic.SlantAtInv | src/path_basic.c:96-150 | every state of a straight branch satisfies that invariant, and the minor-move count is never negative |
| PathBasic.StraightStops | src/path_basic.c:120-126 | a straight branch records cells up to the first that stops the walk and stops there, unless the range test `(k >> 1) >= range` cut it off first |
| PathBasic.StraightReaches | src/path_basic.c:96-191 | on a clear grid and with range above the major distance, a straight branch records exactly `au` cells, the last of them the destination |
| PathBasic.DiagonalReaches | src/path_basic.c:192-233 | on a clear grid and with range > 0, the diagonal branch records `a` cells, the last of them the destination |
| PathBasic.ClearStops | src/path_basic.c:249-264 | without BEAM, on an all-OPEN grid an in-grid cell stops the walk exactly when it is the destination |
| PathBasic.HaltsIsStops | src/path_basic.c:273 | `test_step` already stops off the grid, so the walkers' own bound test adds nothing |
| PathBasic.BasicTraceWalks | src/path_basic.c:96-233 | the trace is a walk from the origin: each step moves the major axis by one toward the destination and the minor axis by 0 or 1 in its fixed direction (both, on a diagonal) |
| PathBasic.BasicTraceStops | src/path_basic.c:120-126 | `test_step` passed every recorded cell but the last, and the last one stopped the walk unless the range test did; the stopping cell is recorded (also lines 220-226, 246-273) |
| PathBasic.BasicTraceReaches | src/path_basic.c:96-233 | without BEAM, on an all-OPEN grid and with range above the distance, the trace has `max(ax, ay)` cells and ends exactly at the destination (also lines 249-253) |
| PathBasic.BasicTraceIsStraight | src/path_basic.c:96-191 | when one axis is strictly longer, the trace is the straight walk along that axis |
| PathBasic.BasicCheck | src/path_basic.c:13-27 | SUCCESS exactly when both ends are on the map, they differ, and a path slot is free; otherwise NO_MAP, then FLAG for a full registry, then GENERIC for an end off the map or equal ends |
| PathBasic.BasicPath | src/path_basic.c:32-41 | the stored record holds the steps in order, their count as its size, the valid flag and the map (also lines 284-285) |
| PathBasic.PathBasic | src/path_basic.c:10-241 | the status is BasicCheck's, and a failure changes nothing. On success the path is stored in the lowest free slot and PATH is set on exactly its cells; nothing else changes. A negative range becomes the default, and the trace has the walker's shape: walk, stop rule and reach |
| AstarOpen.PushOpen | src/path_astar.c:479-499 | `path_push_open` adds exactly the pushed node to the open set: one more entry, the same multiset plus e |
| AstarOpen.BubbleInserts | src/path_astar.c:484-497 | on an ordered open set, the swap pass started with e at position i (at or above its rank) carries e down to its rank, and leaves every other node in order |
| AstarOpen.PushOpenInserts | src/path_astar.c:479-499 | on an open set ordered by non-increasing cost toward the top, push inserts e just above every node that costs at least as much, and the set stays ordered |
| AstarOpen.PopIsCheapest | src/path_astar.c:505-511 | on an ordered open set, pop yields a node of least cost and leaves the rest ordered |
| AstarOpen.PushThenPop | src/path_astar.c:479-511 | a node pushed with a cost no higher than any other is the next one popped, ties favouring the newest, and the set is back as it was |
| AstarOpen.RemoveOpen | src/path_astar.c:574-591 | `path_remove` of an absent node changes nothing; otherwise the open set is one shorter |
| AstarOpen.RemoveOpenSorted | src/path_astar.c:574-591 | removal keeps the other nodes in their order, so an ordered set stays ordered |
| AstarOpen.RemoveOpenMultiset | src/path_astar.c:574-591 | exactly one copy of the node is removed, and nothing else |
| AstarOpen.RemoveOpenNoDup | src/path_astar.c:574-591 | without duplicates, the node is gone after removal, everything else stays, and no duplicate appears |
| PathAstar.DirsAreKingMoves | src/path_astar.c:30-31 | the eight `dirx`/`diry` offsets are the eight king moves, each once |
| PathAstar.PathCost | src/path_astar.c:597-612 | `path_cost` is the cost so far plus the `RLFL_distance` estimate to the goal, plus `dcost` exactly when the node shares neither row nor column with the goal |
| PathAstar.EstimateCacheTransparent | src/path_astar.c:602-605 | caching the estimate never changes a cost: the estimate is 0 only at the goal, where recomputing gives 0 again |
| PathAstar.CheaperIffLowerCost | src/path_astar.c:538-543 | for one node the estimate and the surcharge cancel, so the re-parenting test `oc > path_cost(&tmp)` holds exactly when the new cost so far is lower |
| PathAstar.CheckAtReopens | src/path_astar.c:527-556 | `path_check` on a node re-opens it, with cost parent + 1 and the new parent, exactly when it is empty or its cost so far exceeds the parent's by more than one step; otherwise nothing changes (also lines 566-568) |
| PathAstar.CheckBlocked | src/path_astar.c:520-525 | an off-grid cell, or one with neither OPEN nor WALK, leaves the search unchanged |
| PathAstar.CheckKeepsInv | src/path_astar.c:518-559 | `path_check` of a neighbour of the closed node keeps the search invariant: nodes on their cells, the open set ordered and duplicate-free, and parent links forming a tree rooted at the origin whose edges join passable neighbours |
| PathAstar.RunStops | src/path_astar.c:426-434 | the search loop ends with GENERIC on an empty open set, and with success when it pops the goal (unless filling) |
| PathAstar.RunKeepsInv | src/path_astar.c:426-444 | every round of `find_path` keeps the search invariant, and a goal it stops on has been reached |
| PathAstar.FindPath | src/path_astar.c:412-447 | a found goal is the node of (dx, dy); an exhausted search has an empty open set |
| PathAstar.FindPathTree | src/path_astar.c:412-447 | however `find_path` stops on the goal, the parent links trace it back to the origin |
| PathAstar.Chain | src/path_astar.c:333-345 | the cells `store_path` records start at the given node, end at the origin, and step between adjacent passable cells |
| PathAstar.FoundWalk | src/path_astar.c:318-350 | after a successful search the recorded cells are a route: destination first, origin last, each step a king move onto a passable in-grid cell (also lines 412-447) |
| PathAstar.AstarCheck | src/path_astar.c:277-290 | SUCCESS exactly when both ends are on the map and a path slot is free; otherwise NO_MAP, then OUT_OF_BOUNDS, then FLAG |
| PathAstar.PathAstar | src/path_astar.c:273-312 | a failed check is returned and changes nothing. A success returns the lowest free slot, which then holds a route from destination to origin, with PATH set on exactly its cells. Otherwise the result is GENERIC and nothing changes (also lines 318-350) |
| PathMap.ReadSlotAsWritten | src/path_astar.c:191-196 | the access `path_map[p]` after the `p > MAX_PATHS` guard reads a real slot below MAX_PATHS and memory past the array otherwise |
| PathMap.PathSlot | src/path_astar.c:191-196 | with the intended guard, a slot is read exactly when it is a real, non-empty slot |
| PathMap.StepGuardAgrees | src/path_astar.c:191 | the intended guard and the written one agree everywhere except at `p == MAX_PATHS`, and the intended one admits exactly the real slots (also src/dijkstra.c:145) |
| PathMap.StepCheck | src/path_astar.c:185-196 | SUCCESS exactly for a valid origin and a non-empty slot; otherwise NO_MAP, then OUT_OF_BOUNDS, then NO_PATH |
| PathMap.Pick | src/path_astar.c:198-216 | the scan loop picks the first candidate that beats every earlier one, and none beats it later; -1 exactly when no candidate beats the start value |
| PathMap.StepOn | src/path_astar.c:198-229 | GENERIC, staying at the origin, exactly when no neighbour's value is usable and better than the start; otherwise SUCCESS and the neighbour in the first best direction (also src/dijkstra.c:152-184) |
| PathMap.IntMaxNeverBeaten | src/dijkstra.c:153 | a stored INT_MAX never beats the start value of a descending scan (also lines 166) |
| AstarStep.ScanStart | src/path_astar.c:199 | the scan's start value is beaten by every non-negative value when stepping away, and by every value below INT_MAX otherwise |
| AstarStep.AstarStepMap | src/path_astar.c:181-230 | the checks' status when they fail; otherwise GENERIC with (x, y) left at the origin exactly when no in-grid neighbour holds a usable value; otherwise SUCCESS with the first neighbour, in `dirx`/`diry` order, holding the strictly smallest non-negative value (the largest when `away`) |
| AstarStep.AwayStuckIffNoValue | src/path_astar.c:199-221 | stepping away, the scan is stuck exactly when no in-grid neighbour holds a non-negative value |
| Dijkstra.NbDirsShape | src/dijkstra.c:28 | the direction table has eight distinct king moves, the last four of them diagonal |
| Dijkstra.InitLinksSpec | src/dijkstra.c:382-417 | every link sits on its own cell (its x and y are the cell's), is passable exactly when the cell has OPEN or WALK, and a passable link starts at PATH_UNKNOWN |
| Dijkstra.AddGoal | src/dijkstra.c:423-428 | the goal's distance becomes 0 while its position and passability are kept, and every other link is unchanged |
| Dijkstra.WalkRight | src/dijkstra.c:255-259 | the walk stops at the first position from which the next entry is not closer than the new distance, having passed only closer entries (also lines 320-326) |
| Dijkstra.PutAfter | src/dijkstra.c:261-264 | inserting after position q puts the cell at q + 1, keeps the prefix and shifts the suffix by one (also lines 327-330) |
| Dijkstra.PutAfterAscending | src/dijkstra.c:255-264 | inserting a cell between a not-farther prefix and a not-closer successor keeps the frontier sorted by distance |
| Dijkstra.PlaceAscending | src/dijkstra.c:244-264 | placing a cell after a restart-or-continue walk keeps the frontier sorted by distance |
| Dijkstra.PutAfterMembers | src/dijkstra.c:261-264 | the inserted frontier holds exactly the old members and the cell, and stays free of duplicates when the cell was new |
| Dijkstra.SeedSpec | src/dijkstra.c:236-274 | the seeding pass yields a frontier sorted by distance that holds exactly the passable cells below MAX_DISTANCE, in scan order, together with the initial entries |
| Dijkstra.SeedDistinct | src/dijkstra.c:236-274 | seeding distinct, new cells gives a duplicate-free frontier of passable cells |
| Dijkstra.ColumnSpec | src/dijkstra.c:237-239 | one column of the scan visits y from its start to the height, each at its flat index x + y * w |
| Dijkstra.ScanOrderCovers | src/dijkstra.c:236-239 | the column-major scan visits every cell of the columns from x0 on |
| Dijkstra.ScanOrderDistinct | src/dijkstra.c:236-239 | the scan visits no cell twice |
| Dijkstra.StartSeeds | src/dijkstra.c:240-243 | after initialisation and adding the goal, a cell seeds the frontier exactly when it is the goal and the goal has OPEN or WALK (also lines 423-428) |
| Dijkstra.InitialFrontierIsGoal | src/dijkstra.c:236-274 | the initial frontier is the goal alone when the goal has OPEN or WALK, and empty otherwise |
| Dijkstra.Improve | src/dijkstra.c:310-330 | improving a neighbour sets its distance and moves it into the frontier, keeping every index in range |
| Dijkstra.ImproveLinks | src/dijkstra.c:310-312 | an improvement changes only the neighbour's distance and no cell's position or passability |
| Dijkstra.ImproveMembers | src/dijkstra.c:317-330 | after the reinsertion the frontier holds exactly the old members and the neighbour |
| Dijkstra.ImproveNoDup | src/dijkstra.c:317-330 | the reinsertion, which unlinks the neighbour first, never duplicates a frontier entry |
| Dijkstra.ImproveAscending | src/dijkstra.c:317-330 | the reinsertion keeps the frontier sorted by distance |
| Dijkstra.AllowedFrame | src/dijkstra.c:293-305 | whether a move is allowed depends only on the cells' passability, never on the distances |
| Dijkstra.RelaxShape | src/dijkstra.c:290-330 | one direction's relaxation keeps every cell's position and passability, keeps every frontier member, adds only the allowed target, puts every cell whose distance changed into the frontier, and keeps the frontier passable, duplicate-free and sorted |
| Dijkstra.RelaxLowers | src/dijkstra.c:307-312 | with a non-positive diagonal surcharge, a relaxation never raises a distance |
| Dijkstra.RelaxReach | src/dijkstra.c:307-312 | with a non-positive diagonal surcharge, after an allowed relaxation the target is at most one terrain step beyond the head |
| Dijkstra.RelaxAllShape | src/dijkstra.c:287-331 | relaxing all eight directions keeps the cells, keeps the frontier members, records every changed cell in the frontier and keeps the frontier passable and duplicate-free |
| Dijkstra.RelaxAllAscending | src/dijkstra.c:287-331 | relaxing all eight directions keeps the frontier sorted by distance |
| Dijkstra.RelaxAllLowers | src/dijkstra.c:287-331 | with a non-positive diagonal surcharge, no distance rises while the head is relaxed |
| Dijkstra.RelaxAllReach | src/dijkstra.c:287-331 | after the head is relaxed, every allowed neighbour is at most one terrain step beyond the head |
| Dijkstra.DoneFrame | src/dijkstra.c:285-340 | a settled cell stays settled while other distances fall and its own stays put |
| Dijkstra.HeadDone | src/dijkstra.c:285-340 | a head that leaves the frontier is settled: every allowed neighbour is at most one terrain step beyond it |
| Dijkstra.RoundInv | src/dijkstra.c:285-340 | one round of the loop keeps the scan invariant (cells kept, frontier passable, duplicate-free and sorted, every cell outside the frontier settled) |
| Dijkstra.RoundLowers | src/dijkstra.c:285-340 | one round of the loop never raises a distance |
| Dijkstra.RoundAscending | src/dijkstra.c:285-340 | one round of the loop keeps the frontier sorted by distance |
| Dijkstra.RoundKeepsCells | src/dijkstra.c:285-340 | one round of the loop keeps every cell's position and passability |
| Dijkstra.RelaxationSettles | src/dijkstra.c:285-340 | when the loop empties the frontier, no distance has risen and every passable cell is settled: no allowed neighbour lies more than one terrain step beyond it |
| Dijkstra.RelaxationKeepsLow | src/dijkstra.c:307-312 | with a surcharge of at least -1, distances stay non-negative and a cell at most one terrain step from the goal keeps its distance |
| Dijkstra.RelaxationKeepsCells | src/dijkstra.c:285-340 | the whole loop keeps every cell's position and passability |
| Dijkstra.GoalKeepsZero | src/dijkstra.c:307-312 | the goal keeps distance 0 and every distance stays non-negative (also lines 423-428) |
| Dijkstra.StartLinksSpec | src/dijkstra.c:382-428 | before the scan the goal is at 0, passable exactly when it has OPEN or WALK, every other passable cell is at PATH_UNKNOWN, and no distance exceeds PATH_UNKNOWN |
| Dijkstra.StartInv | src/dijkstra.c:236-285 | the scan invariant holds when the relaxation loop starts |
| Dijkstra.LinkAtCell | src/dijkstra.c:391-402 | the link at a cell's flat index carries that cell's coordinates |
| Dijkstra.WalkBound | src/dijkstra.c:285-340 | on a settled map, a walk of n allowed moves from a passable cell ends on a passable cell at most n terrain steps farther than the start |
| Dijkstra.ScanBound | src/dijkstra.c:285-340 | on the finished map the goal is at most 0 and every cell reached from the goal by n allowed moves is at most n away |
| Dijkstra.MoveToFrame | src/dijkstra.c:293-305 | a walk depends only on passability, never on distances |
| Dijkstra.FlatNeighbourWraps | src/dijkstra.c:289 | the flat offset of the right-hand neighbour of the last column is the first cell of the next row |
| Dijkstra.FlatNeighbourUnderflows | src/dijkstra.c:289 | the flat offset of the upward neighbour of the top row is negative, outside the links array |
| Dijkstra.FlatNeighbourAgrees | src/dijkstra.c:289 | for an in-grid neighbour, the flat offset equals the neighbour's own index |
| Dijkstra.TargetIsNeighbour | src/dijkstra.c:289 | the link reached by a direction carries the neighbour's coordinates |
| DijkstraMap.SaveMap | src/dijkstra.c:115-131 | an impassable cell is saved as PATH_UNKNOWN; a passable cell at a non-negative distance is saved as that distance truncated towards zero; a passable cell is never saved above the distance clamped at 0 |
| DijkstraMap.StartKeepsCells | src/dijkstra.c:423-428 | adding the goal changes no cell's position or passability |
| DijkstraMap.ScanKeepsCells | src/dijkstra.c:68-76 | preparation, goal and scan together keep every cell's position and passability as initialised |
| DijkstraMap.SavedImpassable | src/dijkstra.c:84 | on the saved map every cell with neither OPEN nor WALK holds PATH_UNKNOWN (also lines 124-125) |
| DijkstraMap.SavedGoal | src/dijkstra.c:71 | with a surcharge of at least -1, every saved value is non-negative and a goal with OPEN or WALK is saved as 0 (also lines 99, 127) |
| DijkstraMap.SavedBoundOne | src/dijkstra.c:76 | with a non-positive surcharge, a cell reached from the goal by n allowed moves is saved at most n (also lines 99) |
| DijkstraMap.SavedBound | src/dijkstra.c:76 | the same bound for every walk from the goal at once (also lines 99) |
| DijkstraMap.FillMap | src/dijkstra.c:44-105 | NO_MAP, OUT_OF_BOUNDS and NO_PATH (no free slot) leave the state unchanged. Otherwise the result is the lowest free slot, and only that slot of that map changes. It holds PATH_UNKNOWN on every cell with neither OPEN nor WALK. With a surcharge of at least -1 every value is non-negative and a goal with OPEN or WALK holds 0. With a non-positive surcharge, a cell n allowed moves from the goal holds at most n. A run out of fuel returns GENERIC and changes nothing |
| DijkstraMap.DijkstraStepMap | src/dijkstra.c:135-185 | the checks' status when they fail; otherwise GENERIC with (x, y) at the origin exactly when no in-grid neighbour holds a value other than PATH_UNKNOWN that is below INT_MAX; otherwise SUCCESS and the first neighbour, in direction-table order, holding the strictly smallest such value |
| DijkstraMap.WipeMap | src/dijkstra.c:191-204 | NO_MAP for an invalid map; otherwise SUCCESS, slot p of that map empty and nothing else changed |
| DijkstraMap.WipeFreesSlot | src/dijkstra.c:191-204 | after wiping slot p the lowest free slot is at most p (also src/rlfl.c:44-47) |
| DijkstraMap.WipeFromSpec | src/dijkstra.c:217-219 | wiping from slot i on empties exactly slots i and above and keeps everything else |
| DijkstraMap.WipeAllMaps | src/dijkstra.c:210-222 | NO_MAP for an invalid map; SUCCESS and a valid map otherwise |
| DijkstraMap.WipeAllEmpties | src/dijkstra.c:210-222 | after wiping all slots every slot is free, the cells are kept, and the lowest free slot is 0 |
| Shape.AddStepFacts | src/project.c:200-221 | adding a cell keeps the projection duplicate-free, extends it by at most that cell, and afterwards holds exactly the old cells and the new one |
| Shape.ScanRow | src/project.c:284-327 | one row of a ripple scan adds exactly the cells of that row, within the column range, that pass the ripple test |
| Shape.ScanBox | src/project.c:282-328 | the square scan of one ripple adds exactly the cells of the square that pass the ripple test |
| Shape.RingsCells | src/project.c:279-329 | the ripples from d to rad add exactly the cells on some ripple e with d <= e <= rad, keeping the list duplicate-free |
| Shape.RingIsLevelSet | src/project.c:290-317 | a cell passes the square, diamond or circular ripple test for ripple e inside the scanned square exactly when its ripple distance is e |
| Shape.BallCells | src/project.c:274-332 | ball_shape adds exactly the cells that lie on a ripple between the start and the radius and pass the wall test |
| Shape.BallShape | src/project.c:279-321 | a cell is on some ripple between d and rad and passes the wall test exactly when it is OPEN (or PROJECT_THRU is set) and its ripple distance lies between d and rad |
| Shape.ArcsCells | src/project.c:370-397 | the arcs of one cone ripple add exactly the admitted cells at distance bdis from the origin and between cdis and brad from the base point |
| Shape.ConeAdvance | src/project.c:354-367 | the base point either stays or moves to a cell of the trace, and the path index never passes the beam's length |
| Shape.ConeRadiusBound | src/project.c:344 | the arc radius `rad * (path_index + brev) / (dist + brev)` never exceeds the radius (or 0) (also lines 403) |
| Shape.ConeRipples | src/project.c:350-407 | the cone has one ripple per distance from bdis to mdis, each with an arc radius at most the radius and a base on the origin or the beam |
| Shape.ConeOntoCells | src/project.c:337-411 | breath_shape run onto any list: what was there stays in place, and a cell is in the result exactly when it was in the list or belongs to the blast; a duplicate-free list stays duplicate-free |
| Shape.ConeRipplesFixed | src/project.c:341-407 | the ripples of a cone do not depend on the list the cells go to |
| Shape.ConeCells | src/project.c:337-411 | breath_shape adds exactly the cells of its ripples' arcs, keeping the list duplicate-free |
| Shape.BlocksIsHasFlag | src/project.c:126 | a beam cell stops the beam exactly when it is not OPEN and PROJECT_THRU is clear |
| Shape.BeamStops | src/project.c:120-141 | the beam records a prefix of the trace, none of whose cells blocks; it stops at the target unless PROJECT_PASS, and otherwise only at the trace's end, the range, or a blocking cell; the epicentre is its last recorded cell |
| Shape.BeamRecords | src/project.c:110-141 | the beam's cells are exactly its starting cells and the recorded prefix of the trace, without duplicates |
| Shape.BeamOfFacts | src/project.c:110-148 | starting at the origin, the beam's length is at most the range, it records the origin and the unblocked prefix of the trace and no duplicates, and its epicentre is the last cell reached |
| Shape.ExplodeCells | src/project.c:150-188 | the explosion adds to the beam exactly the blast's cells, cone or ball as the flags and beam length decide |
| Shape.ProjectionCells | src/project.c:104-188 | the projection starts with the origin, has no duplicates, and holds exactly the origin, the beam's prefix of the trace, and the blast's cells |
| Shape.ConeGeometry | src/project.c:177-181 | a cone has one ripple per distance 0 to the target distance plus the radius, each with arc radius at most the radius and a base on the origin or the beam (also lines 341-407) |
| Shape.ConeNearBeam | src/project.c:341-407 | every cell of a cone is within the target distance plus the radius of the origin and within the radius of a cell of the beam |
| Shape.ConeFallback | src/project.c:150-154 | a cone whose beam is empty is a ball of radius 1 around the epicentre (also lines 182-186) |
| Project.ProjectSize | src/project.c:264-270 | NO_MAP for a bad or empty slot; otherwise the number of stored cells |
| Project.ProjectStep | src/project.c:227-239 | NO_MAP for a bad or empty slot; GENERIC for an index outside the list; otherwise the stored cell at that index |
| Project.ProjectDelete | src/project.c:245-258 | NO_MAP for a bad or empty slot; otherwise SUCCESS, that slot freed and nothing else changed |
| Project.DeleteThenSize | src/project.c:245-270 | after a delete the slot answers NO_MAP to size, step and a second delete |
| Project.StoredProjectionReads | src/project.c:227-270 | a stored projection reads back its size and every cell in order, and GENERIC one past the end |
| Project.FlagsWidenNarrow | src/rlfl.c:624 | a 16-bit flag word survives widening to unsigned long and narrowing back (also src/project.c:36) |
| Project.Finish | src/project.c:189-193 | storing the projection changes only its slot and the path registry, never the maps |
| Project.FinishProjects | src/project.c:104-193 | with path slot 0 free, the projection stored is the intended one: the path registry restored, the map changed only by the path's marks, and the cells those of beam and blast along the new path |
| Project.FinishWithPath | src/project.c:115-193 | the same when a basic path was created and is read back from its own slot |
| Project.FinishWithoutPath | src/project.c:115-116 | when no path could be created the projection is beam-less: the origin and the blast around it (also lines 144-193) |
| Project.Check | src/project.c:39-52 | the checks pass exactly when both cells are valid and a projection slot is free; a failure is negative |
| Project.CheckFailsAsWritten | src/project.c:39-52 | a failed check returns its error and leaves the state unchanged |
| Project.SuccessAsWritten | src/project.c:35-194 | once the checks pass, RLFL_project returns SUCCESS and stores the projection as written, a cone's cells going to projection slot 0 when that is not the new slot; when path slot 0 held an older path, that path is followed and deleted, the new path stays stored with its PATH marks on map m, and the other maps are unchanged (also lines 394) |
| Project.FinishAsWritten | src/project.c:115-193 | the projection stored along the trace read back from slot `path_n`, which is RLFL_path_create's status 0 rather than its slot; the new slot holds only origin and beam when a cone goes astray, and the list in projection slot 0 gains the cone's cells; in the stale case the older path in slot 0 is deleted, the new path stays in its own slot with exactly its PATH marks added to map m, and the other maps are unchanged (also lines 394) |
| Project.FinishStale | src/project.c:115-117 | while path slot 0 holds an older path, the trace read from slot 0 is that older path and project deletes it; the new path stays in the lowest free slot as a basic path from origin to target whose steps are the traced cells, map m differs from before only by that path's PATH marks, and every other map and path slot is unchanged (also lines 190) |
| Project.StaleAsWritten | src/project.c:115-193 | the stale-path case of project as written: path slot 0 holds an older path, which is followed and deleted, while the new path stays stored with its PATH marks and the cone's cells may go to projection slot 0 (also lines 394) |
| Project.FreshAsWritten | src/project.c:115-193 | the case where path slot 0 was free, so the new path lands in slot 0 and the status 0 happens to name it: the projection follows the path just traced |
| Project.PathlessAsWritten | src/project.c:115-116 | the case where no path is created (no free path slot, or origin and target coincide): the projection is stored as written along an empty trace (also lines 144-193) |
| Project.IntendedPathStored | src/project.c:189-193 | whenever the intended finish stores the projection, the as-written finish stores it the same way except that a misrouted cone's cells go to projection slot 0 (also lines 394) |
| Project.AppendedCone | src/project.c:197-215 | appending the new cone cells to a projection list gives a list whose present cells are exactly the cone's |
| Project.ConeStored | src/project.c:189-193 | the as-written projection registry: the new slot holds the slot cells, and only when a cone goes astray is projection slot 0 (then occupied) replaced by its list with the cone added; maps and paths are those of the intended finish (also lines 394) |
| Project.ConeMisroutedCells | src/project.c:394 | when a cone goes astray, the new projection holds exactly the origin and the beam, and every blast cell off the beam is in the intended projection but not in the new one (also lines 337-411) |
| Project.ConeOnto | src/project.c:394 | the list in projection slot 0 keeps its entries in place, and a cell is present in it afterwards exactly when it was before or it belongs to the cone (also lines 197-215, 337-411) |
| Project.Present | src/project.c:197-215 | the cells add_step compares against are exactly the non-NULL entries of the list |
| Project.FinishCone | src/project.c:189-193 | the as-written finish keeps the maps and the registry valid (also lines 394) |
| Project.Project | src/project.c:35-194 | NO_MAP, FLAG (no free projection slot), OUT_OF_BOUNDS each leaving the state alone; otherwise SUCCESS and the projection stored in the lowest free slot as written: along the older path when path slot 0 was taken, and with a cone's cells in projection slot 0 when the new slot is another (also lines 394) |
| Project.SlotTrace | src/project.c:117-124 | reading back a path slot gives the steps path_step returns, in order, none for a bad slot and never more than path_size |
| Project.SlotTraceOfStored | src/project.c:117-124 | reading back a slot that holds a trace yields exactly that trace |
| Project.SlotTraceFrame | src/project.c:117-124 | reading back a slot depends only on that slot |
| Project.ProjectIntended | src/project.c:35-194 | the same checks and errors; otherwise the lowest free projection slot is returned and holds the intended projection along the new basic path |
| Project.SuccessIntended | src/project.c:35-194 | once the checks pass, the intended projection is stored and its slot returned |
| Project.ProjectedReads | src/project.c:227-270 | a stored projection reads back in order, starting with the origin, with no duplicates |
| Project.RadInt | src/rlfl.c:618-624 | the radius passed as unsigned and read as int is the 32-bit two's-complement value congruent to it |
| Project.ProjectBall | src/rlfl.c:617-625 | RLFL_project's outcome with PROJECT_JUMP added to the flags |
| Project.ProjectBeam | src/rlfl.c:631-639 | RLFL_project's outcome with radius 0 |
| Project.ProjectCone | src/rlfl.c:659-667 | RLFL_project's outcome with PROJECT_CONE added to the flags |
| Project.ProjectWaveAsWritten | src/rlfl.c:645-653 | the target (-1, -1) always fails: OUT_OF_BOUNDS once the map and a slot are there, and the state is unchanged |
| Project.ProjectWave | src/rlfl.c:645-653 | with the origin as target, RLFL_project's outcome with PROJECT_WAVE, and no path |
| Project.ProjectCloudAsWritten | src/rlfl.c:673-680 | the target (-1, -1) always fails: OUT_OF_BOUNDS once the map and a slot are there, and the state is unchanged |
| Project.ProjectCloud | src/rlfl.c:673-680 | with the origin as target and the default range, RLFL_project's outcome, and no path |
| Project.NoPathIsBall | src/project.c:144-188 | without a path the projection is the origin and the admitted cells whose ripple distance lies between the shell and the radius (1 for a cone) |
| Fov.OpenOf | src/rlfl.c:230-250 | the transparency test each scan uses is the cell's OPEN bit |
| Fov.DiscInSquare | src/fov_circular_raycasting.c:53-60 | a cell within Euclidean radius r lies within r of the origin along both axes (also lines 120-126) |
| Fov.Paint | src/rlfl.c:209-229 | marking a list of cells keeps the grid valid and keeps its shape and path maps |
| Fov.PaintCells | src/rlfl.c:209-229 | after marking, a listed cell holds its old value with the bits set (or cleared) and every other cell is unchanged |
| Fov.PaintLitOnly | src/rlfl.c:209-229 | marking cells the scan may reach changes only those cells, only by SEEN and FOV, and leaves each of them SEEN |
| Fov.LitOnlyKeepsMarks | src/rlfl.c:209-229 | a mark set earlier in a scan is never taken away later in it |
| FovDispatch.AutoRadius | src/rlfl.c:530-537 | the whole-map radius is at least 1 |
| FovDispatch.AutoRadiusCovers | src/rlfl.c:530-537 | every cell of the map lies strictly inside the whole-map radius, both in Euclidean and in Chebyshev distance |
| FovDispatch.WholeMapRadiusRejected | src/rlfl.c:530-537 | from an origin at least MAX_RADIUS - 1 cells from a far edge, the whole-map radius as written reaches MAX_RADIUS and the corrected one stays below (also src/fov_circular_raycasting.c:46-47) |
| FovDispatch.Wipe | src/rlfl.c:291-307 | clearing keeps the grid's shape and path maps |
| FovDispatch.WipeClears | src/rlfl.c:291-307 | after clearing SEEN and LIT no cell holds either, clearing twice is clearing once, every other bit is kept and so is transparency (also lines 539) |
| FovDispatch.ClearIsWipe | src/rlfl.c:291-307 | any grid whose every cell is the old one with SEEN and LIT cleared is the cleared grid |
| FovDispatch.LitOnlyFresh | src/rlfl.c:539-554 | a cleared grid marked only on cells an algorithm may reach has SEEN only there and LIT nowhere |
| FovDispatch.MarksOnlyFresh | src/rlfl.c:539-554 | a cleared grid changed only by the restrictive scan's outcomes has SEEN only on the origin and on cells within the radius that are OPEN or, with walls lit, any, and LIT nowhere (also src/fov_restrictive.c:83, 92) |
| FovDispatch.SeenOnlyFresh | src/rlfl.c:539-554 | the same for the permissive scan's marks |
| FovDispatch.MarkedIsSeen | src/headers/defines.h:60 | a marked cell is SEEN (also lines 70) |
| FovDispatch.Scan | src/rlfl.c:540-554 | GENERIC and the grid unchanged when the algorithm rejects the radius; otherwise SUCCESS, the origin SEEN, and on a cleared grid every SEEN cell one the algorithm may reach and no cell LIT; with the permissive scan as written, only the origin SEEN (also src/fov_permissive.c:252) |
| FovDispatch.ScanChecked | src/rlfl.c:542-543 | the same for the three algorithms that check the radius themselves (also lines 550-553) |
| FovDispatch.ScanRestrictive | src/rlfl.c:552-553 | the restrictive scan marks nothing outside the square of the radius |
| FovDispatch.ScanUnchecked | src/rlfl.c:544-549 | diamond, shadow and permissive always succeed with the same marks guarantee; the permissive scan as written leaves only the origin SEEN on a cleared grid (also src/fov_permissive.c:252) |
| FovDispatch.Dispatch | src/rlfl.c:516-557 | NO_MAP, OUT_OF_BOUNDS and GENERIC (radius at least MAX_RADIUS) leave the state alone; otherwise only map m changes: cleared, then OUT_OF_BOUNDS for an unknown algorithm, GENERIC when the algorithm rejects the radius it is handed, and SUCCESS with the origin SEEN and only reachable cells SEEN |
| FovDispatch.FieldOfView | src/rlfl.c:516-557 | RLFL_fov with the whole-map radius capped below MAX_RADIUS: once the checks pass it succeeds exactly when the algorithm is known |
| FovDispatch.FieldOfViewAsWritten | src/rlfl.c:516-557 | RLFL_fov as written, handing on the uncapped whole-map radius and running the permissive scan as written: on a valid origin with a radius below MAX_RADIUS, FOV_PERMISSIVE succeeds and leaves exactly the origin SEEN (also src/fov_permissive.c:252) |
| Util.Trunc | src/dijkstra.c:127 | a conversion of a real to an integer truncates toward zero: the result's magnitude is the integer part of the input's, and its sign is the input's |
| Util.ISqrt | src/rlfl.c:536 | the integer part of a square root: its square is at most n and the next integer's square exceeds n |
| FovCircular.SignTimes | src/fov_circular_raycasting.c:166-189 | the step direction times a delta is the delta's magnitude |
| FovCircular.LineInit | src/fov_circular_raycasting.c:155-202 | the Bresenham state starts at the origin with the given destination and a consistent error term |
| FovCircular.LineStepMoves | src/fov_circular_raycasting.c:210-242 | a step reports the end exactly when no steps remain and then leaves the state alone; otherwise it moves one cell along the major axis and at most one along the minor one, toward the unchanged destination, with one fewer step remaining |
| FovCircular.ProbeOf | src/fov_circular_raycasting.c:109-111 | the probe says a cell is on the map exactly when it is in the grid, and open exactly when it is OPEN (also lines 127, 130) |
| FovCircular.RayUnfold | src/fov_circular_raycasting.c:116-148 | one iteration of the ray: stop beyond the radius; skip a cell off the map before the ray has entered it and stop after; stop at the cell behind a wall; otherwise mark the cell when it is open or walls are lit, and go on |
| FovCircular.RayMarks | src/fov_circular_raycasting.c:116-148 | every cell a ray marks is in the grid, within the radius, and open unless walls are lit; a ray already blocked marks nothing |
| FovCircular.RayStopsAtWall | src/fov_circular_raycasting.c:130-137 | every cell a ray marks before its last is an open cell on the map |
| FovCircular.CastRayMarks | src/fov_circular_raycasting.c:100-149 | a ray marks its origin first when that is on the map, and only in-grid cells within the radius that are open, unless walls are lit |
| FovCircular.CircularLit | src/fov_circular_raycasting.c:100-149 | the cells circular ray casting may mark: the origin, and the cells within the radius that are open or, when walls are lit, any |
| FovCircular.Cast | src/fov_circular_raycasting.c:65 | casting one more ray appends exactly that ray's cells, all of them markable (also lines 71, 77, 83) |
| FovCircular.Circular | src/fov_circular_raycasting.c:36-94 | OUT_OF_BOUNDS for an origin off the map and GENERIC for a radius of MAX_RADIUS or more, each leaving the grid alone; otherwise SUCCESS, the origin marked and only markable cells changed, only by the FOV bits |
| FovCircular.MarkAll | src/fov_circular_raycasting.c:85-91 | marking the collected cells, followed by the four fov_finish passes, changes only markable cells and marks the origin (also src/rlfl.c:563-611) |
| FovCircular.CircularInBox | src/fov_circular_raycasting.c:53-60 | every cell circular ray casting may mark lies inside the radius box around the origin |
| FovDiamond.CountUpdate | src/fov_diamond_raycasting.c:159-163 | replacing one ray changes the number of rays on the perimeter by the change of that ray's `added` flag |
| FovDiamond.Visit | src/fov_diamond_raycasting.c:142-166 | processing a neighbour keeps the ray arena consistent (each perimeter entry a distinct added ray at its own cell, inputs in range) and only grows it: added rays stay added and keep their position, and the perimeter only gets longer |
| FovDiamond.VisitKeepsArena | src/fov_diamond_raycasting.c:151-164 | recording the input and appending a first-time ray keeps the arena consistent and growing |
| FovDiamond.ArenaAdd | src/fov_diamond_raycasting.c:159-164 | appending a newly added ray to the perimeter keeps the arena consistent and growing |
| FovDiamond.Expand | src/fov_diamond_raycasting.c:255-273 | expanding from a ray keeps the arena consistent and growing |
| FovDiamond.MergedRay | src/fov_diamond_raycasting.c:224-249 | merging keeps a ray's position, inputs and `added` flag; a ray left unignored is on an OPEN cell or has its errors reset to its own offsets |
| FovDiamond.Merge | src/fov_diamond_raycasting.c:75 | merging one ray changes only that ray, keeps it added, and leaves it ignored, on an OPEN cell, or obscure (also lines 224-249) |
| FovDiamond.SetIgnore | src/fov_diamond_raycasting.c:80 | a ray beyond the radius is ignored and nothing else changes |
| FovDiamond.DiamondLit | src/fov_diamond_raycasting.c:83-103 | the cells diamond ray casting may mark: the origin, and the OPEN cells within the radius |
| FovDiamond.MarkedRayIsLit | src/fov_diamond_raycasting.c:86-97 | a settled ray that is neither ignored nor obscure names an in-grid cell diamond ray casting may mark |
| FovDiamond.WalkStep | src/fov_diamond_raycasting.c:62-81 | one perimeter iteration settles the ray it visits, keeps the arena consistent, and never shortens the perimeter |
| FovDiamond.SettledAfterUpdate | src/fov_diamond_raycasting.c:62-81 | settling the visited ray keeps the earlier rays settled |
| FovDiamond.SettledAfterExpand | src/fov_diamond_raycasting.c:78 | expanding the perimeter keeps the settled rays settled |
| FovDiamond.Walk | src/fov_diamond_raycasting.c:55-81 | after the perimeter loop the arena is consistent and every added ray is settled |
| FovDiamond.Collect | src/fov_diamond_raycasting.c:83-103 | the cells the final pass marks, with the origin, are in the grid, include the origin, and are all cells diamond ray casting may mark |
| FovDiamond.Diamond | src/fov_diamond_raycasting.c:42-118 | SUCCESS; the origin is marked and only cells diamond ray casting may mark change, only by the FOV bits |
| FovDiamond.CountZero | src/fov_diamond_raycasting.c:56-57 | the zeroed arena holds no added ray |
| FovDigital.InitHull | src/fov_digital.c:92-98 | the fresh hulls have n + 2 entries each, their first points written and every size and critical index at 0 |
| FovDigital.PushBottom | src/fov_digital.c:123-131 | pushing an obstacle onto the bottom hull stays inside the n + 2 entries and reads only written points |
| FovDigital.AdvanceTop | src/fov_digital.c:130 | advancing the top critical point keeps it inside the written part of the top hull and never moves it back |
| FovDigital.PopBottom | src/fov_digital.c:132-137 | restoring the bottom hull's convexity keeps every index inside the written part and never grows the hull |
| FovDigital.PushTop | src/fov_digital.c:143-150 | pushing an obstacle onto the top hull stays inside the n + 2 entries and reads only written points |
| FovDigital.AdvanceBottom | src/fov_digital.c:151 | advancing the bottom critical point keeps it inside the written part of the bottom hull and never moves it back |
| FovDigital.PopTop | src/fov_digital.c:153-157 | restoring the top hull's convexity keeps every index inside the written part and never grows the hull |
| FovDigital.Octant | src/fov_digital.c:112-116 | the octant transform keeps the offsets' magnitudes, exchanging the axes exactly for octants 4 to 7 |
| FovDigital.SwapBit | src/fov_digital.c:115 | bit 4 of the direction is set exactly for octants 4 to 7 |
| FovDigital.Draw | src/fov_digital.c:67-82 | draw marks the cell exactly when it is in the grid, within dis*dis + 1 of the origin, and OPEN or walls are lit |
| FovDigital.Trace | src/fov_digital.c:88-161 | every cell one digital line draws is one draw would mark, and a line of length 0 draws nothing |
| FovDigital.DigitalLit | src/fov_digital.c:50-82 | the cells digital FOV may mark: the origin, and the cells within radius*radius + 1 that are OPEN or, when walls are lit, any |
| FovDigital.Extend | src/fov_digital.c:54-58 | adding a line's cells keeps every collected cell in the grid and markable |
| FovDigital.Digital | src/fov_digital.c:35-61 | OUT_OF_BOUNDS for an origin off the map and GENERIC for a radius of MAX_RADIUS or more, each leaving the grid alone; otherwise SUCCESS, the origin marked and only markable cells changed, only by the FOV bits, and for radius 0 only the origin |
| FovShadow.Place | src/fov_recursive_shadowcasting.c:17-22 | the octant transform keeps both the squared distance and the Chebyshev distance of an offset (also lines 69-70) |
| FovShadow.PlaceIsometry | src/fov_recursive_shadowcasting.c:17-22 | the cell `(cx + dx*xx + dy*xy, cy + dx*yx + dy*yy)` is at the offset's squared and Chebyshev distance for every row of the multiplier table (also lines 69-70) |
| FovShadow.OctantsCover | src/fov_recursive_shadowcasting.c:35-38 | every cell other than the origin is reached by some octant, at the row equal to its Chebyshev distance and a column the row scan visits (also lines 61-70) |
| FovShadow.MajorY | src/fov_recursive_shadowcasting.c:61-70 | a cell whose vertical offset dominates is reached by one of the octants scanning along y |
| FovShadow.MajorX | src/fov_recursive_shadowcasting.c:61-70 | a cell whose horizontal offset dominates is reached by one of the octants scanning along x |
| FovShadow.CastLight | src/fov_recursive_shadowcasting.c:49-109 | nothing when start < end or the first row lies beyond the radius; otherwise every cell lit is on the grid, within the radius, OPEN unless walls are lit, and on a row between the first row and the radius |
| FovShadow.ScanRow | src/fov_recursive_shadowcasting.c:61-107 | the rest of the scan from row j lights only in-grid cells within the radius, OPEN unless walls are lit, on rows from the first row to the radius |
| FovShadow.ShadowLit | src/fov_recursive_shadowcasting.c:31-109 | the cells shadowcasting may mark: the origin and the in-grid cells within the radius that are OPEN or, when walls are lit, any |
| FovShadow.Shadow | src/fov_recursive_shadowcasting.c:31-43 | SUCCESS; the origin is marked and only markable cells change, only by the FOV bits; with radius 0 only the origin |
| FovRestrictive.OutcomeTrans | src/fov_restrictive.c:83 | a cell visited twice ends unchanged or in one of the outcomes of a single visit (also lines 92) |
| FovRestrictive.OutcomeSeen | src/fov_restrictive.c:83 | a visited cell ends SEEN exactly when walls are lit or it is OPEN, always ends MEMO, and keeps its OPEN bit (also lines 92) |
| FovRestrictive.OutcomeAlgebra | src/fov_restrictive.c:83 | setting SEEN and MEMO and then clearing SEEN absorb each other in any order and never change OPEN (also lines 92) |
| FovRestrictive.ClearSeenOfLit | src/fov_restrictive.c:83 | clearing SEEN after setting the FOV bits leaves MEMO set and SEEN clear (also lines 92) |
| FovRestrictive.MarksInTrans | src/fov_restrictive.c:57-96 | marks on one line compose: two partial scans of a line mark only cells of the combined range |
| FovRestrictive.MarksOnlyTrans | src/fov_restrictive.c:50-103 | marks on the ring compose across lines and quadrants |
| FovRestrictive.LineInRing | src/fov_restrictive.c:56-57 | the cells of line `iteration` scanned between player - iteration and player + iteration lie in the ring from `iteration` to the radius |
| FovRestrictive.ObstacleLoopIff | src/fov_restrictive.c:63-81 | the obstacle loop leaves the cell visible exactly when it has no obstacle to test, or no obstacle of the last line hides it (centre slope for an OPEN cell, whole interval for a wall) and the two cells toward the player on the previous line are not both neither SEEN nor OPEN |
| FovRestrictive.VisibleIff | src/fov_restrictive.c:63-82 | a cell is invisible exactly when the last line had obstacles, the cell is not yet SEEN, and the corner is shut or some obstacle hides it |
| FovRestrictive.VisitCell | src/fov_restrictive.c:59-95 | visiting a cell changes at most that cell, by one of the outcomes; an invisible cell changes nothing; at most one obstacle is added; the minimum angle never falls and stays inside the cell's slope interval |
| FovRestrictive.Reveal | src/fov_restrictive.c:83-93 | revealing a cell marks only it, adds at most one obstacle, and moves the minimum angle at most to the cell's end slope |
| FovRestrictive.RevealCell | src/fov_restrictive.c:83 | revealing a cell changes only that cell: an OPEN cell, or any cell when walls are lit, gains SEEN and MEMO; a wall with walls unlit gains MEMO and loses SEEN (also lines 92) |
| FovRestrictive.ScanLine | src/fov_restrictive.c:57-96 | the cells of one line change only within the scanned range, by the outcomes; at most one obstacle is added per cell; the minimum angle never falls |
| FovRestrictive.FirstCellBelow | src/fov_restrictive.c:55 | the first cell scanned on a line, `minAngle / slopesPerCell`, ends above the minimum angle (also lines 60-62) |
| FovRestrictive.Line | src/fov_restrictive.c:53-96 | one line changes only cells in the ring from its iteration to the radius, keeps the grid's shape, never lowers the minimum angle, and adds at most one obstacle per cell of the line |
| FovRestrictive.Lines | src/fov_restrictive.c:50-103 | the remaining lines change only cells in the ring, never lower the minimum angle, and add at most one obstacle per cell they scan |
| FovRestrictive.LinesCompose | src/fov_restrictive.c:50-103 | one line followed by the rest keeps the ring, the angle and the obstacle bounds |
| FovRestrictive.ObstacleStep | src/fov_restrictive.c:89-90 | the obstacle bound of one line plus that of the rest is the bound of the whole scan (also lines 99) |
| FovRestrictive.OctantScan | src/fov_restrictive.c:37-104 | one octant changes only cells in the ring up to the radius, and records no more obstacles than the map has cells |
| FovRestrictive.ObstacleRoom | src/fov_restrictive.c:89-90 | the obstacles an octant can record fit in an array of width * height entries |
| FovRestrictive.ObstacleArraysOverflow | src/fov_restrictive.c:194 | on a 2x2 map with an open cell and then a wall above the origin, the octant records one obstacle while its arrays, sized width * height / 7, hold none (also lines 43, 89-90) |
| FovRestrictive.Quadrant | src/fov_restrictive.c:33-173 | both octants of a quadrant change only cells in the ring around the player, by the outcomes |
| FovRestrictive.Restrictive | src/fov_restrictive.c:179-206 | OUT_OF_BOUNDS for an origin off the map and GENERIC for a radius of MAX_RADIUS or more, each leaving the grid alone; otherwise SUCCESS, the origin marked SEEN and MEMO, and every other changed cell within the radius ends with SEEN and MEMO added, except a wall with walls unlit, which ends with MEMO added and SEEN cleared |
| FovRestrictive.RestrictiveLit | src/fov_restrictive.c:179-206 | the cells the restrictive scan may leave SEEN: the origin, and the cells within the radius that are OPEN or, when walls are lit, any |
| FovRestrictive.RestrictiveSeen | src/fov_restrictive.c:179-206 | a cell that gains SEEN is the origin or, within the radius, OPEN or lit as a wall; a cell that changes ends with MEMO and keeps its OPEN bit (also lines 83, 92) |
| FovPermissive.ReverseSwapsSides | src/fov_permissive.c:13-18 | a line passes through both its end points, and reversing it negates the relative slope of every point, so below becomes above |
| FovPermissive.TransposeSwapsSides | src/fov_permissive.c:13-18 | swapping the coordinates of a line and of a point negates the relative slope, so below becomes above and colinear stays colinear |
| FovPermissive.WalkShallow | src/fov_permissive.c:113-120 | walking the steep bumps keeps the shallow line's far end, and its near end is either unchanged or one of the bumps |
| FovPermissive.WalkSteep | src/fov_permissive.c:137-144 | walking the shallow bumps keeps the steep line's far end, and its near end is either unchanged or one of the bumps |
| FovPermissive.WalkShallowStill | src/fov_permissive.c:113-120 | when no bump lies above the shallow line the walk leaves it unchanged |
| FovPermissive.WalkShallowMoves | src/fov_permissive.c:113-120 | when some bump lies above the shallow line the walk moves its near end onto a bump |
| FovPermissive.AddShallowBump | src/fov_permissive.c:104-121 | the shallow line now ends at the new bump, its near end is unchanged or a steep bump, the steep side is untouched, and the bump is pushed on the shallow bump chain |
| FovPermissive.AddSteepBump | src/fov_permissive.c:128-145 | the steep line now ends at the new bump, its near end is unchanged or a shallow bump, the shallow side is untouched, and the bump is pushed on the steep bump chain |
| FovPermissive.WalkMirror | src/fov_permissive.c:113-120 | the steep walk over transposed bumps is the transpose of the shallow walk (also lines 137-144) |
| FovPermissive.SteepBumpMirrorsShallow | src/fov_permissive.c:104-145 | adding a steep bump to the mirrored view is the mirror of adding the shallow bump |
| FovPermissive.Update | src/fov_permissive.c:200-224 | replacing one active view changes that view alone and keeps the list's size |
| FovPermissive.RemovedHolds | src/fov_permissive.c:162 | removing an active view leaves a list of views (also lines 203) |
| FovPermissive.InsertedHolds | src/fov_permissive.c:219 | inserting a copy of the current view puts it at the index and shifts the old view one place on |
| FovPermissive.CheckView | src/fov_permissive.c:152-166 | the view is kept exactly when its lines are not colinear through (0,1) or (1,0); a kept view leaves the list alone and a dropped one is removed at its index |
| FovPermissive.See | src/fov_permissive.c:195-196 | marking a cell SEEN changes only that cell and leaves it SEEN |
| FovPermissive.SeenBit | src/fov_permissive.c:195-196 | setting SEEN sets SEEN, keeps OPEN, and is idempotent |
| FovPermissive.SeenKeeps | src/fov_permissive.c:195-196 | setting SEEN never changes which cells are OPEN and never clears SEEN |
| FovPermissive.SeenChain | src/fov_permissive.c:80-88 | two passes that each set SEEN only on lit cells together set SEEN only on lit cells |
| FovPermissive.ChainCell | src/fov_permissive.c:195-196 | per cell, two SEEN passes compose into no change or one SEEN |
| FovPermissive.Reshape | src/fov_permissive.c:198-225 | after a wall reshapes the current view, the views remain a list, with at most one more entry, and the cursor stays inside it |
| FovPermissive.Visit | src/fov_permissive.c:171-226 | visiting a cell sets SEEN on that cell alone and only when it is OPEN or walls are lit; an OPEN cell leaves the views unchanged; a cell strictly between the current view's lines is marked |
| FovPermissive.QuadLit | src/fov_permissive.c:234-260 | a quadrant lights only cells inside its extent box that are OPEN or, with lit walls, any |
| FovPermissive.FirstCellInside | src/fov_permissive.c:237-238 | the first cell of a quadrant lies strictly between the initial shallow and steep lines |
| FovPermissive.AlongInBox | src/fov_permissive.c:190 | a cell at distance (x, y) inside the extent lies on the map and in the box |
| FovPermissive.VisitStep | src/fov_permissive.c:253-258 | a visit within the box keeps the quadrant's SEEN-only bound and never clears SEEN |
| FovPermissive.Step | src/fov_permissive.c:253-258 | one step of the inner loop keeps the bound, and the first step of a fresh quadrant with lit walls marks the cell beside the origin |
| FovPermissive.Row | src/fov_permissive.c:248-260 | one diagonal keeps the bound; with the guard as written and views present it changes nothing |
| FovPermissive.Quadrant | src/fov_permissive.c:234-261 | a quadrant sets SEEN only on lit cells in its box and never clears SEEN; as written it changes nothing; corrected, with lit walls, it marks the cell beside the origin |
| FovPermissive.Reach | src/fov_permissive.c:70-81 | the four extents stay on the map and are each the radius or the distance to the map's edge, the latter when the radius is 0 |
| FovPermissive.PermissiveLit | src/fov_permissive.c:63 | the lit cells are the origin and the cells on the map within the radius (any distance when it is 0) that are OPEN or, with lit walls, any (also lines 70-91) |
| FovPermissive.QuadInRange | src/fov_permissive.c:84-91 | each quadrant's far corner is on the map and its lit cells are lit for the whole call |
| FovPermissive.SeenWeaken | src/fov_permissive.c:80-88 | a SEEN-only bound holds for any larger set of lit cells |
| FovPermissive.Sweep | src/fov_permissive.c:84-91 | one quadrant keeps the call's SEEN-only bound and the marks already made |
| FovPermissive.Run | src/fov_permissive.c:56-96 | SUCCESS, the origin SEEN, and SEEN set only on lit cells; as written only the origin changes |
| FovPermissive.Permissive | src/fov_permissive.c:56-96 | the corrected inner guard: SUCCESS, the origin SEEN, SEEN set only on lit cells, and with lit walls the cell east of the origin SEEN |
| FovPermissive.PermissiveAsWritten | src/fov_permissive.c:56-96 | the inner loop never runs while views exist, so only the origin is marked and the cell east of it stays as it was (also lines 248-253) |
| List.PopAsWritten | src/list_t.c:64-70 | pop as written: since the size is never negative the `fsize >= 0` test always returns NULL, so no list is ever changed |
| List.PopAsWrittenNeverShrinks | src/list_t.c:64-70 | on every non-empty list the written pop keeps the size while the intended pop lowers it by one |
| List.GetAsWritten | src/list_t.c:90-95 | get as written: NULL only beyond the size; at the size it reads the slot there, or past the buffer when the buffer ends there |
| List.GetAtSizeOfEmptyListOverruns | src/list_t.c:90-95 | a read at index 0 of a fresh list reads past its empty buffer, where the intended get answers NULL (also lines 30-33) |
| List.GetAtSizeOfFullListOverruns | src/list_t.c:90-95 | a 16-slot list filled by `set` at slot 15 is read past its buffer at index 16 (also lines 39-46, 101-109) |
| List.GetAgreesOnCleanLists | src/list_t.c:90-95 | on a list whose unused slots are NULL and which has spare capacity, the written and intended gets agree at every index |
| List.SetCapacity | src/list_t.c:104-105 | the growth loop in `set` ends with a capacity above the index, never below the old one, and unchanged when it already fits |
| List.ShiftRight | src/list_t.c:145-147 | the insertion loop moves the elements from `before` to the size one place right and keeps every other slot |
| List.ShiftLeft | src/list_t.c:195-197 | the removal loop moves the elements after the iterator one place left and keeps every other slot |
| PathMap.StepGuardAdmitsOverrun | src/path_astar.c:191-196 | the guard `p > MAX_PATHS` lets `p == MAX_PATHS` through, and the read that follows is past the path-map array (also src/dijkstra.c:145) |
| PathMap.Seen | src/path_astar.c:200-210 | a neighbour is a candidate exactly when it is on the map and its stored value is not skipped, and the candidate's value is the stored one |
| DijkstraMap.WipeReadAsWritten | src/dijkstra.c:191-204 | `path_wipe_map` as written: NO_MAP for an invalid map; otherwise it reads `path_map[p]` for any p, with no bound check |
| DijkstraMap.WipeOverruns | src/dijkstra.c:197 | on a valid map, wiping slot MAX_PATHS reads past the path-map array |
| DijkstraMap.WipeAgrees | src/dijkstra.c:197 | the written wipe reads past the array exactly for slots at or above MAX_PATHS, and is the intended wipe below |
| AstarOpen.Rank | src/path_astar.c:484-497 | the position a pushed node settles at: every node below it costs at least as much, and the node at it costs less |
| AstarOpen.Ins | src/path_astar.c:484-497 | inserting at a position keeps the nodes below it, puts the node there, and shifts the rest up by one |
| AstarOpen.Bubble | src/path_astar.c:484-497 | the swap pass is a permutation of the open set |
| AstarOpen.PopOpen | src/path_astar.c:505-511 | pop returns the top node, and the open set is the rest followed by that node |
| AstarOpen.IndexOf | src/path_astar.c:577-581 | the search for a node stops at its first occurrence, or at the end when it is absent |
| PathAstar.Reopen | src/path_astar.c:544-556 | re-opening a node re-links it to the parent, takes it out of the open set when it was open, and pushes it back at its new cost |
| PathAstar.Run | src/path_astar.c:426-444 | the search loop ends either on the goal node at (dx, dy), only when not filling, or with an empty open set; the search stays well formed |
| Rlfl.HasFlag | src/rlfl.c:230-246 | NO_MAP for an invalid map, otherwise the answer of `has_flag` on that map |
| Rlfl.BlankGrid | src/rlfl.c:114-120 | a new map has the requested size, every cell 0 and no path maps |
| Project.ReadSteps | src/project.c:117-123 | the steps read from a path slot are its stored steps, in order, none beyond its size, and none for an empty slot |
| Dijkstra.Place | src/dijkstra.c:244-264 | placing an index after a walked position puts it right after that position, and the walk ends on it |
| Dijkstra.Target | src/dijkstra.c:289 | the flat index of an in-grid neighbour lies below `w*h` |
| Grid.ApplyAll | src/rlfl.c:299-305 | the loop over all cells applies the fill or clear to each cell and keeps their number |

## Left out

- Dijkstra.Relaxation: the scan takes a `fuel` bound on its rounds, and running out is an outcome the C does not have. No lemma shows that some amount of fuel always suffices, because with a negative surcharge on `real` distances the rounds need not be bounded by the cell count.
- DijkstraMap.FillMap: inherits that `fuel`. A run out of fuel returns GENERIC and changes nothing. Every distance guarantee holds only for runs that finish.
- DijkstraMap.FillMap: the distance guarantee is one-sided. A cell `n` allowed moves from the goal holds at most `n`, and only for a surcharge of at most 0. There is no matching lower bound (that a stored value `v` is reached by a `v`-move walk), and no bound at all for a positive surcharge such as 0.7 or 10.0.
- PathAstar.PathAstar: the search takes a `fuel` bound on its rounds; running out returns GENERIC and changes nothing. No lemma bounds the rounds by `width * height`.
- PathAstar.PathAstar: only soundness is proved. A route it returns is a valid king-move walk over passable cells from origin to destination. It is not proved that a route is found whenever one exists.
- DijkstraMap.FillMap: the `safety` remap `d' = -3.5*50*d/(50+d)` (src/dijkstra.c:80-96) and its cast to `unsigned` are float semantics and are not modelled. The model is the `safety == false` map.
- Distances in `dijkstra.c` and the slopes of the recursive shadowcasting and restrictive algorithms are C `float`/`double`. They are modelled as exact `real` values, and the final truncation to `int` as `Util.Trunc`. IEEE rounding is not modelled.
- Handles and coordinates are `unsigned int` in the C. A negative argument wraps to a huge value that every range check refuses, so the model treats negative handles and coordinates as out of range and never reads `store[p]` for `p < 0`.
- Allocation never fails: every `calloc`/`malloc` failure branch (for example src/dijkstra.c:63-65) is left out, together with the matching `free` calls.
- The legacy `RLF_path_basic` store (its own `MAX_PATH` 12 and `RLF_` accessors) is folded into the `RLFL` path registry. The line walker, the stop rules and the stored record are modelled as written.
- The legacy `RLF_` names of the recursive shadowcasting and permissive algorithms are bound to the registry map the dispatcher passes them. Their unchecked accessors are modelled by the dispatcher's checks, and so FovShadow.Shadow and FovDiamond.Diamond require an origin on the map, as every caller guarantees.
- `RLFL_list_extend`, `RLFL_list_begin`, `RLFL_list_end` and `RLFL_list_delete` (src/list_t.c:76-84, 115-133, 178-184) have no caller in the modelled core: they are iterator plumbing and freeing.
- List.RemoveAt requires an iterator inside the list, as every caller passes one. An iterator outside it is address arithmetic with no model.
- The permissive algorithm's preallocated `views` and `bumps` arrays (src/fov_permissive.c:65-67) are modelled as unbounded sequences, so the model says nothing about their capacity.
- FovPermissive.Permissive: the contract is an upper bound. SEEN is set only on cells in the extents that are OPEN, or any cell with lit walls; the origin is marked; so is the first cell of the first quadrant. That exactly the permissive-visible cells are marked is not stated.
- FovDispatch.FieldOfView: `max_radius_x * max_radius_x` (src/rlfl.c:535) cannot overflow `int` for maps below the 5000-cell size limit, so it is modelled as unbounded arithmetic. `sqrt` of that integer followed by the `int` cast is `Util.ISqrt`.
- FovDispatch.FieldOfView: the `Visible` relation is stated on the grid after the dispatcher's clear of SEEN and LIT, which is the grid the algorithm sees.
- `RLFL_scatter` (src/rlfl.c:375-431) depends on a random generator and on `los.c`, which is not part of this model.
- `src/rlftopy.c` (the Python bindings) and the debug printers in `path_astar.c` and `dijkstra.c` are I/O and a foreign-call layer.
- `src/rlf.c` and `src/path_astar2.c` are legacy variants outside the build.
- The projection radius bookkeeping `gm[32]` (src/project.c:79, 400) is not modelled. The model gives the cone's ring geometry.
- Project.RadInt: the C computes `brev = rad * rad / dist` (src/project.c:344) and `brad = rad * (path_index + brev) / (dist + brev)` (src/project.c:403) in signed `int`; both overflow once rad is above 46340 or below -46340, and such radii also run past the end of `gm`. The model accepts any 32-bit radius and computes these in unbounded integers, so it does not model that overflow or overrun.
- Project.ProjectStep: it reads the cell through the intended `get` (List.Get), where project_step calls the one as written (src/project.c:233). Projection lists are built only by `append`, which keeps the slot just past the elements a NULL inside the buffer, so the two reads agree on every list the model stores.
- Project.Project: when a cone goes astray to projection slot 0, a NULL entry of that list is read as absent by Project.Present, where the C would dereference it in add_step (src/project.c:207-209); the model states only which cells the list holds afterwards, not where duplicates already in it end up.
- Rlfl.PathStep: it reads the step through the intended `get` (List.Get), where path_step calls the one as written (src/rlfl.c:500). The two agree on clean lists with spare capacity (List.GetAgreesOnCleanLists), which is what `append` builds, but State.Valid does not carry that invariant for stored paths, so a read at index `size` of a stored path whose list is full is not modelled as the overrun it would be.
- `RLFL_path_fill_map_custom` (src/dijkstra.c:106-110) returns SUCCESS and does nothing.
- The second registry test in `RLFL_path_fill_map` (src/dijkstra.c:60-61, FLAG when `pm >= MAX_PATHS`) is dead code after the NO_PATH test above it, and is not modelled.
- The globals the C algorithms share (`PATH`, `current_view`, `bumps`, the restrictive angle arrays) are explicit values in the model.
- The A\* estimate cache (src/path_astar.c:602-605) is left out. PathAstar.EstimateCacheTransparent shows that it never changes a cost.

## Findings

| source | as written | input that shows it | evidently intended | confidence | as-written member | corrected member |
|---|---|---|---|---|---|---|
| src/list_t.c:67-69 | `pop` returns NULL whenever `fsize >= 0`, which is always, so it never removes anything | any list after one `append` | return NULL only for an empty list; otherwise remove and return the last element | high; not executed | List.PopAsWritten, List.PopAsWrittenNeverShrinks | List.Pop, List.PopAfterAppend |
| src/list_t.c:92-94 | `get` refuses only `index > fsize`, so it reads `data[fsize]` | a 16-slot list filled by `set(15)`, read at index 16: past the buffer | refuse `index >= fsize` | high; not executed | List.GetAsWritten, List.GetAtSizeOfFullListOverruns | List.Get, List.GetAgreesOnCleanLists |
| src/path_astar.c:191, src/dijkstra.c:145 | the slot guard `p > MAX_PATHS` admits `p == MAX_PATHS` | `path_step_map` with p = 16 reads `path_map[16]`, past the array | `p >= MAX_PATHS` | high; not executed | PathMap.ReadSlotAsWritten, PathMap.StepGuardAdmitsOverrun | PathMap.PathSlot, PathMap.StepGuardAgrees |
| src/dijkstra.c:197-200 | `path_wipe_map` indexes `path_map[p]` with no bound check | `path_wipe_map(m, 16)` on a valid map | a slot at or above MAX_PATHS is left alone | high; not executed | DijkstraMap.WipeReadAsWritten, DijkstraMap.WipeOverruns | DijkstraMap.WipeMap, DijkstraMap.WipeAgrees |
| src/fov_restrictive.c:43, 89-90, 194 | the obstacle arrays hold `width * height / 7` entries | a 2x2 map, origin (0, 0), (0, 1) open, (1, 1) a wall: `maxObstacles` is 0 and the first octant records one obstacle | arrays that can hold every obstacle an octant records, for example `width * height` entries | high; not executed | FovRestrictive.ObstacleArraysOverflow | FovRestrictive.ObstacleRoom, FovRestrictive.OctantScan |
| src/rlfl.c:652, 679 | `project_wave` and `project_cloud` pass the target (-1, -1), which as `unsigned int` is off every map | any wave or cloud on a valid map with a free projection slot: OUT_OF_BOUNDS | the target is the origin itself | medium; not executed | Project.ProjectWaveAsWritten, Project.ProjectCloudAsWritten | Project.ProjectWave, Project.ProjectCloud |
| src/dijkstra.c:289, 299-300 | the neighbour is found by adding the flat offset `dx + w*dy`, with no 2-D bound check | on a 2-wide map the east neighbour of (1, 0) is read as (0, 1); the north neighbour of a top-row cell is read before the link array | consider only neighbours on the map | high; not executed | Dijkstra.FlatNeighbourWraps, Dijkstra.FlatNeighbourUnderflows | Dijkstra.FlatNeighbourAgrees, Dijkstra.TargetIsNeighbour |
| src/rlfl.c:449, src/path_basic.c:240 | `path_create` with PATH_BASIC returns `path_basic`'s SUCCESS, 0, instead of the slot | slot 0 holds a path; the new basic path goes to slot 1, and handle 0 still names the old path | return the slot the path was stored in | high; not executed | Rlfl.PathCreate, Rlfl.BasicHandleIsStale | Rlfl.PathCreateIntended |
| src/project.c:114-123, 190 | `project` follows and then deletes path handle `path_n`, which is 0 (see the row above) | slot 0 holds an older path: the projection follows that path, deletes it, and leaves the new path stored | follow and delete the path just traced | high; not executed | Project.Project, Project.FinishStale | Project.ProjectIntended |
| src/project.c:394 | `breath_shape` hands `add_step` the path handle `path_n`, which is 0, so the cone's cells go to projection slot 0 | projection slot 0 is taken, PROJECT_CONE, a beam longer than the radius: the new projection holds origin and beam only, and the list in slot 0 gains the cone | add the cells to the new projection `project_n` | high; not executed | Project.Project, Project.ConeMisroutedCells, Project.ConeOnto | Project.ProjectIntended |
| src/rlfl.c:104-133, 166-169 | `new_map` accepts a width of 0, and `translate_xy` computes `index % width` and `index / width` | `new_map(0, 1)`, then `translate_xy` on its handle: a division by zero | report an error for a map of width 0 | medium; not executed | Rlfl.TranslateXYAsWritten, Rlfl.ZeroWidthDividesByZero | Rlfl.TranslateXY |
| src/fov_permissive.c:252 | the inner loop runs only while `!RLF_list_size(active_views)`, which is false whenever a view is active | any call: only the origin gets SEEN | loop while views remain | high; not executed | FovPermissive.PermissiveAsWritten | FovPermissive.Permissive |
| src/rlfl.c:530-537 | radius 0 becomes `sqrt(mx*mx + my*my) + 1` and is passed on with no cap | a 100x100 map: the radius is at least 60 (MAX_RADIUS), and circular, digital and restrictive return GENERIC after the map was cleared | a whole-map radius that the algorithms accept, at most MAX_RADIUS - 1 | medium; not executed | FovDispatch.FieldOfViewAsWritten, FovDispatch.WholeMapRadiusRejected | FovDispatch.FieldOfView |
