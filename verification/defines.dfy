/**
 * The library's constants: registry sizes and limits (with the values the
 * extension build passes on the compiler command line), status codes, the
 * sixteen cell bits, the projection flags and the algorithm selectors.
 */
module Defines {

  // Limits. The header defaults the three registries to 12 slots; the
  // extension build overrides all limits, and those build values are used here.
  const MAX_MAPS: nat := 16
  const MAX_PATHS: nat := 16
  const MAX_PROJECTS: nat := 16
  const MAX_RANGE: int := 60
  const MAX_RADIUS: int := 60
  const MAX_WIDTH: nat := 5000
  const MAX_HEIGHT: nat := 5000

  // Status codes.
  const SUCCESS: int := 0
  const ERR_GENERIC: int := -1
  const ERR_NO_MAP: int := -2
  const ERR_FLAG: int := -3
  const ERR_NO_PATH: int := -4
  const ERR_OUT_OF_BOUNDS: int := -5
  const ERR_NO_PROJECTION: int := -6
  const ERR_SIZE: int := -7

  const StatusCodes: seq<int> :=
    [SUCCESS, ERR_GENERIC, ERR_NO_MAP, ERR_FLAG, ERR_NO_PATH, ERR_OUT_OF_BOUNDS, ERR_NO_PROJECTION, ERR_SIZE]

  // Cell bits: one 16-bit mask per cell.
  const CELL_NONE: bv16 := 0x0000
  const CELL_DARK: bv16 := 0x0001
  const CELL_OPEN: bv16 := 0x0002
  const CELL_VIEW: bv16 := 0x0004
  const CELL_LIT: bv16 := 0x0008
  const CELL_WALK: bv16 := 0x0010
  const CELL_MEMO: bv16 := 0x0020
  const CELL_SEEN: bv16 := 0x0040
  const CELL_ROOM: bv16 := 0x0080
  const CELL_GLOW: bv16 := 0x0100
  const CELL_PATH: bv16 := 0x0200
  const CELL_OCUP: bv16 := 0x0400
  const CELL_REFL: bv16 := 0x0800
  const CELL_PERM: bv16 := 0x1000
  const CELL_GOAL: bv16 := 0x2000
  const CELL_PASS: bv16 := 0x4000
  const CELL_MARK: bv16 := 0x8000
  const CELL_FOV: bv16 := CELL_SEEN | CELL_MEMO
  const CELL_MASK: bv16 :=
    CELL_DARK | CELL_OPEN | CELL_VIEW | CELL_LIT | CELL_WALK | CELL_MEMO
    | CELL_SEEN | CELL_ROOM | CELL_GLOW | CELL_PATH | CELL_OCUP | CELL_REFL
    | CELL_PERM | CELL_PASS | CELL_MARK

  /** The named cell bits in declaration order. */
  const CellBits: seq<bv16> :=
    [CELL_DARK, CELL_OPEN, CELL_VIEW, CELL_LIT, CELL_WALK, CELL_MEMO, CELL_SEEN, CELL_ROOM,
     CELL_GLOW, CELL_PATH, CELL_OCUP, CELL_REFL, CELL_PERM, CELL_GOAL, CELL_PASS, CELL_MARK]

  // Projection flags.
  const PROJECT_NONE: bv16 := 0x0000
  const PROJECT_BEAM: bv16 := 0x0001
  const PROJECT_STOP: bv16 := 0x0002
  const PROJECT_BALL: bv16 := 0x0004
  const PROJECT_CONE: bv16 := 0x0008
  const PROJECT_JUMP: bv16 := 0x0010
  const PROJECT_THRU: bv16 := 0x0020
  const PROJECT_WAVE: bv16 := 0x0040
  const PROJECT_REVR: bv16 := 0x0080
  const PROJECT_PASS: bv16 := 0x0100
  const PROJECT_SHEL: bv16 := 0x0200
  const PROJECT_DIAMOND: bv16 := 0x0400
  const PROJECT_SQUARE: bv16 := 0x0800

  // Path maps.
  const PATH_IMPASSIBLE: int := -1
  const PATH_UNKNOWN: int := 50000
  const MAX_DISTANCE: int := 300

  // Algorithm selectors.
  const FOV_CIRCULAR: int := 1
  const FOV_DIAMOND: int := 2
  const FOV_SHADOW: int := 3
  const FOV_DIGITAL: int := 4
  const FOV_RESTRICTIVE: int := 5
  const FOV_PERMISSIVE: int := 6
  const PATH_BASIC: int := 1
  const PATH_ASTAR: int := 2

  /** The i-th named cell bit is bit i. */
  lemma CellBitsAreSingleBits()
    ensures |CellBits| == 16
    ensures forall i :: 0 <= i < |CellBits| ==> CellBits[i] == (1 as bv16) << i
  {
  }

  /** No two named cell bits are the same bit. */
  lemma CellBitsAreDistinct()
    ensures forall i, j :: 0 <= i < j < |CellBits| ==> CellBits[i] != CellBits[j]
  {
  }

  /** The FOV mark is exactly SEEN and MEMO. */
  lemma FovIsSeenAndMemo()
    ensures CELL_FOV == 0x0060
    ensures CELL_FOV & CELL_SEEN == CELL_SEEN && CELL_FOV & CELL_MEMO == CELL_MEMO
    ensures forall b :: b in CellBits && b != CELL_SEEN && b != CELL_MEMO ==> CELL_FOV & b == 0
  {
  }

  /** The mask covers every named bit except GOAL. */
  lemma MaskIsAllButGoal()
    ensures CELL_MASK == 0xDFFF
    ensures CELL_MASK & CELL_GOAL == 0
    ensures forall b :: b in CellBits && b != CELL_GOAL ==> CELL_MASK & b == b
  {
  }

  /** SUCCESS is zero, every error is negative, and the codes are pairwise distinct. */
  lemma StatusCodesDistinct()
    ensures StatusCodes[0] == 0
    ensures forall i :: 1 <= i < |StatusCodes| ==> StatusCodes[i] < 0
    ensures forall i, j :: 0 <= i < j < |StatusCodes| ==> StatusCodes[i] != StatusCodes[j]
  {
  }

  /** An unreached distance can never be below the frontier's seeding bound. */
  lemma UnknownBeyondMaxDistance()
    ensures PATH_UNKNOWN > MAX_DISTANCE > 0
    ensures PATH_IMPASSIBLE < 0
  {
  }
}
