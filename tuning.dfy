/** The window and tuning constants of the game (sketch.js:9-33, 156, 188-190).
    Coordinates are `real`: the game's arithmetic is modelled exactly, without
    floating-point rounding. */
module Tuning {

  /** Canvas size; p5's `width` and `height` are these two. */
  const W: real := 480.0
  const H: real := 640.0

  /** Added to the vertical velocity on every running frame. */
  const GRAVITY: real := 0.55
  /** The vertical velocity a flap sets (negative is upwards). */
  const LIFT: real := -8.6
  /** How far every column moves to the left per frame. */
  const SCROLL: real := 3.2
  /** Width of a column. */
  const COL_W: real := 90.0
  /** Frames between two spawned columns. */
  const SPAWN: int := 95

  /** Range of the random gap height: `random(MIN_GAP_H, MAX_GAP_H)`, truncated. */
  const MIN_GAP_H: int := 140
  const MAX_GAP_H: int := 210

  /** Teeth per row, how far a tooth reaches into the gap, and its side inset. */
  const TEETH_COUNT: nat := 3
  const TOOTH_LEN: real := 20.0
  const TOOTH_INSET: real := 8.0

  /** Height of the ground band, `groundH()`. */
  const GROUND_H: real := 80.0
  /** The bird's radius `br`, never reassigned. */
  const BR: real := 20.0

  /** The column constructor's `margin`, and the extra offset of the lowest gap top. */
  const MARGIN: real := 50.0
  const GAP_OFFSET: real := 40.0

  /** The bird's fixed horizontal position and its start height (`resetGame`). */
  const BX_START: real := W * 0.30
  const BY_START: real := H * 0.50

  /** `cellW` and `baseInset` of `buildTeeth`: the column is cut into TEETH_COUNT
      cells (at least one), and a tooth is inset by TOOTH_INSET but by no more than
      35% of its cell. */
  const CELL_W: real := COL_W / (if 1 > TEETH_COUNT then 1 else TEETH_COUNT) as real
  const BASE_INSET: real := if TOOTH_INSET < CELL_W * 0.35 then TOOTH_INSET else CELL_W * 0.35
}
