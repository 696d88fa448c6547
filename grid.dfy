/**
 * The playing field: a 640x480 pixel screen cut into 20-pixel cells (a 32x24 grid).
 * Positions are pixel coordinates of a cell's top-left corner, so a cell on the
 * grid has both coordinates multiples of the cell size. Moving off one edge
 * re-enters at the opposite edge (the field is a torus).
 */
module Grid {

  const ScreenWidth: int := 640
  const ScreenHeight: int := 480
  const GridSize: int := 20
  const GridWidth: int := ScreenWidth / GridSize
  const GridHeight: int := ScreenHeight / GridSize

  /** A position in pixels, (x, y), with y growing downwards. */
  type Cell = (int, int)

  /** The cell the snake starts in and is reset to: the middle of the screen. */
  const Center: Cell := (ScreenWidth / 2, ScreenHeight / 2)

  /** A grid-aligned cell inside the screen. */
  predicate OnGrid(c: Cell) {
    && 0 <= c.0 < ScreenWidth && c.0 % GridSize == 0
    && 0 <= c.1 < ScreenHeight && c.1 % GridSize == 0
  }

  datatype Direction = Up | Down | Left | Right

  /** The unit vector of a direction, in cells. */
  function Vector(d: Direction): (int, int) {
    match d
    case Up => (0, -1)
    case Down => (0, 1)
    case Left => (-1, 0)
    case Right => (1, 0)
  }

  /** The direction that would turn the snake back onto itself. */
  function Opposite(d: Direction): (r: Direction)
    ensures r != d
    ensures Vector(r) == (-Vector(d).0, -Vector(d).1)
  {
    match d
    case Up => Down
    case Down => Up
    case Left => Right
    case Right => Left
  }

  /**
   * The cell one step from `head` in direction `d`, wrapping around the
   * screen. Python's `%` by a positive modulus is never negative, and
   * neither is Dafny's, so the operator is the same here.
   */
  function Advance(head: Cell, d: Direction): (r: Cell)
    ensures 0 <= r.0 < ScreenWidth && 0 <= r.1 < ScreenHeight
    ensures OnGrid(head) && d == Right ==>
      r == (if head.0 == ScreenWidth - GridSize then 0 else head.0 + GridSize, head.1)
    ensures OnGrid(head) && d == Left ==>
      r == (if head.0 == 0 then ScreenWidth - GridSize else head.0 - GridSize, head.1)
    ensures OnGrid(head) && d == Down ==>
      r == (head.0, if head.1 == ScreenHeight - GridSize then 0 else head.1 + GridSize)
    ensures OnGrid(head) && d == Up ==>
      r == (head.0, if head.1 == 0 then ScreenHeight - GridSize else head.1 - GridSize)
    ensures OnGrid(head) ==> OnGrid(r) && r != head
  {
    var (x, y) := Vector(d);
    ((head.0 + x * GridSize) % ScreenWidth, (head.1 + y * GridSize) % ScreenHeight)
  }

  /** Opposite is an involution. */
  lemma OppositeInvolutive(d: Direction)
    ensures Opposite(Opposite(d)) == d
  {
  }

  /** A step followed by a step in the opposite direction comes back to the start. */
  lemma AdvanceThenBack(head: Cell, d: Direction)
    requires OnGrid(head)
    ensures Advance(Advance(head, d), Opposite(d)) == head
  {
    var next := Advance(head, d);
    assert OnGrid(next);
  }

  /** From one aligned cell, different directions lead to different cells (the grid is at least three cells wide and high). */
  lemma AdvanceDistinct(c: Cell, d1: Direction, d2: Direction)
    requires OnGrid(c) && d1 != d2
    ensures Advance(c, d1) != Advance(c, d2)
  {
  }

  /** `a` is one step from `b` in some direction. */
  predicate Adjacent(a: Cell, b: Cell) {
    a == Advance(b, Up) || a == Advance(b, Down) || a == Advance(b, Left) || a == Advance(b, Right)
  }

}
