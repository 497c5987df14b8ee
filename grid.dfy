/** The playing field of the snake game: a toroidal board of WIDTH x HEIGHT
    pixels, quantised into square cells of GRID_SIZE pixels. A cell is named by
    the pixel coordinate of its top-left corner, and a move goes one cell in one
    of four directions, re-entering at the opposite edge when it leaves the
    board. */
module Grid {

  const WIDTH: int := 900
  const HEIGHT: int := 700
  const GRID_SIZE: int := 25

  /** Number of cell columns and rows on the board. */
  const COLS: int := WIDTH / GRID_SIZE
  const ROWS: int := HEIGHT / GRID_SIZE

  /** A pixel coordinate (x, y); the cells the game uses are grid-aligned. */
  type Cell = (int, int)

  /** The four travel directions, each a unit vector (Dx, Dy) with y growing
      downwards. */
  datatype Direction = Up | Down | Left | Right {

    function Dx(): int {
      match this
      case Left => -1
      case Right => 1
      case _ => 0
    }

    function Dy(): int {
      match this
      case Up => -1
      case Down => 1
      case _ => 0
    }

    /** The exact reverse of this direction. */
    function Opposite(): (o: Direction)
      ensures o.Dx() == -Dx() && o.Dy() == -Dy()
      ensures o != this
    {
      match this
      case Up => Down
      case Down => Up
      case Left => Right
      case Right => Left
    }
  }

  /** A pixel coordinate inside the board. */
  predicate OnBoard(c: Cell) {
    0 <= c.0 < WIDTH && 0 <= c.1 < HEIGHT
  }

  /** A grid-aligned cell inside the board. */
  predicate OnGrid(c: Cell) {
    OnBoard(c) && c.0 % GRID_SIZE == 0 && c.1 % GRID_SIZE == 0
  }

  /** One move of GRID_SIZE pixels in direction d, both coordinates reduced
      modulo the board size. The modulus is never negative, as with Python's
      % in game.py, so the result always lies on the board. */
  function Step(c: Cell, d: Direction): (r: Cell)
    ensures OnBoard(r)
  {
    ((c.0 + d.Dx() * GRID_SIZE) % WIDTH, (c.1 + d.Dy() * GRID_SIZE) % HEIGHT)
  }

  /** Reference definition of moving off an edge: a coordinate that has left
      [0, bound) by less than one board re-enters from the opposite edge. */
  function Wrap(v: int, bound: int): int {
    if v < 0 then v + bound else if v >= bound then v - bound else v
  }

  lemma {:induction false} ModIsWrap(v: int, bound: int)
    requires 0 < bound && -bound <= v < 2 * bound
    ensures v % bound == Wrap(v, bound)
  {
    if v < 0 {
      assert v == bound * (-1) + (v + bound);
    } else if v >= bound {
      assert v == bound * 1 + (v - bound);
    } else {
      assert v == bound * 0 + v;
    }
  }

  /** On the board, a step is the plain move of one cell, except that leaving
      one edge re-enters at the other: (875, y) moving Right goes to (0, y). */
  lemma StepWraps(c: Cell, d: Direction)
    requires OnBoard(c)
    ensures Step(c, d) == (Wrap(c.0 + d.Dx() * GRID_SIZE, WIDTH), Wrap(c.1 + d.Dy() * GRID_SIZE, HEIGHT))
  {
    ModIsWrap(c.0 + d.Dx() * GRID_SIZE, WIDTH);
    ModIsWrap(c.1 + d.Dy() * GRID_SIZE, HEIGHT);
  }

  lemma WrapAtRightEdge()
    ensures Step((875, 350), Right) == (0, 350)
  {
  }

  /** A step keeps a grid-aligned cell grid-aligned. */
  lemma StepOnGrid(c: Cell, d: Direction)
    requires OnGrid(c)
    ensures OnGrid(Step(c, d))
  {
    StepWraps(c, d);
  }

  /** A step always leaves the cell it starts from. */
  lemma StepMoves(c: Cell, d: Direction)
    requires OnBoard(c)
    ensures Step(c, d) != c
  {
    StepWraps(c, d);
  }

  /** Stepping back in the opposite direction undoes a step. */
  lemma StepInverse(c: Cell, d: Direction)
    requires OnBoard(c)
    ensures Step(Step(c, d), d.Opposite()) == c
  {
    StepWraps(c, d);
    StepWraps(Step(c, d), d.Opposite());
  }

  /** a is one step away from b in some direction. */
  predicate Adjacent(a: Cell, b: Cell) {
    a == Step(b, Up) || a == Step(b, Down) || a == Step(b, Left) || a == Step(b, Right)
  }
}
