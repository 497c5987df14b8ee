/** The fruit: one grid cell, redrawn at random over the whole board. The
    random column and row are given to the model as arguments. */
module Fruits {
  import opened Grid

  /** The pixel cell of column col and row row. */
  function FruitCell(col: int, row: int): (r: Cell)
    requires 0 <= col < COLS && 0 <= row < ROWS
    ensures OnGrid(r)
    ensures r.0 / GRID_SIZE == col && r.1 / GRID_SIZE == row
  {
    (col * GRID_SIZE, row * GRID_SIZE)
  }

  /** Every grid cell of the board can be drawn, whatever lies on it: nothing
      keeps the fruit off the snake. */
  lemma FruitCellCovers(c: Cell)
    requires OnGrid(c)
    ensures 0 <= c.0 / GRID_SIZE < COLS && 0 <= c.1 / GRID_SIZE < ROWS
    ensures FruitCell(c.0 / GRID_SIZE, c.1 / GRID_SIZE) == c
  {
  }

  class Fruit {
    var position: Cell

    ghost predicate Valid()
      reads this
    {
      OnGrid(position)
    }

    /** Starts at (0, 0) and is redrawn at once. */
    constructor (col: int, row: int)
      requires 0 <= col < COLS && 0 <= row < ROWS
      ensures Valid()
      ensures position == FruitCell(col, row)
    {
      position := (0, 0);
      new;
      RandomizePosition(col, row);
    }

    method RandomizePosition(col: int, row: int)
      requires 0 <= col < COLS && 0 <= row < ROWS
      modifies this
      ensures Valid()
      ensures position == FruitCell(col, row)
    {
      position := (col * GRID_SIZE, row * GRID_SIZE);
    }
  }
}
