/** The colour grid: palette, cells, coordinates and the initial fill. */
module Board {

  const GridSize := 10

  /** The four colour tokens of the palette. */
  datatype Color = Red | Green | Blue | Yellow

  datatype Option<T> = None | Some(value: T)

  /** A cell's colour is `None` only between clearing and gravity. */
  datatype Cell = Cell(color: Option<Color>, isSelected: bool)

  /** A coordinate: `x` is the column, `y` the row (0 is the top row). */
  datatype Pos = Pos(x: int, y: int)

  /** Rows indexed by `y`, each row indexed by `x`. */
  type Grid = seq<seq<Cell>>

  predicate IsGrid(g: Grid)
  {
    |g| == GridSize && forall y :: 0 <= y < GridSize ==> |g[y]| == GridSize
  }

  predicate InGrid(p: Pos)
  {
    0 <= p.x < GridSize && 0 <= p.y < GridSize
  }

  /** No cell is flagged as selected. */
  predicate Unflagged(g: Grid)
    requires IsGrid(g)
  {
    forall y, x :: 0 <= y < GridSize && 0 <= x < GridSize ==> !g[y][x].isSelected
  }

  /** The steady state between clicks: every cell coloured, none flagged. */
  predicate Settled(g: Grid)
    requires IsGrid(g)
  {
    Unflagged(g) && forall y, x :: 0 <= y < GridSize && 0 <= x < GridSize ==> g[y][x].color.Some?
  }

  /** A fresh grid, filled row by row from a supply of drawn colours:
      the cell at (x, y) takes draw number `y * GridSize + x`. */
  function GenerateEmptyGrid(draws: nat -> Color): (g: Grid)
    ensures IsGrid(g) && Settled(g)
    ensures forall y, x :: 0 <= y < GridSize && 0 <= x < GridSize ==> g[y][x].color == Some(draws(y * GridSize + x))
  {
    seq(GridSize, y requires 0 <= y < GridSize => seq(GridSize, x requires 0 <= x < GridSize => Cell(Some(draws(y * GridSize + x)), false)))
  }
}
