/** Gravity: each column's coloured cells fall to the bottom, keeping their
    order, and the rows left above are refilled with freshly drawn colours.
    The colour draws are a supply `draws`: the k-th draw of one gravity pass
    is `draws(k)`; columns are processed left to right, each refilled from
    its lowest empty row upwards. */
module GravityCompaction {
  import opened Common
  import opened Board

  predicate IsColored(c: Cell)
  {
    c.color.Some?
  }

  /** Column `x` read from the bottom row up. */
  function Column(g: Grid, x: int): seq<Cell>
    requires IsGrid(g) && 0 <= x < GridSize
  {
    seq(GridSize, i requires 0 <= i < GridSize => g[GridSize - 1 - i][x])
  }

  lemma ColumnAt(g: Grid, x: int, i: int)
    requires IsGrid(g) && 0 <= x < GridSize && 0 <= i < GridSize
    ensures |Column(g, x)| == GridSize && Column(g, x)[i] == g[GridSize - 1 - i][x]
  {
  }

  /** The coloured cells of a column, bottom to top. */
  function Remaining(col: seq<Cell>): seq<Cell>
  {
    Filter(col, IsColored)
  }

  /** How many colours a column draws: one per cleared cell. */
  function DrawsFor(col: seq<Cell>): nat
    requires |col| == GridSize
  {
    GridSize - |Remaining(col)|
  }

  /** Draws taken by the columns left of `x`. */
  function Consumed(g: Grid, x: int): nat
    requires IsGrid(g) && 0 <= x <= GridSize
  {
    if x == 0 then 0 else Consumed(g, x - 1) + DrawsFor(Column(g, x - 1))
  }

  /** Cells `kept` at the bottom, topped up to a full column with fresh
      unselected cells coloured by the draws from number `base` on. */
  function Refill(kept: seq<Cell>, draws: nat -> Color, base: nat): seq<Cell>
    requires |kept| <= GridSize
  {
    kept + seq(GridSize - |kept|, j requires 0 <= j => Cell(Some(draws(base + j)), false))
  }

  /** A column after gravity, bottom to top. */
  function FilledColumn(col: seq<Cell>, draws: nat -> Color, base: nat): seq<Cell>
    requires |col| == GridSize
  {
    Refill(Remaining(col), draws, base)
  }

  /** Column `x` of the grid after gravity, bottom to top. */
  function OutColumn(g: Grid, draws: nat -> Color, x: int): seq<Cell>
    requires IsGrid(g) && 0 <= x < GridSize
  {
    FilledColumn(Column(g, x), draws, Consumed(g, x))
  }

  /** The grid after one gravity pass. */
  function Gravity(g: Grid, draws: nat -> Color): Grid
    requires IsGrid(g)
  {
    seq(GridSize, y requires 0 <= y < GridSize =>
      seq(GridSize, x requires 0 <= x < GridSize =>
        OutColumn(g, draws, x)[GridSize - 1 - y]))
  }

  /** Builds the compacted grid column by column, collecting each column's
      coloured cells bottom-up and writing them back from the bottom row. */
  method ApplyGravity(g: Grid, draws: nat -> Color) returns (r: Grid)
    requires IsGrid(g)
    ensures r == Gravity(g, draws)
  {
    r := seq(GridSize, _ => seq(GridSize, _ => Cell(None, false)));
    var k: nat := 0;
    for x := 0 to GridSize
      invariant IsGrid(r)
      invariant k == Consumed(g, x)
      invariant forall y, x' :: 0 <= y < GridSize && 0 <= x' < x ==>
        r[y][x'] == OutColumn(g, draws, x')[GridSize - 1 - y]
    {
      var col := CollectColumn(g, x);
      assert Refill(col, draws, k) == OutColumn(g, draws, x);
      r, k := FillColumn(r, x, col, draws, k);
    }
    GravityCells(g, draws, r);
  }

  /** Writes column `x` of `r` from the bottom row up: the collected cells
      first, then cells coloured by the draws numbered from `k` on. */
  method FillColumn(r: Grid, x: int, col: seq<Cell>, draws: nat -> Color, k: nat)
    returns (r': Grid, k': nat)
    requires IsGrid(r) && 0 <= x < GridSize && |col| <= GridSize
    ensures IsGrid(r')
    ensures forall y, x' :: 0 <= y < GridSize && 0 <= x' < GridSize && x' != x ==> r'[y][x'] == r[y][x']
    ensures forall y :: 0 <= y < GridSize ==> r'[y][x] == Refill(col, draws, k)[GridSize - 1 - y]
    ensures k' == k + GridSize - |col|
  {
    ghost var filled := Refill(col, draws, k);
    r', k' := r, k;
    var y := GridSize - 1;
    while y >= 0
      invariant -1 <= y < GridSize
      invariant IsGrid(r')
      invariant forall y', x' :: 0 <= y' < GridSize && 0 <= x' < GridSize && x' != x ==> r'[y'][x'] == r[y'][x']
      invariant forall y' :: y < y' < GridSize ==> r'[y'][x] == filled[GridSize - 1 - y']
      invariant k' == k + Max(0, GridSize - 1 - y - |col|)
    {
      var i := GridSize - 1 - y;
      var c: Cell;
      if i < |col| {
        c := col[i];
      } else {
        c := Cell(Some(draws(k')), false);
        k' := k' + 1;
      }
      r' := r'[y := r'[y][x := c]];
      y := y - 1;
    }
  }

  /** Gathers the coloured cells of column `x`, scanning from the bottom row up. */
  method CollectColumn(g: Grid, x: int) returns (col: seq<Cell>)
    requires IsGrid(g) && 0 <= x < GridSize
    ensures col == Remaining(Column(g, x))
  {
    ghost var column := Column(g, x);
    col := [];
    var y := GridSize - 1;
    while y >= 0
      invariant -1 <= y < GridSize
      invariant col == Remaining(column[..GridSize - 1 - y])
    {
      ColumnAt(g, x, GridSize - 1 - y);
      FilterSnoc(column, GridSize - 1 - y, IsColored);
      var cell := g[y][x];
      if cell.color != None {
        col := col + [cell];
      }
      y := y - 1;
    }
    assert column[..GridSize] == column;
  }

  /** A grid whose every cell agrees with the filled columns is the result of gravity. */
  lemma GravityCells(g: Grid, draws: nat -> Color, r: Grid)
    requires IsGrid(g) && IsGrid(r)
    requires forall y, x :: 0 <= y < GridSize && 0 <= x < GridSize ==>
      r[y][x] == OutColumn(g, draws, x)[GridSize - 1 - y]
    ensures r == Gravity(g, draws)
  {
    var gr := Gravity(g, draws);
    forall y | 0 <= y < GridSize
      ensures r[y] == gr[y]
    {
    }
  }

  /** Reading one cell of the gravity result. */
  lemma GravityAt(g: Grid, draws: nat -> Color, y: int, x: int)
    requires IsGrid(g) && 0 <= y < GridSize && 0 <= x < GridSize
    ensures IsGrid(Gravity(g, draws))
    ensures Gravity(g, draws)[y][x] == OutColumn(g, draws, x)[GridSize - 1 - y]
  {
  }

  /** Reading one cell of a filled column. */
  lemma FilledColumnAt(col: seq<Cell>, draws: nat -> Color, base: nat, i: int)
    requires |col| == GridSize && 0 <= i < GridSize
    ensures var kept := Remaining(col);
      FilledColumn(col, draws, base)[i] ==
        if i < |kept| then kept[i] else Cell(Some(draws(base + i - |kept|)), false)
  {
  }

  /** Each output column is a function of the same input column and of how
      many draws earlier columns took: its remaining cells, packed at the
      bottom in their original bottom-to-top order, then fresh unselected cells. */
  lemma GravityColumn(g: Grid, draws: nat -> Color, x: int)
    requires IsGrid(g) && 0 <= x < GridSize
    ensures IsGrid(Gravity(g, draws))
    ensures var out := Column(Gravity(g, draws), x);
      var kept := Remaining(Column(g, x));
      && out == FilledColumn(Column(g, x), draws, Consumed(g, x))
      && out[..|kept|] == kept
      && forall i :: |kept| <= i < GridSize ==>
           out[i] == Cell(Some(draws(Consumed(g, x) + i - |kept|)), false)
  {
    GravityColumnIsOutColumn(g, draws, x);
    FilledColumnShape(Column(g, x), draws, Consumed(g, x));
  }

  lemma GravityColumnIsOutColumn(g: Grid, draws: nat -> Color, x: int)
    requires IsGrid(g) && 0 <= x < GridSize
    ensures IsGrid(Gravity(g, draws))
    ensures Column(Gravity(g, draws), x) == OutColumn(g, draws, x)
  {
    GravityAt(g, draws, 0, x);
    var out := Column(Gravity(g, draws), x);
    var filled := OutColumn(g, draws, x);
    forall i | 0 <= i < GridSize
      ensures out[i] == filled[i]
    {
      ColumnAt(Gravity(g, draws), x, i);
      GravityAt(g, draws, GridSize - 1 - i, x);
    }
  }

  /** A filled column holds the remaining cells first, then the draws in order. */
  lemma FilledColumnShape(col: seq<Cell>, draws: nat -> Color, base: nat)
    requires |col| == GridSize
    ensures var out := FilledColumn(col, draws, base);
      var kept := Remaining(col);
      && |out| == GridSize
      && out[..|kept|] == kept
      && forall i :: |kept| <= i < GridSize ==> out[i] == Cell(Some(draws(base + i - |kept|)), false)
  {
  }

  /** After gravity no cell is empty, and no cell is flagged when none was. */
  lemma GravitySettles(g: Grid, draws: nat -> Color)
    requires IsGrid(g) && Unflagged(g)
    ensures IsGrid(Gravity(g, draws)) && Settled(Gravity(g, draws))
  {
    GravityAt(g, draws, 0, 0);
    var r: Grid := Gravity(g, draws);
    forall y, x | 0 <= y < GridSize && 0 <= x < GridSize
      ensures r[y][x].color.Some? && !r[y][x].isSelected
    {
      var col := Column(g, x);
      var kept := Remaining(col);
      var i := GridSize - 1 - y;
      GravityAt(g, draws, y, x);
      FilledColumnAt(col, draws, Consumed(g, x), i);
      if i < |kept| {
        assert forall j :: 0 <= j < |col| ==> !col[j].isSelected;
        assert kept[i] in kept;
      }
    }
  }

  /** A column without empty cells draws nothing and stays as it is. */
  lemma FullColumnUnchanged(g: Grid, draws: nat -> Color, x: int)
    requires IsGrid(g) && 0 <= x < GridSize
    requires forall y :: 0 <= y < GridSize ==> g[y][x].color.Some?
    ensures DrawsFor(Column(g, x)) == 0
    ensures OutColumn(g, draws, x) == Column(g, x)
  {
    FilterKeepsAll(Column(g, x), IsColored);
  }

  /** Gravity leaves a grid without empty cells untouched and draws no colour. */
  lemma {:induction false} GravityIdentityOnFull(g: Grid, draws: nat -> Color)
    requires IsGrid(g)
    requires forall y, x :: 0 <= y < GridSize && 0 <= x < GridSize ==> g[y][x].color.Some?
    ensures Gravity(g, draws) == g
    ensures Consumed(g, GridSize) == 0
  {
    assert forall x' :: 0 <= x' < GridSize ==> DrawsFor(Column(g, x')) == 0 by {
      forall x | 0 <= x < GridSize
        ensures DrawsFor(Column(g, x)) == 0
      {
        FullColumnUnchanged(g, draws, x);
      }
    }
    ConsumedNone(g, GridSize);
    GravityAt(g, draws, 0, 0);
    var r: Grid := Gravity(g, draws);
    forall y, x | 0 <= y < GridSize && 0 <= x < GridSize
      ensures r[y][x] == g[y][x]
    {
      FullCellStays(g, draws, y, x);
    }
    forall y | 0 <= y < GridSize
      ensures r[y] == g[y]
    {
    }
  }

  lemma FullCellStays(g: Grid, draws: nat -> Color, y: int, x: int)
    requires IsGrid(g) && 0 <= y < GridSize && 0 <= x < GridSize
    requires forall y', x' :: 0 <= y' < GridSize && 0 <= x' < GridSize ==> g[y'][x'].color.Some?
    ensures IsGrid(Gravity(g, draws)) && Gravity(g, draws)[y][x] == g[y][x]
  {
    FullColumnUnchanged(g, draws, x);
    GravityAt(g, draws, y, x);
    assert Column(g, x)[GridSize - 1 - y] == g[y][x];
  }

  lemma {:induction false} ConsumedNone(g: Grid, x: int)
    requires IsGrid(g) && 0 <= x <= GridSize
    requires forall x' :: 0 <= x' < GridSize ==> DrawsFor(Column(g, x')) == 0
    ensures Consumed(g, x) == 0
  {
    if x > 0 {
      ConsumedNone(g, x - 1);
    }
  }
}
