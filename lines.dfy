/** Line geometry between two clicked cells: the straight/diagonal gate and
    the enumeration of every cell on the line, both endpoints included. */
module Lines {
  import opened Common
  import opened Board

  /** Both clicks in one row or one column. */
  predicate IsStraightLine(dx: int, dy: int)
  {
    dx == 0 || dy == 0
  }

  /** Both clicks on a 45-degree diagonal (including the same cell). */
  predicate IsDiagonal(dx: int, dy: int)
  {
    Abs(dx) == Abs(dy)
  }

  /** The unit step along one axis: `d / |d|` for a non-zero `d`, else 0. */
  function Sign(d: int): (r: int)
    ensures d == 0 ==> r == 0
    ensures d != 0 ==> r * Abs(d) == d
  {
    if d > 0 then 1 else if d < 0 then -1 else 0
  }

  /** The number of steps from the first click to the last cell of the line. */
  function LineLength(x1: int, y1: int, x2: int, y2: int): nat
  {
    Max(Abs(x2 - x1), Abs(y2 - y1))
  }

  /** The `i`-th cell of the line: `i` unit steps from the first click. */
  function LinePoint(x1: int, y1: int, x2: int, y2: int, i: int): Pos
  {
    Pos(x1 + i * Sign(x2 - x1), y1 + i * Sign(y2 - y1))
  }

  /** The cells the line covers, in order from the first click. */
  function Line(x1: int, y1: int, x2: int, y2: int): seq<Pos>
  {
    seq(LineLength(x1, y1, x2, y2) + 1, i => LinePoint(x1, y1, x2, y2, i))
  }

  /** Enumerates the line from (x1, y1) towards (x2, y2), one cell per step. */
  method GetLineCells(x1: int, y1: int, x2: int, y2: int) returns (line: seq<Pos>)
    ensures |line| == Max(Abs(x2 - x1), Abs(y2 - y1)) + 1
    ensures line == Line(x1, y1, x2, y2)
  {
    line := [];
    var dx := x2 - x1;
    var dy := y2 - y1;
    var length := Max(Abs(dx), Abs(dy));
    var stepX := if dx == 0 then 0 else dx / Abs(dx);
    var stepY := if dy == 0 then 0 else dy / Abs(dy);
    SignIsQuotient(dx);
    SignIsQuotient(dy);
    for i := 0 to length + 1
      invariant |line| == i
      invariant forall k :: 0 <= k < i ==> line[k] == LinePoint(x1, y1, x2, y2, k)
    {
      line := line + [Pos(x1 + i * stepX, y1 + i * stepY)];
    }
  }

  /** The source's `d / Math.abs(d)` is exactly the unit step. */
  lemma SignIsQuotient(d: int)
    ensures (if d == 0 then 0 else d / Abs(d)) == Sign(d)
  {
    if d > 0 {
      assert d / d == 1;
    } else if d < 0 {
      assert d == (-d) * -1;
    }
  }

  /** Along a line that passes the gate and does not stay in one column, the
      number of steps is the horizontal distance. */
  lemma StepsMatchSpan(dx: int, dy: int)
    requires IsStraightLine(dx, dy) || IsDiagonal(dx, dy)
    ensures dx != 0 ==> Max(Abs(dx), Abs(dy)) == Abs(dx)
    ensures dy != 0 ==> Max(Abs(dx), Abs(dy)) == Abs(dy)
  {
  }

  /** The line's last step reaches the second click exactly when the pair
      passes the straight-or-diagonal gate. */
  lemma GateIffLineReachesTarget(x1: int, y1: int, x2: int, y2: int)
    ensures LinePoint(x1, y1, x2, y2, LineLength(x1, y1, x2, y2)) == Pos(x2, y2)
        <==> IsStraightLine(x2 - x1, y2 - y1) || IsDiagonal(x2 - x1, y2 - y1)
  {
    var dx, dy := x2 - x1, y2 - y1;
    var n := LineLength(x1, y1, x2, y2);
    assert n * Sign(dx) == dx <==> dx == 0 || n == Abs(dx) by {
      if dx > 0 { assert n * Sign(dx) == n; }
      else if dx < 0 { assert n * Sign(dx) == -n; }
    }
    assert n * Sign(dy) == dy <==> dy == 0 || n == Abs(dy) by {
      if dy > 0 { assert n * Sign(dy) == n; }
      else if dy < 0 { assert n * Sign(dy) == -n; }
    }
  }

  /** The line starts at the first click, ends at the second, has
      max(|dx|, |dy|) + 1 cells, and consecutive cells differ by the unit step. */
  lemma LineShape(x1: int, y1: int, x2: int, y2: int)
    requires IsStraightLine(x2 - x1, y2 - y1) || IsDiagonal(x2 - x1, y2 - y1)
    ensures var line := Line(x1, y1, x2, y2);
      && |line| == Max(Abs(x2 - x1), Abs(y2 - y1)) + 1
      && line[0] == Pos(x1, y1)
      && line[|line| - 1] == Pos(x2, y2)
      && forall i :: 0 <= i < |line| - 1 ==>
           line[i + 1] == Pos(line[i].x + Sign(x2 - x1), line[i].y + Sign(y2 - y1))
  {
    GateIffLineReachesTarget(x1, y1, x2, y2);
  }

  /** One coordinate of a line cell lies between the two clicks' coordinates. */
  lemma StepBetween(a: int, d: int, i: int)
    requires 0 <= i && (d == 0 || i <= Abs(d))
    ensures Min(a, a + d) <= a + i * Sign(d) <= Max(a, a + d)
  {
    if d > 0 { assert i * Sign(d) == i; }
    else if d < 0 { assert i * Sign(d) == -i; }
  }

  /** A line between two cells of the grid stays inside the grid. */
  lemma LineInGrid(x1: int, y1: int, x2: int, y2: int)
    requires InGrid(Pos(x1, y1)) && InGrid(Pos(x2, y2))
    requires IsStraightLine(x2 - x1, y2 - y1) || IsDiagonal(x2 - x1, y2 - y1)
    ensures forall p :: p in Line(x1, y1, x2, y2) ==> InGrid(p)
  {
    var line := Line(x1, y1, x2, y2);
    StepsMatchSpan(x2 - x1, y2 - y1);
    forall i | 0 <= i < |line|
      ensures InGrid(line[i])
    {
      StepBetween(x1, x2 - x1, i);
      StepBetween(y1, y2 - y1, i);
    }
  }
}
