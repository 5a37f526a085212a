/** The game engine: current grid, obstacles and pending selection, and the
    click state machine that is their only mutator. `Click` is the transition
    as a function of the old state; `Engine.HandleClick` performs it step by
    step on the engine's fields. */
module Game {
  import opened Common
  import opened Board
  import opened Pollution
  import opened Lines
  import opened GravityCompaction

  datatype GameState = GameState(grid: Grid, selected: seq<Pos>, plastics: seq<Pos>, nets: seq<Pos>)

  /** What a click needs to read the state: a full grid and in-grid coordinates. */
  predicate WellFormed(s: GameState)
  {
    && IsGrid(s.grid)
    && (forall i :: 0 <= i < |s.selected| ==> InGrid(s.selected[i]))
    && (forall p :: p in s.plastics ==> InGrid(p))
    && (forall p :: p in s.nets ==> InGrid(p))
  }

  /** The state between clicks: a settled grid, at most one anchor, and every
      obstacle still in the band where it was placed. */
  predicate Invariant(s: GameState)
  {
    && WellFormed(s)
    && Settled(s.grid)
    && |s.selected| <= 1
    && (forall p :: p in s.plastics ==> InInterior(p))
    && (forall p :: p in s.nets ==> InInterior(p))
  }

  /** A net one step away in the same row or the same column. */
  predicate IsCoveredByNet(nets: seq<Pos>, x: int, y: int)
  {
    exists n :: n in nets && ((n.x == x && Abs(n.y - y) == 1) || (n.y == y && Abs(n.x - x) == 1))
  }

  /** Clicks on a plastic, a net, or a cell a net covers are ignored. */
  predicate IsBlocked(plastics: seq<Pos>, nets: seq<Pos>, x: int, y: int)
  {
    Pos(x, y) in plastics || Pos(x, y) in nets || IsCoveredByNet(nets, x, y)
  }

  /** Clears every line cell of the matched colour; every cell loses its
      selection flag. */
  function ClearLine(g: Grid, line: seq<Pos>, color: Option<Color>): (r: Grid)
    requires IsGrid(g)
    ensures IsGrid(r) && Unflagged(r)
    ensures forall y, x :: 0 <= y < GridSize && 0 <= x < GridSize ==>
      (r[y][x].color == None <==> g[y][x].color == None || (Pos(x, y) in line && g[y][x].color == color))
    ensures forall y, x :: 0 <= y < GridSize && 0 <= x < GridSize && !(Pos(x, y) in line && g[y][x].color == color) ==>
      r[y][x].color == g[y][x].color
  {
    seq(GridSize, y requires 0 <= y < GridSize =>
      seq(GridSize, x requires 0 <= x < GridSize =>
        if Pos(x, y) in line && g[y][x].color == color then Cell(None, false)
        else g[y][x].(isSelected := false)))
  }

  /** Some grid cell on the line has the matched colour. */
  predicate AnyCleared(g: Grid, line: seq<Pos>, color: Option<Color>)
    requires IsGrid(g)
  {
    exists y, x :: 0 <= y < GridSize && 0 <= x < GridSize && Pos(x, y) in line && g[y][x].color == color
  }

  /** An obstacle goes when it sits on the line and its cell had the matched
      colour before clearing. */
  predicate ObstacleCleared(g: Grid, line: seq<Pos>, color: Option<Color>, o: Pos)
  {
    o in line && 0 <= o.y < |g| && 0 <= o.x < |g[o.y]| && g[o.y][o.x].color == color
  }

  function SurvivesClear(g: Grid, line: seq<Pos>, color: Option<Color>): Pos -> bool
  {
    o => !ObstacleCleared(g, line, color, o)
  }

  /** The obstacles left after a match, in their original order. */
  function Survivors(obstacles: seq<Pos>, g: Grid, line: seq<Pos>, color: Option<Color>): seq<Pos>
  {
    Filter(obstacles, SurvivesClear(g, line, color))
  }

  /** The state after a click at (x, y); `draws` supplies the colours gravity
      draws during this click. */
  function Click(s: GameState, x: int, y: int, draws: nat -> Color): GameState
    requires WellFormed(s) && InGrid(Pos(x, y))
  {
    if IsBlocked(s.plastics, s.nets, x, y) then s
    else if |s.selected| == 1 && s.selected[0] == Pos(x, y) then s.(selected := [])
    else if |s.selected| == 0 then s.(selected := [Pos(x, y)])
    else if |s.selected| == 1 then
      var a := s.selected[0];
      var dx, dy := x - a.x, y - a.y;
      if !IsStraightLine(dx, dy) && !IsDiagonal(dx, dy) then s
      else if s.grid[a.y][a.x].color != s.grid[y][x].color then s
      else
        var line := Line(a.x, a.y, x, y);
        var color := s.grid[a.y][a.x].color;
        if AnyCleared(s.grid, line, color) then
          GameState(Gravity(ClearLine(s.grid, line, color), draws), [],
                    Survivors(s.plastics, s.grid, line, color), Survivors(s.nets, s.grid, line, color))
        else s.(selected := [])
    else s
  }

  /** A second click always clears at least the anchor, so the source's
      `anyRemoved` guard never fails. */
  lemma MatchAlwaysRemoves(g: Grid, a: Pos, x: int, y: int)
    requires IsGrid(g) && InGrid(a)
    ensures AnyCleared(g, Line(a.x, a.y, x, y), g[a.y][a.x].color)
  {
    var line := Line(a.x, a.y, x, y);
    assert line[0] == a;
    assert Pos(a.x, a.y) in line;
  }

  /** The obstacles that survive are exactly those off the line or on a cell
      of another colour; they keep their relative order and never grow. */
  lemma SurvivorsSpec(obstacles: seq<Pos>, g: Grid, line: seq<Pos>, color: Option<Color>)
    ensures |Survivors(obstacles, g, line, color)| <= |obstacles|
    ensures forall o :: o in Survivors(obstacles, g, line, color) <==>
      o in obstacles && !ObstacleCleared(g, line, color, o)
    ensures forall i :: 0 <= i <= |obstacles| ==>
      Survivors(obstacles, g, line, color) ==
      Survivors(obstacles[..i], g, line, color) + Survivors(obstacles[i..], g, line, color)
  {
    forall i | 0 <= i <= |obstacles|
      ensures Survivors(obstacles, g, line, color) ==
        Survivors(obstacles[..i], g, line, color) + Survivors(obstacles[i..], g, line, color)
    {
      assert obstacles == obstacles[..i] + obstacles[i..];
      FilterAppend(obstacles[..i], obstacles[i..], SurvivesClear(g, line, color));
    }
  }

  /** A click on a plastic, a net, or a cell next to a net in its row or
      column changes nothing. */
  lemma BlockedClickChangesNothing(s: GameState, x: int, y: int, draws: nat -> Color)
    requires WellFormed(s) && InGrid(Pos(x, y))
    requires Pos(x, y) in s.plastics || Pos(x, y) in s.nets
      || exists n :: n in s.nets && ((n.x == x && Abs(n.y - y) == 1) || (n.y == y && Abs(n.x - x) == 1))
    ensures Click(s, x, y, draws) == s
  {
  }

  /** Clicking the anchor again drops it; nothing else changes. */
  lemma ClickOnAnchorDeselects(s: GameState, x: int, y: int, draws: nat -> Color)
    requires WellFormed(s) && InGrid(Pos(x, y)) && !IsBlocked(s.plastics, s.nets, x, y)
    requires s.selected == [Pos(x, y)]
    ensures Click(s, x, y, draws) == s.(selected := [])
  {
  }

  /** With no anchor, a click makes the clicked cell the anchor; nothing
      else changes. */
  lemma FirstClickSelects(s: GameState, x: int, y: int, draws: nat -> Color)
    requires WellFormed(s) && InGrid(Pos(x, y)) && !IsBlocked(s.plastics, s.nets, x, y)
    requires s.selected == []
    ensures Click(s, x, y, draws) == s.(selected := [Pos(x, y)])
  {
  }

  /** A second click off every straight or diagonal line through the anchor,
      or on another colour, changes nothing: the anchor stays selected. */
  lemma FailedMatchKeepsAnchor(s: GameState, x: int, y: int, draws: nat -> Color)
    requires WellFormed(s) && InGrid(Pos(x, y)) && !IsBlocked(s.plastics, s.nets, x, y)
    requires |s.selected| == 1 && s.selected[0] != Pos(x, y)
    requires var a := s.selected[0];
      !(IsStraightLine(x - a.x, y - a.y) || IsDiagonal(x - a.x, y - a.y))
      || s.grid[a.y][a.x].color != s.grid[y][x].color
    ensures Click(s, x, y, draws) == s
  {
  }

  /** A matched second click clears the line's cells of the anchor colour,
      removes the obstacles on them, applies gravity and empties the selection. */
  lemma MatchClearsLine(s: GameState, x: int, y: int, draws: nat -> Color)
    requires WellFormed(s) && InGrid(Pos(x, y)) && !IsBlocked(s.plastics, s.nets, x, y)
    requires |s.selected| == 1 && s.selected[0] != Pos(x, y)
    requires var a := s.selected[0];
      (IsStraightLine(x - a.x, y - a.y) || IsDiagonal(x - a.x, y - a.y))
      && s.grid[a.y][a.x].color == s.grid[y][x].color
    ensures var a := s.selected[0];
      var line := Line(a.x, a.y, x, y);
      var color := s.grid[a.y][a.x].color;
      var r := Click(s, x, y, draws);
      && r.selected == []
      && r.grid == Gravity(ClearLine(s.grid, line, color), draws)
      && r.plastics == Survivors(s.plastics, s.grid, line, color)
      && r.nets == Survivors(s.nets, s.grid, line, color)
      && (forall o :: o in r.plastics <==> o in s.plastics && !ObstacleCleared(s.grid, line, color, o))
      && (forall o :: o in r.nets <==> o in s.nets && !ObstacleCleared(s.grid, line, color, o))
  {
    var a := s.selected[0];
    var line := Line(a.x, a.y, x, y);
    var color := s.grid[a.y][a.x].color;
    MatchAlwaysRemoves(s.grid, a, x, y);
    SurvivorsSpec(s.plastics, s.grid, line, color);
    SurvivorsSpec(s.nets, s.grid, line, color);
  }

  /** Every click keeps the between-clicks invariant: the grid stays settled,
      the selection holds at most one anchor, and obstacles only disappear. */
  lemma ClickPreservesInvariant(s: GameState, x: int, y: int, draws: nat -> Color)
    requires Invariant(s) && InGrid(Pos(x, y))
    ensures Invariant(Click(s, x, y, draws))
    ensures forall o :: o in Click(s, x, y, draws).plastics ==> o in s.plastics
    ensures forall o :: o in Click(s, x, y, draws).nets ==> o in s.nets
  {
    var r := Click(s, x, y, draws);
    if !IsBlocked(s.plastics, s.nets, x, y) && |s.selected| == 1 && s.selected[0] != Pos(x, y) {
      var a := s.selected[0];
      if (IsStraightLine(x - a.x, y - a.y) || IsDiagonal(x - a.x, y - a.y))
        && s.grid[a.y][a.x].color == s.grid[y][x].color
      {
        var line := Line(a.x, a.y, x, y);
        var color := s.grid[a.y][a.x].color;
        MatchAlwaysRemoves(s.grid, a, x, y);
        SurvivorsSpec(s.plastics, s.grid, line, color);
        SurvivorsSpec(s.nets, s.grid, line, color);
        GravitySettles(ClearLine(s.grid, line, color), draws);
      }
    }
  }

  class Engine {
    var grid: Grid
    var selected: seq<Pos>
    var plastics: seq<Pos>
    var nets: seq<Pos>

    function State(): GameState
      reads this
    {
      GameState(grid, selected, plastics, nets)
    }

    ghost predicate Valid()
      reads this
    {
      Invariant(State())
    }

    /** Mount: obstacles placed by sampling `candidates` against the empty
        obstacle lists, then the grid filled from `draws`. */
    constructor (draws: nat -> Color, candidates: seq<Pos>)
      ensures Valid()
      ensures grid == GenerateEmptyGrid(draws) && selected == []
      ensures plastics == PlacedPlastics([], [], candidates)
      ensures nets == PlacedNets([], [], candidates)
    {
      var newPlastics, newNets, _ := PlacePollution([], [], candidates);
      PlacementSatisfiesRule([], [], candidates);
      grid := GenerateEmptyGrid(draws);
      selected := [];
      plastics := newPlastics;
      nets := newNets;
    }

    /** The click handler: `draws` supplies the colours gravity draws. */
    method HandleClick(x: int, y: int, draws: nat -> Color)
      requires Valid() && InGrid(Pos(x, y))
      modifies this
      ensures Valid()
      ensures State() == Click(old(State()), x, y, draws)
    {
      ghost var s := State();
      ClickPreservesInvariant(s, x, y, draws);
      var isPlastic := Pos(x, y) in plastics;
      var isNet := Pos(x, y) in nets;
      var isCoveredByNet := IsCoveredByNet(nets, x, y);
      if isPlastic || isNet || isCoveredByNet {
        return;
      }
      var cell := grid[y][x];
      if |selected| == 1 && selected[0] == Pos(x, y) {
        selected := [];
        return;
      }
      if |selected| == 0 {
        selected := [Pos(x, y)];
      } else if |selected| == 1 {
        var a := selected[0];
        var dx := x - a.x;
        var dy := y - a.y;
        if !IsStraightLine(dx, dy) && !IsDiagonal(dx, dy) {
          return;
        }
        if grid[a.y][a.x].color != cell.color {
          return;
        }
        var lineCells := GetLineCells(a.x, a.y, x, y);
        var color := grid[a.y][a.x].color;
        var anyRemoved := AnyCleared(grid, lineCells, color);
        var newGrid := ClearLine(grid, lineCells, color);
        var newPlastics := Survivors(plastics, grid, lineCells, color);
        var newNets := Survivors(nets, grid, lineCells, color);
        if anyRemoved {
          var dropped := ApplyGravity(newGrid, draws);
          grid := dropped;
          plastics := newPlastics;
          nets := newNets;
        }
        selected := [];
      }
    }
  }
}
