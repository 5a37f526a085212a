# Tile-matching engine with fixed pollution obstacles

This project models the game logic of a small React puzzle (`src/App.js`) in Dafny. The
game is a 10×10 grid of four colours. The player clicks an anchor cell, then a second
cell of the same colour on the same row, column or 45° diagonal. Every cell of that
colour on the line between them is cleared. Each column then falls down under gravity,
and the emptied top cells are refilled with newly drawn colours. Ten "plastic" and five
"net" obstacles are scattered inside the grid at mount. Clicks on an obstacle are
ignored, and so are clicks on the four cells orthogonally next to a net. An obstacle
goes away when the cell under it is cleared.

Modules, one per component of the engine:

- `Common`: `Abs`, `Min`, `Max`, and a stable `Filter` over sequences with its lemmas.
- `Board`: colours, cells, coordinates, the grid, and the initial random fill.
- `Pollution`: the obstacle validity check and rejection-sampling placement.
- `Lines`: the straight/diagonal gate and the enumeration of the cells on a line.
- `GravityCompaction`: per-column gravity with refill.
- `Game`: the click transition as a function (`Click`) and the engine class
  (`Engine`), whose `HandleClick` method performs the transition on its fields.

Randomness is passed in explicitly:

- Colour draws come from a supply `draws: nat -> Color`, where the k-th draw of an
  operation is `draws(k)`.
- The random coordinates tried by placement are a finite list `candidates`, consumed
  in order.

The model follows the code as written in three places where it does not do what the
code itself sets out to do:

- A failed second click keeps the anchor. The match path ends by emptying the selection
  (`setSelected([])`, src/App.js:167). A second click whose line is invalid or whose
  colour differs returns early (src/App.js:125-126) and skips that step
  (`Game.FailedMatchKeepsAnchor`).
- Placement checks candidates against the obstacle lists held *before* placement began,
  not against the lists it is building. The checks against `plastics` and `nets`
  (src/App.js:30-31) show the lists are meant not to overlap, but the plastic and net
  lists can repeat a coordinate or share one (`Pollution.StaleCheckAdmitsDuplicates`).
- Placement has no capacity guard. Here it stops when the candidates run out and
  reports `complete == false`, where the source would keep drawing.
No code path sets a cell's `isSelected` flag to true, so the model keeps every cell
unflagged (`Board.Settled`).

## Model

| member | source | states |
|---|---|---|
| `Board.GenerateEmptyGrid` | src/App.js:10-17 | the fresh grid is 10×10; every cell has a colour (the drawn one, row by row) and is not selected |
| `Pollution.ValidPositionBand` | src/App.js:25-31 | a position is valid exactly when 2 ≤ x ≤ 7, 2 ≤ y ≤ 7 and it is in neither obstacle list |
| `Pollution.PlacePollution` | src/App.js:33-55 | the plastic list is the first 10 accepted candidates and the net list the next 5; `complete` holds exactly when at least 15 candidates were accepted |
| `Pollution.SampleUntil` | src/App.js:37-51 | one sampling loop: the accepted list is exactly the valid candidates among those it consumed, in order; it stops right after the `target`-th acceptance, or with every candidate consumed |
| `Pollution.PlacementSatisfiesRule` | src/App.js:25-51 | every placed obstacle is one of the candidates, passed the check against the pre-placement lists, and lies in the interior band |
| `Pollution.PlacementCounts` | src/App.js:37-51 | plastics followed by nets is a prefix of the accepted candidates; the lists have 10 and 5 entries exactly when placement completed |
| `Pollution.StaleCheckAdmitsDuplicates` | src/App.js:25-51 | fifteen draws of (2, 2) complete placement with (2, 2) twice among the plastics and again as a net |
| `Lines.SignIsQuotient` | src/App.js:68-69 | `d / abs(d)` (0 for d = 0) is the unit step sign(d) |
| `Lines.GetLineCells` | src/App.js:63-75 | returns max(abs(dx), abs(dy)) + 1 cells; cell i is i unit steps from the first click |
| `Lines.GateIffLineReachesTarget` | src/App.js:57-75 | the enumerated line ends at the second click exactly when dx = 0, dy = 0 or abs(dx) = abs(dy) |
| `Lines.LineShape` | src/App.js:63-75 | for a pair that passes the gate: max(abs(dx), abs(dy)) + 1 cells, the first is the anchor, the last is the target, and consecutive cells differ by (sign dx, sign dy) |
| `Lines.LineInGrid` | src/App.js:63-75 | a gated line between two in-grid cells lies wholly in the grid |
| `GravityCompaction.CollectColumn` | src/App.js:86-90 | collects the column's coloured cells in bottom-to-top order |
| `GravityCompaction.FillColumn` | src/App.js:92-97 | rewrites one column from the bottom up: collected cells, then one drawn colour per remaining row; other columns are untouched; draws consumed = 10 − collected |
| `GravityCompaction.ApplyGravity` | src/App.js:77-101 | the result is the gravity grid: each column is compacted and refilled, with draws taken column by column, left to right |
| `GravityCompaction.GravityColumn` | src/App.js:77-101 | an output column is the input column's coloured cells, in order, at the bottom, then unselected cells with the next draws; it depends only on that input column and on the draws earlier columns used |
| `GravityCompaction.GravitySettles` | src/App.js:77-101 | after gravity no cell is empty, and no cell is selected if none was before |
| `GravityCompaction.FullColumnUnchanged` | src/App.js:85-97 | a column with no empty cell draws nothing and is unchanged |
| `GravityCompaction.GravityIdentityOnFull` | src/App.js:77-101 | gravity on a grid with no empty cell (flagged or not) returns it unchanged and draws no colour |
| `Game.ClearLine` | src/App.js:132-143 | line cells of the anchor colour become empty; every other cell keeps its colour; no cell stays selected |
| `Game.MatchAlwaysRemoves` | src/App.js:128-143 | the anchor is on the line with the matched colour, so `anyRemoved` is always true |
| `Game.SurvivorsSpec` | src/App.js:146-158 | an obstacle survives exactly when it is off the line or its pre-clear cell has another colour; survivors keep their order and never outnumber the input |
| `Game.BlockedClickChangesNothing` | src/App.js:104-111 | a click on a plastic, a net, or a cell at distance 1 from a net in its row or column leaves grid, obstacles and selection unchanged |
| `Game.ClickOnAnchorDeselects` | src/App.js:113-117 | clicking the anchor empties the selection and changes nothing else |
| `Game.FirstClickSelects` | src/App.js:119-120 | with no anchor, the selection becomes exactly the clicked cell and nothing else changes |
| `Game.FailedMatchKeepsAnchor` | src/App.js:121-126 | a second click off every line through the anchor, or of another colour, leaves the whole state unchanged, anchor included |
| `Game.MatchClearsLine` | src/App.js:128-167 | a matched second click leaves gravity applied to the cleared grid, obstacle lists equal to the surviving obstacles in their original order (each kept exactly when off the line or on a cell of another colour), and an empty selection |
| `Game.ClickPreservesInvariant` | src/App.js:103-169 | every click keeps the grid settled, the selection at most one in-grid anchor, and obstacles in the band; obstacles are only ever removed |
| `Game.Engine.constructor` | src/App.js:171-174 | mount places the obstacles by sampling and fills the grid; the engine starts valid with an empty selection |
| `Game.Engine.HandleClick` | src/App.js:103-169 | the new grid, selection and obstacle lists are `Click` of the old state; the engine stays valid |

## Left out

- Rendering is not modelled (JSX, styling, opacity, emoji icons): it is presentation only.
- React's `useState`/`useEffect` scheduling and setter batching are not modelled. The
  state is the fields of `Game.Engine`, updated where the handler calls its setters.
- The grid built by the `useState` initializer is not modelled. It is replaced by a
  second random grid at mount, and `Game.Engine.constructor` builds only that second grid.
- `Math.random` is not modelled. It becomes the `draws` colour supply and the
  `candidates` coordinate list.
- Termination of the placement loops is not modelled, because the source does not
  guarantee it. Placement runs over a finite candidate list instead.
- `Pollution.PlacePollution`: the `complete` result is an addition of the model. It
  reports that the candidates ran out where the source would keep sampling.
- Out-of-grid clicks are not modelled. The source reads `grid[y][x]` unguarded, so
  `Game.Engine.HandleClick` requires an in-grid coordinate.
- `Game.ObstacleCleared` guards the grid read with a bounds check. The source would
  throw on an out-of-grid obstacle, which the engine invariant rules out.
- JavaScript numbers are modelled as unbounded integers. All coordinates stay within
  0..9, so no rounding or overflow arises.
