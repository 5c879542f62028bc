# Labyrinth game: maze generator and move rule

A Dafny model of the core of a small browser maze game (`main.js`):

- the **maze generator**, `MazeGenerator.generate` with `getUnvisitedNeighbors`:
  an iterative randomized depth-first search (recursive backtracker) over a
  grid of cells indexed `maze[y][x]`. Every cell starts as a wall. Starting at
  (1, 1), the search looks at the room on top of its stack. It picks at random
  a still-walled room two cells away along one axis, opens that room and the
  cell midway, and pushes the room. When the top has no such room, it pops.
  At the end it forces (1, 1) and (cols - 2, rows - 2) open;
- the **move rule** of `movePlayer`: a step is accepted only when the target
  is inside the grid and open, and the goal test runs after an accepted step;
- the **key mapping** of the keydown handler: arrow keys and WASD in either
  case give the four unit steps.

The files:

- `cells.dfy` (module `Cells`): cells (`Wall` for the stored 1, `Open` for 0),
  coordinates, the grid, writing an open cell, and the set of walls.
- `paths.dfy` (module `Paths`): walks of unit steps over open cells, and
  reachability.
- `generator.dfy` (module `MazeGenerator`): rooms and passages, the neighbour
  scan, one loop iteration as a pure `Step`, the loop invariant and its
  preservation, the initial fill, the final forcing step, and `Generate`.
- `game.dfy` (module `Game`): key bindings, `MovePlayer`, key presses and
  whole sequences of them, and what the shipped 20 by 20 level allows.
- `wrappers.dfy` (module `Wrappers`): `Option`.

The random index `Math.floor(Math.random() * neighbors.length)` is a
nondeterministic choice `pick :| pick < |ns|` in `Search`, the carving loop.
`Step`, one iteration of that loop, takes the draw as a parameter `pick` and
uses the neighbour at index `pick % |ns|`, which is `pick` itself for every
draw in range. Every property of `Generate` therefore holds for every sequence
of random choices.

Vocabulary: a *room* is an interior cell whose two coordinates are odd. A
*passage* is the cell midway between two rooms two cells apart along one axis.
The grid's *interior* is everything strictly inside the outer ring.

The source never checks its sizes. `Generate` requires `cols >= 3 && rows >= 3`;
see "Left out" for what the source does with smaller sizes.

## Model

| member | source | states |
|---|---|---|
| `Cells.SetOpen` | main.js:50-51 | writing 0 opens exactly that cell, keeps the grid's shape, changes no other cell, and is a no-op on an open cell |
| `Cells.WallCells` | main.js:41-57 | the termination measure of the carving loop, which has no counterpart in the source: the set of wall cells is exactly the cells of the grid holding a wall |
| `Cells.OpeningShrinksWalls` | main.js:50-51 | opening a wall without closing anything strictly shrinks the set of walls, the first component of the loop's termination measure |
| `MazeGenerator.FillWalls` | main.js:27-32 | the initial grid has `rows` rows of `cols` cells, every one a wall |
| `MazeGenerator.TwoApartIsDirection` | main.js:65-70 | the four direction offsets are exactly the cells two steps away along one axis |
| `MazeGenerator.ScanDirections` | main.js:72-81 | scanning directions `i..3` keeps exactly the interior, still-walled offsets, in direction order, at most one per direction |
| `MazeGenerator.UnvisitedNeighbors` | main.js:63-84 | at most four cells; a cell is in the result exactly when it is two steps away along one axis, strictly inside the border and still a wall; results come in the order up, right, down, left with no repeats |
| `MazeGenerator.Midpoint` | main.js:48-49 | the computed wall cell is a whole-number midpoint, one unit step from the current room and one from the chosen neighbour |
| `MazeGenerator.Carve` | main.js:48-51 | a push opens the chosen room and the cell midway and changes nothing else; no cell is closed |
| `MazeGenerator.Step` | main.js:42-56 | one iteration, for any random draw, only turns walls into open cells; it either pushes an unvisited neighbour of the top and opens it with the cell midway, or pops a top that has none; a push changes exactly those two cells, as `Carve` states; the set of walls shrinks, or the grid is unchanged and the stack shorter |
| `MazeGenerator.NextIsRoom` | main.js:76-77 | an interior cell two steps from a room is a room, and the cell between them is a passage and not a room |
| `MazeGenerator.PoppedIsFinished` | main.js:45-55 | a room with no unvisited neighbour has every neighbouring room open |
| `MazeGenerator.InitialInvariant` | main.js:34-39 | a grid whose only open cell is (1, 1), with stack [(1, 1)], satisfies the loop invariant |
| `MazeGenerator.PushKeepsCarved` | main.js:48-51 | after a push the only open cells are still rooms and passages, so nothing on the border is opened |
| `MazeGenerator.PushKeepsStackPath` | main.js:45-53 | after a push the stack still starts at (1, 1), holds only open rooms, has no room twice, and each entry is two steps from the one below with the cell midway open |
| `MazeGenerator.PushKeepsFinished` | main.js:45-53 | a push leaves every open room off the stack with all its neighbouring rooms open |
| `MazeGenerator.PushKeepsConnected` | main.js:48-53 | after a push every open room is reachable from (1, 1) over open cells |
| `MazeGenerator.PushKeepsInvariant` | main.js:45-53 | pushing an unvisited neighbour of the top, with the room and the cell midway opened, keeps the whole loop invariant |
| `MazeGenerator.PopKeepsInvariant` | main.js:54-56 | popping a top whose neighbouring rooms are all open keeps the whole loop invariant |
| `MazeGenerator.StepPreservesInvariant` | main.js:41-57 | every iteration can run from a state satisfying the invariant and keeps it |
| `MazeGenerator.RoomOpen` | main.js:41-57 | when every open room has all neighbouring rooms open and (1, 1) is open, every room is open: the search misses no room |
| `MazeGenerator.OpenEnds` | main.js:59-60 | the forcing step opens (1, 1) and (cols - 2, rows - 2), closes nothing, and changes no other cell |
| `MazeGenerator.OpenEndsIdempotent` | main.js:59-60 | forcing twice equals forcing once, and forcing a grid whose ends are already open changes nothing |
| `MazeGenerator.Search` | main.js:34-57 | for every sequence of random choices the loop terminates, only opens cells, leaves only rooms and passages open, and leaves every room open and reachable from (1, 1) |
| `MazeGenerator.Finish` | main.js:59-60 | after the ends are forced on a searched grid, the border is wall, only rooms, passages and the goal are open, and every open room or passage is reachable from (1, 1) |
| `MazeGenerator.Generate` | main.js:26-61 | for every sequence of random choices the loop terminates and the grid is `cols` by `rows`, its border is all wall, only rooms, passages and the goal are open, (1, 1) and the goal are open, every room is open, and every open room or passage is reachable from (1, 1) |
| `Game.KeyStep` | main.js:173-199 | ArrowUp, w and W step to (0, -1); ArrowDown, s and S to (0, 1); ArrowLeft, a and A to (-1, 0); ArrowRight, d and D to (1, 0); each of these holds in both directions, and any other key gives no step |
| `Game.KeyFor` | main.js:173-199 | every unit step has one of the four arrow keys that the handler maps back to that step |
| `Game.KeysAgree` | main.js:175-197 | an arrow key and both cases of its letter map to the same step |
| `Game.MovePlayer` | main.js:151-160 | the player moves to the target exactly when the target is an open cell of the grid and otherwise stays; the goal test fires exactly when the accepted target is the goal |
| `Game.HandleKey` | main.js:173-199 | a bound key runs the move rule with that key's step; unbound keys change nothing; so a key press either leaves the player in place or moves it one unit step onto an open cell, and reaching the goal implies a step onto it |
| `Game.Play` | main.js:151-169 | a player who starts on an open cell stays on open cells through any sequence of keys, and a reported win leaves the player on the goal |
| `Game.KeysAlong` | main.js:173-199 | the keys for a walk, one per step, each mapping to the step it takes |
| `Game.FollowPath` | main.js:151-160 | pressing the keys along a walk over open cells that ends at the goal wins |
| `Game.GoalWalledIn` | main.js:59-60 | with both sizes even, every cell next to the goal is closed in a grid where only carvable cells and the goal are open |
| `Game.NeverReachesGoal` | main.js:151-160 | with both sizes even, a player on an open cell other than the goal never reaches it, whatever keys are pressed |
| `Game.ShippedLevelUnwinnable` | main.js:8-12 | in a 20 by 20 maze as generated, no key sequence from (1, 1) reaches the goal (18, 18) |
| `Game.OddLevelWinnable` | main.js:41-60 | with both sizes odd and the grid larger than 3 by 3, some key sequence from (1, 1) reaches the goal in a maze as generated |
| `Game.StartLevel` | main.js:91-95 | a new level is a generated maze with the player on (1, 1) and the goal open at (cols - 2, rows - 2); with both sizes even no key sequence wins it, with both sizes odd (and larger than 3 by 3) some key sequence does |
| `Game.StartShippedLevel` | main.js:8-12 | the level as shipped puts the goal at (18, 18), open, and no key sequence from (1, 1) wins it |

## Findings

| source | as written | input that shows it | evidently intended | confidence | as-written member | corrected member |
|---|---|---|---|---|---|---|
| main.js:8-12 | `COLS = ROWS = 20` with the goal at (COLS - 2, ROWS - 2) = (18, 18). Rooms have odd coordinates, so no cell with a coordinate of 18 is ever carved; the goal is opened only by the forcing step at line 60 and is walled in on all four sides | any 20 by 20 maze the generator produces, any key sequence | the goal is reachable, so that the level can be completed; odd sizes (for example 21 by 21) make the goal a room | high; not executed | `Game.ShippedLevelUnwinnable` | `Game.OddLevelWinnable` |

## Left out

- Canvas rendering (`draw`, main.js:111-149): drawing only, with pixel arithmetic and `Math.PI`.
- The timer, `Date.now`, `setInterval`, `clearInterval` and `updateTimer` (main.js:14-15, 96-109, 161-162): clock and display.
- `alert`, `setTimeout`, DOM text updates and listener registration (main.js:1-5, 163-168, 173, 202-206): I/O. Only the key-to-step mapping inside the handler is modelled.
- `Math.random` (main.js:46): replaced by a nondeterministic index in range; uniformity is a probabilistic property and is not modelled.
- The level counter and the `initGame` flow (main.js:91-104, 165-167, 203-205): glue that rebuilds state through callbacks. `Game.Play` ends a level at the first move that reaches the goal. It does not model the keys pressed in the 100 ms before the next level is built.
- The spanning-tree count (exactly one passage fewer than rooms) is not proved. The model proves that every room is open and reachable, and that only rooms and passages are carved, but not that the carved passages are acyclic.
- Sizes below 3: `Generate` requires `cols >= 3 && rows >= 3`. With fewer than 2 rows the first write (main.js:38) throws, because `maze[1]` does not exist. With 2 or more rows but fewer than 2 columns that write extends a row past `cols` cells, so the grid stops being rectangular. With a size of exactly 2 (and the other at least 2) every write stays in bounds, but (1, 1) or the goal, or both, lie on the border: at 5 by 2 the goal is (3, 0), at 2 by 2 it is (0, 0). The property that the border is all wall then fails.
- `Game.OddLevelWinnable`: excludes the 3 by 3 grid. There the start is the goal and every neighbour is border, so no move is ever accepted and the goal test never fires.
- `MazeGenerator.Midpoint`: requires its two rooms to be two steps apart along one axis. The source computes it only for such pairs; for other pairs JavaScript's floating-point halving could give a fraction, which the model does not represent.
