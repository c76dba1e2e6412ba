# WifiPacman game core in Dafny

WifiPacman turns a Raspberry Pi Pico W into a one-player Pac-Man maze. The
board serves a web page, and the page's script runs the game. This project
models that game core:

- **Maze generation** (`grid.dfy`, `maze.dfy`). `generateMaze(w, h)` fills an
  `h × w` grid with walls (`1`). Its inner `carve(x, y)` then does randomized
  depth-first backtracking from (1, 1) in strides of two cells. It opens each
  anchor it reaches and the cell between it and the previous anchor.
  - The grid is a 2-D array indexed `[row, column]`.
  - `carve`'s closure state is the class `Maze.Carver`.
  - The loop body of `carve` is the method `CarveToward`, which is mutually
    recursive with `Carve`.
  - A ghost record lists the cells in the order they were opened. For each
    cell it also keeps the earlier open cell next to it. A ghost set holds the
    wall cells.
  - Termination uses lexicographic pairs. `Carve(x, y)` is measured by
    (wall set minus (x, y), 1) and `CarveToward` by (wall set, 0).
    `CarveToward` calls `Carve` only on an anchor that is still a wall, so
    removing that anchor makes the callee's set strictly smaller. `Carve` has
    already opened (x, y) when it calls `CarveToward`, so the wall set is no
    larger and the second component drops from 1 to 0.
- **Pellets and moves** (`game.dfy`).
  - `CollectPellets` is the pellet-initialisation loop.
  - `Target`, `CanMove`, `Filter` and `Next` specify `updatePac` on the value
    `State(pac, pellets, score, gameWon)`.
  - `Run` is the polling loop over any sequence of replies: it skips an
    empty reply and passes any other reply to `updatePac`.
  - The class `Game.Game` holds the script's global variables. Its method
    `UpdatePac` updates them in place and is proved to agree with `Next`.
- **Button priority** (`buttons.dfy`). The device answers `GET /buttons`
  with the first pressed button in the order LEFT, RIGHT, UP, DOWN, or `""`.

The random direction order of each `carve` call (a sort with a random
comparator) is a parameter: a function giving, for each anchor, some
permutation of the four directions. `carve` only runs on a cell that is still
a wall, so each anchor is carved at most once. One order per anchor therefore
covers every outcome of the random sorts, and every property is proved for
every such choice.

## Model

| member | source | states |
|---|---|---|
| Maze.StrideParity | WifiPacman.py:79-81 | a two-cell stride from an anchor (both coordinates odd) lands on an anchor, and the cell in between has an odd coordinate |
| Maze.Carver.constructor | WifiPacman.py:73 | the carving state starts from an all-wall `h × w` grid with nothing opened |
| Maze.Carver.Open | WifiPacman.py:77 | opening an interior cell sets exactly that cell to 0, removes it from the wall set, keeps every grid invariant, and records the cell (if it was a wall) as opened next to an already-open cell |
| Maze.Carver.Carve | WifiPacman.py:74-85 | carving from an interior anchor that is still a wall keeps the grid invariants: cells are 0/1, the border stays walls, no open cell has two even coordinates, and every open cell was opened next to an earlier open one, starting at (1, 1). The wall set only shrinks and the anchor ends up opened. On return every interior anchor one stride from it is open, and so is every interior anchor one stride from any anchor opened during the call |
| Maze.Carver.CarveToward | WifiPacman.py:78-83 | one direction of the loop keeps the same invariants and only shrinks the wall set. Afterwards the anchor two cells away in that direction is open if it is interior, and every anchor opened during the turn has all its interior stride neighbours open |
| Maze.FinishedByShuffle | WifiPacman.py:76-78 | trying every direction of a shuffled order tries all four directions, since the order is a permutation of them |
| Maze.AnchorsReached | WifiPacman.py:72-88 | if (1, 1) is open and every open interior anchor has all its interior stride neighbours open, then every interior anchor is open |
| Maze.Carver.PathTo | WifiPacman.py:77-82 | following the recorded neighbours gives, for every opened cell, a path of adjacent open cells from (1, 1) to it |
| Maze.Carver.AllReachable | WifiPacman.py:77-82 | every open cell is reachable from (1, 1) through open cells |
| Maze.GenerateMaze | WifiPacman.py:72-88 | for `w, h ≥ 3` and any direction orders: the result is `h × w`, every cell is 0 or 1, every border cell is a wall, (1, 1) is open, no open cell has two even coordinates, and every open cell is reachable from (1, 1), and every interior cell with two odd coordinates is open |
| Game.Target | WifiPacman.py:139-143 | LEFT/RIGHT/UP/DOWN give the neighbour one step in that direction (up lowers the row), and any other string gives Pac-Man's own cell |
| Game.CanMove | WifiPacman.py:132-135 | `canMove` is false outside the grid; inside the grid it is true exactly when the cell is 0 |
| Game.CanMoveStaysInside | WifiPacman.py:132-135 | in a maze whose border is walls, an accepted target is never on the border |
| Game.Filter | WifiPacman.py:149 | filtering keeps exactly the pellets not at the given cell, and never lengthens the list |
| Game.FilterRowMajor | WifiPacman.py:148-151 | on a duplicate-free row-major pellet list, filtering keeps the order and removes one pellet if one was at the cell, otherwise none |
| Game.Next | WifiPacman.py:137-162 | one `updatePac` call moves Pac-Man at most one step and only onto an open cell. Pellets are only removed and the list never grows. A won state is unchanged, and the win flag is only set when no pellet is left |
| Game.Run | WifiPacman.py:166-172 | the polling loop skips empty replies and passes every other reply to `updatePac`. It ends with Pac-Man on the start cell or an open cell and with a subset of the starting pellets. A won state is unchanged, and a win at the end means no pellet is left |
| Game.LoneCellNeverWins | WifiPacman.py:166-172 | when (1, 1) is the only open cell, the pellet list starts empty. Any replies the device can send (a direction or `""`) leave the state unchanged, so the game is never won |
| Game.CollectPellets | WifiPacman.py:93-99 | the initial pellet list holds exactly the open cells other than Pac-Man's, in strictly increasing row-major order (so without duplicates) |
| Game.RowMajorUnique | WifiPacman.py:93-99 | two row-major lists with the same members are equal, so those two facts determine the initial pellet list |
| Game.InitInv | WifiPacman.py:63-67 | the start state (Pac-Man at (1, 1), the collected pellets, score 0, not won) satisfies the game invariant when (1, 1) is open |
| Game.NextRejected | WifiPacman.py:138-144 | when the game is won, or `canMove` rejects the target, `updatePac` changes nothing |
| Game.NextAccepted | WifiPacman.py:144-155 | an accepted move puts Pac-Man on the target and removes only the pellet there. The score rises by 1 exactly when a pellet was removed, and `gameWon` is then true exactly when no pellets are left |
| Game.NextPreserves | WifiPacman.py:137-162 | `updatePac` keeps the invariant: Pac-Man is on an open cell with no pellet, pellets are distinct open cells, the score is not negative, and a won game has no pellets. It also conserves `score + |pellets|`, never grows the list, never lowers the score, and never clears `gameWon` |
| Game.RunPreserves | WifiPacman.py:137-162 | over any sequence of directions the invariant holds and `score + |pellets|` is conserved, so from the start the score is the number of pellets eaten. The pellet list never grows, and a won state is frozen |
| Game.CorridorScenario | WifiPacman.py:137-162 | on a 3 × 3 grid open at (1, 1) and (1, 2), the pellet list the initialisation loop builds is just (1, 2). DOWN then eats it, scores 1 and wins, and a later UP changes nothing |
| Game.Game.constructor | WifiPacman.py:63-99 | start-up: Pac-Man at (1, 1), score 0, not won, and the pellets are the open cells other than (1, 1) in row-major order |
| Game.Game.UpdatePac | WifiPacman.py:137-162 | the in-place update of `pac`, `pellets`, `score` and `gameWon` yields exactly `Next` of the old state, and keeps the invariant |
| Buttons.ButtonDirection | WifiPacman.py:199-203 | the reply is one of the four labels or `""` |
| Buttons.ButtonPriority | WifiPacman.py:199-203 | the reply is the i-th label exactly when button i is pressed and no earlier button in the order LEFT, RIGHT, UP, DOWN is; it is `""` exactly when no button is pressed |
| Buttons.ButtonMovesOneStep | WifiPacman.py:199-203 | whatever the buttons report, the move target is a neighbour of Pac-Man exactly when some button is pressed, and otherwise is Pac-Man's own cell |

## Left out

- Wi-Fi access-point setup, GPIO pin construction and the socket accept/recv/send loop (WifiPacman.py:1-24, 181-209) are hardware and network I/O. The four `.value()` reads are the boolean parameters of `ButtonDirection`.
- Canvas drawing in `draw()` and the DOM updates of the score and winner text (WifiPacman.py:101-130, 157-159) only render the state.
- `Date.now()` and the elapsed time (WifiPacman.py:66, 128, 156) are wall-clock values that no game decision uses.
- The timer, the `fetch` round trip and the redraw in the polling loop (WifiPacman.py:166-172) are asynchronous transport and rendering. `Run` takes the sequence of replies as a parameter. The loop's early return on a won game is covered too, because `updatePac` leaves a won state unchanged.
- `Math.random` and the distribution of the random-comparator sort (WifiPacman.py:76) are not modelled; the order is an arbitrary permutation per anchor.
- The floating-point canvas sizing `window.innerWidth / cell` (WifiPacman.py:56-61) is not modelled. `cols` and `rows` are the dimensions of the grid array.
- Maze.GenerateMaze: requires `w, h ≥ 3`. The source does not check this; a smaller window would carve (1, 1) on or past the border, or fail on a missing row.
- Game.Game.constructor: requires (1, 1) to be open. The source does not check this either; it holds for every maze `GenerateMaze` returns.
- Maze.GenerateMaze: does not state the maze's spanning-tree shape (no cycles among open cells). It proves the parts that shape rests on: each cell is opened next to an earlier open cell, each anchor at most once, no cell with two even coordinates is ever opened, and every interior anchor is opened.
