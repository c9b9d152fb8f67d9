# Rust Maze Escape: maze generation and game session

A model of the game logic of a small 2D maze game. The game generates a 21 x 21
maze by randomized depth-first carving. It places the goal at the first path
tile of a reverse row scan. The player moves one tile at a time at the
rate a repeating 0.12 s timer allows, with the arrow keys taken in the order
up, down, left, right. Reaching the goal shows a win message with the elapsed
time, and a restart button generates a new maze.

Modules:

- `MazeGrid` (grid.dfy): the defining vocabulary.
  - Tiles, positions, the 21 x 21 board.
  - Rooms (odd/odd interior cells) and links (the wall cell between two
    neighbouring rooms).
  - Walks and reachability.
  - Counts of carved cells.
  - The maze is an `array2<Tile>` indexed `[y, x]`. Each method that writes
    it keeps a value snapshot `Grid` in step with it (`Mirrors`), and every
    property is stated on that snapshot.
- `MazeGen` (generator.dfy): `generate_maze` and the recursive `carve`, as
  methods on the array.
  - The invariant `Carving` holds between every two carving steps.
  - The result satisfies `Generated`: the boundary ring is wall, every room
    is carved, every path tile is reachable from (1, 1), and there is exactly
    one link fewer than rooms. So the carved links form a spanning tree of
    the 100 rooms.
- `GoalScan` (goal.dfy): the goal scan as a specification (`LocateGoal`) and
  as the labelled-break loop on the array (`FindGoal`).
  - The game has the scan twice, in `setup` and in `restart_button_system`.
    Both sites call `FindGoal`.
- `MoveTimer` (timer.dfy): the repeating move timer, ticked by the frame
  duration in milliseconds, and its rate-limiting property over a run of
  frames.
- `WinClock` (clock.dfy): the elapsed time split into seconds and
  milliseconds, and the win message with its three-digit, zero-padded
  millisecond field.
- `Game` (session.dfy): the `Session` class.
  - Fields: maze, player position, goal, won flag, start instant, move timer.
  - Operations: the constructor (`main` plus `setup`), `PlayerInput` (the
    `player_input` system, one frame), and `Restart` (the state resets of
    `restart_button_system`).
  - Pure functions `Delta`, `NextPos` and `Follow`. They give the meaning of
    one admitted frame and of a run of frames.
  - The lemma `Winnable`: some run of key presses always takes the player
    from the start to the goal.

Inputs from the engine become parameters:

- the arrow keys held (`Keys`);
- the frame duration (`deltaMs`);
- readings of a millisecond clock (`nowMs`);
- the random shuffle. This is an oracle `shuffle` from the cell being carved
  to an index that selects one of the 24 orderings of the four moves.

`carve` is entered at most once per cell, so an oracle keyed by the cell
can stand for any sequence of outcomes of the random generator.
`EveryOrderReachable` shows that every ordering is selectable.

One consequence is proved (`GoalOfGenerated`): in a fully generated maze
every room is carved, so the scan stops at once on (19, 19). The goal is
therefore always the far corner room, the same cell as the scan's default.

## Model

| member | source | states |
|---|---|---|
| MazeGrid.AllWalls | main.rs:68 | the starting maze has 21 rows of 21 tiles and no path tile |
| MazeGrid.WithPath | main.rs:81-82 | writing a path tile into one cell makes exactly that cell and the earlier path tiles paths; the dimensions stay |
| MazeGrid.RoomTotal | main.rs:7-8 | a 21 x 21 board has exactly 100 rooms (odd/odd interior cells) |
| MazeGen.Permutation | main.rs:72-73 | whatever the shuffle index, the result holds the four moves, each once |
| MazeGen.EveryOrderReachable | main.rs:73 | every ordering of the moves is the result of some shuffle index, so the oracle loses no outcome of the shuffle |
| MazeGen.ShuffleMoves | main.rs:72-73 | the list `carve` iterates over is a permutation of the four moves |
| MazeGen.OpenCell | main.rs:81-82 | a tile write on the array changes the snapshot in that one cell only |
| MazeGen.ConnectedAfterCarve | main.rs:81-83 | carving a link next to a reachable room and the room beyond it keeps every path tile reachable from (1, 1) |
| MazeGen.CarveStep | main.rs:79-83 | when the target two cells away is an uncarved room, the link between is a wall too; carving both keeps the carving invariant with one more step, the target is then on the recursion stack, and old path tiles stay |
| MazeGen.ClosedByMoves | main.rs:75-86 | once each of the four moves, in whichever order, has left its target room carved or found no room there, every neighbouring room of the cell is carved |
| MazeGen.CarveToward | main.rs:76-85 | after one move of the loop the target cell is no room or a carved room, the invariant holds, the step count only grows, and the maze only gains path tiles |
| MazeGen.Carve | main.rs:70-87 | when `carve(c)` returns every room next to `c` is carved and `c` leaves the recursion stack with the invariant intact |
| MazeGen.InitialCarving | main.rs:89 | the all-wall board with (1, 1) opened meets the carving invariant with no steps and (1, 1) on the stack |
| MazeGen.RoomCarvedEverywhere | main.rs:89-90 | if (1, 1) is carved and no carved room has an uncarved room next to it, every room of the board is carved |
| MazeGen.CarvingDone | main.rs:90-91 | when the outermost `carve` returns, the maze is a spanning tree: wall boundary, all rooms carved, every path tile reachable, links one fewer than rooms; path tiles are one plus two per step |
| MazeGen.GeneratedCounts | main.rs:67-92 | a generated maze has 100 carved rooms, 99 carved links and 199 path tiles |
| MazeGen.GenerateMaze | main.rs:67-92 | returns a fresh 21 x 21 array holding a generated maze, made in 99 carving steps |
| GoalScan.ScanRowFinds | main.rs:103-108 | scanning one row downward from a column finds its highest-column path tile, and finds nothing exactly when the row has none there |
| GoalScan.ScanRowsFinds | main.rs:102-109 | scanning rows downward finds an interior path tile with none scanned before it, and finds nothing exactly when the region has no path tile |
| GoalScan.GoalIsFirstInScanOrder | main.rs:101-109 | the scan finds a tile exactly when the maze has an interior path tile; then the goal is that tile, no interior path tile precedes it in scan order; otherwise the goal is (19, 19) |
| GoalScan.GoalUnique | main.rs:101-109 | any interior path tile with no interior path tile before it in scan order is the goal |
| GoalScan.ScanFindsPath | main.rs:101-109 | with (1, 1) carved the scan always finds a tile |
| GoalScan.GoalOfGenerated | main.rs:101-110 | in a generated maze the goal is (19, 19) and differs from the start |
| GoalScan.FindGoal | main.rs:101-109 | the nested reverse loops with the labelled break return the goal the scan specifies, at both call sites |
| MoveTimer.Tick | main.rs:192 | a tick leaves less than one period elapsed, finishes exactly when the elapsed time reaches the 120 ms period, and otherwise just adds the frame time |
| MoveTimer.AdmittedAtMostOnePerPeriod | main.rs:51 | over any run of frames the timer admits at most one move per 120 ms of total frame time |
| MoveTimer.AdmittedExactly | main.rs:51 | when no frame is longer than the period, the admitted frames are exactly the completed periods |
| WinClock.Elapsed | main.rs:229 | the elapsed time is now minus start, and zero when the start is later |
| WinClock.Split | main.rs:229-231 | whole seconds and a millisecond remainder below 1000 that together make up the elapsed time |
| WinClock.Decimal | main.rs:245 | `{}` of a number gives at least one digit and never a leading zero |
| WinClock.DecimalRoundTrip | main.rs:245 | reading the printed digits back gives the number |
| WinClock.Pad3 | main.rs:245 | `{:03}` prints only digits |
| WinClock.Pad3RoundTrip | main.rs:245 | for milliseconds below 1000 `{:03}` prints exactly three digits that read back as the milliseconds |
| WinClock.WinMessageRoundTrip | main.rs:245 | the win message can be read back to the seconds and milliseconds it shows |
| WinClock.WinMessageInjective | main.rs:245 | different win times give different win messages |
| Game.PrecedenceOrder | main.rs:199-207 | taking the first pressed key of the list up, down, left, right is the game's if-else chain |
| Game.Delta | main.rs:196-211 | the step is a unit step on one axis, and zero exactly when no arrow key is held |
| Game.NextPos | main.rs:209-218 | an admitted frame moves the player exactly when a key is held and the target is on the board and a path tile; then the player lands on a neighbouring path tile, otherwise stays |
| Game.StepToward | main.rs:199-218 | every neighbouring path tile can be reached by some key in one admitted frame |
| Game.Follow | main.rs:213-218 | a player on a path tile stays on path tiles over any run of admitted frames |
| Game.FollowWalk | main.rs:213-218 | along any walk of path tiles there is a key sequence that arrives at the walk's end |
| Game.Winnable | main.rs:213-228 | in every generated maze some key sequence leads from (1, 1) to the goal |
| Game.Session.constructor | main.rs:46-52 | a fresh generated maze, the player at (1, 1), the goal scanned, not won, the clock started, the timer at zero, with the session invariant |
| Game.Session.PlayerInput | main.rs:188-231 | once won nothing changes and no message appears; otherwise the timer ticks, and on a finishing tick the player moves as `NextPos` says; the win message with the elapsed time appears exactly on the move that reaches the goal; the maze, goal and start stay |
| Game.Session.MoveStep | main.rs:196-231 | the player ends at `NextPos` of the keys, won is set exactly when that is the goal, and the shown time is then the split of the elapsed time |
| Game.Session.Restart | main.rs:328-407 | a fresh generated maze, the player at (1, 1), the goal scanned on the new maze, won cleared, the clock restarted at the given reading, the move timer left as it was |

## Left out

- Rendering: sprites, transforms, tile colours, text and button layout,
  despawning entities, the window and the camera. None of it feeds back into
  the game state.
- Fonts and the asset server.
- The random generator: `thread_rng` is replaced by the cell-keyed oracle
  `shuffle`.
- MazeGen.ShuffleMoves: promises only that its result is a permutation of
  the four moves, not which one, since the game's shuffle is random.
- MoveTimer.Tick: Bevy's `Timer` is an external library working on
  floating-point seconds (durations in nanoseconds). The model assumes its
  documented repeating behaviour on whole milliseconds. Sub-millisecond
  frame times and rounding are not modelled.
- WinClock.Elapsed: `Instant::now` and `elapsed` become readings of a
  millisecond clock passed as parameters. Finer resolution is not modelled.
- Input plumbing (`ButtonInput<KeyCode>`, `Time`, `Interaction` queries):
  the held keys, the frame time and the button press are parameters or the
  call itself.
- Game.Session.Restart: the game can only restart by pressing the button,
  which exists only after a win. The model lets `Restart` be called in any
  state, which is a superset of the game's behaviour.
- Engine scheduling: `player_input` and `restart_button_system` run in the
  same frame in an unspecified order, and `Commands` apply at the end of the
  frame. The model runs each call to completion, one after the other.
- Integer widths: positions are `usize`, and `pos - 1` at column 0 wraps to
  a huge value that fails the `< MAZE_WIDTH` test. The model uses `int` and
  an explicit `0 <=` test, which accepts and rejects the same moves.
- The recursion depth of `carve` (stack use) is not modelled.
- The second `win_text_query.is_empty()` test (main.rs:228) is always true
  at that point, because the early return at main.rs:188 already ensured it.
  The model keeps it as `!won`.
- MazeGen.CarvingDone: the spanning-tree property is stated as connectivity
  plus one link fewer than rooms. That the path between two rooms is unique
  follows from it but is not proved as a separate lemma.
