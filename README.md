# Maze: the grid and its two backtrackers

This project models the core of a small maze game in Dafny and proves what it does. The game has three parts:

- a rectangular grid of cells, each with four walls and a Visited and a Solution flag;
- a randomized recursive depth-first backtracker that carves a perfect maze starting from cell (0, 0);
- a second recursive backtracker that walks from (0, 0) to the bottom-right cell. It moves only through walls that are down, and it marks the cells of its way as the solution.

The game keeps the grid in a `Cell[numCols, numRows]` array and changes it in place. The model does the same: `MazeGame.Maze` is a class with an `array2<Cell>` field, and its methods mirror the game's methods loop for loop.

Each method also keeps a ghost `grid: map<Pos, Cell>` equal to the array's contents. `Valid()` states that equality. Each method's `ensures` ties the new state to a reference function of the old state, for example:

```
ensures Generate(old(grid), (currentCol, currentRow), randomNumGen.draws, old(randomNumGen.used))
  == Outcome(grid, randomNumGen.used, carved)
```

What the game promises is then proved as lemmas about those reference functions:

- the generator carves a spanning tree of `numCols * numRows - 1` passages with symmetric walls;
- the walker is sound: it enters every cell it explores, and every cell of its path, only through walls that are down, and it unmarks dead ends;
- the walker is complete: it always reaches the end of a perfect maze.

`MazeGame.Maze.GenerateAndWalkMaze` combines these. After it runs, the grid is a perfect maze whose solution cells are exactly the way from the start to the end, without the end cell.

Files, in dependency order:

- `cells.dfy` (`Cells`): the types `Direction`, `WallDirections` and `Cell`, as well as stepping to a neighbour and knocking down a wall. It also holds the east, west, south, north order in which the neighbour queries list directions, and the set of a grid's cells.
- `passages.dfy` (`Passages`): the passages the generator carves, in order, and the facts that make such a list a spanning tree.
- `random.dfy` (`RandomNumbers`): the random number generator as a stream of draws.
- `grids.dfy` (`Grids`): the grid as a value. It holds the carving step, the two neighbour queries and the walker's one-sided move test.
- `generation.dfy` (`Generation`): the generator replayed on grid values (`Generate`, `GenerateLoop`, `Branch`) and what one call of it guarantees.
- `walking.dfy` (`Walking`): the walker replayed on grid values (`Walk`, `WalkLoop`, `WalkStep`), with its soundness and completeness.
- `solving.dfy` (`Solving`): the statement for one new maze, from a fresh grid to a solved perfect maze.
- `maze.dfy` (`MazeGame`): the class `Maze` and its methods.

The walker's move test reads only the current cell's side of a wall. It is correct because the generator keeps walls symmetric. So symmetry is part of `Solving.PerfectMaze`, and `Grids.PassableBack` shows that under symmetry the one-sided test works both ways.

## Model

| member | source | states |
|---|---|---|
| Cells.Step | Maze/Maze.cs:236-285 | Stepping in direction `d` moves by one along the one coordinate that `d` names and keeps the other: East adds one to the column, West subtracts one, South adds one to the row and North subtracts one. These are the `NewCol`/`NewRow` offsets of both backtrackers (also Maze/Maze.cs:312-325). |
| Cells.Opposite | Maze/Maze.cs:239-285 | The neighbour's wall that comes down faces the other way: West exactly for East, East for West, South for North, North for South. It is never the same direction. |
| Cells.Listed | Maze/Maze.cs:383-418 | The `AddLast` chains of both neighbour queries add one direction per test that succeeds, so the list is as long as the number of successful tests and holds at most four directions (also Maze/Maze.cs:341-380). Which directions it holds is `Cells.ListedExact`. |
| Cells.ListedExact | Maze/Maze.cs:383-418 | A direction is in the list exactly when its test succeeded. This is the list that the chain of `AddLast` calls builds. |
| Cells.ListedDistinct | Maze/Maze.cs:383-418 | The list built by the neighbour queries names no direction twice. |
| Cells.KnockDown | Maze/Maze.cs:239-285 | Knocking down the wall facing `d` clears that flag and leaves the other three walls as they were. |
| Cells.StepBack | Maze/Maze.cs:239-285 | Stepping to a neighbour and back in the opposite direction returns to the start cell, and the opposite of the opposite direction is the direction itself. |
| Grids.FreshGrid | Maze/Maze.cs:190-208 | The fresh grid holds exactly the `numCols` by `numRows` cells. In every cell all four walls are up and neither flag is set: this is `new Cell()` (`Cells.NewCell`, all fields false) followed by the four wall writes, giving `Cells.WalledCell`. |
| Grids.Carve | Maze/Maze.cs:239-285 | One carving step: the current cell's wall facing `d` and the neighbour's wall facing back both come down. The cells stay the same. It changes exactly those two flags (see `Grids.CarveChanges`). |
| Grids.ClearVisits | Maze/Maze.cs:212-222 | Resetting keeps the same cells with the same walls and the same Solution flags, and leaves no cell visited. |
| Grids.AvailableDirections | Maze/Maze.cs:383-418 | The available directions number at most four. |
| Grids.AvailableSolutions | Maze/Maze.cs:341-380 | The solution moves number at most four. |
| Grids.AvailableExact | Maze/Maze.cs:341-418 | `d` is available exactly when the neighbour that way is on the grid and not visited. `d` is a solution move exactly when it is available and the current cell's own wall facing `d` is down. |
| Grids.AvailableDistinct | Maze/Maze.cs:341-418 | Neither list holds a direction twice. |
| Grids.Picked | Maze/Maze.cs:234 | Whatever index is drawn, the chosen direction leads to an unvisited neighbour on the grid. |
| Grids.PickedSolution | Maze/Maze.cs:310 | Whatever index is drawn, the chosen solution move leads to an unvisited neighbour on the grid, through a wall that is down on the current cell's side. |
| Grids.CarveChanges | Maze/Maze.cs:239-285 | A carving step changes exactly two wall flags: the current cell's wall facing `d` and the neighbour's wall facing back. It changes no Visited or Solution flag. |
| Grids.CarveKeepsUnvisited | Maze/Maze.cs:239-285 | A carving step visits no cell. |
| Grids.CarveKeepsSymmetry | Maze/Maze.cs:239-285 | If neighbours agree on every shared wall before a carving step, they still agree after it. |
| Grids.PassableBack | Maze/Maze.cs:341-380 | When walls are symmetric, whenever the one-sided wall test lets the walker move from `p` to `q`, it also lets it move from `q` back to `p`. |
| Passages.TargetsExact | Maze/Maze.cs:234-287 | Every cell the tree enters is the target of one of its passages. |
| Passages.SidesSymmetric | Maze/Maze.cs:239-285 | The knocked-down sides come in pairs: the wall of `p` facing `d` is knocked down exactly when the neighbour's wall facing back is. |
| Passages.SidesStayWithin | Maze/Maze.cs:239-285 | A knocked-down side of passages that stay on the grid belongs to a cell on the grid and faces another cell on the grid. |
| Passages.DistinctTargetsCount | Maze/Maze.cs:234-287 | Passages that enter pairwise different cells enter exactly one cell each, so there are as many entered cells as passages. |
| Passages.Graft | Maze/Maze.cs:234-287 | A tree from the root, then a passage from the root to a new cell, then a tree grown from that cell that shares no cell with the rest, together form one tree from the root. Its entered cells are the union of the parts. |
| Passages.TreeReaches | Maze/Maze.cs:234-287 | A chain of carved passages leads from the root to every cell the tree enters. |
| RandomNumbers.Draw | Maze/Maze.cs:234 | The drawn index lies in `[0, n)`. |
| RandomNumbers.Random.constructor | Maze/Maze.cs:96 | The generator starts at the beginning of its stream of draws, which stands for the time-based seed. |
| RandomNumbers.Random.Next | Maze/Maze.cs:234 | `Next(min, max)` returns a value in `[min, max)`, consumes exactly one draw, and returns `min` plus the index that draw selects. |
| Generation.Generate | Maze/Maze.cs:226-291 | One generator call keeps the same cells and leaves the current cell visited. Visits are only added, so recursion terminates. |
| Generation.GenerateLoop | Maze/Maze.cs:230-289 | The generator's `while` loop at a visited cell, re-querying the available directions after each branch. It keeps the cells and only adds visits. Its meaning is proved in `Generation.LoopGrows`. |
| Generation.Branch | Maze/Maze.cs:234-287 | One turn of the generator's loop strictly reduces the set of unvisited cells. This is the termination measure of the loop. |
| Generation.StartGrowing | Maze/Maze.cs:228 | Marking the cell visited starts a call in its loop state, with no passage carved yet. |
| Generation.GrowStep | Maze/Maze.cs:234-288 | One turn keeps the loop state: carve towards an unvisited neighbour, then a finished recursive call there. The passage and the subtree are appended, and strictly fewer cells are unvisited. |
| Generation.LoopGrows | Maze/Maze.cs:232-289 | The loop keeps that state until it exits, and at the exit the current cell has no unvisited neighbour on the grid. |
| Generation.GenerateGrows | Maze/Maze.cs:226-291 | After any call, for any draws: the cell is visited; visits are only added and no Solution flag changes; the walls knocked down are exactly the two sides of each passage carved; the passages form a tree grown from the cell into cells that were unvisited; and that cell and every cell entered have no unvisited neighbour left. |
| Generation.OpenedKeepsSymmetry | Maze/Maze.cs:239-285 | Knocking down walls in pairs keeps neighbours in agreement about every shared wall. |
| Generation.GeneratedFromFresh | Maze/Maze.cs:226-291 | From (0, 0) on a fresh grid, every cell ends up visited. The passages form a spanning tree that enters every other cell exactly once, so there are `numCols * numRows - 1` of them. The walls down are exactly their two sides, walls are symmetric, and every outer wall stays up. |
| Walking.Walk | Maze/Maze.cs:295-338 | One walker call keeps the same cells and only adds visits. Unless the call is at the ending cell, it leaves its cell visited. |
| Walking.WalkLoop | Maze/Maze.cs:306-337 | The walker's loop at a visited cell: it stops at once when a turn sets the done flag, and un-marks the cell when no open direction is left. It keeps the cells and only adds visits. Its meaning is proved in `Walking.LoopSound`. |
| Walking.WalkStep | Maze/Maze.cs:310-327 | Unless the step reached the ending cell, one turn of the walker's loop strictly reduces the set of unvisited cells. |
| Walking.StartWalking | Maze/Maze.cs:303-304 | Marking the cell visited and part of the solution starts the walker's loop state. |
| Walking.GiveUp | Maze/Maze.cs:336 | When no open direction is left, un-marking the cell ends a call that found nothing. It and every cell it newly visited are unmarked, are not the end, and have nowhere left to go. |
| Walking.StepFailed | Maze/Maze.cs:327-332 | After an unsuccessful recursive call into an open neighbour, the call is back in its loop state. |
| Walking.StepKept | Maze/Maze.cs:327 | What every call keeps composes along a move into an open neighbour: walls, visits, the untouched ending cell, and the other cells' Solution flags. |
| Walking.StepSolved | Maze/Maze.cs:327-330 | When the recursive call into an open neighbour found a path, the call returns at once, and the current cell followed by that path is a path found from the current cell. |
| Walking.WalkSound | Maze/Maze.cs:295-338 | Called with the done flag down, a walker call changes no wall and leaves the ending cell untouched. If it sets the done flag, its path runs to the end through walls down, into cells unvisited before, with no cell twice; and among its own cell and the cells it newly visited, exactly the path cells other than the end are solution cells. Otherwise it and every cell it newly visited are unmarked dead ends. Either way, every cell it newly visited is reached from its cell by a chain of moves through walls down into cells unvisited before (`Walking.Explored`). |
| Walking.LoopSound | Maze/Maze.cs:308-337 | The walker's loop keeps its state until it finds a path or runs out of open directions, with the same outcomes as WalkSound, including that every cell it newly visited was entered through walls down. |
| Walking.UnmarkExplored | Maze/Maze.cs:336 | Un-marking the cell at loop exit visits nothing, so every explored cell is still reached through walls down. |
| Walking.ChainPrepend | Maze/Maze.cs:310-327 | A move from the cell through its open side into an unvisited neighbour, followed by an open chain from that neighbour, is an open chain from the cell. |
| Walking.StepExplored | Maze/Maze.cs:310-327 | Cells explored compose along a move into an open neighbour: what the recursive call explored is reached from the current cell through walls down. |
| Walking.DeadEndCovers | Maze/Maze.cs:308-334 | After a call that found nothing, the call visited every cell along any open chain from its cell. |
| Walking.WalkFinds | Maze/Maze.cs:295-338 | Completeness: started with the done flag down, the walker sets it whenever an open chain leads from its cell to the end. |
| Solving.MazeCarved | Maze/Maze.cs:173-179 | Generating from (0, 0) on a fresh grid, for any draws, gives a perfect maze. Once its visits are reset, nothing is visited or marked. |
| Solving.MazeWalked | Maze/Maze.cs:179-182 | Walking such a maze from (0, 0) with the done flag down always reaches the end and changes no wall. Afterwards the solution cells are exactly the cells of its way other than the end cell. |
| Solving.PerfectMazeSolved | Maze/Maze.cs:167-183 | The two steps together, for any number of columns and rows above zero and any draws. |
| Solving.SolveAgain | Maze/Maze.cs:179-182 | Resetting the visits of a perfect maze and walking it again, whatever Solution flags are left over, still reaches the end. The walk follows a way through walls down with no cell twice, marks every cell of it before the end, and changes no wall. |
| MazeGame.Maze.constructor | Maze/Maze.cs:150-163 | Start is (0, 0) and end is the bottom-right cell. The first maze exists afterwards: a perfect maze with its solution marked, and the done flag up. |
| MazeGame.Maze.GenerateAndWalkMaze | Maze/Maze.cs:167-183 | Afterwards, with a freshly allocated array, the grid is a perfect maze carved by the returned passages and the done flag is up. Its solution cells are exactly the cells of the returned path from start to end, other than the end cell. |
| MazeGame.Maze.InitializeMazeGrid | Maze/Maze.cs:187-209 | Allocates a new `numCols` by `numRows` array and writes every cell with all four walls up, not visited and not a solution cell. |
| MazeGame.Maze.ResetMazeGrid | Maze/Maze.cs:212-222 | The new grid is the old one with every Visited flag cleared (see `Grids.ClearVisits`). The grid size and the done flag are not in its frame. |
| MazeGame.Maze.GetAvailableDirections | Maze/Maze.cs:383-418 | The array's answer is the reference list `AvailableDirections` of the grid, whose meaning `Grids.AvailableExact` and `Grids.AvailableDistinct` state. |
| MazeGame.Maze.GetAvailableSolutions | Maze/Maze.cs:341-380 | The array's answer is the reference list `AvailableSolutions`, which tests only the current cell's side of each wall. |
| MazeGame.Maze.GenerateMaze | Maze/Maze.cs:226-291 | The new grid, the draws consumed and the passages carved are those of `Generation.Generate` on the old grid. |
| MazeGame.Maze.CarveNeighbours | Maze/Maze.cs:230-289 | The generator's loop, specified as `Generation.GenerateLoop`. |
| MazeGame.Maze.GenerateBranch | Maze/Maze.cs:234-287 | One turn of the loop, specified as `Generation.Branch`. |
| MazeGame.Maze.KnockDownWall | Maze/Maze.cs:236-285 | Returns the neighbour in the chosen direction. The new grid is the old one with exactly the two sides of that wall knocked down. |
| MazeGame.Maze.WalkMaze | Maze/Maze.cs:295-338 | The new grid, draws consumed, done flag and path are those of `Walking.Walk` on the old state: at the end cell, the done flag is set and nothing is marked. |
| MazeGame.Maze.WalkNeighbours | Maze/Maze.cs:306-337 | The walker's loop and the final un-marking, specified as `Walking.WalkLoop`. When the done flag comes up, it returns at once. |
| MazeGame.Maze.WalkBranch | Maze/Maze.cs:310-327 | One turn of the walker's loop, specified as `Walking.WalkStep`. |
| MazeGame.Maze.SetCell | Maze/Maze.cs:303-304 | Storing one cell changes that array slot and nothing else, and keeps the ghost grid equal to the array. This is every cell write of the backtrackers (also Maze/Maze.cs:228, 242-284, 336). |

## Left out

- Rendering, input and the game's life cycle are not modelled: `Draw`, `Update` with its keyboard and gamepad polling, `LoadContent`, `UnloadContent`, the XNA constructor and `base.Initialize()`. Releasing the space bar makes `Update` call `generateAndWalkMaze` again (Maze/Maze.cs:438-442). `MazeGame.Maze.GenerateAndWalkMaze` needs only the configured size, so it can be called again in the same way.
- The grid size is not computed from the viewport (Maze/Maze.cs:151-152). The constructor takes `cols` and `rows` and requires both to be positive. The source does no validation of its own. With a negative size its array allocation at Maze/Maze.cs:190 throws. With a size of zero the allocation succeeds, and the first `generateMaze(0, 0)` indexes outside the empty array.
- `Cell.UpperLeft` is not modelled. It is a pixel position, in floating point, used only for drawing.
- `System.Random` seeded from the clock is not modelled. `RandomNumbers.Random` replays a stream of draws passed to the constructor, and a draw selects `draws[i] % n`; once the stream runs out, every draw selects 0. The proofs hold for every stream. The distribution of the draws is not modelled.
- `Maze/Program.cs` only creates and runs the game. It is not part of this model.
- `Cell` and `WallDirections` are classes in the source and values here, stored into the array whole. The game creates a separate `Cell` for every array slot and never shares one, so this loses nothing apart from the object identity.
- `LinkedList<Direction>` is a sequence, and `ElementAt(k)` indexes into it.
- Before the first maze exists, the source's `mazeGrid` is null. Here it is an empty array.
- Some helpers factor inline code out of the source's methods, so that each proof stays small:
  - `MazeGame.Maze.GenerateBranch`, `MazeGame.Maze.KnockDownWall` and `MazeGame.Maze.WalkBranch` are the bodies of the two loops;
  - `MazeGame.Maze.CarveNeighbours` and `MazeGame.Maze.WalkNeighbours` are the loops themselves;
  - `MazeGame.Maze.SetCell` stores one cell.

  The order of reads and writes is the source's.
- MazeGame.Maze.WalkMaze: the source's two writes to the same cell at Maze/Maze.cs:303-304 are stored as one cell update. Nothing reads the cell between them.
- The ghost results are not in the source. They are the passages carved by `GenerateMaze` and the path found by `WalkMaze`, and they state what the methods did.
- The model uses unbounded integers and unbounded recursion. It does not model the source's `int` overflow or a stack overflow on very large grids.
- Walking.WalkSound: its outcome is proved only for a walk started with the done flag down. This is how `generateAndWalkMaze` starts the walker. With the flag already up, only `Walking.Walk`'s own contract applies.
- At the ending cell the code sets the done flag and returns before marking anything, so the ending cell is never marked visited or solution. Some descriptions of this algorithm mark the end cell as part of the solution. The model follows the code, and `Solving.SolutionMarked` excludes the end cell.
- The walker takes no start and end parameters and reports success through the done flag, not a return value. The model follows the code in this too.
