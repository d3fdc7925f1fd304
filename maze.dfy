/**
 * The maze game's grid and its two recursive backtrackers: the randomized
 * generator that carves a perfect maze and the walker that finds a path
 * through it.
 */
module MazeGame {
  import opened Cells
  import opened Grids
  import opened Passages
  import opened Generation
  import opened RandomNumbers
  import opened Walking
  import opened Solving

  class Maze {
    /** Grid size, fixed from the window size before the first maze is made. */
    const numCols: int
    const numRows: int
    /** The starting cell (0, 0) and the ending cell, the bottom-right one. */
    const startingCol: int
    const startingRow: int
    const endingCol: int
    const endingRow: int
    /** The whole maze: cell (col, row) is `mazeGrid[col, row]`. */
    var mazeGrid: array2<Cell>
    /** The random number generator both backtrackers draw from. */
    const randomNumGen: Random
    /** Set once the walker has reached the ending cell. */
    var isDone: bool
    /** The grid's cells as a value, kept equal to the array's contents. */
    ghost var grid: Grid

    /**
     * The game's set-up: the grid size is given (the window size decides it
     * in the game), the start is the top-left corner and the end the
     * bottom-right one; then the first maze is generated and walked. Until
     * then the grid holds no cell.
     */
    constructor (cols: int, rows: int, draws: seq<nat>)
      requires 0 < cols && 0 < rows
      ensures Valid() && isDone
      ensures numCols == cols && numRows == rows
      ensures exists carved :: PerfectMaze(grid, numCols, numRows, carved)
      ensures exists path :: SolutionMarked(grid, (startingCol, startingRow), (endingCol, endingRow), path)
    {
      numCols, numRows := cols, rows;
      startingCol, startingRow := 0, 0;
      endingCol, endingRow := cols - 1, rows - 1;
      randomNumGen := new Random(draws);
      mazeGrid := new Cell[0, 0];
      isDone := false;
      grid := map[];
      new;
      ghost var carved, path := GenerateAndWalkMaze();
    }

    /** The grid size is positive, the start is the top-left corner and the end the bottom-right one. */
    ghost predicate Configured()
    {
      && 0 < numCols && 0 < numRows
      && startingCol == 0 && startingRow == 0
      && endingCol == numCols - 1 && endingRow == numRows - 1
    }

    /** The array has the configured size, and `grid` holds exactly its cells. */
    ghost predicate Valid()
      reads this, mazeGrid
    {
      && Configured()
      && mazeGrid.Length0 == numCols && mazeGrid.Length1 == numRows
      && grid.Keys == AllCells(numCols, numRows)
      && forall c, r :: 0 <= c < numCols && 0 <= r < numRows ==> mazeGrid[c, r] == grid[(c, r)]
    }

    /**
     * A new maze: the done flag goes down, the grid is rebuilt with every
     * wall up, the generator carves from the start, the visits are cleared
     * and the walker solves the maze from the start. The result is a perfect
     * maze whose solution cells are exactly the way from the start to the
     * end, without the end itself.
     */
    method GenerateAndWalkMaze() returns (ghost carved: seq<Passage>, ghost path: seq<Pos>)
      requires Configured()
      modifies this`isDone, this`mazeGrid, this`grid, randomNumGen`used
      ensures Valid() && fresh(mazeGrid) && isDone
      ensures PerfectMaze(grid, numCols, numRows, carved)
      ensures SolutionMarked(grid, (startingCol, startingRow), (endingCol, endingRow), path)
    {
      isDone := false;
      InitializeMazeGrid();
      ghost var initial, used := grid, randomNumGen.used;
      assert initial == FreshGrid(numCols, numRows) && (startingCol, startingRow) == (0, 0);
      carved := GenerateMaze(startingCol, startingRow);
      MazeCarved(numCols, numRows, randomNumGen.draws, used, grid, randomNumGen.used, carved);
      ResetMazeGrid();
      ghost var cleared, walkFrom := grid, randomNumGen.used;
      assert ReadyToWalk(cleared, numCols, numRows, carved) && !isDone;
      path := WalkMaze(startingCol, startingRow);
      MazeWalked(cleared, numCols, numRows, carved, randomNumGen.draws, walkFrom,
                 grid, randomNumGen.used, isDone, path);
    }

    /** Allocates a new grid of the configured size in which every cell has all four walls up. */
    method InitializeMazeGrid()
      requires Configured()
      modifies this`mazeGrid, this`grid
      ensures Valid() && fresh(mazeGrid)
      ensures grid == FreshGrid(numCols, numRows)
    {
      mazeGrid := new Cell[numCols, numRows];
      for col := 0 to numCols
        invariant fresh(mazeGrid) && mazeGrid.Length0 == numCols && mazeGrid.Length1 == numRows
        invariant forall c, r :: 0 <= c < col && 0 <= r < numRows ==> mazeGrid[c, r] == WalledCell
      {
        for row := 0 to numRows
          invariant fresh(mazeGrid) && mazeGrid.Length0 == numCols && mazeGrid.Length1 == numRows
          invariant forall c, r :: 0 <= c < col && 0 <= r < numRows ==> mazeGrid[c, r] == WalledCell
          invariant forall r :: 0 <= r < row ==> mazeGrid[col, r] == WalledCell
        {
          var cell := NewCell;
          cell := cell.(walls := cell.walls.(north := true));
          cell := cell.(walls := cell.walls.(east := true));
          cell := cell.(walls := cell.walls.(south := true));
          cell := cell.(walls := cell.walls.(west := true));
          mazeGrid[col, row] := cell;
        }
      }
      grid := FreshGrid(numCols, numRows);
    }

    /** Clears the visited flag of every cell and leaves walls and solution flags as they are. */
    method ResetMazeGrid()
      requires Valid()
      modifies this`grid, mazeGrid
      ensures Valid() && grid == ClearVisits(old(grid))
    {
      for col := 0 to numCols
        invariant grid == old(grid)
        invariant forall c, r :: 0 <= c < numCols && 0 <= r < numRows ==>
          mazeGrid[c, r] == if c < col then grid[(c, r)].(visited := false) else grid[(c, r)]
      {
        for row := 0 to numRows
          invariant grid == old(grid)
          invariant forall c, r :: 0 <= c < numCols && 0 <= r < numRows ==>
            mazeGrid[c, r] == if c < col || (c == col && r < row) then grid[(c, r)].(visited := false) else grid[(c, r)]
        {
          mazeGrid[col, row] := mazeGrid[col, row].(visited := false);
        }
      }
      grid := ClearVisits(grid);
    }

    /** How `grid` sees the four neighbours of a cell, read off the array. */
    lemma Neighbours(c: int, r: int)
      requires Valid() && Inside((c, r), numCols, numRows)
      ensures (c, r) in grid && grid[(c, r)] == mazeGrid[c, r]
      ensures Enterable(grid, (c, r), East) == (c + 1 < numCols && !mazeGrid[c + 1, r].visited)
      ensures Enterable(grid, (c, r), West) == (c - 1 >= 0 && !mazeGrid[c - 1, r].visited)
      ensures Enterable(grid, (c, r), South) == (r + 1 < numRows && !mazeGrid[c, r + 1].visited)
      ensures Enterable(grid, (c, r), North) == (r - 1 >= 0 && !mazeGrid[c, r - 1].visited)
      ensures OpenTo(grid, (c, r), East) == (Enterable(grid, (c, r), East) && !mazeGrid[c, r].walls.east)
      ensures OpenTo(grid, (c, r), West) == (Enterable(grid, (c, r), West) && !mazeGrid[c, r].walls.west)
      ensures OpenTo(grid, (c, r), South) == (Enterable(grid, (c, r), South) && !mazeGrid[c, r].walls.south)
      ensures OpenTo(grid, (c, r), North) == (Enterable(grid, (c, r), North) && !mazeGrid[c, r].walls.north)
    {
    }

    /**
     * The directions from the current cell to a neighbour on the grid that
     * has not been visited yet, east, west, south, north in that order.
     */
    function GetAvailableDirections(currentCol: int, currentRow: int): (ds: seq<Direction>)
      reads this, mazeGrid
      requires Valid() && Inside((currentCol, currentRow), numCols, numRows)
      ensures ds == AvailableDirections(grid, (currentCol, currentRow))
    {
      var east := currentCol + 1 < numCols && !mazeGrid[currentCol + 1, currentRow].visited;
      var west := currentCol - 1 >= 0 && !mazeGrid[currentCol - 1, currentRow].visited;
      var south := currentRow + 1 < numRows && !mazeGrid[currentCol, currentRow + 1].visited;
      var north := currentRow - 1 >= 0 && !mazeGrid[currentCol, currentRow - 1].visited;
      Neighbours(currentCol, currentRow);
      Listed(east, west, south, north)
    }

    /**
     * The available directions whose wall on the current cell is down. Only
     * the current cell's side of the wall is looked at.
     */
    function GetAvailableSolutions(currentCol: int, currentRow: int): (ds: seq<Direction>)
      reads this, mazeGrid
      requires Valid() && Inside((currentCol, currentRow), numCols, numRows)
      ensures ds == AvailableSolutions(grid, (currentCol, currentRow))
    {
      var walls := mazeGrid[currentCol, currentRow].walls;
      var east := currentCol + 1 < numCols && !mazeGrid[currentCol + 1, currentRow].visited && !walls.east;
      var west := currentCol - 1 >= 0 && !mazeGrid[currentCol - 1, currentRow].visited && !walls.west;
      var south := currentRow + 1 < numRows && !mazeGrid[currentCol, currentRow + 1].visited && !walls.south;
      var north := currentRow - 1 >= 0 && !mazeGrid[currentCol, currentRow - 1].visited && !walls.north;
      Neighbours(currentCol, currentRow);
      Listed(east, west, south, north)
    }

    /**
     * The randomized recursive backtracker. It marks the current cell
     * visited and then runs its loop, `CarveNeighbours`. The ghost result
     * lists the passages carved, in order.
     */
    method GenerateMaze(currentCol: int, currentRow: int) returns (ghost carved: seq<Passage>)
      requires Valid() && Inside((currentCol, currentRow), numCols, numRows)
      modifies this`grid, mazeGrid, randomNumGen`used
      ensures Valid()
      ensures Generate(old(grid), (currentCol, currentRow), randomNumGen.draws, old(randomNumGen.used))
        == Outcome(grid, randomNumGen.used, carved)
      decreases Unvisited(grid), if grid[(currentCol, currentRow)].visited then 1 else 0, 0
    {
      ghost var root := (currentCol, currentRow);
      SetCell(currentCol, currentRow, mazeGrid[currentCol, currentRow].(visited := true));
      assert Unvisited(grid) == Unvisited(old(grid)) - {root};
      carved := CarveNeighbours(currentCol, currentRow);
    }

    /**
     * The generator's loop at a visited cell: while some neighbour is
     * unvisited, carves a branch towards one of them. The ghost result lists
     * the passages carved, in order.
     */
    method CarveNeighbours(currentCol: int, currentRow: int) returns (ghost carved: seq<Passage>)
      requires Valid() && Inside((currentCol, currentRow), numCols, numRows)
      requires grid[(currentCol, currentRow)].visited
      modifies this`grid, mazeGrid, randomNumGen`used
      ensures Valid()
      ensures GenerateLoop(old(grid), (currentCol, currentRow), randomNumGen.draws, old(randomNumGen.used))
        == Outcome(grid, randomNumGen.used, carved)
      decreases Unvisited(grid), 0, 2
    {
      ghost var root := (currentCol, currentRow);
      ghost var out := GenerateLoop(grid, root, randomNumGen.draws, randomNumGen.used);
      var availableDirections := GetAvailableDirections(currentCol, currentRow);
      carved := [];
      while |availableDirections| > 0
        invariant Valid()
        invariant availableDirections == AvailableDirections(grid, root)
        invariant grid[root].visited
        invariant Unvisited(grid) <= Unvisited(old(grid))
        invariant var rest := GenerateLoop(grid, root, randomNumGen.draws, randomNumGen.used);
          out.grid == rest.grid && out.used == rest.used && out.carved == carved + rest.carved
        decreases Unvisited(grid)
      {
        ghost var branch := GenerateBranch(currentCol, currentRow, availableDirections);
        Associate(carved, branch, GenerateLoop(grid, root, randomNumGen.draws, randomNumGen.used).carved);
        carved := carved + branch;
        availableDirections := GetAvailableDirections(currentCol, currentRow);
      }
    }

    /**
     * One turn of the generator's loop: draws one of the available
     * directions, knocks down the wall that way and runs the generator in
     * the neighbour. The ghost result lists the passage opened and then the
     * passages carved from the neighbour.
     */
    method GenerateBranch(currentCol: int, currentRow: int, availableDirections: seq<Direction>)
      returns (ghost carved: seq<Passage>)
      requires Valid() && Inside((currentCol, currentRow), numCols, numRows)
      requires availableDirections == AvailableDirections(grid, (currentCol, currentRow))
      requires |availableDirections| > 0
      modifies this`grid, mazeGrid, randomNumGen`used
      ensures Valid()
      ensures Branch(old(grid), (currentCol, currentRow), randomNumGen.draws, old(randomNumGen.used))
        == Outcome(grid, randomNumGen.used, carved)
      decreases Unvisited(grid), 0, 1
    {
      ghost var root := (currentCol, currentRow);
      ghost var before := grid;
      var k := randomNumGen.Next(0, |availableDirections|);
      assert k == Draw(randomNumGen.draws, old(randomNumGen.used), |availableDirections|);
      assert grid == before;
      var currentDirection := availableDirections[k];
      Picked(before, root, k);
      var newCol, newRow := KnockDownWall(currentCol, currentRow, currentDirection);
      assert randomNumGen.used == old(randomNumGen.used) + 1;
      ghost var knocked := grid;
      CarveKeepsUnvisited(before, root, currentDirection);
      assert !grid[(newCol, newRow)].visited by {
        CarveChanges(before, root, currentDirection);
      }
      ghost var out := Generate(knocked, (newCol, newRow), randomNumGen.draws, randomNumGen.used);
      assert out == Generate(Carve(before, root, currentDirection), Step(root, currentDirection),
                             randomNumGen.draws, old(randomNumGen.used) + 1);
      ghost var sub := GenerateMaze(newCol, newRow);
      assert grid == out.grid && randomNumGen.used == out.used && sub == out.carved;
      assert Branch(before, root, randomNumGen.draws, old(randomNumGen.used))
        == Outcome(out.grid, out.used, [Passage(root, currentDirection)] + out.carved);
      carved := [Passage(root, currentDirection)] + sub;
    }

    /**
     * The carving step of the generator: knocks down the current cell's wall
     * facing the chosen direction and the neighbour's wall facing back, and
     * returns the neighbour's position.
     */
    method KnockDownWall(currentCol: int, currentRow: int, currentDirection: Direction) returns (newCol: int, newRow: int)
      requires Valid() && Inside((currentCol, currentRow), numCols, numRows)
      requires Inside(Step((currentCol, currentRow), currentDirection), numCols, numRows)
      modifies this`grid, mazeGrid
      ensures Valid()
      ensures (newCol, newRow) == Step((currentCol, currentRow), currentDirection)
      ensures grid == Carve(old(grid), (currentCol, currentRow), currentDirection)
    {
      var here := mazeGrid[currentCol, currentRow];
      SetCell(currentCol, currentRow, here.(walls := KnockDown(here.walls, currentDirection)));
      newCol, newRow := currentCol, currentRow;
      if currentDirection == East { newCol := newCol + 1; }
      if currentDirection == West { newCol := newCol - 1; }
      if currentDirection == North { newRow := newRow - 1; }
      if currentDirection == South { newRow := newRow + 1; }
      var there := mazeGrid[newCol, newRow];
      SetCell(newCol, newRow, there.(walls := KnockDown(there.walls, Opposite(currentDirection))));
    }

    /**
     * The recursive backtracking walker. At the ending cell it sets the done
     * flag and returns before marking anything; anywhere else it marks the
     * cell visited and part of the solution and then runs its loop,
     * `WalkNeighbours`. The ghost result is the path found, from the current
     * cell to the end.
     */
    method WalkMaze(currentCol: int, currentRow: int) returns (ghost path: seq<Pos>)
      requires Valid() && Inside((currentCol, currentRow), numCols, numRows)
      modifies this`isDone, this`grid, mazeGrid, randomNumGen`used
      ensures Valid()
      ensures Walk(old(grid), (currentCol, currentRow), (endingCol, endingRow),
                   randomNumGen.draws, old(randomNumGen.used), old(isDone))
        == Trip(grid, randomNumGen.used, isDone, path)
      decreases Unvisited(grid), if grid[(currentCol, currentRow)].visited then 1 else 0, 0
    {
      ghost var root := (currentCol, currentRow);
      ghost var goal := (endingCol, endingRow);
      if currentCol == endingCol && currentRow == endingRow {
        isDone := true;
        path := [root];
        return;
      }
      SetCell(currentCol, currentRow, mazeGrid[currentCol, currentRow].(visited := true, solution := true));
      assert Unvisited(grid) == Unvisited(old(grid)) - {root};
      path := WalkNeighbours(currentCol, currentRow);
    }

    /**
     * The walker's loop at a visited cell: while some open direction leads
     * to an unvisited neighbour, walks there, returning as soon as the done
     * flag is up; with no direction left the cell is no longer part of the
     * solution. The ghost result is the path found, if any.
     */
    method WalkNeighbours(currentCol: int, currentRow: int) returns (ghost path: seq<Pos>)
      requires Valid() && Inside((currentCol, currentRow), numCols, numRows)
      requires grid[(currentCol, currentRow)].visited
      modifies this`isDone, this`grid, mazeGrid, randomNumGen`used
      ensures Valid()
      ensures WalkLoop(old(grid), (currentCol, currentRow), (endingCol, endingRow),
                       randomNumGen.draws, old(randomNumGen.used), old(isDone))
        == Trip(grid, randomNumGen.used, isDone, path)
      decreases Unvisited(grid), 0, 2
    {
      ghost var root := (currentCol, currentRow);
      ghost var goal := (endingCol, endingRow);
      ghost var out := WalkLoop(grid, root, goal, randomNumGen.draws, randomNumGen.used, isDone);
      var availableDirections := GetAvailableSolutions(currentCol, currentRow);
      while |availableDirections| > 0
        invariant Valid()
        invariant availableDirections == AvailableSolutions(grid, root)
        invariant grid[root].visited
        invariant Unvisited(grid) <= Unvisited(old(grid))
        invariant out == WalkLoop(grid, root, goal, randomNumGen.draws, randomNumGen.used, isDone)
        decreases Unvisited(grid)
      {
        path := WalkBranch(currentCol, currentRow, availableDirections);
        if isDone {
          return;
        }
        availableDirections := GetAvailableSolutions(currentCol, currentRow);
      }
      SetCell(currentCol, currentRow, mazeGrid[currentCol, currentRow].(solution := false));
      path := [];
    }

    /**
     * One turn of the walker's loop: draws one of the open directions and
     * walks into that neighbour. The ghost result is the path found from the
     * current cell, if any.
     */
    method WalkBranch(currentCol: int, currentRow: int, availableDirections: seq<Direction>)
      returns (ghost path: seq<Pos>)
      requires Valid() && Inside((currentCol, currentRow), numCols, numRows)
      requires availableDirections == AvailableSolutions(grid, (currentCol, currentRow))
      requires |availableDirections| > 0
      modifies this`isDone, this`grid, mazeGrid, randomNumGen`used
      ensures Valid()
      ensures WalkStep(old(grid), (currentCol, currentRow), (endingCol, endingRow),
                       randomNumGen.draws, old(randomNumGen.used), old(isDone))
        == Trip(grid, randomNumGen.used, isDone, path)
      decreases Unvisited(grid), 0, 1
    {
      ghost var root := (currentCol, currentRow);
      ghost var before, done := grid, isDone;
      var k := randomNumGen.Next(0, |availableDirections|);
      assert k == Draw(randomNumGen.draws, old(randomNumGen.used), |availableDirections|);
      assert grid == before && isDone == done;
      var currentDirection := availableDirections[k];
      PickedSolution(before, root, k);
      var newCol, newRow := currentCol, currentRow;
      if currentDirection == East { newCol := newCol + 1; }
      if currentDirection == West { newCol := newCol - 1; }
      if currentDirection == North { newRow := newRow - 1; }
      if currentDirection == South { newRow := newRow + 1; }
      assert (newCol, newRow) == Step(root, currentDirection);
      ghost var out := Walk(before, (newCol, newRow), (endingCol, endingRow),
                            randomNumGen.draws, randomNumGen.used, done);
      ghost var sub := WalkMaze(newCol, newRow);
      assert out == Trip(grid, randomNumGen.used, isDone, sub);
      path := [root] + sub;
    }

    /** Stores `cell` at (col, row), keeping `grid` equal to the array. */
    method SetCell(col: int, row: int, cell: Cell)
      requires Valid() && Inside((col, row), numCols, numRows)
      modifies this`grid, mazeGrid
      ensures Valid()
      ensures grid == old(grid)[(col, row) := cell]
    {
      mazeGrid[col, row] := cell;
      grid := grid[(col, row) := cell];
    }
  }
}
