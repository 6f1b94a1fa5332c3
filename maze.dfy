/** A rectangular maze of cells, some blocked, with a start and a goal location; the
    generic searches find a way through it, which can then be marked on the grid and
    cleared again. */
module Maze {
  import opened Wrappers
  import GenericSearch

  datatype Cell = Empty | Blocked | StartCell | GoalCell | PathCell

  /** The character each kind of cell stands for. */
  function Symbol(c: Cell): (ch: char)
    ensures ch != '\n'
  {
    match c
    case Empty => ' '
    case Blocked => 'X'
    case StartCell => 'S'
    case GoalCell => 'G'
    case PathCell => '*'
  }

  datatype MazeLocation = MazeLocation(row: int, column: int)

  function Abs(x: int): nat
  {
    if x < 0 then -x else x
  }

  predicate InBounds(ml: MazeLocation, rows: int, columns: int)
  {
    0 <= ml.row < rows && 0 <= ml.column < columns
  }

  /** `grid` has `rows` rows of `columns` cells each. */
  ghost predicate Rectangular(grid: seq<seq<Cell>>, rows: int, columns: int)
  {
    |grid| == rows && forall r :: 0 <= r < |grid| ==> |grid[r]| == columns
  }

  /** `ml` is a cell of `grid` that is not blocked. */
  predicate Open(grid: seq<seq<Cell>>, ml: MazeLocation)
  {
    0 <= ml.row < |grid| && 0 <= ml.column < |grid[ml.row]| && grid[ml.row][ml.column] != Blocked
  }

  /** `a` and `b` are one step apart horizontally or vertically. */
  ghost predicate Adjacent(a: MazeLocation, b: MazeLocation)
  {
    Abs(a.row - b.row) + Abs(a.column - b.column) == 1
  }

  /** The four neighbours of `ml`, in the order they are tried: down, up, right, left. */
  function Around(ml: MazeLocation): (s: seq<MazeLocation>)
    ensures |s| == 4
  {
    [MazeLocation(ml.row + 1, ml.column), MazeLocation(ml.row - 1, ml.column),
     MazeLocation(ml.row, ml.column + 1), MazeLocation(ml.row, ml.column - 1)]
  }

  /** The four locations tried are exactly the neighbours. */
  lemma AroundIff(ml: MazeLocation, x: MazeLocation)
    ensures x in Around(ml) <==> Adjacent(ml, x)
  {
    var s := Around(ml);
    if Adjacent(ml, x) {
      assert x == s[0] || x == s[1] || x == s[2] || x == s[3];
    }
  }

  /** `[x]` when `x` is open, else nothing. */
  function OpenOnly(grid: seq<seq<Cell>>, x: MazeLocation): (r: seq<MazeLocation>)
    ensures forall y :: y in r <==> y == x && Open(grid, x)
  {
    if Open(grid, x) then [x] else []
  }

  /** The reference definition of the moves out of `ml`: the open neighbours, in the order
      down, up, right, left. */
  function Neighbours(grid: seq<seq<Cell>>, ml: MazeLocation): (r: seq<MazeLocation>)
    ensures |r| <= 4
  {
    var around := Around(ml);
    OpenOnly(grid, around[0]) + OpenOnly(grid, around[1]) + OpenOnly(grid, around[2]) + OpenOnly(grid, around[3])
  }

  /** The moves out of `ml` lead exactly to its open neighbours. */
  lemma NeighboursIff(grid: seq<seq<Cell>>, ml: MazeLocation, x: MazeLocation)
    ensures x in Neighbours(grid, ml) <==> Open(grid, x) && Adjacent(ml, x)
  {
    AroundIff(ml, x);
    var around := Around(ml);
    assert x in Around(ml) <==> x == around[0] || x == around[1] || x == around[2] || x == around[3];
  }

  /** Inside a rectangular grid, a location is open exactly when it lies within the
      bounds and its cell is not blocked. */
  lemma OpenInside(grid: seq<seq<Cell>>, rows: int, columns: int, x: MazeLocation)
    requires Rectangular(grid, rows, columns)
    ensures Open(grid, x) <==> InBounds(x, rows, columns) && grid[x.row][x.column] != Blocked
  {
  }

  /** A grid as the constructor leaves it (and as marking then clearing leaves it): the
      goal cell holds GOAL, the start cell START unless it is also the goal, and every
      other cell is EMPTY or BLOCKED. */
  ghost predicate CleanCell(x: Cell, ml: MazeLocation, start: MazeLocation, goal: MazeLocation)
  {
    if ml == goal then x == GoalCell
    else if ml == start then x == StartCell
    else x == Empty || x == Blocked
  }

  ghost predicate Clean(grid: seq<seq<Cell>>, rows: int, columns: int, start: MazeLocation, goal: MazeLocation)
  {
    && Rectangular(grid, rows, columns)
    && forall r, c :: 0 <= r < rows && 0 <= c < columns ==> CleanCell(grid[r][c], MazeLocation(r, c), start, goal)
  }

  /** What a cell at `ml` holding `x` holds after the cells of `path` are overwritten with
      `mark` and then the start and the goal cell are restored, the goal last. */
  function Stamped(x: Cell, ml: MazeLocation, path: seq<MazeLocation>, mark: Cell,
                   start: MazeLocation, goal: MazeLocation): Cell
  {
    if ml == goal then GoalCell
    else if ml == start then StartCell
    else if ml in path then mark
    else x
  }

  /** Clearing a path after marking it gives back a clean cell, as long as the path does
      not run through a blocked cell. */
  lemma ClearAfterMark(x: Cell, ml: MazeLocation, path: seq<MazeLocation>, start: MazeLocation, goal: MazeLocation)
    requires CleanCell(x, ml, start, goal)
    requires ml in path ==> x != Blocked
    ensures Stamped(Stamped(x, ml, path, PathCell, start, goal), ml, path, Empty, start, goal) == x
  {
  }

  /** `grid` with the cell at `ml` replaced by `x`. */
  function Put(grid: seq<seq<Cell>>, ml: MazeLocation, x: Cell): (g: seq<seq<Cell>>)
    requires 0 <= ml.row < |grid| && 0 <= ml.column < |grid[ml.row]|
    ensures |g| == |grid|
    ensures forall r :: 0 <= r < |g| ==> |g[r]| == |grid[r]|
    ensures forall r, c :: 0 <= r < |g| && 0 <= c < |g[r]| ==>
              g[r][c] == if MazeLocation(r, c) == ml then x else grid[r][c]
  {
    grid[ml.row := grid[ml.row][ml.column := x]]
  }

  /** Two grids of the same shape that agree cell by cell are equal. */
  lemma {:induction false} SameGrid(g: seq<seq<Cell>>, h: seq<seq<Cell>>, rows: int, columns: int)
    requires Rectangular(g, rows, columns) && Rectangular(h, rows, columns)
    requires forall r, c :: 0 <= r < rows && 0 <= c < columns ==> g[r][c] == h[r][c]
    ensures g == h
  {
    forall r | 0 <= r < rows
      ensures g[r] == h[r]
    {
      assert forall c :: 0 <= c < columns ==> g[r][c] == h[r][c];
    }
  }

  /** The text of one row: a character per cell, then a newline. */
  function Line(row: seq<Cell>): (s: string)
    ensures |s| == |row| + 1 && s[|row|] == '\n'
    ensures forall i :: 0 <= i < |row| ==> s[i] == Symbol(row[i])
  {
    seq(|row|, i requires 0 <= i < |row| => Symbol(row[i])) + "\n"
  }

  /** The text of a grid: its rows' lines, top to bottom. */
  function Render(grid: seq<seq<Cell>>): string
  {
    if grid == [] then "" else Render(grid[..|grid| - 1]) + Line(grid[|grid| - 1])
  }

  /** The text of a grid whose rows have `columns` cells each is `columns + 1`
      characters per row. */
  lemma {:induction false} RenderLength(grid: seq<seq<Cell>>, columns: nat)
    requires forall r :: 0 <= r < |grid| ==> |grid[r]| == columns
    ensures |Render(grid)| == |grid| * (columns + 1)
  {
    if grid != [] {
      var prefix := grid[..|grid| - 1];
      RenderLength(prefix, columns);
      assert |Render(grid)| == |Render(prefix)| + |Line(grid[|grid| - 1])|;
      assert |grid| * (columns + 1) == |prefix| * (columns + 1) + (columns + 1);
    }
  }

  /** The text of the first `k` rows begins the text of the grid. */
  lemma {:induction false} RenderPrefix(grid: seq<seq<Cell>>, k: nat)
    requires k <= |grid|
    ensures Render(grid[..k]) <= Render(grid)
  {
    if k < |grid| {
      var prefix := grid[..|grid| - 1];
      RenderPrefix(prefix, k);
      assert prefix[..k] == grid[..k];
    } else {
      assert grid[..k] == grid;
    }
  }

  /** `text` has `columns + 1` characters per row of `grid`, and the `r`-th block of
      them is the line of row `r`. */
  ghost predicate LaidOut(text: string, grid: seq<seq<Cell>>, columns: nat)
  {
    && |text| == |grid| * (columns + 1)
    && forall r :: 0 <= r < |grid| ==>
         (r + 1) * (columns + 1) <= |text| &&
         text[r * (columns + 1)..(r + 1) * (columns + 1)] == Line(grid[r])
  }

  /** Row `r` occupies the `r`-th block of `columns + 1` characters of the text. */
  lemma RenderRow(grid: seq<seq<Cell>>, columns: nat, r: nat)
    requires forall k :: 0 <= k < |grid| ==> |grid[k]| == columns
    requires r < |grid|
    ensures (r + 1) * (columns + 1) <= |Render(grid)|
    ensures Render(grid)[r * (columns + 1)..(r + 1) * (columns + 1)] == Line(grid[r])
  {
    var before, upto := grid[..r], grid[..r + 1];
    assert upto[..r] == before;
    assert Render(upto) == Render(before) + Line(grid[r]);
    RenderLength(before, columns);
    RenderLength(upto, columns);
    RenderPrefix(grid, r + 1);
  }

  /** The text of a grid whose rows have `columns` cells each is laid out row by row. */
  lemma RenderLayout(grid: seq<seq<Cell>>, columns: nat)
    requires forall r :: 0 <= r < |grid| ==> |grid[r]| == columns
    ensures LaidOut(Render(grid), grid, columns)
  {
    RenderLength(grid, columns);
    forall r | 0 <= r < |grid|
      ensures (r + 1) * (columns + 1) <= |Render(grid)|
      ensures Render(grid)[r * (columns + 1)..(r + 1) * (columns + 1)] == Line(grid[r])
    {
      RenderRow(grid, columns, r);
    }
  }

  /** The heuristic: the number of rows plus the number of columns between a location
      and the goal. */
  function ManhattanDistance(goal: MazeLocation): (distance: MazeLocation -> int)
    ensures forall ml :: distance(ml) >= 0
    ensures forall ml :: distance(ml) == 0 <==> ml == goal
  {
    (ml: MazeLocation) => Abs(ml.column - goal.column) + Abs(ml.row - goal.row)
  }

  /** The distance is symmetric. */
  lemma ManhattanSymmetric(a: MazeLocation, b: MazeLocation)
    ensures ManhattanDistance(a)(b) == ManhattanDistance(b)(a)
  {
  }

  /** One move changes the distance to the goal by exactly one, so the distance never
      overestimates the number of moves left. */
  lemma ManhattanStep(goal: MazeLocation, ml: MazeLocation, x: MazeLocation)
    requires Adjacent(ml, x)
    ensures Abs(ManhattanDistance(goal)(x) - ManhattanDistance(goal)(ml)) == 1
  {
  }

  class Maze {
    const rows: nat
    const columns: nat
    const start: MazeLocation
    const goal: MazeLocation
    var grid: seq<seq<Cell>>

    ghost predicate Valid()
      reads this
    {
      Rectangular(grid, rows, columns) && InBounds(start, rows, columns) && InBounds(goal, rows, columns)
    }

    /** A maze of `rows` by `columns` cells whose cells in `blocked` are blocked, apart
        from the start and the goal cell. The choice of `blocked` is the random fill. */
    constructor (rows: nat, columns: nat, start: MazeLocation, goal: MazeLocation, blocked: set<MazeLocation>)
      requires InBounds(start, rows, columns) && InBounds(goal, rows, columns)
      ensures Valid() && Clean(grid, rows, columns, start, goal)
      ensures this.rows == rows && this.columns == columns && this.start == start && this.goal == goal
      ensures forall r, c :: 0 <= r < rows && 0 <= c < columns && MazeLocation(r, c) != start && MazeLocation(r, c) != goal ==>
                (grid[r][c] == Blocked <==> MazeLocation(r, c) in blocked)
    {
      this.rows := rows;
      this.columns := columns;
      this.start := start;
      this.goal := goal;
      var filled := seq(rows, r => seq(columns, c => if MazeLocation(r, c) in blocked then Blocked else Empty));
      var g := Put(filled, start, StartCell);
      grid := Put(g, goal, GoalCell);
    }

    function GoalTest(ml: MazeLocation): (b: bool)
      ensures b <==> ml == goal
    {
      ml == goal
    }

    /** The locations reachable in one move from `ml`: the cells below, above, right and
        left of it, in that order, that lie inside the maze and are not blocked. */
    function Successors(ml: MazeLocation): (locations: seq<MazeLocation>)
      requires Valid() && InBounds(ml, rows, columns)
      reads this
      ensures locations == Neighbours(grid, ml)
    {
      var down := if ml.row + 1 < rows && grid[ml.row + 1][ml.column] != Blocked
                  then [MazeLocation(ml.row + 1, ml.column)] else [];
      var up := if ml.row - 1 >= 0 && grid[ml.row - 1][ml.column] != Blocked
                then [MazeLocation(ml.row - 1, ml.column)] else [];
      var right := if ml.column + 1 < columns && grid[ml.row][ml.column + 1] != Blocked
                   then [MazeLocation(ml.row, ml.column + 1)] else [];
      var left := if ml.column - 1 >= 0 && grid[ml.row][ml.column - 1] != Blocked
                  then [MazeLocation(ml.row, ml.column - 1)] else [];
      OpenInside(grid, rows, columns, MazeLocation(ml.row + 1, ml.column));
      OpenInside(grid, rows, columns, MazeLocation(ml.row - 1, ml.column));
      OpenInside(grid, rows, columns, MazeLocation(ml.row, ml.column + 1));
      OpenInside(grid, rows, columns, MazeLocation(ml.row, ml.column - 1));
      down + up + right + left
    }

    /** Overwrites the cells of `path` with `mark`, then restores the start and the goal
        cell. */
    method Stamp(path: seq<MazeLocation>, mark: Cell)
      requires Valid()
      requires forall i :: 0 <= i < |path| ==> InBounds(path[i], rows, columns)
      modifies this
      ensures Valid()
      ensures forall r, c :: 0 <= r < rows && 0 <= c < columns ==>
                grid[r][c] == Stamped(old(grid)[r][c], MazeLocation(r, c), path, mark, start, goal)
    {
      var i := 0;
      while i < |path|
        invariant 0 <= i <= |path|
        invariant Valid()
        invariant forall r, c :: 0 <= r < rows && 0 <= c < columns ==>
                    grid[r][c] == if MazeLocation(r, c) in path[..i] then mark else old(grid)[r][c]
      {
        assert path[..i + 1] == path[..i] + [path[i]];
        grid := Put(grid, path[i], mark);
        i := i + 1;
      }
      assert path[..i] == path;
      grid := Put(grid, start, StartCell);
      grid := Put(grid, goal, GoalCell);
    }

    /** Marks the cells of `path` as PATH, leaving the start and goal cells as they are
        meant to be and every other cell unchanged. */
    method Mark(path: seq<MazeLocation>)
      requires Valid()
      requires forall i :: 0 <= i < |path| ==> InBounds(path[i], rows, columns)
      modifies this
      ensures Valid()
      ensures forall r, c :: 0 <= r < rows && 0 <= c < columns ==>
                grid[r][c] == Stamped(old(grid)[r][c], MazeLocation(r, c), path, PathCell, start, goal)
    {
      Stamp(path, PathCell);
    }

    /** Empties the cells of `path`, leaving the start and goal cells as they are meant to
        be and every other cell unchanged. */
    method Clear(path: seq<MazeLocation>)
      requires Valid()
      requires forall i :: 0 <= i < |path| ==> InBounds(path[i], rows, columns)
      modifies this
      ensures Valid()
      ensures forall r, c :: 0 <= r < rows && 0 <= c < columns ==>
                grid[r][c] == Stamped(old(grid)[r][c], MazeLocation(r, c), path, Empty, start, goal)
    {
      Stamp(path, Empty);
    }

    /** Marking a path of unblocked cells on a clean grid and clearing it again gives the
        grid back as it was. */
    method MarkThenClear(path: seq<MazeLocation>)
      requires Valid() && Clean(grid, rows, columns, start, goal)
      requires forall i :: 0 <= i < |path| ==> InBounds(path[i], rows, columns)
      requires forall i :: 0 <= i < |path| ==> Open(grid, path[i])
      modifies this
      ensures Valid() && grid == old(grid)
    {
      ghost var before := grid;
      Mark(path);
      Clear(path);
      forall r, c | 0 <= r < rows && 0 <= c < columns
        ensures grid[r][c] == before[r][c]
      {
        var ml := MazeLocation(r, c);
        if ml in path {
          var i :| 0 <= i < |path| && path[i] == ml;
        }
        ClearAfterMark(before[r][c], ml, path, start, goal);
      }
      SameGrid(grid, before, rows, columns);
    }

    /** The maze as text, one line per row. */
    function ToString(): (s: string)
      requires Valid()
      reads this
      ensures LaidOut(s, grid, columns)
    {
      RenderLayout(grid, columns);
      Render(grid)
    }
  }

  /** The successor function handed to the searches. */
  function Moves(grid: seq<seq<Cell>>): (successors: MazeLocation -> seq<MazeLocation>)
    ensures forall ml :: successors(ml) == Neighbours(grid, ml)
  {
    (ml: MazeLocation) => Neighbours(grid, ml)
  }

  /** A path through `grid` from `start` to `goal`, each step a move to an open
      neighbour. */
  ghost predicate Route(grid: seq<seq<Cell>>, path: seq<MazeLocation>, start: MazeLocation, goal: MazeLocation)
  {
    && |path| >= 1 && path[0] == start && path[|path| - 1] == goal
    && forall i :: 0 <= i < |path| - 1 ==> path[i + 1] in Neighbours(grid, path[i])
  }

  /** The locations of a route lie inside the maze and, but for the first, are open. */
  lemma RouteCells(grid: seq<seq<Cell>>, rows: int, columns: int, path: seq<MazeLocation>,
                   start: MazeLocation, goal: MazeLocation)
    requires Rectangular(grid, rows, columns) && InBounds(start, rows, columns)
    requires Route(grid, path, start, goal)
    ensures forall i :: 0 <= i < |path| ==> InBounds(path[i], rows, columns)
    ensures forall i :: 0 < i < |path| ==> Open(grid, path[i])
  {
    forall i | 0 < i < |path|
      ensures InBounds(path[i], rows, columns) && Open(grid, path[i])
    {
      assert path[i] in Neighbours(grid, path[i - 1]);
      NeighboursIff(grid, path[i - 1], path[i]);
    }
  }

  /** The locations inside a maze of `rows` by `columns` cells. */
  ghost function Cells(rows: int, columns: int): (cells: set<MazeLocation>)
    ensures forall ml :: ml in cells <==> InBounds(ml, rows, columns)
  {
    var cells := set r, c | 0 <= r < rows && 0 <= c < columns :: MazeLocation(r, c);
    assert forall ml :: InBounds(ml, rows, columns) ==> ml == MazeLocation(ml.row, ml.column);
    cells
  }

  /** No move leaves the maze. */
  lemma CellsClosed(grid: seq<seq<Cell>>, rows: int, columns: int)
    requires Rectangular(grid, rows, columns)
    ensures GenericSearch.Closed(Cells(rows, columns), Moves(grid))
  {
    forall s, x | s in Cells(rows, columns) && x in Moves(grid)(s)
      ensures x in Cells(rows, columns)
    {
      NeighboursIff(grid, s, x);
    }
  }

  /** One search of the maze from its start, depth first or breadth first: a node it
      finds is at the goal and reached by moves from the start; when it finds none, no
      sequence of moves from the start reaches the goal. */
  method Search(maze: Maze, depthFirst: bool) returns (node: Option<GenericSearch.Node<MazeLocation>>)
    requires maze.Valid()
    ensures node.Some? ==> node.value.state == maze.goal && GenericSearch.IsChain(node.value, maze.start, Moves(maze.grid))
    ensures node.None? ==> forall n :: GenericSearch.IsChain(n, maze.start, Moves(maze.grid)) ==> n.state != maze.goal
  {
    var successors := Moves(maze.grid);
    var goalTest := maze.GoalTest;
    ghost var universe := Cells(maze.rows, maze.columns);
    CellsClosed(maze.grid, maze.rows, maze.columns);
    if depthFirst {
      ghost var expansions: nat;
      node, expansions := GenericSearch.Dfs(maze.start, goalTest, successors, universe);
    } else {
      node := GenericSearch.Bfs(maze.start, goalTest, successors, universe);
    }
    assert successors == Moves(maze.grid);
    if node.None? {
      forall n | GenericSearch.IsChain(n, maze.start, successors)
        ensures n.state != maze.goal
      {
        assert !goalTest(n.state);
      }
    }
  }

  /** Runs one search on the maze; a path it finds is a route from the start to the goal,
      which is marked and cleared again. */
  method SolveWith(maze: Maze, depthFirst: bool) returns (path: Option<seq<MazeLocation>>)
    requires maze.Valid() && Clean(maze.grid, maze.rows, maze.columns, maze.start, maze.goal)
    modifies maze
    ensures maze.grid == old(maze.grid)
    ensures path.Some? ==> Route(maze.grid, path.value, maze.start, maze.goal)
    ensures path.None? ==> forall n :: GenericSearch.IsChain(n, maze.start, Moves(maze.grid)) ==> n.state != maze.goal
  {
    var node := Search(maze, depthFirst);
    if node.None? {
      return None;
    }
    var g := maze.grid;
    var p := GenericSearch.NodeToPath(node.value);
    GenericSearch.ChainPath(node.value, maze.start, Moves(g));
    assert Route(g, p, maze.start, maze.goal);
    RouteCells(g, maze.rows, maze.columns, p, maze.start, maze.goal);
    assert maze.grid[maze.start.row][maze.start.column] != Blocked;
    maze.MarkThenClear(p);
    path := Some(p);
  }

  /** The program's run: a ten by ten maze from the top left to the bottom right corner,
      searched depth first and then breadth first, each route marked and cleared. The
      maze is left as it was built. */
  method Run(blocked: set<MazeLocation>) returns (maze: Maze, path1: Option<seq<MazeLocation>>,
                                                  path2: Option<seq<MazeLocation>>)
    ensures fresh(maze) && maze.Valid() && Clean(maze.grid, 10, 10, maze.start, maze.goal)
    ensures path1.Some? ==> Route(maze.grid, path1.value, MazeLocation(0, 0), MazeLocation(9, 9))
    ensures path2.Some? ==> Route(maze.grid, path2.value, MazeLocation(0, 0), MazeLocation(9, 9))
    ensures path1.None? ==> forall n :: GenericSearch.IsChain(n, MazeLocation(0, 0), Moves(maze.grid)) ==> n.state != MazeLocation(9, 9)
    ensures path2.None? ==> forall n :: GenericSearch.IsChain(n, MazeLocation(0, 0), Moves(maze.grid)) ==> n.state != MazeLocation(9, 9)
  {
    maze := new Maze(10, 10, MazeLocation(0, 0), MazeLocation(9, 9), blocked);
    path1 := SolveWith(maze, true);
    path2 := SolveWith(maze, false);
  }
}
