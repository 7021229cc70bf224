/**
 * MazeConstructor (MazeGame/Assets/Scripts/MazeConstructor.cs and the 03 starter copy, which agree in
 * every modelled method): the wall grid, the node graph built from it and its text dump.
 *
 * The generator draws UnityEngine.Random values; here the draws for each cell are given by an oracle
 * `draws`, consulted once for every interior cell with two even indices, in the order the source
 * draws them: whether to place a wall there, whether the stub goes the negative way, and whether the
 * stub moves along the row axis.
 */
module Maze {
  import opened Nodes

  /** The three random outcomes of one even cell, each already compared with its threshold. */
  datatype Draws = Draws(place: bool, negative: bool, rowAxis: bool)

  type Oracle = (int, int) -> Draws

  /** The cell lies on the outer frame of a rows x cols grid. */
  predicate IsBorder(rows: int, cols: int, x: int, y: int)
  {
    x == 0 || y == 0 || x == rows - 1 || y == cols - 1
  }

  /** An inside cell with two even indices: the only cells where the generator draws. */
  predicate IsPost(rows: int, cols: int, x: int, y: int)
  {
    0 <= x < rows && 0 <= y < cols && !IsBorder(rows, cols, x, y) && x % 2 == 0 && y % 2 == 0
  }

  predicate Placed(draws: Oracle, rows: int, cols: int, x: int, y: int)
  {
    IsPost(rows, cols, x, y) && draws(x, y).place
  }

  /** offset[offsetIndex] = delta: -1 or +1 on the row index or on the column index. */
  function StubOffset(d: Draws): (offset: (int, int))
    ensures offset.0 == 0 || offset.1 == 0
    ensures offset.0 * offset.0 + offset.1 * offset.1 == 1
  {
    var delta := if d.negative then -1 else 1;
    if d.rowAxis then (delta, 0) else (0, delta)
  }

  /** The stub of the post (p, q) is the cell (x, y). */
  predicate HitBy(draws: Oracle, rows: int, cols: int, x: int, y: int, p: int, q: int)
  {
    Placed(draws, rows, cols, p, q) && (p + StubOffset(draws(p, q)).0, q + StubOffset(draws(p, q)).1) == (x, y)
  }

  /** Some placed post next to (x, y) sends its stub there. */
  predicate IsStub(draws: Oracle, rows: int, cols: int, x: int, y: int)
  {
    HitBy(draws, rows, cols, x, y, x - 1, y) || HitBy(draws, rows, cols, x, y, x + 1, y)
    || HitBy(draws, rows, cols, x, y, x, y - 1) || HitBy(draws, rows, cols, x, y, x, y + 1)
  }

  /** The wall rule: a frame cell, a placed post, or the stub of a placed post. */
  predicate IsWall(draws: Oracle, rows: int, cols: int, x: int, y: int)
  {
    IsBorder(rows, cols, x, y) || Placed(draws, rows, cols, x, y) || IsStub(draws, rows, cols, x, y)
  }

  /** (p, q) comes before (x, y) in the row-major order of the generator's loops. */
  predicate Before(p: int, q: int, x: int, y: int)
  {
    p < x || (p == x && q < y)
  }

  /** What the grid holds at (a, b) once the cells before (x, y) have been visited. */
  predicate WallSoFar(draws: Oracle, rows: int, cols: int, a: int, b: int, x: int, y: int)
  {
    (Before(a, b, x, y) && (IsBorder(rows, cols, a, b) || Placed(draws, rows, cols, a, b)))
    || (Before(a - 1, b, x, y) && HitBy(draws, rows, cols, a, b, a - 1, b))
    || (Before(a + 1, b, x, y) && HitBy(draws, rows, cols, a, b, a + 1, b))
    || (Before(a, b - 1, x, y) && HitBy(draws, rows, cols, a, b, a, b - 1))
    || (Before(a, b + 1, x, y) && HitBy(draws, rows, cols, a, b, a, b + 1))
  }

  /** Visiting (x, y) marks (a, b): it is (x, y) itself and a frame cell or a placed post, or its stub. */
  predicate Marks(draws: Oracle, rows: int, cols: int, x: int, y: int, a: int, b: int)
  {
    ((a, b) == (x, y) && (IsBorder(rows, cols, x, y) || Placed(draws, rows, cols, x, y)))
    || HitBy(draws, rows, cols, a, b, x, y)
  }

  /** Visiting (x, y) adds to the walls so far exactly the cells it marks. */
  lemma WallSoFarStep(draws: Oracle, rows: int, cols: int, a: int, b: int, x: int, y: int)
    ensures WallSoFar(draws, rows, cols, a, b, x, y + 1) <==>
              WallSoFar(draws, rows, cols, a, b, x, y) || Marks(draws, rows, cols, x, y, a, b)
  {
  }

  /** The stub of a placed post is an orthogonal neighbour inside the grid. */
  lemma StubInBounds(draws: Oracle, rows: int, cols: int, x: int, y: int)
    requires Placed(draws, rows, cols, x, y)
    ensures var o := StubOffset(draws(x, y)); 0 <= x + o.0 < rows && 0 <= y + o.1 < cols
  {
  }

  /** A cell with two odd inside indices is never a wall: no post is next to it. */
  lemma {:induction false} OddCellsOpen(draws: Oracle, rows: int, cols: int, x: int, y: int)
    requires 0 < x < rows - 1 && 0 < y < cols - 1 && x % 2 == 1 && y % 2 == 1
    ensures !IsWall(draws, rows, cols, x, y)
  {
    assert (x - 1) % 2 == 0 && (x + 1) % 2 == 0 && (y - 1) % 2 == 0 && (y + 1) % 2 == 0;
  }

  /** A post is a wall exactly when its own draw placed it: no stub can land on a post. */
  lemma {:induction false} PostWallIffPlaced(draws: Oracle, rows: int, cols: int, x: int, y: int)
    requires IsPost(rows, cols, x, y)
    ensures IsWall(draws, rows, cols, x, y) <==> draws(x, y).place
  {
    assert (x - 1) % 2 == 1 && (x + 1) % 2 == 1 && (y - 1) % 2 == 1 && (y + 1) % 2 == 1;
  }

  /** Row i of the graph dump, up to column n: "O " for a walkable node and "X " for a wall. */
  function RowText(g: array2<Node?>, i: int, n: int): (s: string)
    requires 0 <= i < g.Length0 && 0 <= n <= g.Length1
    requires forall j :: 0 <= j < n ==> g[i, j] != null
    reads g
    ensures |s| == 2 * n
  {
    if n == 0 then "" else RowText(g, i, n - 1) + (if g[i, n - 1].isWalkable then "O " else "X ")
  }

  /** The graph dump: a header line, then one line per row, up to row m. */
  function GraphText(g: array2<Node?>, m: int, cols: int): (s: string)
    requires 0 <= m <= g.Length0 && 0 <= cols <= g.Length1
    requires forall i, j :: 0 <= i < m && 0 <= j < cols ==> g[i, j] != null
    reads g
    ensures |s| == 12 + m * (2 * cols + 1)
  {
    if m == 0 then "Node Graph:\n" else GraphText(g, m - 1, cols) + RowText(g, m - 1, cols) + "\n"
  }

  /** Where the symbol of cell (i, j) starts in the dump. */
  function CellPos(cols: int, i: int, j: int): int
  {
    12 + i * (2 * cols + 1) + 2 * j
  }

  lemma {:induction false} RowTextAt(g: array2<Node?>, i: int, n: int, j: int)
    requires 0 <= i < g.Length0 && 0 <= n <= g.Length1
    requires forall k :: 0 <= k < n ==> g[i, k] != null
    requires 0 <= j < n
    ensures RowText(g, i, n)[2 * j] == (if g[i, j].isWalkable then 'O' else 'X')
    ensures RowText(g, i, n)[2 * j + 1] == ' '
    decreases n
  {
    if j < n - 1 {
      RowTextAt(g, i, n - 1, j);
    }
  }

  /** Extending the dump by a row keeps everything written before. */
  lemma GraphTextExtends(g: array2<Node?>, m: int, cols: int, k: int)
    requires 0 < m <= g.Length0 && 0 <= cols <= g.Length1
    requires forall i, j :: 0 <= i < m && 0 <= j < cols ==> g[i, j] != null
    requires 0 <= k < |GraphText(g, m - 1, cols)|
    ensures GraphText(g, m, cols)[k] == GraphText(g, m - 1, cols)[k]
  {
  }

  /** Row i of the dump, line break included, lies before row m. */
  lemma RowBeforeLater(cols: int, i: int, m: int)
    requires 0 <= cols && 0 <= i < m
    ensures CellPos(cols, i, cols) < 12 + m * (2 * cols + 1)
  {
    assert (m - (i + 1)) * (2 * cols + 1) >= 0;
    assert m * (2 * cols + 1) == (m - (i + 1)) * (2 * cols + 1) + i * (2 * cols + 1) + 2 * cols + 1;
  }

  /** Cell (i, j) appears in the dump as 'O' (walkable) or 'X', followed by a space, at CellPos(cols, i, j). */
  lemma {:induction false} GraphTextCell(g: array2<Node?>, m: int, cols: int, i: int, j: int)
    requires 0 <= m <= g.Length0 && 0 <= cols <= g.Length1
    requires forall i, j :: 0 <= i < m && 0 <= j < cols ==> g[i, j] != null
    requires 0 <= i < m && 0 <= j < cols
    ensures GraphText(g, m, cols)[CellPos(cols, i, j)] == (if g[i, j].isWalkable then 'O' else 'X')
    ensures GraphText(g, m, cols)[CellPos(cols, i, j) + 1] == ' '
    decreases m
  {
    var prev, row := GraphText(g, m - 1, cols), RowText(g, m - 1, cols);
    if i == m - 1 {
      RowTextAt(g, i, cols, j);
      assert GraphText(g, m, cols) == prev + row + "\n";
      assert CellPos(cols, i, j) == |prev| + 2 * j;
    } else {
      GraphTextCell(g, m - 1, cols, i, j);
      RowBeforeLater(cols, i, m - 1);
      GraphTextExtends(g, m, cols, CellPos(cols, i, j));
      GraphTextExtends(g, m, cols, CellPos(cols, i, j) + 1);
    }
  }

  /** Row i of the dump ends with a line break, right after its last cell. */
  lemma {:induction false} GraphTextLineEnd(g: array2<Node?>, m: int, cols: int, i: int)
    requires 0 <= m <= g.Length0 && 0 <= cols <= g.Length1
    requires forall i, j :: 0 <= i < m && 0 <= j < cols ==> g[i, j] != null
    requires 0 <= i < m
    ensures GraphText(g, m, cols)[CellPos(cols, i, cols)] == '\n'
    decreases m
  {
    var prev, row := GraphText(g, m - 1, cols), RowText(g, m - 1, cols);
    if i == m - 1 {
      assert GraphText(g, m, cols) == prev + row + "\n";
    } else {
      GraphTextLineEnd(g, m - 1, cols, i);
      RowBeforeLater(cols, i, m - 1);
      GraphTextExtends(g, m, cols, CellPos(cols, i, cols));
    }
  }

  /** The dump starts with the header line "Node Graph:". */
  lemma {:induction false} GraphTextHeader(g: array2<Node?>, m: int, cols: int)
    requires 0 <= m <= g.Length0 && 0 <= cols <= g.Length1
    requires forall i, j :: 0 <= i < m && 0 <= j < cols ==> g[i, j] != null
    ensures GraphText(g, m, cols)[..12] == "Node Graph:\n"
    decreases m
  {
    if m > 0 {
      GraphTextHeader(g, m - 1, cols);
      assert GraphText(g, m, cols) == GraphText(g, m - 1, cols) + RowText(g, m - 1, cols) + "\n";
    }
  }

  class MazeConstructor {
    var rows: int
    var cols: int
    var Data: array2?<int>
    var Graph: array2?<Node?>

    /** A component whose rows and cols were set in the editor; no maze exists yet. */
    constructor (rows: int, cols: int)
      ensures this.rows == rows && this.cols == cols && Data == null && Graph == null
    {
      this.rows, this.cols := rows, cols;
      Data, Graph := null, null;
    }

    /**
     * A fresh numRows x numCols grid holding 1 exactly on the walls and 0 elsewhere. The loops only
     * ever write 1, and the stub write at (x + offset[0], y + offset[1]) stays inside the grid.
     */
    static method GenerateMazeDataFromDimensions(numRows: nat, numCols: nat, draws: Oracle)
      returns (maze: array2<int>)
      ensures fresh(maze) && maze.Length0 == numRows && maze.Length1 == numCols
      ensures forall a, b :: 0 <= a < numRows && 0 <= b < numCols ==>
                maze[a, b] == if IsWall(draws, numRows, numCols, a, b) then 1 else 0
      ensures forall a, b :: 0 <= a < numRows && 0 <= b < numCols && IsBorder(numRows, numCols, a, b) ==>
                maze[a, b] == 1
      ensures forall a, b :: 0 < a < numRows - 1 && 0 < b < numCols - 1 && a % 2 == 1 && b % 2 == 1 ==>
                maze[a, b] == 0
      ensures forall a, b :: IsPost(numRows, numCols, a, b) ==> (maze[a, b] == 1 <==> draws(a, b).place)
    {
      maze := new int[numRows, numCols];
      forall a, b | 0 <= a < numRows && 0 <= b < numCols {
        maze[a, b] := 0;
      }
      for x := 0 to numRows
        invariant forall a, b :: 0 <= a < numRows && 0 <= b < numCols ==>
                    maze[a, b] == if WallSoFar(draws, numRows, numCols, a, b, x, 0) then 1 else 0
      {
        for y := 0 to numCols
          invariant forall a, b :: 0 <= a < numRows && 0 <= b < numCols ==>
                      maze[a, b] == if WallSoFar(draws, numRows, numCols, a, b, x, y) then 1 else 0
        {
          Visit(maze, numRows, numCols, draws, x, y);
          forall a, b | 0 <= a < numRows && 0 <= b < numCols {
            WallSoFarStep(draws, numRows, numCols, a, b, x, y);
          }
        }
      }
      forall a, b | 0 < a < numRows - 1 && 0 < b < numCols - 1 && a % 2 == 1 && b % 2 == 1 {
        OddCellsOpen(draws, numRows, numCols, a, b);
      }
      forall a, b | IsPost(numRows, numCols, a, b) {
        PostWallIffPlaced(draws, numRows, numCols, a, b);
      }
    }

    /** The builder: a fresh node per cell, at its own coordinates, walkable exactly where Data is 0. */
    method GenerateNodeGraph(sizeRows: nat, sizeCols: nat)
      requires Data != null && sizeRows <= Data.Length0 && sizeCols <= Data.Length1
      modifies this`Graph
      ensures Graph != null && fresh(Graph)
      ensures Graph.Length0 == sizeRows && Graph.Length1 == sizeCols && WellFormed(Graph)
      ensures forall i, j :: InBounds(Graph, i, j) ==>
                fresh(Graph[i, j]) && (Graph[i, j].isWalkable <==> Data[i, j] == 0)
                && Graph[i, j].gCost == 0 && Graph[i, j].hCost == 0 && Graph[i, j].fCost == 0
                && Graph[i, j].prevNode == null
    {
      var graph := new Node?[sizeRows, sizeCols]((i, j) => null);
      for i := 0 to sizeRows
        invariant forall a, b :: 0 <= a < sizeRows && 0 <= b < sizeCols ==>
                    if a < i then graph[a, b] != null && fresh(graph[a, b]) && graph[a, b].x == a && graph[a, b].y == b
                                  && (graph[a, b].isWalkable <==> Data[a, b] == 0)
                                  && graph[a, b].gCost == 0 && graph[a, b].hCost == 0 && graph[a, b].fCost == 0
                                  && graph[a, b].prevNode == null
                    else graph[a, b] == null
      {
        for j := 0 to sizeCols
          invariant forall a, b :: 0 <= a < sizeRows && 0 <= b < sizeCols ==>
                      if a < i || (a == i && b < j) then
                        graph[a, b] != null && fresh(graph[a, b]) && graph[a, b].x == a && graph[a, b].y == b
                        && (graph[a, b].isWalkable <==> Data[a, b] == 0)
                        && graph[a, b].gCost == 0 && graph[a, b].hCost == 0 && graph[a, b].fCost == 0
                        && graph[a, b].prevNode == null
                      else graph[a, b] == null
        {
          var isWalkable := Data[i, j] == 0;
          var node := new Node(i, j, isWalkable);
          graph[i, j] := node;
        }
      }
      Graph := graph;
    }

    /** Records the size, builds the grid, then the node graph of the same size. */
    method GenerateNewMaze(numRows: nat, numCols: nat, draws: Oracle)
      modifies this
      ensures rows == numRows && cols == numCols
      ensures Data != null && fresh(Data) && Data.Length0 == numRows && Data.Length1 == numCols
      ensures forall a, b :: 0 <= a < numRows && 0 <= b < numCols ==>
                Data[a, b] == if IsWall(draws, numRows, numCols, a, b) then 1 else 0
      ensures Graph != null && fresh(Graph) && Graph.Length0 == numRows && Graph.Length1 == numCols
      ensures WellFormed(Graph)
      ensures forall i, j :: InBounds(Graph, i, j) ==>
                fresh(Graph[i, j]) && (Graph[i, j].isWalkable <==> !IsWall(draws, numRows, numCols, i, j))
                && Graph[i, j].gCost == 0 && Graph[i, j].hCost == 0 && Graph[i, j].fCost == 0
                && Graph[i, j].prevNode == null
    {
      rows := numRows;
      cols := numCols;
      Data := GenerateMazeDataFromDimensions(rows, cols, draws);
      GenerateNodeGraph(rows, cols);
    }

    /** The start-up hook: a maze of the size set in the editor. */
    method Awake(draws: Oracle)
      requires rows >= 0 && cols >= 0
      modifies this
      ensures rows == old(rows) && cols == old(cols)
      ensures Data != null && Graph != null && fresh(Data) && fresh(Graph)
      ensures Data.Length0 == rows && Data.Length1 == cols
      ensures forall a, b :: 0 <= a < rows && 0 <= b < cols ==>
                Data[a, b] == if IsWall(draws, rows, cols, a, b) then 1 else 0
      ensures Graph.Length0 == rows && Graph.Length1 == cols && WellFormed(Graph)
      ensures forall i, j :: InBounds(Graph, i, j) ==>
                (Graph[i, j].isWalkable <==> !IsWall(draws, rows, cols, i, j))
                && Graph[i, j].gCost == 0 && Graph[i, j].hCost == 0 && Graph[i, j].fCost == 0
                && Graph[i, j].prevNode == null
    {
      GenerateNewMaze(rows, cols, draws);
    }

    /** The text dump of the first rows x cols nodes of the graph. */
    method GenerateGraphDebugString() returns (graphString: string)
      requires Graph != null && rows <= Graph.Length0 && cols <= Graph.Length1
      requires forall i, j :: 0 <= i < rows && 0 <= j < cols ==> Graph[i, j] != null
      ensures graphString == GraphText(Graph, if rows < 0 then 0 else rows, if cols < 0 then 0 else cols)
    {
      var c := if cols < 0 then 0 else cols;
      graphString := "Node Graph:\n";
      var i := 0;
      while i < rows
        invariant 0 <= i <= if rows < 0 then 0 else rows
        invariant graphString == GraphText(Graph, i, c)
      {
        var row := "";
        var j := 0;
        while j < cols
          invariant 0 <= j <= c
          invariant row == RowText(Graph, i, j)
        {
          row := row + if Graph[i, j].isWalkable then "O " else "X ";
          j := j + 1;
        }
        graphString := graphString + row + "\n";
        i := i + 1;
      }
    }
  }

  /**
   * One pass of the inner loop body at (x, y): a frame cell becomes 1; a post whose draw passes becomes
   * 1 together with its stub. The cells it marks become 1 and no other cell changes.
   */
  method Visit(maze: array2<int>, numRows: int, numCols: int, draws: Oracle, x: int, y: int)
    requires maze.Length0 == numRows && maze.Length1 == numCols
    requires 0 <= x < numRows && 0 <= y < numCols
    modifies maze
    ensures forall a, b :: 0 <= a < numRows && 0 <= b < numCols ==>
              maze[a, b] == if Marks(draws, numRows, numCols, x, y, a, b) then 1 else old(maze[a, b])
  {
    if x == 0 || y == 0 || x == numRows - 1 || y == numCols - 1 {
      maze[x, y] := 1;
    } else if x % 2 == 0 && y % 2 == 0 {
      var d := draws(x, y);
      if d.place {
        maze[x, y] := 1;
        var delta := if d.negative then -1 else 1;
        var offset := new int[2](_ => 0);
        var offsetIndex := if d.rowAxis then 0 else 1;
        offset[offsetIndex] := delta;
        maze[x + offset[0], y + offset[1]] := 1;
      }
    }
  }
}
