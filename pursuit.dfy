/**
 * The integer part of PathFinder.Update: which cells the search runs between, and where the monster
 * is sent next. Positions are measured in cell widths and already rounded to whole numbers; a world
 * position is the pair (x, z), a cell is the pair (row, column) that indexes the node graph.
 */
module Pursuit {
  import opened Nodes
  import opened PathFinding

  /** A world position (x, z), in units of the cell width. */
  type World = (int, int)

  /** A graph cell (row, column): Node.x is the row and Node.y the column. */
  type Cell = (int, int)

  function Manhattan(a: (int, int), b: (int, int)): nat
  {
    Abs(a.0 - b.0) + Abs(a.1 - b.1)
  }

  /** The square of the straight-line distance. */
  function SquaredDistance(a: (int, int), b: (int, int)): int
  {
    (a.0 - b.0) * (a.0 - b.0) + (a.1 - b.1) * (a.1 - b.1)
  }

  /** Both copies place the next waypoint at (node.y * width, node.x * width): the row becomes z. */
  function CellCentre(c: Cell): World
  {
    (c.1, c.0)
  }

  /** Waypoints are as far apart as their cells: one graph step between cells is one cell width between centres. */
  lemma CentresKeepDistance(c: Cell, d: Cell)
    ensures Manhattan(CellCentre(c), CellCentre(d)) == Manhattan(c, d)
  {
  }

  /**
   * MazeGame's Update hands FindPath (z, x): the row is read from z and the column from x, the same
   * way round as CellCentre, so a position is the centre of the cell it is mapped to.
   */
  function MazeGameCell(p: World): (c: Cell)
    ensures CellCentre(c) == p
  {
    (p.1, p.0)
  }

  /**
   * The 03 starter's Update hands FindPath (x, z): the row is read from x, the other way round from
   * CellCentre. A position off the diagonal is not the centre of the cell it is mapped to.
   */
  function StarterCell(p: World): (c: Cell)
    ensures p.0 != p.1 ==> CellCentre(c) != p
  {
    (p.0, p.1)
  }

  /** Under MazeGame's mapping, one step in the graph is one cell width in the world, in the right direction. */
  lemma MazeGameStepIsOneCell(p: World, next: Cell)
    requires Manhattan(MazeGameCell(p), next) == 1
    ensures Manhattan(CellCentre(next), p) == 1
  {
    CentresKeepDistance(next, MazeGameCell(p));
  }

  /**
   * Under the starter's mapping, a monster standing at world (1, 3) searches from cell (1, 3), and the
   * centre of every neighbour of that cell is at Manhattan distance at least 3 from the monster, and
   * more than two cell widths away in a straight line (squared distance at least 5): the waypoint
   * lands on the transposed cell, not next to the monster.
   */
  lemma StarterStepLeavesNeighbourhood(next: Cell)
    requires Manhattan(StarterCell((1, 3)), next) == 1
    ensures Manhattan(CellCentre(next), (1, 3)) >= 3
    ensures SquaredDistance(CellCentre(next), (1, 3)) >= 5
  {
  }

  /**
   * The "move only along a path of at least two nodes" rule of Update, with MazeGame's mapping from
   * world positions to cells: the search runs from the monster's cell to the player's cell, and the
   * monster heads for the second node of the path. There is such a node exactly when the player is in
   * another cell that a route reaches; it is then a walkable neighbour of the monster's cell from
   * which the player's cell can be reached, and its waypoint is one cell width from the monster.
   */
  method PursuitStep(g: array2<Node?>, monster: World, player: World) returns (next: Option<Node>)
    requires WellFormed(g)
    requires InBounds(g, monster.1, monster.0) && InBounds(g, player.1, player.0)
    requires MoveStraightCost * (g.Length0 * g.Length1) < IntMaxValue
    modifies Cells(g)`gCost, Cells(g)`hCost, Cells(g)`prevNode
    ensures next.Some? <==>
              monster != player && exists p :: IsRoute(g, p, g[monster.1, monster.0], g[player.1, player.0])
    ensures next.Some? ==>
              InGraph(g, next.value) && next.value.isWalkable && Adjacent(g[monster.1, monster.0], next.value)
              && (exists p :: IsRoute(g, p, next.value, g[player.1, player.0]))
              && Manhattan(CellCentre((next.value.x, next.value.y)), monster) == 1
  {
    var from, to := MazeGameCell(monster), MazeGameCell(player);
    var path := FindPath(g, from.0, from.1, to.0, to.1);
    if path.Some? && |path.value| > 1 {
      var p := path.value;
      assert IsRoute(g, p[1..], p[1], g[to.0, to.1]);
      assert p[0] == g[from.0, from.1] && g[to.0, to.1] == p[|p| - 1];
      assert Adjacent(p[0], p[1]);
      MazeGameStepIsOneCell(monster, (p[1].x, p[1].y));
      next := Some(p[1]);
    } else {
      next := None;
      if path.Some? {
        assert path.value[0] == g[from.0, from.1] && path.value[0] == g[to.0, to.1];
      }
    }
  }
}
