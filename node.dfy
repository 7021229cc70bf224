/**
 * The search-graph node of one maze cell (MazeGame/Assets/Scripts/Node.cs), and what it means for a
 * two-dimensional array of nodes to be the node graph of a grid.
 */
module Nodes {

  /** int.MaxValue of a 32-bit signed integer; the search uses it for "not reached yet". */
  const IntMaxValue: int := 0x7fff_ffff

  /** int.MinValue of a 32-bit signed integer. */
  const IntMinValue: int := -0x8000_0000

  /** The value a 32-bit signed C# addition stores: the exact sum taken modulo 2^32 into the int range. */
  function Wrap32(v: int): (r: int)
    ensures IntMinValue <= r <= IntMaxValue
    ensures (v - r) % 0x1_0000_0000 == 0
    ensures IntMinValue <= v <= IntMaxValue ==> r == v
  {
    var m := v % 0x1_0000_0000;
    if m > IntMaxValue then m - 0x1_0000_0000 else m
  }

  class Node {
    // The coordinates and the walkability flag are public fields in the source, but nothing
    // writes them after the constructor, so they are constants here.
    const x: int
    const y: int
    const isWalkable: bool

    // Transient search state, overwritten by every search.
    var gCost: int
    var hCost: int
    var fCost: int
    var prevNode: Node?

    /** Stores the coordinates and the flag; gCost, fCost and prevNode keep their default values. */
    constructor (x: int, y: int, isWalkable: bool)
      ensures this.x == x && this.y == y && this.isWalkable == isWalkable
      ensures hCost == 0
      ensures gCost == 0 && fCost == 0 && prevNode == null
    {
      this.x := x;
      this.y := y;
      hCost := 0;
      this.isWalkable := isWalkable;
      gCost, fCost, prevNode := 0, 0, null;
    }

    /**
     * Sets fCost to the 32-bit sum gCost + hCost and touches no other field, so a second call changes
     * nothing. The sum wraps: on a node the search never reached (gCost == int.MaxValue) with a
     * positive hCost left from an earlier search, fCost comes out negative.
     */
    method CalculateFCost()
      modifies this`fCost
      ensures fCost == Wrap32(gCost + hCost)
      ensures IntMinValue <= gCost + hCost <= IntMaxValue ==> fCost == gCost + hCost
    {
      fCost := Wrap32(gCost + hCost);
    }
  }

  /** The wrap on an unreached node: int.MaxValue plus a positive estimate is negative. */
  lemma UnreachedFCostWraps(hCost: int)
    requires 0 < hCost <= IntMaxValue
    ensures Wrap32(IntMaxValue + hCost) == IntMinValue + hCost - 1 < 0
  {
  }

  predicate InBounds(g: array2<Node?>, i: int, j: int)
  {
    0 <= i < g.Length0 && 0 <= j < g.Length1
  }

  /** Every cell holds a node whose coordinates are the cell's own indices. */
  ghost predicate WellFormed(g: array2<Node?>)
    reads g
  {
    forall i, j :: InBounds(g, i, j) ==> g[i, j] != null && g[i, j].x == i && g[i, j].y == j
  }

  /** The nodes of the graph: the objects a search may write. */
  ghost function Cells(g: array2<Node?>): set<Node?>
    reads g
  {
    set i, j | InBounds(g, i, j) :: g[i, j]
  }

  /** n is the node stored at its own coordinates. */
  ghost predicate InGraph(g: array2<Node?>, n: Node)
    reads g
  {
    InBounds(g, n.x, n.y) && g[n.x, n.y] == n
  }

  lemma InGraphCell(g: array2<Node?>, n: Node)
    requires InGraph(g, n)
    ensures n in Cells(g)
  {
    assert g[n.x, n.y] == n;
  }
}
