/**
 * The grid search of PathFinder: the distance estimate, the neighbour list, the open-list selection,
 * the path reconstruction and FindPath itself, plus the per-tick rule that decides where the monster
 * heads next. MazeGame/Assets/Scripts/PathFinder.cs and the 03 starter copy run the same search; they
 * differ only in how Update turns world positions into cells.
 */
module PathFinding {
  import opened Lists
  import opened Nodes

  datatype Option<T> = None | Some(value: T)

  const MoveDiagonalCost: int := 14
  const MoveStraightCost: int := 10

  function Abs(n: int): nat
  {
    if n < 0 then -n else n
  }

  function Min(a: int, b: int): int
  {
    if a < b then a else b
  }

  function Max(a: int, b: int): int
  {
    if a < b then b else a
  }

  /** The two nodes are one orthogonal step apart. */
  predicate Adjacent(a: Node, b: Node)
  {
    Abs(a.x - b.x) + Abs(a.y - b.y) == 1
  }

  /**
   * The cost estimate between two nodes: 14 per diagonal unit and 10 per straight unit. It never
   * exceeds 10 per step of a four-directional walk, and one real step costs exactly 10.
   */
  function CalculateDistance(from: Node, to: Node): (d: int)
    ensures d >= 0
    ensures d == 0 <==> from.x == to.x && from.y == to.y
    ensures Adjacent(from, to) ==> d == MoveStraightCost
    ensures MoveStraightCost * Max(Abs(from.x - to.x), Abs(from.y - to.y)) <= d
    ensures d <= MoveStraightCost * (Abs(from.x - to.x) + Abs(from.y - to.y))
  {
    var xDistance := Abs(from.x - to.x);
    var yDistance := Abs(from.y - to.y);
    var remaining := Abs(xDistance - yDistance);
    MoveDiagonalCost * Min(xDistance, yDistance) + MoveStraightCost * remaining
  }

  lemma DistanceSymmetric(a: Node, b: Node)
    ensures CalculateDistance(a, b) == CalculateDistance(b, a)
  {
  }

  /** The estimate changes by at most one step cost between neighbouring nodes (it is consistent). */
  lemma DistanceConsistent(a: Node, b: Node, goal: Node)
    requires Adjacent(a, b)
    ensures CalculateDistance(a, goal) <= MoveStraightCost + CalculateDistance(b, goal)
  {
  }

  /**
   * p is a walk through the graph from `from` to `to`: one orthogonal step at a time, and every node
   * after the first is walkable.
   */
  ghost predicate IsRoute(g: array2<Node?>, p: seq<Node>, from: Node, to: Node)
    reads g
  {
    |p| >= 1 && p[0] == from && p[|p| - 1] == to
    && (forall k :: 0 <= k < |p| ==> InGraph(g, p[k]))
    && (forall k :: 1 <= k < |p| ==> p[k].isWalkable)
    && (forall k :: 0 <= k < |p| - 1 ==> Adjacent(p[k], p[k + 1]))
  }

  /** Where n lies around c, in the order the neighbour list is built: x - 1, x + 1, y - 1, y + 1. */
  function Direction(c: Node, n: Node): int
  {
    if n.x == c.x - 1 then 0
    else if n.x == c.x + 1 then 1
    else if n.y == c.y - 1 then 2
    else 3
  }

  /** The node at (i, j) when that cell exists and is walkable, as a list of at most one node. */
  function WalkableAt(g: array2<Node?>, i: int, j: int): (s: seq<Node>)
    requires WellFormed(g)
    reads g
    ensures |s| <= 1
    ensures forall n :: n in s ==> InBounds(g, i, j) && n == g[i, j] && n.isWalkable
  {
    if InBounds(g, i, j) && g[i, j].isWalkable then [g[i, j]] else []
  }

  /**
   * The walkable nodes one orthogonal step from currentNode, in the order x - 1, x + 1, y - 1, y + 1;
   * NeighboursSound, NeighboursComplete and NeighboursOrdered state that these are all of them and
   * nothing else, in that order.
   */
  function GetNeighbourList(g: array2<Node?>, currentNode: Node): (neighbourList: seq<Node>)
    requires WellFormed(g)
    reads g
    ensures |neighbourList| <= 4
  {
    var x, y := currentNode.x, currentNode.y;
    WalkableAt(g, x - 1, y) + WalkableAt(g, x + 1, y) + WalkableAt(g, x, y - 1) + WalkableAt(g, x, y + 1)
  }

  /** Every collected node is a walkable node of the graph one step from c. */
  lemma NeighboursSound(g: array2<Node?>, c: Node)
    requires WellFormed(g) && InGraph(g, c)
    ensures forall n :: n in GetNeighbourList(g, c) ==> InGraph(g, n) && Adjacent(c, n) && n.isWalkable
    ensures forall n :: n in GetNeighbourList(g, c) ==> n in Cells(g)
  {
    forall n | n in GetNeighbourList(g, c) ensures n in Cells(g) {
      InGraphCell(g, n);
    }
  }

  /** Every walkable node of the graph one step from c is collected. */
  lemma NeighboursComplete(g: array2<Node?>, c: Node, m: Node)
    requires WellFormed(g) && InGraph(g, c)
    requires InGraph(g, m) && Adjacent(c, m) && m.isWalkable
    ensures m in GetNeighbourList(g, c)
  {
    AdjacentCell(g, c, m);
    if m.x == c.x - 1 {
      assert m in WalkableAt(g, c.x - 1, c.y);
    } else if m.x == c.x + 1 {
      assert m in WalkableAt(g, c.x + 1, c.y);
    } else if m.y == c.y - 1 {
      assert m in WalkableAt(g, c.x, c.y - 1);
    } else {
      assert m in WalkableAt(g, c.x, c.y + 1);
    }
  }

  /** The collected nodes come in strictly increasing direction: x - 1, x + 1, y - 1, y + 1. */
  lemma NeighboursOrdered(g: array2<Node?>, c: Node)
    requires WellFormed(g) && InGraph(g, c)
    ensures forall k :: 0 <= k < |GetNeighbourList(g, c)| - 1 ==>
              Direction(c, GetNeighbourList(g, c)[k]) < Direction(c, GetNeighbourList(g, c)[k + 1])
  {
    var s0, s1 := WalkableAt(g, c.x - 1, c.y), WalkableAt(g, c.x + 1, c.y);
    var s2, s3 := WalkableAt(g, c.x, c.y - 1), WalkableAt(g, c.x, c.y + 1);
    assert forall n :: n in s0 ==> Direction(c, n) == 0;
    assert forall n :: n in s1 ==> Direction(c, n) == 1;
    assert forall n :: n in s2 ==> Direction(c, n) == 2;
    assert forall n :: n in s3 ==> Direction(c, n) == 3;
    var s := GetNeighbourList(g, c);
    assert s == s0 + s1 + s2 + s3;
    forall k | 0 <= k < |s| - 1
      ensures Direction(c, s[k]) < Direction(c, s[k + 1])
    {
      DirectionRank(c, s0, s1, s2, s3, k);
      DirectionRank(c, s0, s1, s2, s3, k + 1);
    }
  }

  /** In s0 + s1 + s2 + s3, with every node of sd in direction d, the node at k is in the direction of its part. */
  lemma DirectionRank(c: Node, s0: seq<Node>, s1: seq<Node>, s2: seq<Node>, s3: seq<Node>, k: int)
    requires |s0| <= 1 && |s1| <= 1 && |s2| <= 1 && |s3| <= 1
    requires forall n :: n in s0 ==> Direction(c, n) == 0
    requires forall n :: n in s1 ==> Direction(c, n) == 1
    requires forall n :: n in s2 ==> Direction(c, n) == 2
    requires forall n :: n in s3 ==> Direction(c, n) == 3
    requires 0 <= k < |s0 + s1 + s2 + s3|
    ensures Direction(c, (s0 + s1 + s2 + s3)[k]) ==
              if k < |s0| then 0 else if k < |s0 + s1| then 1 else if k < |s0 + s1 + s2| then 2 else 3
  {
    var s := s0 + s1 + s2 + s3;
    if k < |s0| {
      assert s[k] == s0[k];
    } else if k < |s0 + s1| {
      assert s[k] == s1[k - |s0|];
    } else if k < |s0 + s1 + s2| {
      assert s[k] == s2[k - |s0 + s1|];
    } else {
      assert s[k] == s3[k - |s0 + s1 + s2|];
    }
  }

  /** A node next to c is the node stored one step up, down, left or right of c. */
  lemma AdjacentCell(g: array2<Node?>, c: Node, m: Node)
    requires InGraph(g, c) && InGraph(g, m) && Adjacent(c, m)
    ensures (m.x == c.x - 1 && m.y == c.y) || (m.x == c.x + 1 && m.y == c.y)
            || (m.x == c.x && m.y == c.y - 1) || (m.x == c.x && m.y == c.y + 1)
  {
  }

  /**
   * The first node of the list whose fCost is minimal. When all fCosts are equal, as they are during a
   * search (nothing there assigns fCost), this is the head of the list, so the open list is a queue.
   */
  method GetLowestFCostNode(nodeList: seq<Node>) returns (lowest: Node, ghost at: nat)
    requires |nodeList| > 0
    ensures at < |nodeList| && nodeList[at] == lowest
    ensures forall k :: 0 <= k < |nodeList| ==> lowest.fCost <= nodeList[k].fCost
    ensures forall k :: 0 <= k < at ==> nodeList[k].fCost > lowest.fCost
    ensures (forall k :: 0 <= k < |nodeList| ==> nodeList[k].fCost == nodeList[0].fCost) ==> lowest == nodeList[0]
  {
    lowest, at := nodeList[0], 0;
    for i := 1 to |nodeList|
      invariant at < i && nodeList[at] == lowest
      invariant forall k :: 0 <= k < i ==> lowest.fCost <= nodeList[k].fCost
      invariant forall k :: 0 <= k < at ==> nodeList[k].fCost > lowest.fCost
    {
      if nodeList[i].fCost < lowest.fCost {
        lowest, at := nodeList[i], i;
      }
    }
  }

  /**
   * The back-pointers form a tree rooted at startNode: every node with a predecessor is a walkable
   * neighbour of it and costs one step more, and every other node but the start is unreached.
   */
  ghost predicate BackLinks(g: array2<Node?>, startNode: Node)
    reads g, Cells(g)
  {
    WellFormed(g) && InGraph(g, startNode)
    && startNode.gCost == 0 && startNode.prevNode == null
    && (forall i, j :: InBounds(g, i, j) && g[i, j].prevNode != null ==>
          InGraph(g, g[i, j].prevNode) && Adjacent(g[i, j].prevNode, g[i, j]) && g[i, j].isWalkable
          && 0 <= g[i, j].prevNode.gCost && g[i, j].gCost == g[i, j].prevNode.gCost + MoveStraightCost)
    && (forall i, j :: InBounds(g, i, j) && g[i, j].prevNode == null && g[i, j] != startNode ==>
          g[i, j].gCost == IntMaxValue)
  }

  /**
   * Follows prevNode from endNode back to the start and reverses the result: a route from the start to
   * endNode whose k-th node has gCost 10 * k.
   */
  method CalculatePath(g: array2<Node?>, endNode: Node, ghost startNode: Node) returns (path: seq<Node>)
    requires BackLinks(g, startNode)
    requires InGraph(g, endNode) && 0 <= endNode.gCost < IntMaxValue
    ensures IsRoute(g, path, startNode, endNode)
    ensures forall k :: 0 <= k < |path| ==> path[k].gCost == MoveStraightCost * k
    ensures endNode == startNode ==> path == [endNode]
    ensures path[0].prevNode == null
    ensures forall k :: 0 <= k < |path| - 1 ==> path[k + 1].prevNode == path[k]
  {
    var reversed: seq<Node> := [endNode];
    var currentNode: Node := endNode;
    while currentNode.prevNode != null
      invariant InGraph(g, currentNode) && 0 <= currentNode.gCost < IntMaxValue
      invariant |reversed| >= 1 && reversed[0] == endNode && reversed[|reversed| - 1] == currentNode
      invariant forall k :: 0 <= k < |reversed| ==> InGraph(g, reversed[k])
      invariant forall k :: 0 <= k < |reversed| ==>
                  reversed[k].gCost == currentNode.gCost + MoveStraightCost * (|reversed| - 1 - k)
      invariant forall k :: 0 <= k < |reversed| - 1 ==>
                  Adjacent(reversed[k + 1], reversed[k]) && reversed[k].isWalkable
      invariant LinkedBack(reversed)
      decreases currentNode.gCost
    {
      BackLinkStep(g, startNode, currentNode);
      LinkedBackAppend(reversed);
      reversed := reversed + [currentNode.prevNode];
      currentNode := currentNode.prevNode;
    }
    BackLinkRoot(g, startNode, currentNode);
    path := Reversed(reversed);
    ReversedRoute(g, reversed, startNode, endNode);
    ReversedLinks(reversed);
  }

  /** Each node of the list links back to the node after it. */
  ghost predicate LinkedBack(reversed: seq<Node>)
    reads set k | 0 <= k < |reversed| :: reversed[k]
  {
    forall k :: 0 <= k < |reversed| - 1 ==> reversed[k].prevNode == reversed[k + 1]
  }

  /** Following the last node's back-link extends the walk. */
  lemma LinkedBackAppend(reversed: seq<Node>)
    requires |reversed| >= 1 && LinkedBack(reversed) && reversed[|reversed| - 1].prevNode != null
    ensures LinkedBack(reversed + [reversed[|reversed| - 1].prevNode])
  {
  }

  /** Reversing the back-link walk from the end gives a list in which each node links to the one before it. */
  lemma ReversedLinks(reversed: seq<Node>)
    requires |reversed| >= 1 && reversed[|reversed| - 1].prevNode == null
    requires LinkedBack(reversed)
    ensures Reversed(reversed)[0].prevNode == null
    ensures forall k :: 0 <= k < |reversed| - 1 ==> Reversed(reversed)[k + 1].prevNode == Reversed(reversed)[k]
  {
    var path := Reversed(reversed);
    forall k | 0 <= k < |path| ensures path[k] == reversed[|reversed| - 1 - k] {
      ReversedAt(reversed, k);
    }
  }

  /** A node with a predecessor is a walkable neighbour of it, one step dearer. */
  lemma BackLinkStep(g: array2<Node?>, startNode: Node, n: Node)
    requires BackLinks(g, startNode) && InGraph(g, n) && n.prevNode != null
    ensures InGraph(g, n.prevNode) && Adjacent(n.prevNode, n) && n.isWalkable
    ensures 0 <= n.prevNode.gCost && n.gCost == n.prevNode.gCost + MoveStraightCost
  {
    assert g[n.x, n.y] == n;
  }

  /** A reached node without a predecessor is the start node. */
  lemma BackLinkRoot(g: array2<Node?>, startNode: Node, n: Node)
    requires BackLinks(g, startNode) && InGraph(g, n) && n.prevNode == null && n.gCost < IntMaxValue
    ensures n == startNode && n.gCost == 0
  {
    assert g[n.x, n.y] == n;
  }

  /**
   * The chain collected from endNode back to the start, read backwards, is a route from the start to
   * endNode on which the k-th node costs 10 * k.
   */
  lemma ReversedRoute(g: array2<Node?>, reversed: seq<Node>, startNode: Node, endNode: Node)
    requires |reversed| >= 1 && reversed[0] == endNode && reversed[|reversed| - 1] == startNode
    requires startNode.gCost == 0
    requires forall k :: 0 <= k < |reversed| ==> InGraph(g, reversed[k])
    requires forall k :: 0 <= k < |reversed| ==>
               reversed[k].gCost == startNode.gCost + MoveStraightCost * (|reversed| - 1 - k)
    requires forall k :: 0 <= k < |reversed| - 1 ==> Adjacent(reversed[k + 1], reversed[k]) && reversed[k].isWalkable
    ensures IsRoute(g, Reversed(reversed), startNode, endNode)
    ensures forall k :: 0 <= k < |reversed| ==> Reversed(reversed)[k].gCost == MoveStraightCost * k
    ensures endNode == startNode ==> Reversed(reversed) == [endNode]
  {
    var path := Reversed(reversed);
    forall k | 0 <= k < |path| ensures path[k] == reversed[|reversed| - 1 - k] {
      ReversedAt(reversed, k);
    }
    if endNode == startNode {
      assert reversed[0].gCost == MoveStraightCost * (|reversed| - 1);
    }
  }

  /** Sets gCost to int.MaxValue and prevNode to null on every node, and changes nothing else. */
  method ResetSearchState(g: array2<Node?>)
    requires WellFormed(g)
    modifies Cells(g)`gCost, Cells(g)`prevNode
    ensures forall i, j :: InBounds(g, i, j) ==> g[i, j].gCost == IntMaxValue && g[i, j].prevNode == null
    ensures forall i, j :: InBounds(g, i, j) ==>
              g[i, j].hCost == old(g[i, j].hCost) && g[i, j].fCost == old(g[i, j].fCost)
  {
    for x := 0 to g.Length0
      invariant forall i, j :: InBounds(g, i, j) && i < x ==>
                  g[i, j].gCost == IntMaxValue && g[i, j].prevNode == null
    {
      for y := 0 to g.Length1
        invariant forall i, j :: InBounds(g, i, j) && (i < x || (i == x && j < y)) ==>
                    g[i, j].gCost == IntMaxValue && g[i, j].prevNode == null
      {
        var pathNode := g[x, y];
        pathNode.gCost := IntMaxValue;
        pathNode.prevNode := null;
      }
    }
  }

  /**
   * The state of a search between two steps. Reached nodes are those on the open or the closed list;
   * every reached node but the start hangs off a closed, adjacent node and costs one step more, and
   * unreached nodes still carry the values of the reset.
   */
  ghost predicate SearchState(g: array2<Node?>, startNode: Node, openList: seq<Node>, closedList: seq<Node>)
    reads g, Cells(g)
  {
    WellFormed(g) && InGraph(g, startNode)
    && (forall n :: n in openList ==> InGraph(g, n))
    && (forall n :: n in closedList ==> InGraph(g, n))
    && Distinct(openList) && Distinct(closedList)
    && (forall n :: n in openList ==> n !in closedList)
    && (startNode in closedList || (openList == [startNode] && closedList == []))
    && startNode.gCost == 0 && startNode.prevNode == null
    && (forall i, j :: InBounds(g, i, j) && g[i, j] !in openList && g[i, j] !in closedList ==>
          g[i, j].gCost == IntMaxValue && g[i, j].prevNode == null)
    && (forall n :: n in openList + closedList && n != startNode ==>
          n.prevNode != null && n.prevNode in closedList && Adjacent(n.prevNode, n) && n.isWalkable
          && n.gCost == n.prevNode.gCost + MoveStraightCost)
    && (forall n :: n in openList + closedList ==> 0 <= n.gCost <= MoveStraightCost * |closedList|)
  }

  lemma SearchStateBackLinks(g: array2<Node?>, startNode: Node, openList: seq<Node>, closedList: seq<Node>)
    requires SearchState(g, startNode, openList, closedList)
    ensures BackLinks(g, startNode)
  {
  }

  /** Moving a node of the open list to the end of the closed list keeps the search state consistent. */
  lemma CloseNode(g: array2<Node?>, startNode: Node, openList: seq<Node>, closedList: seq<Node>, currentNode: Node)
    requires SearchState(g, startNode, openList, closedList)
    requires currentNode in openList
    ensures SearchState(g, startNode, Remove(openList, currentNode), closedList + [currentNode])
    ensures currentNode.gCost + MoveStraightCost <= MoveStraightCost * |closedList + [currentNode]|
  {
    RemoveDistinct(openList, currentNode);
  }

  /** The first m nodes of the open list cost `front`, the rest one step more. */
  ghost predicate SplitAt(openList: seq<Node>, front: int, m: int)
    reads openList
  {
    0 <= m <= |openList|
    && (forall i :: 0 <= i < m ==> openList[i].gCost == front)
    && (forall i :: m <= i < |openList| ==> openList[i].gCost == front + MoveStraightCost)
  }

  /**
   * The layers of a breadth-first search at cost `front`: the open list holds the nodes at cost front
   * followed by those at front + 10, and no closed node is dearer than front.
   */
  ghost predicate Layered(openList: seq<Node>, closedList: seq<Node>, front: int)
    reads openList, closedList
  {
    (exists m :: SplitAt(openList, front, m))
    && (forall n :: n in closedList ==> n.gCost <= front)
  }

  /**
   * Cell (x, y) can be reached from the start node in at most k orthogonal steps, every cell after the
   * first walkable.
   */
  ghost predicate Within(g: array2<Node?>, startNode: Node, x: int, y: int, k: nat)
    reads g
    decreases k
  {
    InBounds(g, x, y) && g[x, y] != null
    && if k == 0 then x == startNode.x && y == startNode.y
       else Within(g, startNode, x, y, k - 1)
            || (g[x, y].isWalkable
                && (Within(g, startNode, x - 1, y, k - 1) || Within(g, startNode, x + 1, y, k - 1)
                    || Within(g, startNode, x, y - 1, k - 1) || Within(g, startNode, x, y + 1, k - 1)))
  }

  /** No node of `nodes` can be reached from the start in fewer steps than its gCost says. */
  ghost predicate Optimal(g: array2<Node?>, startNode: Node, nodes: seq<Node>)
    reads g, nodes
  {
    forall n, k: nat :: n in nodes && Within(g, startNode, n.x, n.y, k) ==> n.gCost <= MoveStraightCost * k
  }

  /** Every cell that the start reaches at a cost below `front` holds a closed node. */
  ghost predicate Covered(g: array2<Node?>, startNode: Node, closedList: seq<Node>, front: int)
    reads g
  {
    forall x, y, k: nat :: Within(g, startNode, x, y, k) && MoveStraightCost * k < front ==> g[x, y] in closedList
  }

  /** Reaching a node of s that is neither open nor closed costs at least `cost`. */
  ghost predicate FarOff(g: array2<Node?>, startNode: Node, s: seq<Node>, openList: seq<Node>, closedList: seq<Node>,
                         cost: int)
    reads g
  {
    forall n, k: nat :: n in s && n !in openList && n !in closedList && Within(g, startNode, n.x, n.y, k) ==>
      cost <= MoveStraightCost * k
  }

  /** A route of |p| - 1 steps reaches its last node within that many steps. */
  lemma {:induction false} RouteWithin(g: array2<Node?>, p: seq<Node>, from: Node, to: Node)
    requires IsRoute(g, p, from, to)
    ensures Within(g, from, to.x, to.y, |p| - 1)
    decreases |p|
  {
    assert g[to.x, to.y] == to;
    if |p| >= 2 {
      var v := p[|p| - 2];
      RoutePrefix(g, p, from, to);
      RouteWithin(g, p[..|p| - 1], from, v);
      assert g[v.x, v.y] == v;
    }
  }

  /** A route with at least two nodes, without its last node, is a route to the last-but-one node. */
  lemma RoutePrefix(g: array2<Node?>, p: seq<Node>, from: Node, to: Node)
    requires IsRoute(g, p, from, to) && |p| >= 2
    ensures IsRoute(g, p[..|p| - 1], from, p[|p| - 2])
    ensures Adjacent(p[|p| - 2], to) && to.isWalkable
  {
  }

  /**
   * A cell reached within k > 0 steps was reached within k - 1 steps, or is a walkable cell next to
   * one that was.
   */
  lemma WithinStep(g: array2<Node?>, startNode: Node, x: int, y: int, k: nat)
    requires WellFormed(g) && Within(g, startNode, x, y, k) && k > 0
    ensures Within(g, startNode, x, y, k - 1)
            || (g[x, y].isWalkable
                && exists a, b :: Within(g, startNode, a, b, k - 1) && Adjacent(g[a, b], g[x, y]))
  {
    if !Within(g, startNode, x, y, k - 1) {
      if Within(g, startNode, x - 1, y, k - 1) {
        assert Adjacent(g[x - 1, y], g[x, y]);
      } else if Within(g, startNode, x + 1, y, k - 1) {
        assert Adjacent(g[x + 1, y], g[x, y]);
      } else if Within(g, startNode, x, y - 1, k - 1) {
        assert Adjacent(g[x, y - 1], g[x, y]);
      } else {
        assert Adjacent(g[x, y + 1], g[x, y]);
      }
    }
  }

  /**
   * The invariant of a breadth-first search, with the head of the open list as the front: the lists
   * are layered, every reached node's cost is that of a shortest route, and everything cheaper than
   * the front is closed.
   */
  ghost predicate Breadth(g: array2<Node?>, startNode: Node, openList: seq<Node>, closedList: seq<Node>)
    reads g, openList, closedList
  {
    openList != [] ==>
      Layered(openList, closedList, openList[0].gCost) && Optimal(g, startNode, openList + closedList)
      && Covered(g, startNode, closedList, openList[0].gCost)
  }

  /** In a layered open list no node is more than one step beyond the front. */
  lemma OpenWithinStep(openList: seq<Node>, closedList: seq<Node>, front: int, n: Node)
    requires Layered(openList, closedList, front) && n in openList
    ensures front <= n.gCost <= front + MoveStraightCost
  {
    var m :| SplitAt(openList, front, m);
    var i :| 0 <= i < |openList| && openList[i] == n;
  }

  /** A node first reached one step beyond the front joins the end of the open list without breaking the layers. */
  lemma LayeredAppend(g: array2<Node?>, startNode: Node, openList: seq<Node>, closedList: seq<Node>, front: int,
                      n: Node)
    requires Layered(openList, closedList, front) && Optimal(g, startNode, openList + closedList)
    requires n.gCost == front + MoveStraightCost
    requires forall k: nat :: Within(g, startNode, n.x, n.y, k) ==> front + MoveStraightCost <= MoveStraightCost * k
    ensures Layered(openList + [n], closedList, front) && Optimal(g, startNode, openList + [n] + closedList)
  {
    var m :| SplitAt(openList, front, m);
    assert SplitAt(openList + [n], front, m);
  }

  /**
   * In a breadth-first search, a neighbour of the front node that is neither open nor closed is at
   * least one step beyond the front: a shorter route would end with a step from a closed node, and
   * the frontier would already hold it.
   */
  lemma NeighboursFarOff(g: array2<Node?>, startNode: Node, openList: seq<Node>, closedList: seq<Node>,
                         currentNode: Node, neighbours: seq<Node>)
    requires SearchState(g, startNode, openList, closedList) && Frontier(Grid(g), openList, closedList)
    requires Covered(g, startNode, closedList, currentNode.gCost)
    requires currentNode in openList
    requires forall n :: n in neighbours ==> InGraph(g, n) && Adjacent(currentNode, n)
    ensures FarOff(g, startNode, neighbours, Remove(openList, currentNode), closedList + [currentNode],
                   currentNode.gCost + MoveStraightCost)
  {
    forall n, k: nat | n in neighbours && Within(g, startNode, n.x, n.y, k)
      ensures MoveStraightCost * k < currentNode.gCost + MoveStraightCost ==>
                n in Remove(openList, currentNode) || n in closedList + [currentNode]
    {
      if MoveStraightCost * k < currentNode.gCost + MoveStraightCost {
        NearReached(g, startNode, openList, closedList, currentNode, n, k);
      }
    }
  }

  /**
   * A neighbour of the front node that the start reaches in fewer steps than one beyond the front is
   * already open or closed once the front node is closed.
   */
  lemma NearReached(g: array2<Node?>, startNode: Node, openList: seq<Node>, closedList: seq<Node>,
                    currentNode: Node, n: Node, k: nat)
    requires SearchState(g, startNode, openList, closedList) && Frontier(Grid(g), openList, closedList)
    requires Covered(g, startNode, closedList, currentNode.gCost)
    requires currentNode in openList && InGraph(g, n) && Adjacent(currentNode, n)
    requires Within(g, startNode, n.x, n.y, k) && MoveStraightCost * k < currentNode.gCost + MoveStraightCost
    ensures n in Remove(openList, currentNode) || n in closedList + [currentNode]
  {
    RemoveDistinct(openList, currentNode);
    assert g[n.x, n.y] == n;
    assert g[startNode.x, startNode.y] == startNode;
    if k == 0 {
      assert n == startNode;
    } else {
      WithinStep(g, startNode, n.x, n.y, k);
      if !Within(g, startNode, n.x, n.y, k - 1) {
        var a, b :| Within(g, startNode, a, b, k - 1) && Adjacent(g[a, b], g[n.x, n.y]);
        assert g[a, b] in closedList;
        assert Grid(g)[n.x][n.y] == n;
      }
    }
  }

  /**
   * Closing the head of a breadth-first open list: the rest of the list stays layered around the
   * head's cost, nothing in either list gains a shorter route, and the head's neighbours that were
   * not reached yet are one step beyond it.
   */
  lemma BreadthClose(g: array2<Node?>, startNode: Node, openList: seq<Node>, closedList: seq<Node>,
                     neighbours: seq<Node>)
    requires SearchState(g, startNode, openList, closedList) && Frontier(Grid(g), openList, closedList)
    requires openList != [] && Breadth(g, startNode, openList, closedList)
    requires forall n :: n in neighbours ==> InGraph(g, n) && Adjacent(openList[0], n)
    ensures Remove(openList, openList[0]) == openList[1..]
    ensures Layered(openList[1..], closedList + [openList[0]], openList[0].gCost)
    ensures Optimal(g, startNode, openList[1..] + (closedList + [openList[0]]))
    ensures FarOff(g, startNode, neighbours, openList[1..], closedList + [openList[0]],
                   openList[0].gCost + MoveStraightCost)
  {
    var currentNode := openList[0];
    RemoveDistinct(openList, currentNode);
    assert IndexOf(openList, currentNode) == 0;
    LayeredTail(openList, closedList);
    OptimalSubset(g, startNode, openList + closedList, openList[1..] + (closedList + [currentNode]));
    NeighboursFarOff(g, startNode, openList, closedList, currentNode, neighbours);
  }

  /** The head of a layered open list can move to the closed list: the rest stays layered around it. */
  lemma LayeredTail(openList: seq<Node>, closedList: seq<Node>)
    requires openList != [] && Layered(openList, closedList, openList[0].gCost)
    ensures Layered(openList[1..], closedList + [openList[0]], openList[0].gCost)
  {
    var m :| SplitAt(openList, openList[0].gCost, m);
    assert SplitAt(openList[1..], openList[0].gCost, m - 1);
  }

  /** A bound on every node of a list holds on any list of the same nodes. */
  lemma OptimalSubset(g: array2<Node?>, startNode: Node, nodes: seq<Node>, fewer: seq<Node>)
    requires Optimal(g, startNode, nodes) && forall n :: n in fewer ==> n in nodes
    ensures Optimal(g, startNode, fewer)
  {
  }

  /**
   * After a breadth-first expansion the new head of the open list is the new front: everything a
   * route reaches below it is closed, because the last step of such a route leaves a node that was
   * below the old front.
   */
  lemma CoveredStep(g: array2<Node?>, startNode: Node, closedList: seq<Node>, currentNode: Node,
                    openList: seq<Node>, front: int)
    requires WellFormed(g) && InGraph(g, startNode)
    requires Covered(g, startNode, closedList, front)
    requires startNode in closedList + [currentNode]
    requires Frontier(Grid(g), openList, closedList + [currentNode])
    requires Layered(openList, closedList + [currentNode], front)
    requires Optimal(g, startNode, openList + (closedList + [currentNode]))
    requires openList != []
    ensures Breadth(g, startNode, openList, closedList + [currentNode])
  {
    var closed1 := closedList + [currentNode];
    var front' := openList[0].gCost;
    var split :| SplitAt(openList, front, split);
    if split == 0 {
      assert SplitAt(openList, front', |openList|);
    } else {
      assert SplitAt(openList, front', split);
    }
    forall x, y, k: nat | Within(g, startNode, x, y, k) && MoveStraightCost * k < front'
      ensures g[x, y] in closed1
    {
      var m := g[x, y];
      if k == 0 {
        assert g[startNode.x, startNode.y] == startNode;
      } else {
        WithinStep(g, startNode, x, y, k);
        if Within(g, startNode, x, y, k - 1) {
          assert m in closedList;
        } else {
          var a, b :| Within(g, startNode, a, b, k - 1) && Adjacent(g[a, b], m);
          assert g[a, b] in closedList;
          assert Grid(g)[x][y] == m;
        }
      }
    }
  }

  /**
   * The neighbour loop of one expansion: every neighbour of currentNode that is not closed is relaxed
   * in list order. Afterwards every neighbour is open or closed, the open list has only grown, closed
   * nodes keep their costs, and the search state is still consistent. In a breadth-first search
   * (`fifo`), the neighbours that were not reached yet join the open list one step dearer than
   * currentNode and the open list stays layered.
   */
  method ExpandNeighbours(g: array2<Node?>, startNode: Node, endNode: Node, currentNode: Node,
                          neighbours: seq<Node>, openList: seq<Node>, closedList: seq<Node>, ghost fifo: bool)
    returns (newOpenList: seq<Node>)
    requires SearchState(g, startNode, openList, closedList)
    requires currentNode in closedList
    requires currentNode.gCost + MoveStraightCost <= MoveStraightCost * |closedList| < IntMaxValue
    requires forall n :: n in neighbours ==> InGraph(g, n) && Adjacent(currentNode, n) && n.isWalkable
    requires fifo ==> Layered(openList, closedList, currentNode.gCost) && Optimal(g, startNode, openList + closedList)
    requires fifo ==> FarOff(g, startNode, neighbours, openList, closedList, currentNode.gCost + MoveStraightCost)
    modifies neighbours`prevNode, neighbours`gCost, neighbours`hCost
    ensures SearchState(g, startNode, newOpenList, closedList)
    ensures forall n :: n in newOpenList <==> n in openList || (n in neighbours && n !in closedList)
    ensures forall n :: n in closedList ==> n.gCost == old(n.gCost)
    ensures fifo ==> Layered(newOpenList, closedList, currentNode.gCost) && Optimal(g, startNode, newOpenList + closedList)
    ensures unchanged(g)
  {
    ghost var front := currentNode.gCost;
    newOpenList := openList;
    for i := 0 to |neighbours|
      invariant SearchState(g, startNode, newOpenList, closedList)
      invariant currentNode.gCost + MoveStraightCost <= MoveStraightCost * |closedList|
      invariant forall n :: n in newOpenList <==> n in openList || (n in neighbours[..i] && n !in closedList)
      invariant forall n :: n in closedList ==> n.gCost == old(n.gCost)
      invariant currentNode.gCost == front
      invariant fifo ==> Layered(newOpenList, closedList, front) && Optimal(g, startNode, newOpenList + closedList)
    {
      assert neighbours[..i + 1] == neighbours[..i] + [neighbours[i]];
      var neighbourNode := neighbours[i];
      if neighbourNode in closedList {
        // continue
      } else if !neighbourNode.isWalkable {
        // The source closes a wall it meets here, but the neighbour list never holds one.
        assert false;
      } else {
        assert g[neighbourNode.x, neighbourNode.y] == neighbourNode;
        newOpenList := Relax(g, startNode, endNode, currentNode, neighbourNode, newOpenList, closedList, fifo);
      }
    }
  }

  /**
   * One step of the neighbour loop for a neighbour that is not closed: when the route through
   * currentNode is strictly cheaper, the neighbour takes currentNode as predecessor, that cost as gCost
   * and its distance to the end as hCost, and joins the open list unless it is already there;
   * otherwise nothing changes. Either way the search state stays consistent.
   */
  method Relax(g: array2<Node?>, startNode: Node, endNode: Node, currentNode: Node, neighbourNode: Node,
               openList: seq<Node>, closedList: seq<Node>, ghost fifo: bool) returns (newOpenList: seq<Node>)
    requires SearchState(g, startNode, openList, closedList)
    requires currentNode in closedList
    requires currentNode.gCost + MoveStraightCost <= MoveStraightCost * |closedList| < IntMaxValue
    requires InGraph(g, neighbourNode) && neighbourNode !in closedList
    requires Adjacent(currentNode, neighbourNode) && neighbourNode.isWalkable
    requires fifo ==> Layered(openList, closedList, currentNode.gCost) && Optimal(g, startNode, openList + closedList)
    requires fifo && neighbourNode !in openList ==>
               forall k: nat :: Within(g, startNode, neighbourNode.x, neighbourNode.y, k) ==>
                 currentNode.gCost + MoveStraightCost <= MoveStraightCost * k
    modifies neighbourNode`prevNode, neighbourNode`gCost, neighbourNode`hCost
    ensures SearchState(g, startNode, newOpenList, closedList)
    ensures fifo ==> Layered(newOpenList, closedList, currentNode.gCost) && Optimal(g, startNode, newOpenList + closedList)
    ensures forall n :: n in newOpenList <==> n in openList || n == neighbourNode
    ensures old(currentNode.gCost + CalculateDistance(currentNode, neighbourNode) < neighbourNode.gCost) ==>
              neighbourNode.prevNode == currentNode
              && neighbourNode.gCost == currentNode.gCost + CalculateDistance(currentNode, neighbourNode)
              && neighbourNode.hCost == CalculateDistance(neighbourNode, endNode)
              && newOpenList == if neighbourNode in openList then openList else openList + [neighbourNode]
    ensures old(currentNode.gCost + CalculateDistance(currentNode, neighbourNode) >= neighbourNode.gCost) ==>
              unchanged(neighbourNode) && newOpenList == openList
  {
    newOpenList := openList;
    var tentativeGCost := currentNode.gCost + CalculateDistance(currentNode, neighbourNode);
    if fifo && neighbourNode in openList {
      // Breadth-first, an open neighbour is never more than one step beyond the front.
      OpenWithinStep(openList, closedList, currentNode.gCost, neighbourNode);
    }
    if tentativeGCost < neighbourNode.gCost {
      neighbourNode.prevNode := currentNode;
      neighbourNode.gCost := tentativeGCost;
      neighbourNode.hCost := CalculateDistance(neighbourNode, endNode);
      if neighbourNode !in openList {
        newOpenList := openList + [neighbourNode];
        if fifo {
          LayeredAppend(g, startNode, openList, closedList, currentNode.gCost, neighbourNode);
        }
      }
    }
  }

  /** The closed list holds distinct nodes of the graph, so it never outgrows the grid. */
  lemma ClosedBound(g: array2<Node?>, s: seq<Node>)
    requires Distinct(s) && forall n :: n in s ==> InGraph(g, n)
    ensures |s| <= g.Length0 * g.Length1
  {
    var cols := g.Length1;
    var keys := seq(|s|, k requires 0 <= k < |s| => s[k].x * cols + s[k].y);
    forall a, b | 0 <= a < b < |keys| ensures keys[a] != keys[b] {
      assert s[a] in s && s[b] in s;
      if keys[a] == keys[b] {
        KeyInjective(s[a].x, s[a].y, s[b].x, s[b].y, cols);
      }
    }
    forall a | 0 <= a < |keys| ensures 0 <= keys[a] < g.Length0 * cols {
      assert s[a] in s;
      KeyRange(s[a].x, s[a].y, g.Length0, cols);
    }
    DistinctBelow(keys, g.Length0 * cols);
  }

  lemma KeyRange(x: int, y: int, rows: int, cols: int)
    requires 0 <= x < rows && 0 <= y < cols
    ensures 0 <= x * cols + y < rows * cols
  {
    assert x * cols <= (rows - 1) * cols by {
      assert (rows - 1 - x) * cols >= 0;
    }
  }

  lemma KeyInjective(x1: int, y1: int, x2: int, y2: int, cols: int)
    requires 0 <= y1 < cols && 0 <= y2 < cols
    requires x1 * cols + y1 == x2 * cols + y2
    ensures x1 == x2 && y1 == y2
  {
    if x1 < x2 {
      MulAtLeast(x2 - x1, cols);
    } else if x2 < x1 {
      MulAtLeast(x1 - x2, cols);
    }
  }

  lemma {:induction false} MulAtLeast(k: int, c: nat)
    requires k >= 1
    ensures k * c >= c
    decreases k
  {
    if k > 1 {
      MulAtLeast(k - 1, c);
      assert k * c == (k - 1) * c + c;
    }
  }

  /**
   * A region that holds every walkable neighbour of its members cannot be left by a route: a route
   * from inside it never ends outside it.
   */
  lemma {:induction false} RouteStaysInside(g: array2<Node?>, region: seq<Node>, p: seq<Node>, k: int)
    requires forall c, m :: c in region && InGraph(g, m) && m.isWalkable && Adjacent(c, m) ==> m in region
    requires |p| >= 1 && p[0] in region
    requires forall i :: 0 <= i < |p| ==> InGraph(g, p[i])
    requires forall i :: 1 <= i < |p| ==> p[i].isWalkable
    requires forall i :: 0 <= i < |p| - 1 ==> Adjacent(p[i], p[i + 1])
    requires 0 <= k < |p|
    ensures p[k] in region
  {
    if k > 0 {
      RouteStaysInside(g, region, p, k - 1);
      assert Adjacent(p[k - 1], p[k]);
    }
  }

  /**
   * The loop invariant of the search: the state is consistent, every walkable neighbour of a closed
   * node has been seen, and the end node has not been closed.
   */
  ghost predicate Searching(g: array2<Node?>, startNode: Node, endNode: Node, openList: seq<Node>, closedList: seq<Node>)
    reads g, Cells(g)
  {
    SearchState(g, startNode, openList, closedList)
    && Frontier(Grid(g), openList, closedList)
    && endNode !in closedList
    && |closedList| <= g.Length0 * g.Length1
  }

  /** The nodes of the graph as rows of a value, which a search leaves as it is. */
  ghost function Grid(g: array2<Node?>): (grid: seq<seq<Node>>)
    requires WellFormed(g)
    reads g
    ensures |grid| == g.Length0
    ensures forall i :: 0 <= i < |grid| ==> |grid[i]| == g.Length1
    ensures forall i, j {:trigger grid[i][j]} :: InBounds(g, i, j) ==> grid[i][j] == g[i, j]
  {
    seq(g.Length0, i requires 0 <= i < g.Length0 && WellFormed(g) reads g =>
      seq(g.Length1, j requires 0 <= j < g.Length1 && WellFormed(g) reads g => g[i, j] as Node))
  }

  /** Every walkable node next to a closed node is open or closed: the search skips nothing it has seen. */
  ghost predicate Frontier(grid: seq<seq<Node>>, openList: seq<Node>, closedList: seq<Node>)
  {
    forall c, i, j :: c in closedList && 0 <= i < |grid| && 0 <= j < |grid[i]|
                      && grid[i][j].isWalkable && Adjacent(c, grid[i][j]) ==>
      grid[i][j] in openList || grid[i][j] in closedList
  }

  /** Every walkable node of the grid next to currentNode is in neighbours. */
  ghost predicate Surrounds(grid: seq<seq<Node>>, currentNode: Node, neighbours: seq<Node>)
  {
    forall i, j :: 0 <= i < |grid| && 0 <= j < |grid[i]| && grid[i][j].isWalkable && Adjacent(currentNode, grid[i][j]) ==>
      grid[i][j] in neighbours
  }

  /** GetNeighbourList misses no walkable neighbour, stated on the grid. */
  lemma NeighboursSurround(g: array2<Node?>, c: Node)
    requires WellFormed(g) && InGraph(g, c)
    ensures Surrounds(Grid(g), c, GetNeighbourList(g, c))
  {
    forall i, j | InBounds(g, i, j) && g[i, j].isWalkable && Adjacent(c, g[i, j])
      ensures g[i, j] in GetNeighbourList(g, c)
    {
      NeighboursComplete(g, c, g[i, j]);
    }
  }

  /**
   * Closing currentNode keeps the frontier: its neighbours have all been put in the open list or were
   * closed, and the other open nodes are still open.
   */
  lemma FrontierExpand(grid: seq<seq<Node>>, openList: seq<Node>, closedList: seq<Node>, currentNode: Node,
                       neighbours: seq<Node>, newOpenList: seq<Node>)
    requires Frontier(grid, openList, closedList) && Surrounds(grid, currentNode, neighbours)
    requires forall n :: n in neighbours ==> n in newOpenList || n in closedList + [currentNode]
    requires forall n :: n in openList && n != currentNode ==> n in newOpenList
    ensures Frontier(grid, newOpenList, closedList + [currentNode])
  {
    var newClosedList := closedList + [currentNode];
    forall c, i, j | c in newClosedList && 0 <= i < |grid| && 0 <= j < |grid[i]|
                     && grid[i][j].isWalkable && Adjacent(c, grid[i][j])
      ensures grid[i][j] in newOpenList || grid[i][j] in newClosedList
    {
      if c != currentNode {
        assert c in closedList;
      }
    }
  }

  /** With nothing left open, the closed nodes hold every walkable node next to one of them. */
  lemma FrontierClosed(g: array2<Node?>, closedList: seq<Node>)
    requires WellFormed(g) && Frontier(Grid(g), [], closedList)
    ensures forall c, m :: c in closedList && InGraph(g, m) && m.isWalkable && Adjacent(c, m) ==> m in closedList
  {
    forall c, m | c in closedList && InGraph(g, m) && m.isWalkable && Adjacent(c, m) ensures m in closedList {
      assert Grid(g)[m.x][m.y] == m;
    }
  }

  /** The four parts of Searching, put together after a node was closed. */
  lemma SearchingStep(g: array2<Node?>, startNode: Node, endNode: Node, openList: seq<Node>, closedList: seq<Node>,
                      currentNode: Node)
    requires SearchState(g, startNode, openList, closedList + [currentNode])
    requires Frontier(Grid(g), openList, closedList + [currentNode])
    requires endNode !in closedList && currentNode != endNode
    ensures Searching(g, startNode, endNode, openList, closedList + [currentNode])
  {
    ClosedBound(g, closedList + [currentNode]);
  }

  /**
   * One pass of the search loop after the end node was not picked: currentNode moves from the open
   * list to the closed list, and its walkable neighbours that are not closed are relaxed. When the
   * search is breadth-first (`fifo`: the head of the open list was picked), it stays so.
   */
  method ExpandNode(g: array2<Node?>, startNode: Node, endNode: Node, currentNode: Node,
                    openList: seq<Node>, closedList: seq<Node>, ghost fifo: bool)
    returns (newOpenList: seq<Node>, newClosedList: seq<Node>)
    requires Searching(g, startNode, endNode, openList, closedList)
    requires currentNode in openList && currentNode != endNode
    requires MoveStraightCost * (g.Length0 * g.Length1) < IntMaxValue
    requires fifo ==> currentNode == openList[0] && Breadth(g, startNode, openList, closedList)
    modifies Cells(g)`gCost, Cells(g)`hCost, Cells(g)`prevNode
    ensures Searching(g, startNode, endNode, newOpenList, newClosedList)
    ensures newClosedList == closedList + [currentNode]
    ensures forall n :: n in newOpenList ==> n in openList || Adjacent(currentNode, n)
    ensures fifo ==> Breadth(g, startNode, newOpenList, newClosedList)
  {
    ghost var front := currentNode.gCost;
    CloseNode(g, startNode, openList, closedList, currentNode);
    newOpenList := Remove(openList, currentNode);
    newClosedList := closedList + [currentNode];
    ClosedBound(g, newClosedList);

    var neighbours := GetNeighbourList(g, currentNode);
    NeighboursSound(g, currentNode);
    NeighboursSurround(g, currentNode);
    ghost var grid := Grid(g);
    ghost var closingOpenList := newOpenList;
    RemoveDistinct(openList, currentNode);
    if fifo {
      BreadthClose(g, startNode, openList, closedList, neighbours);
    }
    newOpenList := ExpandNeighbours(g, startNode, endNode, currentNode, neighbours, newOpenList, newClosedList, fifo);
    assert forall n :: n in openList && n != currentNode ==> n in closingOpenList;
    FrontierExpand(grid, openList, closedList, currentNode, neighbours, newOpenList);
    assert Grid(g) == grid;
    SearchingStep(g, startNode, endNode, newOpenList, closedList, currentNode);
    if fifo && newOpenList != [] {
      CoveredStep(g, startNode, closedList, currentNode, newOpenList, front);
    }
  }

  /**
   * The set-up of a search: every node is reset, then the start node gets gCost 0 and its distance to
   * the end node as hCost. The open list [startNode] and the empty closed list are then a consistent
   * search state.
   */
  method StartSearch(g: array2<Node?>, startNode: Node, endNode: Node)
    requires WellFormed(g) && InGraph(g, startNode) && InGraph(g, endNode)
    modifies Cells(g)`gCost, Cells(g)`hCost, Cells(g)`prevNode
    ensures Searching(g, startNode, endNode, [startNode], [])
    ensures startNode.hCost == CalculateDistance(startNode, endNode)
  {
    ResetSearchState(g);
    InGraphCell(g, startNode);
    startNode.gCost := 0;
    startNode.hCost := CalculateDistance(startNode, endNode);
    SearchingStart(g, startNode, endNode);
  }

  /** Before anything is closed, a consistent state is a search state: nothing is missed yet. */
  lemma SearchingStart(g: array2<Node?>, startNode: Node, endNode: Node)
    requires WellFormed(g) && InGraph(g, startNode) && startNode.gCost == 0 && startNode.prevNode == null
    requires forall i, j :: InBounds(g, i, j) && g[i, j] != startNode ==>
               g[i, j].gCost == IntMaxValue && g[i, j].prevNode == null
    ensures Searching(g, startNode, endNode, [startNode], [])
  {
  }

  /**
   * A route whose last node's gCost counts its steps, to a node whose gCost no route undercuts, is a
   * shortest route.
   */
  lemma Shortest(g: array2<Node?>, startNode: Node, endNode: Node, nodes: seq<Node>, p: seq<Node>)
    requires Optimal(g, startNode, nodes) && endNode in nodes
    requires IsRoute(g, p, startNode, endNode) && endNode.gCost == MoveStraightCost * (|p| - 1)
    ensures forall q :: IsRoute(g, q, startNode, endNode) ==> |p| <= |q|
  {
    forall q | IsRoute(g, q, startNode, endNode) ensures |p| <= |q| {
      RouteWithin(g, q, startNode, endNode);
    }
  }

  /** The search begins breadth-first: only the start is open, and nothing costs less than nothing. */
  lemma BreadthStart(g: array2<Node?>, startNode: Node)
    requires startNode.gCost == 0
    ensures Breadth(g, startNode, [startNode], [])
  {
    assert SplitAt([startNode], startNode.gCost, 1);
  }

  /**
   * The end of a search that picked the end node: the path retraced from it is a route from the start
   * whose k-th node has gCost 10 * k, and in a breadth-first search no route is shorter.
   */
  method RetracePath(g: array2<Node?>, startNode: Node, endNode: Node, openList: seq<Node>, closedList: seq<Node>,
                     ghost fifo: bool)
    returns (path: seq<Node>)
    requires Searching(g, startNode, endNode, openList, closedList) && endNode in openList
    requires MoveStraightCost * (g.Length0 * g.Length1) < IntMaxValue
    requires fifo ==> Breadth(g, startNode, openList, closedList)
    ensures IsRoute(g, path, startNode, endNode)
    ensures forall k :: 0 <= k < |path| ==> path[k].gCost == MoveStraightCost * k
    ensures endNode == startNode ==> path == [endNode]
    ensures fifo ==> forall q :: IsRoute(g, q, startNode, endNode) ==> |path| <= |q|
  {
    SearchStateBackLinks(g, startNode, openList, closedList);
    path := CalculatePath(g, endNode, startNode);
    if fifo {
      Shortest(g, startNode, endNode, openList + closedList, path);
    }
  }

  /** When every node of the graph has the same fCost, so does every node of a list drawn from it. */
  lemma EqualCosts(g: array2<Node?>, nodes: seq<Node>, fCost: int)
    requires SameFCost(g, fCost) && forall n :: n in nodes ==> InGraph(g, n)
    ensures forall k :: 0 <= k < |nodes| ==> nodes[k].fCost == nodes[0].fCost
  {
    forall k | 0 <= k < |nodes| ensures nodes[k].fCost == fCost {
      assert nodes[k] in nodes;
    }
  }

  /**
   * One pass of the search loop: the open node with the lowest fCost is picked; the end node ends the
   * search with the path retraced from it, any other node is expanded. In a breadth-first search
   * (`fifo`) the pick is the head of the open list and the retraced path is a shortest route.
   */
  method SearchStep(g: array2<Node?>, startNode: Node, endNode: Node, openList: seq<Node>, closedList: seq<Node>,
                    ghost fifo: bool, ghost fCost: int)
    returns (found: Option<seq<Node>>, newOpenList: seq<Node>, newClosedList: seq<Node>)
    requires Searching(g, startNode, endNode, openList, closedList) && openList != []
    requires MoveStraightCost * (g.Length0 * g.Length1) < IntMaxValue
    requires fifo ==> SameFCost(g, fCost) && Breadth(g, startNode, openList, closedList)
    modifies Cells(g)`gCost, Cells(g)`hCost, Cells(g)`prevNode
    ensures found.Some? ==> IsRoute(g, found.value, startNode, endNode)
    ensures found.Some? ==> forall k :: 0 <= k < |found.value| ==> found.value[k].gCost == MoveStraightCost * k
    ensures found.Some? && endNode == startNode ==> found.value == [endNode]
    ensures found.Some? && fifo ==> forall q :: IsRoute(g, q, startNode, endNode) ==> |found.value| <= |q|
    ensures found.None? ==> Searching(g, startNode, endNode, newOpenList, newClosedList)
    ensures found.None? ==> |newClosedList| == |closedList| + 1
    ensures found.None? && fifo ==> Breadth(g, startNode, newOpenList, newClosedList)
    ensures endNode == startNode ==> found.Some?
  {
    if fifo {
      EqualCosts(g, openList, fCost);
    }
    var currentNode, at := GetLowestFCostNode(openList);
    assert fifo ==> currentNode == openList[0];
    if currentNode == endNode {
      var p := RetracePath(g, startNode, endNode, openList, closedList, fifo);
      return Some(p), openList, closedList;
    }
    newOpenList, newClosedList := ExpandNode(g, startNode, endNode, currentNode, openList, closedList, fifo);
    found := None;
  }

  /** Every node of the graph has the given fCost. */
  ghost predicate SameFCost(g: array2<Node?>, fCost: int)
    reads g, Cells(g)
  {
    WellFormed(g) && forall i, j :: InBounds(g, i, j) ==> g[i, j].fCost == fCost
  }

  /**
   * The search of PathFinder. It resets every node, then expands the open list until it picks the end
   * node, and returns None (the source's null) when the open list runs dry. A returned path is a route
   * from the start to the end whose k-th node has gCost 10 * k; None means that no route exists.
   */
  method FindPath(g: array2<Node?>, startX: int, startY: int, endX: int, endY: int)
    returns (path: Option<seq<Node>>)
    requires WellFormed(g)
    requires InBounds(g, startX, startY) && InBounds(g, endX, endY)
    requires MoveStraightCost * (g.Length0 * g.Length1) < IntMaxValue
    modifies Cells(g)`gCost, Cells(g)`hCost, Cells(g)`prevNode
    ensures forall i, j :: InBounds(g, i, j) ==> g[i, j].fCost == old(g[i, j].fCost)
    ensures path.Some? ==> IsRoute(g, path.value, g[startX, startY], g[endX, endY])
    ensures path.Some? ==> forall k :: 0 <= k < |path.value| ==> path.value[k].gCost == MoveStraightCost * k
    ensures path.None? ==> forall p :: !IsRoute(g, p, g[startX, startY], g[endX, endY])
    ensures startX == endX && startY == endY ==> path == Some([g[startX, startY]])
    ensures path.Some? && (forall i, j :: InBounds(g, i, j) ==> old(g[i, j].fCost) == old(g[startX, startY].fCost)) ==>
              forall p :: IsRoute(g, p, g[startX, startY], g[endX, endY]) ==> |path.value| <= |p|
  {
    var startNode: Node := g[startX, startY];
    var endNode: Node := g[endX, endY];
    var openList: seq<Node> := [startNode];
    var closedList: seq<Node> := [];
    // With equal fCosts everywhere the lowest-fCost pick is the head of the open list.
    ghost var fCost := startNode.fCost;
    ghost var fifo := SameFCost(g, fCost);
    StartSearch(g, startNode, endNode);
    BreadthStart(g, startNode);

    while |openList| > 0
      invariant Searching(g, startNode, endNode, openList, closedList)
      invariant forall i, j :: InBounds(g, i, j) ==> g[i, j].fCost == old(g[i, j].fCost)
      invariant fifo ==> Breadth(g, startNode, openList, closedList)
      decreases g.Length0 * g.Length1 - |closedList|
    {
      var found;
      found, openList, closedList := SearchStep(g, startNode, endNode, openList, closedList, fifo, fCost);
      if found.Some? {
        return found;
      }
    }

    path := None;
    FrontierClosed(g, closedList);
    forall p | IsRoute(g, p, startNode, endNode) ensures false {
      RouteStaysInside(g, closedList, p, |p| - 1);
    }
  }
}
