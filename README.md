# Maze pursuit and tower-defence economy, modelled in Dafny

This project models the algorithmic core of a set of Unity game scripts:

* **MazeConstructor** builds an `int[rows, cols]` wall grid. Border cells become walls. Each inside
  cell whose two indices are even (a "post") may become a wall together with one orthogonal
  neighbour (its "stub"). The constructor then wraps the grid in a `Node[,]` graph and can dump
  that graph as text.
* **Node** is one cell of the graph. Its coordinates and walkability are fixed; its search fields
  `gCost`, `hCost`, `fCost` and `prevNode` change with every search.
* **PathFinder** runs an A*-shaped search over the graph. It resets every node, keeps an open list
  and a closed list, expands four-way neighbours with step cost 10, and rebuilds the path along
  `prevNode`. `Update` turns the monster's and player's positions into cells and heads for the
  second node of the path.
* **MonsterData**, **MonsterSlot** and **GameManager** make up the tower-defence economy: a level
  cursor with a next-level rule, gold-guarded placement and upgrade, and a health setter that
  latches game-over.

Files:

* `node.dfy`: module `Nodes`, holding the `Node` class and what it means for an `array2<Node?>` to
  be the graph of a grid (`WellFormed`).
* `lists.dfy`: module `Lists`, with .NET `List<T>.IndexOf`, `Remove` and `Reverse` as functions on
  sequences.
* `maze.dfy`: module `Maze`, holding the wall rule, the generator, the graph builder and the text
  dump.
* `pathfinder.dfy`: module `PathFinding`, holding the search and its invariants.
* `pursuit.dfy`: module `Pursuit`, the integer part of `PathFinder.Update`.
* `monsterdata.dfy`, `gamemanager.dfy` and `monsterslot.dfy`: modules `Monsters`, `Economy` and
  `Slots`.

Modelling choices:

* **Randomness.** `UnityEngine.Random` is an oracle `draws: (int, int) -> Draws`. For each post it
  gives the three outcomes in the order the source draws them: place a wall?, negative direction?,
  row axis? Each outcome is already compared with its threshold.
* **Copies.** Each of the two copies of `MazeConstructor`, `PathFinder` and `MonsterSlot` agrees
  with its twin in every modelled method but one. The exception is `PathFinder.Update`: the two
  copies map a world position to a graph cell the opposite way round. `Pursuit` models both
  mappings (see "## Findings"). Everything else shares one model, and the rows below cite both
  copies.
* **Nodes and the graph.** A `Node` is a class. The graph is the source's `Node[,]` (an
  `array2<Node?>`). A well-formed graph stores at (i, j) a node whose coordinates are (i, j), so
  distinct cells hold distinct nodes.
* **FindPath state.** `FindPath` mutates the nodes' fields in place. The open and closed lists are
  sequences of nodes.
* **Search order.** Nothing in the search assigns `fCost`, and no caller ever calls
  `Node.CalculateFCost`. Every node therefore keeps the `fCost` of 0 it had at construction, and
  `GetLowestFCostNode` returns the head of the open list, so the open list is a queue.
  `GetLowestFCostNode` is modelled in general: it returns the first node of minimal `fCost`, and
  the head when all are equal. The correctness of `FindPath` is proved for any `fCost` values.
  When all `fCost` values are equal, as the game leaves them, the search is breadth-first, and
  `FindPath` is also proved to return a shortest route. The invariant behind that proof is
  `Breadth`. The open list holds the nodes at the front's cost, then those one step dearer. Every
  reached node's `gCost` is the length of a shortest route to it. Every cell reachable below the
  front's cost is closed. Reachability "within k steps" is the recursive predicate `Within`, over
  cell coordinates.
* **Edge cases the code leaves to its callers.**
  * The code does not clamp the wall-stub offset at the border. `StubInBounds` proves the stub
    never leaves the grid.
  * `FindPath` reports "no path" as `null`, which is modelled as `None`.
  * `FindPath` indexes the start and end cells without checking them, so in-bounds cells are a
    precondition.
  * `FindPath` has a branch that closes a wall met as a neighbour. It is unreachable, because the
    neighbour list holds only walkable nodes. The model keeps the branch and proves it dead.

## Model

| member | source | states |
|---|---|---|
| `Nodes.Node.constructor` | MazeGame/Assets/Scripts/Node.cs:21-27 | stores x, y and isWalkable; hCost is 0; gCost, fCost are 0 and prevNode is null because they keep their defaults |
| `Nodes.Node.CalculateFCost` | MazeGame/Assets/Scripts/Node.cs:29-32 | fCost becomes the 32-bit wrapped sum of gCost and hCost, which is the exact sum whenever that fits in an int; no other field changes, so a second call changes nothing |
| `Nodes.Wrap32` | MazeGame/Assets/Scripts/Node.cs:31 | the C# int addition: the result lies in [int.MinValue, int.MaxValue], differs from the exact sum by a multiple of 2^32, and is the exact sum when that is in range |
| `Nodes.UnreachedFCostWraps` | MazeGame/Assets/Scripts/Node.cs:31 | on a node the search left unreached (gCost == int.MaxValue) with a positive hCost h, the stored fCost is int.MinValue + h - 1, a negative number |
| `Maze.StubOffset` | MazeGame/Assets/Scripts/MazeConstructor.cs:80-83 | the stub offset moves exactly one axis, by exactly one cell |
| `Maze.StubInBounds` | 03-procedural-generation/03-starter-code/Assets/Scripts/MazeConstructor.cs:66-77 | the stub of a placed post is inside [0, numRows) x [0, numCols), so the write at x + offset[0], y + offset[1] never leaves the grid |
| `Maze.OddCellsOpen` | 03-procedural-generation/03-starter-code/Assets/Scripts/MazeConstructor.cs:58-81 | an inside cell with two odd indices is never a wall, whatever the random draws |
| `Maze.PostWallIffPlaced` | MazeGame/Assets/Scripts/MazeConstructor.cs:73-85 | a post is a wall exactly when its own placement draw passed; no stub of another post lands on it |
| `Maze.Visit` | MazeGame/Assets/Scripts/MazeConstructor.cs:68-86 | one pass of the loop body sets to 1 exactly the cells it marks (the frame cell, or the placed post and its stub) and leaves every other cell as it was, so no 1 is ever overwritten by 0 |
| `Maze.MazeConstructor.GenerateMazeDataFromDimensions` | MazeGame/Assets/Scripts/MazeConstructor.cs:56-92 | returns a fresh numRows x numCols grid holding 1 on border cells, placed posts and their stubs, and 0 elsewhere; every border cell is 1, odd-odd inside cells are 0, and a post is 1 iff its draw placed it |
| `Maze.MazeConstructor.GenerateNodeGraph` | MazeGame/Assets/Scripts/MazeConstructor.cs:95-109 | Graph becomes a fresh sizeRows x sizeCols array of fresh nodes; the node at (i, j) has x == i, y == j and is walkable iff Data[i, j] == 0 |
| `Maze.MazeConstructor.GenerateNewMaze` | 03-procedural-generation/03-starter-code/Assets/Scripts/MazeConstructor.cs:102-108 | sets rows and cols, then builds Data by the wall rule and a Graph of the same size whose node at (i, j) is walkable iff that cell is not a wall, with gCost, hCost and fCost 0 and no previous node |
| `Maze.MazeConstructor.Awake` | MazeGame/Assets/Scripts/MazeConstructor.cs:20-24 | builds a maze of the configured rows x cols and keeps those sizes: Data is a fresh rows x cols grid holding 1 exactly at the walls of the maze rule, and Graph is a well-formed graph of the same size, walkable exactly off the walls, whose nodes all have gCost, hCost and fCost 0 and no previous node, so every fCost is equal as the shortest-route clause of `FindPath` asks |
| `Maze.MazeConstructor.GenerateGraphDebugString` | MazeGame/Assets/Scripts/MazeConstructor.cs:125-143 | the string built by the nested loops equals GraphText over rows x cols nodes |
| `Maze.GraphText` | 03-procedural-generation/03-starter-code/Assets/Scripts/MazeConstructor.cs:110-124 | the dump of m rows of cols cells has length 12 + m * (2 * cols + 1): the header line, then two characters per cell and a line break per row |
| `Maze.GraphTextHeader` | MazeGame/Assets/Scripts/MazeConstructor.cs:127 | the dump starts with "Node Graph:\n" |
| `Maze.GraphTextCell` | MazeGame/Assets/Scripts/MazeConstructor.cs:130-137 | cell (i, j) appears at position 12 + i * (2 * cols + 1) + 2 * j as 'O' if walkable and 'X' otherwise, followed by a space |
| `Maze.GraphTextLineEnd` | MazeGame/Assets/Scripts/MazeConstructor.cs:138-139 | every row of the dump ends with "\n" right after its last cell |
| `PathFinding.CalculateDistance` | MazeGame/Assets/Scripts/PathFinder.cs:27-35 | the estimate is non-negative, 0 iff the coordinates are equal, exactly 10 for orthogonal neighbours, and lies between 10 * max(dx, dy) and 10 * (dx + dy) |
| `PathFinding.DistanceSymmetric` | 03-procedural-generation/03-starter-code/Assets/Scripts/PathFinder.cs:28-36 | the estimate is symmetric in its two nodes |
| `PathFinding.DistanceConsistent` | 03-procedural-generation/03-starter-code/Assets/Scripts/PathFinder.cs:29-35 | moving one orthogonal step changes the estimate to a fixed goal by at most the step cost 10 |
| `PathFinding.GetNeighbourList` | MazeGame/Assets/Scripts/PathFinder.cs:37-54 | the neighbour list has at most four nodes |
| `PathFinding.NeighboursSound` | MazeGame/Assets/Scripts/PathFinder.cs:42-52 | every listed neighbour is an in-bounds, walkable node of the graph, one orthogonal step away |
| `PathFinding.NeighboursComplete` | 03-procedural-generation/03-starter-code/Assets/Scripts/PathFinder.cs:39-56 | every walkable node one orthogonal step away is listed |
| `PathFinding.NeighboursOrdered` | MazeGame/Assets/Scripts/PathFinder.cs:40-54 | the listed neighbours come in the order x - 1, x + 1, y - 1, y + 1 |
| `PathFinding.GetLowestFCostNode` | MazeGame/Assets/Scripts/PathFinder.cs:58-69 | returns an element of the non-empty list with minimal fCost, the earliest on ties, and the head when all fCosts are equal |
| `PathFinding.CalculatePath` | MazeGame/Assets/Scripts/PathFinder.cs:72-84 | following prevNode back from the end and reversing gives a route from the start to the end through adjacent walkable nodes whose k-th node has gCost 10 * k; [end] when end is the start; the first node has no previous node and each later node's prevNode is the node before it in the path |
| `PathFinding.ReversedLinks` | MazeGame/Assets/Scripts/PathFinder.cs:76-82 | reversing a walk in which each node's prevNode is the next one gives a list in which each node's prevNode is the one before it, starting from a node without one |
| `PathFinding.ResetSearchState` | 03-procedural-generation/03-starter-code/Assets/Scripts/PathFinder.cs:100-108 | afterwards every node has gCost == int.MaxValue and prevNode == null, and hCost and fCost are untouched |
| `PathFinding.StartSearch` | MazeGame/Assets/Scripts/PathFinder.cs:92-110 | after the reset and the start node's set-up, [start] and [] are a consistent search state, and the start's hCost is its distance to the end |
| `PathFinding.CloseNode` | MazeGame/Assets/Scripts/PathFinder.cs:120-121 | moving the picked node from the open list to the closed list keeps both lists duplicate-free and disjoint and the back-links consistent |
| `PathFinding.Relax` | 03-procedural-generation/03-starter-code/Assets/Scripts/PathFinder.cs:134-145 | when current.gCost + 10 is strictly lower, sets prevNode, gCost and hCost and appends the neighbour only if absent; otherwise changes nothing; in a breadth-first search the open list stays layered and every reached cost stays that of a shortest route |
| `PathFinding.ExpandNeighbours` | MazeGame/Assets/Scripts/PathFinder.cs:123-145 | the neighbour loop skips closed nodes, never meets a wall, and leaves the open list holding exactly the old open nodes plus the neighbours not closed; closed nodes keep their costs; breadth-first, the open list stays layered and the costs optimal |
| `PathFinding.ExpandNode` | 03-procedural-generation/03-starter-code/Assets/Scripts/PathFinder.cs:121-146 | one loop pass appends the picked node to the closed list and keeps the loop invariant (consistent state, no walkable neighbour of a closed node left unseen, end not closed); when the picked node is the head of a breadth-first open list, the search stays breadth-first |
| `PathFinding.SearchStep` | MazeGame/Assets/Scripts/PathFinder.cs:112-146 | one pass of the search loop: picking the end node returns a route from the start with path[k].gCost == 10 * k, a shortest one when all fCosts are equal; any other pick adds one closed node and keeps the search state (and its breadth-first invariant) |
| `PathFinding.RetracePath` | MazeGame/Assets/Scripts/PathFinder.cs:115-118 | the path rebuilt once the end node is picked is a route from the start with path[k].gCost == 10 * k, [end] when end is the start, and in a breadth-first search no route from the start to the end is shorter |
| `PathFinding.EqualCosts` | MazeGame/Assets/Scripts/PathFinder.cs:58-69 | when every node of the graph has the same fCost, every node of the open list has the fCost of its head, so the strict comparison keeps the head |
| `PathFinding.RouteWithin` | MazeGame/Assets/Scripts/PathFinder.cs:37-54 | a route of n steps through walkable neighbours reaches its last cell within n steps |
| `PathFinding.WithinStep` | MazeGame/Assets/Scripts/PathFinder.cs:37-54 | a cell reached within k > 0 steps was reached within k - 1 steps or is a walkable orthogonal neighbour of such a cell |
| `PathFinding.LayeredAppend` | MazeGame/Assets/Scripts/PathFinder.cs:140-143 | a node first reached one step beyond the front, and reachable no faster, can join the end of the open list: the list stays layered and every cost optimal |
| `PathFinding.BreadthClose` | MazeGame/Assets/Scripts/PathFinder.cs:114-121 | removing the head of a breadth-first open list removes index 0; the rest stays layered around the head's cost, costs stay optimal, and every neighbour not yet reached needs at least one step more than the head |
| `PathFinding.NeighboursFarOff` | MazeGame/Assets/Scripts/PathFinder.cs:123-145 | a neighbour of the head that is neither open nor closed after the head is closed cannot be reached in fewer steps than one beyond the head's cost |
| `PathFinding.CoveredStep` | MazeGame/Assets/Scripts/PathFinder.cs:112-146 | after an expansion, the new head of the open list has the lowest cost in the list, and every cell reachable at a cost below it is closed, so the search is breadth-first again |
| `PathFinding.Shortest` | MazeGame/Assets/Scripts/PathFinder.cs:115-118 | a route whose end's gCost counts its steps, to a node whose gCost no route undercuts, is no longer than any other route to that node |
| `PathFinding.ClosedBound` | MazeGame/Assets/Scripts/PathFinder.cs:121 | a duplicate-free list of graph nodes has at most rows * cols entries, which bounds the iterations of the search loop |
| `PathFinding.RouteStaysInside` | 03-procedural-generation/03-starter-code/Assets/Scripts/PathFinder.cs:113-148 | a route that starts in a set closed under walkable neighbours never leaves it, which is why an exhausted open list means no route exists |
| `PathFinding.FindPath` | MazeGame/Assets/Scripts/PathFinder.cs:87-148 | a returned path runs from the start to the end through adjacent cells, walkable after the first, with path[k].gCost == 10 * k; null (None) only when no such route exists; [start] when start == end; fCost is never changed; when all nodes have the same fCost, as the game leaves them, no route is shorter than the returned path |
| `Lists.Remove` | MazeGame/Assets/Scripts/PathFinder.cs:120 | List.Remove drops the first occurrence of the node and nothing else, and leaves a list without it unchanged |
| `Lists.Reversed` | MazeGame/Assets/Scripts/PathFinder.cs:82 | List.Reverse keeps the length and the elements with their multiplicities |
| `Lists.ReversedAt` | MazeGame/Assets/Scripts/PathFinder.cs:82 | List.Reverse puts element k at position count - 1 - k |
| `Lists.IndexOf` | 02-game-mechanics/02-starter-code/Assets/Scripts/MonsterData.cs:56 | List.IndexOf is the position of the first occurrence, or -1 exactly when the element is absent |
| `Pursuit.CentresKeepDistance` | MazeGame/Assets/Scripts/PathFinder.cs:195 | the waypoint of a node lies at (node.y, node.x) cell widths, so two waypoints are as far apart (Manhattan distance) as their cells, and a one-step move in the graph is a one-width move in the world |
| `Pursuit.MazeGameCell` | MazeGame/Assets/Scripts/PathFinder.cs:184-190 | MazeGame maps world (x, z) to cell (z, x), so a cell centre maps back to its own position |
| `Pursuit.StarterCell` | 03-procedural-generation/03-starter-code/Assets/Scripts/PathFinder.cs:174-180 | the starter maps world (x, z) to cell (x, z); any position off the diagonal is not the centre of its own cell |
| `Pursuit.MazeGameStepIsOneCell` | MazeGame/Assets/Scripts/PathFinder.cs:184-196 | under MazeGame's mapping, the next waypoint is one cell width from the monster |
| `Pursuit.StarterStepLeavesNeighbourhood` | 03-procedural-generation/03-starter-code/Assets/Scripts/PathFinder.cs:174-185 | under the starter's mapping, a monster at world (1, 3) gets a waypoint at Manhattan distance at least 3 and squared straight-line distance at least 5, so more than two cell widths away |
| `Pursuit.PursuitStep` | MazeGame/Assets/Scripts/PathFinder.cs:184-196 | the monster moves only when the path has at least two nodes, which happens iff the player is in another cell that a route reaches; the target is then a walkable neighbour from which the player's cell is reachable, and under MazeGame's mapping its waypoint is one cell width from the monster |
| `Economy.GameManager.constructor` | 02-game-mechanics/02-starter-code/Assets/Scripts/GameManager.cs:10-19 | StartingGold 1000, StartingHealth 5, gold and health 0, gameOver false, no event raised |
| `Economy.GameManager.SetHealth` | 02-game-mechanics/02-starter-code/Assets/Scripts/GameManager.cs:21-34 | stores the value and raises OnHealthSet once; gameOver becomes old gameOver or value <= 0, so it never returns to false; OnGameOver fires exactly when the latch flips, hence at most once |
| `Economy.GameManager.SetGold` | 02-game-mechanics/02-starter-code/Assets/Scripts/GameManager.cs:36-44 | stores the value and raises OnGoldSet once |
| `Economy.GameManager.Start` | 02-game-mechanics/02-starter-code/Assets/Scripts/GameManager.cs:56-60 | gold becomes StartingGold and health StartingHealth, each setter's event fired once |
| `Economy.GameManager.Awake` | 02-game-mechanics/02-starter-code/Assets/Scripts/GameManager.cs:46-54 | with an existing Instance, keeps it and destroys the newcomer; otherwise the newcomer becomes Instance |
| `Monsters.MonsterData.SetCurrentLevel` | 02-game-mechanics/02-starter-code/Assets/Scripts/MonsterData.cs:34-52 | stores the level, then each level's sprite is active iff that level is the current one |
| `Monsters.MonsterData.OnEnable` | 02-game-mechanics/02-starter-code/Assets/Scripts/MonsterData.cs:29-32 | levels[0] becomes current and only its sprite is shown |
| `Monsters.MonsterData.GetNextLevel` | 02-game-mechanics/02-starter-code/Assets/Scripts/MonsterData.cs:54-65 | the level after the first occurrence of the current one, null at the last level, levels[0] when the current level is not in the list; reads only, so it changes no state |
| `Monsters.NextLevelAdvances` | 02-game-mechanics/02-starter-code/Assets/Scripts/MonsterData.cs:56-63 | in a list of distinct levels with the cursor at index i, the next level is levels[i + 1] at index i + 1 if i < Count - 1, and null at the last index |
| `Monsters.MonsterData.IncreaseLevel` | 02-game-mechanics/02-starter-code/Assets/Scripts/MonsterData.cs:67-78 | moves the cursor to the next level and shows only its sprite when one exists; at the last level changes nothing |
| `Monsters.MonsterData.Instantiate` | 02-game-mechanics/02-starter-code/Assets/Scripts/MonsterSlot.cs:46 | the placed monster has fresh, distinct copies of the prefab's levels at the same costs, with the first level current |
| `Slots.MonsterSlot.constructor` | 02-game-mechanics/02-starter-code/Assets/Scripts/MonsterSlot.cs:5-6 | a slot starts empty, with no sound played |
| `Slots.MonsterSlot.PlaceMonster` | 02-game-mechanics/02-starter-code/Assets/Scripts/MonsterSlot.cs:43-48 | plays the sound once, fills the slot with a new monster at its first level, showing only that level's sprite, and deducts exactly levels[0].cost from Gold |
| `Slots.MonsterSlot.CanPlaceMonster` | TowerDefense/Assets/Scripts/MonsterSlot.cs:45-48 | holds only for an empty slot whose Gold covers levels[0].cost, so paying it leaves Gold non-negative |
| `Slots.MonsterSlot.CanUpgradeMonster` | TowerDefense/Assets/Scripts/MonsterSlot.cs:31-36 | holds only for a placed monster whose next level exists, is one of its own levels, and costs no more than Gold, so paying it leaves Gold non-negative |
| `Slots.MonsterSlot.UpgradeMonster` | TowerDefense/Assets/Scripts/MonsterSlot.cs:38-43 | advances to the next level, showing only its sprite, and deducts the cost of the new current level, which is the next level's cost; at the top level it keeps the level and charges its cost again |
| `Slots.MonsterSlot.OnMouseUp` | TowerDefense/Assets/Scripts/MonsterSlot.cs:15-48 | an empty slot is bought only if Gold >= levels[0].cost; an occupied slot is upgraded one index only if a next level exists and Gold covers its cost; after a purchase only the current level's sprite is shown; a click whose guard fails changes nothing; a click writes only the slot, the manager's gold and its gold event count, and the placed monster's current level and sprites, never health, game over or the level list; Gold that was non-negative stays non-negative |

## Left out

- `PathFinder.Update`'s float arithmetic is not modelled: division by the cell width, `Mathf.RoundToInt`, `Vector3.MoveTowards`, `Quaternion.Slerp` and the `LineRenderer` debug line. Positions enter the model already rounded to whole cells, and only the "move toward `path[1]` when the path has at least two nodes" rule is kept.
- The `WaitForObjects` coroutine is engine polling. The model assumes the player and monster exist.
- The thresholds `Random.value > 0.1f` and `Random.value > 0.5f` are floating-point probabilities. They are replaced by the boolean oracle, so the density of the maze is not modelled.
- `OnGUI` is not modelled: it is a debug label.
- `Debug.Log` is not modelled: it is console output. As a result, `GenerateNodeGraph` does not call `GenerateGraphDebugString`, and the model does not capture the exception that call raises when `rows` or `cols` exceed the graph just built.
- `Maze.MazeConstructor.GenerateMazeDataFromDimensions`: the dimensions are natural numbers, so the exception C# throws for a negative size is not modelled.
- `PathFinding.FindPath`: requires 10 * rows * cols < int.MaxValue. Every gCost of a search is at most 10 times the number of closed nodes, so this keeps the 32-bit sum `current.gCost + 10` from wrapping; larger grids are not covered.
- `PathFinding.FindPath`: proves the returned route shortest only when every node has the same fCost, which is the state the game leaves them in. For arbitrary fCost values the search is not breadth-first, and no optimality is stated. Which of several shortest routes the queue order picks is not stated either.
- `Monsters.MonsterData.Instantiate`: Unity's `Instantiate` also sets a position and rotation. Only the copy of the level list, with its costs, and the `OnEnable` it triggers are modelled.
- A `MonsterLevel` keeps only its cost and whether its sprite is active. The bullet prefab, speed, damage and cooldown belong to the shooting scripts, which are not part of this model.
- Engine effects are counted in ghost fields:
  - `SFXManager.Instance.PlayTowerPlaced()` is a sound counter;
  - `Destroy(this)` is a flag;
  - the `UnityEvent` invocations are counters.
- `GameManager.Instance` is an explicit `Registry` object. Each slot holds the manager it charges.
- `GameManager.healthIndicators` is not modelled: nothing in the code reads it.
- `Monsters.MonsterData.OnEnable`: requires a non-empty level list. The `ArgumentOutOfRangeException` that `levels[0]` raises on an empty list (02-game-mechanics/02-starter-code/Assets/Scripts/MonsterData.cs:31) is not modelled.
- `Monsters.MonsterData.Instantiate`: requires the prefab to have at least one level, for the same reason: the `OnEnable` it triggers would raise `ArgumentOutOfRangeException`.
- `Slots.MonsterSlot.constructor`: requires a prefab with at least one level, so `Slots.MonsterSlot.Valid`, `Slots.MonsterSlot.CanPlaceMonster` and `Slots.MonsterSlot.PlaceMonster` never meet the `ArgumentOutOfRangeException` that `MonsterPrefab.levels[0]` raises on an empty list (TowerDefense/Assets/Scripts/MonsterSlot.cs:47 and :54).
- `Slots.MonsterSlot.UpgradeMonster`: requires a placed monster that has a next level or a current level. The `NullReferenceException` of `placedMonster.CurrentLevel.cost` (TowerDefense/Assets/Scripts/MonsterSlot.cs:42) when both are null is not modelled. `OnMouseUp` calls it only when a next level exists.
- `Maze.MazeConstructor.GenerateNodeGraph`: requires sizes no larger than `Data`. The `IndexOutOfRangeException` that `Data[i, j]` raises otherwise (MazeGame/Assets/Scripts/MazeConstructor.cs:106) is not modelled. `GenerateNewMaze` always passes the sizes of the `Data` it just built.

## Findings

| source | as written | input that shows it | evidently intended | confidence | as-written member | corrected member |
|---|---|---|---|---|---|---|
| 03-procedural-generation/03-starter-code/Assets/Scripts/PathFinder.cs:174-184 | the search starts from cell (x / width, z / width), but the waypoint of a node is placed at world (node.y * width, node.x * width), which is the transposed cell | a monster at world (1, 3) cell widths: every neighbour of cell (1, 3) has its waypoint at Manhattan distance at least 3 and more than two cell widths away in a straight line, so the monster walks off the route and through walls | read the cell as (z / width, x / width), as the MazeGame copy does at MazeGame/Assets/Scripts/PathFinder.cs:184-190, so that each waypoint is one cell away | high (not executed) | `Pursuit.StarterStepLeavesNeighbourhood` | `Pursuit.MazeGameStepIsOneCell` |
