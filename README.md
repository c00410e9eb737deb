# A* grid search of GameArki.PathFinding, in Dafny

This project models `AStarUtil`, the grid A* search of the GameArki
pathfinding package, and proves properties of the model. `FindPath` takes a
byte obstacle map (0 is a free cell; any other value blocks) and a start and
an end cell. It also takes a flag that allows diagonal moves. It returns the
list of nodes from start to end, or nothing (`null` in the source). The
search keeps an open list of nodes. Two byte grids of the map's size are
written in place: `closeList` marks closed cells and `openListInfo` marks
cells with an open node. The search gives up after 1000 expansions.

How the model is laid out:

- `Generic`: the search node (`AStarNode`) as a value. The nodes of one
  search live in an arena, a sequence in order of creation. A node's parent
  is its arena position, so the nullable `Parent` reference becomes an
  `Option<nat>`.
- `Cost`: `GetManhattanDistance` and `GetDistance`, where a straight step
  costs 100 and a diagonal step 141. Without diagonals the cost is the
  Manhattan distance. Also the metric lemmas: symmetry, zero exactly on
  equal cells, and the triangle inequality, which makes the heuristic
  consistent.
- `Grid`: `IsInBoundary`, `CanPass`, and `GetRealNeighbours`, which builds a
  list in the source's fixed direction order: top, bottom, left, right, then
  top-left, bottom-left, top-right, bottom-right.
- `OpenList`: `GetLowestFNode`, a linear scan for the lowest F. Ties go to
  the smaller Manhattan distance to the goal, then to the earlier entry.
  Also the removal of the chosen entry.
- `SearchTree`: the arena, the chain of parent links, and `ValidPath`, the
  shape of a returned path.
- `AStarUtil`: `FindPath` as an imperative method. The two byte grids are
  `array2<byte>`; the map is only read. The steps of one iteration are split
  into methods, each with its own contract: pop the lowest node, rebuild the
  path, and visit the neighbours one at a time.
- `PathProperties`: what any such path obeys. Its cost and length are
  bounded below by the distance between its ends. An obstacle goal cell, a
  full wall column, or a region closed under moves cannot be crossed.

What `FindPath` is proved to do:

- It returns nothing when either cell is outside the map.
- It returns the one-node path `[start]` when start and end coincide, even
  when the start cell is blocked.
- A returned path starts at the start cell and ends at the end cell. Every
  later cell is inside the map and free. Each step is one move, and each
  node's G is its parent's G plus the step cost. No cell is visited twice.
- It makes at most 1000 expansions, and a path is never longer than the
  number of expansions.
- When it returns nothing with both cells inside the map and fewer than
  1000 expansions, no path from start to end exists.

These loop invariants are proved (`SearchState`):

- every node in the arena sits on its own cell;
- a node is open exactly when its cell is not closed;
- `closeList` marks exactly the closed cells;
- `openListInfo` marks exactly the cells of the open nodes other than the
  start node;
- no cell is marked in both grids.

The list of closed cells only grows: `PopLowest`, the one step that
changes it, appends the popped node's cell.

The source's quirks are kept:

- `GetRealNeighbours` builds fresh node records with G = 0, so the
  `newG < neighbour.G` test (AStarUtil.cs line 88) never holds. An open
  node's costs and parent are therefore never improved: the first discovery
  fixes them.
- The start node has H equal to the Manhattan distance and F = 0. It is
  never marked in `openListInfo`.
- Diagonal moves may pass between two blocked cells, because no
  corner-cutting check is made.

## Model

| member | source | states |
|---|---|---|
| Generic.Fresh | Assets/com.gamearki.pathfinding/Runtime/AStarUtil.cs:137-140 | a node built from coordinates alone sits on that cell, has G = H = F = 0 and no parent, as the default field values give |
| Cost.GetManhattanDistance | Assets/com.gamearki.pathfinding/Runtime/AStarUtil.cs:177-180 | non-negative; zero exactly when the cells are equal; between the king-move distance and twice it |
| Cost.GetDistance | Assets/com.gamearki.pathfinding/Runtime/AStarUtil.cs:162-175 | non-negative and zero exactly on equal cells. Without diagonals it equals the Manhattan distance. With diagonals it is 100 per king move plus 41 per diagonal one, between 100 times the king-move distance and 100 times the Manhattan distance |
| Cost.CellsDecide | Assets/com.gamearki.pathfinding/Runtime/AStarUtil.cs:162-180 | distances and adjacency depend only on the two cells, not on G, H, F or parent |
| Cost.DistanceSymmetric | Assets/com.gamearki.pathfinding/Runtime/AStarUtil.cs:162-180 | both distances are symmetric |
| Cost.ManhattanTriangle | Assets/com.gamearki.pathfinding/Runtime/AStarUtil.cs:177-180 | the Manhattan distance obeys the triangle inequality |
| Cost.DistanceTriangle | Assets/com.gamearki.pathfinding/Runtime/AStarUtil.cs:162-175 | GetDistance obeys the triangle inequality, in both modes, so the heuristic to the goal is consistent |
| Cost.OctileSplit | Assets/com.gamearki.pathfinding/Runtime/AStarUtil.cs:164-170 | the diagonal cost is 59 times the king-move distance plus 41 times the Manhattan distance, a sum of two metrics |
| Cost.NeighbourStepCost | Assets/com.gamearki.pathfinding/Runtime/AStarUtil.cs:84-85 | one move costs 1 without diagonals; with them, 100 for a straight move and 141 for a diagonal one |
| Grid.IsInBoundary | Assets/com.gamearki.pathfinding/Runtime/AStarUtil.cs:201-213 | true exactly when 0 <= x < lenX and 0 <= y < lenY |
| Grid.CanPass | Assets/com.gamearki.pathfinding/Runtime/AStarUtil.cs:182-199 | true exactly when the cell is inside the map, its map value is 0 and it is not closed |
| Grid.Toward | Assets/com.gamearki.pathfinding/Runtime/AStarUtil.cs:137-156 | the fresh node one move away in the given direction of the source's order |
| Grid.TowardInverse | Assets/com.gamearki.pathfinding/Runtime/AStarUtil.cs:137-156 | every fresh node one move away is the one its direction names |
| Grid.DirectionRankNeighbour | Assets/com.gamearki.pathfinding/Runtime/AStarUtil.cs:137-156 | a cell is one move away exactly when its direction is among the first four, or among all eight with diagonals |
| Grid.CollectSound | Assets/com.gamearki.pathfinding/Runtime/AStarUtil.cs:142-156 | the candidates gathered from the first directions are exactly the passable ones among them, in strictly increasing direction order |
| Grid.CollectedAll | Assets/com.gamearki.pathfinding/Runtime/AStarUtil.cs:129-160 | over all four (eight) directions, the candidates gathered are exactly the passable fresh neighbours, in direction order |
| Grid.GetRealNeighbours | Assets/com.gamearki.pathfinding/Runtime/AStarUtil.cs:129-160 | a node is in the result exactly when it is fresh, one move away (axis-only without diagonals) and passable; the result is in the fixed direction order, so it has no duplicates |
| OpenList.GetLowestFNode | Assets/com.gamearki.pathfinding/Runtime/AStarUtil.cs:110-127 | on a non-empty list it returns a position. The node there has the least F, and among least-F nodes the least Manhattan distance to the goal. It precedes every earlier entry strictly, so it is the first such node |
| OpenList.RemoveAt | Assets/com.gamearki.pathfinding/Runtime/AStarUtil.cs:61 | removing the chosen entry shortens the list by one, keeps every other entry and loses no distinctness; the removed entry is gone from a duplicate-free list |
| SearchTree.Gather | Assets/com.gamearki.pathfinding/Runtime/AStarUtil.cs:59 | the open list seen as nodes: entry i is the arena node at position i of the open list |
| SearchTree.ArenaExtend | Assets/com.gamearki.pathfinding/Runtime/AStarUtil.cs:96-101 | adding a valid child on a new cell keeps the arena valid |
| SearchTree.ArenaParentsPrecede | Assets/com.gamearki.pathfinding/Runtime/AStarUtil.cs:93 | in a valid arena each parent was created before its child, so the parent chain ends |
| SearchTree.LineageShape | Assets/com.gamearki.pathfinding/Runtime/AStarUtil.cs:70-74 | the parent chain ends at the node, starts at a node without parent, rises strictly, and each entry is the parent of the next |
| SearchTree.LineageDistinct | Assets/com.gamearki.pathfinding/Runtime/AStarUtil.cs:69-75 | the nodes of a parent chain sit on distinct cells |
| SearchTree.LineageIsPath | Assets/com.gamearki.pathfinding/Runtime/AStarUtil.cs:66-75 | the parent chain of any arena node, root first, is a valid path from the start cell to that node's cell that repeats no cell |
| SearchTree.DistinctCellsBound | Assets/com.gamearki.pathfinding/Runtime/AStarUtil.cs:53-63 | nodes on distinct cells, all among a list of cells, are no more numerous than that list |
| SearchTree.DiscoveredAppend | Assets/com.gamearki.pathfinding/Runtime/AStarUtil.cs:99-100 | after a node is added, a cell holds a node exactly when it did before or it is the new node's cell |
| SearchTree.DiscoveredWitness | Assets/com.gamearki.pathfinding/Runtime/AStarUtil.cs:99-100 | a cell that holds a node holds the node at some arena position |
| SearchTree.DiscoveredGrows | Assets/com.gamearki.pathfinding/Runtime/AStarUtil.cs:99 | a cell that holds a node still holds one after the arena grows |
| PathProperties.CostAtLeastDistance | Assets/com.gamearki.pathfinding/Runtime/AStarUtil.cs:84-93 | along a path, each node's G is at least the direct distance from the start |
| PathProperties.PathCostLowerBound | Assets/com.gamearki.pathfinding/Runtime/AStarUtil.cs:84-93 | the last G of a path is at least the distance between its start and end cells |
| PathProperties.StepCounts | Assets/com.gamearki.pathfinding/Runtime/AStarUtil.cs:84-93 | after i moves G is exactly i without diagonals, and between 100i and 141i with them; the node is at most i king moves (i Manhattan steps without diagonals) from the start |
| PathProperties.PathLengthLowerBound | Assets/com.gamearki.pathfinding/Runtime/AStarUtil.cs:84-93 | a path has at least as many moves as the king-move distance between its ends, and without diagonals at least the Manhattan distance, with G counting the moves |
| PathProperties.BlockedGoalUnreachable | Assets/com.gamearki.pathfinding/Runtime/AStarUtil.cs:182-199 | a goal on an obstacle, different from the start, ends no path |
| PathProperties.CrossesColumn | Assets/com.gamearki.pathfinding/Runtime/AStarUtil.cs:137-156 | a path going from left of a column to at or right of it steps onto that column |
| PathProperties.CrossesColumnLeftward | Assets/com.gamearki.pathfinding/Runtime/AStarUtil.cs:137-156 | a path going from right of a column to at or left of it steps onto that column |
| PathProperties.WallSeparates | Assets/com.gamearki.pathfinding/Runtime/AStarUtil.cs:182-199 | a column of obstacles over the whole map height separates the cells left of it from those right of it, in both directions |
| PathProperties.PathStaysInside | Assets/com.gamearki.pathfinding/Runtime/AStarUtil.cs:129-160 | a path starting inside a set of cells closed under moves never leaves it |
| PathProperties.RegionUnreachable | Assets/com.gamearki.pathfinding/Runtime/AStarUtil.cs:129-160 | no path leads from inside a set of cells closed under moves to a cell outside it |
| AStarUtil.StartNode | Assets/com.gamearki.pathfinding/Runtime/AStarUtil.cs:19-26 | the start node has G = 0, F = 0, no parent, and H the Manhattan distance to the goal |
| AStarUtil.NewSearchState | Assets/com.gamearki.pathfinding/Runtime/AStarUtil.cs:34-38 | the two new grids are all zero and of the map's size, and with the start node alone in the arena and on the open list the search invariant holds |
| AStarUtil.OpenCell | Assets/com.gamearki.pathfinding/Runtime/AStarUtil.cs:100 | marking the new node's cell in openListInfo makes the grids agree with the grown arena and open list |
| AStarUtil.CloseCell | Assets/com.gamearki.pathfinding/Runtime/AStarUtil.cs:62-63 | clearing openListInfo and setting closeList on the popped cell makes the grids agree with the shorter open list and the longer closed list |
| AStarUtil.UndiscoveredCell | Assets/com.gamearki.pathfinding/Runtime/AStarUtil.cs:88-101 | a passable cell that openListInfo does not mark holds no node and is not closed, once the start is closed |
| AStarUtil.BookkeepingExtend | Assets/com.gamearki.pathfinding/Runtime/AStarUtil.cs:96-101 | a valid child on a new, unclosed cell joins arena and open list with the invariant kept |
| AStarUtil.MarkOpen | Assets/com.gamearki.pathfinding/Runtime/AStarUtil.cs:97-101 | the new node joins the arena and the open list at the end, and the search invariant holds afterwards |
| AStarUtil.MarkClosed | Assets/com.gamearki.pathfinding/Runtime/AStarUtil.cs:61-63 | the chosen entry leaves the open list, its cell is appended to the closed cells, and the search invariant holds afterwards |
| AStarUtil.LowestInArena | Assets/com.gamearki.pathfinding/Runtime/AStarUtil.cs:110-127 | the choice made over the open list's nodes (least F, then least Manhattan distance to the goal, then first entry) holds of the arena nodes the open list names |
| AStarUtil.PopLowest | Assets/com.gamearki.pathfinding/Runtime/AStarUtil.cs:58-63 | the popped node is the open list's entry at some position `lowest`. It has the least F of the open list, the least Manhattan distance to the goal among least-F entries, and strictly precedes every earlier entry, so it is the first such entry. The new open list is the old one with exactly that entry removed, order kept. Its cell is appended to the closed cells and the invariant holds |
| AStarUtil.BuildPath | Assets/com.gamearki.pathfinding/Runtime/AStarUtil.cs:68-75 | pushing each node of the parent walk on a stack yields the parent chain root first |
| AStarUtil.LineageWithinClosed | Assets/com.gamearki.pathfinding/Runtime/AStarUtil.cs:66-76 | every node on the parent chain of a closed node is closed, so the chain is no longer than the list of closed cells |
| AStarUtil.ReconstructPath | Assets/com.gamearki.pathfinding/Runtime/AStarUtil.cs:66-76 | the path read off a closed node is a valid path from the start to that node, repeats no cell, is no longer than the number of pops, and is just the start node for the start. It is exactly the goal node's parent chain, root first |
| AStarUtil.Reached | Assets/com.gamearki.pathfinding/Runtime/AStarUtil.cs:84-94 | a neighbour reached first gets the current node as parent, G the parent's G plus the step cost, H the distance to the goal and F = G + H |
| AStarUtil.ReachedAll | Assets/com.gamearki.pathfinding/Runtime/AStarUtil.cs:84-101 | the records reached from the current node for a list of neighbours: as many as the neighbours, the m-th the reached record of the m-th neighbour |
| AStarUtil.Among | Assets/com.gamearki.pathfinding/Runtime/AStarUtil.cs:97 | the neighbours whose cells are among the given cells, in order: a node is in the result exactly when it is a neighbour and its cell is among those cells |
| AStarUtil.VisitNeighbour | Assets/com.gamearki.pathfinding/Runtime/AStarUtil.cs:82-101 | a cell already marked open changes nothing; an unmarked one is added as the reached node at the end of arena and open list; the invariant holds and the cell now holds a node |
| AStarUtil.ArenaGrowth | Assets/com.gamearki.pathfinding/Runtime/AStarUtil.cs:88-101 | visiting the next neighbour extends the arena by its reached record exactly when its cell was unmarked, so the arena's new part stays the reached records of the unmarked neighbours visited so far, in order |
| AStarUtil.OpenListGrowth | Assets/com.gamearki.pathfinding/Runtime/AStarUtil.cs:97-100 | the open list gains the arena's new position exactly when the arena grows, so its new part stays the run of new arena positions |
| AStarUtil.ExpandNext | Assets/com.gamearki.pathfinding/Runtime/AStarUtil.cs:81-100 | one turn of the inner loop keeps the expansion's invariant: the search invariant, arena = old arena + the reached records of the unmarked neighbours visited so far, open list = old open list + their positions, and each visited neighbour's cell holds a node |
| AStarUtil.ExpandNeighbours | Assets/com.gamearki.pathfinding/Runtime/AStarUtil.cs:80-101 | visiting the neighbours in turn keeps the invariant. The arena afterwards is the old arena followed by the reached record of each neighbour whose cell was unmarked in openListInfo before the loop, in neighbour order. The open list is the old one followed by exactly their arena positions. Every neighbour's cell holds a node |
| AStarUtil.ExploredAfterExpansion | Assets/com.gamearki.pathfinding/Runtime/AStarUtil.cs:79-102 | after an expansion every free cell one move from a closed cell holds a node |
| AStarUtil.RankedDistinct | Assets/com.gamearki.pathfinding/Runtime/AStarUtil.cs:129-160 | neighbours listed in strictly increasing direction order sit on distinct cells |
| AStarUtil.Expand | Assets/com.gamearki.pathfinding/Runtime/AStarUtil.cs:80-101 | one expansion of the neighbours found at line 79 keeps the invariant and leaves every closed cell explored. The arena gains exactly the reached records of the neighbours whose cells were unmarked, in order, and the open list exactly their positions |
| AStarUtil.Exhausted | Assets/com.gamearki.pathfinding/Runtime/AStarUtil.cs:54-104 | once the open list is empty, the closed cells are closed under moves onto free cells |
| AStarUtil.NoPathWhenExhausted | Assets/com.gamearki.pathfinding/Runtime/AStarUtil.cs:106-107 | when the open list empties with the start closed and the goal not, no path from start to goal exists |
| AStarUtil.FindPath | Assets/com.gamearki.pathfinding/Runtime/AStarUtil.cs:15-108 | nothing when a cell is outside the map; [start] when start equals end; otherwise a valid path that repeats no cell, no longer than the pops made; at most 1000 pops; and nothing returned in fewer than 1000 pops means no path exists |

## Left out

- Sample/AStarSample.cs: a Unity component that reads the mouse, casts
  rays, draws gizmos and converts floating-point positions to cells. It
  only calls `FindPath`; UI and floating point are not modelled.
- AStarNode: the node class is not part of this model beyond its fields
  X, Y, G, H, F and Parent. Its objects become values in an arena, with
  the parent as an arena position. The one record the source updates in
  place, a fresh neighbour, is modelled as a value that is updated and
  then appended.
- FindPath: shortest-path optimality is not claimed, because the source
  does not deliver it. Open nodes are never improved, the start has
  F = 0, and the 1000-pop cap can cut a search short.
- FindPath: completeness is stated only for searches that end in fewer
  than 1000 pops. When the open list empties on exactly the 1000th pop,
  the returned count does not tell it apart from the cap.
- FindPath: the pop count is a ghost result. The source has only the
  local counter.
- GetLowestFNode: it returns the position of the chosen node, not the
  node itself. `List.Remove` of that node becomes removal at that
  position. They agree because every node object is added to the open
  list only once.
- BuildPath: `Stack.Push` is prepending to a sequence, and `ToList` is
  that sequence.
- FindPath: 32-bit arithmetic is not modelled; integers are unbounded.
  The start node's H is computed at AStarUtil.cs:24 from the caller's
  coordinates, before the bounds checks at lines 40-47. When
  `startX - endX` or `startY - endY` evaluates to `int.MinValue` (start
  (0, 0) and end (int.MinValue, 0), where it wraps, or start (-1, 0) and
  end (int.MaxValue, 0), where it does not), `Math.Abs` at line 179 throws
  `OverflowException` whatever the map's size; the model returns nothing
  there. Any other wrapped difference only changes that H, and such cells
  fail the bounds checks. Inside the map, G, H and F stay below 2^31 when
  both sides of the map are under 15 million cells, and the model then
  agrees with the source.
- FindPath: one iteration is split into PopLowest, ReconstructPath and
  Expand, then ExpandNext, VisitNeighbour and MarkOpen. This keeps each
  proof small. The order of reads and writes on the grids is the source's.
- Methods whose contracts speak of `old` or `fresh` state what the new
  state is. They are read as specifications of the in-place updates.
