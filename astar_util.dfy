/** The A* search of AStarUtil: FindPath over a byte obstacle map. */
module AStarUtil {
  import opened Generic
  import opened Cost
  import opened Grid
  import opened OpenList
  import opened SearchTree
  import opened PathProperties

  /** After this many expansions the search gives up. */
  const MaxIterations: nat := 1000

  /** The start node: G = 0, H the Manhattan distance to the goal, and F
      left at 0 rather than G + H. */
  function StartNode(startX: int, startY: int, endX: int, endY: int): (n: Node)
    ensures Cell(n) == (startX, startY) && n.g == 0 && n.f == 0 && n.parent == None
    ensures n.h == GetManhattanDistance(Fresh(startX, startY), Fresh(endX, endY))
  {
    Node(startX, startY, 0, GetManhattanDistance(Fresh(startX, startY), Fresh(endX, endY)), 0, None)
  }

  /** Every node of the lineage of `k` is closed, so the lineage is no
      longer than the list of closed cells. */
  lemma LineageWithinClosed(grid: array2<byte>, nodes: seq<Node>, startNode: Node, endNode: Node, allowDiagonalMove: bool,
                            openList: seq<nat>, closed: seq<(int, int)>, k: nat)
    requires ValidArena(grid, nodes, startNode, endNode, allowDiagonalMove) && k < |nodes|
    requires forall j :: 0 <= j < |nodes| ==> (j in openList <==> Cell(nodes[j]) !in closed)
    requires forall j :: 0 <= j < |nodes| && nodes[j].parent.Some? ==> nodes[j].parent.value !in openList
    requires k !in openList
    ensures ParentsPrecede(nodes)
    ensures |Lineage(nodes, k)| <= |closed|
  {
    LineageIsPath(grid, nodes, startNode, endNode, allowDiagonalMove, k);
    LineageShape(nodes, k);
    var idx := Lineage(nodes, k);
    var path := Gather(nodes, idx);
    forall i | 0 <= i < |path| ensures Cell(path[i]) in closed {
      if i < |idx| - 1 {
        assert nodes[idx[i + 1]].parent == Some(idx[i]);
      }
    }
    DistinctCellsBound(path, closed);
  }

  /** What the search keeps true of its arena and lists between steps.
      The arena `nodes` holds every node ever put on the open list;
      `openList` holds arena positions; `closed` lists the closed cells in
      the order they were closed. A node is open exactly when its cell is
      not closed, no position is open twice, parents are closed, and every
      closed cell holds a node. */
  ghost predicate Bookkeeping(grid: array2<byte>, startNode: Node, endNode: Node, allowDiagonalMove: bool,
                              nodes: seq<Node>, openList: seq<nat>, closed: seq<(int, int)>)
    reads grid
  {
    && ValidArena(grid, nodes, startNode, endNode, allowDiagonalMove)
    && (forall i :: 0 <= i < |openList| ==> openList[i] < |nodes|)
    && Distinct(openList)
    && (forall k {:trigger nodes[k]} :: 0 <= k < |nodes| ==> (k in openList <==> Cell(nodes[k]) !in closed))
    && (forall k :: 0 <= k < |nodes| && nodes[k].parent.Some? ==> nodes[k].parent.value !in openList)
    && (forall i :: 0 <= i < |closed| ==> Discovered(nodes, closed[i]))
  }

  /** What the two grids of the search record: closeList marks exactly the
      closed cells, openListInfo the cells of the open nodes other than the
      start, no cell is marked in both, and every marked cell holds a node. */
  ghost predicate Marks(grid: array2<byte>, closeList: array2<byte>, openListInfo: array2<byte>,
                        nodes: seq<Node>, openList: seq<nat>, closed: seq<(int, int)>)
    reads closeList, openListInfo
  {
    && closeList.Length0 == grid.Length0 && closeList.Length1 == grid.Length1
    && openListInfo.Length0 == grid.Length0 && openListInfo.Length1 == grid.Length1
    && closeList != openListInfo && grid != closeList && grid != openListInfo
    && (forall k :: 0 <= k < |nodes| && IsInBoundary(grid, nodes[k]) ==>
          openListInfo[nodes[k].x, nodes[k].y] == if k in openList && k != 0 then 1 else 0)
    && (forall i, j :: 0 <= i < grid.Length0 && 0 <= j < grid.Length1 ==>
          closeList[i, j] == if (i, j) in closed then 1 else 0)
    && (forall i, j :: 0 <= i < grid.Length0 && 0 <= j < grid.Length1 ==>
          openListInfo[i, j] <= 1 && (openListInfo[i, j] == 1 ==> closeList[i, j] == 0))
    && (forall i, j :: 0 <= i < grid.Length0 && 0 <= j < grid.Length1 && openListInfo[i, j] == 1 ==>
          Discovered(nodes, (i, j)))
  }

  /** What the search keeps true between steps. */
  ghost predicate SearchState(grid: array2<byte>, closeList: array2<byte>, openListInfo: array2<byte>,
                              startNode: Node, endNode: Node, allowDiagonalMove: bool,
                              nodes: seq<Node>, openList: seq<nat>, closed: seq<(int, int)>)
    reads grid, closeList, openListInfo
  {
    && Bookkeeping(grid, startNode, endNode, allowDiagonalMove, nodes, openList, closed)
    && Marks(grid, closeList, openListInfo, nodes, openList, closed)
  }

  /** Marks the cell of a new node in openListInfo; the grids then agree
      with the arena that gained the node and the open list that gained
      its position. */
  method OpenCell(grid: array2<byte>, closeList: array2<byte>, openListInfo: array2<byte>,
                  ghost nodes: seq<Node>, ghost openList: seq<nat>, ghost closed: seq<(int, int)>, n: Node)
    requires Marks(grid, closeList, openListInfo, nodes, openList, closed)
    requires IsInBoundary(grid, n) && closeList[n.x, n.y] == 0
    requires forall k :: 0 <= k < |nodes| ==> Cell(nodes[k]) != Cell(n)
    requires |nodes| != 0 && |nodes| !in openList
    modifies openListInfo
    ensures Marks(grid, closeList, openListInfo, nodes + [n], openList + [|nodes|], closed)
    ensures forall i, j :: 0 <= i < openListInfo.Length0 && 0 <= j < openListInfo.Length1 && (i, j) != Cell(n) ==>
      openListInfo[i, j] == old(openListInfo[i, j])
  {
    openListInfo[n.x, n.y] := 1;
    forall c ensures Discovered(nodes + [n], c) <==> Discovered(nodes, c) || c == Cell(n) {
      DiscoveredAppend(nodes, n, c);
    }
    var nodes', openList' := nodes + [n], openList + [|nodes|];
    forall k | 0 <= k < |nodes'| && IsInBoundary(grid, nodes'[k])
      ensures openListInfo[nodes'[k].x, nodes'[k].y] == if k in openList' && k != 0 then 1 else 0
    {
      if k < |nodes| {
        assert nodes'[k] == nodes[k];
        assert old(openListInfo[nodes[k].x, nodes[k].y]) == if k in openList && k != 0 then 1 else 0;
      }
    }
  }

  /** Clears the openListInfo mark of the node taken off the open list and
      marks its cell in closeList; the grids then agree with the shorter
      open list and the longer list of closed cells. */
  method CloseCell(grid: array2<byte>, closeList: array2<byte>, openListInfo: array2<byte>,
                   nodes: seq<Node>, ghost openList: seq<nat>, ghost closed: seq<(int, int)>,
                   current: nat, ghost openList': seq<nat>)
    requires Marks(grid, closeList, openListInfo, nodes, openList, closed)
    requires current < |nodes| && IsInBoundary(grid, nodes[current])
    requires forall k :: 0 <= k < |nodes| ==> (Cell(nodes[k]) == Cell(nodes[current]) <==> k == current)
    requires forall k :: k in openList' <==> k in openList && k != current
    modifies closeList, openListInfo
    ensures Marks(grid, closeList, openListInfo, nodes, openList', closed + [Cell(nodes[current])])
  {
    var currentNode := nodes[current];
    openListInfo[currentNode.x, currentNode.y] := 0;
    closeList[currentNode.x, currentNode.y] := 1;
    forall k | 0 <= k < |nodes| && IsInBoundary(grid, nodes[k])
      ensures openListInfo[nodes[k].x, nodes[k].y] == if k in openList' && k != 0 then 1 else 0
    {
      if k != current {
        assert old(openListInfo[nodes[k].x, nodes[k].y]) == if k in openList && k != 0 then 1 else 0;
      }
    }
  }

  /** Every closed cell has had its free neighbours discovered. */
  ghost predicate Explored(grid: array2<byte>, nodes: seq<Node>, closed: seq<(int, int)>, allowDiagonalMove: bool)
    reads grid
  {
    forall i, n ::
      0 <= i < |closed| && IsFresh(n) && IsNeighbour(Fresh(closed[i].0, closed[i].1), n, allowDiagonalMove)
      && IsInBoundary(grid, n) && grid[n.x, n.y] == 0
      ==> Discovered(nodes, Cell(n))
  }

  /** The two bookkeeping grids, both all zero and of the map's size, with
      the start node alone in the arena and on the open list. */
  method NewSearchState(grid: array2<byte>, startNode: Node, endNode: Node, allowDiagonalMove: bool)
    returns (closeList: array2<byte>, openListInfo: array2<byte>)
    requires IsInBoundary(grid, startNode) && startNode.parent == None && startNode.g == 0
    ensures fresh(closeList) && fresh(openListInfo)
    ensures SearchState(grid, closeList, openListInfo, startNode, endNode, allowDiagonalMove, [startNode], [0], [])
  {
    closeList := new byte[grid.Length0, grid.Length1]((i, j) => 0);
    openListInfo := new byte[grid.Length0, grid.Length1]((i, j) => 0);
  }

  /** A passable cell openListInfo does not mark holds no node yet: an
      open node other than the start is marked in openListInfo, a closed
      one in closeList, and the start is closed once anything is. */
  lemma UndiscoveredCell(grid: array2<byte>, closeList: array2<byte>, openListInfo: array2<byte>,
                         startNode: Node, endNode: Node, allowDiagonalMove: bool,
                         nodes: seq<Node>, openList: seq<nat>, closed: seq<(int, int)>, n: Node)
    requires SearchState(grid, closeList, openListInfo, startNode, endNode, allowDiagonalMove, nodes, openList, closed)
    requires 0 !in openList
    requires CanPass(grid, n, closeList) && openListInfo[n.x, n.y] == 0
    ensures forall k :: 0 <= k < |nodes| ==> Cell(nodes[k]) != Cell(n)
    ensures Cell(n) !in closed
  {
    forall k | 0 <= k < |nodes| ensures Cell(nodes[k]) != Cell(n) {
      if k in openList {
        assert openListInfo[nodes[k].x, nodes[k].y] == 1;
      } else {
        assert closeList[nodes[k].x, nodes[k].y] == 1;
      }
    }
  }

  /** A valid child on a new, unclosed cell joins the arena and the open
      list without breaking the bookkeeping. */
  lemma BookkeepingExtend(grid: array2<byte>, startNode: Node, endNode: Node, allowDiagonalMove: bool,
                          nodes: seq<Node>, openList: seq<nat>, closed: seq<(int, int)>, n: Node)
    requires Bookkeeping(grid, startNode, endNode, allowDiagonalMove, nodes, openList, closed)
    requires forall k :: 0 <= k < |nodes| ==> Cell(nodes[k]) != Cell(n)
    requires Cell(n) !in closed && n.g >= 0
    requires n.parent.Some? && n.parent.value !in openList
    requires ValidChild(grid, nodes + [n], |nodes|, endNode, allowDiagonalMove)
    ensures Bookkeeping(grid, startNode, endNode, allowDiagonalMove, nodes + [n], openList + [|nodes|], closed)
  {
    ArenaExtend(grid, nodes, startNode, endNode, allowDiagonalMove, n);
    forall c ensures Discovered(nodes + [n], c) <==> Discovered(nodes, c) || c == Cell(n) {
      DiscoveredAppend(nodes, n, c);
    }
    ArenaParentsPrecede(grid, nodes, startNode, endNode, allowDiagonalMove);
    var nodes', openList' := nodes + [n], openList + [|nodes|];
    forall k | 0 <= k < |nodes'|
      ensures k in openList' <==> Cell(nodes'[k]) !in closed
      ensures nodes'[k].parent.Some? ==> nodes'[k].parent.value !in openList'
    {
      if k < |nodes| {
        assert nodes'[k] == nodes[k];
      }
    }
  }

  /** Adds a node on a cell openListInfo does not mark to the open list
      and marks the cell. The node joins the arena at position |nodes|. */
  method MarkOpen(grid: array2<byte>, closeList: array2<byte>, openListInfo: array2<byte>,
                  ghost startNode: Node, endNode: Node, allowDiagonalMove: bool,
                  nodes: seq<Node>, openList: seq<nat>, ghost closed: seq<(int, int)>, current: nat, n: Node)
    returns (nodes': seq<Node>, openList': seq<nat>)
    requires SearchState(grid, closeList, openListInfo, startNode, endNode, allowDiagonalMove, nodes, openList, closed)
    requires current < |nodes| && current !in openList && 0 !in openList
    requires CanPass(grid, n, closeList) && openListInfo[n.x, n.y] == 0
    requires IsNeighbour(nodes[current], n, allowDiagonalMove)
    requires n.parent == Some(current) && n.g == nodes[current].g + GetDistance(nodes[current], n, allowDiagonalMove)
    requires n.h == GetDistance(n, endNode, allowDiagonalMove) && n.f == n.g + n.h
    modifies openListInfo
    ensures nodes' == nodes + [n] && openList' == openList + [|nodes|]
    ensures SearchState(grid, closeList, openListInfo, startNode, endNode, allowDiagonalMove, nodes', openList', closed)
    ensures forall i, j :: 0 <= i < openListInfo.Length0 && 0 <= j < openListInfo.Length1 && (i, j) != Cell(n) ==>
      openListInfo[i, j] == old(openListInfo[i, j])
  {
    UndiscoveredCell(grid, closeList, openListInfo, startNode, endNode, allowDiagonalMove, nodes, openList, closed, n);
    BookkeepingExtend(grid, startNode, endNode, allowDiagonalMove, nodes, openList, closed, n);
    openList' := openList + [|nodes|];
    nodes' := nodes + [n];
    OpenCell(grid, closeList, openListInfo, nodes, openList, closed, n);
  }

  /** Takes the node at `position` of the open list off it, clears its
      openListInfo mark and marks its cell in closeList. */
  method MarkClosed(grid: array2<byte>, closeList: array2<byte>, openListInfo: array2<byte>,
                    ghost startNode: Node, endNode: Node, allowDiagonalMove: bool,
                    nodes: seq<Node>, openList: seq<nat>, ghost closed: seq<(int, int)>, position: nat)
    returns (openList': seq<nat>, ghost closed': seq<(int, int)>)
    requires SearchState(grid, closeList, openListInfo, startNode, endNode, allowDiagonalMove, nodes, openList, closed)
    requires position < |openList|
    modifies closeList, openListInfo
    ensures openList' == RemoveAt(openList, position)
    ensures closed' == closed + [Cell(nodes[openList[position]])]
    ensures forall k :: k in openList' <==> k in openList && k != openList[position]
    ensures SearchState(grid, closeList, openListInfo, startNode, endNode, allowDiagonalMove, nodes, openList', closed')
  {
    var current := openList[position];
    var currentNode := nodes[current];
    assert current in openList;
    openList' := RemoveAt(openList, position);
    closed' := closed + [Cell(currentNode)];
    forall k | 0 <= k < |nodes| ensures Cell(nodes[k]) == Cell(currentNode) <==> k == current {
    }
    DiscoveredNode(nodes, current);
    assert Bookkeeping(grid, startNode, endNode, allowDiagonalMove, nodes, openList', closed');
    CloseCell(grid, closeList, openListInfo, nodes, openList, closed, current, openList');
  }

  /** The choice GetLowestFNode makes on the open list seen as nodes,
      restated on the arena positions the open list holds. */
  lemma LowestInArena(nodes: seq<Node>, openList: seq<nat>, endNode: Node, lowest: nat)
    requires forall i :: 0 <= i < |openList| ==> openList[i] < |nodes|
    requires lowest < |openList|
    requires forall i :: 0 <= i < |openList| ==> Gather(nodes, openList)[lowest].f <= Gather(nodes, openList)[i].f
    requires forall i :: 0 <= i < |openList| && Gather(nodes, openList)[i].f == Gather(nodes, openList)[lowest].f ==>
      GetManhattanDistance(endNode, Gather(nodes, openList)[lowest])
        <= GetManhattanDistance(endNode, Gather(nodes, openList)[i])
    requires forall i :: 0 <= i < lowest ==>
      Precedes(Gather(nodes, openList)[lowest], Gather(nodes, openList)[i], endNode)
    ensures forall i :: 0 <= i < |openList| ==> nodes[openList[lowest]].f <= nodes[openList[i]].f
    ensures forall i :: 0 <= i < |openList| && nodes[openList[i]].f == nodes[openList[lowest]].f ==>
      GetManhattanDistance(endNode, nodes[openList[lowest]]) <= GetManhattanDistance(endNode, nodes[openList[i]])
    ensures forall i :: 0 <= i < lowest ==> Precedes(nodes[openList[lowest]], nodes[openList[i]], endNode)
  {
    var listed := Gather(nodes, openList);
    var chosen := listed[lowest];
    assert chosen == nodes[openList[lowest]];
    forall i | 0 <= i < |openList|
      ensures chosen.f <= nodes[openList[i]].f
      ensures nodes[openList[i]].f == chosen.f ==>
        GetManhattanDistance(endNode, chosen) <= GetManhattanDistance(endNode, nodes[openList[i]])
      ensures i < lowest ==> Precedes(chosen, nodes[openList[i]], endNode)
    {
      assert listed[i] == nodes[openList[i]];
    }
  }

  /** One pop of the search: the open node with the lowest F (ties to the
      smaller Manhattan distance to the goal, then to the earlier entry) is
      taken off the open list and its cell closed. */
  method PopLowest(grid: array2<byte>, closeList: array2<byte>, openListInfo: array2<byte>,
                   ghost startNode: Node, endNode: Node, allowDiagonalMove: bool,
                   nodes: seq<Node>, openList: seq<nat>, ghost closed: seq<(int, int)>)
    returns (current: nat, openList': seq<nat>, ghost closed': seq<(int, int)>, ghost lowest: nat)
    requires SearchState(grid, closeList, openListInfo, startNode, endNode, allowDiagonalMove, nodes, openList, closed)
    requires |openList| > 0
    modifies closeList, openListInfo
    ensures lowest < |openList| && current == openList[lowest] && current < |nodes|
    ensures forall i :: 0 <= i < |openList| ==> nodes[current].f <= nodes[openList[i]].f
    ensures forall i :: 0 <= i < |openList| && nodes[openList[i]].f == nodes[current].f ==>
      GetManhattanDistance(endNode, nodes[current]) <= GetManhattanDistance(endNode, nodes[openList[i]])
    ensures forall i :: 0 <= i < lowest ==> Precedes(nodes[current], nodes[openList[i]], endNode)
    ensures openList' == RemoveAt(openList, lowest)
    ensures forall k :: k in openList' <==> k in openList && k != current
    ensures closed' == closed + [Cell(nodes[current])]
    ensures SearchState(grid, closeList, openListInfo, startNode, endNode, allowDiagonalMove, nodes, openList', closed')
  {
    var chosen := GetLowestFNode(Gather(nodes, openList), endNode);
    LowestInArena(nodes, openList, endNode, chosen);
    lowest := chosen;
    current := openList[chosen];
    openList', closed' := MarkClosed(grid, closeList, openListInfo, startNode, endNode, allowDiagonalMove,
                                     nodes, openList, closed, chosen);
  }

  /** The walk up the parent links from the goal node: each node is pushed
      on a stack (whose top is the front of the sequence), so the stack
      lists the chain of parents root first. */
  method BuildPath(nodes: seq<Node>, goal: nat) returns (stack: seq<Node>)
    requires ParentsPrecede(nodes) && goal < |nodes|
    ensures forall i :: 0 <= i < |Lineage(nodes, goal)| ==> Lineage(nodes, goal)[i] < |nodes|
    ensures stack == Gather(nodes, Lineage(nodes, goal))
  {
    LineageShape(nodes, goal);
    ghost var lineage := Lineage(nodes, goal);
    stack := [];
    var cursor: Option<nat> := Some(goal);
    ghost var t := |lineage|;
    while cursor.Some?
      invariant 0 <= t <= |lineage|
      invariant stack == Gather(nodes, lineage[t..])
      invariant cursor == if t == 0 then None else Some(lineage[t - 1])
      decreases t
    {
      stack := [nodes[cursor.value]] + stack;
      cursor := nodes[cursor.value].parent;
      t := t - 1;
    }
    assert lineage[0..] == lineage;
  }

  /** The path handed back once the goal is taken off the open list: the
      chain of parents of the goal node, root first. */
  method ReconstructPath(grid: array2<byte>, closeList: array2<byte>, openListInfo: array2<byte>,
                         ghost startNode: Node, endNode: Node, allowDiagonalMove: bool,
                         nodes: seq<Node>, openList: seq<nat>, ghost closed: seq<(int, int)>, goal: nat)
    returns (stack: seq<Node>)
    requires SearchState(grid, closeList, openListInfo, startNode, endNode, allowDiagonalMove, nodes, openList, closed)
    requires goal < |nodes| && goal !in openList
    ensures ValidPath(grid, stack, startNode.x, startNode.y, nodes[goal].x, nodes[goal].y, allowDiagonalMove)
    ensures DistinctCells(stack) && |stack| <= |closed|
    ensures goal == 0 ==> stack == [startNode]
    ensures ParentsPrecede(nodes)
    ensures forall i :: 0 <= i < |Lineage(nodes, goal)| ==> Lineage(nodes, goal)[i] < |nodes|
    ensures stack == Gather(nodes, Lineage(nodes, goal))
  {
    LineageIsPath(grid, nodes, startNode, endNode, allowDiagonalMove, goal);
    LineageWithinClosed(grid, nodes, startNode, endNode, allowDiagonalMove, openList, closed, goal);
    stack := BuildPath(nodes, goal);
    if goal == 0 {
      assert Lineage(nodes, 0) == [0];
    }
  }

  /** The node a neighbour becomes when it is first reached from the node
      at arena position `current`: G is the parent's G plus the step cost,
      H the cost estimate to the goal, F their sum. */
  function Reached(parent: Node, current: nat, neighbour: Node, endNode: Node, allowDiagonalMove: bool): (n: Node)
    ensures Cell(n) == Cell(neighbour) && n.parent == Some(current)
    ensures n.g == parent.g + GetDistance(parent, neighbour, allowDiagonalMove)
    ensures n.h == GetDistance(neighbour, endNode, allowDiagonalMove) && n.f == n.g + n.h
  {
    var g := parent.g + GetDistance(parent, neighbour, allowDiagonalMove);
    var h := GetDistance(neighbour, endNode, allowDiagonalMove);
    Node(neighbour.x, neighbour.y, g, h, g + h, Some(current))
  }

  /** The nodes first reached from the node at arena position `current`,
      one for each of `these`, in order. */
  function ReachedAll(parent: Node, current: nat, these: seq<Node>, endNode: Node, allowDiagonalMove: bool): (r: seq<Node>)
    ensures |r| == |these|
    ensures forall m :: 0 <= m < |these| ==> r[m] == Reached(parent, current, these[m], endNode, allowDiagonalMove)
    decreases |these|
  {
    if |these| == 0 then []
    else ReachedAll(parent, current, these[..|these| - 1], endNode, allowDiagonalMove)
         + [Reached(parent, current, these[|these| - 1], endNode, allowDiagonalMove)]
  }

  /** The cell of `n` lies in the grid and openListInfo does not mark it. */
  ghost predicate IsUnmarked(openListInfo: array2<byte>, n: Node)
    reads openListInfo
  {
    0 <= n.x < openListInfo.Length0 && 0 <= n.y < openListInfo.Length1 && openListInfo[n.x, n.y] == 0
  }

  /** The cells openListInfo does not mark. */
  ghost function UnmarkedCells(openListInfo: array2<byte>): set<(int, int)>
    reads openListInfo
  {
    set i, j | 0 <= i < openListInfo.Length0 && 0 <= j < openListInfo.Length1 && openListInfo[i, j] == 0 :: (i, j)
  }

  /** The nodes of `these` whose cells are among `cells`, in order. */
  function Among(cells: set<(int, int)>, these: seq<Node>): (r: seq<Node>)
    ensures forall n :: n in r <==> n in these && Cell(n) in cells
    decreases |these|
  {
    if |these| == 0 then []
    else
      var earlier := Among(cells, these[..|these| - 1]);
      var last := these[|these| - 1];
      assert forall n :: n in these <==> n in these[..|these| - 1] || n == last;
      if Cell(last) in cells then earlier + [last] else earlier
  }

  /** The arena positions lo..hi-1, in order. */
  function Positions(lo: nat, hi: nat): (r: seq<nat>)
    requires lo <= hi
    decreases hi - lo
    ensures |r| == hi - lo
    ensures forall i :: 0 <= i < |r| ==> r[i] == lo + i
  {
    if lo == hi then [] else Positions(lo, hi - 1) + [hi - 1]
  }

  /** Visiting the i-th neighbour extends the arena by its reached node exactly
      when its cell is among the unmarked `cells`, so the arena's new suffix
      stays the reached nodes of the unmarked neighbours visited so far. */
  lemma ArenaGrowth(nodes0: seq<Node>, nodes: seq<Node>, nodes': seq<Node>,
                    parent: Node, current: nat, endNode: Node, allowDiagonalMove: bool,
                    cells: set<(int, int)>, these: seq<Node>, i: nat)
    requires i < |these|
    requires nodes == nodes0 + ReachedAll(parent, current, Among(cells, these[..i]), endNode, allowDiagonalMove)
    requires Cell(these[i]) in cells ==> nodes' == nodes + [Reached(parent, current, these[i], endNode, allowDiagonalMove)]
    requires Cell(these[i]) !in cells ==> nodes' == nodes
    ensures nodes' == nodes0 + ReachedAll(parent, current, Among(cells, these[..i + 1]), endNode, allowDiagonalMove)
  {
    AmongAppend(cells, these, i);
    if Cell(these[i]) in cells {
      ArenaStep(nodes0, nodes, nodes', parent, current, endNode, allowDiagonalMove, Among(cells, these[..i]), these[i]);
    }
  }

  /** The open list gains the new arena position exactly when the arena
      grows, so its suffix stays the run of positions added to the arena. */
  lemma OpenListGrowth(openList0: seq<nat>, openList: seq<nat>, openList': seq<nat>,
                       lo: nat, hi: nat, hi': nat, added: bool)
    requires lo <= hi
    requires openList == openList0 + Positions(lo, hi)
    requires added ==> hi' == hi + 1 && openList' == openList + [hi]
    requires !added ==> hi' == hi && openList' == openList
    ensures openList' == openList0 + Positions(lo, hi')
  {
    if added {
      PositionsStep(openList0, openList, openList', lo, hi);
    }
  }

  /** One more reached record extends the arena's reached suffix by exactly that record. */
  lemma ArenaStep(nodes0: seq<Node>, nodes: seq<Node>, nodes': seq<Node>,
                  parent: Node, current: nat, endNode: Node, allowDiagonalMove: bool,
                  earlier: seq<Node>, x: Node)
    requires nodes == nodes0 + ReachedAll(parent, current, earlier, endNode, allowDiagonalMove)
    requires nodes' == nodes + [Reached(parent, current, x, endNode, allowDiagonalMove)]
    ensures nodes' == nodes0 + ReachedAll(parent, current, earlier + [x], endNode, allowDiagonalMove)
  {
    AppendAssociates(nodes0, ReachedAll(parent, current, earlier, endNode, allowDiagonalMove),
                     [Reached(parent, current, x, endNode, allowDiagonalMove)]);
    ReachedAllAppend(parent, current, earlier, x, endNode, allowDiagonalMove);
  }

  /** Appending the next arena position keeps the open list's suffix the run of new positions. */
  lemma PositionsStep(openList0: seq<nat>, openList: seq<nat>, openList': seq<nat>, lo: nat, hi: nat)
    requires lo <= hi
    requires openList == openList0 + Positions(lo, hi)
    requires openList' == openList + [hi]
    ensures openList' == openList0 + Positions(lo, hi + 1)
  {
    AppendAssociates(openList0, Positions(lo, hi), [hi]);
    PositionsAppend(lo, hi);
  }

  lemma AppendAssociates<T>(a: seq<T>, b: seq<T>, c: seq<T>)
    ensures (a + b) + c == a + (b + c)
  {
  }

  lemma AmongAppend(cells: set<(int, int)>, these: seq<Node>, i: nat)
    requires i < |these|
    ensures Cell(these[i]) in cells ==> Among(cells, these[..i + 1]) == Among(cells, these[..i]) + [these[i]]
    ensures Cell(these[i]) !in cells ==> Among(cells, these[..i + 1]) == Among(cells, these[..i])
  {
    assert these[..i + 1][..i] == these[..i];
  }

  lemma ReachedAllAppend(parent: Node, current: nat, earlier: seq<Node>, x: Node, endNode: Node, allowDiagonalMove: bool)
    ensures ReachedAll(parent, current, earlier + [x], endNode, allowDiagonalMove)
         == ReachedAll(parent, current, earlier, endNode, allowDiagonalMove)
            + [Reached(parent, current, x, endNode, allowDiagonalMove)]
  {
    assert (earlier + [x])[..|earlier|] == earlier;
  }

  lemma PositionsAppend(lo: nat, hi: nat)
    requires lo <= hi
    ensures Positions(lo, hi + 1) == Positions(lo, hi) + [hi]
  {
  }

  /** One neighbour of the current node: a record with G still 0 is given
      G, H, F and the current node as parent when its cell is not yet
      open (G + offset < 0 never holds), and is then added to the open list. */
  method VisitNeighbour(grid: array2<byte>, closeList: array2<byte>, openListInfo: array2<byte>,
                        ghost startNode: Node, endNode: Node, allowDiagonalMove: bool,
                        nodes: seq<Node>, openList: seq<nat>, ghost closed: seq<(int, int)>,
                        current: nat, neighbour: Node)
    returns (nodes': seq<Node>, openList': seq<nat>)
    requires SearchState(grid, closeList, openListInfo, startNode, endNode, allowDiagonalMove, nodes, openList, closed)
    requires current < |nodes| && current !in openList && 0 !in openList
    requires IsFresh(neighbour) && IsNeighbour(nodes[current], neighbour, allowDiagonalMove)
    requires CanPass(grid, neighbour, closeList)
    modifies openListInfo
    ensures old(openListInfo[neighbour.x, neighbour.y]) != 0 ==> nodes' == nodes && openList' == openList
    ensures old(openListInfo[neighbour.x, neighbour.y]) == 0 ==>
      && nodes' == nodes + [Reached(nodes[current], current, neighbour, endNode, allowDiagonalMove)]
      && openList' == openList + [|nodes|]
    ensures SearchState(grid, closeList, openListInfo, startNode, endNode, allowDiagonalMove, nodes', openList', closed)
    ensures 0 !in openList'
    ensures |nodes| <= |nodes'| && nodes'[..|nodes|] == nodes
    ensures Discovered(nodes', Cell(neighbour))
    ensures forall i, j :: 0 <= i < openListInfo.Length0 && 0 <= j < openListInfo.Length1 && (i, j) != Cell(neighbour) ==>
      openListInfo[i, j] == old(openListInfo[i, j])
  {
    nodes', openList' := nodes, openList;
    var currentNode := nodes[current];
    var n := neighbour;
    var gOffset := GetDistance(currentNode, n, allowDiagonalMove);
    var newG := currentNode.g + gOffset;
    var h := GetDistance(n, endNode, allowDiagonalMove);

    // the record is new, so its G is 0 and only an undiscovered cell gets costs
    if openListInfo[n.x, n.y] == 0 || newG < n.g {
      n := n.(g := newG, h := h, f := newG + h, parent := Some(current));
    }
    assert openListInfo[n.x, n.y] == 0 ==> n == Reached(currentNode, current, neighbour, endNode, allowDiagonalMove);
    CellsDecide(currentNode, neighbour, currentNode, n, allowDiagonalMove);
    CellsDecide(neighbour, endNode, n, endNode, allowDiagonalMove);

    if openListInfo[n.x, n.y] == 0 {
      nodes', openList' := MarkOpen(grid, closeList, openListInfo, startNode, endNode, allowDiagonalMove,
                                    nodes, openList, closed, current, n);
      DiscoveredAppend(nodes, n, Cell(neighbour));
      assert nodes'[..|nodes|] == nodes;
    } else {
      assert openListInfo[n.x, n.y] == 1;
    }
  }

  /** Where the expansion of the node at arena position `current` stands
      after its first i neighbours: the search state holds, the arena has
      gained the reached nodes of those of them whose cells were unmarked
      (`free`) when the expansion began, in order, the open list has gained
      exactly their positions, each of them is discovered, and the marks of
      the neighbours still to visit are as they were. */
  ghost predicate Expanding(grid: array2<byte>, closeList: array2<byte>, openListInfo: array2<byte>,
                            startNode: Node, endNode: Node, allowDiagonalMove: bool,
                            nodes0: seq<Node>, openList0: seq<nat>, closed: seq<(int, int)>,
                            current: nat, neighbours: seq<Node>, free: set<(int, int)>, i: nat,
                            nodes: seq<Node>, openList: seq<nat>)
    reads grid, closeList, openListInfo
  {
    && i <= |neighbours| && current < |nodes0|
    && SearchState(grid, closeList, openListInfo, startNode, endNode, allowDiagonalMove, nodes, openList, closed)
    && nodes == nodes0 + ReachedAll(nodes0[current], current, Among(free, neighbours[..i]), endNode, allowDiagonalMove)
    && openList == openList0 + Positions(|nodes0|, |nodes|)
    && current !in openList && 0 !in openList
    && current < |nodes| && nodes[current] == nodes0[current]
    && (forall m :: 0 <= m < i ==> Discovered(nodes, Cell(neighbours[m])))
    && (forall m :: i <= m < |neighbours| ==> (IsUnmarked(openListInfo, neighbours[m]) <==> Cell(neighbours[m]) in free))
  }

  /** Visits the i-th neighbour of the current node (one turn of the inner
      loop, AStarUtil.cs:81-100). */
  method ExpandNext(grid: array2<byte>, closeList: array2<byte>, openListInfo: array2<byte>,
                    ghost startNode: Node, endNode: Node, allowDiagonalMove: bool,
                    ghost nodes0: seq<Node>, ghost openList0: seq<nat>, ghost closed: seq<(int, int)>,
                    current: nat, neighbours: seq<Node>, ghost free: set<(int, int)>, i: nat,
                    nodes: seq<Node>, openList: seq<nat>)
    returns (nodes': seq<Node>, openList': seq<nat>)
    requires i < |neighbours|
    requires Expanding(grid, closeList, openListInfo, startNode, endNode, allowDiagonalMove,
                       nodes0, openList0, closed, current, neighbours, free, i, nodes, openList)
    requires forall n :: n in neighbours ==>
      IsFresh(n) && IsNeighbour(nodes0[current], n, allowDiagonalMove) && CanPass(grid, n, closeList)
    requires DistinctCells(neighbours)
    modifies openListInfo
    ensures Expanding(grid, closeList, openListInfo, startNode, endNode, allowDiagonalMove,
                      nodes0, openList0, closed, current, neighbours, free, i + 1, nodes', openList')
  {
    assert neighbours[i] in neighbours;
    nodes', openList' := VisitNeighbour(grid, closeList, openListInfo, startNode, endNode, allowDiagonalMove,
                                        nodes, openList, closed, current, neighbours[i]);
    DiscoveredAllGrow(nodes, nodes', neighbours, i);
    ArenaGrowth(nodes0, nodes, nodes', nodes0[current], current, endNode, allowDiagonalMove, free, neighbours, i);
    OpenListGrowth(openList0, openList, openList', |nodes0|, |nodes|, |nodes'|, Cell(neighbours[i]) in free);
    forall m | i + 1 <= m < |neighbours|
      ensures IsUnmarked(openListInfo, neighbours[m]) <==> Cell(neighbours[m]) in free
    {
      assert Cell(neighbours[m]) != Cell(neighbours[i]);
    }
  }

  /** The inner loop of one expansion: each neighbour of the current node
      in turn is visited. */
  method ExpandNeighbours(grid: array2<byte>, closeList: array2<byte>, openListInfo: array2<byte>,
                          ghost startNode: Node, endNode: Node, allowDiagonalMove: bool,
                          nodes0: seq<Node>, openList0: seq<nat>, ghost closed: seq<(int, int)>,
                          current: nat, neighbours: seq<Node>)
    returns (nodes: seq<Node>, openList: seq<nat>)
    requires SearchState(grid, closeList, openListInfo, startNode, endNode, allowDiagonalMove, nodes0, openList0, closed)
    requires current < |nodes0| && current !in openList0 && 0 !in openList0
    requires forall n :: n in neighbours ==>
      IsFresh(n) && IsNeighbour(nodes0[current], n, allowDiagonalMove) && CanPass(grid, n, closeList)
    requires DistinctCells(neighbours)
    modifies openListInfo
    ensures SearchState(grid, closeList, openListInfo, startNode, endNode, allowDiagonalMove, nodes, openList, closed)
    ensures 0 !in openList
    ensures nodes == nodes0 + ReachedAll(nodes0[current], current, Among(old(UnmarkedCells(openListInfo)), neighbours),
                                         endNode, allowDiagonalMove)
    ensures openList == openList0 + Positions(|nodes0|, |nodes|)
    ensures forall n :: n in neighbours ==> Discovered(nodes, Cell(n))
  {
    ghost var free := UnmarkedCells(openListInfo);
    forall m | 0 <= m < |neighbours| ensures Cell(neighbours[m]) in free <==> IsUnmarked(openListInfo, neighbours[m]) {
    }
    nodes, openList := nodes0, openList0;
    assert nodes0 + ReachedAll(nodes0[current], current, Among(free, neighbours[..0]), endNode, allowDiagonalMove) == nodes0;
    assert openList0 + Positions(|nodes0|, |nodes0|) == openList0;
    for i := 0 to |neighbours|
      invariant Expanding(grid, closeList, openListInfo, startNode, endNode, allowDiagonalMove,
                          nodes0, openList0, closed, current, neighbours, free, i, nodes, openList)
    {
      nodes, openList := ExpandNext(grid, closeList, openListInfo, startNode, endNode, allowDiagonalMove,
                                    nodes0, openList0, closed, current, neighbours, free, i, nodes, openList);
    }
    assert neighbours[..|neighbours|] == neighbours;
    forall n | n in neighbours ensures Discovered(nodes, Cell(n)) {
      var m :| 0 <= m < |neighbours| && neighbours[m] == n;
    }
  }

  /** After the current node's neighbours are visited, every free cell one
      move from a closed cell holds a node: the cells closed before were
      explored already, and a free neighbour of the current node is either
      closed, and so holds a node, or among the neighbours just visited. */
  lemma ExploredAfterExpansion(grid: array2<byte>, closeList: array2<byte>, openListInfo: array2<byte>,
                               startNode: Node, endNode: Node, allowDiagonalMove: bool,
                               nodes0: seq<Node>, nodes: seq<Node>, openList: seq<nat>, closed0: seq<(int, int)>,
                               currentNode: Node, neighbours: seq<Node>)
    requires SearchState(grid, closeList, openListInfo, startNode, endNode, allowDiagonalMove,
                         nodes, openList, closed0 + [Cell(currentNode)])
    requires |nodes0| <= |nodes| && nodes[..|nodes0|] == nodes0
    requires Explored(grid, nodes0, closed0, allowDiagonalMove)
    requires forall n :: n in neighbours <==>
      IsFresh(n) && IsNeighbour(currentNode, n, allowDiagonalMove) && CanPass(grid, n, closeList)
    requires forall n :: n in neighbours ==> Discovered(nodes, Cell(n))
    ensures Explored(grid, nodes, closed0 + [Cell(currentNode)], allowDiagonalMove)
  {
    var closed := closed0 + [Cell(currentNode)];
    forall i, n |
      && 0 <= i < |closed| && IsFresh(n) && IsNeighbour(Fresh(closed[i].0, closed[i].1), n, allowDiagonalMove)
      && IsInBoundary(grid, n) && grid[n.x, n.y] == 0
      ensures Discovered(nodes, Cell(n))
    {
      if i < |closed0| {
        assert closed[i] == closed0[i];
        DiscoveredGrows(nodes0, nodes, Cell(n));
      } else {
        CellsDecide(Fresh(closed[i].0, closed[i].1), n, currentNode, n, allowDiagonalMove);
        if closeList[n.x, n.y] == 0 {
          assert n in neighbours;
        } else {
          assert Cell(n) in closed;
          var j :| 0 <= j < |closed| && closed[j] == Cell(n);
        }
      }
    }
  }

  /** Nodes in strictly increasing direction order around one node sit on
      distinct cells. */
  lemma RankedDistinct(currentNode: Node, s: seq<Node>)
    requires forall i, j :: 0 <= i < j < |s| ==> DirectionRank(currentNode, s[i]) < DirectionRank(currentNode, s[j])
    ensures DistinctCells(s)
  {
    forall i, j | 0 <= i < j < |s| ensures Cell(s[i]) != Cell(s[j]) {
      assert DirectionRank(currentNode, s[i]) != DirectionRank(currentNode, s[j]);
    }
  }

  /** One expansion of the closed node at arena position `current`: each of
      its passable, not yet closed neighbours, as GetRealNeighbours lists
      them, is visited. Afterwards every closed cell is explored. */
  method Expand(grid: array2<byte>, closeList: array2<byte>, openListInfo: array2<byte>,
                ghost startNode: Node, endNode: Node, allowDiagonalMove: bool,
                nodes0: seq<Node>, openList0: seq<nat>, ghost closed0: seq<(int, int)>, current: nat,
                neighbours: seq<Node>)
    returns (nodes: seq<Node>, openList: seq<nat>)
    requires current < |nodes0|
    requires SearchState(grid, closeList, openListInfo, startNode, endNode, allowDiagonalMove,
                         nodes0, openList0, closed0 + [Cell(nodes0[current])])
    requires current !in openList0 && 0 !in openList0
    requires Explored(grid, nodes0, closed0, allowDiagonalMove)
    requires forall n :: n in neighbours <==>
      IsFresh(n) && IsNeighbour(nodes0[current], n, allowDiagonalMove) && CanPass(grid, n, closeList)
    requires forall i, j :: 0 <= i < j < |neighbours| ==>
      DirectionRank(nodes0[current], neighbours[i]) < DirectionRank(nodes0[current], neighbours[j])
    modifies openListInfo
    ensures SearchState(grid, closeList, openListInfo, startNode, endNode, allowDiagonalMove,
                        nodes, openList, closed0 + [Cell(nodes0[current])])
    ensures 0 !in openList
    ensures Explored(grid, nodes, closed0 + [Cell(nodes0[current])], allowDiagonalMove)
    ensures nodes == nodes0 + ReachedAll(nodes0[current], current, Among(old(UnmarkedCells(openListInfo)), neighbours),
                                         endNode, allowDiagonalMove)
    ensures openList == openList0 + Positions(|nodes0|, |nodes|)
  {
    var currentNode := nodes0[current];
    RankedDistinct(currentNode, neighbours);
    nodes, openList := ExpandNeighbours(grid, closeList, openListInfo, startNode, endNode, allowDiagonalMove,
                                        nodes0, openList0, closed0 + [Cell(currentNode)], current, neighbours);
    assert nodes[..|nodes0|] == nodes0;
    ExploredAfterExpansion(grid, closeList, openListInfo, startNode, endNode, allowDiagonalMove,
                           nodes0, nodes, openList, closed0, currentNode, neighbours);
  }

  /** With the open list empty, every node is closed, so every free cell
      one move from a closed cell is closed too. */
  lemma Exhausted(grid: array2<byte>, closeList: array2<byte>, openListInfo: array2<byte>,
                  startNode: Node, endNode: Node, allowDiagonalMove: bool,
                  nodes: seq<Node>, closed: seq<(int, int)>)
    requires SearchState(grid, closeList, openListInfo, startNode, endNode, allowDiagonalMove, nodes, [], closed)
    requires Explored(grid, nodes, closed, allowDiagonalMove)
    ensures ClosedUnderMoves(grid, closed, allowDiagonalMove)
  {
    forall i | 0 <= i < |closed| ensures Surrounded(grid, closed, closed[i], allowDiagonalMove) {
      forall n |
        && IsFresh(n) && IsNeighbour(Fresh(closed[i].0, closed[i].1), n, allowDiagonalMove)
        && IsInBoundary(grid, n) && grid[n.x, n.y] == 0
        ensures Cell(n) in closed
      {
        var k := DiscoveredWitness(nodes, Cell(n));
        assert k !in [];
      }
    }
  }

  /** When the open list runs empty, the start cell closed and the goal
      cell not, no path leads from start to goal. */
  lemma NoPathWhenExhausted(grid: array2<byte>, closeList: array2<byte>, openListInfo: array2<byte>,
                            startNode: Node, endNode: Node, allowDiagonalMove: bool,
                            nodes: seq<Node>, closed: seq<(int, int)>)
    requires SearchState(grid, closeList, openListInfo, startNode, endNode, allowDiagonalMove, nodes, [], closed)
    requires Explored(grid, nodes, closed, allowDiagonalMove)
    requires Cell(startNode) in closed && Cell(endNode) !in closed
    ensures forall p :: !ValidPath(grid, p, startNode.x, startNode.y, endNode.x, endNode.y, allowDiagonalMove)
  {
    Exhausted(grid, closeList, openListInfo, startNode, endNode, allowDiagonalMove, nodes, closed);
    forall p ensures !ValidPath(grid, p, startNode.x, startNode.y, endNode.x, endNode.y, allowDiagonalMove) {
      RegionUnreachable(grid, closed, p, startNode.x, startNode.y, endNode.x, endNode.y, allowDiagonalMove);
    }
  }

  /** A* from (startX, startY) to (endX, endY) on `grid`, where 0 marks a
      free cell. Returns the path, start first, or None when a coordinate is
      outside the map, the open list runs empty, or more than MaxIterations
      expansions would be needed. `pops` counts the expansions made. The
      map is only read. */
  method FindPath(grid: array2<byte>, startX: int, startY: int, endX: int, endY: int, allowDiagonalMove: bool)
    returns (path: Option<seq<Node>>, ghost pops: nat)
    ensures !IsInBoundary(grid, Fresh(startX, startY)) || !IsInBoundary(grid, Fresh(endX, endY)) ==> path == None
    ensures IsInBoundary(grid, Fresh(startX, startY)) && startX == endX && startY == endY ==>
      path == Some([StartNode(startX, startY, endX, endY)])
    ensures path.Some? ==> ValidPath(grid, path.value, startX, startY, endX, endY, allowDiagonalMove)
    ensures path.Some? ==> DistinctCells(path.value)
    ensures pops <= MaxIterations
    ensures path.Some? ==> |path.value| <= pops
    ensures path.None? && IsInBoundary(grid, Fresh(startX, startY)) && IsInBoundary(grid, Fresh(endX, endY))
            && pops < MaxIterations ==>
      forall p :: !ValidPath(grid, p, startX, startY, endX, endY, allowDiagonalMove)
  {
    var startNode := StartNode(startX, startY, endX, endY);
    var endNode := Fresh(endX, endY);

    if !IsInBoundary(grid, startNode) {
      return None, 0;
    }
    if !IsInBoundary(grid, endNode) {
      return None, 0;
    }
    var closeList, openListInfo := NewSearchState(grid, startNode, endNode, allowDiagonalMove);

    // the arena: every node ever put on the open list, the start first
    var nodes: seq<Node> := [startNode];
    var openList: seq<nat> := [0];
    // the cells in the order they were closed
    ghost var closed: seq<(int, int)> := [];

    var count := 0;
    while |openList| > 0
      invariant SearchState(grid, closeList, openListInfo, startNode, endNode, allowDiagonalMove, nodes, openList, closed)
      invariant count == |closed| <= MaxIterations
      invariant count == 0 ==> openList == [0] && |nodes| == 1
      invariant count > 0 ==> 0 !in openList && (startX, startY) != (endX, endY)
      invariant count > 0 ==> closed[0] == (startX, startY)
      invariant (endX, endY) !in closed
      invariant Explored(grid, nodes, closed, allowDiagonalMove)
      decreases MaxIterations - count
    {
      count := count + 1;
      if count > MaxIterations {
        return None, |closed|;
      }

      ghost var closed0 := closed;
      var current;
      ghost var lowest;
      current, openList, closed, lowest := PopLowest(grid, closeList, openListInfo, startNode, endNode, allowDiagonalMove,
                                                     nodes, openList, closed);
      var currentNode := nodes[current];

      if currentNode.x == endNode.x && currentNode.y == endNode.y {
        var stack := ReconstructPath(grid, closeList, openListInfo, startNode, endNode, allowDiagonalMove,
                                     nodes, openList, closed, current);
        return Some(stack), |closed|;
      }

      var neighbours := GetRealNeighbours(grid, currentNode, closeList, allowDiagonalMove);
      nodes, openList := Expand(grid, closeList, openListInfo, startNode, endNode, allowDiagonalMove,
                                nodes, openList, closed0, current, neighbours);
    }

    NoPathWhenExhausted(grid, closeList, openListInfo, startNode, endNode, allowDiagonalMove, nodes, closed);
    return None, |closed|;
  }
}
