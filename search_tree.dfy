/** The nodes one search creates, kept in an arena, the parent links
    between them, and the paths read off those links. */
module SearchTree {
  import opened Generic
  import opened Cost
  import opened Grid

  /** The nodes at the given arena positions, in that order. */
  function Gather(nodes: seq<Node>, positions: seq<nat>): (r: seq<Node>)
    requires forall i :: 0 <= i < |positions| ==> positions[i] < |nodes|
    ensures |r| == |positions|
    ensures forall i :: 0 <= i < |r| ==> r[i] == nodes[positions[i]]
  {
    if positions == [] then [] else [nodes[positions[0]]] + Gather(nodes, positions[1..])
  }

  /** No two nodes of `s` share a cell. */
  predicate DistinctCells(s: seq<Node>)
  {
    forall i, j :: 0 <= i < j < |s| ==> Cell(s[i]) != Cell(s[j])
  }

  /** Node `k` (not the start) was reached from an earlier node, is a free
      cell one move from it, and carries the costs the search gives it:
      G is the parent's G plus the step cost, H the cost estimate to the
      goal and F their sum. */
  ghost predicate ValidChild(grid: array2<byte>, nodes: seq<Node>, k: nat, endNode: Node, allowDiagonalMove: bool)
    requires 0 < k < |nodes|
    reads grid
  {
    var n := nodes[k];
    && n.parent.Some? && n.parent.value < k
    && IsInBoundary(grid, n) && grid[n.x, n.y] == 0
    && var p := nodes[n.parent.value];
       && IsNeighbour(p, n, allowDiagonalMove)
       && n.g == p.g + GetDistance(p, n, allowDiagonalMove)
       && n.h == GetDistance(n, endNode, allowDiagonalMove)
       && n.f == n.g + n.h
  }

  /** The arena of one search: the start node first, every node inside the
      map with a non-negative G, every later node a valid child, and no
      two nodes on the same cell. */
  ghost predicate ValidArena(grid: array2<byte>, nodes: seq<Node>, startNode: Node, endNode: Node, allowDiagonalMove: bool)
    reads grid
  {
    && |nodes| >= 1 && nodes[0] == startNode && startNode.parent == None && startNode.g == 0
    && (forall k :: 0 <= k < |nodes| ==> IsInBoundary(grid, nodes[k]) && nodes[k].g >= 0)
    && (forall k :: 0 < k < |nodes| ==> ValidChild(grid, nodes, k, endNode, allowDiagonalMove))
    && DistinctCells(nodes)
  }

  /** Appending a valid child on a new cell keeps the arena valid. */
  lemma ArenaExtend(grid: array2<byte>, nodes: seq<Node>, startNode: Node, endNode: Node, allowDiagonalMove: bool, n: Node)
    requires ValidArena(grid, nodes, startNode, endNode, allowDiagonalMove)
    requires forall k :: 0 <= k < |nodes| ==> Cell(nodes[k]) != Cell(n)
    requires n.g >= 0
    requires ValidChild(grid, nodes + [n], |nodes|, endNode, allowDiagonalMove)
    ensures ValidArena(grid, nodes + [n], startNode, endNode, allowDiagonalMove)
  {
    var next := nodes + [n];
    forall k | 0 < k < |nodes| ensures ValidChild(grid, next, k, endNode, allowDiagonalMove) {
      assert ValidChild(grid, nodes, k, endNode, allowDiagonalMove);
      assert next[k] == nodes[k] && next[nodes[k].parent.value] == nodes[nodes[k].parent.value];
    }
  }

  ghost predicate ParentsPrecede(nodes: seq<Node>)
  {
    forall k :: 0 <= k < |nodes| && nodes[k].parent.Some? ==> nodes[k].parent.value < k
  }

  /** Arena positions of the chain of parents that ends at node `k`, root first. */
  ghost function Lineage(nodes: seq<Node>, k: nat): seq<nat>
    requires ParentsPrecede(nodes) && k < |nodes|
    decreases k
  {
    match nodes[k].parent
    case None => [k]
    case Some(p) => Lineage(nodes, p) + [k]
  }

  /** The chain of parents from `k` back to a root: it ends at `k`, begins
      at a node without parent, rises strictly, and each position holds
      the parent of the next. */
  lemma {:induction false} LineageShape(nodes: seq<Node>, k: nat)
    requires ParentsPrecede(nodes) && k < |nodes|
    ensures |Lineage(nodes, k)| >= 1
    ensures Lineage(nodes, k)[|Lineage(nodes, k)| - 1] == k
    ensures forall i :: 0 <= i < |Lineage(nodes, k)| ==> Lineage(nodes, k)[i] <= k
    ensures nodes[Lineage(nodes, k)[0]].parent == None
    ensures forall i, j :: 0 <= i < j < |Lineage(nodes, k)| ==> Lineage(nodes, k)[i] < Lineage(nodes, k)[j]
    ensures forall i :: 0 < i < |Lineage(nodes, k)| ==>
      nodes[Lineage(nodes, k)[i]].parent == Some(Lineage(nodes, k)[i - 1])
    decreases k
  {
    match nodes[k].parent
    case None =>
    case Some(p) =>
      LineageShape(nodes, p);
  }

  /** A path as the search returns it: from the start cell to the end
      cell, one move per step, every cell after the start inside the map
      and free of obstacles, G starting at 0 and growing by each step's
      cost. */
  ghost predicate ValidPath(grid: array2<byte>, path: seq<Node>, startX: int, startY: int, endX: int, endY: int, allowDiagonalMove: bool)
    reads grid
  {
    && |path| >= 1
    && Cell(path[0]) == (startX, startY) && path[0].g == 0
    && Cell(path[|path| - 1]) == (endX, endY)
    && (forall i :: 0 <= i < |path| ==> IsInBoundary(grid, path[i]))
    && (forall i :: 0 < i < |path| ==> IsInBoundary(grid, path[i]) && grid[path[i].x, path[i].y] == 0)
    && (forall i :: 0 < i < |path| ==>
          IsNeighbour(path[i - 1], path[i], allowDiagonalMove)
          && path[i].g == path[i - 1].g + GetDistance(path[i - 1], path[i], allowDiagonalMove))
  }

  lemma ArenaParentsPrecede(grid: array2<byte>, nodes: seq<Node>, startNode: Node, endNode: Node, allowDiagonalMove: bool)
    requires ValidArena(grid, nodes, startNode, endNode, allowDiagonalMove)
    ensures ParentsPrecede(nodes)
  {
    forall j | 0 <= j < |nodes| && nodes[j].parent.Some? ensures nodes[j].parent.value < j {
      if j > 0 { assert ValidChild(grid, nodes, j, endNode, allowDiagonalMove); }
    }
  }

  /** The nodes on a chain of parents sit on distinct cells. */
  lemma LineageDistinct(grid: array2<byte>, nodes: seq<Node>, startNode: Node, endNode: Node, allowDiagonalMove: bool, k: nat)
    requires ValidArena(grid, nodes, startNode, endNode, allowDiagonalMove) && k < |nodes|
    requires ParentsPrecede(nodes)
    ensures forall i :: 0 <= i < |Lineage(nodes, k)| ==> Lineage(nodes, k)[i] < |nodes|
    ensures DistinctCells(Gather(nodes, Lineage(nodes, k)))
  {
    LineageShape(nodes, k);
    var idx := Lineage(nodes, k);
    var path := Gather(nodes, idx);
    forall i, j | 0 <= i < j < |path| ensures Cell(path[i]) != Cell(path[j]) {
      assert idx[i] < idx[j];
      assert path[i] == nodes[idx[i]] && path[j] == nodes[idx[j]];
    }
  }

  /** Following parent links from any node of a valid arena gives a valid
      path from the start node to that node that visits no cell twice. */
  lemma LineageIsPath(grid: array2<byte>, nodes: seq<Node>, startNode: Node, endNode: Node, allowDiagonalMove: bool, k: nat)
    requires ValidArena(grid, nodes, startNode, endNode, allowDiagonalMove) && k < |nodes|
    ensures ParentsPrecede(nodes)
    ensures forall i :: 0 <= i < |Lineage(nodes, k)| ==> Lineage(nodes, k)[i] < |nodes|
    ensures ValidPath(grid, Gather(nodes, Lineage(nodes, k)), startNode.x, startNode.y, nodes[k].x, nodes[k].y, allowDiagonalMove)
    ensures DistinctCells(Gather(nodes, Lineage(nodes, k)))
    ensures Gather(nodes, Lineage(nodes, k))[0] == startNode
  {
    ArenaParentsPrecede(grid, nodes, startNode, endNode, allowDiagonalMove);
    LineageShape(nodes, k);
    LineageDistinct(grid, nodes, startNode, endNode, allowDiagonalMove, k);
    var idx := Lineage(nodes, k);
    var path := Gather(nodes, idx);
    assert idx[0] == 0 || ValidChild(grid, nodes, idx[0], endNode, allowDiagonalMove);
    assert path[0] == startNode;
    assert path[|path| - 1] == nodes[k];
    forall i | 0 <= i < |path| ensures IsInBoundary(grid, path[i]) {
      assert path[i] == nodes[idx[i]];
    }
    forall i | 0 < i < |path|
      ensures IsInBoundary(grid, path[i]) && grid[path[i].x, path[i].y] == 0
      ensures IsNeighbour(path[i - 1], path[i], allowDiagonalMove)
      ensures path[i].g == path[i - 1].g + GetDistance(path[i - 1], path[i], allowDiagonalMove)
    {
      assert 0 < idx[i];
      assert ValidChild(grid, nodes, idx[i], endNode, allowDiagonalMove);
      assert path[i] == nodes[idx[i]] && path[i - 1] == nodes[idx[i - 1]];
    }
    assert ValidPath(grid, path, startNode.x, startNode.y, nodes[k].x, nodes[k].y, allowDiagonalMove);
  }

  /** Nodes on distinct cells that all appear in `cells` are no more
      numerous than `cells`. */
  lemma {:induction false} DistinctCellsBound(s: seq<Node>, cells: seq<(int, int)>)
    requires DistinctCells(s)
    requires forall i :: 0 <= i < |s| ==> Cell(s[i]) in cells
    ensures |s| <= |cells|
    decreases |s|
  {
    if |s| > 0 {
      var init := s[..|s| - 1];
      var last := Cell(s[|s| - 1]);
      var j :| 0 <= j < |cells| && cells[j] == last;
      var rest := cells[..j] + cells[j + 1..];
      forall i | 0 <= i < |init| ensures Cell(init[i]) in rest {
        var m :| 0 <= m < |cells| && cells[m] == Cell(s[i]);
        assert m != j;
        if m < j { assert rest[m] == cells[m]; } else { assert rest[m - 1] == cells[m]; }
      }
      DistinctCellsBound(init, rest);
    }
  }

  /** Some node of the arena sits on cell `c`. */
  ghost predicate Discovered(nodes: seq<Node>, c: (int, int))
    decreases |nodes|
  {
    |nodes| > 0 && (Cell(nodes[|nodes| - 1]) == c || Discovered(nodes[..|nodes| - 1], c))
  }

  lemma DiscoveredAppend(nodes: seq<Node>, n: Node, c: (int, int))
    ensures Discovered(nodes + [n], c) <==> Discovered(nodes, c) || c == Cell(n)
  {
    assert (nodes + [n])[..|nodes|] == nodes;
  }

  /** Every node's cell is discovered. */
  lemma {:induction false} DiscoveredNode(nodes: seq<Node>, k: nat)
    requires k < |nodes|
    ensures Discovered(nodes, Cell(nodes[k]))
    decreases |nodes|
  {
    if k < |nodes| - 1 {
      DiscoveredNode(nodes[..|nodes| - 1], k);
    }
  }

  /** A discovered cell is the cell of some node. */
  lemma {:induction false} DiscoveredWitness(nodes: seq<Node>, c: (int, int)) returns (k: nat)
    requires Discovered(nodes, c)
    ensures k < |nodes| && Cell(nodes[k]) == c
    decreases |nodes|
  {
    if Cell(nodes[|nodes| - 1]) == c {
      k := |nodes| - 1;
    } else {
      k := DiscoveredWitness(nodes[..|nodes| - 1], c);
    }
  }

  /** Growing the arena keeps every discovered cell discovered. */
  lemma DiscoveredGrows(nodes0: seq<Node>, nodes: seq<Node>, c: (int, int))
    requires |nodes0| <= |nodes| && nodes[..|nodes0|] == nodes0
    requires Discovered(nodes0, c)
    ensures Discovered(nodes, c)
  {
    var k := DiscoveredWitness(nodes0, c);
    assert nodes[k] == nodes0[k];
    DiscoveredNode(nodes, k);
  }

  /** Growing the arena keeps the cells of the first `count` of `these`
      discovered. */
  lemma DiscoveredAllGrow(nodes0: seq<Node>, nodes: seq<Node>, these: seq<Node>, count: nat)
    requires |nodes0| <= |nodes| && nodes[..|nodes0|] == nodes0
    requires count < |these|
    requires forall m :: 0 <= m < count ==> Discovered(nodes0, Cell(these[m]))
    requires Discovered(nodes, Cell(these[count]))
    ensures forall m :: 0 <= m <= count ==> Discovered(nodes, Cell(these[m]))
  {
    forall m | 0 <= m < count ensures Discovered(nodes, Cell(these[m])) {
      DiscoveredGrows(nodes0, nodes, Cell(these[m]));
    }
  }
}
