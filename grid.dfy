/** Read-only queries on the caller's obstacle grid and on the search's
    closed-cell grid, and the generation of a node's passable neighbours. */
module Grid {
  import opened Generic
  import opened Cost

  newtype byte = b: int | 0 <= b < 256

  /** The node's cell indexes the grid: 0 <= x < lenX and 0 <= y < lenY. */
  function IsInBoundary(grid: array2<byte>, node: Node): (inside: bool)
    ensures inside <==> 0 <= node.x < grid.Length0 && 0 <= node.y < grid.Length1
  {
    var lenX := grid.Length0;
    var lenY := grid.Length1;
    !(node.x >= lenX || node.x < 0 || node.y >= lenY || node.y < 0)
  }

  /** A cell can be entered when it is inside the grid, free of obstacles
      (map value 0, any other value blocks) and not yet closed. */
  function CanPass(grid: array2<byte>, node: Node, closeList: array2<byte>): (pass: bool)
    requires closeList.Length0 == grid.Length0 && closeList.Length1 == grid.Length1
    reads grid, closeList
    ensures pass <==> IsInBoundary(grid, node) && grid[node.x, node.y] == 0 && closeList[node.x, node.y] == 0
  {
    if !IsInBoundary(grid, node) then false
    else if grid[node.x, node.y] != 0 then false
    else if closeList[node.x, node.y] != 0 then false
    else true
  }

  /** Position of the move from `from` to `to` in the order neighbours are
      tried: top, bottom, left, right, then top-left, bottom-left,
      top-right, bottom-right; 8 for anything that is not one move. */
  function DirectionRank(from: Node, to: Node): nat
  {
    var dx, dy := to.x - from.x, to.y - from.y;
    if dx == 0 && dy == 1 then 0
    else if dx == 0 && dy == -1 then 1
    else if dx == -1 && dy == 0 then 2
    else if dx == 1 && dy == 0 then 3
    else if dx == -1 && dy == 1 then 4
    else if dx == -1 && dy == -1 then 5
    else if dx == 1 && dy == 1 then 6
    else if dx == 1 && dy == -1 then 7
    else 8
  }

  /** The cell one move from `from` in direction `rank` of the order above. */
  function Toward(from: Node, rank: nat): (n: Node)
    requires rank < 8
    ensures IsFresh(n) && DirectionRank(from, n) == rank
  {
    var x, y := from.x, from.y;
    if rank == 0 then Fresh(x, y + 1)
    else if rank == 1 then Fresh(x, y - 1)
    else if rank == 2 then Fresh(x - 1, y)
    else if rank == 3 then Fresh(x + 1, y)
    else if rank == 4 then Fresh(x - 1, y + 1)
    else if rank == 5 then Fresh(x - 1, y - 1)
    else if rank == 6 then Fresh(x + 1, y + 1)
    else Fresh(x + 1, y - 1)
  }

  /** A new node in one of the eight directions is the one Toward names. */
  lemma TowardInverse(from: Node, n: Node)
    requires IsFresh(n) && DirectionRank(from, n) < 8
    ensures n == Toward(from, DirectionRank(from, n))
  {
  }

  /** How many directions are tried: the four axis moves, and the four
      diagonal ones when diagonal moves are allowed. */
  function Directions(allowDiagonalMove: bool): nat
  {
    if allowDiagonalMove then 8 else 4
  }

  /** The new passable nodes in the first `rank` directions around
      `currentNode`, in direction order. */
  ghost function Collect(grid: array2<byte>, currentNode: Node, closeList: array2<byte>, rank: nat): seq<Node>
    requires closeList.Length0 == grid.Length0 && closeList.Length1 == grid.Length1
    requires rank <= 8
    reads grid, closeList
  {
    if rank == 0 then []
    else
      var candidate := Toward(currentNode, rank - 1);
      var earlier := Collect(grid, currentNode, closeList, rank - 1);
      if CanPass(grid, candidate, closeList) then earlier + [candidate] else earlier
  }

  /** What Collect gathers: every node in it is a new passable node in
      one of the first `rank` directions, every such node is in it, and
      it lists them in strictly increasing direction order. */
  lemma {:induction false} CollectSound(grid: array2<byte>, currentNode: Node, closeList: array2<byte>, rank: nat)
    requires closeList.Length0 == grid.Length0 && closeList.Length1 == grid.Length1
    requires rank <= 8
    ensures forall n :: n in Collect(grid, currentNode, closeList, rank) ==>
      IsFresh(n) && DirectionRank(currentNode, n) < rank && CanPass(grid, n, closeList)
    ensures forall d :: 0 <= d < rank && CanPass(grid, Toward(currentNode, d), closeList) ==>
      Toward(currentNode, d) in Collect(grid, currentNode, closeList, rank)
    ensures forall i, j :: 0 <= i < j < |Collect(grid, currentNode, closeList, rank)| ==>
      DirectionRank(currentNode, Collect(grid, currentNode, closeList, rank)[i])
        < DirectionRank(currentNode, Collect(grid, currentNode, closeList, rank)[j])
  {
    if rank > 0 {
      CollectSound(grid, currentNode, closeList, rank - 1);
      var earlier := Collect(grid, currentNode, closeList, rank - 1);
      var s := Collect(grid, currentNode, closeList, rank);
      forall i, j | 0 <= i < j < |s| ensures DirectionRank(currentNode, s[i]) < DirectionRank(currentNode, s[j]) {
        if j == |earlier| {
          assert s[i] == earlier[i] && earlier[i] in earlier;
        }
      }
    }
  }

  /** Over all four (or eight) directions, Collect holds exactly the new
      passable neighbours, in direction order. */
  lemma CollectedAll(grid: array2<byte>, currentNode: Node, closeList: array2<byte>, allowDiagonalMove: bool, s: seq<Node>)
    requires closeList.Length0 == grid.Length0 && closeList.Length1 == grid.Length1
    requires s == Collect(grid, currentNode, closeList, Directions(allowDiagonalMove))
    ensures forall n :: n in s <==> IsFresh(n) && IsNeighbour(currentNode, n, allowDiagonalMove) && CanPass(grid, n, closeList)
    ensures forall i, j :: 0 <= i < j < |s| ==> DirectionRank(currentNode, s[i]) < DirectionRank(currentNode, s[j])
  {
    var rank := Directions(allowDiagonalMove);
    CollectSound(grid, currentNode, closeList, rank);
    forall n
      ensures n in s <==> IsFresh(n) && IsNeighbour(currentNode, n, allowDiagonalMove) && CanPass(grid, n, closeList)
    {
      DirectionRankNeighbour(currentNode, n, allowDiagonalMove);
      if n in s {
        assert IsFresh(n) && DirectionRank(currentNode, n) < rank && CanPass(grid, n, closeList);
      }
      if IsFresh(n) && IsNeighbour(currentNode, n, allowDiagonalMove) && CanPass(grid, n, closeList) {
        var d := DirectionRank(currentNode, n);
        assert d < rank;
        TowardInverse(currentNode, n);
        assert CanPass(grid, Toward(currentNode, d), closeList);
        assert n in s;
      }
    }
  }

  /** The first four directions are the moves along an axis, all eight the
      moves along an axis or a diagonal. */
  lemma DirectionRankNeighbour(currentNode: Node, n: Node, allowDiagonalMove: bool)
    ensures IsNeighbour(currentNode, n, allowDiagonalMove) <==>
      DirectionRank(currentNode, n) < Directions(allowDiagonalMove)
  {
  }

  /** The passable, not yet closed cells one move away from `currentNode`,
      each as a new node with default costs and no parent, in direction order. */
  method GetRealNeighbours(grid: array2<byte>, currentNode: Node, closeList: array2<byte>, allowDiagonalMove: bool)
    returns (neighbours: seq<Node>)
    requires closeList.Length0 == grid.Length0 && closeList.Length1 == grid.Length1
    ensures forall n :: n in neighbours <==>
      IsFresh(n) && IsNeighbour(currentNode, n, allowDiagonalMove) && CanPass(grid, n, closeList)
    ensures forall i, j :: 0 <= i < j < |neighbours| ==>
      DirectionRank(currentNode, neighbours[i]) < DirectionRank(currentNode, neighbours[j])
    ensures neighbours == Collect(grid, currentNode, closeList, Directions(allowDiagonalMove))
  {
    neighbours := [];
    var x := currentNode.x;
    var y := currentNode.y;

    var top := Fresh(x, y + 1);
    var bottom := Fresh(x, y - 1);
    var left := Fresh(x - 1, y);
    var right := Fresh(x + 1, y);

    assert neighbours == Collect(grid, currentNode, closeList, 0);
    if CanPass(grid, top, closeList) { neighbours := neighbours + [top]; }
    assert neighbours == Collect(grid, currentNode, closeList, 1);
    if CanPass(grid, bottom, closeList) { neighbours := neighbours + [bottom]; }
    assert neighbours == Collect(grid, currentNode, closeList, 2);
    if CanPass(grid, left, closeList) { neighbours := neighbours + [left]; }
    assert neighbours == Collect(grid, currentNode, closeList, 3);
    if CanPass(grid, right, closeList) { neighbours := neighbours + [right]; }

    if allowDiagonalMove {
      var topLeft := Fresh(x - 1, y + 1);
      var bottomLeft := Fresh(x - 1, y - 1);
      var topRight := Fresh(x + 1, y + 1);
      var bottomRight := Fresh(x + 1, y - 1);
      assert neighbours == Collect(grid, currentNode, closeList, 4);
      if CanPass(grid, topLeft, closeList) { neighbours := neighbours + [topLeft]; }
      assert neighbours == Collect(grid, currentNode, closeList, 5);
      if CanPass(grid, bottomLeft, closeList) { neighbours := neighbours + [bottomLeft]; }
      assert neighbours == Collect(grid, currentNode, closeList, 6);
      if CanPass(grid, topRight, closeList) { neighbours := neighbours + [topRight]; }
      assert neighbours == Collect(grid, currentNode, closeList, 7);
      if CanPass(grid, bottomRight, closeList) { neighbours := neighbours + [bottomRight]; }
    }
    assert neighbours == Collect(grid, currentNode, closeList, Directions(allowDiagonalMove));
    CollectedAll(grid, currentNode, closeList, allowDiagonalMove, neighbours);
  }
}
