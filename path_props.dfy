/** What any path of the shape FindPath returns must satisfy: bounds on its
    cost and length, and the obstacles and regions it cannot cross. */
module PathProperties {
  import opened Generic
  import opened Cost
  import opened Grid
  import opened SearchTree

  /** Along a path, G never falls below the direct distance from the start:
      the step costs obey the triangle inequality. */
  lemma {:induction false} CostAtLeastDistance(grid: array2<byte>, path: seq<Node>, startX: int, startY: int,
                                               endX: int, endY: int, allowDiagonalMove: bool, i: nat)
    requires ValidPath(grid, path, startX, startY, endX, endY, allowDiagonalMove)
    requires i < |path|
    ensures path[i].g >= GetDistance(path[0], path[i], allowDiagonalMove)
  {
    if i > 0 {
      CostAtLeastDistance(grid, path, startX, startY, endX, endY, allowDiagonalMove, i - 1);
      DistanceTriangle(path[0], path[i - 1], path[i], allowDiagonalMove);
    }
  }

  /** The G a returned path carries at its end is at least the cost
      estimate between start and end cells. */
  lemma PathCostLowerBound(grid: array2<byte>, path: seq<Node>, startX: int, startY: int,
                           endX: int, endY: int, allowDiagonalMove: bool)
    requires ValidPath(grid, path, startX, startY, endX, endY, allowDiagonalMove)
    ensures path[|path| - 1].g >= GetDistance(Fresh(startX, startY), Fresh(endX, endY), allowDiagonalMove)
  {
    CostAtLeastDistance(grid, path, startX, startY, endX, endY, allowDiagonalMove, |path| - 1);
    CellsDecide(path[0], path[|path| - 1], Fresh(startX, startY), Fresh(endX, endY), allowDiagonalMove);
  }

  /** After i moves, G lies between 100 and 141 per move with diagonals,
      and is exactly the number of moves without them; and the path has
      come no further than i king moves (i rook moves without diagonals). */
  lemma {:induction false} StepCounts(grid: array2<byte>, path: seq<Node>, startX: int, startY: int,
                                      endX: int, endY: int, allowDiagonalMove: bool, i: nat)
    requires ValidPath(grid, path, startX, startY, endX, endY, allowDiagonalMove)
    requires i < |path|
    ensures !allowDiagonalMove ==> path[i].g == i && GetManhattanDistance(path[0], path[i]) <= i
    ensures allowDiagonalMove ==> MoveStraightCost * i <= path[i].g <= MoveDiagonalCost * i
    ensures ChebyshevDistance(path[0], path[i]) <= i
  {
    if i > 0 {
      StepCounts(grid, path, startX, startY, endX, endY, allowDiagonalMove, i - 1);
      NeighbourStepCost(path[i - 1], path[i], allowDiagonalMove);
      ManhattanTriangle(path[0], path[i - 1], path[i]);
      ChebyshevTriangle(path[0], path[i - 1], path[i]);
    }
  }

  /** A path has at least as many moves as the king-move distance between
      its ends, and at least the Manhattan distance without diagonals,
      where G counts the moves. */
  lemma PathLengthLowerBound(grid: array2<byte>, path: seq<Node>, startX: int, startY: int,
                             endX: int, endY: int, allowDiagonalMove: bool)
    requires ValidPath(grid, path, startX, startY, endX, endY, allowDiagonalMove)
    ensures |path| - 1 >= ChebyshevDistance(Fresh(startX, startY), Fresh(endX, endY))
    ensures !allowDiagonalMove ==>
      path[|path| - 1].g == |path| - 1 && |path| - 1 >= GetManhattanDistance(Fresh(startX, startY), Fresh(endX, endY))
  {
    StepCounts(grid, path, startX, startY, endX, endY, allowDiagonalMove, |path| - 1);
  }

  /** A goal cell holding an obstacle is never the end of a path from
      another cell: only the start cell is exempt from the obstacle test. */
  lemma BlockedGoalUnreachable(grid: array2<byte>, path: seq<Node>, startX: int, startY: int,
                               endX: int, endY: int, allowDiagonalMove: bool)
    requires 0 <= endX < grid.Length0 && 0 <= endY < grid.Length1 && grid[endX, endY] != 0
    requires (startX, startY) != (endX, endY)
    ensures !ValidPath(grid, path, startX, startY, endX, endY, allowDiagonalMove)
  {
  }

  /** A path whose first node lies left of column `column` and whose node
      `i` lies at or right of it passes through that column at some index
      in 1..i: a move changes x by at most one. */
  lemma {:induction false} CrossesColumn(grid: array2<byte>, path: seq<Node>, startX: int, startY: int,
                                         endX: int, endY: int, allowDiagonalMove: bool, column: int, i: nat)
    returns (j: nat)
    requires ValidPath(grid, path, startX, startY, endX, endY, allowDiagonalMove)
    requires i < |path| && startX < column <= path[i].x
    ensures 0 < j <= i && path[j].x == column
  {
    if path[i - 1].x < column {
      j := i;
    } else {
      j := CrossesColumn(grid, path, startX, startY, endX, endY, allowDiagonalMove, column, i - 1);
    }
  }

  /** The mirror image of CrossesColumn: a path whose first node lies right
      of column `column` and whose node `i` lies at or left of it passes
      through that column at some index in 1..i. */
  lemma {:induction false} CrossesColumnLeftward(grid: array2<byte>, path: seq<Node>, startX: int, startY: int,
                                                 endX: int, endY: int, allowDiagonalMove: bool, column: int, i: nat)
    returns (j: nat)
    requires ValidPath(grid, path, startX, startY, endX, endY, allowDiagonalMove)
    requires i < |path| && path[i].x <= column < startX
    ensures 0 < j <= i && path[j].x == column
  {
    if path[i - 1].x > column {
      j := i;
    } else {
      j := CrossesColumnLeftward(grid, path, startX, startY, endX, endY, allowDiagonalMove, column, i - 1);
    }
  }

  /** A column of obstacles spanning the whole map separates the cells on
      its left from those on its right, in either direction. */
  lemma WallSeparates(grid: array2<byte>, path: seq<Node>, startX: int, startY: int,
                      endX: int, endY: int, allowDiagonalMove: bool, column: int)
    requires 0 <= column < grid.Length0
    requires forall y :: 0 <= y < grid.Length1 ==> grid[column, y] != 0
    requires startX < column < endX || endX < column < startX
    ensures !ValidPath(grid, path, startX, startY, endX, endY, allowDiagonalMove)
  {
    if ValidPath(grid, path, startX, startY, endX, endY, allowDiagonalMove) {
      if startX < column {
        var j := CrossesColumn(grid, path, startX, startY, endX, endY, allowDiagonalMove, column, |path| - 1);
      } else {
        var j := CrossesColumnLeftward(grid, path, startX, startY, endX, endY, allowDiagonalMove, column, |path| - 1);
      }
    }
  }

  /** Every free cell one move from `c` is among `cells`. */
  ghost predicate Surrounded(grid: array2<byte>, cells: seq<(int, int)>, c: (int, int), allowDiagonalMove: bool)
    reads grid
  {
    forall n ::
      IsFresh(n) && IsNeighbour(Fresh(c.0, c.1), n, allowDiagonalMove) && IsInBoundary(grid, n) && grid[n.x, n.y] == 0
      ==> Cell(n) in cells
  }

  /** No move leads from a cell of `cells` to a free cell outside it. */
  ghost predicate ClosedUnderMoves(grid: array2<byte>, cells: seq<(int, int)>, allowDiagonalMove: bool)
    reads grid
  {
    forall i :: 0 <= i < |cells| ==> Surrounded(grid, cells, cells[i], allowDiagonalMove)
  }

  /** A path that starts inside a region closed under moves stays inside it
      up to node `i`. */
  lemma {:induction false} PathStaysInside(grid: array2<byte>, cells: seq<(int, int)>, path: seq<Node>,
                                           startX: int, startY: int, endX: int, endY: int,
                                           allowDiagonalMove: bool, i: nat)
    requires ClosedUnderMoves(grid, cells, allowDiagonalMove)
    requires ValidPath(grid, path, startX, startY, endX, endY, allowDiagonalMove)
    requires (startX, startY) in cells && i < |path|
    ensures Cell(path[i]) in cells
  {
    if i > 0 {
      PathStaysInside(grid, cells, path, startX, startY, endX, endY, allowDiagonalMove, i - 1);
      var k :| 0 <= k < |cells| && cells[k] == Cell(path[i - 1]);
      assert Surrounded(grid, cells, cells[k], allowDiagonalMove);
      var n := Fresh(path[i].x, path[i].y);
      CellsDecide(path[i - 1], path[i], Fresh(cells[k].0, cells[k].1), n, allowDiagonalMove);
      assert IsInBoundary(grid, n) && grid[n.x, n.y] == 0;
    }
  }

  /** No path leaves a region closed under moves: when the start cell is
      in it and the end cell is not, there is no path between them. */
  lemma RegionUnreachable(grid: array2<byte>, cells: seq<(int, int)>, path: seq<Node>,
                          startX: int, startY: int, endX: int, endY: int, allowDiagonalMove: bool)
    requires ClosedUnderMoves(grid, cells, allowDiagonalMove)
    requires (startX, startY) in cells && (endX, endY) !in cells
    ensures !ValidPath(grid, path, startX, startY, endX, endY, allowDiagonalMove)
  {
    if ValidPath(grid, path, startX, startY, endX, endY, allowDiagonalMove) {
      PathStaysInside(grid, cells, path, startX, startY, endX, endY, allowDiagonalMove, |path| - 1);
    }
  }
}
