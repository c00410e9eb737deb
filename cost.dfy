/** The integer cost model: Manhattan distance (heuristic without diagonal
    moves, and the tie-break metric), and the step/heuristic cost
    GetDistance with straight step 100 and diagonal step 141. */
module Cost {
  import opened Generic

  const MoveDiagonalCost: int := 141
  const MoveStraightCost: int := 100

  function Abs(n: int): nat
  {
    if n < 0 then -n else n
  }

  function Min(a: int, b: int): int
  {
    if a <= b then a else b
  }

  function Max(a: int, b: int): int
  {
    if a >= b then a else b
  }

  /** The fewest king moves between two cells. */
  function ChebyshevDistance(node1: Node, node2: Node): nat
  {
    Max(Abs(node1.x - node2.x), Abs(node1.y - node2.y))
  }

  function GetManhattanDistance(node1: Node, node2: Node): (d: int)
    ensures d >= 0
    ensures d == 0 <==> Cell(node1) == Cell(node2)
    ensures ChebyshevDistance(node1, node2) <= d <= 2 * ChebyshevDistance(node1, node2)
  {
    Abs(node1.x - node2.x) + Abs(node1.y - node2.y)
  }

  /** Cost between two cells: Manhattan distance without diagonal moves;
      with them, 141 per diagonal step and 100 per straight step. */
  function GetDistance(node1: Node, node2: Node, allowDiagonalMove: bool): (d: int)
    ensures d >= 0
    ensures d == 0 <==> Cell(node1) == Cell(node2)
    ensures !allowDiagonalMove ==> d == GetManhattanDistance(node1, node2)
    ensures allowDiagonalMove ==>
      d == MoveStraightCost * ChebyshevDistance(node1, node2)
           + (MoveDiagonalCost - MoveStraightCost) * Min(Abs(node1.x - node2.x), Abs(node1.y - node2.y))
    ensures allowDiagonalMove ==>
      MoveStraightCost * ChebyshevDistance(node1, node2) <= d <= MoveStraightCost * GetManhattanDistance(node1, node2)
  {
    if allowDiagonalMove then
      var xDistance := Abs(node1.x - node2.x);
      var yDistance := Abs(node1.y - node2.y);
      var remaining := Abs(xDistance - yDistance);
      MoveDiagonalCost * Min(xDistance, yDistance) + MoveStraightCost * remaining
    else
      GetManhattanDistance(node1, node2)
  }

  /** `b` is one move away from `a`: one step along an axis, or, when
      diagonal moves are allowed, also one step along a diagonal. */
  predicate IsNeighbour(a: Node, b: Node, allowDiagonalMove: bool)
  {
    var dx, dy := Abs(a.x - b.x), Abs(a.y - b.y);
    dx <= 1 && dy <= 1 && 0 < dx + dy && (allowDiagonalMove || dx + dy == 1)
  }

  /** Distances and adjacency depend on the cells alone, not on the
      costs or parent a node carries. */
  lemma CellsDecide(a: Node, b: Node, a': Node, b': Node, allowDiagonalMove: bool)
    requires Cell(a) == Cell(a') && Cell(b) == Cell(b')
    ensures GetDistance(a, b, allowDiagonalMove) == GetDistance(a', b', allowDiagonalMove)
    ensures GetManhattanDistance(a, b) == GetManhattanDistance(a', b')
    ensures IsNeighbour(a, b, allowDiagonalMove) == IsNeighbour(a', b', allowDiagonalMove)
  {
  }

  lemma DistanceSymmetric(a: Node, b: Node, allowDiagonalMove: bool)
    ensures GetDistance(a, b, allowDiagonalMove) == GetDistance(b, a, allowDiagonalMove)
    ensures GetManhattanDistance(a, b) == GetManhattanDistance(b, a)
  {
  }

  lemma AbsTriangle(u: int, v: int)
    ensures Abs(u + v) <= Abs(u) + Abs(v)
  {
  }

  lemma ManhattanTriangle(a: Node, b: Node, c: Node)
    ensures GetManhattanDistance(a, c) <= GetManhattanDistance(a, b) + GetManhattanDistance(b, c)
  {
    AbsTriangle(a.x - b.x, b.x - c.x);
    AbsTriangle(a.y - b.y, b.y - c.y);
  }

  lemma ChebyshevTriangle(a: Node, b: Node, c: Node)
    ensures ChebyshevDistance(a, c) <= ChebyshevDistance(a, b) + ChebyshevDistance(b, c)
  {
    AbsTriangle(a.x - b.x, b.x - c.x);
    AbsTriangle(a.y - b.y, b.y - c.y);
  }

  /** GetDistance obeys the triangle inequality, so using it as the
      heuristic to the goal is consistent. */
  lemma DistanceTriangle(a: Node, b: Node, c: Node, allowDiagonalMove: bool)
    ensures GetDistance(a, c, allowDiagonalMove) <= GetDistance(a, b, allowDiagonalMove) + GetDistance(b, c, allowDiagonalMove)
  {
    ManhattanTriangle(a, b, c);
    if allowDiagonalMove {
      ChebyshevTriangle(a, b, c);
      // 100 * max + 41 * min == 59 * max + 41 * (max + min): a sum of two metrics
      OctileSplit(a, c);
      OctileSplit(a, b);
      OctileSplit(b, c);
    }
  }

  lemma OctileSplit(a: Node, b: Node)
    ensures GetDistance(a, b, true) == 59 * ChebyshevDistance(a, b) + 41 * GetManhattanDistance(a, b)
  {
  }

  /** One move costs 1 without diagonals; with them, 100 straight and 141 diagonal. */
  lemma NeighbourStepCost(a: Node, b: Node, allowDiagonalMove: bool)
    requires IsNeighbour(a, b, allowDiagonalMove)
    ensures GetDistance(a, b, allowDiagonalMove) ==
      if !allowDiagonalMove then 1
      else if a.x != b.x && a.y != b.y then MoveDiagonalCost
      else MoveStraightCost
  {
  }
}
