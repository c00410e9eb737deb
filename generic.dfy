/** The search node type of GameArki.PathFinding.Generic, as the A* search uses it. */
module Generic {

  /** A possibly absent value; stands for a nullable reference. */
  datatype Option<T> = None | Some(value: T)

  /** One grid cell met during a search: its coordinates, the cost G from the
      start, the estimate H to the goal, F, and the node it was reached from.
      Nodes live in an arena (a sequence) owned by one search, so `parent` is
      the position of the predecessor in that arena, or None for the start. */
  datatype Node = Node(x: int, y: int, g: int, h: int, f: int, parent: Option<nat>)

  /** The coordinates of a node. */
  function Cell(n: Node): (int, int)
  {
    (n.x, n.y)
  }

  /** A node built from coordinates only: every other field keeps its default. */
  function Fresh(x: int, y: int): (n: Node)
    ensures Cell(n) == (x, y) && n.parent == None
    ensures n.g == 0 && n.h == 0 && n.f == 0
  {
    Node(x, y, 0, 0, 0, None)
  }

  predicate IsFresh(n: Node)
  {
    n == Fresh(n.x, n.y)
  }
}
