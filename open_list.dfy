/** Selection of the next node to expand from the open list. */
module OpenList {
  import opened Generic
  import opened Cost

  /** `a` is expanded before `b`: a lower F, or the same F and a smaller
      Manhattan distance to the goal. */
  predicate Precedes(a: Node, b: Node, endNode: Node)
  {
    a.f < b.f || (a.f == b.f && GetManhattanDistance(endNode, a) < GetManhattanDistance(endNode, b))
  }

  /** Linear scan for the node to expand: the position of the first node
      with the lowest F, ties broken by the lower Manhattan distance to the
      goal. The node itself is `openList[lowest]`. */
  method GetLowestFNode(openList: seq<Node>, endNode: Node) returns (lowest: nat)
    requires |openList| > 0
    ensures lowest < |openList|
    ensures forall i :: 0 <= i < |openList| ==> openList[lowest].f <= openList[i].f
    ensures forall i :: 0 <= i < |openList| && openList[i].f == openList[lowest].f ==>
      GetManhattanDistance(endNode, openList[lowest]) <= GetManhattanDistance(endNode, openList[i])
    ensures forall i :: 0 <= i < lowest ==> Precedes(openList[lowest], openList[i], endNode)
  {
    lowest := 0;
    for i := 1 to |openList|
      invariant lowest < i
      invariant forall j :: 0 <= j < i ==> !Precedes(openList[j], openList[lowest], endNode)
      invariant forall j :: 0 <= j < lowest ==> Precedes(openList[lowest], openList[j], endNode)
    {
      var node := openList[i];
      if node.f < openList[lowest].f {
        lowest := i;
      } else if node.f == openList[lowest].f && GetManhattanDistance(endNode, node) < GetManhattanDistance(endNode, openList[lowest]) {
        lowest := i;
      }
    }
  }

  predicate Distinct<T(==)>(s: seq<T>)
  {
    forall i, j :: 0 <= i < j < |s| ==> s[i] != s[j]
  }

  /** The open list after removing the entry at `position`, which is what
      `List.Remove` does to the entry GetLowestFNode chose. */
  function RemoveAt<T(==)>(openList: seq<T>, position: nat): (rest: seq<T>)
    requires position < |openList|
    ensures |rest| == |openList| - 1
    ensures forall k :: k in rest ==> k in openList
    ensures forall k :: k in openList && k != openList[position] ==> k in rest
    ensures Distinct(openList) ==> Distinct(rest) && openList[position] !in rest
  {
    openList[..position] + openList[position + 1..]
  }
}
