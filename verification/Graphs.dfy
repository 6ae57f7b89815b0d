/** Walks and distances in a directed graph. */
module Graphs {

  type Node = nat
  type Graph = set<(Node, Node)>

  /** A walk of exactly k edges. */
  ghost predicate Walk(g: Graph, a: Node, b: Node, k: nat)
    decreases k
  {
    if k == 0 then a == b else exists c: Node :: Walk(g, a, c, k - 1) && (c, b) in g
  }

  ghost predicate Distance(g: Graph, a: Node, b: Node, d: nat) {
    Walk(g, a, b, d) && forall k :: 0 <= k < d ==> !Walk(g, a, b, k)
  }

  lemma WalkStep(g: Graph, a: Node, b: Node, c: Node, k: nat)
    requires Walk(g, a, b, k) && (b, c) in g
    ensures Walk(g, a, c, k + 1)
  {
  }

  lemma {:induction false} WalkFront(g: Graph, a: Node, b: Node, c: Node, k: nat)
    requires (a, b) in g && Walk(g, b, c, k)
    ensures Walk(g, a, c, k + 1)
    decreases k
  {
    if k == 0 {
      assert Walk(g, a, a, 0);
    } else {
      var e: Node :| Walk(g, b, e, k - 1) && (e, c) in g;
      WalkFront(g, a, b, e, k - 1);
    }
  }

  /** A node at distance d > 0 has a predecessor at distance d - 1. */
  lemma Predecessor(g: Graph, a: Node, b: Node, d: nat) returns (c: Node)
    requires Distance(g, a, b, d) && d > 0
    ensures Distance(g, a, c, d - 1) && (c, b) in g
  {
    c :| Walk(g, a, c, d - 1) && (c, b) in g;
    forall k: nat | k < d - 1 ensures !Walk(g, a, c, k) {
      if Walk(g, a, c, k) {
        WalkStep(g, a, c, b, k);
      }
    }
  }

  lemma {:induction false} ShortestWalk(g: Graph, a: Node, b: Node, k: nat) returns (d: nat)
    requires Walk(g, a, b, k)
    ensures d <= k && Distance(g, a, b, d)
  {
    if j: nat :| j < k && Walk(g, a, b, j) {
      d := ShortestWalk(g, a, b, j);
    } else {
      d := k;
    }
  }

  /** Nodes at different distances from the same node are different. */
  lemma DistancesSeparate(g: Graph, a: Node, b: Node, c: Node, d: nat, e: nat)
    requires Distance(g, a, c, d) && Distance(g, b, c, e)
    ensures a == b ==> d == e
  {
  }
}
