/** The weighted, undirected edges both MST programs read from their input. */
module Edges {
  /** An edge u--v of weight wgt (class `Edge` of Kruskal.java, one input line of PrimLists.java). */
  datatype Edge = Edge(u: int, v: int, wgt: int)

  /** The weights of the edges, in order. */
  function Weights(edge: seq<Edge>): (w: seq<int>)
    ensures |w| == |edge| && forall i :: 0 <= i < |edge| ==> w[i] == edge[i].wgt
  {
    if edge == [] then [] else Weights(edge[..|edge| - 1]) + [edge[|edge| - 1].wgt]
  }

  /** Both endpoints of every edge are vertices 1..V. */
  predicate EndpointsIn(V: int, edges: seq<Edge>)
  {
    forall i :: 0 <= i < |edges| ==> 1 <= edges[i].u <= V && 1 <= edges[i].v <= V
  }

  /** S contains both endpoints of each edge of es, or neither. */
  ghost predicate Closed(S: set<int>, es: seq<Edge>)
  {
    forall i :: 0 <= i < |es| ==> (es[i].u in S <==> es[i].v in S)
  }

  /**
   * The edges es connect the vertices 1..V: every set of vertices that
   * holds vertex 1 and is closed under es holds all of them.
   */
  ghost predicate Connected(V: int, es: seq<Edge>)
  {
    forall S: set<int> :: 1 in S && Closed(S, es) ==> forall v :: 1 <= v <= V ==> v in S
  }
}
