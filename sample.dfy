/** A small weighted graph of five vertices and six edges, read as an edge list. */
module Sample {
  import opened Edges

  /** The edges of the sample graph in input order. */
  const SampleInput := [Edge(1, 2, 2), Edge(1, 3, 3), Edge(2, 3, 1), Edge(2, 4, 4), Edge(3, 5, 5), Edge(4, 5, 6)]

  /** The sample graph has vertices 1..5 and connects them all. */
  lemma SampleConnected()
    ensures EndpointsIn(5, SampleInput) && Connected(5, SampleInput)
  {
    var es := SampleInput;
    forall S: set<int> | 1 in S && Closed(S, es)
      ensures forall v :: 1 <= v <= 5 ==> v in S
    {
      assert es[0].u in S <==> es[0].v in S;
      assert es[1].u in S <==> es[1].v in S;
      assert es[3].u in S <==> es[3].v in S;
      assert es[4].u in S <==> es[4].v in S;
    }
  }
}
