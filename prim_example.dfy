/**
 * The sample graph of five vertices run through Prim's algorithm from
 * vertex 1: whatever run satisfies the postconditions of MstPrim settles
 * the vertices in the order 1, 2, 3, 4, 5, and the tree weighs 12.
 */
module PrimExample {
  import opened Edges
  import opened Adjacency
  import opened VertexHeaps
  import opened PrimSpec
  import opened Sample

  /** An arc x->y of weight w of the sample graph is one of its six edges, either way round. */
  lemma SampleArc(x: int, y: int, w: int)
    requires Joined(SampleInput, x, y, w)
    ensures exists i :: 0 <= i < 6 && Joins(SampleInput[i], x, y, w)
    ensures Joins(Edge(1, 2, 2), x, y, w) || Joins(Edge(1, 3, 3), x, y, w) || Joins(Edge(2, 3, 1), x, y, w) ||
            Joins(Edge(2, 4, 4), x, y, w) || Joins(Edge(3, 5, 5), x, y, w) || Joins(Edge(4, 5, 6), x, y, w)
  {
    var i :| 0 <= i < |SampleInput| && Joins(SampleInput[i], x, y, w);
    assert i == 0 || i == 1 || i == 2 || i == 3 || i == 4 || i == 5;
  }

  /** The sample graph has vertices 1..5, connects them, and has weights below INF. */
  lemma SampleGraph()
    ensures EndpointsIn(5, SampleInput) && Connected(5, SampleInput)
    ensures forall i :: 0 <= i < |SampleInput| ==> SampleInput[i].wgt < INF
  {
    SampleConnected();
  }

  /** A sequence of five known entries. */
  lemma Five(s: seq<int>, a: int, b: int, c: int, d: int, e: int)
    requires |s| == 5 && s[0] == a && s[1] == b && s[2] == c && s[3] == d && s[4] == e
    ensures s == [a, b, c, d, e]
  {
  }

  /** The weights 0, 2, 1, 4, 5 sum to 12. */
  lemma SampleWeight(ws: seq<int>)
    requires ws == [0, 2, 1, 4, 5]
    ensures Sum(ws) == 12
  {
    var w1, w2, w3, w4 := ws[..1], ws[..2], ws[..3], ws[..4];
    assert w1[..0] == [] && w2[..1] == w1 && w3[..2] == w2 && w4[..3] == w3 && ws[..4] == w4;
    assert Sum(w1) == 0;
    assert Sum(w2) == 2;
    assert Sum(w3) == 3;
    assert Sum(w4) == 7;
  }

  /**
   * The k-th vertex a grown tree settles hangs off an earlier vertex by an
   * arc of the graph, and that arc is no heavier than any arc x->y leaving
   * the vertices settled before it.
   */
  lemma Attaches(es: seq<Edge>, P: seq<int>, order: seq<int>, wts: seq<int>, k: int, x: int, y: int, c: int)
    requires EndpointsIn(5, es) && Grown(Lists(5, es), 5, 1, P, order, wts) && 1 <= k < |order|
    requires x in order[..k] && y !in order[..k] && Joined(es, x, y, c)
    ensures P[order[k]] in order[..k] && order[k] !in order[..k] && wts[k] <= c
    ensures Joined(es, P[order[k]], order[k], wts[k])
  {
    var L := Lists(5, es);
    var pre, v, p, w := order[..k], order[k], P[order[k]], wts[k];
    AttachmentAt(L, P, order, wts, k);
    DistinctPairs(order);
    DoneMember(L, pre, Edge(p, v, w));
    ListsMember(5, es, p, v, w);
    ListsMember(5, es, x, y, c);
    DoneMember(L, pre, Edge(x, y, c));
  }

  /** From vertex 1 the lightest arc leads to 2, of weight 2. */
  lemma SecondSettled(es: seq<Edge>, P: seq<int>, order: seq<int>, wts: seq<int>)
    requires es == SampleInput && Grown(Lists(5, es), 5, 1, P, order, wts) && 2 <= |order| && order[..1] == [1]
    ensures order[1] == 2 && wts[1] == 2
  {
    assert Joins(es[0], 1, 2, 2);
    Attaches(es, P, order, wts, 1, 1, 2, 2);
    SampleArc(P[order[1]], order[1], wts[1]);
  }

  /** From vertices 1 and 2 the lightest arc leads to 3, of weight 1. */
  lemma ThirdSettled(es: seq<Edge>, P: seq<int>, order: seq<int>, wts: seq<int>)
    requires es == SampleInput && Grown(Lists(5, es), 5, 1, P, order, wts) && 3 <= |order| && order[..2] == [1, 2]
    ensures order[2] == 3 && wts[2] == 1
  {
    assert Joins(es[2], 2, 3, 1);
    Attaches(es, P, order, wts, 2, 2, 3, 1);
    SampleArc(P[order[2]], order[2], wts[2]);
  }

  /** From vertices 1, 2 and 3 the lightest arc leads to 4, of weight 4. */
  lemma FourthSettled(es: seq<Edge>, P: seq<int>, order: seq<int>, wts: seq<int>)
    requires es == SampleInput && Grown(Lists(5, es), 5, 1, P, order, wts) && 4 <= |order| && order[..3] == [1, 2, 3]
    ensures order[3] == 4 && wts[3] == 4
  {
    assert Joins(es[3], 2, 4, 4);
    Attaches(es, P, order, wts, 3, 2, 4, 4);
    SampleArc(P[order[3]], order[3], wts[3]);
  }

  /** The last vertex, 5, is reached by an arc of weight 5. */
  lemma FifthSettled(es: seq<Edge>, P: seq<int>, order: seq<int>, wts: seq<int>)
    requires es == SampleInput && Grown(Lists(5, es), 5, 1, P, order, wts) && 5 <= |order| && order[..4] == [1, 2, 3, 4]
    ensures order[4] == 5 && wts[4] == 5
  {
    assert Joins(es[4], 3, 5, 5);
    Attaches(es, P, order, wts, 4, 3, 5, 5);
    SampleArc(P[order[4]], order[4], wts[4]);
  }

  /**
   * On the sample graph, a run from vertex 1 that ends as MstPrim promises
   * settles 1, 2, 3, 4, 5 in this order, attached by arcs of weight 2, 1,
   * 4 and 5, and the weight sum is 12.
   */
  lemma PrimSample(es: seq<Edge>, P: seq<int>, order: seq<int>, wts: seq<int>)
    requires es == SampleInput && Grown(Lists(5, es), 5, 1, P, order, wts) && 1 <= |order|
    requires Listed(Lists(5, es), order)
    requires forall a :: a in Done(Lists(5, es), order) && a.v !in order ==> INF <= a.wgt
    ensures order == [1, 2, 3, 4, 5] && wts == [0, 2, 1, 4, 5] && Sum(wts) == 12
  {
    SampleGraph();
    PrimSpans(5, es, 1, order);
    GrownAtMostV(Lists(5, es), 5, 1, P, order, wts);
    assert order[..1] == [1] && 2 in order;
    SecondSettled(es, P, order, wts);
    assert order[..2] == [1, 2] && 3 in order;
    ThirdSettled(es, P, order, wts);
    assert order[..3] == [1, 2, 3] && 4 in order;
    FourthSettled(es, P, order, wts);
    assert order[..4] == [1, 2, 3, 4] && 5 in order;
    FifthSettled(es, P, order, wts);
    Five(order, 1, 2, 3, 4, 5);
    Five(wts, 0, 2, 1, 4, 5);
    SampleWeight(wts);
  }
}
