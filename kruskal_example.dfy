/**
 * The sample graph of five vertices run through Kruskal's algorithm:
 * whatever run satisfies the postconditions of MstKruskal draws the edges
 * by weight 1, 2, 3, ..., keeps 2-3, 1-2, 2-4 and 3-5, and the tree
 * weighs 12.
 */
module KruskalExample {
  import opened Edges
  import opened HeapOrder
  import opened Kruskal
  import opened Sample

  /** The sample edges sorted by weight: the k-th weighs k + 1. */
  const SampleEdges := [Edge(2, 3, 1), Edge(1, 2, 2), Edge(1, 3, 3), Edge(2, 4, 4), Edge(3, 5, 5), Edge(4, 5, 6)]

  /** The input index of the sample edge of weight w + 1. */
  const ByWeight := [3, 1, 2, 4, 5, 6]

  /** Each sample edge index i weighs 1..6, and it is the edge of that weight. */
  lemma IndexByWeight(edge: seq<Edge>, i: int)
    requires |edge| == 7 && edge[1..] == SampleInput && 1 <= i <= 6
    ensures 1 <= edge[i].wgt <= 6 && ByWeight[edge[i].wgt - 1] == i && edge[i] == SampleEdges[edge[i].wgt - 1]
  {
    assert edge[i] == SampleInput[i - 1];
  }

  /** The sample edge of weight w is at index ByWeight[w - 1]. */
  lemma WeightOfIndex(edge: seq<Edge>, w: int)
    requires |edge| == 7 && edge[1..] == SampleInput && 1 <= w <= 6
    ensures 1 <= ByWeight[w - 1] <= 6 && edge[ByWeight[w - 1]].wgt == w
  {
    assert edge[ByWeight[w - 1]] == SampleInput[ByWeight[w - 1] - 1];
  }

  /** Each index occurs at most once among the indices 1..n. */
  lemma {:induction false} IdsOnce(n: int, x: int)
    ensures multiset(Ids(n))[x] <= 1
    decreases n
  {
    if n > 0 {
      IdsOnce(n - 1, x);
      assert Ids(n) == Ids(n - 1) + [n];
      assert n !in Ids(n - 1);
    }
  }

  /** No index occurs twice. */
  ghost predicate Distinct(order: seq<int>)
  {
    forall i, j :: 0 <= i < j < |order| ==> order[i] != order[j]
  }

  /** An order drawn from the indices 1..n, each at most once, repeats no index. */
  lemma NoRepeat(order: seq<int>, n: int, i: int, j: int)
    requires multiset(order) <= multiset(Ids(n)) && 0 <= i < j < |order|
    ensures order[i] != order[j]
  {
    var x, pre := order[j], order[..j];
    IdsOnce(n, x);
    assert order == pre + [x] + order[j + 1..];
    assert multiset(pre)[x] == 0;
    assert pre[i] == order[i];
  }

  /**
   * The k-th index a run draws from the sample is heavier than the one
   * before: no lighter, as the run is sorted, and not of equal weight, as it
   * is another index.
   */
  lemma DrawnAbove(edge: seq<Edge>, order: seq<int>, k: int)
    requires |edge| == 7 && edge[1..] == SampleInput
    requires Distinct(order) && forall j :: 0 <= j < |order| ==> 1 <= order[j] <= 6
    requires SortedByWeight(EdgesAt(edge, order)) && 2 <= k <= |order|
    ensures edge[order[k - 2]].wgt < edge[order[k - 1]].wgt
  {
    IndexByWeight(edge, order[k - 1]);
    IndexByWeight(edge, order[k - 2]);
    assert order[k - 2] != order[k - 1];
    assert EdgesAt(edge, order)[k - 2].wgt <= EdgesAt(edge, order)[k - 1].wgt;
  }

  /**
   * When the first k - 1 indices drawn weigh 1, 2, ..., k - 1, the k-th is
   * no heavier than the index of weight k: that one is drawn later, or not
   * at all.
   */
  lemma DrawnBelow(edge: seq<Edge>, order: seq<int>, k: int)
    requires |edge| == 7 && edge[1..] == SampleInput
    requires forall j :: 0 <= j < |order| ==> 1 <= order[j] <= 6
    requires SortedByWeight(EdgesAt(edge, order)) && Greedy(edge, 6, order)
    requires 1 <= k <= |order| && k <= 6 && forall j :: 0 <= j < k - 1 ==> edge[order[j]].wgt == j + 1
    ensures edge[order[k - 1]].wgt <= k
  {
    var x := ByWeight[k - 1];
    WeightOfIndex(edge, k);
    if x in order {
      var j :| 0 <= j < |order| && order[j] == x;
      assert k - 1 <= j;
      assert EdgesAt(edge, order)[k - 1].wgt <= EdgesAt(edge, order)[j].wgt;
    }
  }

  /** The k first indices a run draws from the sample weigh 1, 2, ..., k. */
  lemma {:induction false} DrawnByWeight(edge: seq<Edge>, order: seq<int>, k: int)
    requires |edge| == 7 && edge[1..] == SampleInput
    requires Distinct(order) && forall j :: 0 <= j < |order| ==> 1 <= order[j] <= 6
    requires SortedByWeight(EdgesAt(edge, order)) && Greedy(edge, 6, order)
    requires 0 <= k <= |order|
    ensures forall j :: 0 <= j < k ==> edge[order[j]].wgt == j + 1
    decreases k
  {
    if 0 < k {
      DrawnByWeight(edge, order, k - 1);
      IndexByWeight(edge, order[k - 1]);
      if 1 < k {
        DrawnAbove(edge, order, k);
      }
      DrawnBelow(edge, order, k);
    }
  }

  /** An order drawn from the indices 1..n, each at most once, is distinct. */
  lemma NoRepeats(order: seq<int>, n: int)
    requires multiset(order) <= multiset(Ids(n))
    ensures Distinct(order)
  {
    forall i, j | 0 <= i < j < |order|
      ensures order[i] != order[j]
    {
      NoRepeat(order, n, i, j);
    }
  }

  /** A run on the sample draws a prefix of the edges sorted by weight. */
  lemma DrawnPrefix(edge: seq<Edge>, order: seq<int>)
    requires |edge| == 7 && edge[1..] == SampleInput
    requires Distinct(order) && forall j :: 0 <= j < |order| ==> 1 <= order[j] <= 6
    requires SortedByWeight(EdgesAt(edge, order)) && Greedy(edge, 6, order)
    ensures |order| <= 6 && EdgesAt(edge, order) == SampleEdges[..|order|]
  {
    DrawnByWeight(edge, order, |order|);
    if |order| > 0 {
      IndexByWeight(edge, order[|order| - 1]);
    }
    forall j | 0 <= j < |order|
      ensures EdgesAt(edge, order)[j] == SampleEdges[j]
    {
      IndexByWeight(edge, order[j]);
    }
  }

  /** Over the first three edges by weight, 2-3 and 1-2 are kept and 1-3 closes a cycle. */
  lemma SampleFirstThree(es: seq<Edge>)
    requires es == SampleEdges
    ensures Kruskal.Kruskal(5, es[..1]) == Forest([es[0]], [0, 1, 2, 2, 4, 5])
    ensures Kruskal.Kruskal(5, es[..2]) == Forest([es[0], es[1]], [0, 1, 1, 1, 4, 5])
    ensures Kruskal.Kruskal(5, es[..3]) == Forest([es[0], es[1]], [0, 1, 1, 1, 4, 5])
  {
    assert es[..1][..0] == [];
    assert es[..2][..1] == es[..1];
    assert es[..3][..2] == es[..2];
  }

  /** Then 2-4 is kept, joining vertex 4 to them. */
  lemma SampleFourth(es: seq<Edge>)
    requires es == SampleEdges
    ensures Kruskal.Kruskal(5, es[..4]) == Forest([es[0], es[1], es[3]], [0, 1, 1, 1, 1, 5])
  {
    SampleFirstThree(es);
    assert es[..4][..3] == es[..3];
  }

  /** Then 3-5 is kept, joining all five vertices, and 4-5 closes a cycle. */
  lemma SampleLastTwo(es: seq<Edge>)
    requires es == SampleEdges
    ensures Kruskal.Kruskal(5, es[..5]) == Forest([es[0], es[1], es[3], es[4]], [0, 1, 1, 1, 1, 1])
    ensures Kruskal.Kruskal(5, es) == Forest([es[0], es[1], es[3], es[4]], [0, 1, 1, 1, 1, 1])
  {
    SampleFourth(es);
    assert es[..5][..4] == es[..4];
    assert es[..5] == es[..|es| - 1];
  }

  /**
   * Over the first n edges by weight Kruskal keeps fewer than four edges
   * while n < 5, and from n = 5 on the tree 2-3, 1-2, 2-4, 3-5.
   */
  lemma SamplePrefixTree(es: seq<Edge>, n: int)
    requires es == SampleEdges && 0 <= n <= 6
    ensures n < 5 ==> |Kruskal.Kruskal(5, es[..n]).tree| < 4
    ensures 5 <= n ==> Kruskal.Kruskal(5, es[..n]).tree == [Edge(2, 3, 1), Edge(1, 2, 2), Edge(2, 4, 4), Edge(3, 5, 5)]
  {
    if n == 0 {
      assert es[..n] == [];
    } else if n < 4 {
      SampleFirstThree(es);
    } else if n == 4 {
      SampleFourth(es);
    } else {
      SampleLastTwo(es);
      assert n == 6 ==> es[..n] == es;
    }
  }

  /** The weights 1, 2, 4 and 5 of the sample tree sum to 12. */
  lemma SampleTreeWeight(t: seq<Edge>)
    requires t == [Edge(2, 3, 1), Edge(1, 2, 2), Edge(2, 4, 4), Edge(3, 5, 5)]
    ensures TotalWeight(t) == 12
  {
    var t1, t2, t3 := t[..1], t[..2], t[..3];
    assert t1[..0] == [] && t2[..1] == t1 && t3[..2] == t2 && t[..3] == t3;
    assert TotalWeight(t1) == TotalWeight([]) + 1 == 1;
    assert TotalWeight(t2) == TotalWeight(t1) + 2 == 3;
    assert TotalWeight(t3) == TotalWeight(t2) + 4 == 7;
  }

  /**
   * On the sample graph, which meets MstKruskal's requirements, a run with
   * V = 5 and E = 6 that ends as MstKruskal promises keeps 2-3, 1-2, 2-4
   * and 3-5, and the tree weighs 12.
   */
  lemma KruskalSample(edge: seq<Edge>, order: seq<int>, mst: seq<Edge>)
    requires |edge| == 7 && edge[1..] == SampleInput
    requires multiset(order) <= multiset(Ids(6)) && forall k :: 0 <= k < |order| ==> 1 <= order[k] <= 6
    requires SortedByWeight(EdgesAt(edge, order)) && Greedy(edge, 6, order)
    requires EndpointsIn(5, EdgesAt(edge, order)) && mst == Kruskal.Kruskal(5, EdgesAt(edge, order)).tree && |mst| == 4
    ensures EndpointsIn(5, edge[1..]) && Connected(5, edge[1..])
    ensures mst == [Edge(2, 3, 1), Edge(1, 2, 2), Edge(2, 4, 4), Edge(3, 5, 5)] && TotalWeight(mst) == 12
  {
    SampleConnected();
    NoRepeats(order, 6);
    DrawnPrefix(edge, order);
    SamplePrefixTree(SampleEdges, |order|);
    SampleTreeWeight(mst);
  }
}
