/**
 * Kruskal's algorithm (class `Graph` of Kruskal.java): edges come off the
 * edge heap lightest first, and an edge is kept when its endpoints lie in
 * different sets of the disjoint-set forest, whose sets are then merged.
 *
 * The reference it is proved against is `Kruskal`, the same selection over a
 * given sequence of edges with each set named by a label shared by its
 * members (merging two sets relabels one of them).
 */
module Kruskal {
  import opened Edges
  import opened HeapOrder
  import opened UnionFind
  import opened EdgeHeaps

  /** The edges selected so far, and a label per vertex 0..V naming its set. */
  datatype Forest = Forest(tree: seq<Edge>, labels: seq<int>)

  /** Every vertex 0..V labelled by itself: singleton sets. */
  function Singletons(V: int): (lab: seq<int>)
    requires 0 <= V
    ensures |lab| == V + 1 && forall y :: 0 <= y <= V ==> lab[y] == y
  {
    seq(V + 1, y => y)
  }

  /**
   * Kruskal's selection over the edges `es` taken in the given order: an
   * edge is kept when its endpoints carry different labels, and then every
   * vertex labelled like its v end takes the label of its u end.
   */
  function Kruskal(V: int, es: seq<Edge>): (f: Forest)
    requires 0 <= V && EndpointsIn(V, es)
    ensures |f.labels| == V + 1
    decreases |es|
  {
    if es == [] then Forest([], Singletons(V))
    else
      var f := Kruskal(V, es[..|es| - 1]);
      var e := es[|es| - 1];
      if f.labels[e.u] != f.labels[e.v] then
        Forest(f.tree + [e], Relabel(f.labels, f.labels[e.v], f.labels[e.u], |f.labels|))
      else f
  }

  /** The labels in use among the vertices 1..V: one per set. */
  ghost function LabelSet(lab: seq<int>, V: int): set<int>
    requires |lab| == V + 1
  {
    set y | 1 <= y <= V :: lab[y]
  }

  /** Non-decreasing edge weights. */
  ghost predicate SortedByWeight(es: seq<Edge>)
  {
    forall j, k :: 0 <= j < k < |es| ==> es[j].wgt <= es[k].wgt
  }

  /** The edges of `edge` at the given indices, in order. */
  function EdgesAt(edge: seq<Edge>, order: seq<int>): (es: seq<Edge>)
    requires forall k :: 0 <= k < |order| ==> 0 <= order[k] < |edge|
    ensures |es| == |order| && forall k :: 0 <= k < |order| ==> es[k] == edge[order[k]]
  {
    seq(|order|, k requires 0 <= k < |order| => edge[order[k]])
  }

  /** The sum of the weights of es. */
  function TotalWeight(es: seq<Edge>): int
  {
    if es == [] then 0 else TotalWeight(es[..|es| - 1]) + es[|es| - 1].wgt
  }

  /** Two vertices share a root of the forest R iff they share a label. */
  ghost predicate SameSets(R: seq<int>, lab: seq<int>)
  {
    |R| == |lab| &&
    forall y, z :: 0 <= y < |R| && 0 <= z < |R| ==> (R[y] == R[z] <==> lab[y] == lab[z])
  }

  /** Relabelling one class as another keeps labels that were equal equal. */
  lemma RelabelKeepsEqual(lab: seq<int>, from: int, to: int, y: int, z: int)
    requires 0 <= y < |lab| && 0 <= z < |lab| && lab[y] == lab[z]
    ensures Relabel(lab, from, to, |lab|)[y] == Relabel(lab, from, to, |lab|)[z]
  {
  }

  /** Merging two different sets retires exactly the label of one of them. */
  lemma RelabelLabelSet(lab: seq<int>, V: int, a: int, b: int)
    requires |lab| == V + 1 && 1 <= a <= V && 1 <= b <= V && lab[a] != lab[b]
    ensures LabelSet(Relabel(lab, lab[b], lab[a], |lab|), V) == LabelSet(lab, V) - {lab[b]}
  {
    var lab' := Relabel(lab, lab[b], lab[a], |lab|);
    forall x | x in LabelSet(lab, V) - {lab[b]}
      ensures x in LabelSet(lab', V)
    {
      var y :| 1 <= y <= V && lab[y] == x;
      assert lab'[y] == x;
    }
    forall x | x in LabelSet(lab', V)
      ensures x in LabelSet(lab, V) - {lab[b]}
    {
      var y :| 1 <= y <= V && lab'[y] == x;
      if lab[y] == lab[b] {
        assert x == lab[a];
      }
    }
  }

  lemma SingletonLabelSet(V: int)
    requires 0 <= V
    ensures |LabelSet(Singletons(V), V)| == V
  {
    RangeMembers(1, V + 1);
    RangeCard(1, V + 1);
    forall x | x in Range(1, V + 1)
      ensures x in LabelSet(Singletons(V), V)
    {
      assert Singletons(V)[x] == x;
    }
    assert LabelSet(Singletons(V), V) == Range(1, V + 1);
  }

  /** Each kept edge merges two sets: the sets among 1..V number V less the kept edges. */
  lemma {:induction false} KruskalCount(V: int, es: seq<Edge>)
    requires 0 <= V && EndpointsIn(V, es)
    ensures |LabelSet(Kruskal(V, es).labels, V)| == V - |Kruskal(V, es).tree|
    decreases |es|
  {
    if es == [] {
      SingletonLabelSet(V);
    } else {
      var f := Kruskal(V, es[..|es| - 1]);
      var e := es[|es| - 1];
      KruskalCount(V, es[..|es| - 1]);
      if f.labels[e.u] != f.labels[e.v] {
        RelabelLabelSet(f.labels, V, e.u, e.v);
      }
    }
  }

  /** After the selection, both endpoints of every edge seen carry one label. */
  lemma {:induction false} LabelsClosed(V: int, es: seq<Edge>)
    requires 0 <= V && EndpointsIn(V, es)
    ensures forall i :: 0 <= i < |es| ==>
      Kruskal(V, es).labels[es[i].u] == Kruskal(V, es).labels[es[i].v]
    decreases |es|
  {
    if es != [] {
      var es' := es[..|es| - 1];
      var f := Kruskal(V, es');
      var e := es[|es| - 1];
      LabelsClosed(V, es');
      if f.labels[e.u] != f.labels[e.v] {
        forall i | 0 <= i < |es|
          ensures Kruskal(V, es).labels[es[i].u] == Kruskal(V, es).labels[es[i].v]
        {
          if i < |es'| {
            assert es'[i] == es[i];
            RelabelKeepsEqual(f.labels, f.labels[e.v], f.labels[e.u], es[i].u, es[i].v);
          }
        }
      }
    }
  }

  lemma ClosedPrefix(S: set<int>, es: seq<Edge>, e: Edge)
    requires Closed(S, es + [e])
    ensures Closed(S, es) && (e.u in S <==> e.v in S)
  {
    assert (es + [e])[|es|] == e;
    forall i | 0 <= i < |es|
      ensures es[i].u in S <==> es[i].v in S
    {
      assert (es + [e])[i] == es[i];
    }
  }

  /**
   * Vertices sharing a label are joined by the kept edges: a set closed
   * under the tree that holds one of them holds the other.
   */
  lemma {:induction false} LabelsConnect(V: int, es: seq<Edge>, S: set<int>, y: int, z: int)
    requires 0 <= V && EndpointsIn(V, es) && 0 <= y <= V && 0 <= z <= V
    requires Kruskal(V, es).labels[y] == Kruskal(V, es).labels[z]
    requires Closed(S, Kruskal(V, es).tree) && y in S
    ensures z in S
    decreases |es|
  {
    if es != [] {
      var es' := es[..|es| - 1];
      var f := Kruskal(V, es');
      var e := es[|es| - 1];
      var lab := f.labels;
      if lab[e.u] == lab[e.v] {
        LabelsConnect(V, es', S, y, z);
      } else {
        ClosedPrefix(S, f.tree, e);
        var from := lab[e.v];
        if lab[y] == lab[z] {
          LabelsConnect(V, es', S, y, z);
        } else if lab[y] == from {
          LabelsConnect(V, es', S, y, e.v);
          LabelsConnect(V, es', S, e.u, z);
        } else {
          LabelsConnect(V, es', S, y, e.u);
          LabelsConnect(V, es', S, e.v, z);
        }
      }
    }
  }

  lemma OneLabel(V: int, lab: seq<int>)
    requires 1 <= V && |lab| == V + 1 && |LabelSet(lab, V)| == 1
    ensures forall v :: 1 <= v <= V ==> lab[v] == lab[1]
  {
    var L := LabelSet(lab, V);
    forall v | 1 <= v <= V
      ensures lab[v] == lab[1]
    {
      assert lab[1] in L && lab[v] in L;
      assert |L - {lab[1]}| == 0;
      assert lab[v] !in L - {lab[1]};
    }
  }

  /** Once V-1 edges are kept, they connect all V vertices: a spanning tree. */
  lemma KruskalSpans(V: int, es: seq<Edge>)
    requires 1 <= V && EndpointsIn(V, es) && |Kruskal(V, es).tree| == V - 1
    ensures Connected(V, Kruskal(V, es).tree)
  {
    var f := Kruskal(V, es);
    KruskalCount(V, es);
    OneLabel(V, f.labels);
    forall S: set<int> | 1 in S && Closed(S, f.tree)
      ensures forall v :: 1 <= v <= V ==> v in S
    {
      forall v | 1 <= v <= V
        ensures v in S
      {
        LabelsConnect(V, es, S, 1, v);
      }
    }
  }

  /** When every vertex 1..V carries the label of vertex 1, that is the one label in use. */
  lemma SharedLabel(V: int, lab: seq<int>)
    requires 1 <= V && |lab| == V + 1 && forall y :: 1 <= y <= V ==> lab[y] == lab[1]
    ensures LabelSet(lab, V) == {lab[1]}
  {
    forall x | x in LabelSet(lab, V)
      ensures x == lab[1]
    {
      var y :| 1 <= y <= V && lab[y] == x;
    }
    assert lab[1] in LabelSet(lab, V);
  }

  /**
   * When the edges seen include every edge of a connected graph g, the
   * selection has kept V-1 of them.
   */
  lemma AllEdgesMerge(V: int, es: seq<Edge>, g: seq<Edge>)
    requires 1 <= V && EndpointsIn(V, es) && Connected(V, g)
    requires forall i :: 0 <= i < |g| ==> g[i] in es
    ensures |Kruskal(V, es).tree| == V - 1
  {
    var lab := Kruskal(V, es).labels;
    LabelsClosed(V, es);
    var S := set y | 0 <= y <= V && lab[y] == lab[1];
    forall i | 0 <= i < |g|
      ensures g[i].u in S <==> g[i].v in S
    {
      assert g[i] in es;
      var k :| 0 <= k < |es| && es[k] == g[i];
    }
    assert 1 in S && Closed(S, g);
    forall y | 1 <= y <= V
      ensures lab[y] == lab[1]
    {
      assert y in S;
    }
    SharedLabel(V, lab);
    KruskalCount(V, es);
  }

  /** The kept edges are edges of es, in the order of es. */
  lemma {:induction false} KruskalTreeSorted(V: int, es: seq<Edge>)
    requires 0 <= V && EndpointsIn(V, es)
    ensures forall t :: t in Kruskal(V, es).tree ==> t in es
    ensures SortedByWeight(es) ==> SortedByWeight(Kruskal(V, es).tree)
    decreases |es|
  {
    if es != [] {
      var es' := es[..|es| - 1];
      var e := es[|es| - 1];
      KruskalTreeSorted(V, es');
      var tree := Kruskal(V, es').tree;
      forall t | t in tree
        ensures t in es && (SortedByWeight(es) ==> t.wgt <= e.wgt)
      {
        var j :| 0 <= j < |es'| && es'[j] == t;
        assert es[j] == t;
      }
    }
  }

  /** Merging two sets of the forest and relabelling one class of the labels keep the two in step. */
  lemma MergeKeepsSameSets(R: seq<int>, R': seq<int>, lab: seq<int>, a: int, b: int, w: int)
    requires SameSets(R, lab) && Merged(R, R', a, b, w)
    ensures SameSets(R', Relabel(lab, lab[b], lab[a], |lab|))
  {
  }

  /** With every edge index 1..E taken, every edge of the graph has been seen. */
  lemma OrderCoversAll(edge: seq<Edge>, order: seq<int>, E: int)
    requires 0 <= E && |edge| == E + 1 && multiset(order) == multiset(Ids(E))
    requires forall k :: 0 <= k < |order| ==> 0 <= order[k] < |edge|
    ensures forall i :: 0 <= i < E ==> edge[1..][i] in EdgesAt(edge, order)
  {
    forall i | 0 <= i < E
      ensures edge[1..][i] in EdgesAt(edge, order)
    {
      assert Ids(E)[i] == i + 1 && i + 1 in multiset(Ids(E));
      assert i + 1 in order;
      var k :| 0 <= k < |order| && order[k] == i + 1;
      assert EdgesAt(edge, order)[k] == edge[1..][i];
    }
  }

  /** The edges at the given indices come by non-decreasing weight, each pair of neighbours in turn. */
  ghost predicate Ascending(edge: seq<Edge>, order: seq<int>)
    requires forall k :: 0 <= k < |order| ==> 0 <= order[k] < |edge|
    decreases |order|
  {
    |order| <= 1 ||
    (Ascending(edge, order[..|order| - 1]) && edge[order[|order| - 2]].wgt <= edge[order[|order| - 1]].wgt)
  }

  /** Of two indices in an ascending order, the earlier one is no heavier. */
  lemma {:induction false} AscendingWeights(edge: seq<Edge>, order: seq<int>, j: int, k: int)
    requires forall k :: 0 <= k < |order| ==> 0 <= order[k] < |edge|
    requires Ascending(edge, order) && 0 <= j <= k < |order|
    ensures edge[order[j]].wgt <= edge[order[k]].wgt
    decreases |order|
  {
    var p := order[..|order| - 1];
    if k < |order| - 1 {
      AscendingWeights(edge, p, j, k);
    } else if j < k {
      AscendingWeights(edge, p, j, k - 1);
    }
  }

  /** An index no lighter than the last one extends an ascending order. */
  lemma AscendingStep(edge: seq<Edge>, order: seq<int>, r: int)
    requires forall k :: 0 <= k < |order| ==> 0 <= order[k] < |edge|
    requires Ascending(edge, order) && 0 <= r < |edge|
    requires |order| > 0 ==> edge[order[|order| - 1]].wgt <= edge[r].wgt
    ensures Ascending(edge, order + [r])
  {
    assert (order + [r])[..|order|] == order;
  }

  /**
   * The edge indices drawn from the heap so far, `order`, and those still in
   * it, `C`, are together the indices 1..E; they were drawn by non-decreasing
   * weight, and the last one is no heavier than any still in the heap.
   */
  ghost predicate Drawn(edge: seq<Edge>, E: int, order: seq<int>, C: multiset<int>)
  {
    |edge| == E + 1 && 0 <= E &&
    multiset(order) + C == multiset(Ids(E)) &&
    (forall k :: 0 <= k < |order| ==> 1 <= order[k] <= E) &&
    Ascending(edge, order) &&
    (|order| > 0 ==> forall x {:trigger C[x]} :: x in C && 0 <= x < |edge| ==> edge[order[|order| - 1]].wgt <= edge[x].wgt)
  }

  /** Every index drawn is no heavier than any index 1..E never drawn. */
  ghost predicate Greedy(edge: seq<Edge>, E: int, order: seq<int>)
    requires |edge| == E + 1 && forall k :: 0 <= k < |order| ==> 1 <= order[k] <= E
  {
    forall k, x :: 0 <= k < |order| && 1 <= x <= E && x !in order ==> edge[order[k]].wgt <= edge[x].wgt
  }

  /**
   * The heap hands out the lightest index it holds: every index drawn is no
   * heavier than any index 1..E that was never drawn.
   */
  lemma DrawnGreedy(edge: seq<Edge>, E: int, order: seq<int>, C: multiset<int>)
    requires Drawn(edge, E, order, C)
    ensures Greedy(edge, E, order)
  {
    forall k, x | 0 <= k < |order| && 1 <= x <= E && x !in order
      ensures edge[order[k]].wgt <= edge[x].wgt
    {
      assert Ids(E)[x - 1] == x;
      assert x in multiset(Ids(E)) && x !in multiset(order);
      assert (multiset(order) + C)[x] == C[x];
      AscendingWeights(edge, order, k, |order| - 1);
    }
  }

  /** The indices 1..n are the members of Ids(n). */
  lemma IdsRange(n: int, x: int)
    requires x in multiset(Ids(n))
    ensures 1 <= x <= n
  {
    var i :| 0 <= i < |Ids(n)| && Ids(n)[i] == x;
  }

  /** Drawing a lightest index r from the heap extends the drawn order by r. */
  lemma DrawnStep(edge: seq<Edge>, E: int, order: seq<int>, C: multiset<int>, r: int, C': multiset<int>)
    requires Drawn(edge, E, order, C) && C == C' + multiset{r} && 0 <= r < |edge|
    requires forall x :: x in C && 0 <= x < |edge| ==> edge[r].wgt <= edge[x].wgt
    ensures 1 <= r <= E && Drawn(edge, E, order + [r], C')
  {
    assert r in C;
    DrawnMembers(order, C, E, r);
    IdsRange(E, r);
    var o := order + [r];
    MovedToOrder(order, r, C, C');
    forall k | 0 <= k < |o|
      ensures 1 <= o[k] <= E
    {
      if k < |order| {
        assert o[k] == order[k];
      }
    }
    AscendingStep(edge, order, r);
    forall x | x in C' && 0 <= x < |edge|
      ensures edge[r].wgt <= edge[x].wgt
    {
      assert x in C;
    }
  }

  /** A member of the heap is one of the indices 1..E. */
  lemma DrawnMembers(order: seq<int>, C: multiset<int>, E: int, r: int)
    requires multiset(order) + C == multiset(Ids(E)) && r in C
    ensures r in multiset(Ids(E))
  {
  }

  /** Moving r from the heap's multiset to the end of the order keeps their union. */
  lemma MovedToOrder(order: seq<int>, r: int, C: multiset<int>, C': multiset<int>)
    requires C == C' + multiset{r}
    ensures multiset(order + [r]) + C' == multiset(order) + C
  {
    assert multiset(order + [r]) == multiset(order) + multiset{r};
  }

  /** The drawn edges are sorted by weight. */
  lemma DrawnSorted(edge: seq<Edge>, E: int, order: seq<int>, C: multiset<int>)
    requires Drawn(edge, E, order, C)
    ensures SortedByWeight(EdgesAt(edge, order))
  {
    forall j, k | 0 <= j < k < |order|
      ensures EdgesAt(edge, order)[j].wgt <= EdgesAt(edge, order)[k].wgt
    {
      AscendingWeights(edge, order, j, k);
    }
  }

  /**
   * The disjoint-set forest with roots R follows the reference selection
   * over the drawn edges: it has kept `tree`, and two vertices share a root
   * iff they share a label.
   */
  ghost predicate Tracks(V: int, edge: seq<Edge>, order: seq<int>, R: seq<int>, tree: seq<Edge>)
  {
    0 <= V &&
    (forall k :: 0 <= k < |order| ==> 0 <= order[k] < |edge|) &&
    EndpointsIn(V, EdgesAt(edge, order)) &&
    Kruskal(V, EdgesAt(edge, order)).tree == tree &&
    SameSets(R, Kruskal(V, EdgesAt(edge, order)).labels)
  }

  /**
   * Drawing edge r: its endpoints share a root iff they share a label; if
   * they do, nothing changes; if not, merging their sets in the forest (under
   * either root w) keeps the forest following the selection, which keeps r.
   */
  lemma TracksStep(V: int, edge: seq<Edge>, order: seq<int>, r: int, R: seq<int>, R': seq<int>, tree: seq<Edge>,
                   a: int, b: int, w: int)
    requires Tracks(V, edge, order, R, tree) && 0 <= r < |edge|
    requires 1 <= edge[r].u <= V && 1 <= edge[r].v <= V
    requires 0 <= a <= V && 0 <= b <= V && R[a] == R[edge[r].u] && R[b] == R[edge[r].v]
    ensures R[a] == R[b] ==> Tracks(V, edge, order + [r], R, tree)
    ensures R[a] != R[b] && Merged(R, R', a, b, w) ==>
      Tracks(V, edge, order + [r], R', tree + [edge[r]])
  {
    var es := EdgesAt(edge, order);
    var es' := EdgesAt(edge, order + [r]);
    assert es'[..|es|] == es && es'[|es|] == edge[r];
    assert EndpointsIn(V, es');
    var f := Kruskal(V, es);
    var e := edge[r];
    assert f.labels[a] == f.labels[e.u] && f.labels[b] == f.labels[e.v];
    if R[a] != R[b] && Merged(R, R', a, b, w) {
      MergeKeepsSameSets(R, R', f.labels, a, b, w);
    }
  }

  /** Before the loop nothing is drawn: the heap holds 1..E and the forest has singleton sets. */
  lemma KruskalStart(V: int, E: int, edge: seq<Edge>, C: multiset<int>, R: seq<int>)
    requires 0 <= V && 0 <= E && |edge| == E + 1 && C == multiset(Ids(E))
    requires |R| == V + 1 && forall y :: 0 <= y <= V ==> R[y] == y
    ensures Drawn(edge, E, [], C) && Tracks(V, edge, [], R, [])
  {
    assert EdgesAt(edge, []) == [];
  }

  /**
   * When the loop stops with V-1 edges kept, those edges are the reference
   * selection over the edges drawn by non-decreasing weight, they are graph
   * edges, and they connect all V vertices.
   */
  lemma KruskalDone(V: int, E: int, edge: seq<Edge>, order: seq<int>, C: multiset<int>, R: seq<int>,
                    tree: seq<Edge>)
    requires 1 <= V && Drawn(edge, E, order, C) && Tracks(V, edge, order, R, tree) && |tree| == V - 1
    ensures multiset(order) <= multiset(Ids(E))
    ensures forall k :: 0 <= k < |order| ==> 1 <= order[k] <= E
    ensures SortedByWeight(EdgesAt(edge, order))
    ensures EndpointsIn(V, EdgesAt(edge, order)) && tree == Kruskal(V, EdgesAt(edge, order)).tree
    ensures forall t :: t in tree ==> t in edge[1..]
    ensures SortedByWeight(tree) && Connected(V, tree)
  {
    DrawnSorted(edge, E, order, C);
    TreeEdgesDrawn(V, edge, order);
    KruskalSpans(V, EdgesAt(edge, order));
    KruskalTreeSorted(V, EdgesAt(edge, order));
  }

  /** An array that agrees with a sequence of its length at every slot holds that sequence. */
  lemma Filled<T>(m: array<T>, t: seq<T>)
    requires m.Length == |t| && forall j :: 0 <= j < |t| ==> m[j] == t[j]
    ensures m[..] == t
  {
  }

  class Graph {
    const V: int
    const E: int
    /** Edge slots 1..E; slot 0 is unused. */
    const edge: seq<Edge>
    var mst: array<Edge>

    /** A graph handed over in memory by the loader. */
    constructor (V: int, E: int, edges: seq<Edge>)
      requires 0 <= E && |edges| == E + 1
      ensures this.V == V && this.E == E && edge == edges
    {
      this.V, this.E, edge := V, E, edges;
      mst := new Edge[0];
    }

    /** The heap's part of the loop state: a valid heap over `edge` holding the indices C. */
    ghost predicate HeapHolds(h: EdgeHeap, C: multiset<int>)
      reads h, h.a
    {
      h.Valid() && h.edge == edge && h.Nmax == E && h.Contents() == C
    }

    /** The forest's part of the loop state: a valid forest over 0..V with roots R. */
    ghost predicate ForestHolds(partition: UnionFindSets, R: seq<int>)
      reads partition, partition.treeParent, partition.rank
    {
      partition.Valid() && partition.N == V && partition.RootsOf() == R
    }

    /**
     * `e = h.edge[h.remove()]`: the lightest index r comes off a heap that
     * is not empty, and extends the drawn order.
     */
    method Draw(h: EdgeHeap, ghost order: seq<int>, ghost C: multiset<int>)
      returns (e: Edge, r: int, ghost C': multiset<int>)
      requires HeapHolds(h, C) && Drawn(edge, E, order, C) && C != multiset{}
      modifies h`N, h.a
      ensures HeapHolds(h, C') && Drawn(edge, E, order + [r], C')
      ensures 1 <= r <= E && e == edge[r] && h.N < old(h.N)
    {
      assert |C| == h.N;
      r := h.Remove();
      C' := h.Contents();
      DrawnStep(edge, E, order, C, r, C');
      e := h.edge[r];
    }

    /** `mst[i++] = e`: the selection so far grows by e. */
    method Store(i: int, e: Edge, ghost tree: seq<Edge>) returns (ghost tree': seq<Edge>)
      requires 0 <= i == |tree| < mst.Length
      requires forall j :: 0 <= j < i ==> mst[j] == tree[j]
      modifies mst
      ensures tree' == tree + [e] && forall j :: 0 <= j <= i ==> mst[j] == tree'[j]
    {
      mst[i] := e;
      tree' := tree + [e];
    }

    /**
     * The roots of the endpoints of e are found, and if they differ the two
     * sets are united and e is stored as mst[i], the next edge of the tree:
     * the forest and mst follow the reference selection one edge further.
     */
    method Join(partition: UnionFindSets, e: Edge, i: int, ghost order: seq<int>, ghost r: int, ghost R: seq<int>,
                ghost tree: seq<Edge>)
      returns (i': int, ghost R': seq<int>, ghost tree': seq<Edge>)
      requires ForestHolds(partition, R) && Tracks(V, edge, order, R, tree)
      requires 0 <= r < |edge| && e == edge[r] && 1 <= e.u <= V && 1 <= e.v <= V
      requires 0 <= i == |tree| < mst.Length && forall j :: 0 <= j < i ==> mst[j] == tree[j]
      modifies partition.treeParent, partition.rank, mst
      ensures ForestHolds(partition, R') && Tracks(V, edge, order + [r], R', tree')
      ensures i <= i' <= i + 1 && i' == |tree'| && forall j :: 0 <= j < i' ==> mst[j] == tree'[j]
    {
      var uSet := partition.FindSet(e.u);
      var vSet := partition.FindSet(e.v);
      assert uSet == R[e.u] && vSet == R[e.v] && R[uSet] == uSet && R[vSet] == vSet;
      if uSet != vSet {
        partition.UnionByRank(uSet, vSet);
        R' := partition.RootsOf();
        TracksStep(V, edge, order, r, R, R', tree, uSet, vSet, R'[uSet]);
        tree' := Store(i, e, tree);
        i' := i + 1;
      } else {
        R', tree', i' := R, tree, i;
        TracksStep(V, edge, order, r, R, R, tree, uSet, vSet, 0);
      }
    }

    /**
     * The state of the main loop of MST_Kruskal after i edges are kept: the
     * heap holds the indices not yet drawn, the forest follows the reference
     * selection over the drawn edges, and mst[0..i-1] is that selection.
     */
    ghost predicate Progress(h: EdgeHeap, partition: UnionFindSets, i: int, order: seq<int>, C: multiset<int>,
                             R: seq<int>, tree: seq<Edge>)
      reads this, mst, h, h.a, partition, partition.treeParent, partition.rank
    {
      mst.Length == V - 1 && h.a != partition.treeParent && h.a != partition.rank &&
      HeapHolds(h, C) && ForestHolds(partition, R) &&
      0 <= i <= V - 1 && |tree| == i && (forall j :: 0 <= j < i ==> mst[j] == tree[j]) &&
      Drawn(edge, E, order, C) && Tracks(V, edge, order, R, tree)
    }

    /**
     * One pass of the loop of MST_Kruskal: draw the lightest edge and keep it
     * if it joins two sets.  While the selection has fewer than V-1 edges the
     * heap is not empty, since the graph is connected.
     */
    method Round(h: EdgeHeap, partition: UnionFindSets, i: int, ghost order: seq<int>, ghost C: multiset<int>,
                 ghost R: seq<int>, ghost tree: seq<Edge>)
      returns (i': int, ghost order': seq<int>, ghost C': multiset<int>, ghost R': seq<int>, ghost tree': seq<Edge>)
      requires 1 <= V && 0 <= E && |edge| == E + 1 && EndpointsIn(V, edge[1..]) && Connected(V, edge[1..])
      requires Progress(h, partition, i, order, C, R, tree) && i < V - 1
      modifies h`N, h.a, partition.treeParent, partition.rank, mst
      ensures Progress(h, partition, i', order', C', R', tree') && h.N < old(h.N)
    {
      var e, r;
      EdgesLeft(V, E, edge, order, C, R, tree);
      e, r, C' := Draw(h, order, C);
      assert edge[1..][r - 1] == e;
      order' := order + [r];
      i', R', tree' := Join(partition, e, i, order, r, R, tree);
    }

    /**
     * The main loop of MST_Kruskal: rounds are run until V-1 edges are kept.
     * The heap shrinks every round, and while fewer than V-1 edges are kept
     * it is not empty, since the graph is connected.
     */
    method Loop(h: EdgeHeap, partition: UnionFindSets, ghost C: multiset<int>, ghost R: seq<int>)
      returns (ghost order: seq<int>, ghost C': multiset<int>, ghost R': seq<int>, ghost tree: seq<Edge>)
      requires 1 <= V && 0 <= E && |edge| == E + 1 && EndpointsIn(V, edge[1..]) && Connected(V, edge[1..])
      requires Progress(h, partition, 0, [], C, R, [])
      modifies h`N, h.a, partition.treeParent, partition.rank, mst
      ensures Progress(h, partition, V - 1, order, C', R', tree)
    {
      var i := 0;
      order, C', R', tree := [], C, R, [];
      while i < V - 1
        invariant Progress(h, partition, i, order, C', R', tree)
        decreases h.N
      {
        i, order, C', R', tree := Round(h, partition, i, order, C', R', tree);
      }
    }

    /**
     * The start of MST_Kruskal: a heap holding every edge index 1..E and a
     * forest of singleton sets over the vertices 0..V.
     */
    method Setup() returns (h: EdgeHeap, partition: UnionFindSets, ghost C: multiset<int>, ghost R: seq<int>)
      requires 1 <= V && 0 <= E && |edge| == E + 1
      ensures fresh(h) && fresh(h.a) && fresh(partition) && fresh(partition.treeParent) && fresh(partition.rank)
      ensures HeapHolds(h, C) && ForestHolds(partition, R) && h.a != partition.treeParent && h.a != partition.rank
      ensures Drawn(edge, E, [], C) && Tracks(V, edge, [], R, [])
    {
      h := new EdgeHeap(E, edge);
      partition := new UnionFindSets(V);
      C, R := h.Contents(), partition.RootsOf();
      KruskalStart(V, E, edge, C, R);
    }

    /**
     * Kruskal's algorithm.  The edge indices come off the heap in the ghost
     * `order`: without repeats, by non-decreasing weight, and none heavier
     * than an index left undrawn.  `mst` is the reference selection over
     * those edges; it holds V-1 graph edges by non-decreasing weight that
     * connect all V vertices: a spanning tree.
     */
    method MstKruskal() returns (ghost order: seq<int>)
      requires 1 <= V && 0 <= E && |edge| == E + 1
      requires EndpointsIn(V, edge[1..]) && Connected(V, edge[1..])
      modifies this`mst
      ensures fresh(mst) && mst.Length == V - 1
      ensures multiset(order) <= multiset(Ids(E))
      ensures forall k :: 0 <= k < |order| ==> 1 <= order[k] <= E
      ensures SortedByWeight(EdgesAt(edge, order))
      ensures Greedy(edge, E, order)
      ensures EndpointsIn(V, EdgesAt(edge, order)) && mst[..] == Kruskal(V, EdgesAt(edge, order)).tree
      ensures forall t :: t in mst[..] ==> t in edge[1..]
      ensures SortedByWeight(mst[..]) && Connected(V, mst[..])
    {
      mst := new Edge[V - 1];
      var h, partition;
      ghost var C, R, tree;
      h, partition, C, R := Setup();
      order, C, R, tree := Loop(h, partition, C, R);
      Filled(mst, tree);
      KruskalDone(V, E, edge, order, C, R, mst[..]);
      DrawnGreedy(edge, E, order, C);
    }

    /** The weight of the tree that `showMST` reports: the sum of the weights of mst[0..V-2]. */
    method MstWeight() returns (sum: int)
      requires 0 <= V - 1 <= mst.Length
      ensures sum == TotalWeight(mst[..V - 1])
    {
      sum := 0;
      var e := 0;
      while e < V - 1
        invariant 0 <= e <= V - 1
        invariant sum == TotalWeight(mst[..e])
      {
        assert mst[..e + 1][..e] == mst[..e];
        sum := sum + mst[e].wgt;
        e := e + 1;
      }
    }
  }

  /** The edges kept from the drawn indices 1..E are edges of the graph. */
  lemma TreeEdgesDrawn(V: int, edge: seq<Edge>, order: seq<int>)
    requires 0 <= V && |edge| >= 1 && forall k :: 0 <= k < |order| ==> 1 <= order[k] < |edge|
    requires EndpointsIn(V, EdgesAt(edge, order))
    ensures forall t :: t in Kruskal(V, EdgesAt(edge, order)).tree ==> t in edge[1..]
  {
    KruskalTreeSorted(V, EdgesAt(edge, order));
    forall t | t in EdgesAt(edge, order)
      ensures t in edge[1..]
    {
      var k :| 0 <= k < |order| && EdgesAt(edge, order)[k] == t;
      assert edge[1..][order[k] - 1] == t;
    }
  }

  /**
   * While fewer than V-1 edges are kept and the graph is connected, the heap
   * still holds an edge: were it empty, every edge would have been seen.
   */
  lemma EdgesLeft(V: int, E: int, edge: seq<Edge>, order: seq<int>, rest: multiset<int>, R: seq<int>, tree: seq<Edge>)
    requires 1 <= V && Drawn(edge, E, order, rest) && Tracks(V, edge, order, R, tree) && |tree| < V - 1
    requires Connected(V, edge[1..])
    ensures rest != multiset{}
  {
    if rest == multiset{} {
      OrderCoversAll(edge, order, E);
      AllEdgesMerge(V, EdgesAt(edge, order), edge[1..]);
    }
  }
}
