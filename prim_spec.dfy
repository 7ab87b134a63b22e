/**
 * What a run of Prim's algorithm keeps true (the class `GraphLists` of
 * PrimLists.java is in module Prim), and the lemmas that carry it from one
 * step to the next.
 *
 * The state of a run is described over sequences: D, P and H stand for the
 * dist, parent and hPos arrays, A and n for the heap's slots and size, `order` for
 * the vertices settled so far, `wts` for the weights that attached them, and
 * `sc` for the arcs x->y already looked at, in the order they were looked at.
 */
module PrimSpec {
  import opened Edges
  import opened HeapOrder
  import opened VertexHeaps
  import opened Adjacency

  /** No vertex occurs twice: each is new when it is appended. */
  ghost predicate Distinct(order: seq<int>)
    decreases |order|
  {
    order == [] || (Distinct(order[..|order| - 1]) && order[|order| - 1] !in order[..|order| - 1])
  }

  /** Vertex v hangs off p, one of the vertices pre, by an arc of weight w out of pre. */
  ghost predicate Attached(L: seq<seq<Node>>, pre: seq<int>, p: int, v: int, w: int)
  {
    Listed(L, pre) && p in pre && Edge(p, v, w) in Done(L, pre)
  }

  /** No arc out of the vertices pre to a vertex outside pre is lighter than w. */
  ghost predicate CutMin(L: seq<seq<Node>>, pre: seq<int>, w: int)
  {
    Listed(L, pre) && forall a :: a in Done(L, pre) && a.v !in pre ==> w <= a.wgt
  }

  /**
   * The tree grown from s: the settled vertices, in the order they were
   * settled, are distinct vertices 1..V starting with s, whose parent is 0;
   * every later one hangs off its parent, settled before it, by a lightest
   * arc out of the vertices settled before it.
   */
  ghost predicate Grown(L: seq<seq<Node>>, V: int, s: int, P: seq<int>, order: seq<int>, wts: seq<int>)
  {
    |L| == V + 1 && |P| == V + 1 && |wts| == |order| && 1 <= s <= V && P[s] == 0 &&
    Distinct(order) && (forall k :: 0 <= k < |order| ==> 1 <= order[k] <= V) &&
    (order != [] ==> order[0] == s && wts[0] == 0) &&
    Attachments(L, P, order, wts)
  }

  /**
   * Every vertex of order after the first hangs off its parent in P,
   * settled before it, by an arc whose weight is its entry in wts and is
   * the lightest out of the vertices settled before it.
   */
  ghost predicate Attachments(L: seq<seq<Node>>, P: seq<int>, order: seq<int>, wts: seq<int>)
    decreases |order|
  {
    |wts| == |order| &&
    (|order| <= 1 ||
     (Attachments(L, P, order[..|order| - 1], wts[..|wts| - 1]) && 0 <= order[|order| - 1] < |P| &&
      Attached(L, order[..|order| - 1], P[order[|order| - 1]], order[|order| - 1], wts[|wts| - 1]) &&
      CutMin(L, order[..|order| - 1], wts[|wts| - 1])))
  }

  /** The attachment of the k-th settled vertex, read off Attachments. */
  lemma {:induction false} AttachmentAt(L: seq<seq<Node>>, P: seq<int>, order: seq<int>, wts: seq<int>, k: int)
    requires Attachments(L, P, order, wts) && 1 <= k < |order| && forall j :: 0 <= j < |order| ==> 0 <= order[j] < |P|
    ensures Attached(L, order[..k], P[order[k]], order[k], wts[k]) && CutMin(L, order[..k], wts[k])
  {
    var n := |order| - 1;
    if k < n {
      var order', wts' := order[..n], wts[..n];
      assert order'[..k] == order[..k] && order'[k] == order[k] && wts'[k] == wts[k];
      AttachmentAt(L, P, order', wts', k);
    }
  }

  /** A new parent for a vertex outside order leaves its attachments as they were. */
  lemma {:induction false} AttachmentsParent(L: seq<seq<Node>>, P: seq<int>, order: seq<int>, wts: seq<int>, u: int, v: int)
    requires Attachments(L, P, order, wts) && 0 <= u < |P| && u !in order
    ensures Attachments(L, P[u := v], order, wts)
  {
    if |order| > 1 {
      var n := |order| - 1;
      assert order[n] != u;
      AttachmentsParent(L, P, order[..n], wts[..n], u, v);
    }
  }

  /** A settled vertex carries the negated weight that attached it, which is at least 0. */
  ghost predicate Settled(V: int, D: seq<int>, order: seq<int>, wts: seq<int>)
  {
    |D| == V + 1 && |wts| == |order| &&
    forall k :: 0 <= k < |order| ==> 1 <= order[k] <= V && D[order[k]] == -wts[k] && 0 <= wts[k]
  }

  /**
   * An unsettled vertex u has dist 0..INF; at INF its parent is 0, and
   * below INF (unless it is the start s) its parent is settled and the arc
   * from the parent with weight dist[u] has been looked at.
   */
  ghost predicate Frontier(V: int, s: int, D: seq<int>, P: seq<int>, order: seq<int>, sc: seq<Edge>)
  {
    |D| == V + 1 && |P| == V + 1 &&
    forall u :: 1 <= u <= V && u !in order ==>
      0 <= D[u] <= INF && (D[u] == INF ==> P[u] == 0) &&
      (D[u] < INF && u != s ==> P[u] in order && Edge(P[u], u, D[u]) in sc)
  }

  /** Every arc looked at leads to a vertex 1..V, and to an unsettled one only if that vertex's dist is no larger. */
  ghost predicate Cut(V: int, D: seq<int>, order: seq<int>, sc: seq<Edge>)
  {
    |D| == V + 1 &&
    forall a :: a in sc ==> 1 <= a.v <= V && (a.v !in order ==> D[a.v] <= a.wgt)
  }

  /**
   * The heap holds vertices 1..V, exactly the unsettled ones whose dist is
   * below INF, and an unsettled vertex outside the heap has hPos 0.
   */
  ghost predicate Resident(V: int, D: seq<int>, H: seq<int>, A: seq<int>, n: int, order: seq<int>)
  {
    |D| == V + 1 && |H| == V + 1 && 0 <= n < |A| &&
    (forall k :: 1 <= k <= n ==> 1 <= A[k] <= V) &&
    (forall u :: 1 <= u <= V ==> (InHeap(A, H, n, u) <==> u !in order && D[u] < INF)) &&
    (forall u :: 1 <= u <= V && u !in order && !InHeap(A, H, n, u) ==> H[u] == 0)
  }

  /** The invariant of a run of MST_Prim. */
  ghost predicate Progress(L: seq<seq<Node>>, V: int, s: int, D: seq<int>, P: seq<int>, H: seq<int>,
                           A: seq<int>, n: int, order: seq<int>, wts: seq<int>, sc: seq<Edge>)
  {
    Graph(L, V) && Grown(L, V, s, P, order, wts) && Settled(V, D, order, wts) &&
    Frontier(V, s, D, P, order, sc) && Cut(V, D, order, sc) && Resident(V, D, H, A, n, order) &&
    (order == [] ==> D[s] == 0 && sc == [])
  }

  /** With the position index in place, the vertices in the heap are the vertices in slots 1..n. */
  lemma InHeapSlot(A: seq<int>, H: seq<int>, n: int, u: int)
    requires 0 <= n < |A| && Indexed(A, H, n)
    ensures InHeap(A, H, n, u) <==> u in multiset(A[1..n + 1])
  {
    SlotOf(A, H, n, u);
  }

  /** The slots after an insertion of u, stated by positions: the heap holds u as well. */
  lemma Added(A0: seq<int>, H0: seq<int>, n0: int, A: seq<int>, H: seq<int>, n: int, u: int)
    requires 0 <= n0 < |A0| && Indexed(A0, H0, n0) && 0 <= n < |A| && Indexed(A, H, n)
    requires multiset(A[1..n + 1]) == multiset(A0[1..n0 + 1]) + multiset{u}
    ensures forall x :: InHeap(A, H, n, x) <==> InHeap(A0, H0, n0, x) || x == u
  {
    forall x
      ensures InHeap(A, H, n, x) <==> InHeap(A0, H0, n0, x) || x == u
    {
      SlotOf(A0, H0, n0, x);
      SlotOf(A, H, n, x);
    }
  }

  /** Slots that hold the same vertices hold them at their recorded positions alike. */
  lemma Moved(A0: seq<int>, H0: seq<int>, A: seq<int>, H: seq<int>, n: int)
    requires Indexed(A0, H0, n) && Indexed(A, H, n) && SameVertices(A0, A, n)
    ensures forall x :: InHeap(A, H, n, x) <==> InHeap(A0, H0, n, x)
  {
    forall x
      ensures InHeap(A, H, n, x) <==> InHeap(A0, H0, n, x)
    {
      SlotOf(A0, H0, n, x);
      SlotOf(A, H, n, x);
    }
  }

  /** The arcs looked at while scanning the list of the last settled vertex, up to node i. */
  ghost predicate Scanning(L: seq<seq<Node>>, order: seq<int>, i: int, sc: seq<Edge>)
  {
    Listed(L, order) && order != [] && 0 <= i <= |L[order[|order| - 1]]| &&
    sc == Done(L, order[..|order| - 1]) + Out(L, order[|order| - 1])[..i]
  }

  /** The sum of the weights. */
  function Sum(ws: seq<int>): int
  {
    if ws == [] then 0 else Sum(ws[..|ws| - 1]) + ws[|ws| - 1]
  }

  /**
   * After the initialisation, dist[s] == 0, every other vertex at INF,
   * every parent and (before s was inserted) every position 0, and the heap
   * holding s alone: the invariant holds with nothing settled or looked at.
   */
  lemma PrimStart(L: seq<seq<Node>>, V: int, s: int, D: seq<int>, P: seq<int>, H0: seq<int>, A0: seq<int>,
                  H: seq<int>, A: seq<int>, n: int)
    requires Graph(L, V) && 1 <= s <= V && |D| == |P| == |H0| == V + 1 && 0 <= n < |A|
    requires D[s] == 0 && forall u :: 1 <= u <= V && u != s ==> D[u] == INF
    requires forall u :: 0 <= u <= V ==> P[u] == 0 && H0[u] == 0
    requires Repositioned(H0, H, A, n) && Indexed(A, H, n)
    requires forall u :: InHeap(A, H, n, u) <==> InHeap(A0, H0, 0, u) || u == s
    ensures Progress(L, V, s, D, P, H, A, n, [], [], [])
  {
    forall k | 1 <= k <= n
      ensures 1 <= A[k] <= V
    {
      assert InHeap(A, H, n, A[k]);
    }
  }

  /** Appending a new vertex keeps the order distinct. */
  lemma DistinctSnoc(order: seq<int>, v: int)
    requires Distinct(order) && v !in order
    ensures Distinct(order + [v])
  {
    assert (order + [v])[..|order|] == order;
  }

  /** In a distinct order no two positions hold the same vertex. */
  lemma {:induction false} DistinctPairs(order: seq<int>)
    requires Distinct(order)
    ensures forall j, k :: 0 <= j < k < |order| ==> order[j] != order[k]
  {
    if order != [] {
      var o := order[..|order| - 1];
      DistinctPairs(o);
      forall j, k | 0 <= j < k < |order|
        ensures order[j] != order[k]
      {
        if k < |o| {
          assert order[j] == o[j] && order[k] == o[k];
        } else {
          assert order[j] == o[j];
        }
      }
    }
  }

  /** Pairwise distinct vertices 1..V number at most V. */
  lemma AtMostV(order: seq<int>, V: int)
    requires 0 <= V && forall k :: 0 <= k < |order| ==> 1 <= order[k] <= V
    requires forall j, k :: 0 <= j < k < |order| ==> order[j] != order[k]
    ensures |order| <= V
  {
    RangeMembers(1, V + 1);
    RangeCard(1, V + 1);
    PigeonHole(order, Range(1, V + 1));
  }

  /** A tree grown over vertices 1..V has at most V vertices. */
  lemma GrownAtMostV(L: seq<seq<Node>>, V: int, s: int, P: seq<int>, order: seq<int>, wts: seq<int>)
    requires Grown(L, V, s, P, order, wts)
    ensures |order| <= V
  {
    DistinctPairs(order);
    AtMostV(order, V);
  }

  /** Appending v, attached by weight w, to the tree: s when the tree is empty, else hanging off it by a lightest arc. */
  lemma GrownSnoc(L: seq<seq<Node>>, V: int, s: int, P: seq<int>, order: seq<int>, wts: seq<int>, v: int, w: int)
    requires Grown(L, V, s, P, order, wts) && 1 <= v <= V && v !in order
    requires order == [] ==> v == s && w == 0
    requires order != [] ==> Attached(L, order, P[v], v, w) && CutMin(L, order, w)
    ensures Grown(L, V, s, P, order + [v], wts + [w])
  {
    DistinctSnoc(order, v);
    var order', wts' := order + [v], wts + [w];
    assert order'[..|order|] == order && wts'[..|wts|] == wts;
  }

  /**
   * The cut property of the nearest vertex: a vertex v of the heap whose
   * dist is no larger than any other in the heap hangs off its parent by a
   * lightest arc out of the settled vertices.
   */
  lemma NearestAttached(L: seq<seq<Node>>, V: int, s: int, D: seq<int>, P: seq<int>, H: seq<int>,
                        A: seq<int>, n: int, order: seq<int>, sc: seq<Edge>, v: int)
    requires Frontier(V, s, D, P, order, sc) && Cut(V, D, order, sc) && Resident(V, D, H, A, n, order)
    requires Listed(L, order) && sc == Done(L, order) && s in order
    requires InHeap(A, H, n, v) && forall x :: InHeap(A, H, n, x) ==> D[v] <= D[x]
    ensures Attached(L, order, P[v], v, D[v]) && CutMin(L, order, D[v])
  {
    forall a | a in sc && a.v !in order
      ensures D[v] <= a.wgt
    {
      if D[a.v] < INF {
        assert InHeap(A, H, n, a.v);
      }
    }
  }

  /** Settling v keeps each settled vertex's weight, and v's is its dist. */
  lemma SettledSnoc(V: int, D: seq<int>, order: seq<int>, wts: seq<int>, v: int)
    requires Settled(V, D, order, wts) && 1 <= v <= V && v !in order && 0 <= D[v]
    ensures Settled(V, D[v := -D[v]], order + [v], wts + [D[v]])
  {
    var D', order', wts' := D[v := -D[v]], order + [v], wts + [D[v]];
    forall k | 0 <= k < |order'|
      ensures 1 <= order'[k] <= V && D'[order'[k]] == -wts'[k] && 0 <= wts'[k]
    {
      if k < |order| {
        assert order'[k] == order[k] && wts'[k] == wts[k];
      }
    }
  }

  /** Settling v leaves the other unsettled vertices and the arcs looked at as they were. */
  lemma FrontierSettle(V: int, s: int, D: seq<int>, P: seq<int>, order: seq<int>, sc: seq<Edge>, v: int)
    requires Frontier(V, s, D, P, order, sc) && Cut(V, D, order, sc) && 1 <= v <= V
    ensures Frontier(V, s, D[v := -D[v]], P, order + [v], sc) && Cut(V, D[v := -D[v]], order + [v], sc)
  {
  }

  /** Settling v, which the heap no longer holds, where each vertex whose position changed now is. */
  lemma ResidentSettle(V: int, D: seq<int>, H: seq<int>, A: seq<int>, n: int, order: seq<int>, v: int,
                       H': seq<int>, A': seq<int>, n': int)
    requires Resident(V, D, H, A, n, order) && InHeap(A, H, n, v)
    requires 0 <= n' < |A'| && Indexed(A', H', n') && RepositionedBut(H, H', A', n', v)
    requires forall x :: InHeap(A', H', n', x) <==> InHeap(A, H, n, x) && x != v
    ensures Resident(V, D[v := -D[v]], H', A', n', order + [v])
  {
    forall k | 1 <= k <= n'
      ensures 1 <= A'[k] <= V
    {
      assert InHeap(A', H', n', A'[k]);
    }
  }

  /** The whole invariant after settling v, and there was room for one more settled vertex. */
  lemma Settle(L: seq<seq<Node>>, V: int, s: int, D: seq<int>, P: seq<int>, H: seq<int>,
               A: seq<int>, n: int, order: seq<int>, wts: seq<int>, sc: seq<Edge>, v: int,
               H': seq<int>, A': seq<int>, n': int)
    requires Progress(L, V, s, D, P, H, A, n, order, wts, sc) && sc == Done(L, order)
    requires 0 <= n' < |A'| && Indexed(A', H', n') && RepositionedBut(H, H', A', n', v)
    requires InHeap(A, H, n, v) && forall x :: InHeap(A, H, n, x) ==> D[v] <= D[x]
    requires forall x :: InHeap(A', H', n', x) <==> InHeap(A, H, n, x) && x != v
    ensures Progress(L, V, s, D[v := -D[v]], P, H', A', n', order + [v], wts + [D[v]], sc)
    ensures Scanning(L, order + [v], 0, sc) && |order| + 1 <= V
  {
    assert 1 <= v <= V && v !in order && 0 <= D[v] < INF;
    if order == [] {
      assert v == s;
    } else {
      assert order[0] == s;
      NearestAttached(L, V, s, D, P, H, A, n, order, sc, v);
    }
    GrownSnoc(L, V, s, P, order, wts, v, D[v]);
    SettledSnoc(V, D, order, wts, v);
    FrontierSettle(V, s, D, P, order, sc, v);
    ResidentSettle(V, D, H, A, n, order, v, H', A', n');
    GrownAtMostV(L, V, s, P, order + [v], wts + [D[v]]);
    ScanStart(L, order, v, sc);
  }

  /** Scanning the list of a newly settled vertex starts from the arcs out of the vertices settled before it. */
  lemma ScanStart(L: seq<seq<Node>>, order: seq<int>, v: int, sc: seq<Edge>)
    requires Listed(L, order) && 0 <= v < |L| && sc == Done(L, order)
    ensures Scanning(L, order + [v], 0, sc)
  {
    var t := order + [v];
    assert t[..|order|] == order;
    assert Listed(L, t);
    var o := Out(L, v);
    assert o[..0] == [];
  }

  /** Looking at the next node of the list being scanned extends the arcs looked at by its arc. */
  lemma ScanStep(L: seq<seq<Node>>, order: seq<int>, i: int, sc: seq<Edge>)
    requires Scanning(L, order, i, sc) && i < |L[order[|order| - 1]]|
    ensures Scanning(L, order, i + 1, sc + [Edge(order[|order| - 1], L[order[|order| - 1]][i].vert, L[order[|order| - 1]][i].wgt)])
  {
    var x := order[|order| - 1];
    var o := Out(L, x);
    assert o[..i + 1] == o[..i] + [o[i]];
  }

  /** Once the whole list of the last settled vertex is scanned, every arc out of the settled vertices has been looked at. */
  lemma ScanDone(L: seq<seq<Node>>, order: seq<int>, sc: seq<Edge>)
    requires order != [] && Listed(L, order) && Scanning(L, order, |L[order[|order| - 1]]|, sc)
    ensures sc == Done(L, order)
  {
    var o := Out(L, order[|order| - 1]);
    assert o[..|o|] == o;
  }

  /** An arc that does not bring its vertex nearer changes nothing but the arcs looked at. */
  lemma RelaxSkip(L: seq<seq<Node>>, V: int, s: int, D: seq<int>, P: seq<int>, H: seq<int>, A: seq<int>, n: int,
                  order: seq<int>, wts: seq<int>, sc: seq<Edge>, v: int, u: int, w: int)
    requires Progress(L, V, s, D, P, H, A, n, order, wts, sc) && v in order && 1 <= u <= V && !(w < D[u])
    ensures Progress(L, V, s, D, P, H, A, n, order, wts, sc + [Edge(v, u, w)])
  {
  }

  /** A vertex whose dist an arc from a settled vertex lowers is unsettled. */
  lemma Unsettled(V: int, D: seq<int>, order: seq<int>, wts: seq<int>, u: int, w: int)
    requires Settled(V, D, order, wts) && 1 <= u <= V && 0 <= w < D[u]
    ensures u !in order
  {
  }

  /**
   * An arc v->u of weight w below dist[u]: u gets dist w and parent v, and
   * is then in the heap, wherever each vertex whose position changed now is.
   */
  lemma RelaxDone(L: seq<seq<Node>>, V: int, s: int, D: seq<int>, P: seq<int>, H: seq<int>, A: seq<int>, n: int,
                  order: seq<int>, wts: seq<int>, sc: seq<Edge>, v: int, u: int, w: int,
                  D': seq<int>, P': seq<int>, H': seq<int>, A': seq<int>, n': int)
    requires Progress(L, V, s, D, P, H, A, n, order, wts, sc)
    requires v in order && 1 <= u <= V && 0 <= w < D[u]
    requires D' == D[u := w][0 := MIN] && P' == P[u := v]
    requires 0 <= n' < |A'| && Indexed(A', H', n') && Repositioned(H, H', A', n')
    requires forall x :: InHeap(A', H', n', x) <==> InHeap(A, H, n, x) || x == u
    ensures Progress(L, V, s, D', P', H', A', n', order, wts, sc + [Edge(v, u, w)])
  {
    Unsettled(V, D, order, wts, u, w);
    assert order[0] == s && D[u] <= INF;
    RelaxGrown(L, V, s, P, order, wts, u, v);
    RelaxSettled(V, D, order, wts, u, w);
    RelaxFrontier(V, s, D, P, order, sc, v, u, w);
    RelaxCut(V, D, order, sc, v, u, w);
    RelaxResident(V, D, H, A, n, order, u, w, H', A', n');
  }

  /** Lowering the dist of an unsettled vertex, and planting the sentinel in slot 0, keeps every settled weight. */
  lemma RelaxSettled(V: int, D: seq<int>, order: seq<int>, wts: seq<int>, u: int, w: int)
    requires Settled(V, D, order, wts) && 1 <= u <= V && u !in order
    ensures Settled(V, D[u := w][0 := MIN], order, wts)
  {
    var D' := D[u := w][0 := MIN];
    forall k | 0 <= k < |order|
      ensures D'[order[k]] == D[order[k]]
    {
    }
  }

  /** The vertex u brought nearer by the arc v->u of weight w now hangs off v by that arc, which has been looked at. */
  lemma RelaxFrontier(V: int, s: int, D: seq<int>, P: seq<int>, order: seq<int>, sc: seq<Edge>, v: int, u: int, w: int)
    requires Frontier(V, s, D, P, order, sc) && v in order && 1 <= u <= V && 0 <= w < D[u] <= INF
    ensures Frontier(V, s, D[u := w][0 := MIN], P[u := v], order, sc + [Edge(v, u, w)])
  {
  }

  /** Every arc looked at, the new one included, still weighs at least the dist of the unsettled vertex it leads to. */
  lemma RelaxCut(V: int, D: seq<int>, order: seq<int>, sc: seq<Edge>, v: int, u: int, w: int)
    requires Cut(V, D, order, sc) && 1 <= u <= V && w < D[u]
    ensures Cut(V, D[u := w][0 := MIN], order, sc + [Edge(v, u, w)])
  {
  }

  /** With u added to the heap (or already in it), the heap holds the unsettled vertices below INF, and the others keep hPos 0. */
  lemma RelaxResident(V: int, D: seq<int>, H: seq<int>, A: seq<int>, n: int, order: seq<int>, u: int, w: int,
                      H': seq<int>, A': seq<int>, n': int)
    requires Resident(V, D, H, A, n, order) && 1 <= u <= V && u !in order && w < INF
    requires 0 <= n' < |A'| && Indexed(A', H', n') && Repositioned(H, H', A', n')
    requires forall x :: InHeap(A', H', n', x) <==> InHeap(A, H, n, x) || x == u
    ensures Resident(V, D[u := w][0 := MIN], H', A', n', order)
  {
    forall k | 1 <= k <= n'
      ensures 1 <= A'[k] <= V
    {
      assert InHeap(A', H', n', A'[k]);
    }
  }

  /** A new parent for an unsettled vertex other than s leaves the tree as it was. */
  lemma RelaxGrown(L: seq<seq<Node>>, V: int, s: int, P: seq<int>, order: seq<int>, wts: seq<int>, u: int, v: int)
    requires Grown(L, V, s, P, order, wts) && 1 <= u <= V && u !in order && u != s
    ensures Grown(L, V, s, P[u := v], order, wts)
  {
    AttachmentsParent(L, P, order, wts, u, v);
  }

  /** Changing the dist of a vertex outside the heap keeps the heap in order. */
  lemma KeyOutside(A: seq<int>, H: seq<int>, D: seq<int>, n: int, x: int, w: int)
    requires Slots(A, D, n) && IsHeap(A, D, n) && Indexed(A, H, n) && !InHeap(A, H, n, x) && 0 <= x < |D| && |H| == |D|
    ensures Slots(A, D[x := w], n) && IsHeap(A, D[x := w], n)
  {
    var D' := D[x := w];
    forall c | 2 <= c <= n
      ensures OrderedAt(A, D', c)
    {
      assert OrderedAt(A, D, c);
    }
  }

  /**
   * Ready for an insertion: an unsettled vertex u with hPos 0 is outside
   * the heap, and there is a free slot for it.
   */
  lemma InsertReady(V: int, D: seq<int>, H: seq<int>, A: seq<int>, n: int, order: seq<int>, u: int)
    requires Resident(V, D, H, A, n, order) && Indexed(A, H, n)
    requires 1 <= u <= V && u !in order && H[u] == 0
    ensures !InHeap(A, H, n, u) && n + 1 <= V
  {
    IndexedDistinct(A, H, n);
    var t := A[1..n + 1] + [u];
    forall j, k | 0 <= j < k < |t|
      ensures t[j] != t[k]
    {
      assert t[j] == A[j + 1];
      if k < n {
        assert t[k] == A[k + 1];
      } else {
        assert InHeap(A, H, n, t[j]);
      }
    }
    forall k | 0 <= k < |t|
      ensures 1 <= t[k] <= V
    {
      if k < n {
        assert t[k] == A[k + 1];
      }
    }
    AtMostV(t, V);
  }

  /**
   * Ready for a sift-up: lowering the dist of a vertex u in the heap to w
   * leaves the heap in order except above u's slot hPos[u].
   */
  lemma SiftReady(A: seq<int>, D: seq<int>, H: seq<int>, n: int, u: int, w: int)
    requires Slots(A, D, n) && IsHeap(A, D, n) && Indexed(A, H, n) && |H| == |D|
    requires InHeap(A, H, n, u) && MIN <= w < D[u]
    ensures Holed(A, D[u := w], H, n, H[u]) && UpReady(A, D[u := w], n, H[u])
  {
    IndexedDistinct(A, H, n);
    DecreaseKey(A, D, n, H[u], w);
    var D' := D[u := w];
    assert Slots(A, D', n);
    IndexedHoled(A, D', H, n, H[u]);
  }

  /** An unsettled vertex with a non-zero hPos is in the heap. */
  lemma Resides(V: int, D: seq<int>, H: seq<int>, A: seq<int>, n: int, order: seq<int>, u: int)
    requires Resident(V, D, H, A, n, order) && 1 <= u <= V && u !in order && H[u] != 0
    ensures InHeap(A, H, n, u)
  {
  }

  /**
   * When the heap is empty every vertex is settled or unreached: every arc
   * out of the settled vertices to an unsettled one weighs INF or more, and
   * an unsettled vertex keeps parent 0.
   */
  lemma PrimDone(L: seq<seq<Node>>, V: int, s: int, D: seq<int>, P: seq<int>, H: seq<int>, A: seq<int>,
                 order: seq<int>, wts: seq<int>, sc: seq<Edge>)
    requires Progress(L, V, s, D, P, H, A, 0, order, wts, sc) && sc == Done(L, order)
    ensures 1 <= |order| <= V
    ensures forall a :: a in Done(L, order) && a.v !in order ==> INF <= a.wgt
    ensures forall u :: 1 <= u <= V && u !in order ==> P[u] == 0
  {
    GrownAtMostV(L, V, s, P, order, wts);
    forall u | 1 <= u <= V && u !in order
      ensures D[u] == INF
    {
      assert !InHeap(A, H, 0, u);
    }
  }

  /**
   * On a connected graph whose weights are all below INF, a run that ends
   * with every arc out of the settled vertices to an unsettled one at INF
   * or more has settled every vertex: the settled vertices are closed under
   * the edges, and so is the rest.
   */
  lemma PrimSpans(V: int, es: seq<Edge>, s: int, order: seq<int>)
    requires 1 <= V && EndpointsIn(V, es) && Connected(V, es) && forall i :: 0 <= i < |es| ==> es[i].wgt < INF
    requires Listed(Lists(V, es), order) && 1 <= s <= V && s in order
    requires forall a :: a in Done(Lists(V, es), order) && a.v !in order ==> INF <= a.wgt
    ensures forall x :: 1 <= x <= V ==> x in order
  {
    var L := Lists(V, es);
    forall i | 0 <= i < |es|
      ensures es[i].u in order <==> es[i].v in order
    {
      var e := es[i];
      if e.u in order && e.v !in order {
        assert Joins(es[i], e.u, e.v, e.wgt);
        ListsMember(V, es, e.u, e.v, e.wgt);
        DoneMember(L, order, Edge(e.u, e.v, e.wgt));
      }
      if e.v in order && e.u !in order {
        assert Joins(es[i], e.v, e.u, e.wgt);
        ListsMember(V, es, e.v, e.u, e.wgt);
        DoneMember(L, order, Edge(e.v, e.u, e.wgt));
      }
    }
    var In := set x | x in order;
    var Out := set x | 1 <= x <= V && x !in order;
    assert s !in Out;
    if 1 in order {
      assert 1 in In && Closed(In, es);
      forall x | 1 <= x <= V
        ensures x in order
      {
        assert x in In;
      }
    } else {
      assert 1 in Out && Closed(Out, es);
      assert false;
    }
  }
}
