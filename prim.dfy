/**
 * Prim's algorithm over adjacency lists (class `GraphLists` of
 * PrimLists.java).  Vertices come off the vertex heap nearest first; a
 * vertex taken off is settled by negating its dist, and every neighbour it
 * brings nearer gets the new dist, the vertex as parent, and is inserted or
 * sifted up in the heap.
 */
module Prim {
  import opened Edges
  import opened HeapOrder
  import opened VertexHeaps
  import opened Adjacency
  import opened PrimSpec

  /**
   * The graph of PrimLists.java: V vertices, E edges, the adjacency lists
   * adj[0..V] and the parent array `mst` of the last run of MST_Prim.
   */
  class GraphLists {
    const V: int
    const E: int
    const adj: seq<seq<Node>>
    var mst: array<int>

    /**
     * Reads the edges es over vertices 1..V into the adjacency lists,
     * prepending each edge to the list of both its ends.
     */
    constructor (V0: int, es: seq<Edge>)
      requires 0 <= V0 && EndpointsIn(V0, es)
      ensures V == V0 && E == |es| && adj == Lists(V, es)
    {
      V := V0;
      E := |es|;
      var lists := seq(V0 + 1, _ => []);
      var e := 0;
      while e < |es|
        invariant 0 <= e <= |es| && EndpointsIn(V0, es[..e]) && lists == Lists(V0, es[..e])
      {
        var u, v, w := es[e].u, es[e].v, es[e].wgt;
        lists := lists[u := [Node(v, w)] + lists[u]];
        lists := lists[v := [Node(u, w)] + lists[v]];
        assert es[..e + 1][..e] == es[..e];
        e := e + 1;
      }
      assert es[..|es|] == es;
      adj := lists;
      mst := new int[0];
    }

    /** The state of a run of MST_Prim: a valid heap over dist and hPos, a separate parent array, and the invariant Progress. */
    ghost predicate Running(h: VertexHeap, parent: array<int>, s: int, order: seq<int>, wts: seq<int>, sc: seq<Edge>)
      reads this, h, h.a, h.dist, h.hPos, parent
    {
      h.Valid() && h.a.Length == V + 1 && parent.Length == V + 1 &&
      parent != h.a && parent != h.dist && parent != h.hPos &&
      Progress(adj, V, s, h.dist[..], parent[..], h.hPos[..], h.a[..], h.N, order, wts, sc)
    }

    /**
     * Settling v keeps the run going: before, the heap held D, H, A and n
     * and Progress held; v was a vertex of least dist in the heap, it has
     * left the heap and its dist is negated, and parent is unchanged.
     */
    lemma SettleRun(h: VertexHeap, parent: array<int>, s: int, order: seq<int>, wts: seq<int>,
                    D: seq<int>, P: seq<int>, H: seq<int>, A: seq<int>, n: int, v: int)
      requires h.Valid() && h.a.Length == V + 1 && parent.Length == V + 1
      requires parent != h.a && parent != h.dist && parent != h.hPos
      requires Listed(adj, order) && Progress(adj, V, s, D, P, H, A, n, order, wts, Done(adj, order))
      requires 0 <= v < |D| && h.dist[..] == D[v := -D[v]] && parent[..] == P
      requires RepositionedBut(H, h.hPos[..], h.a[..], h.N, v)
      requires InHeap(A, H, n, v) && forall x :: InHeap(A, H, n, x) ==> D[v] <= D[x]
      requires forall x :: InHeap(h.a[..], h.hPos[..], h.N, x) <==> InHeap(A, H, n, x) && x != v
      ensures Running(h, parent, s, order + [v], wts + [D[v]], Done(adj, order))
      ensures Scanning(adj, order + [v], 0, Done(adj, order)) && |order| + 1 <= V
    {
      Settle(adj, V, s, D, P, H, A, n, order, wts, Done(adj, order), v, h.hPos[..], h.a[..], h.N);
    }

    /**
     * Prim's algorithm from s: the settled vertices `order` form a tree
     * grown from s by lightest arcs out of the vertices settled before,
     * recorded in the parent array `mst`; the result is the sum of the
     * attaching weights; every arc out of the tree to an unsettled vertex
     * weighs INF or more, and unsettled vertices keep parent 0.
     */
    method MstPrim(s: int) returns (wgtSum: int, ghost order: seq<int>, ghost wts: seq<int>)
      requires Graph(adj, V) && 1 <= s <= V
      modifies this`mst
      ensures fresh(mst) && Grown(adj, V, s, mst[..], order, wts) && 1 <= |order| <= V && wgtSum == Sum(wts)
      ensures forall a :: a in Done(adj, order) && a.v !in order ==> INF <= a.wgt
      ensures forall u :: 1 <= u <= V && u !in order ==> mst[u] == 0
    {
      var h, parent := Start(s);
      wgtSum, order, wts := Grow(h, parent, s);
      PrimDone(adj, V, s, h.dist[..], parent[..], h.hPos[..], h.a[..], order, wts, Done(adj, order));
      mst := parent;
    }

    /**
     * The start of MST_Prim: dist INF, parent 0 and hPos 0 for every vertex,
     * then dist 0 for s, which is the only vertex put in the heap.
     */
    method Start(s: int) returns (h: VertexHeap, parent: array<int>)
      requires Graph(adj, V) && 1 <= s <= V
      ensures fresh(h) && fresh(h.a) && fresh(h.dist) && fresh(h.hPos) && fresh(parent)
      ensures Running(h, parent, s, [], [], Done(adj, []))
    {
      var dist, hPos;
      dist, parent, hPos := Blank();
      dist[s] := 0;
      h := new VertexHeap(V, dist, hPos);
      ghost var A0, H0 := h.a[..], hPos[..];
      Admit(h, s);
      PrimStart(adj, V, s, dist[..], parent[..], H0, A0, hPos[..], h.a[..], h.N);
    }

    /** Fresh dist, parent and hPos arrays over vertices 0..V: dist INF, parent 0 and hPos 0 everywhere. */
    method Blank() returns (dist: array<int>, parent: array<int>, hPos: array<int>)
      requires 0 <= V
      ensures fresh(dist) && fresh(parent) && fresh(hPos) && dist != parent && parent != hPos && dist != hPos
      ensures dist.Length == parent.Length == hPos.Length == V + 1
      ensures forall x :: 0 <= x <= V ==> dist[x] == INF && parent[x] == 0 && hPos[x] == 0
    {
      dist := new int[V + 1];
      parent := new int[V + 1];
      hPos := new int[V + 1];
      var v := 0;
      while v <= V
        invariant 0 <= v <= V + 1
        invariant forall x :: 0 <= x < v ==> dist[x] == INF && parent[x] == 0 && hPos[x] == 0
      {
        dist[v] := INF;
        parent[v] := 0;
        hPos[v] := 0;
        v := v + 1;
      }
    }

    /** The main loop: rounds run while the heap is not empty, adding up the weights that attach the settled vertices. */
    method Grow(h: VertexHeap, parent: array<int>, s: int) returns (wgtSum: int, ghost order: seq<int>, ghost wts: seq<int>)
      requires Running(h, parent, s, [], [], Done(adj, []))
      modifies h`N, h.a, h.dist, h.hPos, parent
      ensures Listed(adj, order) && Running(h, parent, s, order, wts, Done(adj, order)) && wgtSum == Sum(wts) && h.N == 0
    {
      wgtSum, order, wts := 0, [], [];
      while !h.IsEmpty()
        invariant Listed(adj, order) && Running(h, parent, s, order, wts, Done(adj, order)) && wgtSum == Sum(wts) && |order| <= V
        decreases V - |order|
      {
        wgtSum, order, wts := Round(h, parent, s, order, wts, wgtSum);
      }
    }

    /**
     * One round of the main loop: the nearest vertex v in the heap is taken
     * out and settled, its weight is added to the sum, and its list is
     * scanned; `empty` then tells whether the loop ends.
     */
    method Round(h: VertexHeap, parent: array<int>, s: int, ghost order: seq<int>, ghost wts: seq<int>, wgtSum: int)
      returns (wgtSum': int, ghost order': seq<int>, ghost wts': seq<int>)
      requires Listed(adj, order) && Running(h, parent, s, order, wts, Done(adj, order))
      requires h.N != 0 && wgtSum == Sum(wts)
      modifies h`N, h.a, h.dist, h.hPos, parent
      ensures Listed(adj, order') && Running(h, parent, s, order', wts', Done(adj, order')) && wgtSum' == Sum(wts')
      ensures |order'| == |order| + 1 <= V
    {
      ghost var d;
      var v;
      v, wgtSum', d := SettleNearest(h, parent, s, order, wts, wgtSum);
      order', wts' := order + [v], wts + [d];
      Scan(h, parent, s, v, order', wts', Done(adj, order));
    }

    /**
     * v = h.remove(); dist[v] = -dist[v]; wgt_sum -= dist[v], as a step of
     * the run: v is settled with weight d, its former dist, which is added
     * to the sum.
     */
    method SettleNearest(h: VertexHeap, parent: array<int>, s: int, ghost order: seq<int>, ghost wts: seq<int>, wgtSum: int)
      returns (v: int, wgtSum': int, ghost d: int)
      requires Listed(adj, order) && Running(h, parent, s, order, wts, Done(adj, order)) && h.N != 0 && wgtSum == Sum(wts)
      modifies h`N, h.a, h.dist, h.hPos
      ensures Running(h, parent, s, order + [v], wts + [d], Done(adj, order))
      ensures Scanning(adj, order + [v], 0, Done(adj, order)) && |order| + 1 <= V && wgtSum' == Sum(wts + [d])
    {
      ghost var D, P, H, A, n := h.dist[..], parent[..], h.hPos[..], h.a[..], h.N;
      v := TakeNearest(h, parent, D);
      d := D[v];
      SettleRun(h, parent, s, order, wts, D, P, H, A, n, v);
      wgtSum' := wgtSum - h.dist[v];
      assert (wts + [d])[..|wts|] == wts;
    }

    /** A heap whose arrays hold slots A, keys D and positions H, with size n, is valid when these meet the heap invariant. */
    static lemma ValidHeap(h: VertexHeap, A: seq<int>, D: seq<int>, H: seq<int>, n: int)
      requires h.Arrays() && h.a[..] == A && h.dist[..] == D && h.hPos[..] == H && h.N == n
      requires Slots(A, D, n) && |H| == |D| && Indexed(A, H, n) && IsHeap(A, D, n)
      ensures h.Valid()
    {
    }

    /**
     * v = h.remove(); dist[v] = -dist[v]: takes a vertex v of least dist
     * out of the heap and marks it settled by negating its dist.
     */
    static method TakeNearest(h: VertexHeap, ghost parent: array<int>, ghost D: seq<int>) returns (v: int)
      requires h.Valid() && h.N != 0 && parent != h.a && parent != h.dist && parent != h.hPos && h.dist[..] == D
      modifies h`N, h.a, h.dist, h.hPos
      ensures h.Valid() && 0 <= v < |D| && h.dist[..] == D[v := -D[v]]
      ensures parent[..] == old(parent[..])
      ensures InHeap(old(h.a[..]), old(h.hPos[..]), old(h.N), v)
      ensures forall x :: InHeap(old(h.a[..]), old(h.hPos[..]), old(h.N), x) ==> old(h.dist[..])[v] <= old(h.dist[..])[x]
      ensures forall x :: InHeap(h.a[..], h.hPos[..], h.N, x) <==> InHeap(old(h.a[..]), old(h.hPos[..]), old(h.N), x) && x != v
      ensures RepositionedBut(old(h.hPos[..]), h.hPos[..], h.a[..], h.N, v)
    {
      v := Extract(h);
      Negate(h, v, D);
    }

    /** v = h.remove(), stated by positions: v was in the heap with the least dist there, and the heap now holds the rest. */
    static method Extract(h: VertexHeap) returns (v: int)
      requires h.Valid() && h.N != 0
      modifies h`N, h.a, h.hPos
      ensures h.Valid() && 0 <= v < h.dist.Length && !InHeap(h.a[..], h.hPos[..], h.N, v)
      ensures InHeap(old(h.a[..]), old(h.hPos[..]), old(h.N), v)
      ensures forall x :: InHeap(old(h.a[..]), old(h.hPos[..]), old(h.N), x) ==> h.dist[v] <= h.dist[x]
      ensures forall x :: InHeap(h.a[..], h.hPos[..], h.N, x) <==> InHeap(old(h.a[..]), old(h.hPos[..]), old(h.N), x) && x != v
      ensures RepositionedBut(old(h.hPos[..]), h.hPos[..], h.a[..], h.N, v)
    {
      ghost var A0, H0, n0, m0 := h.a[..], h.hPos[..], h.N, h.Contents();
      v := h.Remove();
      Removed(A0, H0, n0, h.a[..], h.hPos[..], h.N, h.dist[..], v, m0, h.Contents());
    }

    /** dist[v] = -dist[v] for a vertex v outside the heap: only that entry of dist changes, and the heap stays valid. */
    static method Negate(h: VertexHeap, v: int, ghost D: seq<int>)
      requires h.Valid() && h.dist[..] == D && 0 <= v < |D| && !InHeap(h.a[..], h.hPos[..], h.N, v)
      modifies h.dist
      ensures h.Valid() && h.dist[..] == D[v := -D[v]]
      ensures h.a[..] == old(h.a[..]) && h.hPos[..] == old(h.hPos[..])
    {
      ghost var A, H, n := h.a[..], h.hPos[..], h.N;
      KeyOutside(A, H, D, n, v, -D[v]);
      h.dist[v] := -h.dist[v];
      ValidHeap(h, A, D[v := -D[v]], H, n);
    }

    /** h.insert(u) for a vertex u outside the heap: the heap then holds u as well. */
    static method Admit(h: VertexHeap, u: int)
      requires h.Valid() && h.N + 1 < h.a.Length && 1 <= u < h.dist.Length && MIN <= h.dist[u]
      requires !InHeap(h.a[..], h.hPos[..], h.N, u)
      modifies h`N, h.a, h.dist, h.hPos
      ensures h.Valid() && h.dist[..] == old(h.dist[..])[0 := MIN]
      ensures forall x :: InHeap(h.a[..], h.hPos[..], h.N, x) <==> InHeap(old(h.a[..]), old(h.hPos[..]), old(h.N), x) || x == u
      ensures Repositioned(old(h.hPos[..]), h.hPos[..], h.a[..], h.N)
    {
      ghost var A0, H0, n0 := h.a[..], h.hPos[..], h.N;
      SlotOf(A0, H0, n0, u);
      h.Insert(u);
      Added(A0, H0, n0, h.a[..], h.hPos[..], h.N, u);
    }

    /** dist[u] = w; parent[u] = v: only those two entries change. */
    static method Reattach(h: VertexHeap, parent: array<int>, u: int, v: int, w: int)
      requires h.Arrays() && parent != h.a && parent != h.dist && parent != h.hPos
      requires 0 <= u < h.dist.Length && u < parent.Length
      modifies h.dist, parent
      ensures h.dist[..] == old(h.dist[..])[u := w] && parent[..] == old(parent[..])[u := v]
      ensures h.a[..] == old(h.a[..]) && h.hPos[..] == old(h.hPos[..])
    {
      h.dist[u] := w;
      parent[u] := v;
    }

    /** dist[u] = w; parent[u] = v; h.insert(u), for a vertex u outside the heap. */
    static method Enqueue(h: VertexHeap, parent: array<int>, u: int, v: int, w: int)
      requires h.Valid() && parent != h.a && parent != h.dist && parent != h.hPos
      requires 1 <= u < h.dist.Length && u < parent.Length && MIN <= w && h.N + 1 < h.a.Length
      requires !InHeap(h.a[..], h.hPos[..], h.N, u)
      modifies h`N, h.a, h.dist, h.hPos, parent
      ensures h.Valid() && h.dist[..] == old(h.dist[..])[u := w][0 := MIN] && parent[..] == old(parent[..])[u := v]
      ensures forall x :: InHeap(h.a[..], h.hPos[..], h.N, x) <==> InHeap(old(h.a[..]), old(h.hPos[..]), old(h.N), x) || x == u
      ensures Repositioned(old(h.hPos[..]), h.hPos[..], h.a[..], h.N)
    {
      ghost var A, H, n, D := h.a[..], h.hPos[..], h.N, h.dist[..];
      KeyOutside(A, H, D, n, u, w);
      Reattach(h, parent, u, v, w);
      ValidHeap(h, A, D[u := w], H, n);
      ghost var P := parent[..];
      Admit(h, u);
      assert parent[..] == P;
    }

    /** dist[u] = w; parent[u] = v; h.siftUp(hPos[u]), for a vertex u in the heap whose dist w lowers. */
    static method Promote(h: VertexHeap, parent: array<int>, u: int, v: int, w: int)
      requires h.Valid() && parent != h.a && parent != h.dist && parent != h.hPos
      requires u < parent.Length && InHeap(h.a[..], h.hPos[..], h.N, u) && MIN <= w < h.dist[u]
      modifies h.a, h.dist, h.hPos, parent
      ensures h.Valid() && h.dist[..] == old(h.dist[..])[u := w][0 := MIN] && parent[..] == old(parent[..])[u := v]
      ensures forall x :: InHeap(h.a[..], h.hPos[..], h.N, x) <==> InHeap(old(h.a[..]), old(h.hPos[..]), old(h.N), x)
      ensures Repositioned(old(h.hPos[..]), h.hPos[..], h.a[..], h.N)
    {
      ghost var A0, H0, n, D := h.a[..], h.hPos[..], h.N, h.dist[..];
      SiftReady(A0, D, H0, n, u, w);
      Reattach(h, parent, u, v, w);
      ghost var P := parent[..];
      h.SiftUp(h.hPos[u]);
      assert parent[..] == P;
      Moved(A0, H0, h.a[..], h.hPos[..], n);
    }

    /** Scans the list of the last settled vertex v, relaxing the arc to each neighbour. */
    method Scan(h: VertexHeap, parent: array<int>, s: int, v: int, ghost order: seq<int>, ghost wts: seq<int>, ghost sc0: seq<Edge>)
      requires Scanning(adj, order, 0, sc0) && v == order[|order| - 1] && Running(h, parent, s, order, wts, sc0)
      modifies h`N, h.a, h.dist, h.hPos, parent
      ensures Listed(adj, order) && Running(h, parent, s, order, wts, Done(adj, order))
    {
      var t := adj[v];
      ghost var sc := sc0;
      var i := 0;
      while i < |t|
        invariant Running(h, parent, s, order, wts, sc) && Scanning(adj, order, i, sc) && t == adj[v]
      {
        var u, w := t[i].vert, t[i].wgt;
        ScanStep(adj, order, i, sc);
        Relax(h, parent, s, order, wts, sc, v, u, w);
        sc := sc + [Edge(v, u, w)];
        i := i + 1;
      }
      ScanDone(adj, order, sc);
    }

    /**
     * The arc v->u of weight w: when w is below dist[u], u gets dist w and
     * parent v, and is inserted into the heap when hPos[u] is 0, otherwise
     * sifted up from slot hPos[u].
     */
    method Relax(h: VertexHeap, parent: array<int>, s: int, ghost order: seq<int>, ghost wts: seq<int>, ghost sc: seq<Edge>,
                 v: int, u: int, w: int)
      requires Running(h, parent, s, order, wts, sc) && v in order && 1 <= u <= V && 0 <= w
      modifies h`N, h.a, h.dist, h.hPos, parent
      ensures Running(h, parent, s, order, wts, sc + [Edge(v, u, w)])
    {
      if w < h.dist[u] {
        if h.hPos[u] == 0 {
          Enter(h, parent, s, order, wts, sc, v, u, w);
        } else {
          Lower(h, parent, s, order, wts, sc, v, u, w);
        }
      } else {
        RelaxSkip(adj, V, s, h.dist[..], parent[..], h.hPos[..], h.a[..], h.N, order, wts, sc, v, u, w);
      }
    }

    /** Relaxing the arc v->u of weight w when u is not in the heap: u gets dist w and parent v and is inserted. */
    method Enter(h: VertexHeap, parent: array<int>, s: int, ghost order: seq<int>, ghost wts: seq<int>, ghost sc: seq<Edge>,
                 v: int, u: int, w: int)
      requires Running(h, parent, s, order, wts, sc) && v in order && 1 <= u <= V && 0 <= w < h.dist[u] && h.hPos[u] == 0
      modifies h`N, h.a, h.dist, h.hPos, parent
      ensures Running(h, parent, s, order, wts, sc + [Edge(v, u, w)])
    {
      ghost var D, P, H, A, n := h.dist[..], parent[..], h.hPos[..], h.a[..], h.N;
      Unsettled(V, D, order, wts, u, w);
      InsertReady(V, D, H, A, n, order, u);
      Enqueue(h, parent, u, v, w);
      RelaxDone(adj, V, s, D, P, H, A, n, order, wts, sc, v, u, w, h.dist[..], parent[..], h.hPos[..], h.a[..], h.N);
    }

    /** Relaxing the arc v->u of weight w when u is in the heap: u gets dist w and parent v and is sifted up from its slot. */
    method Lower(h: VertexHeap, parent: array<int>, s: int, ghost order: seq<int>, ghost wts: seq<int>, ghost sc: seq<Edge>,
                 v: int, u: int, w: int)
      requires Running(h, parent, s, order, wts, sc) && v in order && 1 <= u <= V && 0 <= w < h.dist[u] && h.hPos[u] != 0
      modifies h`N, h.a, h.dist, h.hPos, parent
      ensures Running(h, parent, s, order, wts, sc + [Edge(v, u, w)])
    {
      ghost var D, P, H, A, n := h.dist[..], parent[..], h.hPos[..], h.a[..], h.N;
      Unsettled(V, D, order, wts, u, w);
      Resides(V, D, H, A, n, order, u);
      Promote(h, parent, u, v, w);
      RelaxDone(adj, V, s, D, P, H, A, n, order, wts, sc, v, u, w, h.dist[..], parent[..], h.hPos[..], h.a[..], h.N);
    }
  }
}
