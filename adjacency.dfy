/**
 * The adjacency lists of PrimLists.java: every vertex 0..V has a linked
 * list of nodes, one per incident edge, and each input edge is prepended to
 * the lists of both its endpoints.  Lists are modelled as sequences, head
 * first.
 */
module Adjacency {
  import opened Edges

  /** A list node: the neighbour and the weight of the edge to it (class `Node`, without its link). */
  datatype Node = Node(vert: int, wgt: int)

  /** Prepends edge e to the list of e.u, then to the list of e.v. */
  function AddEdge(L: seq<seq<Node>>, e: Edge): (L': seq<seq<Node>>)
    requires 0 <= e.u < |L| && 0 <= e.v < |L|
    ensures |L'| == |L|
  {
    var L1 := L[e.u := [Node(e.v, e.wgt)] + L[e.u]];
    L1[e.v := [Node(e.u, e.wgt)] + L1[e.v]]
  }

  /** The lists of vertices 0..V after the edges es were read in order. */
  function Lists(V: int, es: seq<Edge>): (L: seq<seq<Node>>)
    requires 0 <= V && EndpointsIn(V, es)
    ensures |L| == V + 1
  {
    if es == [] then seq(V + 1, _ => []) else AddEdge(Lists(V, es[..|es| - 1]), es[|es| - 1])
  }

  /** The nodes edge e contributes to the list of x, its u end's first. */
  function Ends(x: int, e: Edge): seq<Node>
  {
    (if e.u == x then [Node(e.v, e.wgt)] else []) + (if e.v == x then [Node(e.u, e.wgt)] else [])
  }

  /** The neighbours of x, one node per incidence, in input order. */
  function Incident(x: int, es: seq<Edge>): seq<Node>
  {
    if es == [] then [] else Incident(x, es[..|es| - 1]) + Ends(x, es[|es| - 1])
  }

  /** The nodes of s, last first. */
  function Reverse(s: seq<Node>): (r: seq<Node>)
    ensures |r| == |s| && forall i :: 0 <= i < |s| ==> r[i] == s[|s| - 1 - i]
  {
    if s == [] then [] else [s[|s| - 1]] + Reverse(s[..|s| - 1])
  }

  /** Edge e joins x to y with weight w. */
  predicate Joins(e: Edge, x: int, y: int, w: int)
  {
    e.wgt == w && ((e.u == x && e.v == y) || (e.v == x && e.u == y))
  }

  lemma ReverseAppend(a: seq<Node>, b: seq<Node>)
    ensures Reverse(a + b) == Reverse(b) + Reverse(a)
  {
    var r, t := Reverse(a + b), Reverse(b) + Reverse(a);
    forall i | 0 <= i < |r|
      ensures r[i] == t[i]
    {
      if i < |b| {
        assert r[i] == (a + b)[|a| + |b| - 1 - i] == b[|b| - 1 - i];
      } else {
        assert r[i] == (a + b)[|a| + |b| - 1 - i] == a[|a| - 1 - (i - |b|)];
      }
    }
  }

  /** The nodes edge e prepends to the list of x, head first: its v end's node, then its u end's. */
  function Prepended(x: int, e: Edge): seq<Node>
  {
    (if e.v == x then [Node(e.u, e.wgt)] else []) + (if e.u == x then [Node(e.v, e.wgt)] else [])
  }

  lemma AddEdgeAt(L: seq<seq<Node>>, e: Edge, x: int)
    requires 0 <= e.u < |L| && 0 <= e.v < |L| && 0 <= x < |L|
    ensures AddEdge(L, e)[x] == Prepended(x, e) + L[x]
  {
  }

  lemma EndsReversed(x: int, e: Edge)
    ensures Reverse(Ends(x, e)) == Prepended(x, e)
  {
    var r := Reverse(Ends(x, e));
    if e.u == x && e.v == x {
      assert r == [Node(e.v, e.wgt), Node(e.u, e.wgt)];
    } else if e.u == x {
      assert r == [Node(e.v, e.wgt)];
    } else if e.v == x {
      assert r == [Node(e.u, e.wgt)];
    } else {
      assert r == [];
    }
  }

  /** Each list holds the edges at its vertex in the reverse of their input order. */
  lemma {:induction false} ListsReversed(V: int, es: seq<Edge>, x: int)
    requires 0 <= V && EndpointsIn(V, es) && 0 <= x <= V
    ensures Lists(V, es)[x] == Reverse(Incident(x, es))
  {
    if es != [] {
      var es', e := es[..|es| - 1], es[|es| - 1];
      assert EndpointsIn(V, es');
      ListsReversed(V, es', x);
      ReverseAppend(Incident(x, es'), Ends(x, e));
      EndsReversed(x, e);
      AddEdgeAt(Lists(V, es'), e, x);
    }
  }

  /** Some edge of es joins x to y with weight w. */
  ghost predicate Joined(es: seq<Edge>, x: int, y: int, w: int)
  {
    exists i :: 0 <= i < |es| && Joins(es[i], x, y, w)
  }

  lemma JoinedSnoc(es: seq<Edge>, e: Edge, x: int, y: int, w: int)
    ensures Joined(es + [e], x, y, w) <==> Joined(es, x, y, w) || Joins(e, x, y, w)
  {
    var t := es + [e];
    if Joined(t, x, y, w) {
      var i :| 0 <= i < |t| && Joins(t[i], x, y, w);
      if i < |es| {
        assert Joins(es[i], x, y, w);
      }
    }
    if Joined(es, x, y, w) {
      var i :| 0 <= i < |es| && Joins(es[i], x, y, w);
      assert Joins(t[i], x, y, w);
    }
    if Joins(e, x, y, w) {
      assert Joins(t[|es|], x, y, w);
    }
  }

  lemma EndsMember(x: int, e: Edge, y: int, w: int)
    ensures Node(y, w) in Ends(x, e) <==> Joins(e, x, y, w)
  {
  }

  lemma {:induction false} IncidentMember(x: int, es: seq<Edge>, y: int, w: int)
    ensures Node(y, w) in Incident(x, es) <==> Joined(es, x, y, w)
  {
    if es != [] {
      var es', e := es[..|es| - 1], es[|es| - 1];
      IncidentMember(x, es', y, w);
      EndsMember(x, e, y, w);
      assert es == es' + [e];
      JoinedSnoc(es', e, x, y, w);
    }
  }

  /** The list of x holds a node for y of weight w exactly when some input edge joins x and y with weight w. */
  lemma ListsMember(V: int, es: seq<Edge>, x: int, y: int, w: int)
    requires 0 <= V && EndpointsIn(V, es) && 0 <= x <= V
    ensures Node(y, w) in Lists(V, es)[x] <==> Joined(es, x, y, w)
  {
    ListsReversed(V, es, x);
    IncidentMember(x, es, y, w);
    var s := Incident(x, es);
    var r := Reverse(s);
    if Node(y, w) in r {
      var i :| 0 <= i < |r| && r[i] == Node(y, w);
      assert s[|s| - 1 - i] == Node(y, w);
    }
    if Node(y, w) in s {
      var i :| 0 <= i < |s| && s[i] == Node(y, w);
      assert r[|s| - 1 - i] == Node(y, w);
    }
  }

  /** Every node names a vertex 1..V and carries a non-negative weight. */
  ghost predicate Graph(L: seq<seq<Node>>, V: int)
  {
    |L| == V + 1 &&
    forall x, j :: 0 <= x < |L| && 0 <= j < |L[x]| ==> 1 <= L[x][j].vert <= V && 0 <= L[x][j].wgt
  }

  /** Every edge weight is at least 0. */
  predicate NonNegative(es: seq<Edge>)
  {
    forall i :: 0 <= i < |es| ==> 0 <= es[i].wgt
  }

  lemma ListsGraph(V: int, es: seq<Edge>)
    requires 0 <= V && EndpointsIn(V, es) && NonNegative(es)
    ensures Graph(Lists(V, es), V)
  {
    var L: seq<seq<Node>> := Lists(V, es);
    forall x: int, j: int | 0 <= x < |L| && 0 <= j < |L[x]|
      ensures 1 <= L[x][j].vert <= V && 0 <= L[x][j].wgt
    {
      ListsMember(V, es, x, L[x][j].vert, L[x][j].wgt);
    }
  }

  /** The list of x as arcs x->y. */
  function Out(L: seq<seq<Node>>, x: int): (r: seq<Edge>)
    requires 0 <= x < |L|
    ensures |r| == |L[x]| && forall j :: 0 <= j < |r| ==> r[j] == Edge(x, L[x][j].vert, L[x][j].wgt)
  {
    seq(|L[x]|, j requires 0 <= j < |L[x]| => Edge(x, L[x][j].vert, L[x][j].wgt))
  }

  /** Every id in ord names a list of L. */
  predicate Listed(L: seq<seq<Node>>, ord: seq<int>)
  {
    forall k :: 0 <= k < |ord| ==> 0 <= ord[k] < |L|
  }

  /** The arcs out of the vertices ord, list by list. */
  function Done(L: seq<seq<Node>>, ord: seq<int>): seq<Edge>
    requires Listed(L, ord)
  {
    if ord == [] then [] else Done(L, ord[..|ord| - 1]) + Out(L, ord[|ord| - 1])
  }

  /** The arcs out of ord are exactly the nodes of the lists of ord. */
  lemma {:induction false} DoneMember(L: seq<seq<Node>>, ord: seq<int>, a: Edge)
    requires Listed(L, ord)
    ensures a in Done(L, ord) <==> a.u in ord && Node(a.v, a.wgt) in L[a.u]
  {
    if ord != [] {
      var ord', x := ord[..|ord| - 1], ord[|ord| - 1];
      DoneMember(L, ord', a);
      var o := Out(L, x);
      if a in o {
        var j :| 0 <= j < |o| && o[j] == a;
        assert L[x][j] == Node(a.v, a.wgt);
      }
      if a.u == x && Node(a.v, a.wgt) in L[x] {
        var j :| 0 <= j < |L[x]| && L[x][j] == Node(a.v, a.wgt);
        assert o[j] == a;
      }
      assert a.u in ord <==> a.u in ord' || a.u == x;
    }
  }
}
