/**
 * The disjoint-set forest of Kruskal.java (class `UnionFindSets`): entry x of
 * `treeParent` is the parent of vertex x in its tree, a vertex that is its
 * own parent is the root naming its set, and `rank` biases the unions.
 * The abstract view of a forest is the sequence of roots, one per vertex.
 */
module UnionFind {

  /**
   * A forest whose parent links climb strictly in rank: every entry is a
   * vertex, and a vertex that is not a root has a lower rank than its parent.
   * The rank then bounds the length of every path to a root.
   */
  ghost predicate Ranked(p: seq<int>, rk: seq<int>)
  {
    |p| == |rk| &&
    (forall x :: 0 <= x < |p| ==> 0 <= p[x] < |p|) &&
    (forall x :: 0 <= x < |p| && p[x] != x ==> rk[x] < rk[p[x]])
  }

  /** The largest rank (0 for no vertices). */
  ghost function MaxRank(rk: seq<int>): (m: int)
    ensures forall i :: 0 <= i < |rk| ==> rk[i] <= m
  {
    if rk == [] then 0
    else
      var m := MaxRank(rk[..|rk| - 1]);
      if rk[|rk| - 1] > m then rk[|rk| - 1] else m
  }

  /** The root reached from x by following parent links. */
  ghost function Root(p: seq<int>, rk: seq<int>, x: int): (r: int)
    requires Ranked(p, rk) && 0 <= x < |p|
    ensures 0 <= r < |p| && p[r] == r
    ensures p[x] == x ==> r == x
    decreases MaxRank(rk) - rk[x]
  {
    if p[x] == x then x else Root(p, rk, p[x])
  }

  /** The root of every vertex: two vertices are in one set iff their entries agree. */
  ghost function Roots(p: seq<int>, rk: seq<int>): (R: seq<int>)
    requires Ranked(p, rk)
    ensures |R| == |p| && forall x :: 0 <= x < |p| ==> R[x] == Root(p, rk, x)
  {
    seq(|p|, x requires 0 <= x < |p| => Root(p, rk, x))
  }

  /** A vertex below a root has a lower rank than that root. */
  lemma {:induction false} RootRankAbove(p: seq<int>, rk: seq<int>, x: int)
    requires Ranked(p, rk) && 0 <= x < |p| && p[x] != x
    ensures rk[x] < rk[Root(p, rk, x)]
    decreases MaxRank(rk) - rk[x]
  {
    if p[p[x]] != p[x] {
      RootRankAbove(p, rk, p[x]);
    }
  }

  /** Which root a vertex reaches depends on the parent links only, not on the ranks. */
  lemma {:induction false} RootIgnoresRank(p: seq<int>, rk: seq<int>, rk': seq<int>, x: int)
    requires Ranked(p, rk) && Ranked(p, rk') && 0 <= x < |p|
    ensures Root(p, rk, x) == Root(p, rk', x)
    decreases MaxRank(rk) - rk[x]
  {
    if p[x] != x {
      RootIgnoresRank(p, rk, rk', p[x]);
    }
  }

  lemma RootsIgnoreRank(p: seq<int>, rk: seq<int>, rk': seq<int>)
    requires Ranked(p, rk) && Ranked(p, rk')
    ensures Roots(p, rk) == Roots(p, rk')
  {
    forall x | 0 <= x < |p|
      ensures Root(p, rk, x) == Root(p, rk', x)
    {
      RootIgnoresRank(p, rk, rk', x);
    }
  }

  /**
   * Path compression from x: every vertex on the path from x to its root is
   * redirected to that root; x itself then points at its root.
   */
  ghost function Compress(p: seq<int>, rk: seq<int>, x: int): (q: seq<int>)
    requires Ranked(p, rk) && 0 <= x < |p|
    ensures |q| == |p| && q[x] == Root(p, rk, x)
    decreases MaxRank(rk) - rk[x]
  {
    if p[x] == x then p else Compress(p, rk, p[x])[x := Root(p, rk, x)]
  }

  /** q takes shortcuts of p: each entry keeps its parent or jumps to its own root. */
  ghost predicate Shortcuts(p: seq<int>, rk: seq<int>, q: seq<int>)
    requires Ranked(p, rk)
  {
    |q| == |p| &&
    forall y :: 0 <= y < |p| ==> q[y] == p[y] || (p[y] != y && q[y] == Root(p, rk, y))
  }

  /** Compression takes shortcuts only: every entry keeps its parent or now points at its own root. */
  lemma {:induction false} CompressShortcuts(p: seq<int>, rk: seq<int>, x: int)
    requires Ranked(p, rk) && 0 <= x < |p|
    ensures Shortcuts(p, rk, Compress(p, rk, x))
    decreases MaxRank(rk) - rk[x]
  {
    if p[x] != x {
      CompressShortcuts(p, rk, p[x]);
    }
  }

  lemma ShortcutsRanked(p: seq<int>, rk: seq<int>, q: seq<int>)
    requires Ranked(p, rk) && Shortcuts(p, rk, q)
    ensures Ranked(q, rk)
  {
    forall y | 0 <= y < |q| && q[y] != y
      ensures rk[y] < rk[q[y]]
    {
      if q[y] != p[y] {
        RootRankAbove(p, rk, y);
      }
    }
  }

  lemma {:induction false} ShortcutRoot(p: seq<int>, rk: seq<int>, q: seq<int>, y: int)
    requires Ranked(p, rk) && Ranked(q, rk) && Shortcuts(p, rk, q) && 0 <= y < |p|
    ensures Root(q, rk, y) == Root(p, rk, y)
    decreases MaxRank(rk) - rk[y]
  {
    if p[y] != y {
      if q[y] == p[y] {
        ShortcutRoot(p, rk, q, p[y]);
      } else {
        var r := Root(p, rk, y);
        assert q[r] == r;
      }
    }
  }

  /** Taking shortcuts keeps the rank order and the root of every vertex. */
  lemma ShortcutsKeepRoots(p: seq<int>, rk: seq<int>, q: seq<int>)
    requires Ranked(p, rk) && Shortcuts(p, rk, q)
    ensures Ranked(q, rk) && Roots(q, rk) == Roots(p, rk)
    ensures forall y :: 0 <= y < |p| ==> (q[y] == y <==> p[y] == y)
  {
    ShortcutsRanked(p, rk, q);
    forall y | 0 <= y < |p|
      ensures Root(q, rk, y) == Root(p, rk, y)
    {
      ShortcutRoot(p, rk, q, y);
    }
    forall y | 0 <= y < |p| && p[y] != y
      ensures q[y] != y
    {
      RootRankAbove(p, rk, y);
    }
  }

  /**
   * Path compression keeps the partition: every vertex reaches the same root
   * as before, the roots stay roots, and the rank order is kept.
   */
  lemma CompressKeepsRoots(p: seq<int>, rk: seq<int>, x: int)
    requires Ranked(p, rk) && 0 <= x < |p|
    ensures Ranked(Compress(p, rk, x), rk)
    ensures Roots(Compress(p, rk, x), rk) == Roots(p, rk)
    ensures forall y :: 0 <= y < |p| ==> (Compress(p, rk, x)[y] == y <==> p[y] == y)
  {
    CompressShortcuts(p, rk, x);
    ShortcutsKeepRoots(p, rk, Compress(p, rk, x));
  }

  /**
   * A second find from x answers as the first did, and finds nothing more
   * to compress: x already points at its root.
   */
  lemma FindTwice(p: seq<int>, rk: seq<int>, x: int)
    requires Ranked(p, rk) && 0 <= x < |p|
    ensures Ranked(Compress(p, rk, x), rk)
    ensures Root(Compress(p, rk, x), rk, x) == Root(p, rk, x)
    ensures Compress(Compress(p, rk, x), rk, x) == Compress(p, rk, x)
  {
    CompressKeepsRoots(p, rk, x);
    var q := Compress(p, rk, x);
    var r := Root(p, rk, x);
    assert Roots(q, rk)[x] == Roots(p, rk)[x];
    if q[x] != x {
      assert q[r] == r;
      assert Compress(q, rk, r) == q;
      assert q[x := r] == q;
    }
  }

  /**
   * Linking root a under root b: the vertices whose root was a now reach b,
   * every other vertex keeps its root.
   */
  lemma {:induction false} LinkRoot(p: seq<int>, rk: seq<int>, a: int, b: int, y: int)
    requires Ranked(p, rk) && 0 <= a < |p| && 0 <= b < |p| && p[a] == a && p[b] == b
    requires Ranked(p[a := b], rk) && 0 <= y < |p|
    ensures Root(p[a := b], rk, y) == if Root(p, rk, y) == a then b else Root(p, rk, y)
    decreases MaxRank(rk) - rk[y]
  {
    var q := p[a := b];
    if a == b {
      assert q == p;
    } else if p[y] != y {
      LinkRoot(p, rk, a, b, p[y]);
    } else if y == a {
      assert q[b] == b;
    }
  }

  lemma LinkRoots(p: seq<int>, rk: seq<int>, a: int, b: int)
    requires Ranked(p, rk) && 0 <= a < |p| && 0 <= b < |p| && p[a] == a && p[b] == b
    requires Ranked(p[a := b], rk)
    ensures forall y :: 0 <= y < |p| ==>
      Roots(p[a := b], rk)[y] == if Roots(p, rk)[y] == a then b else Roots(p, rk)[y]
  {
    forall y | 0 <= y < |p|
      ensures Root(p[a := b], rk, y) == if Root(p, rk, y) == a then b else Root(p, rk, y)
    {
      LinkRoot(p, rk, a, b, y);
    }
  }

  /**
   * Linking the root l of one of the sets of a and b under the root w of the
   * other, with ranks rk' that either equal rk or raise w's rank by one,
   * merges the two sets under w.
   */
  lemma LinkMerges(p: seq<int>, rk: seq<int>, rk': seq<int>, a: int, b: int, l: int, w: int)
    requires Ranked(p, rk) && 0 <= a < |p| && 0 <= b < |p|
    requires var u, v := Root(p, rk, a), Root(p, rk, b); (l == u && w == v) || (l == v && w == u)
    requires rk' == rk || rk' == rk[w := rk[w] + 1]
    requires l != w ==> rk[l] < rk'[w]
    ensures Ranked(p[l := w], rk')
    ensures Merged(Roots(p, rk), Roots(p[l := w], rk'), a, b, w)
  {
    LinkRanked(p, rk, rk', a, b, l, w);
    RootsIgnoreRank(p, rk, rk');
    LinkRoots(p, rk', l, w);
    LinkedMerged(Roots(p, rk), Roots(p[l := w], rk'), a, b, l, w);
  }

  /** Relabelling the root l as w, where l and w are the roots of a and b, merges their sets under w. */
  lemma LinkedMerged(R: seq<int>, R': seq<int>, a: int, b: int, l: int, w: int)
    requires |R'| == |R| && 0 <= a < |R| && 0 <= b < |R|
    requires (l == R[a] && w == R[b]) || (l == R[b] && w == R[a])
    requires forall y :: 0 <= y < |R| ==> R'[y] == if R[y] == l then w else R[y]
    ensures Merged(R, R', a, b, w)
  {
  }

  /**
   * The three cases of unionByRank on the roots u and v of a and b: the root
   * of lower rank goes under the other, and on a tie v goes under u, whose
   * rank grows by one.  Each case keeps the ranks climbing and merges the
   * two sets under the surviving root.
   */
  lemma UnionCases(p: seq<int>, rk: seq<int>, p': seq<int>, rk': seq<int>, a: int, b: int, u: int, v: int)
    requires Ranked(p, rk) && 0 <= a < |p| && 0 <= b < |p| && u == Root(p, rk, a) && v == Root(p, rk, b)
    requires rk[u] < rk[v] ==> p' == p[u := v] && rk' == rk
    requires rk[u] > rk[v] ==> p' == p[v := u] && rk' == rk
    requires rk[u] == rk[v] ==> p' == p[v := u] && rk' == rk[u := rk[u] + 1]
    ensures Ranked(p', rk') && Merged(Roots(p, rk), Roots(p', rk'), a, b, Roots(p', rk')[a])
  {
    if rk[u] < rk[v] {
      LinkMerges(p, rk, rk, a, b, u, v);
    } else if rk[u] > rk[v] {
      LinkMerges(p, rk, rk, a, b, v, u);
    } else {
      LinkMerges(p, rk, rk', a, b, v, u);
    }
  }

  /** The link of LinkMerges keeps parent links climbing in rank, under either rank table. */
  lemma LinkRanked(p: seq<int>, rk: seq<int>, rk': seq<int>, a: int, b: int, l: int, w: int)
    requires Ranked(p, rk) && 0 <= a < |p| && 0 <= b < |p|
    requires var u, v := Root(p, rk, a), Root(p, rk, b); (l == u && w == v) || (l == v && w == u)
    requires rk' == rk || rk' == rk[w := rk[w] + 1]
    requires l != w ==> rk[l] < rk'[w]
    ensures Ranked(p, rk') && Ranked(p[l := w], rk')
  {
    assert Ranked(p, rk');
  }

  /**
   * R' is R with the sets of a and b merged under the root w, one of their
   * two roots; every other set keeps its root.
   */
  ghost predicate Merged(R: seq<int>, R': seq<int>, a: int, b: int, w: int)
  {
    |R'| == |R| && 0 <= a < |R| && 0 <= b < |R| && (w == R[a] || w == R[b]) &&
    forall y :: 0 <= y < |R| ==>
      R'[y] == if R[y] == R[a] || R[y] == R[b] then w else R[y]
  }

  /** p with every entry `from` in slots 0..hi-1 rewritten to `to`. */
  function Relabel(p: seq<int>, from: int, to: int, hi: int): (q: seq<int>)
    ensures |q| == |p|
  {
    seq(|p|, i requires 0 <= i < |p| => if i < hi && p[i] == from then to else p[i])
  }

  /**
   * A flat forest, in which every vertex points straight at a root: the
   * shape the naive union keeps when it is the only union used.
   */
  ghost predicate Flat(p: seq<int>)
  {
    forall y :: 0 <= y < |p| ==> 0 <= p[y] < |p| && p[p[y]] == p[y]
  }

  /**
   * Rewriting the root `from` to the root `to` in every slot of a flat
   * forest merges exactly those two sets and keeps the forest flat.
   */
  lemma RelabelMerges(p: seq<int>, from: int, to: int)
    requires Flat(p) && 0 <= from < |p| && 0 <= to < |p| && p[from] == from && p[to] == to
    ensures Flat(Relabel(p, from, to, |p|))
    ensures forall y, z :: 0 <= y < |p| && 0 <= z < |p| ==>
      (Relabel(p, from, to, |p|)[y] == Relabel(p, from, to, |p|)[z] <==>
        p[y] == p[z] || ((p[y] == from || p[y] == to) && (p[z] == from || p[z] == to)))
  {
  }

  /**
   * The naive union as written rewrites slots 0..N-1 only, so the last
   * vertex N keeps its old parent: with singleton sets over 0..N, merging
   * the set of N into the set of 1 leaves N on its own.
   */
  lemma UnionSkipsLast(p: seq<int>, N: int)
    requires 2 <= N && |p| == N + 1 && forall y :: 0 <= y <= N ==> p[y] == y
    ensures Relabel(p, N, 1, N)[N] == N != Relabel(p, N, 1, N)[1]
    ensures Relabel(p, N, 1, N + 1)[N] == 1 == Relabel(p, N, 1, N + 1)[1]
  {
  }

  class UnionFindSets {
    const treeParent: array<int>
    const rank: array<int>
    /** The highest vertex; the sets partition the vertices 0..N. */
    const N: int

    /** The arrays cover vertices 0..N and every parent is a vertex. */
    ghost predicate Shape()
      reads this, treeParent
    {
      0 <= N && treeParent.Length == N + 1 && rank.Length == N + 1 && treeParent != rank &&
      forall i :: 0 <= i <= N ==> 0 <= treeParent[i] <= N
    }

    /** The disjoint-set invariant: parents climb strictly in rank. */
    ghost predicate Valid()
      reads this, treeParent, rank
    {
      Shape() && Ranked(treeParent[..], rank[..])
    }

    /** The root of each vertex 0..N. */
    ghost function RootsOf(): seq<int>
      reads this, treeParent, rank
      requires Valid()
    {
      Roots(treeParent[..], rank[..])
    }

    /** Every vertex 0..V starts as a singleton set of rank 0. */
    constructor (V: int)
      requires 0 <= V
      ensures Valid() && N == V && fresh(treeParent) && fresh(rank)
      ensures forall i :: 0 <= i <= V ==> treeParent[i] == i && rank[i] == 0
      ensures forall i :: 0 <= i <= V ==> RootsOf()[i] == i
    {
      N := V;
      treeParent := new int[V + 1];
      rank := new int[V + 1];
      new;
      var i := 0;
      while i <= V
        invariant 0 <= i <= V + 1
        invariant forall j :: 0 <= j < i ==> treeParent[j] == j && rank[j] == 0
      {
        treeParent[i] := i;
        rank[i] := 0;
        i := i + 1;
      }
    }

    /**
     * Returns the root of `vertex`, compressing the path on the way back:
     * the new links are Compress of the old, so the partition is unchanged
     * and `vertex` points straight at its root.
     */
    method FindSet(vertex: int) returns (r: int)
      requires Valid() && 0 <= vertex <= N
      modifies treeParent
      ensures Valid()
      ensures r == Root(old(treeParent[..]), rank[..], vertex)
      ensures treeParent[..] == Compress(old(treeParent[..]), rank[..], vertex)
      ensures treeParent[vertex] == r && treeParent[r] == r
      ensures RootsOf() == old(RootsOf())
      decreases MaxRank(rank[..]) - rank[vertex]
    {
      ghost var p := treeParent[..];
      if treeParent[vertex] != vertex {
        var y := FindSet(treeParent[vertex]);
        treeParent[vertex] := y;
      }
      r := treeParent[vertex];
      assert treeParent[..] == Compress(p, rank[..], vertex);
      CompressKeepsRoots(p, rank[..], vertex);
    }

    /**
     * The naive union: every vertex 0..N-1 whose parent is `set2` is given
     * the parent `set1`; vertex N is not looked at.  It keeps no ranks, so it
     * is stated on the shape only.
     */
    method Union(set1: int, set2: int)
      requires Shape() && 0 <= set1 <= N
      modifies treeParent
      ensures Shape()
      ensures treeParent[..] == Relabel(old(treeParent[..]), set2, set1, N)
    {
      var i := 0;
      while i < N
        invariant 0 <= i <= N
        invariant forall j :: 0 <= j < i ==> treeParent[j] == Relabel(old(treeParent[..]), set2, set1, N)[j]
        invariant forall j :: i <= j <= N ==> treeParent[j] == old(treeParent[j])
      {
        if treeParent[i] == set2 {
          treeParent[i] := set1;
        }
        i := i + 1;
      }
    }

    /** `treeParent[l] = w`, and `rank[w]++` when `bump`. */
    method Link(l: int, w: int, bump: bool, ghost p: seq<int>, ghost rk: seq<int>)
      requires Shape() && treeParent[..] == p && rank[..] == rk && 0 <= l <= N && 0 <= w <= N
      modifies treeParent, rank
      ensures Shape() && treeParent[..] == p[l := w] && rank[..] == if bump then rk[w := rk[w] + 1] else rk
    {
      treeParent[l] := w;
      if bump {
        rank[w] := rank[w] + 1;
      }
    }

    /**
     * Union by rank of the sets of `set1` and `set2`: with u and v their
     * roots, the root of lower rank is attached under the other; on a tie v
     * goes under u and u's rank grows by one.  The two sets become one and
     * every other set keeps its root.
     */
    method UnionByRank(set1: int, set2: int)
      requires Valid() && 0 <= set1 <= N && 0 <= set2 <= N
      modifies treeParent, rank
      ensures Valid()
      ensures Merged(old(RootsOf()), RootsOf(), set1, set2, RootsOf()[set1])
      ensures var u, v := old(RootsOf())[set1], old(RootsOf())[set2];
        (old(rank[u]) < old(rank[v]) ==> treeParent[u] == v && rank[..] == old(rank[..])) &&
        (old(rank[u]) > old(rank[v]) ==> treeParent[v] == u && rank[..] == old(rank[..])) &&
        (old(rank[u]) == old(rank[v]) ==> treeParent[v] == u && rank[..] == old(rank[..])[u := old(rank[u]) + 1])
    {
      ghost var R := RootsOf();
      var u := FindSet(set1);
      var v := FindSet(set2);
      ghost var p, rk := treeParent[..], rank[..];
      assert R == Roots(p, rk) && u == R[set1] && v == R[set2];
      if rank[u] < rank[v] {
        Link(u, v, false, p, rk);
      } else if rank[u] > rank[v] {
        Link(v, u, false, p, rk);
      } else {
        Link(v, u, true, p, rk);
      }
      UnionCases(p, rk, treeParent[..], rank[..], set1, set2, u, v);
    }
  }
}
