/**
 * The binary min-heap of edge indices that Kruskal's algorithm extracts from
 * (class `Heap` of Kruskal.java).  Slots a[1..N] hold edge indices ordered by
 * edge weight; it is built once, bottom-up, and afterwards only shrinks.
 */
module EdgeHeaps {
  import opened HeapOrder
  import opened Edges

  class EdgeHeap {
    const a: array<int>
    var N: int
    const Nmax: int
    const edge: seq<Edge>
    /** The weights of `edge`, the keys of the heap order. */
    ghost const key: seq<int>

    /** Array shape: every slot holds an index of `edge`, and N is within capacity. */
    ghost predicate Shape()
      reads this, a
    {
      |edge| == Nmax + 1 && a.Length == Nmax + 1 && 0 <= N <= Nmax &&
      |key| == |edge| && (forall i :: 0 <= i < |edge| ==> key[i] == edge[i].wgt) &&
      Keyed(a[..], key)
    }

    /** The heap invariant: shape plus min-heap order by weight on slots 1..N. */
    ghost predicate Valid()
      reads this, a
    {
      Shape() && IsHeap(a[..], key, N)
    }

    /** The edge indices still in the heap. */
    ghost function Contents(): multiset<int>
      reads this, a
      requires Shape()
    {
      multiset(a[1..N + 1])
    }

    /**
     * Bottom-up construction over edge slots 1..n: slot i first holds index i,
     * then every internal slot from n/2 down to 1 is sifted down.
     */
    constructor (n: int, edges: seq<Edge>)
      requires 0 <= n && |edges| == n + 1
      ensures Valid() && fresh(a)
      ensures N == n && Nmax == n && edge == edges
      ensures Contents() == multiset(Ids(n))
    {
      Nmax, N := n, n;
      a := new int[n + 1];
      edge := edges;
      key := Weights(edges);
      new;
      var i := 0;
      while i <= N
        modifies a
        invariant 0 <= i <= N + 1
        invariant forall j :: 0 <= j < i ==> a[j] == j
      {
        a[i] := i;
        i := i + 1;
      }
      Heapify();
    }

    /**
     * The second phase of construction: every internal slot from N/2 down to 1
     * is sifted down, turning slots that hold their own numbers into a heap.
     */
    method Heapify()
      requires Shape() && forall j :: 0 <= j <= N ==> a[j] == j
      modifies a
      ensures Valid() && Contents() == multiset(Ids(N))
    {
      HeapifyBegin(a[..], key, N);
      var i := N / 2;
      while i > 0
        invariant Heapifying(a[..], key, N, i)
      {
        ghost var before := a[..];
        assert a[i] == before[i] == i && Keyed(before, key);
        // slots up to i are still untouched, so a[i] is the slot number i itself
        SiftDown(a[i]);
        HeapifyStep(before, a[..], key, N, i);
        i := i - 1;
      }
      ghost var fin := a[..];
      assert a[1..N + 1] == fin[1..N + 1];
      assert Contents() == multiset(fin[1..N + 1]);
    }

    /**
     * Moves the index held in slot `start` down the tree until neither child is
     * lighter, shifting lighter children up into the hole it leaves: the new
     * array is the outcome SiftsDown of the old one.
     */
    method SiftDown(start: int)
      requires Shape() && 1 <= start < a.Length
      modifies a
      ensures Shape()
      ensures SiftsDown(old(a[..]), key, N, start, a[..])
    {
      ghost var g0 := a[..];
      var k := start;
      var e := a[k];
      // g is the array with the moving index written into the hole at k
      ghost var g := a[..];
      while k <= N / 2
        invariant start <= k < a.Length && |g| == a.Length && g[k] == e
        invariant forall i :: 0 <= i < a.Length && i != k ==> a[i] == g[i]
        invariant Keyed(g, key)
        invariant forall f :: SiftsDown(g, key, N, k, f) ==> SiftsDown(g0, key, N, start, f)
        decreases N - k
      {
        var j := 2 * k;
        // pick the lighter child
        if j < N && edge[a[j]].wgt > edge[a[j + 1]].wgt {
          j := j + 1;
        }
        assert j == LighterChild(g, key, N, k);
        if edge[e].wgt <= edge[a[j]].wgt {
          break;
        }
        SwapKeyed(g, key, k, j);
        g := Swap(g, k, j);
        a[k] := a[j];
        k := j;
      }
      a[k] := e;
      assert a[..] == g;
    }

    /** Takes out the lightest edge index: the root moves to slot 0, the last slot to the root, which is sifted down. */
    method Remove() returns (r: int)
      requires Valid() && N >= 1
      modifies this`N, a
      ensures Valid() && N == old(N) - 1
      ensures r == old(a[1]) && a[0] == r
      ensures old(Contents()) == Contents() + multiset{r}
      ensures forall x :: x in old(Contents()) ==> key[r] <= key[x]
    {
      ghost var s0 := a[..];
      ghost var n0 := N;
      TakeRoot(s0);
      ghost var t := a[..];
      SiftDown(1);
      RootRemovedSifted(s0, t, a[..], key, n0);
      RootIsMinimum(s0, key, n0);
      r := a[0];
    }

    /** The first steps of Remove: the root goes to slot 0 and the last slot's index to the root. */
    method TakeRoot(ghost s0: seq<int>)
      requires Valid() && N >= 1 && a[..] == s0
      modifies this`N, a
      ensures Shape() && N == old(N) - 1
      ensures a[..] == s0[0 := s0[1]][1 := s0[N + 1]]
    {
      a[0] := a[1];
      a[1] := a[N];
      N := N - 1;
    }
  }
}
