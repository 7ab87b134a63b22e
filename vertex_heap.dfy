/**
 * The indexed binary min-heap of vertices used by Prim's algorithm (class
 * `Heap` of PrimLists.java).  Slots a[1..N] hold vertices ordered by the
 * caller's `dist` array, and the caller's `hPos` array records the slot of
 * every vertex in the heap, which lets the caller lower the key of a vertex
 * and sift it up from its slot.
 */
module VertexHeaps {
  import opened HeapOrder

  /** Integer.MAX_VALUE: the distance of a vertex not reached yet. */
  const INF := 0x7fff_ffff
  /** Integer.MIN_VALUE: the sentinel key that a sift-up plants in dist[0]. */
  const MIN := -0x8000_0000

  /** Slots 0..|a|-1 hold vertices; those in slots 1..n are real vertices (at least 1) with a key of at least MIN. */
  ghost predicate Slots(a: seq<int>, key: seq<int>, n: int)
  {
    0 <= n < |a| && Keyed(a, key) && forall i :: 1 <= i <= n ==> 1 <= a[i] && MIN <= key[a[i]]
  }

  /** Every vertex in slots 1..n is recorded at its own slot: pos[a[k]] == k. */
  ghost predicate Indexed(a: seq<int>, pos: seq<int>, n: int)
  {
    forall k :: 1 <= k <= n && k < |a| ==> 0 <= a[k] < |pos| && pos[a[k]] == k
  }

  /**
   * The state a sift starts from: the vertex in slot k may not be recorded
   * at k yet, every other slot in 1..n is, and no other slot holds the
   * vertex of slot k.
   */
  ghost predicate Holed(a: seq<int>, key: seq<int>, pos: seq<int>, n: int, k: int)
  {
    Slots(a, key, n) && |pos| == |key| && 1 <= k < |a| &&
    forall i :: 1 <= i <= n && i != k ==> pos[a[i]] == i && a[i] != a[k]
  }

  /** Slots 1..n of s and of t hold the same vertices, as many times each. */
  ghost predicate SameVertices(s: seq<int>, t: seq<int>, n: int)
  {
    0 <= n < |s| && n < |t| && multiset(s[1..n + 1]) == multiset(t[1..n + 1])
  }

  /** Every entry of pos that differs from pos0 records the slot in 1..n that now holds its vertex. */
  ghost predicate Repositioned(pos0: seq<int>, pos: seq<int>, a: seq<int>, n: int)
  {
    |pos| == |pos0| &&
    forall x :: 0 <= x < |pos| && pos[x] != pos0[x] ==> 1 <= pos[x] <= n && pos[x] < |a| && a[pos[x]] == x
  }

  /** Repositioned, except for vertex v, whose position may change in any way. */
  ghost predicate RepositionedBut(pos0: seq<int>, pos: seq<int>, a: seq<int>, n: int, v: int)
  {
    |pos| == |pos0| &&
    forall x :: 0 <= x < |pos| && x != v && pos[x] != pos0[x] ==> 1 <= pos[x] <= n && pos[x] < |a| && a[pos[x]] == x
  }

  /** Vertex v has a key no larger than that of any vertex in m. */
  ghost predicate Lightest(key: seq<int>, v: int, m: multiset<int>)
  {
    0 <= v < |key| && forall x :: x in m ==> 0 <= x < |key| && key[v] <= key[x]
  }

  /** With the position index in place, a vertex is in slots 1..n exactly when its recorded slot holds it. */
  lemma SlotOf(a: seq<int>, pos: seq<int>, n: int, x: int)
    requires 0 <= n < |a| && Indexed(a, pos, n)
    ensures x in multiset(a[1..n + 1]) <==> 0 <= x < |pos| && 1 <= pos[x] <= n && a[pos[x]] == x
  {
    if x in multiset(a[1..n + 1]) {
      var i :| 0 <= i < n && a[1..n + 1][i] == x;
      assert a[i + 1] == x;
    }
    if 0 <= x < |pos| && 1 <= pos[x] <= n && a[pos[x]] == x {
      assert a[1..n + 1][pos[x] - 1] == x;
    }
  }

  /** Vertex u is in the heap of slots A[1..n]: its recorded slot lies in 1..n and holds it. */
  ghost predicate InHeap(A: seq<int>, H: seq<int>, n: int, u: int)
  {
    0 <= u < |H| && 1 <= H[u] <= n && H[u] < |A| && A[H[u]] == u
  }

  /**
   * The slots after a removal of v, stated by positions: v was in the heap
   * with the least dist there, and the heap now holds the rest.
   */
  lemma Removed(A0: seq<int>, H0: seq<int>, n0: int, A: seq<int>, H: seq<int>, n: int, D: seq<int>, v: int,
                m0: multiset<int>, m: multiset<int>)
    requires 0 <= n0 < |A0| && Indexed(A0, H0, n0) && 0 <= n < |A| && Indexed(A, H, n)
    requires m0 == multiset(A0[1..n0 + 1]) && m == multiset(A[1..n + 1])
    requires m0 == m + multiset{v} && v !in m && Lightest(D, v, m0) && |H0| == |D|
    ensures InHeap(A0, H0, n0, v)
    ensures forall x :: InHeap(A, H, n, x) <==> InHeap(A0, H0, n0, x) && x != v
    ensures forall x :: InHeap(A0, H0, n0, x) ==> D[v] <= D[x]
  {
    SlotOf(A0, H0, n0, v);
    forall x
      ensures InHeap(A, H, n, x) <==> InHeap(A0, H0, n0, x) && x != v
      ensures InHeap(A0, H0, n0, x) ==> D[v] <= D[x]
    {
      SlotOf(A0, H0, n0, x);
      SlotOf(A, H, n, x);
    }
  }

  /** With the position index in place, any slot in 1..n may be taken as the start of a sift. */
  lemma IndexedHoled(a: seq<int>, key: seq<int>, pos: seq<int>, n: int, k: int)
    requires Slots(a, key, n) && |pos| == |key| && Indexed(a, pos, n) && 1 <= k <= n
    ensures Holed(a, key, pos, n, k)
  {
    forall i | 1 <= i <= n && i != k
      ensures pos[a[i]] == i && a[i] != a[k]
    {
      assert pos[a[k]] == k;
    }
  }

  /**
   * The position bookkeeping in the middle of a sift whose moving vertex is
   * in slot k of g: every other slot in 1..n is recorded in pos and holds
   * another vertex, and every entry of pos that changed since pos0 records
   * the slot, other than k, that now holds its vertex.
   */
  ghost predicate Tracked(g: seq<int>, pos0: seq<int>, pos: seq<int>, n: int, k: int)
    requires 0 <= k < |g| && n < |g| && forall i :: 0 <= i < |g| ==> 0 <= g[i] < |pos|
  {
    |pos| == |pos0| &&
    (forall i :: 1 <= i <= n && i != k ==> pos[g[i]] == i && g[i] != g[k]) &&
    (forall x :: 0 <= x < |pos| && pos[x] != pos0[x] ==> 1 <= pos[x] <= n && pos[x] != k && g[pos[x]] == x)
  }

  /**
   * Exchanging the moving vertex in slot k with the vertex in another slot
   * p of 1..n, and recording that vertex at k, moves the tracked hole to p.
   */
  lemma TrackedStep(g: seq<int>, pos0: seq<int>, pos: seq<int>, n: int, k: int, p: int)
    requires 1 <= k <= n && 1 <= p <= n < |g| && p != k && Keyed(g, pos)
    requires Tracked(g, pos0, pos, n, k)
    ensures Keyed(Swap(g, k, p), pos) && Tracked(Swap(g, k, p), pos0, pos[g[p] := k], n, p)
  {
    SwapKeyed(g, pos, k, p);
    var g', pos' := Swap(g, k, p), pos[g[p] := k];
    forall i | 1 <= i <= n && i != p
      ensures pos'[g'[i]] == i && g'[i] != g'[p]
    {
      if i != k {
        assert g'[i] == g[i] != g[p];
      }
    }
    forall x | 0 <= x < |pos'| && pos'[x] != pos0[x]
      ensures 1 <= pos'[x] <= n && pos'[x] != p && g'[pos'[x]] == x
    {
      if x != g[p] {
        assert pos'[x] == pos[x] && g[pos[x]] == x;
      }
    }
  }

  /**
   * Recording the moving vertex at its slot k completes the position index;
   * every changed position then records the slot of its vertex, provided k
   * is in 1..n.
   */
  lemma TrackedDone(g: seq<int>, pos0: seq<int>, pos: seq<int>, n: int, k: int)
    requires 1 <= k < |g| && n < |g| && forall i :: 0 <= i < |g| ==> 0 <= g[i] < |pos|
    requires Tracked(g, pos0, pos, n, k)
    ensures Indexed(g, pos[g[k] := k], n) && Repositioned(pos0, pos, g, n)
    ensures k <= n ==> Repositioned(pos0, pos[g[k] := k], g, n)
  {
  }

  /** Moving slot j's entry into slot k, then writing v into slot j, exchanges k and j of the array with v written at k. */
  lemma ShiftSwaps(s: seq<int>, k: int, j: int, v: int)
    requires 0 <= k < |s| && 0 <= j < |s| && k != j
    ensures s[k := s[j]][j := v] == Swap(s[k := v], k, j)
  {
  }

  /** Slots 1..n that hold the same vertices as a well-formed s are well formed too. */
  lemma SlotsKept(s: seq<int>, t: seq<int>, key: seq<int>, n: int)
    requires Slots(s, key, n) && |t| == |s| && Keyed(t, key) && SameVertices(s, t, n)
    ensures Slots(t, key, n)
  {
    forall i | 1 <= i <= n
      ensures 1 <= t[i] && MIN <= key[t[i]]
    {
      assert t[1..n + 1][i - 1] == t[i];
      assert t[i] in multiset(s[1..n + 1]);
      var m :| 0 <= m < n && s[1..n + 1][m] == t[i];
      assert s[m + 1] == t[i];
    }
  }

  /**
   * What holds while a sift-up from slot k0 of g0 over slots 1..n has its
   * moving vertex in slot k of g: slot 0 holds the null vertex 0 with key
   * MIN, the moving vertex has a key of at least MIN, the positions are
   * tracked, and sifting up on from k ends where sifting up from k0 would.
   */
  ghost predicate Climbing(g0: seq<int>, key: seq<int>, pos0: seq<int>, n: int, k0: int, k: int, g: seq<int>, pos: seq<int>)
  {
    1 <= k <= k0 <= n < |g0| == |g| && Keyed(g0, key) && Keyed(g, key) && |pos| == |key| &&
    g[0] == 0 && key[0] == MIN && MIN <= key[g[k]] &&
    Tracked(g, pos0, pos, n, k) &&
    forall f :: SiftsUp(g, key, k, f) ==> SiftsUp(g0, key, k0, f)
  }

  /** One exchange of the moving vertex with its strictly heavier parent, which is recorded at the vacated slot. */
  lemma ClimbStep(g0: seq<int>, key: seq<int>, pos0: seq<int>, n: int, k0: int, k: int, g: seq<int>, pos: seq<int>)
    requires Climbing(g0, key, pos0, n, k0, k, g, pos) && key[g[k]] < key[g[k / 2]]
    ensures 2 <= k
    ensures Climbing(g0, key, pos0, n, k0, k / 2, Swap(g, k, k / 2), pos[g[k / 2] := k])
  {
    var p := k / 2;
    SwapKeyed(g, key, k, p);
    TrackedStep(g, pos0, pos, n, k, p);
    var g' := Swap(g, k, p);
    assert forall f :: SiftsUp(g', key, p, f) ==> SiftsUp(g, key, k, f);
  }

  /** Where the loop of a sift-up stops, g is the outcome SiftsUp of g0. */
  ghost predicate Climbed(g0: seq<int>, key: seq<int>, pos0: seq<int>, n: int, k0: int, k: int, g: seq<int>, pos: seq<int>)
  {
    Climbing(g0, key, pos0, n, k0, k, g, pos) && SiftsUp(g0, key, k0, g)
  }

  /** Once the moving vertex is no lighter than the vertex in its parent slot, the sift-up has ended. */
  lemma ClimbExit(g0: seq<int>, key: seq<int>, pos0: seq<int>, n: int, k0: int, k: int, g: seq<int>, pos: seq<int>)
    requires Climbing(g0, key, pos0, n, k0, k, g, pos) && key[g[k / 2]] <= key[g[k]]
    ensures Climbed(g0, key, pos0, n, k0, k, g, pos)
  {
    assert SiftsUp(g, key, k, g);
  }

  /**
   * Completing a sift-up from the one slot k0 that may be lighter than its
   * parent, by recording the moving vertex at its final slot, gives a heap
   * over the same vertices with every slot recorded; every changed position
   * records the slot of its vertex.
   */
  lemma ClimbDone(a0: seq<int>, d0: seq<int>, pos0: seq<int>, n: int, k0: int, k: int, g: seq<int>, pos: seq<int>)
    requires |a0| == |d0| && Holed(a0, d0, pos0, n, k0) && k0 <= n && UpReady(a0, d0, n, k0)
    requires Climbed(a0[0 := 0], d0[0 := MIN], pos0, n, k0, k, g, pos)
    ensures Slots(g, d0[0 := MIN], n) && IsHeap(g, d0[0 := MIN], n)
    ensures SameVertices(a0, g, n)
    ensures Indexed(g, pos[g[k] := k], n) && Repositioned(pos0, pos[g[k] := k], g, n)
  {
    var g0, key := a0[0 := 0], d0[0 := MIN];
    SentinelReady(a0, d0, pos0, n, k0);
    SiftsUpOrders(g0, key, n, k0, g);
    SiftsUpContents(g0, key, n, k0, g);
    assert g0[1..n + 1] == a0[1..n + 1];
    SlotsKept(g0, g, key, n);
    TrackedDone(g, pos0, pos, n, k);
  }

  /**
   * What holds while a sift-down from slot k0 of g0 over slots 1..n has its
   * moving vertex in slot k of g: the positions are tracked, nothing has
   * moved yet if k is still k0, and sifting down on from k ends where
   * sifting down from k0 would.
   */
  ghost predicate Sinking(g0: seq<int>, key: seq<int>, pos0: seq<int>, n: int, k0: int, k: int, g: seq<int>, pos: seq<int>)
  {
    1 <= k0 <= k < |g0| == |g| && n < |g0| && Keyed(g0, key) && Keyed(g, key) && |pos| == |key| &&
    (k0 <= n ==> k <= n) && (n < k0 ==> k == k0) && (k == k0 ==> g == g0 && pos == pos0) &&
    Tracked(g, pos0, pos, n, k) &&
    forall f :: SiftsDown(g, key, n, k, f) ==> SiftsDown(g0, key, n, k0, f)
  }

  /** One exchange of the moving vertex with its strictly lighter child, which is recorded at the vacated slot. */
  lemma SinkStep(g0: seq<int>, key: seq<int>, pos0: seq<int>, n: int, k0: int, k: int, g: seq<int>, pos: seq<int>)
    requires Sinking(g0, key, pos0, n, k0, k, g, pos) && k <= n / 2
    requires key[g[LighterChild(g, key, n, k)]] < key[g[k]]
    ensures Sinking(g0, key, pos0, n, k0, LighterChild(g, key, n, k), Swap(g, k, LighterChild(g, key, n, k)),
                    pos[g[LighterChild(g, key, n, k)] := k])
  {
    var j := LighterChild(g, key, n, k);
    SwapKeyed(g, key, k, j);
    TrackedStep(g, pos0, pos, n, k, j);
    var g' := Swap(g, k, j);
    assert forall f :: SiftsDown(g', key, n, j, f) ==> SiftsDown(g, key, n, k, f);
  }

  /** Where the loop of a sift-down stops, g is the outcome SiftsDown of g0. */
  ghost predicate Sunk(g0: seq<int>, key: seq<int>, pos0: seq<int>, n: int, k0: int, k: int, g: seq<int>, pos: seq<int>)
  {
    Sinking(g0, key, pos0, n, k0, k, g, pos) && SiftsDown(g0, key, n, k0, g)
  }

  /** Once the moving vertex has no child or is no heavier than its lighter child, the sift-down has ended. */
  lemma SinkExit(g0: seq<int>, key: seq<int>, pos0: seq<int>, n: int, k0: int, k: int, g: seq<int>, pos: seq<int>)
    requires Sinking(g0, key, pos0, n, k0, k, g, pos)
    requires k <= n / 2 ==> key[g[k]] <= key[g[LighterChild(g, key, n, k)]]
    ensures Sunk(g0, key, pos0, n, k0, k, g, pos)
  {
    assert SiftsDown(g, key, n, k, g);
  }

  /**
   * Completing a sift-down by recording the moving vertex at its final slot
   * keeps the vertices of slots 1..n and gives every slot in 1..n its
   * record; every changed position records the slot of its vertex, except
   * for the moving vertex when the sift starts beyond slot n.
   */
  lemma SinkDone(g0: seq<int>, key: seq<int>, pos0: seq<int>, n: int, k0: int, k: int, g: seq<int>, pos: seq<int>)
    requires Slots(g0, key, n) && Sunk(g0, key, pos0, n, k0, k, g, pos)
    ensures Slots(g, key, n) && SameVertices(g0, g, n) && Indexed(g, pos[g[k] := k], n)
    ensures k0 <= n ==> Repositioned(pos0, pos[g[k] := k], g, n)
    ensures n < k0 ==> g == g0 && pos == pos0
  {
    SiftsDownContents(g0, key, n, k0, g);
    SlotsKept(g0, g, key, n);
    TrackedDone(g, pos0, pos, n, k);
  }

  /** The vertices in slots 1..n with the position index in place are pairwise distinct. */
  lemma IndexedDistinct(a: seq<int>, pos: seq<int>, n: int)
    requires 0 <= n < |a| && Indexed(a, pos, n)
    ensures DistinctSlots(a, n)
  {
  }

  /**
   * Writing a new vertex x into the slot after the last of a heap makes
   * slot n+1 the one slot that may be lighter than its parent, with every
   * other slot recorded; the slots then hold x besides the old vertices.
   */
  lemma Appended(s: seq<int>, key: seq<int>, pos: seq<int>, n: int, x: int)
    requires Slots(s, key, n) && n + 1 < |s| && |pos| == |key| && Indexed(s, pos, n) && IsHeap(s, key, n)
    requires 1 <= x < |key| && MIN <= key[x] && x !in multiset(s[1..n + 1])
    ensures Holed(s[n + 1 := x], key, pos, n + 1, n + 1) && UpReady(s[n + 1 := x], key, n + 1, n + 1)
    ensures multiset(s[n + 1 := x][1..n + 2]) == multiset(s[1..n + 1]) + multiset{x}
  {
    var t := s[n + 1 := x];
    forall i | 1 <= i <= n
      ensures pos[t[i]] == i && t[i] != x
    {
      assert s[1..n + 1][i - 1] == s[i];
    }
    forall c | 2 <= c <= n + 1 && c != n + 1
      ensures OrderedAt(t, key, c)
    {
      assert OrderedAt(s, key, c);
    }
    assert t[1..n + 2] == s[1..n + 1] + [x];
  }

  /**
   * Clearing the position of the root of a heap and moving its last slot
   * to the root leaves slots 1..n0-1 ready for a sift-down from the root.
   */
  lemma RootTaken(s0: seq<int>, key: seq<int>, pos0: seq<int>, n0: int)
    requires Slots(s0, key, n0) && |pos0| == |key| && Indexed(s0, pos0, n0) && 1 <= n0
    ensures Holed(s0[1 := s0[n0]], key, pos0[s0[1] := 0], n0 - 1, 1)
  {
    var t, pos := s0[1 := s0[n0]], pos0[s0[1] := 0];
    forall i | 1 <= i <= n0 - 1 && i != 1
      ensures pos[t[i]] == i && t[i] != t[1]
    {
      assert pos0[s0[1]] == 1 && pos0[s0[n0]] == n0;
    }
  }

  /** Resetting the slot after the last to 0 leaves a heap over slots 1..n as it is. */
  lemma ClearedAfter(g: seq<int>, key: seq<int>, n: int)
    requires Slots(g, key, n) && IsHeap(g, key, n) && n + 1 < |g|
    ensures Slots(g[n + 1 := 0], key, n) && IsHeap(g[n + 1 := 0], key, n)
    ensures g[n + 1 := 0][1..n + 1] == g[1..n + 1]
  {
    var t := g[n + 1 := 0];
    assert 0 <= g[0] < |key|;
    forall i | 0 <= i < |t|
      ensures 0 <= t[i] < |key|
    {
      if i != n + 1 {
        assert t[i] == g[i];
      }
    }
    forall c | 2 <= c <= n
      ensures OrderedAt(t, key, c)
    {
      assert OrderedAt(g, key, c);
    }
  }

  /**
   * The slots of a removal from a heap s0 of n0 slots: fin is s0 with its
   * last slot moved to the root and sifted down over n0-1 slots, and slot
   * n0 of fin is then reset to 0.  The result is a heap over the old
   * vertices less the old root, which was minimal.
   */
  lemma RemovedSlots(s0: seq<int>, key: seq<int>, n0: int, fin: seq<int>)
    requires Slots(s0, key, n0) && IsHeap(s0, key, n0) && 1 <= n0 && |fin| == |s0|
    requires Slots(fin, key, n0 - 1) && SiftsDown(s0[1 := s0[n0]], key, n0 - 1, 1, fin)
    ensures Slots(fin[n0 := 0], key, n0 - 1) && IsHeap(fin[n0 := 0], key, n0 - 1)
    ensures multiset(s0[1..n0 + 1]) == multiset(fin[n0 := 0][1..n0]) + multiset{s0[1]}
    ensures Lightest(key, s0[1], multiset(s0[1..n0 + 1]))
  {
    var t := s0[1 := s0[n0]];
    assert Keyed(t, key);
    RootRemovedSifted(s0, t, fin, key, n0);
    ClearedAfter(fin, key, n0 - 1);
    RootLightest(s0, key, n0);
  }

  /** The root of a heap is its lightest vertex. */
  lemma RootLightest(s0: seq<int>, key: seq<int>, n0: int)
    requires Slots(s0, key, n0) && IsHeap(s0, key, n0) && 1 <= n0
    ensures Lightest(key, s0[1], multiset(s0[1..n0 + 1]))
  {
    RootIsMinimum(s0, key, n0);
    var m := multiset(s0[1..n0 + 1]);
    forall x | x in m
      ensures 0 <= x < |key|
    {
      var i :| 0 <= i < n0 && s0[1..n0 + 1][i] == x;
      assert s0[i + 1] == x;
    }
  }

  /**
   * The positions of that removal: with the root vertex's position cleared
   * before the sift-down, it ends 0, or 1 when it was the only vertex; every
   * other position that changed records the slot of its vertex.
   */
  lemma RemovedPositions(s0: seq<int>, key: seq<int>, pos0: seq<int>, n0: int, fin: seq<int>, pos: seq<int>)
    requires Slots(s0, key, n0) && |pos0| == |key| == |pos| && Indexed(s0, pos0, n0) && 1 <= n0 && |fin| == |s0|
    requires Indexed(fin, pos, n0 - 1) && SameVertices(s0[1 := s0[n0]], fin, n0 - 1)
    requires 1 <= n0 - 1 ==> Repositioned(pos0[s0[1] := 0], pos, fin, n0 - 1)
    requires n0 - 1 < 1 ==> pos == pos0[s0[1] := 0][s0[n0] := 1]
    ensures pos[s0[1]] == if n0 == 1 then 1 else 0
    ensures RepositionedBut(pos0, pos, fin[n0 := 0], n0 - 1, s0[1]) && Indexed(fin[n0 := 0], pos, n0 - 1)
    ensures s0[1] !in multiset(fin[n0 := 0][1..n0])
  {
    if 1 <= n0 - 1 {
      var t := s0[1 := s0[n0]];
      assert t[1..n0] == [s0[n0]] + s0[2..n0];
      forall i | 2 <= i <= n0
        ensures s0[i] != s0[1]
      {
        assert pos0[s0[i]] == i;
      }
      assert s0[1] !in multiset(fin[1..n0]);
      SlotOf(fin, pos, n0 - 1, s0[1]);
    }
  }

  class VertexHeap {
    const a: array<int>
    const dist: array<int>
    const hPos: array<int>
    var N: int

    /** The heap array and the caller's two arrays are separate and of one length. */
    ghost predicate Arrays()
      reads this
    {
      a.Length == dist.Length == hPos.Length && a != dist && a != hPos && dist != hPos
    }

    /** The shape outside a sift: real vertices in slots 1..N, each recorded at its slot. */
    ghost predicate Shape()
      reads this, a, dist, hPos
    {
      Arrays() && Slots(a[..], dist[..], N) && |hPos[..]| == |dist[..]| && Indexed(a[..], hPos[..], N)
    }

    /** The heap invariant: shape, position index and min-heap order by dist on slots 1..N. */
    ghost predicate Valid()
      reads this, a, dist, hPos
    {
      Shape() && IsHeap(a[..], dist[..], N)
    }

    /** The vertices in the heap. */
    ghost function Contents(): multiset<int>
      reads this, a
      requires 0 <= N < a.Length
    {
      multiset(a[1..N + 1])
    }

    /** An empty heap over slots 0..maxSize that orders by `d` and records positions in `pos`. */
    constructor (maxSize: int, d: array<int>, pos: array<int>)
      requires 0 <= maxSize && d.Length == pos.Length == maxSize + 1 && d != pos
      ensures Valid() && N == 0 && dist == d && hPos == pos && fresh(a)
    {
      N := 0;
      a := new int[maxSize + 1](_ => 0);
      dist := d;
      hPos := pos;
    }

    /** Whether no vertex is left in the heap. */
    predicate IsEmpty(): (b: bool)
      reads this, a
      requires 0 <= N < a.Length
      ensures b <==> Contents() == multiset{}
    {
      assert |Contents()| == |a[1..N + 1]| == N;
      N == 0
    }

    /**
     * Moves the vertex in slot k0 towards the root while its key is strictly
     * smaller than its parent's, shifting each such parent down one level and
     * recording its new slot.  Slot 0 is set to the null vertex 0 with key
     * MIN, so the root's parent never wins.  The new array is the outcome
     * SiftsUp of the old one, and a sift-up from the one slot that is out of
     * order restores the heap.
     */
    method SiftUp(k0: int)
      requires Arrays() && Holed(a[..], dist[..], hPos[..], N, k0) && k0 <= N && UpReady(a[..], dist[..], N, k0)
      modifies a, dist, hPos
      ensures Valid()
      ensures dist[..] == old(dist[..])[0 := MIN] && a[0] == 0
      ensures SiftsUp(old(a[..])[0 := 0], dist[..], k0, a[..])
      ensures SameVertices(old(a[..]), a[..], N)
      ensures Repositioned(old(hPos[..]), hPos[..], a[..], N)
    {
      ghost var a0, d0, pos0 := a[..], dist[..], hPos[..];
      var v := a[k0];
      a[0] := 0;
      dist[0] := MIN;
      ghost var key, g0 := dist[..], a[..];
      assert key == d0[0 := MIN] && g0 == a0[0 := 0];
      SentinelReady(a0, d0, pos0, N, k0);
      var k;
      ghost var g, pos;
      k, g, pos := Climb(k0, v, key);
      a[k] := v;
      hPos[v] := k;
      assert a[..] == g;
      assert hPos[..] == pos[v := k];
      ClimbDone(a0, d0, pos0, N, k0, k, g, pos);
    }

    /**
     * The loop of SiftUp: while the moving vertex v is strictly lighter than
     * the vertex in the parent slot, that vertex moves down into the slot of
     * v and is recorded there.  Returns the slot k where v stops, whose array
     * entry is not yet rewritten, and the array g with v written into it.
     */
    method Climb(k0: int, v: int, ghost key: seq<int>) returns (k: int, ghost g: seq<int>, ghost pos: seq<int>)
      requires Arrays() && dist[..] == key && Holed(a[..], key, hPos[..], N, k0) && k0 <= N
      requires a[0] == 0 && key[0] == MIN && a[k0] == v
      modifies a, hPos
      ensures Climbed(old(a[..]), key, old(hPos[..]), N, k0, k, g, pos) && g[k] == v
      ensures a[..][k := v] == g && hPos[..] == pos
    {
      ghost var g0, pos0 := a[..], hPos[..];
      g, pos := g0, pos0;
      k := k0;
      while dist[v] < dist[a[k / 2]]
        invariant Climbing(g0, key, pos0, N, k0, k, g, pos) && g[k] == v
        invariant a[..][k := v] == g && hPos[..] == pos && a[k / 2] == g[k / 2]
        decreases k
      {
        ClimbStep(g0, key, pos0, N, k0, k, g, pos);
        ghost var s := a[..];
        ShiftSwaps(s, k, k / 2, v);
        a[k] := a[k / 2];
        hPos[a[k]] := k;
        g, pos := Swap(g, k, k / 2), pos[g[k / 2] := k];
        k := k / 2;
      }
      ClimbExit(g0, key, pos0, N, k0, k, g, pos);
    }

    /**
     * Moves the vertex in slot k0 down while its lighter child is strictly
     * lighter, shifting that child up into the vacated slot and recording its
     * new slot; the moving vertex is recorded at the slot where it stops,
     * even when k0 lies beyond slot N.  The new array is the outcome
     * SiftsDown of the old one.
     */
    method SiftDown(k0: int)
      requires Arrays() && Holed(a[..], dist[..], hPos[..], N, k0)
      modifies a, hPos
      ensures Shape()
      ensures SiftsDown(old(a[..]), dist[..], N, k0, a[..]) && SameVertices(old(a[..]), a[..], N)
      ensures k0 <= N ==> Repositioned(old(hPos[..]), hPos[..], a[..], N)
      ensures N < k0 ==> a[..] == old(a[..]) && hPos[..] == old(hPos[..])[old(a[k0]) := k0]
    {
      ghost var a0, key, pos0 := a[..], dist[..], hPos[..];
      var v := a[k0];
      var k;
      ghost var g, pos;
      k, g, pos := Sink(k0, v, key);
      a[k] := v;
      hPos[v] := k;
      assert a[..] == g;
      assert hPos[..] == pos[v := k];
      SinkDone(a0, key, pos0, N, k0, k, g, pos);
    }

    /**
     * The loop of SiftDown: while the slot k of the moving vertex v has a
     * child whose lighter vertex is strictly lighter than v, that vertex
     * moves up into slot k and is recorded there.  Returns the slot k where
     * v stops, whose array entry is not yet rewritten, and the array g with v
     * written into it.
     */
    method Sink(k0: int, v: int, ghost key: seq<int>) returns (k: int, ghost g: seq<int>, ghost pos: seq<int>)
      requires Arrays() && dist[..] == key && Holed(a[..], key, hPos[..], N, k0) && a[k0] == v
      modifies a, hPos
      ensures Sunk(old(a[..]), key, old(hPos[..]), N, k0, k, g, pos) && g[k] == v
      ensures a[..][k := v] == g && hPos[..] == pos
    {
      ghost var g0, pos0 := a[..], hPos[..];
      g, pos := g0, pos0;
      k := k0;
      while k <= N / 2
        invariant Sinking(g0, key, pos0, N, k0, k, g, pos) && g[k] == v
        invariant a[..][k := v] == g && hPos[..] == pos
        decreases N - k
      {
        assert a[2 * k] == g[2 * k] && (2 * k < N ==> a[2 * k + 1] == g[2 * k + 1]);
        var j := LighterSlot(k, g, key);
        if dist[v] <= dist[a[j]] {
          break;
        }
        SinkStep(g0, key, pos0, N, k0, k, g, pos);
        ghost var s := a[..];
        ShiftSwaps(s, k, j, v);
        a[k] := a[j];
        hPos[a[k]] := k;
        g, pos := Swap(g, k, j), pos[g[j] := k];
        k := j;
      }
      SinkExit(g0, key, pos0, N, k0, k, g, pos);
    }

    /** The slot of the lighter child of slot k, the right one only when it is strictly lighter. */
    method LighterSlot(k: int, ghost g: seq<int>, ghost key: seq<int>) returns (j: int)
      requires Arrays() && dist[..] == key && Keyed(g, key) && 1 <= k && 2 * k <= N < |g| == a.Length
      requires a[2 * k] == g[2 * k] && (2 * k < N ==> a[2 * k + 1] == g[2 * k + 1])
      ensures j == LighterChild(g, key, N, k) && a[j] == g[j]
    {
      j := 2 * k;
      if j < N && dist[a[j]] > dist[a[j + 1]] {
        j := j + 1;
      }
    }

    /**
     * Adds vertex x, which is not in the heap yet, in the slot after the
     * last and sifts it up.  The heap then holds x besides its old vertices.
     */
    method Insert(x: int)
      requires Valid() && N + 1 < a.Length && 1 <= x < dist.Length && MIN <= dist[x] && x !in Contents()
      modifies this`N, a, dist, hPos
      ensures Valid() && N == old(N) + 1
      ensures Contents() == old(Contents()) + multiset{x}
      ensures dist[..] == old(dist[..])[0 := MIN] && a[0] == 0
      ensures Repositioned(old(hPos[..]), hPos[..], a[..], N)
    {
      ghost var s := a[..];
      N := N + 1;
      a[N] := x;
      Appended(s, dist[..], hPos[..], N - 1, x);
      SiftUp(N);
    }

    /** The first steps of Remove: v = a[1], hPos[v] = 0, and the last slot's vertex moves to the root. */
    method TakeTop(ghost s0: seq<int>, ghost pos0: seq<int>) returns (v: int)
      requires Valid() && N >= 1 && a[..] == s0 && hPos[..] == pos0
      modifies this`N, a, hPos
      ensures Arrays() && N == old(N) - 1 && dist[..] == old(dist[..])
      ensures v == s0[1] && a[..] == s0[1 := s0[N + 1]] && a[1] == s0[N + 1] && hPos[..] == pos0[v := 0]
    {
      v := a[1];
      hPos[v] := 0;
      a[1] := a[N];
      N := N - 1;
    }

    /** The root is taken out, the last slot's vertex put at the root and sifted down. */
    method Detach(ghost s0: seq<int>, ghost pos0: seq<int>, ghost key: seq<int>) returns (v: int)
      requires Valid() && N >= 1 && a[..] == s0 && hPos[..] == pos0 && dist[..] == key
      modifies this`N, a, hPos
      ensures Shape() && N == old(N) - 1 && dist[..] == key && v == s0[1]
      ensures SiftsDown(s0[1 := s0[N + 1]], key, N, 1, a[..]) && SameVertices(s0[1 := s0[N + 1]], a[..], N)
      ensures 1 <= N ==> Repositioned(pos0[v := 0], hPos[..], a[..], N)
      ensures N < 1 ==> hPos[..] == pos0[v := 0][s0[N + 1] := 1]
    {
      v := TakeTop(s0, pos0);
      RootTaken(s0, key, pos0, N + 1);
      SiftDown(1);
    }

    /** Detach, then the vacated slot is cleared: the slots before clearing are fin. */
    method Vacate(ghost s0: seq<int>, ghost pos0: seq<int>, ghost key: seq<int>) returns (v: int, ghost fin: seq<int>)
      requires Valid() && N >= 1 && a[..] == s0 && hPos[..] == pos0 && dist[..] == key
      modifies this`N, a, hPos
      ensures Arrays() && N == old(N) - 1 && dist[..] == key && v == s0[1] && |fin| == |s0|
      ensures Slots(fin, key, N) && Indexed(fin, hPos[..], N) && a[..] == fin[N + 1 := 0]
      ensures SiftsDown(s0[1 := s0[N + 1]], key, N, 1, fin) && SameVertices(s0[1 := s0[N + 1]], fin, N)
      ensures 1 <= N ==> Repositioned(pos0[v := 0], hPos[..], fin, N)
      ensures N < 1 ==> hPos[..] == pos0[v := 0][s0[N + 1] := 1]
    {
      v := Detach(s0, pos0, key);
      fin := a[..];
      ClearSlot(N + 1, fin);
    }

    /** The last step of Remove: the vacated slot k gets the null vertex 0. */
    method ClearSlot(k: int, ghost fin: seq<int>)
      requires Arrays() && 0 <= k < a.Length && a[..] == fin
      modifies a
      ensures Arrays() && a[..] == fin[k := 0] && dist[..] == old(dist[..]) && hPos[..] == old(hPos[..])
    {
      a[k] := 0;
    }

    /**
     * Takes out the vertex at the root, the one with the smallest dist: its
     * position is cleared, the last slot moves to the root and is sifted
     * down, and the vacated slot is reset to the null vertex 0.  When the
     * heap held a single vertex, the sift-down records it again at slot 1.
     */
    method Remove() returns (v: int)
      requires Valid() && N >= 1
      modifies this`N, a, hPos
      ensures Valid() && N == old(N) - 1
      ensures v == old(a[1]) && old(Contents()) == Contents() + multiset{v} && v !in Contents()
      ensures Lightest(dist[..], v, old(Contents()))
      ensures a[old(N)] == 0 && hPos[v] == (if old(N) == 1 then 1 else 0)
      ensures RepositionedBut(old(hPos[..]), hPos[..], a[..], N, v)
    {
      ghost var s0, pos0, n0, key := a[..], hPos[..], N, dist[..];
      ghost var fin;
      v, fin := Vacate(s0, pos0, key);
      ghost var A, H := a[..], hPos[..];
      RemovedRoot(s0, key, pos0, n0, fin, A, H);
    }
  }

  /**
   * Removing the root: slots s0 with positions pos0 lose the root s0[1];
   * the last slot's vertex is sifted down from the root into fin, and the
   * vacated slot n0 is cleared, giving slots A with positions H.  The heap
   * on n0 - 1 slots then holds the rest, s0[1] was lightest, and only
   * s0[1] lost its position.
   */
  lemma RemovedRoot(s0: seq<int>, key: seq<int>, pos0: seq<int>, n0: int, fin: seq<int>, A: seq<int>, H: seq<int>)
    requires Slots(s0, key, n0) && IsHeap(s0, key, n0) && |pos0| == |key| == |H| && Indexed(s0, pos0, n0)
    requires 1 <= n0 && |fin| == |s0| && Slots(fin, key, n0 - 1) && Indexed(fin, H, n0 - 1)
    requires SiftsDown(s0[1 := s0[n0]], key, n0 - 1, 1, fin) && SameVertices(s0[1 := s0[n0]], fin, n0 - 1)
    requires 1 <= n0 - 1 ==> Repositioned(pos0[s0[1] := 0], H, fin, n0 - 1)
    requires n0 - 1 < 1 ==> H == pos0[s0[1] := 0][s0[n0] := 1]
    requires A == fin[n0 := 0]
    ensures Slots(A, key, n0 - 1) && Indexed(A, H, n0 - 1) && IsHeap(A, key, n0 - 1)
    ensures multiset(s0[1..n0 + 1]) == multiset(A[1..n0]) + multiset{s0[1]} && s0[1] !in multiset(A[1..n0])
    ensures Lightest(key, s0[1], multiset(s0[1..n0 + 1]))
    ensures A[n0] == 0 && H[s0[1]] == (if n0 == 1 then 1 else 0) && RepositionedBut(pos0, H, A, n0 - 1, s0[1])
  {
    RemovedSlots(s0, key, n0, fin);
    RemovedPositions(s0, key, pos0, n0, fin, H);
  }

  /** Planting the sentinel in slot 0 and dist[0] disturbs neither the shape nor the heap order of slots 1..n. */
  lemma SentinelReady(a0: seq<int>, d0: seq<int>, pos0: seq<int>, n: int, k0: int)
    requires |a0| == |d0| && Holed(a0, d0, pos0, n, k0) && k0 <= n && UpReady(a0, d0, n, k0)
    ensures Holed(a0[0 := 0], d0[0 := MIN], pos0, n, k0) && UpReady(a0[0 := 0], d0[0 := MIN], n, k0)
  {
    var g, key := a0[0 := 0], d0[0 := MIN];
    forall c | 2 <= c <= n && c != k0
      ensures OrderedAt(g, key, c)
    {
      assert OrderedAt(a0, d0, c);
    }
  }
}
