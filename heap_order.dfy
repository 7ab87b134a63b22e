/**
 * Facts shared by both binary heaps: the heap array `a` holds element ids in
 * slots 1..n, `key[id]` is the priority of an id, and the parent of slot c is
 * slot c/2.  Also two counting lemmas used to bound heap sizes and set counts.
 */
module HeapOrder {

  /** Every slot holds a valid index into `key`. */
  ghost predicate Keyed(a: seq<int>, key: seq<int>)
  {
    forall i :: 0 <= i < |a| ==> 0 <= a[i] < |key|
  }

  /** Slot c is no lighter than its parent slot c/2. */
  ghost predicate OrderedAt(a: seq<int>, key: seq<int>, c: int)
  {
    1 <= c < |a| && 0 <= a[c] < |key| && 0 <= a[c / 2] < |key| && key[a[c / 2]] <= key[a[c]]
  }

  /** Every slot c whose parent c/2 is at least `lo` is no lighter than its parent. */
  ghost predicate HeapFrom(a: seq<int>, key: seq<int>, n: int, lo: int)
  {
    forall c :: 2 <= c <= n && lo <= c / 2 ==> OrderedAt(a, key, c)
  }

  /** The whole of slots 1..n is in min-heap order. */
  ghost predicate IsHeap(a: seq<int>, key: seq<int>, n: int)
  {
    HeapFrom(a, key, n, 1)
  }

  /**
   * The heap is in order except that the key of slot k may be too small for
   * its parent: the situation a sift-up repairs.  The parent of k is still
   * no heavier than the children of k.
   */
  ghost predicate UpReady(a: seq<int>, key: seq<int>, n: int, k: int)
    requires Keyed(a, key) && n < |a| && 0 <= k < |a|
  {
    (forall c :: 2 <= c <= n && c != k ==> OrderedAt(a, key, c)) &&
    (2 <= k ==> forall c :: 2 <= c <= n && c / 2 == k ==> key[a[k / 2]] <= key[a[c]])
  }

  /** The ids in slots 1..n are pairwise distinct. */
  ghost predicate DistinctSlots(a: seq<int>, n: int)
    requires 0 <= n < |a|
  {
    forall i, j :: 1 <= i <= n && 1 <= j <= n && a[i] == a[j] ==> i == j
  }

  /** In a heap, the root holds a minimal key. */
  lemma {:induction false} RootIsMin(a: seq<int>, key: seq<int>, n: int, k: int)
    requires Keyed(a, key) && IsHeap(a, key, n)
    requires 1 <= k <= n < |a|
    ensures key[a[1]] <= key[a[k]]
    decreases k
  {
    if k > 1 {
      RootIsMin(a, key, n, k / 2);
      assert OrderedAt(a, key, k);
    }
  }

  /** The root of a heap is no heavier than any element it holds. */
  lemma RootIsMinimum(a: seq<int>, key: seq<int>, n: int)
    requires Keyed(a, key) && IsHeap(a, key, n) && 1 <= n < |a|
    ensures forall x :: x in multiset(a[1..n + 1]) ==> key[a[1]] <= key[x]
  {
    forall x | x in multiset(a[1..n + 1])
      ensures key[a[1]] <= key[x]
    {
      var k :| 0 <= k < n && a[1..n + 1][k] == x;
      RootIsMin(a, key, n, k + 1);
    }
  }

  /** Lowering the key of the id in slot k of a heap leaves it ready for a sift-up from k. */
  lemma DecreaseKey(a: seq<int>, key: seq<int>, n: int, k: int, w: int)
    requires Keyed(a, key) && 0 <= n < |a| && IsHeap(a, key, n) && DistinctSlots(a, n)
    requires 1 <= k <= n && w <= key[a[k]]
    ensures Keyed(a, key[a[k] := w]) && UpReady(a, key[a[k] := w], n, k)
  {
    var key' := key[a[k] := w];
    forall c | 2 <= c <= n && c != k
      ensures OrderedAt(a, key', c)
    {
      assert OrderedAt(a, key, c);
      assert a[c] != a[k];
    }
    if 2 <= k {
      forall c | 2 <= c <= n && c / 2 == k
        ensures key'[a[k / 2]] <= key'[a[c]]
      {
        assert OrderedAt(a, key, k) && OrderedAt(a, key, c);
        assert a[c] != a[k] && a[k / 2] != a[k];
      }
    }
  }

  /**
   * Taking the root out of a heap of n0 slots by moving the last slot to the
   * root: t agrees with s0 on slots 2..n0-1 and holds s0[n0] at the root.
   * The subtrees of the root are then heaps of n0-1 slots, and the root's id
   * is the one id lost.
   */
  lemma RootRemoved(s0: seq<int>, t: seq<int>, key: seq<int>, n0: int)
    requires Keyed(s0, key) && IsHeap(s0, key, n0) && 1 <= n0 < |s0| == |t|
    requires t[1] == s0[n0] && forall i :: 2 <= i < n0 ==> t[i] == s0[i]
    ensures HeapFrom(t, key, n0 - 1, 2)
    ensures multiset(s0[1..n0 + 1]) == multiset(t[1..n0]) + multiset{s0[1]}
  {
    forall c | 2 <= c <= n0 - 1 && 2 <= c / 2
      ensures OrderedAt(t, key, c)
    {
      assert OrderedAt(s0, key, c);
      assert t[c] == s0[c] && t[c / 2] == s0[c / 2];
    }
    if n0 >= 2 {
      assert s0[1..n0 + 1] == [s0[1]] + s0[2..n0] + [s0[n0]];
      assert t[1..n0] == [s0[n0]] + s0[2..n0];
    } else {
      assert s0[1..n0 + 1] == [s0[1]];
    }
  }

  /**
   * The whole removal from a heap of n0 slots: t is s0 with the last slot
   * moved to the root, and fin is t sifted down from the root over n0-1
   * slots.  fin is a heap that holds the old ids less the old root, which
   * was minimal, and slot 0 is untouched by the sift.
   */
  lemma RootRemovedSifted(s0: seq<int>, t: seq<int>, fin: seq<int>, key: seq<int>, n0: int)
    requires Keyed(s0, key) && IsHeap(s0, key, n0) && 1 <= n0 < |s0| == |t|
    requires Keyed(t, key) && t[1] == s0[n0] && forall i :: 2 <= i < n0 ==> t[i] == s0[i]
    requires SiftsDown(t, key, n0 - 1, 1, fin)
    ensures Keyed(fin, key) && IsHeap(fin, key, n0 - 1) && |fin| == |s0| && fin[0] == t[0]
    ensures multiset(s0[1..n0 + 1]) == multiset(fin[1..n0]) + multiset{s0[1]}
    ensures forall i :: 1 <= i <= n0 ==> key[s0[1]] <= key[s0[i]]
  {
    forall i | 1 <= i <= n0
      ensures key[s0[1]] <= key[s0[i]]
    {
      RootIsMin(s0, key, n0, i);
    }
    RootRemoved(s0, t, key, n0);
    DownReadyBegin(t, key, n0 - 1, 1);
    SiftsDownOrders(t, key, n0 - 1, 1, 1, fin);
    SiftsDownContents(t, key, n0 - 1, 1, fin);
    SiftsDownKeeps(t, key, n0 - 1, 1, fin);
  }

  /**
   * Bottom-up heap construction over slots 1..n with internal slots i+1..n/2
   * already sifted: the subtrees below i are heaps, every slot up to i still
   * holds its own number, and slots 1..n hold the ids 1..n.
   */
  ghost predicate Heapifying(g: seq<int>, key: seq<int>, n: int, i: int)
  {
    0 <= i <= n / 2 && n < |g| && Keyed(g, key) && HeapFrom(g, key, n, i + 1) &&
    (forall j :: 0 <= j <= i ==> g[j] == j) &&
    multiset(g[1..n + 1]) == multiset(Ids(n))
  }

  /** Slots holding their own numbers 0..n start the construction: no internal slot is sifted yet. */
  lemma HeapifyBegin(g: seq<int>, key: seq<int>, n: int)
    requires 0 <= n < |g| && Keyed(g, key)
    requires forall j :: 0 <= j <= n ==> g[j] == j
    ensures Heapifying(g, key, n, n / 2)
  {
    assert g[1..n + 1] == Ids(n);
  }

  /** Sifting down slot i extends the construction to slot i. */
  lemma HeapifyStep(before: seq<int>, fin: seq<int>, key: seq<int>, n: int, i: int)
    requires Heapifying(before, key, n, i) && 1 <= i
    requires SiftsDown(before, key, n, i, fin)
    ensures Heapifying(fin, key, n, i - 1)
  {
    DownReadyBegin(before, key, n, i);
    SiftsDownOrders(before, key, n, i, i, fin);
    SiftsDownContents(before, key, n, i, fin);
    SiftsDownKeeps(before, key, n, i, fin);
  }

  /** The ids 1..n in increasing order. */
  function Ids(n: int): (s: seq<int>)
    ensures |s| == if n < 0 then 0 else n
    ensures forall i :: 0 <= i < |s| ==> s[i] == i + 1
  {
    if n <= 0 then [] else Ids(n - 1) + [n]
  }

  /** Changing keys of ids that sit in no slot 1..n keeps the heap order. */
  lemma KeyFrame(a: seq<int>, key: seq<int>, key': seq<int>, n: int)
    requires Keyed(a, key) && n < |a| && IsHeap(a, key, n) && |key'| == |key|
    requires forall i :: 1 <= i <= n ==> key'[a[i]] == key[a[i]]
    ensures Keyed(a, key') && IsHeap(a, key', n)
  {
    forall c | 2 <= c <= n
      ensures OrderedAt(a, key', c)
    {
      assert OrderedAt(a, key, c);
    }
  }

  /** s with the entries at i and j exchanged; unchanged when either index is out of range. */
  ghost function Swap(s: seq<int>, i: int, j: int): (t: seq<int>)
    ensures |t| == |s|
  {
    if 0 <= i < |s| && 0 <= j < |s| then s[i := s[j]][j := s[i]] else s
  }

  lemma SwapKeyed(s: seq<int>, key: seq<int>, i: int, j: int)
    requires Keyed(s, key)
    ensures Keyed(Swap(s, i, j), key)
  {
    var t := Swap(s, i, j);
    forall x | 0 <= x < |t|
      ensures 0 <= t[x] < |key|
    {
      assert t[x] == s[x] || t[x] == s[i] || t[x] == s[j];
    }
  }

  lemma SwapPermutes(s: seq<int>, i: int, j: int)
    ensures multiset(Swap(s, i, j)) == multiset(s)
  {
    if 0 <= i < |s| && 0 <= j < |s| {
      MultisetUpdate(s, i, s[j]);
      MultisetUpdate(s[i := s[j]], j, s[i]);
    }
  }

  /**
   * The child of slot k that a sift-down compares with: the left child 2k,
   * or the right child 2k+1 when it exists and is strictly lighter.
   */
  function LighterChild(g: seq<int>, key: seq<int>, n: int, k: int): (j: int)
    requires Keyed(g, key) && 1 <= k && 2 * k <= n < |g|
    ensures j == 2 * k || j == 2 * k + 1 <= n
    ensures key[g[j]] <= key[g[2 * k]] && (2 * k + 1 <= n ==> key[g[j]] <= key[g[2 * k + 1]])
  {
    if 2 * k < n && key[g[2 * k]] > key[g[2 * k + 1]] then 2 * k + 1 else 2 * k
  }

  /**
   * r is the outcome of sifting down the element in slot k of g over slots
   * 1..n: while k has a child in range and the lighter child is strictly
   * lighter than the moving element, the two exchange places.
   */
  ghost predicate SiftsDown(g: seq<int>, key: seq<int>, n: int, k: int, r: seq<int>)
    requires Keyed(g, key) && 1 <= k && n < |g|
    decreases n - k
  {
    if k <= n / 2 then
      var j := LighterChild(g, key, n, k);
      if key[g[k]] <= key[g[j]] then r == g
      else
        SwapKeyed(g, key, k, j);
        SiftsDown(Swap(g, k, j), key, n, j, r)
    else r == g
  }

  /**
   * r is the outcome of sifting up the element in slot k of g: while k has
   * a parent slot (k >= 2) that is strictly heavier, the two exchange places.
   */
  ghost predicate SiftsUp(g: seq<int>, key: seq<int>, k: int, r: seq<int>)
    requires Keyed(g, key) && 0 <= k < |g|
    decreases k
  {
    if 2 <= k && key[g[k]] < key[g[k / 2]] then
      SwapKeyed(g, key, k, k / 2);
      SiftsUp(Swap(g, k, k / 2), key, k / 2, r)
    else r == g
  }

  /** A sift-down has exactly one outcome. */
  lemma {:induction false} SiftsDownUnique(g: seq<int>, key: seq<int>, n: int, k: int, r: seq<int>, r': seq<int>)
    requires Keyed(g, key) && 1 <= k && n < |g|
    requires SiftsDown(g, key, n, k, r) && SiftsDown(g, key, n, k, r')
    ensures r == r'
    decreases n - k
  {
    if k <= n / 2 {
      var j := LighterChild(g, key, n, k);
      if key[g[k]] > key[g[j]] {
        SwapKeyed(g, key, k, j);
        SiftsDownUnique(Swap(g, k, j), key, n, j, r, r');
      }
    }
  }

  /** A sift-up has exactly one outcome. */
  lemma {:induction false} SiftsUpUnique(g: seq<int>, key: seq<int>, k: int, r: seq<int>, r': seq<int>)
    requires Keyed(g, key) && 0 <= k < |g|
    requires SiftsUp(g, key, k, r) && SiftsUp(g, key, k, r')
    ensures r == r'
    decreases k
  {
    if 2 <= k && key[g[k]] < key[g[k / 2]] {
      SwapKeyed(g, key, k, k / 2);
      SiftsUpUnique(Swap(g, k, k / 2), key, k / 2, r, r');
    }
  }

  /** A sift-down only moves ids around, and leaves every slot outside k..n alone. */
  lemma {:induction false} SiftsDownKeeps(g: seq<int>, key: seq<int>, n: int, k: int, r: seq<int>)
    requires Keyed(g, key) && 1 <= k && n < |g| && SiftsDown(g, key, n, k, r)
    ensures |r| == |g| && Keyed(r, key)
    ensures forall i :: 0 <= i < |g| && (i < k || n < i) ==> r[i] == g[i]
    decreases n - k
  {
    if k <= n / 2 {
      var j := LighterChild(g, key, n, k);
      if key[g[k]] > key[g[j]] {
        SwapKeyed(g, key, k, j);
        SiftsDownKeeps(Swap(g, k, j), key, n, j, r);
      }
    }
  }

  /** A sift-down from k >= 1 keeps the multiset of slots 1..n. */
  lemma {:induction false} SiftsDownContents(g: seq<int>, key: seq<int>, n: int, k: int, r: seq<int>)
    requires Keyed(g, key) && 1 <= k && 0 <= n < |g| && SiftsDown(g, key, n, k, r)
    ensures |r| == |g| && multiset(r[1..n + 1]) == multiset(g[1..n + 1])
    decreases n - k
  {
    if k <= n / 2 {
      var j := LighterChild(g, key, n, k);
      if key[g[k]] > key[g[j]] {
        SwapKeyed(g, key, k, j);
        var g' := Swap(g, k, j);
        assert SiftsDown(g', key, n, j, r);
        SiftsDownContents(g', key, n, j, r);
        SwapSlice(g, k, j, 1, n + 1);
        assert multiset(r[1..n + 1]) == multiset(g'[1..n + 1]) == multiset(g[1..n + 1]);
      } else {
        assert r == g;
      }
    } else {
      assert r == g;
    }
  }

  /** A sift-up only moves ids around, and leaves slot 0 and every slot above k alone. */
  lemma {:induction false} SiftsUpKeeps(g: seq<int>, key: seq<int>, k: int, r: seq<int>)
    requires Keyed(g, key) && 0 <= k < |g| && SiftsUp(g, key, k, r)
    ensures |r| == |g| && Keyed(r, key)
    ensures forall i :: 0 <= i < |g| && (i < 1 || k < i) ==> r[i] == g[i]
    decreases k
  {
    if 2 <= k && key[g[k]] < key[g[k / 2]] {
      SwapKeyed(g, key, k, k / 2);
      SiftsUpKeeps(Swap(g, k, k / 2), key, k / 2, r);
    }
  }

  /** A sift-up from 1 <= k <= n keeps the multiset of slots 1..n. */
  lemma {:induction false} SiftsUpContents(g: seq<int>, key: seq<int>, n: int, k: int, r: seq<int>)
    requires Keyed(g, key) && 1 <= k <= n < |g| && SiftsUp(g, key, k, r)
    ensures |r| == |g| && multiset(r[1..n + 1]) == multiset(g[1..n + 1])
    decreases k
  {
    if 2 <= k && key[g[k]] < key[g[k / 2]] {
      SwapKeyed(g, key, k, k / 2);
      var g' := Swap(g, k, k / 2);
      assert SiftsUp(g', key, k / 2, r);
      SiftsUpContents(g', key, n, k / 2, r);
      SwapSlice(g, k, k / 2, 1, n + 1);
    } else {
      assert r == g;
    }
  }

  /**
   * What holds while a sift-down from `start` has its moving element in slot
   * k: every parent-child pair below `start` is in order except those whose
   * parent is k, and k's parent is no heavier than k's children.
   */
  ghost predicate DownReady(g: seq<int>, key: seq<int>, n: int, start: int, k: int)
    requires Keyed(g, key) && n < |g|
  {
    (forall c :: 2 <= c <= n && start <= c / 2 && c / 2 != k ==> OrderedAt(g, key, c)) &&
    (k != start ==>
      1 <= k / 2 && 0 <= k / 2 < |g| &&
      forall c :: 2 <= c <= n && c / 2 == k ==> key[g[k / 2]] <= key[g[c]])
  }

  /** Before the first step, only the subtrees below `start` need to be heaps. */
  lemma DownReadyBegin(g: seq<int>, key: seq<int>, n: int, start: int)
    requires Keyed(g, key) && n < |g| && HeapFrom(g, key, n, start + 1)
    ensures DownReady(g, key, n, start, start)
  {
  }

  /** One exchange of the moving element with its strictly lighter child keeps DownReady. */
  lemma DownReadyStep(g: seq<int>, key: seq<int>, n: int, start: int, k: int)
    requires Keyed(g, key) && 1 <= start <= k && 2 * k <= n < |g|
    requires k == start || start <= k / 2
    requires DownReady(g, key, n, start, k)
    requires key[g[LighterChild(g, key, n, k)]] < key[g[k]]
    ensures Keyed(Swap(g, k, LighterChild(g, key, n, k)), key)
    ensures DownReady(Swap(g, k, LighterChild(g, key, n, k)), key, n, start, LighterChild(g, key, n, k))
  {
    var j := LighterChild(g, key, n, k);
    SwapKeyed(g, key, k, j);
    var g' := Swap(g, k, j);
    forall c | 2 <= c <= n && start <= c / 2 && c / 2 != j
      ensures OrderedAt(g', key, c)
    {
      if c / 2 == k {
        assert c == 2 * k || c == 2 * k + 1;
      } else if c == k {
        assert g'[c / 2] == g[c / 2];
      } else {
        assert OrderedAt(g, key, c);
        assert g'[c / 2] == g[c / 2] && g'[c] == g[c];
      }
    }
    forall c | 2 <= c <= n && c / 2 == j
      ensures key[g'[j / 2]] <= key[g'[c]]
    {
      assert OrderedAt(g, key, c);
    }
  }

  /** Once the moving element is no heavier than its lighter child, or has none, the order from `start` holds. */
  lemma DownReadyDone(g: seq<int>, key: seq<int>, n: int, start: int, k: int)
    requires Keyed(g, key) && 1 <= start <= k && n < |g|
    requires DownReady(g, key, n, start, k)
    requires k <= n / 2 ==> key[g[k]] <= key[g[LighterChild(g, key, n, k)]]
    ensures HeapFrom(g, key, n, start)
  {
    forall c | 2 <= c <= n && start <= c / 2
      ensures OrderedAt(g, key, c)
    {
      if c / 2 == k {
        assert k <= n / 2;
        var j := LighterChild(g, key, n, k);
        assert c == 2 * k || c == 2 * k + 1;
      }
    }
  }

  /** A sift-down from `start`, whose subtrees are heaps, makes the subtree at `start` a heap. */
  lemma {:induction false} SiftsDownOrders(g: seq<int>, key: seq<int>, n: int, start: int, k: int, r: seq<int>)
    requires Keyed(g, key) && 1 <= start <= k && n < |g|
    requires k == start || (start <= k / 2 && k <= n)
    requires DownReady(g, key, n, start, k) && SiftsDown(g, key, n, k, r)
    ensures HeapFrom(r, key, n, start)
    decreases n - k
  {
    if k <= n / 2 && key[g[k]] > key[g[LighterChild(g, key, n, k)]] {
      var j := LighterChild(g, key, n, k);
      DownReadyStep(g, key, n, start, k);
      SiftsDownOrders(Swap(g, k, j), key, n, start, j, r);
    } else {
      DownReadyDone(g, key, n, start, k);
    }
  }

  /** One exchange of the moving element with its strictly heavier parent keeps UpReady. */
  lemma UpReadyStep(g: seq<int>, key: seq<int>, n: int, k: int)
    requires Keyed(g, key) && 2 <= k <= n < |g|
    requires UpReady(g, key, n, k) && key[g[k]] < key[g[k / 2]]
    ensures Keyed(Swap(g, k, k / 2), key) && UpReady(Swap(g, k, k / 2), key, n, k / 2)
  {
    var p := k / 2;
    SwapKeyed(g, key, k, p);
    var g' := Swap(g, k, p);
    forall c | 2 <= c <= n && c != p
      ensures OrderedAt(g', key, c)
    {
      if c == k {
      } else if c / 2 == k {
        assert g'[c] == g[c];
      } else if c / 2 == p {
        assert OrderedAt(g, key, c);
        assert g'[c] == g[c];
      } else {
        assert OrderedAt(g, key, c);
        assert g'[c / 2] == g[c / 2] && g'[c] == g[c];
      }
    }
    if 2 <= p {
      forall c | 2 <= c <= n && c / 2 == p
        ensures key[g'[p / 2]] <= key[g'[c]]
      {
        assert OrderedAt(g, key, p);
        if c != k {
          assert OrderedAt(g, key, c);
        }
      }
    }
  }

  /** A sift-up from slot k of a heap that is in order except at k restores the heap. */
  lemma {:induction false} SiftsUpOrders(g: seq<int>, key: seq<int>, n: int, k: int, r: seq<int>)
    requires Keyed(g, key) && 1 <= k <= n < |g| && UpReady(g, key, n, k) && SiftsUp(g, key, k, r)
    ensures IsHeap(r, key, n)
    decreases k
  {
    if 2 <= k && key[g[k]] < key[g[k / 2]] {
      UpReadyStep(g, key, n, k);
      SiftsUpOrders(Swap(g, k, k / 2), key, n, k / 2, r);
    } else {
      forall c | 2 <= c <= n
        ensures OrderedAt(g, key, c)
      {
      }
    }
  }

  /** Exchanging two slots inside lo..hi-1 keeps the multiset of that range. */
  lemma SwapSlice(s: seq<int>, i: int, j: int, lo: int, hi: int)
    requires 0 <= lo <= i < hi <= |s| && lo <= j < hi
    ensures multiset(Swap(s, i, j)[lo..hi]) == multiset(s[lo..hi])
  {
    assert Swap(s, i, j)[lo..hi] == Swap(s[lo..hi], i - lo, j - lo);
    SwapPermutes(s[lo..hi], i - lo, j - lo);
  }

  /** Updating one slot swaps one occurrence in the multiset. */
  lemma MultisetUpdate(s: seq<int>, i: int, v: int)
    requires 0 <= i < |s|
    ensures multiset(s[i := v]) == multiset(s) - multiset{s[i]} + multiset{v}
  {
    assert s == s[..i] + [s[i]] + s[i + 1..];
    assert s[i := v] == s[..i] + [v] + s[i + 1..];
  }

  /** Distinct members of a finite set T number at most |T|. */
  lemma {:induction false} PigeonHole(s: seq<int>, T: set<int>)
    requires forall i, j :: 0 <= i < j < |s| ==> s[i] != s[j]
    requires forall i :: 0 <= i < |s| ==> s[i] in T
    ensures |s| <= |T|
  {
    if s != [] {
      var x := s[|s| - 1];
      var s' := s[..|s| - 1];
      forall i | 0 <= i < |s'| ensures s'[i] in T - {x} {
        assert s'[i] == s[i] != x;
      }
      PigeonHole(s', T - {x});
    }
  }

  /** The integers lo..hi-1. */
  ghost function Range(lo: int, hi: int): set<int>
    decreases hi - lo
  {
    if hi <= lo then {} else {lo} + Range(lo + 1, hi)
  }

  lemma {:induction false} RangeMembers(lo: int, hi: int)
    ensures forall x :: x in Range(lo, hi) <==> lo <= x < hi
    decreases hi - lo
  {
    if lo < hi {
      RangeMembers(lo + 1, hi);
    }
  }

  lemma {:induction false} RangeCard(lo: int, hi: int)
    requires lo <= hi
    ensures |Range(lo, hi)| == hi - lo
    decreases hi - lo
  {
    if lo < hi {
      RangeCard(lo + 1, hi);
      RangeMembers(lo + 1, hi);
      assert lo !in Range(lo + 1, hi);
    }
  }
}
