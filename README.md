# Minimum spanning trees: Kruskal over an edge heap and union-find, Prim over an indexed vertex heap

This project models the two minimum-spanning-tree programs `Kruskal.java` and
`PrimLists.java` and the data structures under them, and proves what they
keep true.

- **Kruskal** (`Graph.MST_Kruskal`):
  - The program builds a binary min-heap of edge indices keyed by edge weight, bottom-up (class `Heap`).
  - It pulls the lightest edge again and again.
  - It keeps an edge when `findSet` of its two endpoints differs, and then merges the two sets with `unionByRank`.
  - It stops after V-1 kept edges.
  - The disjoint-set forest `UnionFindSets` compresses paths in `findSet`. It also has a naive `union` that rewrites parent entries in a loop.
- **Prim** (`GraphLists.MST_Prim`):
  - It reads the edges into adjacency lists, prepending each edge to the list of both its ends.
  - It grows a tree from a start vertex `s`, using an indexed min-heap of vertices. The heap is keyed by the caller's `dist[]` array and keeps the caller's position index `hPos[]`.
  - A vertex taken off the heap is settled by negating its `dist`.
  - Each neighbour the settled vertex brings nearer gets the new `dist` and the vertex as `parent`. The neighbour is then inserted, or sifted up if it is already in the heap.

The model follows the programs' form.

- **Classes with the same state:**
  - `EdgeHeap` and `VertexHeap` are classes over `array<int>`. `VertexHeap` holds the caller's `dist` and `hPos` arrays, not copies.
  - `UnionFindSets` keeps `treeParent` and `rank` arrays.
  - `Kruskal.Graph` and `Prim.GraphLists` fill an `mst` array.
- **Loops and recursion:** every loop of the source is a `while` loop with invariants, and `findSet` stays recursive.
- **Reference functions:** each method is proved against a function of its inputs.
  - `SiftsDown` and `SiftsUp` give the outcome of a sift.
  - `Compress` gives the parents after `findSet`.
  - `Relabel` gives the parents after `union`.
  - `Kruskal` is the reference selection over a sequence of edges, with a label naming each vertex's set.
  - `Lists` gives the adjacency lists built from a sequence of edges.
  - `Grown` is the shape of a tree grown by Prim's rule.
- **Results:**
  - `MstKruskal` ends with V-1 edges of the graph, in non-decreasing weight, that connect all V vertices: a spanning tree.
  - `MstPrim` ends with a parent array in which every settled vertex after `s` hangs off a vertex settled before it. It hangs by the lightest arc leaving the vertices settled before it, which is the greedy cut property. `wgtSum` is the sum of those arc weights.
  - On the five-vertex sample graph, given in input order, any outcome `MstKruskal` allows keeps 2-3, 1-2, 2-4 and 3-5. Any outcome `MstPrim` allows settles 1, 2, 3, 4, 5. Both total 12.

Modules (one file each):
- `Edges`: the edge record.
- `HeapOrder`: heap order, sifts and counting, over sequences.
- `EdgeHeaps`.
- `UnionFind`.
- `Kruskal`.
- `Sample`: the five-vertex sample graph, shared by both examples.
- `KruskalExample`: what `MstKruskal` promises on the sample graph.
- `VertexHeaps`.
- `Adjacency`.
- `PrimSpec`: the invariant of a Prim run and the lemmas that carry it.
- `Prim`.
- `PrimExample`.

## Model

| member | source | states |
|---|---|---|
| Edges.Weights | Kruskal.java:42 | the heap key of edge index i is `edge[i].wgt`, for every index |
| HeapOrder.Ids | Kruskal.java:56-57 | the initial heap slots 1..n hold exactly the edge indices 1..n |
| HeapOrder.LighterChild | Kruskal.java:70-74 | the child picked is the right one only if it exists; it is no heavier than either child |
| HeapOrder.RootIsMin | Kruskal.java:88-92 | in a heap over slots 1..n the root's key is at most the key in every slot |
| HeapOrder.RootIsMinimum | Kruskal.java:88-92 | the root's key is at most that of every id in the heap's multiset |
| HeapOrder.RootRemoved | Kruskal.java:88-90 | after the last slot moves to the root, heap order holds below the root and the heap holds the old ids minus the root |
| HeapOrder.RootRemovedSifted | Kruskal.java:88-92 | moving the root to slot 0, the last slot to the root and sifting down leaves a heap on n-1 slots whose multiset is the old one minus the root, which was lightest |
| HeapOrder.HeapifyBegin | Kruskal.java:56-62 | slots holding their own numbers are already heap-ordered below n/2, so bottom-up construction may start there |
| HeapOrder.HeapifyStep | Kruskal.java:61-62 | sifting down slot i, which still holds i, extends heap order down to slot i and keeps slots 1..n a permutation of 1..n |
| HeapOrder.DecreaseKey | PrimLists.java:232-245 | lowering the key of the id in slot k of a heap breaks the order at most between k and its ancestors, so a sift-up from k can repair it |
| HeapOrder.KeyFrame | PrimLists.java:219 | changing keys only of ids outside slots 1..n keeps a heap a heap |
| HeapOrder.SiftsDownUnique | Kruskal.java:65-86 | a sift-down has exactly one outcome |
| HeapOrder.SiftsUpUnique | PrimLists.java:330-346 | a sift-up has exactly one outcome |
| HeapOrder.SiftsDownKeeps | Kruskal.java:65-86 | a sift-down from k changes only slots k..n |
| HeapOrder.SiftsDownContents | Kruskal.java:65-86 | a sift-down keeps the multiset of slots 1..n |
| HeapOrder.SiftsUpKeeps | PrimLists.java:330-346 | a sift-up from k changes only slots 1..k |
| HeapOrder.SiftsUpContents | PrimLists.java:330-346 | a sift-up keeps the multiset of slots 1..n |
| HeapOrder.DownReadyBegin | Kruskal.java:65-69 | a tree heap-ordered below `start` is ready for a sift-down from `start` |
| HeapOrder.DownReadyStep | Kruskal.java:69-82 | exchanging the moving id with its strictly lighter child keeps the sift-down ready one level lower |
| HeapOrder.DownReadyDone | Kruskal.java:77-84 | when no child is strictly lighter, the tree is heap-ordered from `start` |
| HeapOrder.SiftsDownOrders | Kruskal.java:65-86 | the outcome of a sift-down from `start` is heap-ordered from `start` |
| HeapOrder.UpReadyStep | PrimLists.java:337-341 | exchanging the moving id with its strictly heavier parent keeps the sift-up ready one level higher |
| HeapOrder.SiftsUpOrders | PrimLists.java:330-346 | the outcome of a sift-up restores heap order when only the moving id was out of place |
| EdgeHeaps.EdgeHeap.constructor | Kruskal.java:48-63 | the new heap is heap-ordered and holds exactly the edge indices 1..n |
| EdgeHeaps.EdgeHeap.Heapify | Kruskal.java:59-62 | sifting down slots n/2..1 in turn makes a heap holding exactly the indices 1..n |
| EdgeHeaps.EdgeHeap.SiftDown | Kruskal.java:65-86 | the array afterwards is the outcome `SiftsDown` of the array before |
| EdgeHeaps.EdgeHeap.Remove | Kruskal.java:88-93 | returns the old root, lightest of all indices in the heap; N drops by one; the heap still holds the rest and is heap-ordered |
| EdgeHeaps.EdgeHeap.TakeRoot | Kruskal.java:89-90 | slot 0 gets the root, the root slot gets the last index, N drops by one |
| UnionFind.Root | Kruskal.java:129-135 | following parents from x ends at a root, a vertex that is its own parent |
| UnionFind.Roots | Kruskal.java:129-135 | entry x is the root of x; two vertices are in one set iff their entries agree |
| UnionFind.RootRankAbove | Kruskal.java:148-163 | under the rank invariant, a vertex below a root has smaller rank than the root |
| UnionFind.RootIgnoresRank | Kruskal.java:161 | the root of a vertex depends only on the parents, not on the ranks |
| UnionFind.RootsIgnoreRank | Kruskal.java:161 | raising a root's rank changes no vertex's root |
| UnionFind.Compress | Kruskal.java:129-135 | after compressing from x, the parent of x is its root |
| UnionFind.CompressShortcuts | Kruskal.java:131-132 | path compression only replaces parents by ancestors (shortcuts) |
| UnionFind.ShortcutsRanked | Kruskal.java:131-132 | shortcuts keep the rank invariant `rank[x] < rank[parent[x]]` |
| UnionFind.ShortcutRoot | Kruskal.java:131-132 | shortcuts keep the root of each vertex |
| UnionFind.ShortcutsKeepRoots | Kruskal.java:129-135 | shortcuts keep every root and which vertices are roots |
| UnionFind.CompressKeepsRoots | Kruskal.java:129-135 | `findSet` keeps the rank invariant and the partition, and creates or removes no root |
| UnionFind.FindTwice | Kruskal.java:129-135 | a second `findSet(x)` returns the same root and changes nothing |
| UnionFind.LinkRoot | Kruskal.java:154-161 | linking root a under root b sends exactly the vertices that reached a to b |
| UnionFind.LinkRoots | Kruskal.java:154-161 | the same for all vertices at once |
| UnionFind.LinkRanked | Kruskal.java:154-161 | the link `unionByRank` makes keeps the rank invariant |
| UnionFind.LinkMerges | Kruskal.java:148-163 | the link merges the sets of the two endpoints under the surviving root and leaves all other sets alone |
| UnionFind.Relabel | Kruskal.java:140-144 | rewriting entries equal to `from` in slots below `hi` keeps the length |
| UnionFind.RelabelMerges | Kruskal.java:138-145 | rewriting over all slots 0..N merges the two sets and keeps the forest flat (corrected loop bound) |
| UnionFind.UnionSkipsLast | Kruskal.java:140 | with the bound `i < N`, vertex N keeps its old parent and stays out of the merged set; with `i <= N` it joins |
| UnionFind.UnionCases | Kruskal.java:148-163 | each of the three cases of `unionByRank` keeps ranks climbing and merges the two sets under the surviving root |
| UnionFind.UnionFindSets.Link | Kruskal.java:154-161 | `treeParent[l] = w`, and `rank[w]++` on a tie; nothing else changes |
| UnionFind.UnionFindSets.constructor | Kruskal.java:110-121 | every vertex 0..V is its own parent with rank 0: singleton sets |
| UnionFind.UnionFindSets.FindSet | Kruskal.java:129-135 | returns the root of `vertex`; the parents become `Compress` of the old ones; the partition is unchanged |
| UnionFind.UnionFindSets.Union | Kruskal.java:138-145 | the parents become `Relabel(old, set2, set1, N)`: only slots below N are rewritten |
| UnionFind.UnionFindSets.UnionByRank | Kruskal.java:148-163 | the two sets merge and no other set changes; the lower-rank root goes under the higher; on a tie v goes under u and `rank[u]` grows by one |
| Kruskal.SharedLabel | Kruskal.java:279-299 | when every vertex 1..V carries the label of vertex 1, there is exactly one set |
| Kruskal.Singletons | Kruskal.java:117-120 | every vertex starts in a set of its own |
| Kruskal.Kruskal | Kruskal.java:279-299 | the reference selection has a label per vertex 0..V |
| Kruskal.EdgesAt | Kruskal.java:282 | the k-th edge drawn is `edge[order[k]]` |
| Kruskal.RelabelKeepsEqual | Kruskal.java:289 | merging two sets keeps together vertices that were together |
| Kruskal.RelabelLabelSet | Kruskal.java:288-289 | merging two different sets removes exactly one label |
| Kruskal.SingletonLabelSet | Kruskal.java:275 | the singleton partition of V vertices has V sets |
| Kruskal.KruskalCount | Kruskal.java:288-292 | the number of sets is V minus the number of kept edges: each kept edge merges two sets, so the kept edges form a forest |
| Kruskal.LabelsClosed | Kruskal.java:284-289 | after the selection, the two ends of every edge seen are in one set |
| Kruskal.LabelsConnect | Kruskal.java:288-292 | vertices in one set are connected by kept edges |
| Kruskal.OneLabel | Kruskal.java:279 | a partition of 1..V with one label has every vertex in the set of vertex 1 |
| Kruskal.KruskalSpans | Kruskal.java:279-299 | V-1 kept edges connect all V vertices |
| Kruskal.AllEdgesMerge | Kruskal.java:279-299 | when the edges seen include a connected graph, V-1 edges are kept |
| Kruskal.KruskalTreeSorted | Kruskal.java:279-299 | kept edges are edges seen; if those come by non-decreasing weight so do the kept ones |
| Kruskal.MergeKeepsSameSets | Kruskal.java:288-289 | `unionByRank` on the forest and relabelling in the reference keep the same partition |
| Kruskal.OrderCoversAll | Kruskal.java:282 | once every index 1..E has been drawn, every edge of the graph has been seen |
| Kruskal.AscendingWeights | Kruskal.java:282 | indices drawn from the heap come in non-decreasing weight |
| Kruskal.AscendingStep | Kruskal.java:282 | a drawn index no lighter than the previous one extends the non-decreasing order |
| Kruskal.DrawnGreedy | Kruskal.java:282 | the heap hands out its lightest index, so every index drawn is no heavier than any index 1..E never drawn |
| Kruskal.IdsRange | Kruskal.java:56-57 | heap members are edge indices 1..E |
| Kruskal.DrawnStep | Kruskal.java:282 | removing the lightest index moves it from the heap to the drawn order, keeps the order non-decreasing and every index drawn at most once |
| Kruskal.DrawnSorted | Kruskal.java:282 | the drawn edges are sorted by weight |
| Kruskal.TracksStep | Kruskal.java:284-297 | an edge with one root for both ends is skipped; otherwise it is kept and the sets merged, as in the reference |
| Kruskal.KruskalStart | Kruskal.java:268-277 | a full heap and singleton sets start the reference run with nothing drawn |
| Kruskal.KruskalDone | Kruskal.java:279-306 | V-1 kept edges are graph edges, sorted by weight, connecting all V vertices, and equal the reference tree over the edges drawn |
| Kruskal.TreeEdgesDrawn | Kruskal.java:292 | every kept edge is an edge of the graph |
| Kruskal.EdgesLeft | Kruskal.java:279-282 | with fewer than V-1 edges kept in a connected graph, the heap is not empty |
| Kruskal.Graph.constructor | Kruskal.java:217-251 | the graph holds V, E and the edge array `edge[1..E]` as given |
| Kruskal.Graph.Setup | Kruskal.java:268-277 | a fresh heap of all indices and fresh singleton sets start the run with nothing drawn and the reference run in step |
| Kruskal.Graph.Draw | Kruskal.java:282 | removes the lightest remaining index r and returns `edge[r]`; r moves from the heap to the drawn order |
| Kruskal.Graph.Store | Kruskal.java:292 | `mst[i]` gets the kept edge, earlier entries are unchanged |
| Kruskal.Graph.Join | Kruskal.java:284-297 | finds both roots; if they differ, merges the sets and stores the edge, so the forest and `mst` follow the reference |
| Kruskal.Graph.Round | Kruskal.java:279-299 | one iteration keeps the loop invariant and shrinks the heap |
| Kruskal.Graph.Loop | Kruskal.java:279-299 | the loop ends with V-1 edges kept and the invariant intact |
| Kruskal.Graph.MstKruskal | Kruskal.java:259-308 | the indices drawn are distinct indices 1..E by non-decreasing weight, each no heavier than any index never drawn (`Greedy`); `mst` is the reference tree over them, V-1 graph edges sorted by weight that connect all V vertices |
| Kruskal.Graph.MstWeight | Kruskal.java:317-329 | the reported weight is the sum of the weights of `mst[0..V-2]` |
| KruskalExample.IndexByWeight | Kruskal.java:56-57 | on the sample, the edge at index i has weight 1..6, and that weight names i back |
| KruskalExample.WeightOfIndex | Kruskal.java:56-57 | on the sample, the index named for weight w, 1..6, carries weight w |
| KruskalExample.IdsOnce | Kruskal.java:56-57 | the initial heap holds each index at most once |
| KruskalExample.NoRepeat | Kruskal.java:282 | indices drawn from a heap holding each index once are pairwise different |
| KruskalExample.NoRepeats | Kruskal.java:282 | the same for the whole drawn order |
| KruskalExample.DrawnAbove | Kruskal.java:282 | on the sample, with distinct weights, each index drawn is strictly heavier than the one before |
| KruskalExample.DrawnBelow | Kruskal.java:282 | on the sample, the k-th index drawn weighs at most k, since lighter undrawn indices would be drawn first |
| KruskalExample.DrawnByWeight | Kruskal.java:282 | on the sample, the j-th index drawn is the edge of weight j+1 |
| KruskalExample.DrawnPrefix | Kruskal.java:279-282 | on the sample, the edges drawn are the edges sorted by weight, cut after the number drawn |
| KruskalExample.SampleFirstThree | Kruskal.java:284-297 | on the sorted sample the first two edges are kept and the third closes a cycle |
| KruskalExample.SampleFourth | Kruskal.java:284-297 | the fourth edge, 2-4, is kept |
| KruskalExample.SampleLastTwo | Kruskal.java:284-297 | the fifth edge, 3-5, is kept; the sixth closes a cycle |
| KruskalExample.SamplePrefixTree | Kruskal.java:279-299 | fewer than five sorted edges keep fewer than four; five or six keep 2-3, 1-2, 2-4, 3-5 |
| KruskalExample.SampleTreeWeight | Kruskal.java:317-329 | that tree weighs 12 |
| KruskalExample.KruskalSample | Kruskal.java:259-308 | on the sample graph in input order, any outcome `MstKruskal` allows is the tree 2-3, 1-2, 2-4, 3-5, of weight 12 |
| VertexHeaps.SlotOf | PrimLists.java:311 | with `hPos[a[k]] == k` on slots 1..n, a vertex is in the heap iff its recorded position lies in 1..n and holds it |
| VertexHeaps.Removed | PrimLists.java:378-388 | removal takes out the lightest vertex and only it, in terms of recorded positions |
| VertexHeaps.IndexedHoled | PrimLists.java:311 | with the position index intact, any slot may start a sift |
| VertexHeaps.TrackedStep | PrimLists.java:338-339 | moving a vertex into the hole and recording its slot keeps the position index correct except at the hole |
| VertexHeaps.TrackedDone | PrimLists.java:343-344 | writing the moving vertex into the final hole and recording it restores `hPos[a[k]] == k` |
| VertexHeaps.ClimbStep | PrimLists.java:337-341 | one pass of siftUp's loop keeps its invariant one level up |
| VertexHeaps.ClimbExit | PrimLists.java:337 | siftUp's loop stops where the parent is no heavier |
| VertexHeaps.ClimbDone | PrimLists.java:330-346 | siftUp ends with a heap over the same vertices with correct positions |
| VertexHeaps.SinkStep | PrimLists.java:352-366 | one pass of siftDown's loop keeps its invariant one level down |
| VertexHeaps.SinkExit | PrimLists.java:352-361 | siftDown's loop stops where no child is strictly lighter |
| VertexHeaps.SinkDone | PrimLists.java:348-371 | siftDown ends with the same vertices and correct positions |
| VertexHeaps.IndexedDistinct | PrimLists.java:311 | a correct position index means no vertex sits in two slots |
| VertexHeaps.Appended | PrimLists.java:373-375 | a vertex appended in slot n+1 is the only thing out of order, and the heap holds one more vertex |
| VertexHeaps.RootTaken | PrimLists.java:379-382 | after the root is cleared and the last vertex moved up, slot 1 is ready for a sift-down |
| VertexHeaps.ClearedAfter | PrimLists.java:385 | clearing slot n+1 leaves the heap on slots 1..n as it was |
| VertexHeaps.RemovedSlots | PrimLists.java:378-388 | removal leaves a heap holding the old vertices minus the lightest one |
| VertexHeaps.RootLightest | PrimLists.java:379 | the root of the heap has the least `dist` |
| VertexHeaps.RemovedPositions | PrimLists.java:380-385 | the removed vertex has `hPos` 0, except that it is 1 when the heap held one vertex; every other position is correct |
| VertexHeaps.RemovedRoot | PrimLists.java:378-388 | after the root is taken, the last slot moved up, sifted down and its old slot cleared, slots 1..N-1 are a heap of the old vertices minus the root, the lightest, with correct positions; `hPos` of the root is 0, or 1 when the heap held one vertex |
| VertexHeaps.SentinelReady | PrimLists.java:333-334 | the sentinel vertex 0 with key MIN_VALUE in slot 0 stops siftUp at the root |
| VertexHeaps.VertexHeap.constructor | PrimLists.java:319-324 | a new empty heap sharing the caller's `dist` and `hPos` |
| VertexHeaps.VertexHeap.IsEmpty | PrimLists.java:326-328 | true iff the heap holds no vertex |
| VertexHeaps.VertexHeap.SiftUp | PrimLists.java:330-346 | plants the sentinel (`a[0] = 0`, `dist[0] = MIN`); the slots become the outcome `SiftsUp` of the old ones, over the same vertices, heap-ordered, with positions updated |
| VertexHeaps.VertexHeap.Climb | PrimLists.java:336-341 | the loop of siftUp: ends with the invariant at the stopping slot |
| VertexHeaps.VertexHeap.SiftDown | PrimLists.java:348-371 | the slots become the outcome `SiftsDown` of the old ones, over the same vertices, with positions updated |
| VertexHeaps.VertexHeap.Sink | PrimLists.java:352-367 | the loop of siftDown: ends with the invariant at the stopping slot |
| VertexHeaps.VertexHeap.LighterSlot | PrimLists.java:353-357 | picks the lighter child as `LighterChild` does |
| VertexHeaps.VertexHeap.Insert | PrimLists.java:373-376 | N grows by one; the heap holds x besides the old vertices, stays ordered, and every position is correct |
| VertexHeaps.VertexHeap.TakeTop | PrimLists.java:379-382 | `v = a[1]; hPos[v] = 0; a[1] = a[N--]`, nothing else |
| VertexHeaps.VertexHeap.Detach | PrimLists.java:379-383 | takes the top and sifts the moved vertex down: the slots are the `SiftsDown` outcome over the same vertices |
| VertexHeaps.VertexHeap.Vacate | PrimLists.java:379-385 | as `Detach`, then slot N+1 becomes 0 |
| VertexHeaps.VertexHeap.ClearSlot | PrimLists.java:385 | `a[k] = 0`, nothing else |
| VertexHeaps.VertexHeap.Remove | PrimLists.java:378-388 | returns the old root, of least `dist` among the vertices in the heap; N drops by one; the rest stay, ordered; slot N+1 is cleared; `hPos[v]` is 0, or 1 when the heap held one vertex |
| Adjacency.AddEdge | PrimLists.java:62-73 | one edge prepends a node to the list of each of its ends |
| Adjacency.Lists | PrimLists.java:45-74 | after all edges are read there is one list per vertex 0..V |
| Adjacency.AddEdgeAt | PrimLists.java:62-73 | list x gains the nodes edge e contributes at x, v end's node first |
| Adjacency.EndsReversed | PrimLists.java:62-73 | an edge's nodes at x, reversed, are the ones prepended |
| Adjacency.ListsReversed | PrimLists.java:62-73 | every list holds the edges at its vertex in reverse input order |
| Adjacency.IncidentMember | PrimLists.java:62-73 | the nodes at x are exactly the neighbours given by input edges |
| Adjacency.ListsMember | PrimLists.java:62-73 | list x holds node (y, w) iff some input edge joins x and y with weight w |
| Adjacency.ListsGraph | PrimLists.java:62-73 | with endpoints in 1..V and non-negative weights, every node names a vertex 1..V with a non-negative weight |
| Adjacency.Out | PrimLists.java:226-229 | the list of x read as arcs x->vert of weight wgt |
| Adjacency.DoneMember | PrimLists.java:226-248 | the arcs scanned from the settled vertices are exactly the nodes of their lists |
| PrimSpec.AttachmentAt | PrimLists.java:234-235 | the k-th settled vertex hangs off an earlier one by a lightest arc out of the vertices settled before it |
| PrimSpec.AttachmentsParent | PrimLists.java:235 | changing the parent of an unsettled vertex keeps the attachments of the settled ones |
| PrimSpec.InHeapSlot | PrimLists.java:311 | a vertex is in the heap by its position iff it is in slots 1..n |
| PrimSpec.Added | PrimLists.java:373-376 | an insertion adds exactly one vertex to the heap |
| PrimSpec.Moved | PrimLists.java:245 | a sift keeps which vertices are in the heap |
| PrimSpec.PrimStart | PrimLists.java:199-214 | `dist` INF except `dist[s] = 0`, parents and positions 0, and a heap holding only s start the invariant with nothing settled |
| PrimSpec.DistinctSnoc | PrimLists.java:218-219 | settling a vertex not yet settled keeps the settled vertices distinct |
| PrimSpec.DistinctPairs | PrimLists.java:218-219 | settled vertices are pairwise distinct |
| PrimSpec.AtMostV | PrimLists.java:216 | distinct vertices 1..V number at most V |
| PrimSpec.GrownAtMostV | PrimLists.java:216 | at most V vertices are settled, so the loop runs at most V times |
| PrimSpec.GrownSnoc | PrimLists.java:218-221 | settling a vertex attached by a lightest arc out of the settled ones extends the tree |
| PrimSpec.NearestAttached | PrimLists.java:218 | the vertex of least `dist` in the heap hangs off a settled vertex by a lightest arc leaving the settled vertices |
| PrimSpec.SettledSnoc | PrimLists.java:219 | negating `dist[v]` records v as settled with weight `dist[v]` |
| PrimSpec.FrontierSettle | PrimLists.java:219 | settling v keeps every unsettled vertex's `dist` and parent as they were |
| PrimSpec.ResidentSettle | PrimLists.java:218-219 | after removing v the heap holds exactly the unsettled vertices with `dist` below INF |
| PrimSpec.Settle | PrimLists.java:216-221 | taking the vertex of least `dist` off the heap and negating its `dist` keeps the invariant of the run |
| PrimSpec.ScanStart | PrimLists.java:226 | the scan of v's list starts at its head |
| PrimSpec.ScanStep | PrimLists.java:226-229 | each node scanned adds its arc out of v |
| PrimSpec.ScanDone | PrimLists.java:226-248 | after v's whole list, the arcs scanned are those out of all settled vertices |
| PrimSpec.RelaxSkip | PrimLists.java:232 | an arc no lighter than the neighbour's `dist` changes nothing |
| PrimSpec.Unsettled | PrimLists.java:232 | with non-negative weights a settled vertex never passes `wgt < dist[u]` |
| PrimSpec.RelaxDone | PrimLists.java:232-246 | lowering `dist[u]` and setting `parent[u] = v`, then inserting or sifting u, keeps the invariant |
| PrimSpec.RelaxSettled | PrimLists.java:234 | updating an unsettled vertex keeps the settled ones |
| PrimSpec.RelaxFrontier | PrimLists.java:234-235 | the lowered `dist[u]` is the weight of the arc from its new parent, which is settled |
| PrimSpec.RelaxCut | PrimLists.java:232-234 | every arc scanned to an unsettled vertex is no lighter than its `dist` |
| PrimSpec.RelaxResident | PrimLists.java:237-246 | after the update the heap again holds exactly the unsettled vertices below INF |
| PrimSpec.RelaxGrown | PrimLists.java:235 | re-parenting an unsettled vertex keeps the grown tree |
| PrimSpec.KeyOutside | PrimLists.java:219 | changing the `dist` of a vertex outside the heap keeps the heap ordered |
| PrimSpec.InsertReady | PrimLists.java:238-240 | an unsettled vertex with `hPos` 0 is not in the heap, and there is room for it |
| PrimSpec.SiftReady | PrimLists.java:243-245 | lowering `dist` of a vertex in the heap leaves it ready for `siftUp(hPos[u])` |
| PrimSpec.Resides | PrimLists.java:238-245 | an unsettled vertex with `hPos` not 0 is in the heap |
| PrimSpec.PrimDone | PrimLists.java:216-253 | an empty heap means no arc below INF leaves the settled vertices, and every unsettled vertex has parent 0 |
| PrimSpec.PrimSpans | PrimLists.java:216-250 | on a connected graph every vertex ends settled |
| Prim.GraphLists.constructor | PrimLists.java:45-74 | the adjacency lists are `Lists(V, es)`: each edge prepended to both ends' lists |
| Prim.GraphLists.SettleRun | PrimLists.java:216-223 | settling the vertex just removed keeps the run's invariant |
| Prim.GraphLists.MstPrim | PrimLists.java:192-255 | `mst` is a tree grown from s: each settled vertex after s hangs off an earlier one by a lightest arc out of the vertices settled before it; `wgtSum` sums those weights; no arc below INF leaves the settled vertices; unsettled vertices have parent 0 |
| Prim.GraphLists.Start | PrimLists.java:198-214 | fresh arrays and a heap holding only s start the run |
| Prim.GraphLists.Blank | PrimLists.java:199-209 | `dist` INF, `parent` 0 and `hPos` 0 at every vertex 0..V |
| Prim.GraphLists.Grow | PrimLists.java:216-250 | the main loop, run while `!h.isEmpty()`, ends with an empty heap, the invariant intact and `wgtSum` the sum of settled weights |
| Prim.GraphLists.Round | PrimLists.java:216-250 | one iteration settles one more vertex, at most V in all, and keeps the invariant |
| Prim.GraphLists.SettleNearest | PrimLists.java:218-221 | removes the nearest vertex, negates its `dist`, and adds its weight to `wgt_sum` |
| Prim.GraphLists.TakeNearest | PrimLists.java:218-219 | the vertex removed was in the heap with least `dist`; it alone leaves the heap; its `dist` is negated |
| Prim.GraphLists.Extract | PrimLists.java:218 | `h.remove()` in terms of positions: the lightest vertex leaves, the others stay |
| Prim.GraphLists.Negate | PrimLists.java:219 | `dist[v] = -dist[v]` on a vertex outside the heap keeps the heap valid |
| Prim.GraphLists.Admit | PrimLists.java:240 | `h.insert(u)`: u joins the heap, the others stay |
| Prim.GraphLists.Reattach | PrimLists.java:234-235 | `dist[u] = wgt; parent[u] = v`, nothing else |
| Prim.GraphLists.Enqueue | PrimLists.java:234-240 | the update followed by `insert` |
| Prim.GraphLists.Promote | PrimLists.java:234-245 | the update followed by `siftUp(hPos[u])`: the heap keeps the same vertices, ordered |
| Prim.GraphLists.Scan | PrimLists.java:226-248 | scanning v's whole list keeps the invariant, with all arcs out of the settled vertices seen |
| Prim.GraphLists.Relax | PrimLists.java:228-247 | one node of the scan keeps the invariant |
| Prim.GraphLists.Enter | PrimLists.java:232-241 | the branch `hPos[u] == 0` keeps the invariant |
| Prim.GraphLists.Lower | PrimLists.java:232-246 | the branch `hPos[u] != 0` keeps the invariant |
| Sample.SampleConnected | PrimLists.java:53-74 | the sample graph has its endpoints in 1..5 and connects all five vertices |
| PrimExample.SampleGraph | PrimLists.java:53-74 | the sample graph connects its five vertices, with every weight below INF |
| PrimExample.Attaches | PrimLists.java:216-246 | each settled vertex hangs off an earlier one by an input edge no heavier than any arc leaving the earlier ones |
| PrimExample.SecondSettled | PrimLists.java:216-246 | from 1 the second vertex settled is 2, at weight 2 |
| PrimExample.ThirdSettled | PrimLists.java:216-246 | then 3, at weight 1 |
| PrimExample.FourthSettled | PrimLists.java:216-246 | then 4, at weight 4 |
| PrimExample.FifthSettled | PrimLists.java:216-246 | then 5, at weight 5 |
| PrimExample.PrimSample | PrimLists.java:192-255 | on the sample graph, any outcome MstPrim allows settles 1, 2, 3, 4, 5 with weights 0, 2, 1, 4, 5, total 12 |

## Left out

- File reading and parsing:
  - The `Graph` and `GraphLists` constructors take the edges as a sequence instead of a file (Kruskal.java:217-251, PrimLists.java:30-60).
  - Console output is left out: `show`, `showMST`'s printing, `showSets`, `showSet`, `showTrees`, `toChar`, `display`, and the `println` calls in `MST_Kruskal` and `MST_Prim`.
  - `showSets` calls `findSet`, which compresses paths but leaves the partition as it was (`UnionFind.CompressKeepsRoots`).
- The `main` methods, `DF`/`dfVisit`, `BF` and the `Queue` class: they traverse and print, and are not part of the MST logic.
- The linked adjacency lists:
  - They are sequences of `(vert, wgt)` nodes, head first. The sentinel `z`, the `visited` array and `id` are not modelled.
  - `adj[0]` is left `null` in the source and is the empty list in the model; no loop reads it.
- Kruskal.Graph.MstWeight: does not model 32-bit wrap-around of `sum`. Weights are unbounded integers.
- Prim.GraphLists.MstPrim: does not model 32-bit wrap-around of `wgt_sum`.
  - `Integer.MAX_VALUE` and `Integer.MIN_VALUE` are the constants `INF` and `MIN`.
  - It requires non-negative weights (`Graph(adj, V)`); the sign-as-settled marking relies on it.
  - It also requires `1 <= s <= V`, which the source leaves to its caller.
  - The returned `wgtSum` is what the source prints; `mst = parent` is an assignment of the array, as in the source.
- Kruskal.Graph.MstKruskal:
  - It requires the graph to be connected and its endpoints to lie in 1..V. On a disconnected graph the source removes from an empty heap.
  - It states a spanning tree whose edges come in non-decreasing weight, not the minimality of its total weight. The cut-property optimality proof is not modelled.
- The main loop of `MST_Prim` is split into helper methods `Start`, `Blank`, `Grow`, `Round`, `SettleNearest`, `Scan` and `Relax`, and so is the loop of `MST_Kruskal` (`Setup`, `Loop`, `Round`, `Draw`, `Join`, `Store`). `unionByRank` writes through `Link`, and the heap's `remove` through `TakeTop`, `Detach`, `Vacate` and `ClearSlot`. The statements and their order are the source's.
- UnionFind.UnionFindSets.Union: `union` is never called by `MST_Kruskal`. It is modelled as written, with its loop bound.

## Findings

| source | as written | input that shows it | evidently intended | confidence | as-written member | corrected member |
|---|---|---|---|---|---|---|
| Kruskal.java:140 | `union` rewrites `treeParent[i] == set2` only for `0 <= i < N`, so vertex N keeps its parent | N = 2, every vertex its own parent, `union(1, 2)`: vertex 2 stays a root apart from vertex 1 | the loop runs over `0 <= i <= N`, so the two sets merge | not executed | UnionFind.UnionSkipsLast | UnionFind.RelabelMerges |
