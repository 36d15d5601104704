# Minimum-energy vertical seam: a verified model

This project models the core of a seam-carving tool. The tool finds a
minimum-energy vertical seam through a grid of pixel energies, and it is
written twice: once in C++ (`seam_carving.cpp`) and once in Python
(`python.py`). Both versions work the same way:

1. They turn a `rows × cols` grid into a directed graph with `rows*cols+2`
   nodes. Pixel `(r, c)` is node `r*cols + c`, then come a source node and a
   target node.
2. They run Dijkstra's algorithm from the source to the target.
3. They follow the predecessor links back from the target.
4. They map the interior nodes of that path to their columns with `% cols`.

The model follows the code as written, including these points:

- The C++ heap orders `{node, score}` pairs lexicographically, so it is a
  min-heap on node id.
- The C++ `position_map` is written only by `initialize`.
- Edges point up one row, from row `r` to row `r-1`. The source feeds row 0,
  and the last row feeds the target.

Modules, one per file:

- `Heap` (`heap.dfy`): the lexicographic pair order, and the sift routines
  behind `make_heap`, `pop_heap`, `push_heap`, `heapq.heappush` and
  `heapq.heappop`. Each routine is specified by the heap property and by
  multiset preservation.
- `Graph` (`graph.dfy`): edges, edge paths, reachability, and the
  predecessor walk that both programs use to rebuild the path.
- `Grid` (`grid.dfy`): a reference definition of the grid graph. It states
  each node's edges in insertion order. The structural lemmas about it live
  here too.
- `SeamCarving` (`seam_carving.dfy`): the C++ program. It holds the
  `MinHeap` class and the imperative `generate_adjacency_list`, `dijkstra`
  and `find_minimum_seam`.
- `SeamPython` (`seam_python.dfy`): the Python program. It holds the
  adjacency builder, the lazy-insertion `dijkstra` over a heapq list with
  `float('inf')` as an extended integer, and `find_minimum_seam` with its
  `ValueError` check.

Two consequences of the upward edges are proved.

- `Grid.SourceMissesTarget`: when the grid has two or more rows, no edge path
  leads from the source to the target. The source only reaches row 0, and
  row 0 pixels have no out-edges.
- `SeamPython.FindMinimumSeam`: the Python Dijkstra only sets predecessors
  along paths from the source. So on a grid of two or more rows the traced path is the
  single node `[target]` and the seam is empty. As a result,
  `find_minimum_seam`:
  - raises `ValueError` whenever `rows > 2`;
  - returns the empty seam when `rows == 2`.

What the C++ `dijkstra` does on the grid is fixed as well
(`SeamCarving.FindMinimumSeam`). Its heap pops nodes in id order, so the
pixels come first, each with score `INF`.

- `INF + weight` overflows a 32-bit `int` on the first pixel, by node id, that
  has an edge of positive weight. The model stops there with
  `IntOverflow(pixel)`. A weight is the energy difference between a pixel
  and one of its upper neighbours (`Grid.PixelEdgeShape`). So the overflow
  is avoided only when every pixel below row 0 has the same energy as each
  of its upper neighbours.
- Without such a pixel, nothing changes until the source is popped with
  score 0. The heap then holds one entry, the target's.
  - With two or more columns, the source's update of pixel `(0, 1)` writes
    slot 1, outside the vector. The model stops with `SlotOutOfRange(1)`.
  - With one column, the target is popped with no predecessor, and the
    seam is empty.

Neither program checks its input. The model requires a rectangular grid
with at least one row and one column. Integers are mathematical, except
that the C++ sum `dist_u + weight` is checked against the 32-bit `int`
range.

## Model

| member | source | states |
|---|---|---|
| Heap.RootIsLeast | seam_carving.cpp:26-30 | in a heap under the pair order, the front entry is `LexLe` every entry, so `pop` returns the least `{node, score}` pair |
| Heap.MakeHeap | seam_carving.cpp:23 | `make_heap(…, greater<>())`: the result is a heap under the lexicographic pair order and a permutation of the input |
| Heap.SiftDown | seam_carving.cpp:23-27 | restores the heap property below `start` within the first `n` slots, leaves the rest untouched and permutes the entries |
| Heap.PopHeap | seam_carving.cpp:27 | `pop_heap`: the former front is now the last slot, the slots before it form a heap, and the multiset of entries is unchanged |
| Heap.SiftUp | seam_carving.cpp:41 | `push_heap` on `[0, pos]`: if the first `pos` slots were a heap, the first `pos+1` are one afterwards; entries are permuted and later slots unchanged; an entry already in place leaves the sequence as it was |
| Heap.DistinctFirstsPermutation | seam_carving.cpp:19-23 | a permutation of entries with distinct node ids still has distinct node ids |
| Heap.SetSndKeepsHeap | seam_carving.cpp:40 | overwriting only the score of one slot keeps the heap property and the distinct node ids, because the node ids decide the order |
| SeamCarving.EntriesContents | seam_carving.cpp:16-24 | a heap holding exactly the entries `initialize` pushes has one entry `(i, d[i])` for each `i` in `[0, len(d))` and no other |
| SeamCarving.MinHeap.constructor | seam_carving.cpp:97 | a fresh heap is empty with an empty position map |
| SeamCarving.MinHeap.Initialize | seam_carving.cpp:16-24 | afterwards the heap is a heap with distinct node ids, holds exactly the entries `(i, distances[i])`, and `position_map[i] == i` for exactly the nodes `0 .. len(distances)-1` |
| SeamCarving.MinHeap.Empty | seam_carving.cpp:33-35 | true exactly when the heap vector is empty |
| SeamCarving.MinHeap.Pop | seam_carving.cpp:26-31 | on a non-empty heap: returns the front entry `heap[0]`, which is lexicographically least, so no other entry has a smaller node id; removes exactly that entry, so the size drops by one; keeps the heap property; does not touch `position_map` |
| SeamCarving.MinHeap.Update | seam_carving.cpp:37-42 | with slot `position_map[node]` inside the vector: the new vector is the old one with only that slot's score replaced, so no entry moves; `position_map` changes only by `operator[]` inserting a missing node at 0 |
| SeamCarving.EnergyDifference | seam_carving.cpp:49-51 | the result is non-negative and equals `pixel1 - pixel2` or `pixel2 - pixel1` |
| SeamCarving.ConnectPixel | seam_carving.cpp:61-86 | one pass of the inner loop appends exactly the pixel's reference edge list to `adjacency_list[u]`, adds `(u, 0)` to the source's list if `r == 0`, and changes nothing else |
| SeamCarving.GenerateAdjacencyList | seam_carving.cpp:53-91 | the list built equals the reference grid graph `GridAdjacency`, slot by slot and edge by edge |
| SeamCarving.RelaxedKept | seam_carving.cpp:116-117 | an edge relaxed with score `s` stays relaxed when distances only fall |
| SeamCarving.MinViaIsMinimum | seam_carving.cpp:112-118 | the distance a node reaches through the first `k` edges of `u` is at most its start value and at most `dist_u + w` for each of those edges `(v, w)` to it, and equals the start value or one of those sums |
| SeamCarving.ThroughIsMinimum | seam_carving.cpp:111-120 | taking the first `k` edges in order gives every node that minimum, gives predecessor `u` exactly to the lowered nodes and keeps the others', and writes the lowered score into exactly the heap slots of lowered nodes, keeping every slot's node id |
| SeamCarving.ThroughKeepsInv | seam_carving.cpp:116-118 | the edge loop keeps the distance invariant: distances stay at or below their start values, predecessors follow edges, and a node has a predecessor exactly when its distance fell below its start value |
| SeamCarving.ThroughAtInf | seam_carving.cpp:112-116 | with non-negative weights and distances at most `INF`, a node popped with score `INF` or more changes no distance, predecessor or heap slot |
| SeamCarving.EdgeLoopStep | seam_carving.cpp:112-120 | one more edge that does not overflow extends the loop state by one edge; when its update falls outside the heap, the stuck node is that edge's node, it was lowered, and its slot is past the heap's end |
| SeamCarving.EdgeLoopOutcome | seam_carving.cpp:111-121 | the loop's end in relaxation terms: no distance rose; a changed predecessor is `u`, at a node whose slot is inside the heap or at the stuck node; a finished loop relaxed every edge of `u` without overflow; a stuck loop has an edge to the stuck node with all earlier edges relaxed; an overflow is at an edge of `u` after edges that did not overflow; and with non-negative weights a score of `INF` or more changed nothing |
| SeamCarving.RelaxedThroughFacts | seam_carving.cpp:116-118 | after the first `k` edges: no distance rose, a changed predecessor is `u` at a lowered node, those `k` edges are relaxed, and the last of them is reached with the edges before it relaxed |
| SeamCarving.LeastIsLo | seam_carving.cpp:103 | in a heap holding node ids `lo .. n-1`, the entry with the least node id is node `lo`'s |
| SeamCarving.NodesAfterPop | seam_carving.cpp:26-31 | popping node `lo` from a heap of distinct ids `lo .. n-1` leaves exactly the ids `lo+1 .. n-1` |
| SeamCarving.NodesAfterUpdate | seam_carving.cpp:37-42 | an `update` that keeps every slot's node id keeps the set of node ids in the heap |
| SeamCarving.RelaxEdge | seam_carving.cpp:112-120 | the exact effect of one edge `(v, w)` of `u`: if `dist_u + w` leaves the `int` range, nothing changes and the result is `IntOverflow(u)`; if it is below `distances[v]`, `distances[v]` becomes it and `predecessors[v]` becomes `u`, and then heap slot `v` takes it as its score when the slot is inside the heap, otherwise the heap is unchanged and the result is `SlotOutOfRange(v)`; if it is not below, nothing changes. The heap stays valid, with the same node ids |
| SeamCarving.RelaxEdges | seam_carving.cpp:111-121 | the distances, predecessors and heap left are exactly those of taking the edges of `u` in order (`Through`): an edge `(v, w)` whose `dist_u + w` is below `v`'s current distance sets that distance, predecessor `u` and, when `v`'s slot is inside the heap, that slot's score. On `Done` every edge was taken; on `SlotOutOfRange(v)` the loop stopped after the edge to `v`, which was lowered and whose slot is past the heap's end; on `IntOverflow(u)` it stopped before the edge whose sum overflows. No earlier sum overflowed, every lowered node but a stuck one has its slot inside the heap, the heap keeps its size, and the distance invariant is kept |
| SeamCarving.RunStateStep | seam_carving.cpp:102-121 | one more round keeps the run state: round `i` popped node `i`, all earlier rounds stay relaxed, and each new predecessor is this round's node |
| SeamCarving.RelaxRound | seam_carving.cpp:102-121 | a non-target round's edge loop moves the run state on by one round. A finished loop relaxed every edge of the round's node. A stuck one names a node past the heap's end, reached by an edge of the round's node, with its predecessor set and the earlier edges relaxed. An overflow is at an edge of the round's node. The distances and predecessors are those of relaxing the edges taken, and with non-negative weights a round before the source's changes nothing and does not get stuck |
| SeamCarving.Round | seam_carving.cpp:102-121 | one round pops the front entry `heap[0]`, of node `rounds`, the least id left. For the target the loop ends with the distances and predecessors unchanged. Otherwise the new distances and predecessors are exactly those of relaxing the edges of the node in order from its popped score: each node at the minimum of its distance and the sums over the edges taken to it, with predecessor the popped node exactly where lowered; every edge was taken when the round completes. The run state moves on by one round, carrying over the stop facts of RelaxEdges. With non-negative weights, rounds before the source change nothing |
| SeamCarving.RunStateFacts | seam_carving.cpp:102-122 | unpacks the run state into the facts `dijkstra`'s contract states |
| SeamCarving.Start | seam_carving.cpp:94-100 | every distance is `INF` except the source's 0, every predecessor is -1, and the heap holds every node exactly once with ids `0 .. n-1` |
| SeamCarving.Search | seam_carving.cpp:102-122 | the loop runs between 1 and `target+1` rounds; it ends normally exactly when the target is popped, in round `target+1`; otherwise it stops on an out-of-range slot for a node in the heap's former range, or on an overflow at the round's node |
| SeamCarving.Dijkstra | seam_carving.cpp:93-132 | round `i` pops node `i`. Every round but the last relaxes all edges of its node with the popped score, without overflow. Every predecessor is set along an edge, by an earlier round's node other than the target, at a node whose slot was inside the heap in that round; only a stuck run's node is excepted. With non-negative weights, every node up to the source is popped with its start score, and every predecessor is the source or a later node. A finished run has `target+1` rounds, and its path ends at the target along edges and follows the predecessors. A stuck run names a node in the heap's former range that the last round's node has an edge to, with that edge's earlier siblings relaxed. An overflow names the last round's node |
| SeamCarving.GridEnds | seam_carving.cpp:53-91 | the grid list has `rows*cols+2` slots, weights are non-negative, the source's slot lists `(c, 0)` for every column and the target's slot is empty |
| SeamCarving.OverflowFromInf | seam_carving.cpp:114 | from score `INF`, `dist_u + weight` overflows on some edge exactly when some edge has positive weight |
| SeamCarving.GridOverflow | seam_carving.cpp:102-121 | on the grid, an overflow happens at a pixel, and at the first pixel by id that has an edge of positive weight |
| SeamCarving.GridNoPositive | seam_carving.cpp:102-121 | on the grid, a run that got past the source without overflow saw no pixel with a positive-weight edge |
| SeamCarving.PixelOneStuck | seam_carving.cpp:116-119 | on the grid with two or more columns, once pixel 1's distance is at most 0, its `update` is the one that wrote out of range |
| SeamCarving.GridStuck | seam_carving.cpp:102-121 | on the grid, an out-of-range `update` happens in the source's round, at pixel `(0, 1)`, and only with two or more columns |
| SeamCarving.GridDone | seam_carving.cpp:102-131 | on the grid, a run that reaches the target happens only with one column, and its path is `[target]` |
| SeamCarving.FindMinimumSeam | seam_carving.cpp:134-153 | the result is `IntOverflow` exactly when some pixel has an edge of positive weight, and then at the first such pixel. Otherwise the result is `SlotOutOfRange(1)` with two or more columns, and the empty seam with one. In general, a stuck run names a node in the heap's former range reached by an edge of the last round's node; a finished run's path ends at the target along grid edges; and the seam has `max(len(path)-2, 0)` entries, entry `i` being `path[i+1] % cols`, all columns, with neighbours at most one column apart |
| SeamCarving.InteriorColumns | seam_carving.cpp:144-148 | the seam has `max(len(path)-2, 0)` entries, entry `j` being `path[j+1] % cols` |
| Graph.PathEndHasPred | seam_carving.cpp:126-129 | a walk of two or more nodes along predecessor links ends at a node whose predecessor is the node before it, so not -1 |
| Graph.WalkStartsAtRoot | seam_carving.cpp:124-131 | on a walk along predecessor links (also python.py:67-73), only the first node can have predecessor -1 |
| Graph.PredsRankedAlongEdges | seam_carving.cpp:116-118 | when every predecessor is set along an edge of an acyclic graph, following predecessors strictly descends in rank, so the walk back ends |
| Graph.Reverse | seam_carving.cpp:129 | `reverse`: same length, entry `i` is entry `len(s)-1-i` of the input |
| Graph.TracePath | seam_carving.cpp:124-131 | the walk back from `target` (also python.py:67-73) ends at `target`, stays in range, starts at a node with predecessor -1, and each node is the predecessor of the next |
| Graph.ReachStep | python.py:60-65 | extending a path from the source by one edge reaches the edge's end |
| Grid.GridLayout | seam_carving.cpp:54-61 | the list has `rows*cols+2` slots; pixel `(r, c)` is slot `r*cols+c` holding that pixel's edges; the source's slot lists `(c, 0)` for every column `c`; the target's slot is empty |
| Grid.PixelEdgeShape | seam_carving.cpp:64-86 | a pixel of row `r > 0` has exactly three upward edges, number `j` going to row `r-1` at column `c+j-1`, or at `c` when that column is off the grid, weighted by the energy difference with the pixel it reaches; so at a border the clamped edge repeats the middle one. A last-row pixel's list ends with `(target, 0)`, and there are no other edges |
| Grid.EdgeKinds | seam_carving.cpp:63-86 | no other edges exist: every edge is a source edge `(k, 0)` into row 0, one of a pixel's three upward edges, or the final `(target, 0)` edge of a last-row pixel |
| Grid.GridWellFormed | seam_carving.cpp:59-88 | every edge stays inside the list and has weight at least 0; the grid graph is acyclic, ranked by source, then rows bottom-up, then target |
| Grid.BuiltNext | seam_carving.cpp:59-88 | appending pixel `u`'s edge list, and its source edge when in row 0, turns the list built for the first `u` pixels into the one for `u+1` |
| Grid.PixelStep | seam_carving.cpp:64-75 | an edge between two pixels goes exactly one row up and at most one column sideways |
| Grid.SeamShape | seam_carving.cpp:144-148 | an edge path that ends at the target has at most `rows+2` nodes. Its interior nodes are pixels, and consecutive interior nodes differ by at most one column |
| Grid.TopRowIsolated | seam_carving.cpp:64-86 | in a grid of two rows or more, a row-0 pixel has no out-edges |
| Grid.SourceMissesTarget | seam_carving.cpp:78-86 | in a grid of two rows or more, no edge path leads from the source to the target; such a path has at most two nodes |
| SeamPython.ConnectPixel | python.py:19-41 | one pass of the inner loop, with `abs` weights, appends exactly the pixel's reference edge list to its slot, adds `(u, 0)` to the source's list if `r == 0`, and changes nothing else |
| SeamPython.GenerateAdjacencyList | python.py:12-43 | the Python builder produces exactly the reference grid graph, the same lists the C++ builder produces, with the same order and weights |
| SeamPython.HeapPush | python.py:52 | `heappush` keeps the heap property and adds exactly the pushed tuple |
| SeamPython.HeapPop | python.py:55 | `heappop` returns a least `(dist, node)` tuple, removes exactly it, and keeps the heap property |
| SeamPython.RelaxLowers | python.py:62-63 | setting `distances[v]` to a smaller `new_dist` lowers the measure made of the number of infinite distances and the sum of the finite ones, so the `while pq` loop ends |
| SeamPython.RelaxedUpToStep | python.py:60-63 | relaxed edges stay relaxed when distances fall, and one more relaxed edge extends the relaxed prefix |
| SeamPython.StateAfterRelax | python.py:62-65 | one improving relaxation of an edge from a reachable node with a finite distance, which sets `distances[v]` and `predecessors[v] = u` and pushes `(new_dist, v)`, keeps the search state: the queue stays valid, predecessors follow edges, name nodes with finite distances and match the finite distances, and every queued or preceded node stays reachable |
| SeamPython.StateAfterEdge | python.py:60-65 | either outcome of one edge from a reachable node with a finite distance and a non-negative `dist_u` keeps the search state |
| SeamPython.ProgressAfterEdge | python.py:60-65 | either outcome of one edge extends the relaxation progress of `u` by that edge |
| SeamPython.ProgressAfterRelax | python.py:61-65 | an improving edge lowers its node to `dist_u + weight`, sets its predecessor to `u`, pushes exactly that tuple, and lowers the measure |
| SeamPython.ProgressAfterSkip | python.py:61-62 | an edge that does not improve its node relaxes it without changing any state |
| SeamPython.RelaxEdge | python.py:60-65 | the exact effect of one pass: when `dist_u + weight` is below `distances[v]`, `distances[v]` becomes it, `predecessors[v]` becomes `u` and the queue gains exactly the tuple `(new_dist, v)`, as a multiset; otherwise nothing changes. The queue stays a heap |
| SeamPython.RelaxEdges | python.py:60-65 | afterwards every edge of `u` is relaxed with `dist_u`. Each changed distance is lower, and equals `dist_u + weight` of an edge from `u` to that node. A node's predecessor is `u` exactly when its distance changed, and is unchanged otherwise; `u` has an edge to each node it became the predecessor of. The queue keeps every tuple it had, as a multiset, holds `(distances[v], v)` for every changed `v`, and gains only tuples `(dist_u + weight, v)` for an edge `(v, weight)`, strictly below `v`'s earlier distance. Nothing is pushed unless a distance changed, and any change lowers the measure. The search state is kept |
| SeamPython.PoppedFactsAppend | python.py:55-65 | a popped tuple at or above its node's distance, with its edges relaxed unless it is the target's, can be added to the popped record |
| SeamPython.PoppedFactsKept | python.py:55-65 | what is known about the popped tuples survives lower distances |
| SeamPython.TrackedStep | python.py:54-65 | popping one tuple and then relaxing, with a queue that keeps every other tuple and holds every changed node's tuple, keeps every finite distance carried by a queued or popped tuple |
| SeamPython.DrainedRelaxed | python.py:54-65 | once the queue is drained, every node with a finite distance, other than the target, has all its edges relaxed with that distance: the distances are a fixpoint of relaxation |
| SeamPython.Round | python.py:54-65 | one pass of the `while pq` loop pops a least tuple `(dist_u, u)`. For the target the loop breaks with the distances and predecessors unchanged and the queue the old one less that tuple. Otherwise the edges of `u` are relaxed: the queue keeps every tuple but the popped one and holds the tuple of every changed distance. Either way the search state is kept, the popped tuple joins the record with its facts, every finite distance is carried by a queued or popped tuple, and either the distances are unchanged and the queue shrinks, or the loop measure drops |
| SeamPython.StateAfterPop | python.py:55 | popping keeps the search state, and the popped node is in range, reachable from the source, and at or above its distance |
| SeamPython.Start | python.py:46-52 | every distance is infinite but the source's 0, every predecessor is -1, and `pq == [(0, source)]` |
| SeamPython.Search | python.py:45-65 | the first pop is `(0, source)`. No tuple before the last popped one is the target's, and the loop ends by popping the target or by draining `pq`. Every popped non-target node has all its edges relaxed with its popped distance. No popped or queued tuple is below its node's final distance, and every finite final distance is carried by a popped or remaining tuple. A node has a predecessor exactly when it is not the source and its final distance is finite. Predecessors follow edges, at reachable nodes only |
| SeamPython.SearchStateFacts | python.py:45-65 | unpacks the search state: the source's distance is 0, predecessors match the finite distances and follow edges, queued tuples are at or above their distances, and preceded nodes are reachable |
| SeamPython.TraceSeam | python.py:67-75 | the walk back ends at the target along edges and follows the predecessors; a walk of two or more nodes means the target is reachable; the result is `path[1:-1]`, every entry a node of the list |
| SeamPython.Dijkstra | python.py:45-75 | the final distances have the source at 0, and every other node with a finite distance has a predecessor. The first pop is `(0, source)`, and every popped non-target node has all its edges relaxed with its popped distance. The loop ends by popping the target or by draining `pq`. No popped or queued tuple is below its node's final distance, and every finite distance is carried by a popped or remaining tuple; when `pq` drains, every finite non-target node has all its edges relaxed with its final distance. The path ends at `target` along edges and follows the predecessors; if it has two or more nodes, it starts at the source and the target is reachable from it. The result is `path[1:-1]` |
| SeamPython.ChainExample | python.py:45-75 | on the chain `0 -5-> 1 -0-> 2` with source 0 and target 2, anything that meets Dijkstra's contract traces the path `[0, 1, 2]` and returns `[1]` |
| SeamPython.Inner | python.py:75 | `path[1:-1]` has `max(len(path)-2, 0)` entries, entry `i` being `path[i+1]`, so `[target]` gives `[]` |
| SeamPython.Columns | python.py:84 | every entry is `p % cols`, inside `[0, cols)` |
| SeamPython.FindMinimumSeam | python.py:77-89 | raises `ValueError` exactly when the seam length differs from `rows - 2`. Otherwise the seam is the columns of the path's interior, each in `[0, cols)`, with seam shape. With `rows >= 2` the path is `[target]`, so the result is `ValueError` exactly when `rows != 2`, and the seam is `[]` otherwise |

## Left out

- File and console I/O are not modelled. This covers `read_pixels`, `save_seam` and `main` (seam_carving.cpp:155-210), and `extract_pixels`, `highlight_seam` and the `__main__` block (python.py). image_processing.py is not part of this model; it is cv2 image reading and writing.
- SeamCarving.Dijkstra: signed overflow of `dist_u + weight` is undefined behaviour in C++. The model stops with `IntOverflow(u)` before the comparison instead of guessing a wrapped value. Other arithmetic, such as `abs(pixel1 - pixel2)` and `rows * cols + 2`, is on unbounded integers; image energies are small, so it does not overflow in practice.
- SeamCarving.Dijkstra: when `update` would write `heap[pos]` with `pos >= heap.size()`, the model returns `SlotOutOfRange(v)` instead of continuing. The C++ behaviour there is undefined. The check happens right after `distances[v]` and `predecessors[v]` are written, and before the write that would go astray.
- The exact slot layout that the libstdc++ `make_heap` and `pop_heap` and the CPython `heapq` functions produce is not modelled. Their sift routines are one valid layout, and the contracts of `MinHeap.Initialize`, `MinHeap.Pop`, `HeapPush` and `HeapPop` fix only the heap property, the least element and the multiset. `MinHeap.Update` is exact: its single-slot sift is proved to move nothing.
- SeamCarving.Dijkstra, SeamPython.Dijkstra, Graph.TracePath: these take a ghost rank under which every edge climbs. It is proof-only scaffolding that shows the predecessor walk ends; `find_minimum_seam` supplies the grid's rank.
- SeamPython.Dijkstra: requires non-negative edge weights, which the grid graph has (Grid.GridWellFormed). The extra requirement makes termination provable; python.py has no such check.
- SeamCarving.Dijkstra, SeamPython.Dijkstra: neither is proved to find shortest paths. On a grid of two or more rows neither search reaches the target from the source (Grid.SourceMissesTarget), and the C++ search never traces a path from the source on any grid (SeamCarving.FindMinimumSeam).
- SeamPython.FindMinimumSeam, one-row grid: row 0 is then also the last row, so the source reaches the target through a pixel. From the code, the search pops `(0, source)`, then `(0, 0)`, which sets the target's predecessor to pixel 0, and no later pop lowers it; the trace is `[source, 0, target]` and the seam `[0]`. The model does not state that path; it proves only the outcome, `ValueError`, because no seam has `rows - 2 = -1` entries.
- `unordered_map` hashing is not modelled; `position_map` is a Dafny `map<int, int>`.
- numpy arrays and dtypes are not modelled; the image is a `seq<seq<int>>` of unbounded integers. `rows, cols = image.shape` on a one-row `loadtxt` result is not modelled either.
- `float('inf')` is the `Inf` case of an extended-integer datatype.
- SeamCarving.FindMinimumSeam: the unused `r = path[i] / cols` (seam_carving.cpp:145) is not modelled.
- Some loop bodies and phases are factored out as methods of their own, which the source writes inline:
  - SeamCarving.ConnectPixel and SeamPython.ConnectPixel: the inner loop body of `generate_adjacency_list`;
  - SeamCarving.RelaxEdge and SeamPython.RelaxEdge: one pass of the edge loop;
  - SeamCarving.RelaxEdges and SeamPython.RelaxEdges: the edge loop;
  - SeamCarving.Round and SeamPython.Round: one pass of the `while` loop;
  - SeamCarving.Start, SeamCarving.Search, SeamPython.Start and SeamPython.Search: the set-up and the `while` loop;
  - SeamPython.TraceSeam: the path walk and `path[1:-1]`;
  - SeamCarving.InteriorColumns: the seam loop of `find_minimum_seam`.
- Neither seam is proved minimal or to have one entry per row. With upward edges and two or more rows it does not have one (Grid.SourceMissesTarget); with one row the Python seam has one entry, but `find_minimum_seam` then raises `ValueError`.
