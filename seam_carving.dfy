/** The C++ seam finder (seam_carving.cpp): an indexed min-heap, the grid
    graph builder, a Dijkstra loop driven by the heap, and the conversion of
    the node path into columns.  `INF` is `numeric_limits<int>::max()`; a
    sum `dist_u + weight` outside the 32-bit `int` range is signed overflow,
    undefined behaviour in C++, and ends the model with an error. */
module SeamCarving {
  import opened Heap
  import opened Graph
  import opened Grid

  /** `numeric_limits<int>::max()` on a 32-bit int. */
  const INF: int := 2147483647

  /** `numeric_limits<int>::min()` on a 32-bit int. */
  const INT_MIN: int := -2147483648

  /** `x` is a value of a 32-bit `int`. */
  predicate InInt(x: int) {
    INT_MIN <= x <= INF
  }

  /** A result, or one of two points where the C++ has undefined behaviour:
      the node whose heap slot `MinHeap.update` would have written out of
      range, or the popped node whose `dist_u + weight` overflowed. */
  datatype Outcome<T> = Done(value: T) | SlotOutOfRange(node: int) | IntOverflow(node: int)

  /** The entries `initialize` pushes: node `i` with score `d[i]`. */
  function Entries(d: seq<int>): seq<Pair> {
    seq(|d|, i requires 0 <= i < |d| => Pair(i, d[i]))
  }

  /** `m` maps exactly the nodes 0 .. n - 1, each to itself. */
  ghost predicate IdentityOn(m: map<int, int>, n: int) {
    && (forall i :: i in m <==> 0 <= i < n)
    && (forall i :: i in m ==> m[i] == i)
  }

  /** A heap holding exactly the entries of `d` has one entry per node
      0 .. |d| - 1, the entry of node i carrying score d[i]. */
  lemma EntriesContents(h: seq<Pair>, d: seq<int>)
    requires multiset(h) == multiset(Entries(d))
    ensures |h| == |d|
    ensures forall x :: x in h <==> 0 <= x.fst < |d| && x.snd == d[x.fst]
  {
    assert |multiset(h)| == |multiset(Entries(d))|;
    forall x ensures x in h <==> 0 <= x.fst < |d| && x.snd == d[x.fst] {
      assert x in h <==> x in multiset(Entries(d));
      if 0 <= x.fst < |d| && x.snd == d[x.fst] {
        assert Entries(d)[x.fst] == x;
      }
    }
  }

  lemma EntriesDistinct(d: seq<int>)
    ensures DistinctFirsts(Entries(d))
  {
  }

  /** `MinHeap`: a vector of `{node, score}` pairs kept as a min-heap under
      the lexicographic pair order (so by node id first), and a node-to-slot
      map that only `initialize` writes. */
  class MinHeap {
    var heap: seq<Pair>
    var positionMap: map<int, int>

    ghost predicate Valid()
      reads this
    {
      IsHeap(heap) && DistinctFirsts(heap)
    }

    constructor ()
      ensures Valid() && heap == [] && positionMap == map[]
    {
      heap := [];
      positionMap := map[];
    }

    /** Loads node `i` with score `distances[i]` for every `i`, records slot
        `i` for node `i`, then heapifies. */
    method Initialize(distances: seq<int>)
      modifies this
      ensures Valid()
      ensures multiset(heap) == multiset(Entries(distances))
      ensures IdentityOn(positionMap, |distances|)
    {
      heap := [];
      positionMap := map[];
      var i := 0;
      while i < |distances|
        invariant 0 <= i <= |distances|
        invariant heap == Entries(distances)[..i]
        invariant IdentityOn(positionMap, i)
      {
        heap := heap + [Pair(i, distances[i])];
        positionMap := positionMap[i := i];
        i := i + 1;
      }
      assert heap == Entries(distances);
      EntriesDistinct(distances);
      var h := MakeHeap(heap);
      DistinctFirstsPermutation(heap, h);
      heap := h;
    }

    /** `empty()`. */
    function Empty(): (b: bool)
      reads this
      ensures b <==> heap == []
    {
      |heap| == 0
    }

    /** Removes and returns the lexicographically least entry, which is the
        entry with the smallest node id. */
    method Pop() returns (e: Pair)
      requires Valid() && heap != []
      modifies this`heap
      ensures Valid()
      ensures e == old(heap)[0]
      ensures e in old(heap)
      ensures forall x :: x in old(heap) ==> LexLe(e, x) && e.fst <= x.fst
      ensures multiset(heap) + multiset{e} == multiset(old(heap))
      ensures forall x :: x in heap ==> x in old(heap)
      ensures |heap| == |old(heap)| - 1
    {
      RootIsLeast(heap);
      var b := PopHeap(heap);
      e := b[|b| - 1];
      DistinctFirstsPermutation(heap, b);
      PrefixIsHeap(b, |b| - 1);
      heap := b[..|b| - 1];
      assert b == heap + [e];
      assert forall x :: x in heap ==> x in multiset(b);
    }

    /** The slot `position_map[node]` reads; `operator[]` yields 0 (and
        inserts it) for a node the map does not hold. */
    function Slot(node: int): int
      reads this
    {
      if node in positionMap then positionMap[node] else 0
    }

    /** Whether `update(node, _)` stays inside the vector. */
    predicate CanUpdate(node: int)
      reads this
    {
      0 <= Slot(node) < |heap|
    }

    /** Overwrites the score of the entry in slot `position_map[node]` and
        sifts that slot up.  Only the score of that slot changes: its node id
        stays, so with distinct ids the order is untouched and no entry
        moves. */
    method Update(node: int, score: int)
      requires Valid() && CanUpdate(node)
      modifies this
      ensures Valid()
      ensures heap == old(heap)[old(Slot(node)) := Pair(old(heap)[old(Slot(node))].fst, score)]
      ensures positionMap == if node in old(positionMap) then old(positionMap) else old(positionMap)[node := 0]
    {
      var pos := Slot(node);
      if node !in positionMap {
        positionMap := positionMap[node := 0];
      }
      SetSndKeepsHeap(heap, pos, score);
      heap := heap[pos := Pair(heap[pos].fst, score)];
      heap := SiftUp(heap, pos);
    }
  }

  /** `energy_difference`: the absolute difference of two energies. */
  function EnergyDifference(pixel1: int, pixel2: int): (r: int)
    ensures r >= 0 && (r == pixel1 - pixel2 || r == pixel2 - pixel1)
  {
    Abs(pixel1 - pixel2)
  }

  /** The body of `generate_adjacency_list`'s inner loop for pixel (r, c),
      node u: its three upward edges when r > 0, its edge from the source in
      row 0, its edge to the target in the last row. */
  method ConnectPixel(image: seq<seq<int>>, adj: seq<seq<Edge>>, r: int, c: int, u: int) returns (adj': seq<seq<Edge>>)
    requires IsGrid(image) && 0 <= r < Rows(image) && 0 <= c < Cols(image)
    requires |adj| == PixelCount(image) + 2 && 0 <= u < PixelCount(image) && u == r * Cols(image) + c
    ensures adj' == adj[u := adj[u] + PixelEdges(image, r, c)]
                       [Source(image) := if r == 0 then adj[Source(image)] + [Edge(u, 0)] else adj[Source(image)]]
  {
    var rows := |image|;
    var cols := |image[0]|;
    var numVertices := rows * cols + 2;
    adj' := adj;
    if r > 0 {
      var v1 := (r - 1) * cols + Max(c - 1, 0);
      var v2 := (r - 1) * cols + c;
      var v3 := (r - 1) * cols + Min(c + 1, cols - 1);
      var weight1 := EnergyDifference(image[r][c], image[r - 1][Max(c - 1, 0)]);
      var weight2 := EnergyDifference(image[r][c], image[r - 1][c]);
      var weight3 := EnergyDifference(image[r][c], image[r - 1][Min(c + 1, cols - 1)]);
      adj' := adj'[u := adj'[u] + [Edge(v1, weight1)]];
      adj' := adj'[u := adj'[u] + [Edge(v2, weight2)]];
      adj' := adj'[u := adj'[u] + [Edge(v3, weight3)]];
    }
    ghost var up := adj'[u];
    assert adj' == adj[u := up];
    if r == 0 {
      adj' := adj'[numVertices - 2 := adj'[numVertices - 2] + [Edge(u, 0)]];
    }
    if r == rows - 1 {
      adj' := adj'[u := adj'[u] + [Edge(numVertices - 1, 0)]];
    }
    assert adj'[u] == adj[u] + PixelEdges(image, r, c);
  }

  /** `generate_adjacency_list`: row-major over the grid, each pixel gets its
      edges (see ConnectPixel).  The list built is slot for slot the grid
      graph. */
  method GenerateAdjacencyList(image: seq<seq<int>>) returns (adj: seq<seq<Edge>>)
    requires IsGrid(image)
    ensures adj == GridAdjacency(image)
  {
    var rows := |image|;
    var cols := |image[0]|;
    var numVertices := rows * cols + 2;
    adj := seq(numVertices, _ => []);
    ghost var done := 0;  // pixels handled so far, in row-major order
    BuiltEmpty(image);
    var r := 0;
    while r < rows
      invariant 0 <= r <= rows
      invariant done == r * cols && done <= rows * cols
      invariant adj == Built(image, done, if r == 0 then 0 else cols)
    {
      var c := 0;
      while c < cols
        invariant 0 <= c <= cols
        invariant done == r * cols + c && done <= rows * cols
        invariant adj == Built(image, done, if r == 0 then c else cols)
      {
        PixelId(rows, cols, r, c);
        var u := r * cols + c;
        ghost var before := adj;
        adj := ConnectPixel(image, adj, r, c, u);
        BuiltNext(image, before, adj, u, r, c, if r == 0 then c else cols);
        done := done + 1;
        c := c + 1;
      }
      assert (r + 1) * cols == r * cols + cols;
      r := r + 1;
    }
    BuiltAll(image);
  }

  /** The distance each node starts with: 0 for the source, INF otherwise. */
  function InitialDistance(source: int, v: int): int {
    if v == source then 0 else INF
  }

  /** The first `k` edges `(v, w)` of `u` have been relaxed with score `s`:
      `d[v] <= s + w`. */
  ghost predicate RelaxedUpTo(adj: seq<seq<Edge>>, d: seq<int>, s: int, u: int, k: int) {
    0 <= u < |adj| && 0 <= k <= |adj[u]| &&
    forall j :: 0 <= j < k ==> 0 <= adj[u][j].to < |d| && d[adj[u][j].to] <= s + adj[u][j].weight
  }

  /** Every edge of `u` has been relaxed with score `s`. */
  ghost predicate Relaxed(adj: seq<seq<Edge>>, d: seq<int>, s: int, u: int) {
    0 <= u < |adj| && RelaxedUpTo(adj, d, s, u, |adj[u]|)
  }

  /** For the first `k` edges `(v, w)` of `u`, `s + w` fits in an `int`. */
  ghost predicate NoOverflowUpTo(adj: seq<seq<Edge>>, s: int, u: int, k: int) {
    0 <= u < |adj| && 0 <= k <= |adj[u]| && forall j :: 0 <= j < k ==> InInt(s + adj[u][j].weight)
  }

  /** For every edge `(v, w)` of `u`, `s + w` fits in an `int`. */
  ghost predicate NoOverflow(adj: seq<seq<Edge>>, s: int, u: int) {
    0 <= u < |adj| && NoOverflowUpTo(adj, s, u, |adj[u]|)
  }

  /** Relaxation facts survive lower distances. */
  lemma RelaxedKept(adj: seq<seq<Edge>>, d: seq<int>, d': seq<int>, s: int, u: int, k: int)
    requires RelaxedUpTo(adj, d, s, u, k) && |d'| == |d|
    requires forall v :: 0 <= v < |d| ==> d'[v] <= d[v]
    ensures RelaxedUpTo(adj, d', s, u, k)
  {
    forall j | 0 <= j < k ensures d'[adj[u][j].to] <= s + adj[u][j].weight {
      var v := adj[u][j].to;
      assert d'[v] <= d[v];
    }
  }

  /** Some slot of `h` holds node `i`. */
  ghost predicate HasNode(h: seq<Pair>, i: int) {
    exists k :: 0 <= k < |h| && h[k].fst == i
  }

  /** The heap holds node ids exactly `lo .. n - 1`. */
  ghost predicate NodesFrom(h: seq<Pair>, lo: int, n: int) {
    && (forall x :: x in h ==> lo <= x.fst < n)
    && (forall i :: lo <= i < n ==> HasNode(h, i))
  }

  /** In a heap of node ids `lo .. n - 1`, an entry no other entry
      undercuts in node id is the entry of node `lo`. */
  lemma LeastIsLo(h: seq<Pair>, e: Pair, lo: int, n: int)
    requires NodesFrom(h, lo, n) && lo < n
    requires e in h && forall x :: x in h ==> e.fst <= x.fst
    ensures e.fst == lo
  {
    assert HasNode(h, lo);
    var k :| 0 <= k < |h| && h[k].fst == lo;
    assert h[k] in h;
  }

  /** Removing the entry of node `lo` from a heap of distinct ids
      `lo .. n - 1` leaves `lo + 1 .. n - 1`. */
  lemma NodesAfterPop(h: seq<Pair>, h': seq<Pair>, e: Pair, lo: int, n: int)
    requires NodesFrom(h, lo, n) && DistinctFirsts(h)
    requires e.fst == lo && multiset(h') + multiset{e} == multiset(h)
    ensures NodesFrom(h', lo + 1, n)
  {
    assert e in multiset(h);
    var b :| 0 <= b < |h| && h[b] == e;
    DistinctCountAtMostOne(h, e);
    forall x | x in h' ensures lo + 1 <= x.fst < n {
      assert x in multiset(h);
      var a :| 0 <= a < |h| && h[a] == x;
      if x.fst == lo {
        assert false;
      }
    }
    forall i | lo + 1 <= i < n ensures HasNode(h', i) {
      assert HasNode(h, i);
      var k :| 0 <= k < |h| && h[k].fst == i;
      assert h[k] in multiset(h);
      assert h[k] != e;
      assert h[k] in multiset(h');
      var k' :| 0 <= k' < |h'| && h'[k'] == h[k];
    }
  }

  /** Changing scores only keeps the node ids. */
  lemma NodesAfterUpdate(h: seq<Pair>, h': seq<Pair>, lo: int, n: int)
    requires NodesFrom(h, lo, n) && |h'| == |h| && forall k :: 0 <= k < |h| ==> h'[k].fst == h[k].fst
    ensures NodesFrom(h', lo, n)
  {
    forall x | x in h' ensures lo <= x.fst < n {
      var k :| 0 <= k < |h'| && h'[k] == x;
      assert h[k] in h;
    }
    forall i | lo <= i < n ensures HasNode(h', i) {
      assert HasNode(h, i);
      var k :| 0 <= k < |h| && h[k].fst == i;
      assert h'[k].fst == i;
    }
  }

  /** What `dijkstra` keeps about its arrays: distances never exceed their
      start values, predecessors are set along edges, and a node has a
      predecessor exactly when its distance fell below its start value. */
  ghost predicate DistancesInv(adj: seq<seq<Edge>>, source: int, distances: seq<int>, predecessors: seq<int>) {
    && |distances| == |adj| && (forall v :: 0 <= v < |adj| ==> distances[v] <= InitialDistance(source, v))
    && PredsAlongEdges(adj, predecessors)
    && (forall v :: 0 <= v < |adj| ==> (predecessors[v] != -1 <==> distances[v] < InitialDistance(source, v)))
  }

  /** Nothing has changed yet: every distance and predecessor has its start
      value, and every heap entry still carries its start score. */
  ghost predicate Untouched(source: int, distances: seq<int>, predecessors: seq<int>, heap: seq<Pair>) {
    && (forall v :: 0 <= v < |distances| ==> distances[v] == InitialDistance(source, v))
    && (forall v :: 0 <= v < |predecessors| ==> predecessors[v] == -1)
    && (forall x :: x in heap ==> x.snd == InitialDistance(source, x.fst))
  }

  /** One of the first `k` edges of `u` leads to `v`, and the edges before
      it have been relaxed with score `s`. */
  ghost predicate StoppedAt(adj: seq<seq<Edge>>, d: seq<int>, s: int, u: int, v: int) {
    0 <= u < |adj| && exists j :: 0 <= j < |adj[u]| && adj[u][j].to == v && RelaxedUpTo(adj, d, s, u, j)
  }

  /** Some edge `(v, w)` of `u` makes `s + w` leave the `int` range. */
  ghost predicate Overflows(adj: seq<seq<Edge>>, s: int, u: int) {
    0 <= u < |adj| && exists j :: 0 <= j < |adj[u]| && !InInt(s + adj[u][j].weight)
  }

  /** The distance node `v` reaches through the first `k` edges of `u`
      relaxed in order with score `s`, starting from `d0`: `d0` lowered to
      `s + w` by each edge `(v, w)` whose sum is smaller than what `v`
      already has. */
  function MinVia(adj: seq<seq<Edge>>, u: int, s: int, d0: int, v: int, k: int): int
    requires 0 <= u < |adj| && 0 <= k <= |adj[u]|
    decreases k
  {
    if k == 0 then d0
    else
      var m := MinVia(adj, u, s, d0, v, k - 1);
      var e := adj[u][k - 1];
      if e.to == v && s + e.weight < m then s + e.weight else m
  }

  /** MinVia is the minimum of `d0` and the sums `s + w` over the first `k`
      edges `(v, w)` of `u`: it is at most each of them and equal to one. */
  lemma {:induction false} MinViaIsMinimum(adj: seq<seq<Edge>>, u: int, s: int, d0: int, v: int, k: int)
    requires 0 <= u < |adj| && 0 <= k <= |adj[u]|
    ensures MinVia(adj, u, s, d0, v, k) <= d0
    ensures forall j :: 0 <= j < k && adj[u][j].to == v ==> MinVia(adj, u, s, d0, v, k) <= s + adj[u][j].weight
    ensures MinVia(adj, u, s, d0, v, k) == d0 ||
            exists j :: 0 <= j < k && adj[u][j].to == v && MinVia(adj, u, s, d0, v, k) == s + adj[u][j].weight
    decreases k
  {
    if k > 0 {
      MinViaIsMinimum(adj, u, s, d0, v, k - 1);
    }
  }

  /** The distances, predecessors and heap slots the edge loop works on. */
  datatype EdgeState = EdgeState(d: seq<int>, p: seq<int>, h: seq<Pair>)

  /** The state after the first `k` edges of `u`, taken in order with score
      `s` from `st`: an edge `(v, w)` whose `s + w` is below the current
      `d[v]` sets `d[v]` to `s + w`, `p[v]` to `u` and, when slot
      `position_map[v] == v` lies inside the heap, the score of that slot to
      `s + w`. */
  ghost function Through(adj: seq<seq<Edge>>, u: int, s: int, st: EdgeState, k: int): (r: EdgeState)
    requires EdgesInRange(adj) && 0 <= u < |adj| && 0 <= k <= |adj[u]| && |st.d| == |st.p| == |adj|
    ensures |r.d| == |r.p| == |adj| && |r.h| == |st.h|
    decreases k
  {
    if k == 0 then st
    else
      var r := Through(adj, u, s, st, k - 1);
      var v, nd := adj[u][k - 1].to, s + adj[u][k - 1].weight;
      if nd < r.d[v] then
        EdgeState(r.d[v := nd], r.p[v := u], if v < |r.h| then r.h[v := Pair(r.h[v].fst, nd)] else r.h)
      else r
  }

  /** After the first `k` edges of `u` with score `s`: every distance is its
      MinVia from `d0`, and a node's predecessor is `u` exactly when its
      distance fell below `d0`, otherwise the one in `p0`. */
  ghost predicate RelaxedThrough(adj: seq<seq<Edge>>, u: int, s: int, d0: seq<int>, p0: seq<int>, k: int,
                                 d: seq<int>, p: seq<int>) {
    && 0 <= u < |adj| && 0 <= k <= |adj[u]| && |d0| == |p0| == |d| == |p| == |adj|
    && (forall v :: 0 <= v < |adj| ==>
          && d[v] == MinVia(adj, u, s, d0[v], v, k)
          && p[v] == if d[v] < d0[v] then u else p0[v])
  }

  /** Heap slot `i` of `h` keeps the node id it had in `h0` and carries the
      lowered distance `d[i]` when `d[i] < d0[i]`, since `update(v, _)` writes
      slot `position_map[v] == v`; otherwise it is as in `h0`. */
  ghost predicate ScoresThrough(h0: seq<Pair>, d0: seq<int>, d: seq<int>, h: seq<Pair>) {
    && |h| == |h0| && |d| == |d0|
    && forall i :: 0 <= i < |h| && i < |d| ==> h[i] == if d[i] < d0[i] then Pair(h0[i].fst, d[i]) else h0[i]
  }

  /** Through gives each node its MinVia, the predecessor `u` exactly at
      the lowered nodes, and the lowered score in exactly the slots of the
      lowered nodes. */
  lemma {:induction false} ThroughIsMinimum(adj: seq<seq<Edge>>, u: int, s: int, st: EdgeState, k: int)
    requires EdgesInRange(adj) && 0 <= u < |adj| && 0 <= k <= |adj[u]| && |st.d| == |st.p| == |adj|
    ensures var r := Through(adj, u, s, st, k);
      RelaxedThrough(adj, u, s, st.d, st.p, k, r.d, r.p) && ScoresThrough(st.h, st.d, r.d, r.h)
    decreases k
  {
    if k > 0 {
      ThroughIsMinimum(adj, u, s, st, k - 1);
      var r := Through(adj, u, s, st, k - 1);
      var r' := Through(adj, u, s, st, k);
      forall x | 0 <= x < |adj|
        ensures r'.d[x] == MinVia(adj, u, s, st.d[x], x, k)
        ensures r'.p[x] == if r'.d[x] < st.d[x] then u else st.p[x]
      {
        MinViaIsMinimum(adj, u, s, st.d[x], x, k - 1);
      }
      forall i | 0 <= i < |r'.h| && i < |adj|
        ensures r'.h[i] == if r'.d[i] < st.d[i] then Pair(st.h[i].fst, r'.d[i]) else st.h[i]
      {
        MinViaIsMinimum(adj, u, s, st.d[i], i, k - 1);
        assert r.h[i].fst == st.h[i].fst;
      }
    }
  }

  /** Through keeps DistancesInv: a lowered distance is below its start
      value, and its predecessor `u` reaches it along an edge. */
  lemma {:induction false} ThroughKeepsInv(adj: seq<seq<Edge>>, source: int, u: int, s: int, st: EdgeState, k: int)
    requires EdgesInRange(adj) && 0 <= u < |adj| && 0 <= k <= |adj[u]| && DistancesInv(adj, source, st.d, st.p)
    ensures DistancesInv(adj, source, Through(adj, u, s, st, k).d, Through(adj, u, s, st, k).p)
    decreases k
  {
    if k > 0 {
      ThroughKeepsInv(adj, source, u, s, st, k - 1);
      assert HasEdge(adj, u, adj[u][k - 1].to);
    }
  }

  /** With non-negative weights, a score of INF or more lowers no distance
      of at most INF, so Through changes nothing. */
  lemma {:induction false} ThroughAtInf(adj: seq<seq<Edge>>, u: int, s: int, st: EdgeState, k: int)
    requires EdgesInRange(adj) && 0 <= u < |adj| && 0 <= k <= |adj[u]| && |st.d| == |st.p| == |adj|
    requires s >= INF && NonNegativeWeights(adj) && forall v :: 0 <= v < |adj| ==> st.d[v] <= INF
    ensures Through(adj, u, s, st, k) == st
    decreases k
  {
    if k > 0 {
      ThroughAtInf(adj, u, s, st, k - 1);
      assert adj[u][k - 1].weight >= 0;
    }
  }

  /** The effect of edge `k` `(v, w)` of `u` relaxed with score `s`, from
      distances `d`, predecessors `p` and heap `h` to `d'`, `p'`, `h'`: when
      `s + w` leaves the `int` range, nothing changes and the loop stops with
      `IntOverflow(u)`; when it is below `d[v]`, `d[v]` becomes `s + w` and
      `p[v]` becomes `u`, and then either heap slot `v` takes score `s + w`
      or, the slot lying outside the heap, the loop stops with
      `SlotOutOfRange(v)`; otherwise nothing changes. */
  ghost predicate EdgeEffect(adj: seq<seq<Edge>>, u: int, k: int, s: int, d: seq<int>, p: seq<int>, h: seq<Pair>,
                             d': seq<int>, p': seq<int>, h': seq<Pair>, stop: Outcome<()>) {
    0 <= u < |adj| && 0 <= k < |adj[u]| && 0 <= adj[u][k].to < |d| && |p| == |d| &&
    var v, nd := adj[u][k].to, s + adj[u][k].weight;
    if !InInt(nd) then
      stop == IntOverflow(u) && d' == d && p' == p && h' == h
    else if nd < d[v] then
      && d' == d[v := nd] && p' == p[v := u]
      && if v < |h| then stop.Done? && h' == h[v := Pair(h[v].fst, nd)]
         else stop == SlotOutOfRange(v) && h' == h
    else
      stop.Done? && d' == d && p' == p && h' == h
  }

  /** The state of the edge loop after `k` edges of `u` with score `s`,
      started from `st0`: it is Through, no sum so far overflowed, and every
      lowered node other than `except` has its slot inside the heap. */
  ghost predicate EdgeLoop(adj: seq<seq<Edge>>, u: int, s: int, st0: EdgeState, k: int, st: EdgeState, except: int) {
    && EdgesInRange(adj) && 0 <= u < |adj| && 0 <= k <= |adj[u]| && |st0.d| == |st0.p| == |adj|
    && st == Through(adj, u, s, st0, k)
    && NoOverflowUpTo(adj, s, u, k)
    && (forall v :: 0 <= v < |adj| && st.d[v] < st0.d[v] ==> v < |st.h| || v == except)
  }

  /** One more edge that fits in an `int` extends the loop state by one
      edge; an edge that stops at a slot outside the heap names that node as
      the exception, and that node was lowered. */
  lemma EdgeLoopStep(adj: seq<seq<Edge>>, u: int, s: int, st0: EdgeState, k: int, st: EdgeState, st': EdgeState,
                     stop: Outcome<()>)
    requires EdgeLoop(adj, u, s, st0, k, st, -1) && k < |adj[u]|
    requires EdgeEffect(adj, u, k, s, st.d, st.p, st.h, st'.d, st'.p, st'.h, stop) && !stop.IntOverflow?
    ensures EdgeLoop(adj, u, s, st0, k + 1, st', if stop.SlotOutOfRange? then stop.node else -1)
    ensures stop.SlotOutOfRange? ==> stop.node == adj[u][k].to && |st.h| <= stop.node && st'.d[stop.node] < st0.d[stop.node]
  {
    var v := adj[u][k].to;
    if stop.SlotOutOfRange? {
      ThroughIsMinimum(adj, u, s, st0, k);
      MinViaIsMinimum(adj, u, s, st0.d[v], v, k);
    }
  }

  /** How the edge loop ended, in the terms of RelaxEdges' contract: no
      distance rose; a changed predecessor is `u`, at a node whose slot is in
      the heap or at the stuck node; a finished loop relaxed every edge with
      no overflow; a loop stuck at node `v` has an edge to it with the edges
      before it relaxed; an overflow is at an edge of `u`; and a score of INF
      or more has changed nothing. */
  lemma EdgeLoopOutcome(adj: seq<seq<Edge>>, u: int, s: int, st0: EdgeState, edges: int, st: EdgeState,
                        stop: Outcome<()>)
    requires EdgeLoop(adj, u, s, st0, edges, st, if stop.SlotOutOfRange? then stop.node else -1)
    requires stop.Done? ==> edges == |adj[u]|
    requires stop.SlotOutOfRange? ==>
      1 <= edges && adj[u][edges - 1].to == stop.node && |st.h| <= stop.node && st.d[stop.node] < st0.d[stop.node]
    requires stop.IntOverflow? ==> stop.node == u && edges < |adj[u]| && !InInt(s + adj[u][edges].weight)
    ensures forall v :: 0 <= v < |adj| ==> st.d[v] <= st0.d[v]
    ensures forall v :: 0 <= v < |adj| && st.p[v] != st0.p[v] ==>
      st.p[v] == u && (v < |st.h| || stop == SlotOutOfRange(v))
    ensures stop.Done? ==> Relaxed(adj, st.d, s, u) && NoOverflow(adj, s, u)
    ensures stop.SlotOutOfRange? ==>
      && |st.h| <= stop.node < |adj| && HasEdge(adj, u, stop.node) && st.p[stop.node] == u
      && StoppedAt(adj, st.d, s, u, stop.node)
    ensures stop.IntOverflow? ==> Overflows(adj, s, u) && NoOverflowUpTo(adj, s, u, edges)
    ensures s >= INF && NonNegativeWeights(adj) && (forall v :: 0 <= v < |adj| ==> st0.d[v] <= INF) ==> st == st0
  {
    if s >= INF && NonNegativeWeights(adj) && (forall v :: 0 <= v < |adj| ==> st0.d[v] <= INF) {
      ThroughAtInf(adj, u, s, st0, edges);
    }
    ThroughIsMinimum(adj, u, s, st0, edges);
    RelaxedThroughFacts(adj, u, s, st0.d, st0.p, edges, st.d, st.p);
    if stop.SlotOutOfRange? {
      assert adj[u][edges - 1] in adj[u];
    }
  }

  /** What RelaxedThrough says in the terms of relaxation: no distance
      rose, a changed predecessor is `u` at a lowered node, the `k` edges are
      relaxed, and the edges before edge `k - 1` are too. */
  lemma RelaxedThroughFacts(adj: seq<seq<Edge>>, u: int, s: int, d0: seq<int>, p0: seq<int>, k: int,
                            d: seq<int>, p: seq<int>)
    requires EdgesInRange(adj) && RelaxedThrough(adj, u, s, d0, p0, k, d, p)
    ensures forall v :: 0 <= v < |adj| ==> d[v] <= d0[v]
    ensures forall v :: 0 <= v < |adj| && p[v] != p0[v] ==> p[v] == u && d[v] < d0[v]
    ensures RelaxedUpTo(adj, d, s, u, k)
    ensures 1 <= k ==> StoppedAt(adj, d, s, u, adj[u][k - 1].to)
  {
    forall v | 0 <= v < |adj| ensures d[v] <= d0[v] {
      MinViaIsMinimum(adj, u, s, d0[v], v, k);
    }
    forall j | 0 <= j < k ensures 0 <= adj[u][j].to < |d| && d[adj[u][j].to] <= s + adj[u][j].weight {
      assert adj[u][j] in adj[u];
      MinViaIsMinimum(adj, u, s, d0[adj[u][j].to], adj[u][j].to, k);
    }
    if 1 <= k {
      assert RelaxedUpTo(adj, d, s, u, k - 1);
    }
  }

  /** One pass of the edge loop, for edge `k` of `u`: `new_dist = dist_u +
      weight` must fit in an `int`; when it is below `distances[v]`, it sets
      `distances[v]`, `predecessors[v] = u` and, when the slot
      `position_map[v] == v` is inside the heap, calls `pq.update(v,
      new_dist)`. */
  method RelaxEdge(adj: seq<seq<Edge>>, u: int, k: int, distU: int, distances: seq<int>, predecessors: seq<int>,
                   pq: MinHeap, ghost lo: int)
    returns (distances': seq<int>, predecessors': seq<int>, stop: Outcome<()>)
    requires 0 <= u < |adj| && 0 <= k < |adj[u]| && EdgesInRange(adj)
    requires pq.Valid() && IdentityOn(pq.positionMap, |adj|) && NodesFrom(pq.heap, lo, |adj|)
    requires |distances| == |predecessors| == |adj|
    modifies pq
    ensures pq.Valid() && IdentityOn(pq.positionMap, |adj|) && NodesFrom(pq.heap, lo, |adj|)
    ensures EdgeEffect(adj, u, k, distU, distances, predecessors, old(pq.heap), distances', predecessors', pq.heap, stop)
  {
    var v := adj[u][k].to;
    var weight := adj[u][k].weight;
    var newDist := distU + weight;
    distances', predecessors', stop := distances, predecessors, Done(());
    if !InInt(newDist) {
      return distances', predecessors', IntOverflow(u);
    }
    if newDist < distances'[v] {
      distances' := distances'[v := newDist];
      predecessors' := predecessors'[v := u];
      assert HasEdge(adj, u, v);
      if !pq.CanUpdate(v) {
        return distances', predecessors', SlotOutOfRange(v);
      }
      ghost var heapBefore := pq.heap;
      pq.Update(v, newDist);
      NodesAfterUpdate(heapBefore, pq.heap, lo, |adj|);
    }
  }

  /** The `for (const auto& edge : adjacency_list[u])` loop, one RelaxEdge
      per edge.  The distances, predecessors and heap scores it leaves are
      Through after the edges it took: every edge of `u` when no sum
      overflowed and no update fell outside the heap.  So distances never
      rise, and a lowered distance goes with a predecessor `u` set along an
      edge, at a node whose slot is inside the heap.  The loop ends in one of
      three ways: every edge of `u` relaxed without overflow; stopped at the
      edge to a node whose slot lies outside the heap, all earlier edges
      relaxed; or stopped at an edge whose sum overflows.  A node popped with
      score INF or more changes nothing when weights are non-negative. */
  method RelaxEdges(adj: seq<seq<Edge>>, u: int, distU: int, distances: seq<int>, predecessors: seq<int>,
                    pq: MinHeap, ghost source: int, ghost lo: int)
    returns (distances': seq<int>, predecessors': seq<int>, stop: Outcome<()>, ghost edges: nat)
    requires 0 <= u < |adj| && EdgesInRange(adj)
    requires pq.Valid() && IdentityOn(pq.positionMap, |adj|) && NodesFrom(pq.heap, lo, |adj|)
    requires DistancesInv(adj, source, distances, predecessors)
    modifies pq
    ensures pq.Valid() && IdentityOn(pq.positionMap, |adj|) && NodesFrom(pq.heap, lo, |adj|)
    ensures |pq.heap| == old(|pq.heap|)
    ensures DistancesInv(adj, source, distances', predecessors')
    ensures EdgeLoop(adj, u, distU, EdgeState(distances, predecessors, old(pq.heap)), edges,
                     EdgeState(distances', predecessors', pq.heap), if stop.SlotOutOfRange? then stop.node else -1)
    ensures stop.Done? ==> edges == |adj[u]|
    ensures stop.SlotOutOfRange? ==>
      && 1 <= edges && adj[u][edges - 1].to == stop.node && |pq.heap| <= stop.node
      && distances'[stop.node] < distances[stop.node]
    ensures stop.IntOverflow? ==> stop.node == u && edges < |adj[u]| && !InInt(distU + adj[u][edges].weight)
  {
    var n := |adj|;
    ghost var st0 := EdgeState(distances, predecessors, pq.heap);
    distances', predecessors', stop := distances, predecessors, Done(());
    var k := 0;
    while k < |adj[u]|
      invariant 0 <= k <= |adj[u]|
      invariant pq.Valid() && IdentityOn(pq.positionMap, n) && NodesFrom(pq.heap, lo, n)
      invariant EdgeLoop(adj, u, distU, st0, k, EdgeState(distances', predecessors', pq.heap), -1)
      invariant stop == Done(())
    {
      ghost var before := EdgeState(distances', predecessors', pq.heap);
      var step;
      distances', predecessors', step := RelaxEdge(adj, u, k, distU, distances', predecessors', pq, lo);
      if step.IntOverflow? {
        stop, edges := step, k;
        break;
      }
      EdgeLoopStep(adj, u, distU, st0, k, before, EdgeState(distances', predecessors', pq.heap), step);
      if step.SlotOutOfRange? {
        stop, edges := step, k + 1;
        break;
      }
      k := k + 1;
    }
    if stop.Done? {
      edges := k;
    }
    ThroughKeepsInv(adj, source, u, distU, st0, edges);
  }

  /** A predecessor entry `u` of node `v`, as the rounds before `rounds` set
      it: `u` was popped in an earlier round, is not the target, and the
      update it made stayed inside the heap (the heap then held
      `|adj| - 1 - u` entries) unless `v` is `except`; with non-negative
      weights, `u` is not popped before the source. */
  ghost predicate PredLogged(adj: seq<seq<Edge>>, source: int, target: int, rounds: int, v: int, u: int, except: int) {
    && u < rounds && u != target
    && (v < |adj| - 1 - u || v == except)
    && (NonNegativeWeights(adj) ==> source <= u)
  }

  /** What `dijkstra` knows after `rounds` pops: `popped` lists them, round
      `i` popping node `i`; the arrays keep DistancesInv; every round but the
      last relaxed all edges of its node without overflow; every predecessor
      entry is logged (PredLogged); and with non-negative weights, every
      round up to the source's popped its node at the start score. */
  ghost predicate RunState(adj: seq<seq<Edge>>, source: int, target: int, rounds: int, popped: seq<Pair>,
                           d: seq<int>, p: seq<int>, except: int) {
    && 0 <= rounds <= |adj| && |popped| == rounds && (forall i :: 0 <= i < rounds ==> popped[i].fst == i)
    && DistancesInv(adj, source, d, p)
    && (forall i :: 0 <= i < rounds - 1 ==> Relaxed(adj, d, popped[i].snd, i) && NoOverflow(adj, popped[i].snd, i))
    && (forall v :: 0 <= v < |adj| && p[v] != -1 ==> PredLogged(adj, source, target, rounds, v, p[v], except))
    && (NonNegativeWeights(adj) ==>
          forall i :: 0 <= i < rounds && i <= source ==> popped[i].snd == InitialDistance(source, i))
  }

  /** The last round popped so far relaxed all edges of its node. */
  ghost predicate LastRelaxed(adj: seq<seq<Edge>>, popped: seq<Pair>, d: seq<int>) {
    |popped| >= 1 ==>
      var i := |popped| - 1;
      Relaxed(adj, d, popped[i].snd, i) && NoOverflow(adj, popped[i].snd, i)
  }

  /** One more round keeps the run state: its own pop is logged, earlier
      relaxations survive lower distances, and new predecessor entries are
      this round's node. */
  lemma RunStateStep(adj: seq<seq<Edge>>, source: int, target: int, rounds: int, popped: seq<Pair>, elem: Pair,
                     d: seq<int>, p: seq<int>, d': seq<int>, p': seq<int>, except: int)
    requires RunState(adj, source, target, rounds, popped, d, p, -1) && LastRelaxed(adj, popped, d)
    requires 0 <= rounds < |adj| && elem.fst == rounds
    requires NonNegativeWeights(adj) && rounds <= source ==> elem.snd == InitialDistance(source, rounds)
    requires DistancesInv(adj, source, d', p') && forall v :: 0 <= v < |adj| ==> d'[v] <= d[v]
    requires forall v :: 0 <= v < |adj| && p'[v] != p[v] ==>
      p'[v] == rounds && rounds != target && (v < |adj| - 1 - rounds || v == except)
    requires NonNegativeWeights(adj) && rounds < source ==> p' == p
    ensures RunState(adj, source, target, rounds + 1, popped + [elem], d', p', except)
  {
    var popped' := popped + [elem];
    forall i | 0 <= i < rounds
      ensures Relaxed(adj, d', popped'[i].snd, i) && NoOverflow(adj, popped'[i].snd, i)
    {
      assert popped'[i] == popped[i];
      RelaxedKept(adj, d, d', popped[i].snd, i, |adj[i]|);
    }
  }

  /** A round whose node `rounds` is not the target and whose edge loop
      took `st0` to `st` keeps the run state, relaxes every edge when it
      finished, reports where it stopped otherwise, and leaves everything as
      it was while the source is still ahead under non-negative weights. */
  lemma RelaxRound(adj: seq<seq<Edge>>, source: int, target: int, rounds: int, popped: seq<Pair>, elem: Pair,
                   st0: EdgeState, edges: int, st: EdgeState, stop: Outcome<()>)
    requires RunState(adj, source, target, rounds, popped, st0.d, st0.p, -1) && LastRelaxed(adj, popped, st0.d)
    requires 0 <= rounds < |adj| && elem.fst == rounds && rounds != target && |st0.h| == |adj| - 1 - rounds
    requires NonNegativeWeights(adj) && rounds <= source ==> elem.snd == InitialDistance(source, rounds)
    requires DistancesInv(adj, source, st.d, st.p)
    requires EdgeLoop(adj, rounds, elem.snd, st0, edges, st, if stop.SlotOutOfRange? then stop.node else -1)
    requires stop.Done? ==> edges == |adj[rounds]|
    requires stop.SlotOutOfRange? ==>
      1 <= edges && adj[rounds][edges - 1].to == stop.node && |st.h| <= stop.node && st.d[stop.node] < st0.d[stop.node]
    requires stop.IntOverflow? ==>
      stop.node == rounds && edges < |adj[rounds]| && !InInt(elem.snd + adj[rounds][edges].weight)
    ensures RunState(adj, source, target, rounds + 1, popped + [elem], st.d, st.p,
                     if stop.SlotOutOfRange? then stop.node else -1)
    ensures stop.Done? ==> LastRelaxed(adj, popped + [elem], st.d)
    ensures stop.SlotOutOfRange? ==>
      && |st.h| <= stop.node < |adj| && HasEdge(adj, rounds, stop.node)
      && st.p[stop.node] == rounds && StoppedAt(adj, st.d, elem.snd, rounds, stop.node)
    ensures stop.IntOverflow? ==> Overflows(adj, elem.snd, rounds)
    ensures RelaxedThrough(adj, rounds, elem.snd, st0.d, st0.p, edges, st.d, st.p)
    ensures NonNegativeWeights(adj) && rounds < source ==> st == st0 && !stop.SlotOutOfRange?
  {
    EdgeLoopOutcome(adj, rounds, elem.snd, st0, edges, st, stop);
    ThroughIsMinimum(adj, rounds, elem.snd, st0, edges);
    RunStateStep(adj, source, target, rounds, popped, elem, st0.d, st0.p, st.d, st.p,
                 if stop.SlotOutOfRange? then stop.node else -1);
  }

  /** One iteration of `while (!pq.empty())`: pops the entry of node
      `rounds` and, unless it is the target, relaxes that node's edges (see
      RelaxEdges).  The run state moves on by one round; when every edge was
      relaxed the round is complete, and with non-negative weights nothing
      has changed while the source is still ahead. */
  method Round(adj: seq<seq<Edge>>, source: int, target: int, pq: MinHeap,
               distances: seq<int>, predecessors: seq<int>, ghost rounds: int, ghost popped: seq<Pair>)
    returns (elem: Pair, distances': seq<int>, predecessors': seq<int>, stop: Outcome<()>, ghost edges: nat)
    requires EdgesInRange(adj) && 0 <= source < |adj| && 0 <= target < |adj|
    requires pq.Valid() && IdentityOn(pq.positionMap, |adj|)
    requires 0 <= rounds <= target && NodesFrom(pq.heap, rounds, |adj|) && rounds + |pq.heap| == |adj|
    requires RunState(adj, source, target, rounds, popped, distances, predecessors, -1)
    requires LastRelaxed(adj, popped, distances)
    requires NonNegativeWeights(adj) && rounds <= source ==> Untouched(source, distances, predecessors, pq.heap)
    modifies pq
    ensures pq.Valid() && IdentityOn(pq.positionMap, |adj|)
    ensures elem.fst == rounds && NodesFrom(pq.heap, rounds + 1, |adj|) && rounds + 1 + |pq.heap| == |adj|
    ensures RunState(adj, source, target, rounds + 1, popped + [elem], distances', predecessors',
                     if stop.SlotOutOfRange? then stop.node else -1)
    ensures elem.fst == target ==> stop.Done?
    ensures stop.Done? && elem.fst != target ==> LastRelaxed(adj, popped + [elem], distances')
    ensures stop.Done? && NonNegativeWeights(adj) && rounds + 1 <= source ==>
      Untouched(source, distances', predecessors', pq.heap)
    ensures stop.SlotOutOfRange? ==>
      && elem.fst != target && |pq.heap| <= stop.node < |adj| && HasEdge(adj, elem.fst, stop.node)
      && predecessors'[stop.node] == elem.fst && StoppedAt(adj, distances', elem.snd, elem.fst, stop.node)
    ensures stop.IntOverflow? ==>
      elem.fst != target && stop.node == elem.fst && Overflows(adj, elem.snd, elem.fst)
    ensures elem == old(pq.heap)[0]
    ensures elem.fst == target ==> distances' == distances && predecessors' == predecessors
    ensures elem.fst != target ==>
      && RelaxedThrough(adj, elem.fst, elem.snd, distances, predecessors, edges, distances', predecessors')
      && (stop.Done? ==> edges == |adj[elem.fst]|)
  {
    ghost var heapBefore := pq.heap;
    elem := pq.Pop();
    LeastIsLo(heapBefore, elem, rounds, |adj|);
    NodesAfterPop(heapBefore, pq.heap, elem, rounds, |adj|);
    var u := elem.fst;
    var distU := elem.snd;

    if u == target {
      RunStateStep(adj, source, target, rounds, popped, elem, distances, predecessors, distances, predecessors, -1);
      return elem, distances, predecessors, Done(()), 0;
    }

    ghost var heapPopped := pq.heap;
    distances', predecessors', stop, edges := RelaxEdges(adj, u, distU, distances, predecessors, pq, source, rounds + 1);
    RelaxRound(adj, source, target, rounds, popped, elem, EdgeState(distances, predecessors, heapPopped), edges,
               EdgeState(distances', predecessors', pq.heap), stop);
  }

  /** The run facts in the form `dijkstra`'s contract states them. */
  lemma RunStateFacts(adj: seq<seq<Edge>>, source: int, target: int, rounds: int, popped: seq<Pair>,
                      d: seq<int>, p: seq<int>, except: int)
    requires RunState(adj, source, target, rounds, popped, d, p, except)
    ensures |popped| == rounds <= |adj| && forall i :: 0 <= i < rounds ==> popped[i].fst == i
    ensures DistancesInv(adj, source, d, p)
    ensures forall i :: 0 <= i < rounds - 1 ==> Relaxed(adj, d, popped[i].snd, i) && NoOverflow(adj, popped[i].snd, i)
    ensures forall v :: 0 <= v < |adj| && p[v] != -1 ==>
      p[v] < rounds && p[v] != target && (v < |adj| - 1 - p[v] || v == except)
    ensures NonNegativeWeights(adj) ==> forall v :: 0 <= v < |adj| && p[v] != -1 ==> source <= p[v]
    ensures NonNegativeWeights(adj) ==>
      forall i :: 0 <= i < rounds && i <= source ==> popped[i].snd == InitialDistance(source, i)
  {
    forall v | 0 <= v < |adj| && p[v] != -1
      ensures p[v] < rounds && p[v] != target && (v < |adj| - 1 - p[v] || v == except)
      ensures NonNegativeWeights(adj) ==> source <= p[v]
    {
      assert PredLogged(adj, source, target, rounds, v, p[v], except);
    }
  }

  /** The set-up of `dijkstra`: every distance INF except the source's 0,
      every predecessor -1, and a heap of all nodes with those scores. */
  method Start(adj: seq<seq<Edge>>, source: int, target: int)
    returns (distances: seq<int>, predecessors: seq<int>, pq: MinHeap)
    requires EdgesInRange(adj)
    requires 0 <= source < |adj| && 0 <= target < |adj|
    ensures fresh(pq) && pq.Valid() && IdentityOn(pq.positionMap, |adj|)
    ensures NodesFrom(pq.heap, 0, |adj|) && |pq.heap| == |adj|
    ensures RunState(adj, source, target, 0, [], distances, predecessors, -1)
    ensures Untouched(source, distances, predecessors, pq.heap)
  {
    var n := |adj|;
    distances := seq(n, _ => INF);
    predecessors := seq(n, _ => -1);
    pq := new MinHeap();

    distances := distances[source := 0];
    pq.Initialize(distances);
    EntriesContents(pq.heap, distances);
    assert NodesFrom(pq.heap, 0, n) by {
      forall i | 0 <= i < n ensures HasNode(pq.heap, i) {
        assert Pair(i, distances[i]) in pq.heap;
      }
    }
  }

  /** The `while (!pq.empty())` loop of `dijkstra`, after Start: it runs
      Round until the round that pops the target, or until a round stops at
      a heap slot out of range or at an overflow.  It returns the arrays, the
      number of rounds run, the popped entries and how the last round ended. */
  method Search(adj: seq<seq<Edge>>, source: int, target: int)
    returns (distances: seq<int>, predecessors: seq<int>, ghost rounds: nat, ghost popped: seq<Pair>, stop: Outcome<()>)
    requires EdgesInRange(adj)
    requires 0 <= source < |adj| && 0 <= target < |adj|
    ensures RunState(adj, source, target, rounds, popped, distances, predecessors,
                     if stop.SlotOutOfRange? then stop.node else -1)
    ensures 1 <= rounds <= target + 1 && (stop.Done? <==> rounds == target + 1)
    ensures stop.SlotOutOfRange? ==>
      && |adj| - rounds <= stop.node < |adj|
      && HasEdge(adj, rounds - 1, stop.node) && predecessors[stop.node] == rounds - 1
      && StoppedAt(adj, distances, popped[rounds - 1].snd, rounds - 1, stop.node)
    ensures stop.IntOverflow? ==> stop.node == rounds - 1 && Overflows(adj, popped[rounds - 1].snd, rounds - 1)
  {
    var n := |adj|;
    var pq;
    distances, predecessors, pq := Start(adj, source, target);
    rounds := 0;
    popped := [];
    stop := Done(());

    while !pq.Empty()
      invariant fresh(pq) && pq.Valid() && IdentityOn(pq.positionMap, n)
      invariant rounds <= target && NodesFrom(pq.heap, rounds, n) && rounds + |pq.heap| == n
      invariant RunState(adj, source, target, rounds, popped, distances, predecessors, -1)
      invariant LastRelaxed(adj, popped, distances)
      invariant NonNegativeWeights(adj) && rounds <= source ==> Untouched(source, distances, predecessors, pq.heap)
      decreases |pq.heap|
    {
      var elem;
      ghost var edges;
      elem, distances, predecessors, stop, edges := Round(adj, source, target, pq, distances, predecessors, rounds, popped);
      rounds := rounds + 1;
      popped := popped + [elem];
      if elem.fst == target || !stop.Done? {
        return;
      }
    }
  }

  /** `dijkstra`: runs Search.  Because the heap orders by node id and
      `update` never changes an id, round `i` pops node `i` (see Round); the
      loop stops in the round that pops the target.  Every earlier round
      relaxed every edge of its node with the popped score, without
      overflow.  Distances only fall below their start values together with
      a predecessor set along an edge, by a node popped before, not the
      target, and each such `update` stayed inside the heap.  With
      non-negative weights nothing changes before the source is popped:
      every node up to the source is popped with its start score, and every
      predecessor is the source or a later node.  The path is the
      predecessor walk back from the target, reversed.  When `update` would
      write outside the heap, the result is SlotOutOfRange with that node,
      which lies in the heap's former range and is reached by an edge of the
      round's node, all earlier edges of which were relaxed; when `dist_u +
      weight` overflows, the result is IntOverflow with the round's node. */
  method Dijkstra(adj: seq<seq<Edge>>, source: int, target: int, ghost rank: seq<nat>)
    returns (result: Outcome<seq<int>>, ghost preds: seq<int>, ghost rounds: nat,
             ghost popped: seq<Pair>, ghost dist: seq<int>)
    requires RankedBy(adj, rank)
    requires 0 <= source < |adj| && 0 <= target < |adj|
    ensures |popped| == rounds <= |adj| && forall i :: 0 <= i < rounds ==> popped[i].fst == i
    ensures DistancesInv(adj, source, dist, preds)
    ensures forall i :: 0 <= i < rounds - 1 ==> Relaxed(adj, dist, popped[i].snd, i) && NoOverflow(adj, popped[i].snd, i)
    ensures forall v :: 0 <= v < |adj| && preds[v] != -1 ==>
      preds[v] < rounds && preds[v] != target && (v < |adj| - 1 - preds[v] || result == SlotOutOfRange(v))
    ensures NonNegativeWeights(adj) ==> forall v :: 0 <= v < |adj| && preds[v] != -1 ==> source <= preds[v]
    ensures NonNegativeWeights(adj) ==>
      forall i :: 0 <= i < rounds && i <= source ==> popped[i].snd == InitialDistance(source, i)
    ensures result.SlotOutOfRange? ==>
      && 1 <= rounds <= target && |adj| - rounds <= result.node < |adj|
      && HasEdge(adj, rounds - 1, result.node) && preds[result.node] == rounds - 1
      && StoppedAt(adj, dist, popped[rounds - 1].snd, rounds - 1, result.node)
    ensures result.IntOverflow? ==>
      1 <= rounds <= target && result.node == rounds - 1 && Overflows(adj, popped[rounds - 1].snd, rounds - 1)
    ensures result.Done? ==>
      var path := result.value;
      && rounds == target + 1
      && |path| >= 1 && path[|path| - 1] == target
      && IsEdgePath(adj, path)
      && preds[path[0]] == -1
      && (forall i :: 0 <= i < |path| - 1 ==> preds[path[i + 1]] == path[i])
  {
    var distances, predecessors, stop;
    distances, predecessors, rounds, popped, stop := Search(adj, source, target);
    preds, dist := predecessors, distances;
    RunStateFacts(adj, source, target, rounds, popped, distances, predecessors,
                  if stop.SlotOutOfRange? then stop.node else -1);
    if stop.SlotOutOfRange? {
      return SlotOutOfRange(stop.node), preds, rounds, popped, dist;
    }
    if stop.IntOverflow? {
      return IntOverflow(stop.node), preds, rounds, popped, dist;
    }
    PredsRankedAlongEdges(adj, predecessors, rank);
    var path := TracePath(predecessors, target, rank);
    assert forall i :: 0 <= i < |path| - 1 ==> HasEdge(adj, path[i], path[i + 1]);
    result := Done(path);
  }

  /** Some edge of `u` carries a weight above zero. */
  ghost predicate HasPositiveEdge(adj: seq<seq<Edge>>, u: int) {
    0 <= u < |adj| && exists j :: 0 <= j < |adj[u]| && adj[u][j].weight > 0
  }

  /** The grid list has `rows * cols + 2` slots and the source's slot holds
      one zero-weight edge to each pixel of row 0. */
  lemma GridEnds(image: seq<seq<int>>, adj: seq<seq<Edge>>)
    requires IsGrid(image) && adj == GridAdjacency(image)
    ensures |adj| == PixelCount(image) + 2 && PixelCount(image) >= Cols(image)
    ensures adj[Source(image)] == SourceEdges(Cols(image)) && adj[Target(image)] == []
    ensures NonNegativeWeights(adj)
  {
    GridLayout(image, 0, 0);
    MulMonotone(1, Rows(image), Cols(image));
    GridWellFormed(image);
  }

  /** From a pixel popped with score INF, `dist_u + weight` overflows
      exactly on an edge of positive weight. */
  lemma OverflowFromInf(adj: seq<seq<Edge>>, u: int)
    requires NonNegativeWeights(adj) && 0 <= u < |adj|
    ensures Overflows(adj, INF, u) <==> HasPositiveEdge(adj, u)
    ensures NoOverflow(adj, INF, u) <==> !HasPositiveEdge(adj, u)
  {
    if HasPositiveEdge(adj, u) {
      var j :| 0 <= j < |adj[u]| && adj[u][j].weight > 0;
      assert !InInt(INF + adj[u][j].weight);
    }
    if Overflows(adj, INF, u) {
      var j :| 0 <= j < |adj[u]| && !InInt(INF + adj[u][j].weight);
      assert adj[u][j].weight > 0;
    }
  }

  /** On the grid, a run of `dijkstra` from the source to the target that
      stops at an overflow stops at a pixel, the first pixel (by node id)
      with an edge of positive weight: every pixel before the source is
      popped with score INF, and the source's own edges weigh 0. */
  lemma GridOverflow(image: seq<seq<int>>, adj: seq<seq<Edge>>, rounds: nat, popped: seq<Pair>, node: int)
    requires IsGrid(image) && adj == GridAdjacency(image)
    requires |popped| == rounds && 1 <= rounds <= Target(image) && node == rounds - 1
    requires forall i :: 0 <= i < rounds - 1 ==> NoOverflow(adj, popped[i].snd, i)
    requires forall i :: 0 <= i < rounds && i <= Source(image) ==> popped[i].snd == InitialDistance(Source(image), i)
    requires Overflows(adj, popped[node].snd, node)
    ensures node < PixelCount(image) && HasPositiveEdge(adj, node)
    ensures forall u :: 0 <= u < node ==> !HasPositiveEdge(adj, u)
  {
    GridEnds(image, adj);
    OverflowFromInf(adj, node);
    forall u | 0 <= u < node ensures !HasPositiveEdge(adj, u) {
      assert popped[u].snd == INF && NoOverflow(adj, popped[u].snd, u);
      OverflowFromInf(adj, u);
    }
  }

  /** On the grid, a run that got past the source without overflow saw no
      pixel with an edge of positive weight. */
  lemma GridNoPositive(image: seq<seq<int>>, adj: seq<seq<Edge>>, rounds: nat, popped: seq<Pair>)
    requires IsGrid(image) && adj == GridAdjacency(image)
    requires |popped| == rounds && Source(image) < rounds
    requires forall i :: 0 <= i < rounds - 1 ==> NoOverflow(adj, popped[i].snd, i)
    requires forall i :: 0 <= i < rounds && i <= Source(image) ==> popped[i].snd == InitialDistance(Source(image), i)
    ensures forall u :: 0 <= u < PixelCount(image) ==> !HasPositiveEdge(adj, u)
  {
    GridEnds(image, adj);
    forall u | 0 <= u < PixelCount(image) ensures !HasPositiveEdge(adj, u) {
      assert popped[u].snd == INF && NoOverflow(adj, popped[u].snd, u);
      OverflowFromInf(adj, u);
    }
  }

  /** On the grid, once the source is popped with score 0 and its edge to
      pixel 1 is relaxed, pixel 1 has a predecessor, the source, and the
      update it made wrote the heap slot of pixel 1, outside the one-entry
      heap left then. */
  lemma PixelOneStuck(image: seq<seq<int>>, adj: seq<seq<Edge>>, dist: seq<int>, preds: seq<int>, except: int)
    requires IsGrid(image) && adj == GridAdjacency(image) && Cols(image) >= 2
    requires DistancesInv(adj, Source(image), dist, preds) && dist[1] <= 0
    requires forall v :: 0 <= v < |adj| && preds[v] != -1 ==>
      Source(image) <= preds[v] && (v < |adj| - 1 - preds[v] || v == except)
    ensures except == 1
  {
    GridEnds(image, adj);
    assert InitialDistance(Source(image), 1) == INF;
  }

  /** On the grid, a run that stops at a heap slot out of range stops in the
      round of the source, at pixel (0, 1): the source relaxes its edges to
      row 0 in column order, the one-entry heap left then takes node 0's
      slot and not node 1's. */
  lemma GridStuck(image: seq<seq<int>>, adj: seq<seq<Edge>>, rounds: nat, popped: seq<Pair>,
                  dist: seq<int>, preds: seq<int>, node: int)
    requires IsGrid(image) && adj == GridAdjacency(image)
    requires |popped| == rounds && 1 <= rounds <= Target(image) && |adj| - rounds <= node < |adj|
    requires forall i :: 0 <= i < rounds && i <= Source(image) ==> popped[i].snd == InitialDistance(Source(image), i)
    requires DistancesInv(adj, Source(image), dist, preds)
    requires forall v :: 0 <= v < |adj| && preds[v] != -1 ==>
      Source(image) <= preds[v] && (v < |adj| - 1 - preds[v] || v == node)
    requires preds[node] == rounds - 1
    requires StoppedAt(adj, dist, popped[rounds - 1].snd, rounds - 1, node)
    ensures rounds == Target(image) && node == 1 && Cols(image) >= 2
  {
    GridEnds(image, adj);
    var s := Source(image);
    assert rounds - 1 == s;
    var j :| 0 <= j < |adj[s]| && adj[s][j].to == node && RelaxedUpTo(adj, dist, popped[s].snd, s, j);
    assert adj[s][j] == Edge(j, 0);
    if node >= 2 {
      assert adj[s][1] == Edge(1, 0);
      PixelOneStuck(image, adj, dist, preds, node);
    }
  }

  /** On the grid, a run that reaches the target leaves it without a
      predecessor, and does so only on a one-column image: with two columns
      the source's update of pixel 1 would already have written out of
      range.  The path is then the target alone. */
  lemma GridDone(image: seq<seq<int>>, adj: seq<seq<Edge>>, rounds: nat, popped: seq<Pair>,
                 dist: seq<int>, preds: seq<int>, path: seq<int>)
    requires IsGrid(image) && adj == GridAdjacency(image)
    requires |popped| == rounds && rounds == Target(image) + 1
    requires forall i :: 0 <= i < rounds - 1 ==> Relaxed(adj, dist, popped[i].snd, i)
    requires forall i :: 0 <= i < rounds && i <= Source(image) ==> popped[i].snd == InitialDistance(Source(image), i)
    requires DistancesInv(adj, Source(image), dist, preds)
    requires forall v :: 0 <= v < |adj| && preds[v] != -1 ==> Source(image) <= preds[v] && v < |adj| - 1 - preds[v]
    requires |path| >= 1 && path[|path| - 1] == Target(image) && IsEdgePath(adj, path)
    requires forall i :: 0 <= i < |path| - 1 ==> preds[path[i + 1]] == path[i]
    ensures Cols(image) == 1 && path == [Target(image)]
  {
    GridEnds(image, adj);
    var s := Source(image);
    if Cols(image) >= 2 {
      assert Relaxed(adj, dist, popped[s].snd, s);
      assert adj[s][1] == Edge(1, 0);
      PixelOneStuck(image, adj, dist, preds, -1);
    }
    assert preds[Target(image)] == -1;
    PathEndHasPred(preds, path);
    assert path == [path[0]];
  }

  /** `find_minimum_seam`: builds the grid graph, runs Dijkstra from the
      source to the target, and keeps `path[i] % cols` for every node but the
      first and the last.  A finished run's path follows grid edges to the
      target, so the seam has at most `rows` entries, each a column, and
      neighbouring entries differ by at most one.  What the run does on the
      grid is fixed, though: pixels are popped first, with score INF, and
      `INF + weight` overflows on the first pixel with an edge of positive
      weight; without such a pixel, the source's updates of row 0 write the
      heap slot of pixel (0, 1) outside the one entry left, and a one-column
      image finishes with the target alone, so an empty seam. */
  method FindMinimumSeam(image: seq<seq<int>>) returns (result: Outcome<seq<int>>, ghost path: seq<int>, ghost rounds: nat)
    requires IsGrid(image)
    ensures result.SlotOutOfRange? ==>
      && 1 <= rounds <= Target(image) && PixelCount(image) + 2 - rounds <= result.node < PixelCount(image) + 2
      && HasEdge(GridAdjacency(image), rounds - 1, result.node)
    ensures result.Done? ==>
      && |path| >= 1 && path[|path| - 1] == Target(image)
      && IsEdgePath(GridAdjacency(image), path)
      && |result.value| == Max(|path| - 2, 0)
      && (forall i :: 0 <= i < |result.value| ==> result.value[i] == path[i + 1] % Cols(image))
    ensures result.Done? ==> IsSeamShape(result.value, Rows(image), Cols(image))
    ensures result.IntOverflow? <==> exists u :: 0 <= u < PixelCount(image) && HasPositiveEdge(GridAdjacency(image), u)
    ensures result.IntOverflow? ==>
      && 0 <= result.node < PixelCount(image) && HasPositiveEdge(GridAdjacency(image), result.node)
      && forall u :: 0 <= u < result.node ==> !HasPositiveEdge(GridAdjacency(image), u)
    ensures !result.IntOverflow? ==> result == if Cols(image) >= 2 then SlotOutOfRange(1) else Done([])
  {
    var adjacencyList := GenerateAdjacencyList(image);
    var source := |adjacencyList| - 2;
    var target := |adjacencyList| - 1;
    GridWellFormed(image);
    GridEnds(image, adjacencyList);
    var found;
    ghost var preds, popped, dist;
    found, preds, rounds, popped, dist := Dijkstra(adjacencyList, source, target, GridRank(image));
    if found.IntOverflow? {
      GridOverflow(image, adjacencyList, rounds, popped, found.node);
      return IntOverflow(found.node), [], rounds;
    }
    GridNoPositive(image, adjacencyList, rounds, popped);
    if found.SlotOutOfRange? {
      GridStuck(image, adjacencyList, rounds, popped, dist, preds, found.node);
      return SlotOutOfRange(found.node), [], rounds;
    }
    var nodes := found.value;
    path := nodes;
    GridDone(image, adjacencyList, rounds, popped, dist, preds, path);
    var seam := InteriorColumns(nodes, |image[0]|);
    SeamShape(image, path);
    result := Done(seam);
  }

  /** The `for (int i = 1; i < path.size() - 1; ++i)` loop of
      `find_minimum_seam`: the column `path[i] % cols` of every node but the
      first and the last. */
  method InteriorColumns(nodes: seq<int>, cols: int) returns (seam: seq<int>)
    requires cols > 0
    ensures |seam| == Max(|nodes| - 2, 0)
    ensures forall j :: 0 <= j < |seam| ==> seam[j] == nodes[j + 1] % cols
  {
    seam := [];
    var i := 1;
    while i < |nodes| - 1
      invariant 1 <= i <= Max(|nodes| - 1, 1)
      invariant |seam| == i - 1
      invariant forall j :: 0 <= j < |seam| ==> seam[j] == nodes[j + 1] % cols
    {
      seam := seam + [nodes[i] % cols];
      i := i + 1;
    }
  }
}
