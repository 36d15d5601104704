/** The Python seam finder (python.py): the same grid graph, a lazy
    Dijkstra over a heapq of `(dist, node)` tuples with `float('inf')` as the
    initial distance, and a length check on the resulting seam. */
module SeamPython {
  import opened Heap
  import opened Graph
  import opened Grid

  /** A distance: an integer, or `float('inf')`. */
  datatype ExtInt = Fin(n: int) | Inf

  /** `x < d` for an integer `x`. */
  predicate Below(x: int, d: ExtInt) {
    d.Inf? || x < d.n
  }

  /** The seam, or the `ValueError` `find_minimum_seam` raises. */
  datatype SeamResult = Seam(columns: seq<int>) | ValueError

  /** How many distances are still infinite. */
  function CountInf(d: seq<ExtInt>): nat {
    if d == [] then 0 else CountInf(d[..|d| - 1]) + (if d[|d| - 1].Inf? then 1 else 0)
  }

  /** The sum of the finite distances. */
  function SumFin(d: seq<ExtInt>): int {
    if d == [] then 0 else SumFin(d[..|d| - 1]) + (if d[|d| - 1].Fin? then d[|d| - 1].n else 0)
  }

  ghost predicate FiniteNonNegative(d: seq<ExtInt>) {
    forall v :: 0 <= v < |d| && d[v].Fin? ==> d[v].n >= 0
  }

  lemma {:induction false} SumFinNonNegative(d: seq<ExtInt>)
    requires FiniteNonNegative(d)
    ensures SumFin(d) >= 0
  {
    if d != [] {
      SumFinNonNegative(d[..|d| - 1]);
    }
  }

  /** Lowering one distance to a finite value changes the two counts by
      exactly that slot's contribution. */
  lemma {:induction false} LowerOne(d: seq<ExtInt>, v: int, x: int)
    requires 0 <= v < |d|
    ensures CountInf(d[v := Fin(x)]) == CountInf(d) - (if d[v].Inf? then 1 else 0)
    ensures SumFin(d[v := Fin(x)]) == SumFin(d) - (if d[v].Fin? then d[v].n else 0) + x
  {
    var last := |d| - 1;
    var d' := d[v := Fin(x)];
    if v == last {
      assert d'[..last] == d[..last];
    } else {
      assert d'[..last] == d[..last][v := Fin(x)];
      LowerOne(d[..last], v, x);
    }
  }

  /** The termination measure of the `while pq` loop, on distances alone:
      fewer infinite distances, or as many and a smaller finite sum. */
  ghost predicate MeasureBelow(d': seq<ExtInt>, d: seq<ExtInt>) {
    CountInf(d') < CountInf(d) || (CountInf(d') == CountInf(d) && SumFin(d') < SumFin(d))
  }

  /** A successful relaxation (`new_dist < distances[v]`) lowers the measure. */
  lemma RelaxLowers(d: seq<ExtInt>, v: int, x: int)
    requires 0 <= v < |d| && Below(x, d[v])
    ensures MeasureBelow(d[v := Fin(x)], d)
  {
    LowerOne(d, v, x);
  }

  /** `path[1:-1]`: the path without its first and last node; a path of one
      node gives the empty list. */
  function Inner(path: seq<int>): (r: seq<int>)
    ensures |r| == Max(|path| - 2, 0)
    ensures forall i :: 0 <= i < |r| ==> r[i] == path[i + 1]
  {
    if |path| >= 2 then path[1..|path| - 1] else []
  }

  /** `[p % cols for p in seam]`. */
  function Columns(nodes: seq<int>, cols: int): (r: seq<int>)
    requires cols > 0
    ensures |r| == |nodes|
    ensures forall i :: 0 <= i < |r| ==> 0 <= r[i] < cols && r[i] == nodes[i] % cols
  {
    seq(|nodes|, i requires 0 <= i < |nodes| => nodes[i] % cols)
  }

  /** `heapq.heappush`: appends and sifts the new entry towards the root. */
  method HeapPush(pq: seq<Pair>, x: Pair) returns (pq': seq<Pair>)
    requires IsHeap(pq)
    ensures IsHeap(pq')
    ensures multiset(pq') == multiset(pq) + multiset{x}
    ensures forall y :: y in pq' <==> y in pq || y == x
  {
    pq' := SiftUp(pq + [x], |pq|);
    assert forall y :: y in pq' <==> y in multiset(pq) + multiset{x};
  }

  /** `heapq.heappop`: removes and returns the least `(dist, node)` tuple. */
  method HeapPop(pq: seq<Pair>) returns (x: Pair, pq': seq<Pair>)
    requires IsHeap(pq) && pq != []
    ensures IsHeap(pq')
    ensures x in pq && forall y :: y in pq ==> LexLe(x, y)
    ensures multiset(pq') + multiset{x} == multiset(pq)
    ensures forall y :: y in pq' ==> y in pq
    ensures |pq'| == |pq| - 1
  {
    RootIsLeast(pq);
    var b := PopHeap(pq);
    x := b[|b| - 1];
    PrefixIsHeap(b, |b| - 1);
    pq' := b[..|b| - 1];
    assert b == pq' + [x];
    assert forall y :: y in pq' ==> y in multiset(b);
  }

  /** `distances[v]` is finite and at most `x`. */
  predicate Reaches(d: ExtInt, x: int) {
    d.Fin? && d.n <= x
  }

  /** `a <= b` on extended integers. */
  predicate NoHigher(a: ExtInt, b: ExtInt) {
    b.Inf? || (a.Fin? && a.n <= b.n)
  }

  /** The body of `generate_adjacency_list`'s inner loop for pixel (r, c),
      node u: three upward edges weighted by `abs` when r > 0, the edge from
      the source in row 0, the edge to the target in the last row. */
  method ConnectPixel(image: seq<seq<int>>, adjacencyList: seq<seq<Edge>>, r: int, c: int, u: int)
    returns (adjacencyList': seq<seq<Edge>>)
    requires IsGrid(image) && 0 <= r < Rows(image) && 0 <= c < Cols(image)
    requires |adjacencyList| == PixelCount(image) + 2 && 0 <= u < PixelCount(image) && u == r * Cols(image) + c
    ensures adjacencyList' == adjacencyList[u := adjacencyList[u] + PixelEdges(image, r, c)]
              [Source(image) := if r == 0 then adjacencyList[Source(image)] + [Edge(u, 0)] else adjacencyList[Source(image)]]
  {
    var rows := |image|;
    var cols := |image[0]|;
    var numVertices := rows * cols + 2;
    adjacencyList' := adjacencyList;
    if r > 0 {
      var v1 := (r - 1) * cols + Max(c - 1, 0);
      var v2 := (r - 1) * cols + c;
      var v3 := (r - 1) * cols + Min(c + 1, cols - 1);
      var weight1 := Abs(image[r][c] - image[r - 1][Max(c - 1, 0)]);
      var weight2 := Abs(image[r][c] - image[r - 1][c]);
      var weight3 := Abs(image[r][c] - image[r - 1][Min(c + 1, cols - 1)]);
      adjacencyList' := adjacencyList'[u := adjacencyList'[u] + [Edge(v1, weight1)]];
      adjacencyList' := adjacencyList'[u := adjacencyList'[u] + [Edge(v2, weight2)]];
      adjacencyList' := adjacencyList'[u := adjacencyList'[u] + [Edge(v3, weight3)]];
    }
    ghost var up := adjacencyList'[u];
    assert adjacencyList' == adjacencyList[u := up];
    if r == 0 {
      adjacencyList' := adjacencyList'[numVertices - 2 := adjacencyList'[numVertices - 2] + [Edge(u, 0)]];
    }
    if r == rows - 1 {
      adjacencyList' := adjacencyList'[u := adjacencyList'[u] + [Edge(numVertices - 1, 0)]];
    }
    assert adjacencyList'[u] == adjacencyList[u] + PixelEdges(image, r, c);
  }

  /** `generate_adjacency_list`: the same row-major loops as the C++
      version, with `abs` for the weights (see ConnectPixel); slot for slot
      the grid graph. */
  method GenerateAdjacencyList(image: seq<seq<int>>) returns (adjacencyList: seq<seq<Edge>>)
    requires IsGrid(image)
    ensures adjacencyList == GridAdjacency(image)
  {
    var rows := |image|;
    var cols := |image[0]|;
    var numVertices := rows * cols + 2;
    adjacencyList := seq(numVertices, _ => []);
    ghost var done := 0;
    BuiltEmpty(image);
    for r := 0 to rows
      invariant done == r * cols && done <= rows * cols
      invariant adjacencyList == Built(image, done, if r == 0 then 0 else cols)
    {
      for c := 0 to cols
        invariant done == r * cols + c && done <= rows * cols
        invariant adjacencyList == Built(image, done, if r == 0 then c else cols)
      {
        PixelId(rows, cols, r, c);
        var u := r * cols + c;
        ghost var before := adjacencyList;
        adjacencyList := ConnectPixel(image, adjacencyList, r, c, u);
        BuiltNext(image, before, adjacencyList, u, r, c, if r == 0 then c else cols);
        done := done + 1;
      }
      assert (r + 1) * cols == r * cols + cols;
    }
    BuiltAll(image);
  }

  /** What the `while pq` loop keeps: `pq` is a heap of in-range,
      non-negative entries none of which is below its node's current
      distance, finite distances are non-negative and the source keeps 0. */
  ghost predicate QueueInv(pq: seq<Pair>, distances: seq<ExtInt>, numVertices: int, source: int) {
    && IsHeap(pq)
    && |distances| == numVertices && FiniteNonNegative(distances)
    && 0 <= source < numVertices && distances[source] == Fin(0)
    && forall x :: x in pq ==> 0 <= x.snd < numVertices && x.fst >= 0 && Reaches(distances[x.snd], x.fst)
  }

  /** Every queued node and every node with a predecessor is reachable
      from the source. */
  ghost predicate FromSource(adj: seq<seq<Edge>>, source: int, pq: seq<Pair>, predecessors: seq<int>) {
    && (forall x :: x in pq ==> Reachable(adj, source, x.snd))
    && (forall v :: 0 <= v < |predecessors| && predecessors[v] != -1 ==> Reachable(adj, source, v))
  }

  /** The first `k` edges `(v, weight)` of `u` have been relaxed with
      `dist_u == s`: `distances[v] <= s + weight`. */
  ghost predicate RelaxedUpTo(adj: seq<seq<Edge>>, d: seq<ExtInt>, s: int, u: int, k: int) {
    0 <= u < |adj| && 0 <= k <= |adj[u]| &&
    forall j :: 0 <= j < k ==> 0 <= adj[u][j].to < |d| && NoHigher(d[adj[u][j].to], Fin(s + adj[u][j].weight))
  }

  /** Every edge of `u` has been relaxed with `dist_u == s`. */
  ghost predicate Relaxed(adj: seq<seq<Edge>>, d: seq<ExtInt>, s: int, u: int) {
    0 <= u < |adj| && RelaxedUpTo(adj, d, s, u, |adj[u]|)
  }

  /** Lowering distances keeps the edges relaxed so far relaxed, and one
      more relaxed edge extends the prefix. */
  lemma RelaxedUpToStep(adj: seq<seq<Edge>>, d: seq<ExtInt>, d': seq<ExtInt>, s: int, u: int, k: int)
    requires RelaxedUpTo(adj, d, s, u, k) && k < |adj[u]| && |d'| == |d|
    requires forall v :: 0 <= v < |d| ==> NoHigher(d'[v], d[v])
    requires 0 <= adj[u][k].to < |d| && NoHigher(d'[adj[u][k].to], Fin(s + adj[u][k].weight))
    ensures RelaxedUpTo(adj, d', s, u, k + 1)
  {
    forall j | 0 <= j < k
      ensures NoHigher(d'[adj[u][j].to], Fin(s + adj[u][j].weight))
    {
      var v := adj[u][j].to;
      assert NoHigher(d'[v], d[v]);
    }
  }

  /** `x` is `s + weight` for some edge `(v, weight)` of `u`. */
  ghost predicate OnEdge(adj: seq<seq<Edge>>, u: int, s: int, v: int, x: int) {
    0 <= u < |adj| && exists j :: 0 <= j < |adj[u]| && adj[u][j].to == v && x == s + adj[u][j].weight
  }

  /** Distance `d` of node `v` went from `d0` no higher, and if it changed it
      is `s + weight` of an edge of `u` to `v`. */
  ghost predicate LoweredVia(adj: seq<seq<Edge>>, u: int, s: int, v: int, d0: ExtInt, d: ExtInt) {
    NoHigher(d, d0) && (d != d0 ==> d.Fin? && OnEdge(adj, u, s, v, d.n))
  }

  /** The tuple `x` pushed while relaxing `u` with `dist_u == s`: it is
      `s + weight` of an edge of `u` to its node, and below that node's
      distance `d0` from before. */
  ghost predicate PushedVia(adj: seq<seq<Edge>>, u: int, s: int, d0: seq<ExtInt>, x: Pair) {
    0 <= x.snd < |d0| && Below(x.fst, d0[x.snd]) && OnEdge(adj, u, s, x.snd, x.fst)
  }

  /** A node has a predecessor exactly when it is not the source and its
      distance is finite. */
  ghost predicate PredsMatch(source: int, distances: seq<ExtInt>, predecessors: seq<int>) {
    |predecessors| == |distances| &&
    forall v :: 0 <= v < |distances| ==> (predecessors[v] != -1 <==> v != source && distances[v].Fin?)
  }

  /** Every predecessor entry names a node with a finite distance. */
  ghost predicate PredsFinite(d: seq<ExtInt>, p: seq<int>) {
    forall v :: 0 <= v < |p| && p[v] != -1 ==> 0 <= p[v] < |d| && d[p[v]].Fin?
  }

  /** The facts `dijkstra` keeps about its whole state. */
  ghost predicate SearchState(adj: seq<seq<Edge>>, source: int, pq: seq<Pair>, d: seq<ExtInt>, p: seq<int>) {
    && QueueInv(pq, d, |adj|, source)
    && PredsAlongEdges(adj, p) && PredsMatch(source, d, p) && PredsFinite(d, p)
    && FromSource(adj, source, pq, p)
  }

  /** How the state has moved since relaxation of `u` with `dist_u == s`
      began from `(d0, p0, pq0)`, after its first `k` edges: the first
      `k` edges are relaxed; a changed distance is lower and is `s + weight`
      of an edge of `u` to its node; a node's predecessor is `u` exactly when
      its distance changed, otherwise the one in `p0`; the queue keeps every
      tuple of `pq0`, holds `(d[v], v)` for every changed `v`, and gains no
      tuple but pushes below a node's old distance; nothing is pushed unless
      a distance changed, and a change lowers the measure. */
  ghost predicate RelaxProgress(adj: seq<seq<Edge>>, u: int, s: int, k: int,
                                d0: seq<ExtInt>, p0: seq<int>, pq0: seq<Pair>,
                                d: seq<ExtInt>, p: seq<int>, pq: seq<Pair>) {
    && |d0| == |adj| && |d| == |adj| && |p0| == |adj| && |p| == |adj|
    && RelaxedUpTo(adj, d, s, u, k)
    && (forall v :: 0 <= v < |adj| ==> LoweredVia(adj, u, s, v, d0[v], d[v]))
    && (forall v :: 0 <= v < |adj| && p[v] != p0[v] ==> p[v] == u && HasEdge(adj, u, v))
    && (forall v :: 0 <= v < |adj| ==> p[v] == if d[v] != d0[v] then u else p0[v])
    && multiset(pq0) <= multiset(pq)
    && (forall v :: 0 <= v < |adj| && d[v] != d0[v] ==> d[v].Fin? && Pair(d[v].n, v) in pq)
    && (forall x :: x in pq ==> x in pq0 || PushedVia(adj, u, s, d0, x))
    && (d == d0 ==> pq == pq0)
    && (d == d0 || MeasureBelow(d, d0))
  }

  /** One successful relaxation of an edge `(v, _)` of a reachable `u`, with
      `new_dist >= 0` below `distances[v]`, keeps the search state. */
  lemma StateAfterRelax(adj: seq<seq<Edge>>, source: int, u: int, v: int, nd: int,
                        pq: seq<Pair>, d: seq<ExtInt>, p: seq<int>, pq': seq<Pair>, d': seq<ExtInt>, p': seq<int>)
    requires SearchState(adj, source, pq, d, p) && EdgesInRange(adj)
    requires 0 <= u < |adj| && 0 <= v < |adj| && HasEdge(adj, u, v) && Reachable(adj, source, u) && d[u].Fin?
    requires nd >= 0 && Below(nd, d[v])
    requires IsHeap(pq') && forall y :: y in pq' <==> y in pq || y == Pair(nd, v)
    requires d' == d[v := Fin(nd)] && p' == p[v := u]
    ensures SearchState(adj, source, pq', d', p')
  {
    ReachStep(adj, source, u, v);
  }

  /** A queue holding exactly one more copy of `x` holds `x` and what it
      held before, and nothing else. */
  lemma PushedMembers(pq: seq<Pair>, pq': seq<Pair>, x: Pair)
    requires multiset(pq') == multiset(pq) + multiset{x}
    ensures forall y :: y in pq' <==> y in pq || y == x
  {
    assert forall y :: y in pq' <==> y in multiset(pq) + multiset{x};
  }

  /** Relaxing an edge of a reachable `u` with a finite distance, with a
      non-negative `dist_u`, keeps the search state. */
  lemma StateAfterEdge(adj: seq<seq<Edge>>, source: int, u: int, s: int, k: int,
                       d: seq<ExtInt>, p: seq<int>, pq: seq<Pair>, d': seq<ExtInt>, p': seq<int>, pq': seq<Pair>)
    requires SearchState(adj, source, pq, d, p) && EdgesInRange(adj) && NonNegativeWeights(adj)
    requires 0 <= u < |adj| && 0 <= k < |adj[u]| && Reachable(adj, source, u) && d[u].Fin? && s >= 0
    requires IsHeap(pq') && EdgeStep(adj, u, s, k, d, p, pq, d', p', pq')
    ensures SearchState(adj, source, pq', d', p')
  {
    var v, nd := adj[u][k].to, s + adj[u][k].weight;
    if Below(nd, d[v]) {
      assert 0 <= v < |adj| && HasEdge(adj, u, v);
      assert adj[u][k].weight >= 0;
      assert d' == d[v := Fin(nd)] && p' == p[v := u];
      PushedMembers(pq, pq', Pair(nd, v));
      StateAfterRelax(adj, source, u, v, nd, pq, d, p, pq', d', p');
    }
  }

  /** One successful relaxation of edge `k` of `u` advances the progress. */
  lemma ProgressAfterRelax(adj: seq<seq<Edge>>, u: int, s: int, k: int,
                           d0: seq<ExtInt>, p0: seq<int>, pq0: seq<Pair>,
                           d: seq<ExtInt>, p: seq<int>, pq: seq<Pair>, pq': seq<Pair>)
    requires RelaxProgress(adj, u, s, k, d0, p0, pq0, d, p, pq) && k < |adj[u]|
    requires 0 <= adj[u][k].to < |adj| && Below(s + adj[u][k].weight, d[adj[u][k].to])
    requires forall y :: y in pq' <==> y in pq || y == Pair(s + adj[u][k].weight, adj[u][k].to)
    requires multiset(pq') == multiset(pq) + multiset{Pair(s + adj[u][k].weight, adj[u][k].to)}
    ensures RelaxProgress(adj, u, s, k + 1, d0, p0, pq0,
                          d[adj[u][k].to := Fin(s + adj[u][k].weight)], p[adj[u][k].to := u], pq')
  {
    var v, nd := adj[u][k].to, s + adj[u][k].weight;
    var d', p' := d[v := Fin(nd)], p[v := u];
    RelaxLowers(d, v, nd);
    assert NoHigher(d'[v], d[v]);
    RelaxedUpToStep(adj, d, d', s, u, k);
    assert OnEdge(adj, u, s, v, nd);
    assert LoweredVia(adj, u, s, v, d0[v], d'[v]);
    assert PushedVia(adj, u, s, d0, Pair(nd, v));
    assert d'[v] != d0[v];
    assert Pair(nd, v) in multiset(pq');
    forall w | 0 <= w < |adj| && d'[w] != d0[w] ensures d'[w].Fin? && Pair(d'[w].n, w) in pq' {
      if w != v {
        assert Pair(d[w].n, w) in pq;
      }
    }
    forall w | 0 <= w < |adj| ensures p'[w] == if d'[w] != d0[w] then u else p0[w] {
    }
    assert multiset(pq0) <= multiset(pq');
    assert MeasureBelow(d', d0);
    assert forall x :: x in pq' ==> x in pq0 || PushedVia(adj, u, s, d0, x);
    assert forall w :: 0 <= w < |adj| ==> LoweredVia(adj, u, s, w, d0[w], d'[w]);
    assert forall w :: 0 <= w < |adj| && p'[w] != p0[w] ==> p'[w] == u && HasEdge(adj, u, w);
    assert d' != d0;
    assert RelaxProgress(adj, u, s, k + 1, d0, p0, pq0, d', p', pq');
  }

  /** Edge `k` `(v, weight)` of `u` relaxed with `dist_u == s`, taking
      `(d, p, pq)` to `(d', p', pq')`: when `s + weight` is below `d[v]`,
      `d[v]` becomes `s + weight`, `p[v]` becomes `u` and the queue gains
      exactly the tuple `(s + weight, v)`; otherwise nothing changes. */
  ghost predicate EdgeStep(adj: seq<seq<Edge>>, u: int, s: int, k: int,
                           d: seq<ExtInt>, p: seq<int>, pq: seq<Pair>, d': seq<ExtInt>, p': seq<int>, pq': seq<Pair>) {
    0 <= u < |adj| && 0 <= k < |adj[u]| && 0 <= adj[u][k].to < |d| && |p| == |d| &&
    var v, nd := adj[u][k].to, s + adj[u][k].weight;
    if Below(nd, d[v]) then
      && d' == d[v := Fin(nd)] && p' == p[v := u]
      && multiset(pq') == multiset(pq) + multiset{Pair(nd, v)}
    else
      d' == d && p' == p && pq' == pq
  }

  /** Either way, one more edge advances the progress. */
  lemma ProgressAfterEdge(adj: seq<seq<Edge>>, u: int, s: int, k: int,
                          d0: seq<ExtInt>, p0: seq<int>, pq0: seq<Pair>,
                          d: seq<ExtInt>, p: seq<int>, pq: seq<Pair>, d': seq<ExtInt>, p': seq<int>, pq': seq<Pair>)
    requires RelaxProgress(adj, u, s, k, d0, p0, pq0, d, p, pq) && k < |adj[u]| && 0 <= adj[u][k].to < |adj|
    requires EdgeStep(adj, u, s, k, d, p, pq, d', p', pq')
    ensures RelaxProgress(adj, u, s, k + 1, d0, p0, pq0, d', p', pq')
  {
    if Below(s + adj[u][k].weight, d[adj[u][k].to]) {
      PushedMembers(pq, pq', Pair(s + adj[u][k].weight, adj[u][k].to));
      ProgressAfterRelax(adj, u, s, k, d0, p0, pq0, d, p, pq, pq');
    } else {
      ProgressAfterSkip(adj, u, s, k, d0, p0, pq0, d, p, pq);
    }
  }

  /** An edge that does not improve its node's distance advances the
      progress without changing anything. */
  lemma ProgressAfterSkip(adj: seq<seq<Edge>>, u: int, s: int, k: int,
                          d0: seq<ExtInt>, p0: seq<int>, pq0: seq<Pair>,
                          d: seq<ExtInt>, p: seq<int>, pq: seq<Pair>)
    requires RelaxProgress(adj, u, s, k, d0, p0, pq0, d, p, pq) && k < |adj[u]|
    requires 0 <= adj[u][k].to < |adj| && !Below(s + adj[u][k].weight, d[adj[u][k].to])
    ensures RelaxProgress(adj, u, s, k + 1, d0, p0, pq0, d, p, pq)
  {
    forall v | 0 <= v < |d| ensures NoHigher(d[v], d[v]) {
    }
    RelaxedUpToStep(adj, d, d, s, u, k);
  }

  /** The `for v, weight in adjacency_list[u]` loop: for each edge whose
      `new_dist = dist_u + weight` is below `distances[v]`, sets
      `distances[v]`, `predecessors[v] = u` and pushes `(new_dist, v)`.
      Afterwards every edge of `u` is relaxed with `dist_u`.  Distances never
      rise, a changed distance is `dist_u + weight` of an edge of `u` to its
      node, a predecessor is `u` exactly where the distance changed, the
      queue keeps every tuple it had and holds the tuple of every changed
      node, each pushed tuple is `(dist_u + weight, v)` for an edge
      `(v, weight)` and strictly below the distance `v` had before, and
      unless nothing changed the measure of the distances drops. */
  method RelaxEdges(adjacencyList: seq<seq<Edge>>, u: int, distU: int, distances: seq<ExtInt>,
                    predecessors: seq<int>, pq: seq<Pair>, ghost source: int)
    returns (distances': seq<ExtInt>, predecessors': seq<int>, pq': seq<Pair>)
    requires 0 <= u < |adjacencyList| && distU >= 0
    requires EdgesInRange(adjacencyList) && NonNegativeWeights(adjacencyList)
    requires SearchState(adjacencyList, source, pq, distances, predecessors)
    requires Reachable(adjacencyList, source, u) && distances[u].Fin?
    ensures SearchState(adjacencyList, source, pq', distances', predecessors')
    ensures Relaxed(adjacencyList, distances', distU, u)
    ensures RelaxProgress(adjacencyList, u, distU, |adjacencyList[u]|, distances, predecessors, pq,
                          distances', predecessors', pq')
  {
    distances', predecessors', pq' := distances, predecessors, pq;
    var k := 0;
    while k < |adjacencyList[u]|
      invariant 0 <= k <= |adjacencyList[u]|
      invariant SearchState(adjacencyList, source, pq', distances', predecessors') && distances'[u].Fin?
      invariant RelaxProgress(adjacencyList, u, distU, k, distances, predecessors, pq, distances', predecessors', pq')
    {
      ghost var (d, p, q) := (distances', predecessors', pq');
      distances', predecessors', pq' := RelaxEdge(adjacencyList, u, distU, k, distances', predecessors', pq');
      StateAfterEdge(adjacencyList, source, u, distU, k, d, p, q, distances', predecessors', pq');
      ProgressAfterEdge(adjacencyList, u, distU, k, distances, predecessors, pq, d, p, q, distances', predecessors', pq');
      k := k + 1;
    }
  }

  /** One pass of the `for v, weight in adjacency_list[u]` loop, for edge
      `k`: if `new_dist = dist_u + weight` is below `distances[v]`, sets
      `distances[v]`, `predecessors[v] = u` and pushes `(new_dist, v)`. */
  method RelaxEdge(adjacencyList: seq<seq<Edge>>, u: int, distU: int, k: int,
                   distances: seq<ExtInt>, predecessors: seq<int>, pq: seq<Pair>)
    returns (distances': seq<ExtInt>, predecessors': seq<int>, pq': seq<Pair>)
    requires 0 <= u < |adjacencyList| && 0 <= k < |adjacencyList[u]| && EdgesInRange(adjacencyList)
    requires |distances| == |predecessors| == |adjacencyList| && IsHeap(pq)
    ensures IsHeap(pq')
    ensures EdgeStep(adjacencyList, u, distU, k, distances, predecessors, pq, distances', predecessors', pq')
  {
    var v := adjacencyList[u][k].to;
    var weight := adjacencyList[u][k].weight;
    var newDist := distU + weight;
    if Below(newDist, distances[v]) {
      var pushed := HeapPush(pq, Pair(newDist, v));
      distances', predecessors', pq' := distances[v := Fin(newDist)], predecessors[v := u], pushed;
    } else {
      distances', predecessors', pq' := distances, predecessors, pq;
    }
  }

  /** Every popped tuple `(s, u)` with `u != target` has had all edges of
      `u` relaxed with `s`, and every popped tuple is at or above its node's
      current distance. */
  ghost predicate PoppedFacts(adj: seq<seq<Edge>>, target: int, d: seq<ExtInt>, popped: seq<Pair>) {
    forall i :: 0 <= i < |popped| ==>
      && 0 <= popped[i].snd < |d| && Reaches(d[popped[i].snd], popped[i].fst)
      && (popped[i].snd != target ==> Relaxed(adj, d, popped[i].fst, popped[i].snd))
  }

  lemma NoHigherTrans(a: ExtInt, b: ExtInt, c: ExtInt)
    requires NoHigher(a, b) && NoHigher(b, c)
    ensures NoHigher(a, c)
  {
  }

  lemma PoppedFactsAppend(adj: seq<seq<Edge>>, target: int, d: seq<ExtInt>, popped: seq<Pair>, x: Pair)
    requires PoppedFacts(adj, target, d, popped)
    requires 0 <= x.snd < |d| && Reaches(d[x.snd], x.fst)
    requires x.snd != target ==> Relaxed(adj, d, x.fst, x.snd)
    ensures PoppedFacts(adj, target, d, popped + [x])
  {
  }

  /** What is known about the popped tuples survives lower distances. */
  lemma PoppedFactsKept(adj: seq<seq<Edge>>, target: int, d: seq<ExtInt>, d': seq<ExtInt>, popped: seq<Pair>)
    requires PoppedFacts(adj, target, d, popped) && |d'| == |d|
    requires forall v :: 0 <= v < |d| ==> NoHigher(d'[v], d[v])
    ensures PoppedFacts(adj, target, d', popped)
  {
    forall i | 0 <= i < |popped|
      ensures Reaches(d'[popped[i].snd], popped[i].fst)
      ensures popped[i].snd != target ==> Relaxed(adj, d', popped[i].fst, popped[i].snd)
    {
      var x := popped[i];
      assert NoHigher(d'[x.snd], d[x.snd]);
      if x.snd != target {
        forall j | 0 <= j < |adj[x.snd]|
          ensures NoHigher(d'[adj[x.snd][j].to], Fin(x.fst + adj[x.snd][j].weight))
        {
          var v := adj[x.snd][j].to;
          NoHigherTrans(d'[v], d[v], Fin(x.fst + adj[x.snd][j].weight));
        }
      }
    }
  }

  /** One round of the `while pq` loop: pops the least tuple
      `(dist_u, u)`; when `u` is the target the loop breaks, otherwise the
      edges of `u` are relaxed (see RelaxEdges).  The search state is kept,
      the popped tuples so far, now ending with `(dist_u, u)`, keep their
      facts, no queued tuple is lost except the one popped, and the loop
      measure drops. */
  method Round(adjacencyList: seq<seq<Edge>>, source: int, target: int,
               distances: seq<ExtInt>, predecessors: seq<int>, pq: seq<Pair>, ghost popped: seq<Pair>)
    returns (top: Pair, distances': seq<ExtInt>, predecessors': seq<int>, pq': seq<Pair>)
    requires EdgesInRange(adjacencyList) && NonNegativeWeights(adjacencyList)
    requires SearchState(adjacencyList, source, pq, distances, predecessors) && pq != []
    requires PoppedFacts(adjacencyList, target, distances, popped) && Tracked(distances, pq, popped)
    ensures top in pq && forall y :: y in pq ==> LexLe(top, y)
    ensures SearchState(adjacencyList, source, pq', distances', predecessors')
    ensures PoppedFacts(adjacencyList, target, distances', popped + [top])
    ensures Tracked(distances', pq', popped + [top])
    ensures multiset(pq) <= multiset(pq') + multiset{top}
    ensures top.snd == target ==>
      distances' == distances && predecessors' == predecessors && multiset(pq') + multiset{top} == multiset(pq)
    ensures forall v :: 0 <= v < |distances| && distances'[v] != distances[v] ==>
      distances'[v].Fin? && Pair(distances'[v].n, v) in pq'
    ensures (distances' == distances && |pq'| < |pq|) || MeasureBelow(distances', distances)
  {
    var rest;
    top, rest := HeapPop(pq);
    StateAfterPop(adjacencyList, source, pq, distances, predecessors, top, rest);
    var distU, u := top.fst, top.snd;
    if u == target {
      TrackedStep(distances, distances, pq, rest, rest, popped, top);
      PoppedFactsAppend(adjacencyList, target, distances, popped, top);
      distances', predecessors', pq' := distances, predecessors, rest;
    } else {
      distances', predecessors', pq' := RelaxEdges(adjacencyList, u, distU, distances, predecessors, rest, source);
      PoppedFactsKept(adjacencyList, target, distances, distances', popped);
      assert NoHigher(distances'[u], distances[u]);
      PoppedFactsAppend(adjacencyList, target, distances', popped, top);
      TrackedStep(distances, distances', pq, rest, pq', popped, top);
    }
  }

  /** Every node with a finite distance has a tuple carrying that distance
      still in the queue `pq` or already popped. */
  ghost predicate Tracked(d: seq<ExtInt>, pq: seq<Pair>, popped: seq<Pair>) {
    forall v :: 0 <= v < |d| && d[v].Fin? ==> Pair(d[v].n, v) in pq || Pair(d[v].n, v) in popped
  }

  /** Popping `top` from `queued` and then relaxing (a queue that only
      grows and holds every changed node's tuple) keeps every finite
      distance tracked, `top` now counting as popped. */
  lemma TrackedStep(d: seq<ExtInt>, d': seq<ExtInt>, queued: seq<Pair>, pq: seq<Pair>, pq': seq<Pair>,
                    popped: seq<Pair>, top: Pair)
    requires Tracked(d, queued, popped) && |d'| == |d|
    requires multiset(pq) + multiset{top} == multiset(queued) && multiset(pq) <= multiset(pq')
    requires forall v :: 0 <= v < |d| && d'[v] != d[v] ==> d'[v].Fin? && Pair(d'[v].n, v) in pq'
    ensures Tracked(d', pq', popped + [top])
  {
    forall v | 0 <= v < |d| && d'[v].Fin?
      ensures Pair(d'[v].n, v) in pq' || Pair(d'[v].n, v) in popped + [top]
    {
      if d'[v] == d[v] {
        var x := Pair(d[v].n, v);
        if x in queued && x != top {
          assert multiset(queued)[x] == multiset(pq)[x] + multiset{top}[x];
        }
      }
    }
  }

  /** No popped tuple is the target's, after one more that is not. */
  lemma NotTargetAppend(popped: seq<Pair>, top: Pair, target: int)
    requires (forall i :: 0 <= i < |popped| ==> popped[i].snd != target) && top.snd != target
    ensures forall i :: 0 <= i < |popped + [top]| ==> (popped + [top])[i].snd != target
  {
  }

  /** Popping a tuple from a queue of the search state keeps the state and
      yields an in-range node reached from the source, at or above its
      distance, with a non-negative distance. */
  lemma StateAfterPop(adj: seq<seq<Edge>>, source: int, pq: seq<Pair>, d: seq<ExtInt>, p: seq<int>,
                      top: Pair, pq': seq<Pair>)
    requires SearchState(adj, source, pq, d, p)
    requires top in pq && IsHeap(pq') && forall y :: y in pq' ==> y in pq
    ensures SearchState(adj, source, pq', d, p)
    ensures 0 <= top.snd < |adj| && top.fst >= 0 && Reaches(d[top.snd], top.fst)
    ensures Reachable(adj, source, top.snd)
  {
  }

  /** The set-up of `dijkstra`: every distance infinite but the source's,
      which is 0, no predecessors, and `pq == [(0, source)]`. */
  method Start(adjacencyList: seq<seq<Edge>>, source: int)
    returns (distances: seq<ExtInt>, predecessors: seq<int>, pq: seq<Pair>)
    requires 0 <= source < |adjacencyList|
    ensures SearchState(adjacencyList, source, pq, distances, predecessors)
    ensures |distances| == |adjacencyList| && forall v :: 0 <= v < |adjacencyList| ==> distances[v] == if v == source then Fin(0) else Inf
    ensures predecessors == seq(|adjacencyList|, _ => -1)
    ensures pq == [Pair(0, source)]
  {
    var numVertices := |adjacencyList|;
    distances := seq(numVertices, _ => Inf);
    predecessors := seq(numVertices, _ => -1);
    pq := [];

    distances := distances[source := Fin(0)];
    pq := HeapPush(pq, Pair(0, source));
    assert pq == [Pair(0, source)] by {
      assert |multiset(pq)| == 1;
    }
    assert IsEdgePath(adjacencyList, [source]);
  }

  /** The search part of `dijkstra` with lazy insertion: `distances` starts
      infinite except the source (0); each round pops the least
      `(dist, node)` tuple, stops at the target, and otherwise relaxes the
      popped node's edges (see RelaxEdges).  `popped` records the popped
      tuples in order and `rest` the tuples left in `pq`.  The first pop is
      `(0, source)`; no tuple before the last popped one is the target's, and
      the loop ends by popping the target or by draining `pq`.  Every popped
      non-target node has all its edges relaxed with its popped distance, and
      no popped or queued tuple is below its node's final distance.  A node
      has a predecessor exactly when it is not the source and its final
      distance is finite; predecessors are set along edges, and only at nodes
      reachable from the source. */
  method Search(adjacencyList: seq<seq<Edge>>, source: int, target: int)
    returns (distances: seq<ExtInt>, predecessors: seq<int>, ghost popped: seq<Pair>, ghost rest: seq<Pair>)
    requires EdgesInRange(adjacencyList) && NonNegativeWeights(adjacencyList)
    requires 0 <= source < |adjacencyList| && 0 <= target < |adjacencyList|
    ensures SearchState(adjacencyList, source, rest, distances, predecessors)
    ensures |popped| >= 1 && popped[0] == Pair(0, source)
    ensures forall i :: 0 <= i < |popped| - 1 ==> popped[i].snd != target
    ensures popped[|popped| - 1].snd == target || rest == []
    ensures PoppedFacts(adjacencyList, target, distances, popped)
    ensures Tracked(distances, rest, popped)
  {
    var pq;
    distances, predecessors, pq := Start(adjacencyList, source);
    popped := [];

    while pq != []
      invariant SearchState(adjacencyList, source, pq, distances, predecessors)
      invariant popped == [] ==> pq == [Pair(0, source)]
      invariant popped != [] ==> popped[0] == Pair(0, source)
      invariant forall i :: 0 <= i < |popped| ==> popped[i].snd != target
      invariant PoppedFacts(adjacencyList, target, distances, popped)
      invariant Tracked(distances, pq, popped)
      decreases CountInf(distances), SumFin(distances), |pq|
    {
      SumFinNonNegative(distances);
      var top;
      top, distances, predecessors, pq := Round(adjacencyList, source, target, distances, predecessors, pq, popped);
      if top.snd == target {
        popped := popped + [top];
        break;
      }
      NotTargetAppend(popped, top, target);
      popped := popped + [top];
      SumFinNonNegative(distances);
    }
    rest := pq;
  }

  /** What the search state says about the source, the queue and the
      predecessors. */
  lemma SearchStateFacts(adj: seq<seq<Edge>>, source: int, pq: seq<Pair>, d: seq<ExtInt>, p: seq<int>)
    requires SearchState(adj, source, pq, d, p)
    ensures |d| == |adj| && d[source] == Fin(0)
    ensures PredsMatch(source, d, p) && PredsAlongEdges(adj, p) && PredsFinite(d, p)
    ensures forall x :: x in pq ==> 0 <= x.snd < |adj| && Reaches(d[x.snd], x.fst)
    ensures forall v :: 0 <= v < |p| && p[v] != -1 ==> Reachable(adj, source, v)
  {
  }

  /** Once the queue is drained, every node with a finite distance was
      popped with that distance and so, unless it is the target, has all its
      edges relaxed with it: the distances are a fixpoint of relaxation. */
  lemma DrainedRelaxed(adj: seq<seq<Edge>>, target: int, d: seq<ExtInt>, popped: seq<Pair>)
    requires Tracked(d, [], popped) && PoppedFacts(adj, target, d, popped)
    ensures forall v :: 0 <= v < |d| && d[v].Fin? && v != target ==> Relaxed(adj, d, d[v].n, v)
  {
    forall v | 0 <= v < |d| && d[v].Fin? && v != target ensures Relaxed(adj, d, d[v].n, v) {
      var i :| 0 <= i < |popped| && popped[i] == Pair(d[v].n, v);
    }
  }

  /** The tail of `dijkstra`: the `while at != -1` walk back from the
      target along predecessor entries, reversed, and `path[1:-1]` of it.
      The walk follows edges; when it has two nodes or more, the target has a
      predecessor and so is reachable from the source. */
  method TraceSeam(adj: seq<seq<Edge>>, preds: seq<int>, target: int, ghost rank: seq<nat>, ghost source: int)
    returns (seam: seq<int>, path: seq<int>)
    requires RankedBy(adj, rank) && PredsAlongEdges(adj, preds) && 0 <= target < |adj|
    requires forall v :: 0 <= v < |preds| && preds[v] != -1 ==> Reachable(adj, source, v)
    ensures |path| >= 1 && path[|path| - 1] == target
    ensures IsEdgePath(adj, path)
    ensures preds[path[0]] == -1
    ensures forall i :: 0 <= i < |path| - 1 ==> preds[path[i + 1]] == path[i]
    ensures |path| >= 2 ==> Reachable(adj, source, target)
    ensures seam == Inner(path)
    ensures forall i :: 0 <= i < |seam| ==> 0 <= seam[i] < |adj|
  {
    PredsRankedAlongEdges(adj, preds, rank);
    path := TracePath(preds, target, rank);
    PathEndHasPred(preds, path);
    assert forall i :: 0 <= i < |path| - 1 ==> HasEdge(adj, path[i], path[i + 1]);
    seam := Inner(path);
  }

  /** `dijkstra`: the search (see Search), then the predecessor walk back
      from the target, reversed, and `path[1:-1]` of it. */
  method Dijkstra(adjacencyList: seq<seq<Edge>>, source: int, target: int, ghost rank: seq<nat>)
    returns (seam: seq<int>, ghost path: seq<int>, ghost preds: seq<int>,
             ghost popped: seq<Pair>, ghost dist: seq<ExtInt>, ghost rest: seq<Pair>)
    requires RankedBy(adjacencyList, rank) && NonNegativeWeights(adjacencyList)
    requires 0 <= source < |adjacencyList| && 0 <= target < |adjacencyList|
    ensures |dist| == |adjacencyList| && dist[source] == Fin(0)
    ensures PredsMatch(source, dist, preds)
    ensures |popped| >= 1 && popped[0] == Pair(0, source)
    ensures forall i :: 0 <= i < |popped| - 1 ==> popped[i].snd != target
    ensures popped[|popped| - 1].snd == target || rest == []
    ensures PoppedFacts(adjacencyList, target, dist, popped)
    ensures forall x :: x in rest ==> 0 <= x.snd < |adjacencyList| && Reaches(dist[x.snd], x.fst)
    ensures Tracked(dist, rest, popped)
    ensures rest == [] ==>
      forall v :: 0 <= v < |dist| && dist[v].Fin? && v != target ==> Relaxed(adjacencyList, dist, dist[v].n, v)
    ensures |path| >= 1 && path[|path| - 1] == target
    ensures IsEdgePath(adjacencyList, path)
    ensures PredsAlongEdges(adjacencyList, preds)
    ensures preds[path[0]] == -1
    ensures forall i :: 0 <= i < |path| - 1 ==> preds[path[i + 1]] == path[i]
    ensures |path| >= 2 ==> Reachable(adjacencyList, source, target) && path[0] == source
    ensures seam == Inner(path)
    ensures forall i :: 0 <= i < |seam| ==> 0 <= seam[i] < |adjacencyList|
  {
    var distances, predecessors;
    distances, predecessors, popped, rest := Search(adjacencyList, source, target);
    SearchStateFacts(adjacencyList, source, rest, distances, predecessors);
    dist := distances;

    seam, path := TraceSeam(adjacencyList, predecessors, target, rank, source);
    preds := predecessors;
    if |path| >= 2 {
      assert preds[path[1]] == path[0];
    }
    if rest == [] {
      DrainedRelaxed(adjacencyList, target, dist, popped);
    }
  }

  /** On the chain `0 -5-> 1 -0-> 2` with source 0 and target 2, whatever
      meets Dijkstra's contract traces the path `[0, 1, 2]` and the seam
      `[1]`. */
  lemma ChainExample(dist: seq<ExtInt>, preds: seq<int>, popped: seq<Pair>, rest: seq<Pair>, path: seq<int>, seam: seq<int>)
    requires |dist| == 3 && dist[0] == Fin(0)
    requires PredsMatch(0, dist, preds)
    requires |popped| >= 1 && popped[0] == Pair(0, 0)
    requires forall i :: 0 <= i < |popped| - 1 ==> popped[i].snd != 2
    requires popped[|popped| - 1].snd == 2 || rest == []
    requires PoppedFacts([[Edge(1, 5)], [Edge(2, 0)], []], 2, dist, popped)
    requires Tracked(dist, rest, popped)
    requires |path| >= 1 && path[|path| - 1] == 2
    requires IsEdgePath([[Edge(1, 5)], [Edge(2, 0)], []], path)
    requires PredsAlongEdges([[Edge(1, 5)], [Edge(2, 0)], []], preds)
    requires preds[path[0]] == -1
    requires forall i :: 0 <= i < |path| - 1 ==> preds[path[i + 1]] == path[i]
    requires seam == Inner(path)
    ensures path == [0, 1, 2] && seam == [1]
  {
    var adj := [[Edge(1, 5)], [Edge(2, 0)], []];
    assert Relaxed(adj, dist, 0, 0);
    assert adj[0][0].to == 1;
    assert dist[1].Fin?;
    assert dist[2].Fin? by {
      if popped[|popped| - 1].snd != 2 {
        assert Pair(dist[1].n, 1) in popped;
        var i :| 0 <= i < |popped| && popped[i] == Pair(dist[1].n, 1);
        assert Relaxed(adj, dist, dist[1].n, 1);
        assert adj[1][0].to == 2;
      }
    }
    assert preds[2] == 1 by { var k :| 0 <= k < |adj[preds[2]]| && adj[preds[2]][k].to == 2; }
    assert preds[1] == 0 by { var k :| 0 <= k < |adj[preds[1]]| && adj[preds[1]][k].to == 1; }
    assert preds[0] == -1;
    var n := |path|;
    assert preds[path[n - 1]] == 1;
    assert path[n - 2] == 1 && preds[path[n - 2]] == 0;
    assert path[n - 3] == 0 && preds[path[n - 3]] == -1;
    WalkStartsAtRoot(preds, path, n - 3);
  }

  /** `find_minimum_seam`: builds the grid graph, runs Dijkstra from the
      source to the target, maps every node of the trimmed path to its
      column, and raises ValueError exactly when the seam does not have
      `rows - 2` entries. */
  method FindMinimumSeam(image: seq<seq<int>>) returns (result: SeamResult, ghost path: seq<int>)
    requires IsGrid(image)
    ensures |path| >= 1 && path[|path| - 1] == Target(image)
    ensures IsEdgePath(GridAdjacency(image), path)
    ensures result.ValueError? <==> Max(|path| - 2, 0) != Rows(image) - 2
    ensures result.Seam? ==>
      && |result.columns| == Rows(image) - 2
      && (forall i :: 0 <= i < |result.columns| ==> result.columns[i] == path[i + 1] % Cols(image))
      && IsSeamShape(result.columns, Rows(image), Cols(image))
    ensures result.Seam? ==> forall i :: 0 <= i < |result.columns| ==> 0 <= result.columns[i] < Cols(image)
    ensures Rows(image) >= 2 ==> |path| == 1
    ensures Rows(image) >= 2 ==> (result.ValueError? <==> Rows(image) != 2) && (result.Seam? ==> result.columns == [])
  {
    var adjacencyList := GenerateAdjacencyList(image);
    var source := |adjacencyList| - 2;
    var target := |adjacencyList| - 1;
    GridWellFormed(image);
    var nodes;
    ghost var preds, popped, dist, rest;
    nodes, path, preds, popped, dist, rest := Dijkstra(adjacencyList, source, target, GridRank(image));
    if |image| >= 2 && |path| >= 2 {
      var p: seq<int> :| |p| >= 1 && p[0] == source && p[|p| - 1] == target && IsEdgePath(adjacencyList, p);
      SourceMissesTarget(image, p);
      assert false;
    }

    var rows := |image|;
    var cols := |image[0]|;
    var seam := Columns(nodes, cols);

    if |seam| != rows - 2 {
      return ValueError, path;
    }
    SeamShape(image, path);
    result := Seam(seam);
  }
}
