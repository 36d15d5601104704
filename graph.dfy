/** Adjacency lists as both programs store them: slot `u` of the outer list
    holds the out-edges of node `u`, each a target node and a weight, in
    insertion order (duplicates kept).  Also the predecessor walk that both
    `dijkstra` functions use to rebuild a path from `target`. */
module Graph {

  datatype Edge = Edge(to: int, weight: int)

  /** Every edge points at a node of the list. */
  predicate EdgesInRange(adj: seq<seq<Edge>>) {
    forall u, k :: 0 <= u < |adj| && 0 <= k < |adj[u]| ==> 0 <= adj[u][k].to < |adj|
  }

  ghost predicate NonNegativeWeights(adj: seq<seq<Edge>>) {
    forall u, k :: 0 <= u < |adj| && 0 <= k < |adj[u]| ==> adj[u][k].weight >= 0
  }

  /** Some edge of node `u` leads to `v`. */
  ghost predicate HasEdge(adj: seq<seq<Edge>>, u: int, v: int)
    requires 0 <= u < |adj|
  {
    exists k :: 0 <= k < |adj[u]| && adj[u][k].to == v
  }

  /** `rank` strictly increases along every edge, so the graph has no cycle. */
  ghost predicate RankedBy(adj: seq<seq<Edge>>, rank: seq<nat>) {
    && |rank| == |adj|
    && EdgesInRange(adj)
    && forall u, k :: 0 <= u < |adj| && 0 <= k < |adj[u]| ==> rank[u] < rank[adj[u][k].to]
  }

  /** Each predecessor entry is -1 or a node with an edge to its slot. */
  ghost predicate PredsAlongEdges(adj: seq<seq<Edge>>, preds: seq<int>) {
    && |preds| == |adj|
    && forall v :: 0 <= v < |adj| ==> preds[v] == -1 || (0 <= preds[v] < |adj| && HasEdge(adj, preds[v], v))
  }

  /** Each predecessor entry is -1 or a node of smaller rank. */
  ghost predicate PredsRanked(preds: seq<int>, rank: seq<nat>) {
    && |rank| == |preds|
    && forall v :: 0 <= v < |preds| ==> preds[v] == -1 || (0 <= preds[v] < |preds| && rank[preds[v]] < rank[v])
  }

  /** Every node of `path` is a node of the list and each consecutive pair
      is joined by an edge. */
  ghost predicate IsEdgePath(adj: seq<seq<Edge>>, path: seq<int>) {
    && (forall i :: 0 <= i < |path| ==> 0 <= path[i] < |adj|)
    && (forall i :: 0 <= i < |path| - 1 ==> HasEdge(adj, path[i], path[i + 1]))
  }

  /** A path of two or more nodes that follows predecessor entries ends at
      a node with a predecessor. */
  lemma PathEndHasPred(preds: seq<int>, path: seq<int>)
    requires |path| >= 1 && forall i :: 0 <= i < |path| ==> 0 <= path[i] < |preds|
    requires forall i :: 0 <= i < |path| - 1 ==> preds[path[i + 1]] == path[i]
    ensures |path| >= 2 ==> preds[path[|path| - 1]] == path[|path| - 2] >= 0
  {
  }

  /** On a path that follows predecessor entries, only the first node can
      lack a predecessor. */
  lemma WalkStartsAtRoot(preds: seq<int>, path: seq<int>, j: int)
    requires forall i :: 0 <= i < |path| ==> 0 <= path[i] < |preds|
    requires forall i :: 0 <= i < |path| - 1 ==> preds[path[i + 1]] == path[i]
    requires 0 <= j < |path| && preds[path[j]] == -1
    ensures j == 0
  {
    forall i | 1 <= i < |path| ensures preds[path[i]] >= 0 {
      assert preds[path[(i - 1) + 1]] == path[i - 1];
    }
  }

  lemma PredsRankedAlongEdges(adj: seq<seq<Edge>>, preds: seq<int>, rank: seq<nat>)
    requires RankedBy(adj, rank) && PredsAlongEdges(adj, preds)
    ensures PredsRanked(preds, rank)
  {
    forall v | 0 <= v < |preds| && preds[v] != -1
      ensures 0 <= preds[v] < |preds| && rank[preds[v]] < rank[v]
    {
      var k :| 0 <= k < |adj[preds[v]]| && adj[preds[v]][k].to == v;
    }
  }

  /** Some edge path leads from `s` to `v`. */
  ghost predicate Reachable(adj: seq<seq<Edge>>, s: int, v: int) {
    exists p: seq<int> :: |p| >= 1 && p[0] == s && p[|p| - 1] == v && IsEdgePath(adj, p)
  }

  /** Extending a path by one edge. */
  lemma ReachStep(adj: seq<seq<Edge>>, s: int, u: int, v: int)
    requires 0 <= u < |adj| && 0 <= v < |adj| && Reachable(adj, s, u) && HasEdge(adj, u, v)
    ensures Reachable(adj, s, v)
  {
    var p: seq<int> :| |p| >= 1 && p[0] == s && p[|p| - 1] == u && IsEdgePath(adj, p);
    var q := p + [v];
    assert forall i :: 0 <= i < |q| - 1 ==> HasEdge(adj, q[i], q[i + 1]) by {
      forall i | 0 <= i < |q| - 1 ensures HasEdge(adj, q[i], q[i + 1]) {
        if i < |p| - 1 {
          assert q[i] == p[i] && q[i + 1] == p[i + 1];
        }
      }
    }
    assert IsEdgePath(adj, q);
  }

  /** `std::reverse` / `list.reverse` on a path. */
  function Reverse(s: seq<int>): (r: seq<int>)
    ensures |r| == |s|
    ensures forall i :: 0 <= i < |s| ==> r[i] == s[|s| - 1 - i]
  {
    if |s| == 0 then [] else [s[|s| - 1]] + Reverse(s[..|s| - 1])
  }

  /** Follows predecessor links from `target` until -1 and reverses the walk
      (seam_carving.cpp `dijkstra`, python.py `dijkstra`).  The result ends at
      `target`, starts at a node without predecessor, and each node is the
      predecessor of the next. */
  method TracePath(preds: seq<int>, target: int, ghost rank: seq<nat>) returns (path: seq<int>)
    requires 0 <= target < |preds|
    requires PredsRanked(preds, rank)
    ensures |path| >= 1 && path[|path| - 1] == target
    ensures forall i :: 0 <= i < |path| ==> 0 <= path[i] < |preds|
    ensures preds[path[0]] == -1
    ensures forall i :: 0 <= i < |path| - 1 ==> preds[path[i + 1]] == path[i]
  {
    var walk: seq<int> := [];
    var at := target;
    while at != -1
      invariant at == -1 || 0 <= at < |preds|
      invariant walk == [] ==> at == target
      invariant forall i :: 0 <= i < |walk| ==> 0 <= walk[i] < |preds|
      invariant walk != [] ==> walk[0] == target && preds[walk[|walk| - 1]] == at
      invariant forall i :: 0 <= i < |walk| - 1 ==> preds[walk[i]] == walk[i + 1]
      decreases if at == -1 then 0 else rank[at] + 1
    {
      walk := walk + [at];
      at := preds[at];
    }
    path := Reverse(walk);
  }
}
