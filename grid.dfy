/** The graph that both `generate_adjacency_list` functions build from a
    rows x cols energy grid, stated node by node.  Pixel (r, c) is node
    r * cols + c; node rows * cols is the source and node rows * cols + 1 the
    target.  Every pixel below row 0 has three edges into the row ABOVE it
    (columns clamped into range, so border pixels get a duplicate), the
    source has an edge to each pixel of row 0, and each pixel of the last
    row has an edge to the target. */
module Grid {
  import opened Graph

  function Abs(x: int): nat {
    if x < 0 then -x else x
  }

  function Max(a: int, b: int): int {
    if a >= b then a else b
  }

  function Min(a: int, b: int): int {
    if a <= b then a else b
  }

  /** At least one row, at least one column, all rows the same length. */
  predicate IsGrid(image: seq<seq<int>>) {
    && |image| >= 1
    && |image[0]| >= 1
    && forall r :: 0 <= r < |image| ==> |image[r]| == |image[0]|
  }

  function Rows(image: seq<seq<int>>): nat {
    |image|
  }

  function Cols(image: seq<seq<int>>): nat
    requires |image| >= 1
  {
    |image[0]|
  }

  function PixelCount(image: seq<seq<int>>): nat
    requires |image| >= 1
  {
    Rows(image) * Cols(image)
  }

  function Source(image: seq<seq<int>>): nat
    requires |image| >= 1
  {
    PixelCount(image)
  }

  function Target(image: seq<seq<int>>): nat
    requires |image| >= 1
  {
    PixelCount(image) + 1
  }

  lemma MulMonotone(a: int, b: int, k: int)
    requires a <= b && k >= 0
    ensures a * k <= b * k
  {
    assert b * k - a * k == (b - a) * k;
  }

  /** Euclidean division by `cols` has exactly one quotient and remainder. */
  lemma DivModUnique(u: int, cols: int, q: int, m: int)
    requires cols > 0 && 0 <= m < cols && u == q * cols + m
    ensures u / cols == q && u % cols == m
  {
    var q', m' := u / cols, u % cols;
    assert u == q' * cols + m';
    if q' < q {
      MulMonotone(q' + 1, q, cols);
      assert false;
    } else if q < q' {
      MulMonotone(q + 1, q', cols);
      assert false;
    }
  }

  /** Pixel (r, c) is node r * cols + c, and that numbering is a bijection
      onto [0, rows * cols). */
  lemma PixelId(rows: int, cols: int, r: int, c: int)
    requires 0 <= r < rows && 0 <= c < cols
    ensures 0 <= r * cols + c < rows * cols
    ensures (r * cols + c) / cols == r && (r * cols + c) % cols == c
  {
    MulMonotone(0, r, cols);
    MulMonotone(r + 1, rows, cols);
    assert (r + 1) * cols == r * cols + cols;
    DivModUnique(r * cols + c, cols, r, c);
  }

  lemma PixelRowCol(rows: int, cols: int, u: int)
    requires 0 <= u < rows * cols && cols > 0
    ensures 0 <= u / cols < rows && 0 <= u % cols < cols
    ensures u == (u / cols) * cols + u % cols
  {
    var q := u / cols;
    assert u == q * cols + u % cols;
    if q < 0 {
      MulMonotone(q, -1, cols);
      assert false;
    }
    if q >= rows {
      MulMonotone(rows, q, cols);
      assert false;
    }
  }

  /** The out-edges of pixel (r, c), in insertion order. */
  function PixelEdges(image: seq<seq<int>>, r: int, c: int): seq<Edge>
    requires IsGrid(image) && 0 <= r < Rows(image) && 0 <= c < Cols(image)
  {
    var cols := Cols(image);
    var up := if r > 0 then
      [ Edge((r - 1) * cols + Max(c - 1, 0), Abs(image[r][c] - image[r - 1][Max(c - 1, 0)])),
        Edge((r - 1) * cols + c, Abs(image[r][c] - image[r - 1][c])),
        Edge((r - 1) * cols + Min(c + 1, cols - 1), Abs(image[r][c] - image[r - 1][Min(c + 1, cols - 1)])) ]
    else [];
    up + if r == Rows(image) - 1 then [Edge(Target(image), 0)] else []
  }

  /** The first `k` source edges: one zero-weight edge to each of pixels
      (0, 0) .. (0, k - 1). */
  function SourceEdges(k: nat): seq<Edge> {
    seq(k, c => Edge(c, 0))
  }

  function NodeEdges(image: seq<seq<int>>, u: int): seq<Edge>
    requires IsGrid(image) && 0 <= u <= Target(image)
  {
    if u < PixelCount(image) then
      PixelRowCol(Rows(image), Cols(image), u);
      PixelEdges(image, u / Cols(image), u % Cols(image))
    else if u == Source(image) then SourceEdges(Cols(image))
    else []
  }

  /** The whole adjacency list, one slot per node. */
  function GridAdjacency(image: seq<seq<int>>): seq<seq<Edge>>
    requires IsGrid(image)
  {
    seq(Target(image) + 1, u requires 0 <= u <= Target(image) => NodeEdges(image, u))
  }

  /** Source first, then rows from the last up to row 0, then the target:
      every edge climbs in this rank. */
  function GridRank(image: seq<seq<int>>): seq<nat>
    requires IsGrid(image)
  {
    seq(Target(image) + 1, u requires 0 <= u <= Target(image) =>
      if u < PixelCount(image) then Rows(image) - u / Cols(image)
      else if u == Source(image) then 0
      else Rows(image) + 1)
  }

  /** The list has rows * cols + 2 slots; pixel (r, c) sits in slot
      r * cols + c, the source's slot lists row 0 and the target's is empty. */
  lemma GridLayout(image: seq<seq<int>>, r: int, c: int)
    requires IsGrid(image) && 0 <= r < Rows(image) && 0 <= c < Cols(image)
    ensures |GridAdjacency(image)| == Rows(image) * Cols(image) + 2
    ensures 0 <= r * Cols(image) + c < PixelCount(image)
    ensures GridAdjacency(image)[r * Cols(image) + c] == PixelEdges(image, r, c)
    ensures GridAdjacency(image)[Source(image)] == SourceEdges(Cols(image))
    ensures GridAdjacency(image)[Target(image)] == []
  {
    PixelId(Rows(image), Cols(image), r, c);
  }

  /** A pixel below row 0 starts with exactly three edges, `j = 0, 1, 2`,
      into row `r - 1` at columns `c - 1`, `c`, `c + 1`, where a column
      outside the grid is replaced by `c`; each is weighted by the absolute
      energy difference with the pixel it reaches, so a border pixel's
      clamped edge repeats the middle one.  A last-row pixel ends with a
      zero-weight edge to the target, and there are no other edges. */
  lemma PixelEdgeShape(image: seq<seq<int>>, r: int, c: int)
    requires IsGrid(image) && 0 <= r < Rows(image) && 0 <= c < Cols(image)
    ensures var es := PixelEdges(image, r, c);
      var cols := Cols(image);
      && |es| == (if r > 0 then 3 else 0) + (if r == Rows(image) - 1 then 1 else 0)
      && (r > 0 ==> forall j :: 0 <= j < 3 ==>
           && es[j].to / cols == r - 1
           && es[j].to % cols == (if 0 <= c + j - 1 < cols then c + j - 1 else c)
           && es[j].weight == Abs(image[r][c] - image[r - 1][es[j].to % cols]))
      && (r > 0 && c == 0 ==> es[0] == es[1])
      && (r > 0 && c == cols - 1 ==> es[1] == es[2])
      && (r == Rows(image) - 1 ==> es[|es| - 1] == Edge(Target(image), 0))
  {
    var es, cols := PixelEdges(image, r, c), Cols(image);
    if r > 0 {
      forall j | 0 <= j < 3
        ensures es[j].to / cols == r - 1
        ensures es[j].to % cols == (if 0 <= c + j - 1 < cols then c + j - 1 else c)
        ensures es[j].weight == Abs(image[r][c] - image[r - 1][es[j].to % cols])
      {
        var c' := if 0 <= c + j - 1 < cols then c + j - 1 else c;
        PixelId(Rows(image), cols, r - 1, c');
        assert es[j].to == (r - 1) * cols + c';
      }
    }
  }

  /** No other edges exist: every edge is a source edge into row 0, one of
      the three upward edges of a pixel below row 0, or the target edge of a
      last-row pixel. */
  lemma EdgeKinds(image: seq<seq<int>>, u: int, k: int)
    requires IsGrid(image) && 0 <= u < |GridAdjacency(image)| && 0 <= k < |GridAdjacency(image)[u]|
    ensures u < PixelCount(image) ==> 0 <= u / Cols(image) < Rows(image) && 0 <= u % Cols(image) < Cols(image)
    ensures var e := GridAdjacency(image)[u][k];
      var cols := Cols(image);
      || (u == Source(image) && e == Edge(k, 0) && k < cols)
      || (u < PixelCount(image) && u / cols > 0 && k < 3 &&
          var r, c := u / cols, u % cols;
          var c' := if k == 0 then Max(c - 1, 0) else if k == 1 then c else Min(c + 1, cols - 1);
          0 <= c' < cols && e == Edge((r - 1) * cols + c', Abs(image[r][c] - image[r - 1][c'])))
      || (u < PixelCount(image) && u / cols == Rows(image) - 1 && k == |GridAdjacency(image)[u]| - 1 &&
          e == Edge(Target(image), 0))
  {
    if u < PixelCount(image) {
      PixelRowCol(Rows(image), Cols(image), u);
    }
  }

  /** Every edge stays inside the list, carries a weight of at least zero,
      and climbs in `GridRank`; so the graph is acyclic. */
  lemma GridWellFormed(image: seq<seq<int>>)
    requires IsGrid(image)
    ensures RankedBy(GridAdjacency(image), GridRank(image))
    ensures NonNegativeWeights(GridAdjacency(image))
  {
    var adj: seq<seq<Edge>>, rank: seq<nat> := GridAdjacency(image), GridRank(image);
    var rows, cols := Rows(image), Cols(image);
    forall u, k | 0 <= u < |adj| && 0 <= k < |adj[u]|
      ensures 0 <= adj[u][k].to < |adj| && rank[u] < rank[adj[u][k].to] && adj[u][k].weight >= 0
    {
      EdgeKinds(image, u, k);
      var e: Edge := adj[u][k];
      if u == Source(image) {
        PixelId(rows, cols, 0, k);
      } else if u < PixelCount(image) && e.to != Target(image) {
        PixelRowCol(rows, cols, u);
        var r, c := u / cols, u % cols;
        var c' := e.to - (r - 1) * cols;
        PixelId(rows, cols, r - 1, c');
      }
    }
  }

  /** An edge between two pixels goes exactly one row up and at most one
      column sideways. */
  lemma PixelStep(image: seq<seq<int>>, u: int, v: int)
    requires IsGrid(image) && 0 <= u < PixelCount(image) && 0 <= v < PixelCount(image)
    requires HasEdge(GridAdjacency(image), u, v)
    ensures v / Cols(image) == u / Cols(image) - 1
    ensures Abs(u % Cols(image) - v % Cols(image)) <= 1
  {
    var adj: seq<seq<Edge>> := GridAdjacency(image);
    var k :| 0 <= k < |adj[u]| && adj[u][k].to == v;
    EdgeKinds(image, u, k);
    var cols := Cols(image);
    var r, c := u / cols, u % cols;
    var c' := if k == 0 then Max(c - 1, 0) else if k == 1 then c else Min(c + 1, cols - 1);
    PixelId(Rows(image), cols, r - 1, c');
  }

  /** Ranks climb by at least one along each edge of a path. */
  lemma {:induction false} RankClimbs(adj: seq<seq<Edge>>, rank: seq<nat>, path: seq<int>, i: int)
    requires RankedBy(adj, rank) && IsEdgePath(adj, path) && 0 <= i < |path|
    ensures rank[path[i]] >= rank[path[0]] + i
  {
    if i > 0 {
      RankClimbs(adj, rank, path, i - 1);
      var k :| 0 <= k < |adj[path[i - 1]]| && adj[path[i - 1]][k].to == path[i];
    }
  }

  /** A path of grid edges that ends at the target visits at most one node
      per rank, so it has at most rows + 2 nodes; its interior nodes are
      pixels, and the columns of consecutive interior nodes differ by at most
      one. */
  lemma SeamShape(image: seq<seq<int>>, path: seq<int>)
    requires IsGrid(image) && IsEdgePath(GridAdjacency(image), path)
    requires |path| >= 1 && path[|path| - 1] == Target(image)
    ensures |path| <= Rows(image) + 2
    ensures forall i :: 0 < i < |path| - 1 ==> 0 <= path[i] < PixelCount(image)
    ensures forall i :: 0 < i < |path| - 2 ==> Abs(path[i] % Cols(image) - path[i + 1] % Cols(image)) <= 1
  {
    var adj: seq<seq<Edge>>, rank: seq<nat> := GridAdjacency(image), GridRank(image);
    GridWellFormed(image);
    RankClimbs(adj, rank, path, |path| - 1);
    forall i | 0 < i < |path| - 1 ensures 0 <= path[i] < PixelCount(image) {
      RankClimbs(adj, rank, path, i);
      var k :| 0 <= k < |adj[path[i]]| && adj[path[i]][k].to == path[i + 1];
    }
    forall i | 0 < i < |path| - 2
      ensures Abs(path[i] % Cols(image) - path[i + 1] % Cols(image)) <= 1
    {
      RankClimbs(adj, rank, path, i);
      RankClimbs(adj, rank, path, i + 1);
      var k :| 0 <= k < |adj[path[i + 1]]| && adj[path[i + 1]][k].to == path[i + 2];
      PixelStep(image, path[i], path[i + 1]);
    }
  }

  /** Once the grid has two rows or more, a row-0 pixel has no edges. */
  lemma TopRowIsolated(image: seq<seq<int>>, c: int)
    requires IsGrid(image) && Rows(image) >= 2 && 0 <= c < Cols(image)
    ensures GridAdjacency(image)[c] == []
    ensures forall v :: !HasEdge(GridAdjacency(image), c, v)
  {
    GridLayout(image, 0, c);
    assert 0 * Cols(image) + c == c;
  }

  /** Edges point upward while the source feeds row 0: once the grid has
      two rows or more, no path of grid edges leads from the source to the
      target (the source's neighbours, in row 0, have no edges at all). */
  lemma SourceMissesTarget(image: seq<seq<int>>, path: seq<int>)
    requires IsGrid(image) && Rows(image) >= 2
    requires IsEdgePath(GridAdjacency(image), path) && |path| >= 1 && path[0] == Source(image)
    ensures path[|path| - 1] != Target(image)
    ensures |path| <= 2
  {
    var adj: seq<seq<Edge>> := GridAdjacency(image);
    if |path| >= 2 {
      GridLayout(image, 0, 0);
      var k :| 0 <= k < |adj[path[0]]| && adj[path[0]][k].to == path[1];
      assert path[1] == k < Cols(image);
      assert |path| < 3 || HasEdge(adj, path[1], path[2]);
      TopRowIsolated(image, k);
    }
  }

  /** The list a row-major build holds after its first `done` pixels, with
      `sourceCount` edges in the source's slot so far. */
  ghost function Built(image: seq<seq<int>>, done: int, sourceCount: nat): seq<seq<Edge>>
    requires IsGrid(image) && 0 <= done <= PixelCount(image)
  {
    seq(Target(image) + 1, x requires 0 <= x <= Target(image) =>
      if x < done then NodeEdges(image, x)
      else if x == Source(image) then SourceEdges(sourceCount)
      else [])
  }

  lemma SourceEdgesGrow(k: nat)
    ensures SourceEdges(k) + [Edge(k, 0)] == SourceEdges(k + 1)
  {
    assert forall i :: 0 <= i <= k ==> (SourceEdges(k) + [Edge(k, 0)])[i] == SourceEdges(k + 1)[i];
  }

  lemma BuiltEmpty(image: seq<seq<int>>)
    requires IsGrid(image)
    ensures Built(image, 0, 0) == seq(PixelCount(image) + 2, _ => [])
  {
    var a, b := Built(image, 0, 0), seq(PixelCount(image) + 2, _ => []);
    assert |a| == |b|;
    forall x | 0 <= x < |a| ensures a[x] == b[x] {
      if x == Source(image) {
        assert SourceEdges(0) == [];
      }
    }
  }

  /** Appending pixel `u`'s edges to its slot, and its source edge when it
      is in row 0, moves the partial list on by one pixel. */
  lemma BuiltNext(image: seq<seq<int>>, adj: seq<seq<Edge>>, adj': seq<seq<Edge>>, u: int, r: int, c: int,
                  sourceCount: nat)
    requires IsGrid(image) && 0 <= r < Rows(image) && 0 <= c < Cols(image)
    requires 0 <= u < PixelCount(image) && u / Cols(image) == r && u % Cols(image) == c
    requires r == 0 ==> sourceCount == c && u == c
    requires adj == Built(image, u, sourceCount)
    requires adj' == adj[u := adj[u] + PixelEdges(image, r, c)]
                        [Source(image) := if r == 0 then adj[Source(image)] + [Edge(u, 0)] else adj[Source(image)]]
    ensures adj' == Built(image, u + 1, if r == 0 then sourceCount + 1 else sourceCount)
  {
    BuiltStep(image, u, r, c, sourceCount);
    assert adj[u] + PixelEdges(image, r, c) == PixelEdges(image, r, c);
  }

  /** Handling node `u`, pixel (r, c), the next one in row-major order,
      fills its slot and, in row 0, appends its edge to the source's slot. */
  lemma BuiltStep(image: seq<seq<int>>, u: int, r: int, c: int, sourceCount: nat)
    requires IsGrid(image) && 0 <= r < Rows(image) && 0 <= c < Cols(image)
    requires 0 <= u < PixelCount(image) && u / Cols(image) == r && u % Cols(image) == c
    requires r == 0 ==> sourceCount == c && u == c
    ensures var before := Built(image, u, sourceCount);
      var src := before[Source(image)];
      && before[u] == []
      && before[u := PixelEdges(image, r, c)][Source(image) := if r == 0 then src + [Edge(u, 0)] else src]
         == Built(image, u + 1, if r == 0 then sourceCount + 1 else sourceCount)
  {
    var before := Built(image, u, sourceCount);
    var after := Built(image, u + 1, if r == 0 then sourceCount + 1 else sourceCount);
    var src := before[Source(image)];
    var next := before[u := PixelEdges(image, r, c)][Source(image) := if r == 0 then src + [Edge(u, 0)] else src];
    assert |next| == |after|;
    forall x | 0 <= x < |next| ensures next[x] == after[x] {
      if x == Source(image) && r == 0 {
        assert src == SourceEdges(sourceCount);
        SourceEdgesGrow(sourceCount);
      }
    }
  }

  lemma BuiltAll(image: seq<seq<int>>)
    requires IsGrid(image)
    ensures Built(image, PixelCount(image), Cols(image)) == GridAdjacency(image)
  {
  }

  /** The output contract of a seam: at most `rows` entries, each a column,
      consecutive entries at most one column apart. */
  ghost predicate IsSeamShape(seam: seq<int>, rows: int, cols: int) {
    && |seam| <= rows
    && (forall i :: 0 <= i < |seam| ==> 0 <= seam[i] < cols)
    && (forall i :: 0 <= i < |seam| - 1 ==> Abs(seam[i] - seam[i + 1]) <= 1)
  }
}
