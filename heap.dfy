/** Binary heaps stored in a sequence, ordered lexicographically on pairs of
    integers.  Both programs use this order: the C++ MinHeap keeps
    `pair<int,int>{node, score}` under `std::greater<>` (a min-heap on the pair),
    and Python's heapq keeps `(dist, node)` tuples.  Slot `i` has its parent at
    slot `(i - 1) / 2`, as in libstdc++ and heapq.  The sift methods below stand
    for `make_heap`, `pop_heap`, `push_heap`, `heappush` and `heappop`; their
    contracts are the heap postconditions of the C++ standard, not a layout. */
module Heap {

  datatype Pair = Pair(fst: int, snd: int)

  /** Lexicographic `a <= b`, the negation of `std::greater<>()(a, b)`. */
  predicate LexLe(a: Pair, b: Pair) {
    a.fst < b.fst || (a.fst == b.fst && a.snd <= b.snd)
  }

  /** Lexicographic `a < b`. */
  predicate LexLt(a: Pair, b: Pair) {
    a.fst < b.fst || (a.fst == b.fst && a.snd < b.snd)
  }

  function Parent(i: int): int
    requires i > 0
  {
    (i - 1) / 2
  }

  /** Every slot `j` with `0 < j < n` is no smaller than its parent. */
  ghost predicate HeapPrefix(s: seq<Pair>, n: int)
    requires n <= |s|
  {
    forall j :: 0 < j < n ==> LexLe(s[Parent(j)], s[j])
  }

  ghost predicate IsHeap(s: seq<Pair>) {
    HeapPrefix(s, |s|)
  }

  /** No two entries share a first component. */
  ghost predicate DistinctFirsts(s: seq<Pair>) {
    forall i, j :: 0 <= i < j < |s| ==> s[i].fst != s[j].fst
  }

  lemma LexLeTrans(a: Pair, b: Pair, c: Pair)
    requires LexLe(a, b) && LexLe(b, c)
    ensures LexLe(a, c)
  {
  }

  /** The root of a heap is no larger than the entry in slot `j`. */
  lemma {:induction false} RootLe(s: seq<Pair>, j: int)
    requires IsHeap(s) && 0 <= j < |s|
    ensures LexLe(s[0], s[j])
    decreases j
  {
    if j > 0 {
      RootLe(s, Parent(j));
      LexLeTrans(s[0], s[Parent(j)], s[j]);
    }
  }

  /** The root of a non-empty heap is its least entry. */
  lemma RootIsLeast(s: seq<Pair>)
    requires IsHeap(s) && |s| > 0
    ensures forall x :: x in s ==> LexLe(s[0], x)
  {
    forall x | x in s ensures LexLe(s[0], x) {
      var j :| 0 <= j < |s| && s[j] == x;
      RootLe(s, j);
    }
  }

  /** The first `n` slots of a sequence whose first `n` slots are in heap
      order form a heap on their own. */
  lemma PrefixIsHeap(s: seq<Pair>, n: int)
    requires 0 <= n <= |s| && HeapPrefix(s, n)
    ensures IsHeap(s[..n])
  {
    forall j | 0 < j < n ensures LexLe(s[..n][Parent(j)], s[..n][j]) {
    }
  }

  lemma {:induction false} DistinctCountAtMostOne(s: seq<Pair>, x: Pair)
    requires DistinctFirsts(s)
    ensures multiset(s)[x] <= 1
  {
    if s != [] {
      var last := |s| - 1;
      assert s == s[..last] + [s[last]];
      DistinctCountAtMostOne(s[..last], x);
      if s[last] == x {
        assert x !in s[..last];
      }
    }
  }

  lemma RepeatedCountAtLeastTwo(s: seq<Pair>, i: int, j: int)
    requires 0 <= i < j < |s| && s[i] == s[j]
    ensures multiset(s)[s[i]] >= 2
  {
    assert s == s[..j] + s[j..];
    assert s[i] in s[..j];
    assert s[j] in s[j..];
  }

  /** Two sequences with the same entries agree on whether their first
      components are distinct. */
  lemma DistinctFirstsPermutation(a: seq<Pair>, b: seq<Pair>)
    requires multiset(a) == multiset(b) && DistinctFirsts(a)
    ensures DistinctFirsts(b)
  {
    forall i, j | 0 <= i < j < |b| ensures b[i].fst != b[j].fst {
      if b[i].fst == b[j].fst {
        assert b[i] in multiset(a) && b[j] in multiset(a);
        if b[i] == b[j] {
          RepeatedCountAtLeastTwo(b, i, j);
          DistinctCountAtMostOne(a, b[i]);
          assert false;
        } else {
          var i' :| 0 <= i' < |a| && a[i'] == b[i];
          assert false;
        }
      }
    }
  }

  /** When first components are distinct, the order between two entries is
      decided by their first components alone, so replacing the second
      component of any slot keeps a heap a heap. */
  lemma SetSndKeepsHeap(s: seq<Pair>, pos: int, score: int)
    requires IsHeap(s) && DistinctFirsts(s) && 0 <= pos < |s|
    ensures IsHeap(s[pos := Pair(s[pos].fst, score)])
    ensures DistinctFirsts(s[pos := Pair(s[pos].fst, score)])
  {
    var t := s[pos := Pair(s[pos].fst, score)];
    forall j | 0 < j < |t| ensures LexLe(t[Parent(j)], t[j]) {
      assert s[Parent(j)].fst != s[j].fst;
    }
  }

  /** Exchanges two slots. */
  function Swap(s: seq<Pair>, i: int, j: int): (r: seq<Pair>)
    requires 0 <= i < |s| && 0 <= j < |s|
    ensures |r| == |s| && r[i] == s[j] && r[j] == s[i]
    ensures forall k :: 0 <= k < |s| && k != i && k != j ==> r[k] == s[k]
    ensures multiset(r) == multiset(s)
  {
    s[i := s[j]][j := s[i]]
  }

  /** The state of an upward sift of slot `k` that has reached slot `i`:
      only the edge from `i` to its parent may be out of order, and the
      parent of `i` is no larger than the children of `i`. */
  ghost predicate UpInv(b: seq<Pair>, k: int, i: int) {
    && 0 <= i <= k < |b|
    && (forall j :: 0 < j <= k && j != i ==> LexLe(b[Parent(j)], b[j]))
    && (i > 0 ==> forall j :: 0 < j <= k && Parent(j) == i ==> LexLe(b[Parent(i)], b[j]))
  }

  lemma UpStep(b: seq<Pair>, k: int, i: int)
    requires UpInv(b, k, i) && i > 0 && LexLt(b[i], b[Parent(i)])
    ensures UpInv(Swap(b, i, Parent(i)), k, Parent(i))
  {
    var p := Parent(i);
    var b' := Swap(b, i, p);
    forall j | 0 < j <= k && j != p ensures LexLe(b'[Parent(j)], b'[j]) {
      if j == i {
      } else if Parent(j) == i {
        assert LexLe(b[p], b[j]);
      } else if Parent(j) == p {
        LexLeTrans(b[i], b[p], b[j]);
      }
    }
    if p > 0 {
      forall j | 0 < j <= k && Parent(j) == p ensures LexLe(b'[Parent(p)], b'[j]) {
        assert LexLe(b[Parent(p)], b[p]);
        if j != i {
          LexLeTrans(b[Parent(p)], b[p], b[j]);
        }
      }
    }
  }

  lemma UpDone(b: seq<Pair>, k: int, i: int)
    requires UpInv(b, k, i) && (i == 0 || !LexLt(b[i], b[Parent(i)]))
    ensures HeapPrefix(b, k + 1)
  {
  }

  /** `std::push_heap(first, first + k + 1)`: the entries before slot `k` form a
      heap; the entry in slot `k` is moved towards the root until slots
      `[0, k]` form a heap.  Slots after `k` are left alone, and a prefix that
      is already a heap is not touched at all. */
  method SiftUp(a: seq<Pair>, k: int) returns (b: seq<Pair>)
    requires 0 <= k < |a|
    requires HeapPrefix(a, k)
    ensures |b| == |a| && HeapPrefix(b, k + 1)
    ensures multiset(b) == multiset(a)
    ensures forall j :: k < j < |a| ==> b[j] == a[j]
    ensures HeapPrefix(a, k + 1) ==> b == a
  {
    b := a;
    var i := k;
    while i > 0 && LexLt(b[i], b[Parent(i)])
      invariant UpInv(b, k, i) && |b| == |a|
      invariant multiset(b) == multiset(a)
      invariant forall j :: k < j < |a| ==> b[j] == a[j]
      invariant HeapPrefix(a, k + 1) ==> b == a
      decreases i
    {
      UpStep(b, k, i);
      b := Swap(b, i, Parent(i));
      i := Parent(i);
    }
    UpDone(b, k, i);
  }

  lemma ParentOfChild(i: int, j: int)
    requires i >= 0 && j > 0
    ensures Parent(j) == i <==> (j == 2 * i + 1 || j == 2 * i + 2)
  {
  }

  /** The state of a downward sift from `start` that has reached slot `i`:
      only the edges from `i` to its children may be out of order, and the
      parent of `i` is no larger than the children of `i`. */
  ghost predicate DownInv(b: seq<Pair>, start: int, n: int, i: int) {
    && 0 <= start <= i < n <= |b|
    && (i == start || Parent(i) >= start)
    && (forall j :: 0 < j < n && Parent(j) >= start && Parent(j) != i ==> LexLe(b[Parent(j)], b[j]))
    && (i > start ==> forall j :: 0 < j < n && Parent(j) == i ==> LexLe(b[Parent(i)], b[j]))
  }

  lemma DownStep(b: seq<Pair>, start: int, n: int, i: int, c: int)
    requires DownInv(b, start, n, i)
    requires (c == 2 * i + 1 || c == 2 * i + 2) && c < n
    requires LexLt(b[c], b[i])
    requires forall k :: (k == 2 * i + 1 || k == 2 * i + 2) && k < n ==> LexLe(b[c], b[k])
    ensures DownInv(Swap(b, i, c), start, n, c)
  {
    var b' := Swap(b, i, c);
    ParentOfChild(i, c);
    forall j | 0 < j < n && Parent(j) >= start && Parent(j) != c
      ensures LexLe(b'[Parent(j)], b'[j])
    {
      ParentOfChild(i, j);
      ParentOfChild(c, j);
      if j == c {
      } else if Parent(j) == i {
        assert LexLe(b[c], b[j]);
      } else if j == i {
        assert LexLe(b[Parent(i)], b[c]);
      } else {
      }
    }
    forall j | 0 < j < n && Parent(j) == c
      ensures LexLe(b'[Parent(c)], b'[j])
    {
      ParentOfChild(c, j);
      assert LexLe(b[c], b[j]);
    }
  }

  lemma DownDone(b: seq<Pair>, start: int, n: int, i: int)
    requires DownInv(b, start, n, i)
    requires forall k :: (k == 2 * i + 1 || k == 2 * i + 2) && k < n ==> LexLe(b[i], b[k])
    ensures forall j :: 0 < j < n && Parent(j) >= start ==> LexLe(b[Parent(j)], b[j])
  {
    forall j | 0 < j < n && Parent(j) >= start
      ensures LexLe(b[Parent(j)], b[j])
    {
      ParentOfChild(i, j);
    }
  }

  /** The smaller child of slot `i` among the first `n` slots. */
  function MinChild(b: seq<Pair>, i: int, n: int): (c: int)
    requires 0 <= i && 2 * i + 1 < n <= |b|
    ensures (c == 2 * i + 1 || c == 2 * i + 2) && c < n
    ensures forall k :: (k == 2 * i + 1 || k == 2 * i + 2) && k < n ==> LexLe(b[c], b[k])
  {
    if 2 * i + 2 < n && LexLt(b[2 * i + 2], b[2 * i + 1]) then 2 * i + 2 else 2 * i + 1
  }

  /** Moves the entry in slot `start` down until every slot in `[start, n)`
      is no smaller than its parent, given that this held for every slot in
      `[0, n)` whose parent lies after `start`.  Slots before `start` and from
      `n` on are left alone. */
  method SiftDown(a: seq<Pair>, start: int, n: int) returns (b: seq<Pair>)
    requires 0 <= start < n <= |a|
    requires forall j :: 0 < j < n && Parent(j) > start ==> LexLe(a[Parent(j)], a[j])
    ensures |b| == |a|
    ensures forall j :: 0 < j < n && Parent(j) >= start ==> LexLe(b[Parent(j)], b[j])
    ensures multiset(b) == multiset(a)
    ensures forall j :: 0 <= j < start ==> b[j] == a[j]
    ensures forall j :: n <= j < |a| ==> b[j] == a[j]
  {
    b := a;
    var i := start;
    while 2 * i + 1 < n && LexLt(b[MinChild(b, i, n)], b[i])
      invariant DownInv(b, start, n, i) && |b| == |a|
      invariant multiset(b) == multiset(a)
      invariant forall j :: 0 <= j < start ==> b[j] == a[j]
      invariant forall j :: n <= j < |a| ==> b[j] == a[j]
      decreases n - i
    {
      var c := MinChild(b, i, n);
      DownStep(b, start, n, i, c);
      b := Swap(b, i, c);
      i := c;
    }
    if 2 * i + 1 < n {
      var c := MinChild(b, i, n);
      assert forall k :: (k == 2 * i + 1 || k == 2 * i + 2) && k < n ==> LexLe(b[c], b[k]);
    }
    DownDone(b, start, n, i);
  }

  /** `std::make_heap`: rearranges the whole sequence into a heap. */
  method MakeHeap(a: seq<Pair>) returns (b: seq<Pair>)
    ensures IsHeap(b)
    ensures multiset(b) == multiset(a)
  {
    b := a;
    var n := |b|;
    var i := n / 2;
    while i > 0
      invariant 0 <= i <= n / 2 && |b| == n
      invariant forall j :: 0 < j < n && Parent(j) >= i ==> LexLe(b[Parent(j)], b[j])
      invariant multiset(b) == multiset(a)
      decreases i
    {
      i := i - 1;
      b := SiftDown(b, i, n);
    }
  }

  /** `std::pop_heap`: the least entry goes to the last slot and the slots
      before it form a heap again. */
  method PopHeap(a: seq<Pair>) returns (b: seq<Pair>)
    requires IsHeap(a) && |a| > 0
    ensures |b| == |a| && b[|b| - 1] == a[0]
    ensures HeapPrefix(b, |b| - 1)
    ensures multiset(b) == multiset(a)
  {
    var last := |a| - 1;
    b := Swap(a, 0, last);
    if last > 0 {
      b := SiftDown(b, 0, last);
    }
  }
}
