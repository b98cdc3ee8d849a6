/** gk_graph_ValidateSymmetry (src/graph.c): sorts all arcs and compares, for every group of equal
    arcs, its size with the size of the group of reversed arcs. */
module SymmetryCheck {
  import opened Finite
  import opened Graphs
  import opened Picks
  import opened MakeSymmetric
  import opened Sequences
  import opened Sizes
  import QSort

  datatype Arc = Arc(source: int, target: int, weight: int)
  {
    function Reverse(): Arc
    {
      Arc(target, source, weight)
    }
  }

  // ----- All arcs of a graph -----

  /** The arcs lo..hi of the arrays, all from i. */
  ghost function ArcsTo(i: int, ind: seq<int>, val: seq<int>, lo: int, hi: int): (arcs: seq<Arc>)
    requires 0 <= lo && hi <= |ind| == |val|
    ensures |arcs| == if hi <= lo then 0 else hi - lo
    decreases hi - lo
  {
    if hi <= lo then [] else ArcsTo(i, ind, val, lo, hi - 1) + [Arc(i, ind[hi - 1], val[hi - 1])]
  }

  ghost function RowArcs(g: Graph, i: int): (arcs: seq<Arc>)
    requires g.Valid() && g.Weighted() && g.IsVertex(i)
    ensures |arcs| == g.xadj[i + 1] - g.xadj[i]
  {
    ArcsTo(i, g.adjncy, g.iadjwgt, g.xadj[i], g.xadj[i + 1])
  }

  ghost function ArcsOf(g: Graph, n: int): seq<Arc>
    requires g.Valid() && g.Weighted() && n <= g.nvtxs
    decreases n
  {
    if n <= 0 then [] else ArcsOf(g, n - 1) + RowArcs(g, n - 1)
  }

  /** The multiset of arcs equals its own reversal. */
  ghost predicate Reversible(bag: multiset<Arc>)
  {
    forall i, j, w :: bag[Arc(i, j, w)] == bag[Arc(j, i, w)]
  }

  ghost predicate LoopFree(bag: multiset<Arc>)
  {
    forall a :: a in bag ==> a.source != a.target
  }

  lemma {:induction false} RowCount(i: int, ind: seq<int>, val: seq<int>, lo: int, hi: int, a: Arc)
    requires 0 <= lo <= hi <= |ind| == |val|
    ensures multiset(ArcsTo(i, ind, val, lo, hi))[a] ==
      if a.source == i then multiset(Pick(ind, val, lo, hi, a.target))[a.weight] else 0
    decreases hi
  {
    hide Pick, ArcsTo;
    if lo < hi {
      LastArc(i, ind, val, lo, hi);
      RowCount(i, ind, val, lo, hi - 1, a);
      CountNext(ArcsTo(i, ind, val, lo, hi - 1), Arc(i, ind[hi - 1], val[hi - 1]), a);
      PickLast(ind, val, lo, hi, a.target);
      CountNext(Pick(ind, val, lo, hi - 1, a.target), val[hi - 1], a.weight);
    } else {
      PickNone(ind, val, lo, a.target);
      NoArcsTo(i, ind, val, lo);
    }
  }

  lemma LastArc(i: int, ind: seq<int>, val: seq<int>, lo: int, hi: int)
    requires 0 <= lo < hi <= |ind| == |val|
    ensures ArcsTo(i, ind, val, lo, hi) == ArcsTo(i, ind, val, lo, hi - 1) + [Arc(i, ind[hi - 1], val[hi - 1])]
  {
  }

  lemma NoArcsTo(i: int, ind: seq<int>, val: seq<int>, lo: int)
    requires 0 <= lo <= |ind| == |val|
    ensures ArcsTo(i, ind, val, lo, lo) == []
  {
  }

  lemma CountNext<T>(s: seq<T>, x: T, y: T)
    ensures multiset(s + [x])[y] == multiset(s)[y] + if x == y then 1 else 0
    ensures s + [] == s
  {
  }

  /** The arcs of a graph and its arc lists say the same. */
  lemma {:induction false} ArcCount(g: Graph, n: int, a: Arc)
    requires g.Valid() && g.Weighted() && 0 <= n <= g.nvtxs
    ensures multiset(ArcsOf(g, n))[a] ==
      if 0 <= a.source < n then multiset(Out(g, a.source, a.target))[a.weight] else 0
    decreases n
  {
    hide Graph.Valid, ArcsOf, RowArcs, Out;
    LastRow(g, n);
    if n > 0 {
      ArcCount(g, n - 1, a);
      WholeRow(g, n - 1, a);
      CountBoth(ArcsOf(g, n - 1), RowArcs(g, n - 1), a);
    }
  }

  lemma LastRow(g: Graph, n: int)
    requires g.Valid() && g.Weighted() && 0 <= n <= g.nvtxs
    ensures ArcsOf(g, n) == if n == 0 then [] else ArcsOf(g, n - 1) + RowArcs(g, n - 1)
  {
  }

  lemma CountBoth<T>(s: seq<T>, t: seq<T>, x: T)
    ensures multiset(s + t)[x] == multiset(s)[x] + multiset(t)[x]
  {
    assert multiset(s + t) == multiset(s) + multiset(t);
  }

  lemma WholeRow(g: Graph, i: int, a: Arc)
    requires g.Valid() && g.Weighted() && g.IsVertex(i)
    ensures multiset(RowArcs(g, i))[a] == if a.source == i then multiset(Out(g, i, a.target))[a.weight] else 0
  {
    RowCount(i, g.adjncy, g.iadjwgt, g.xadj[i], g.xadj[i + 1], a);
  }

  /** The result of MakeSymmetric is reversible, whatever the operation. */
  lemma SymmetrizedIsReversible(op: Op, g: Graph, h: Graph)
    requires g.Valid() && g.Weighted() && Symmetrized(op, g, h)
    ensures Reversible(multiset(ArcsOf(h, h.nvtxs)))
  {
    hide ArcsOf;
    forall i, j, w
      ensures multiset(ArcsOf(h, h.nvtxs))[Arc(i, j, w)] == multiset(ArcsOf(h, h.nvtxs))[Arc(j, i, w)]
    {
      BothWays(op, g, h, i, j, w);
    }
  }

  lemma BothWays(op: Op, g: Graph, h: Graph, i: int, j: int, w: int)
    requires g.Valid() && g.Weighted() && Symmetrized(op, g, h)
    ensures multiset(ArcsOf(h, h.nvtxs))[Arc(i, j, w)] == multiset(ArcsOf(h, h.nvtxs))[Arc(j, i, w)]
  {
    hide ArcsOf, Out, Combine;
    ArcCount(h, h.nvtxs, Arc(i, j, w));
    ArcCount(h, h.nvtxs, Arc(j, i, w));
    if h.IsVertex(i) && h.IsVertex(j) {
      CombineSymmetric(op, Out(g, i, j), Out(g, j, i));
    } else if h.IsVertex(i) {
      NoTarget(h, i, j);
    } else if h.IsVertex(j) {
      NoTarget(h, j, i);
    }
  }

  lemma NoTarget(g: Graph, i: int, j: int)
    requires g.Valid() && g.Weighted() && g.IsVertex(i) && !g.IsVertex(j)
    ensures Out(g, i, j) == []
  {
    NothingPicked(g.adjncy, g.iadjwgt, g.xadj[i], g.xadj[i + 1], j);
  }

  lemma {:induction false} NothingPicked(ind: seq<int>, val: seq<int>, lo: int, hi: int, t: int)
    requires 0 <= lo && hi <= |ind| && hi <= |val|
    requires forall e :: lo <= e < hi ==> ind[e] != t
    ensures Pick(ind, val, lo, hi, t) == []
    decreases hi - lo
  {
    if lo < hi {
      NothingPicked(ind, val, lo, hi - 1, t);
    }
  }

  // ----- SUM doubles the total weight -----

  lemma {:induction false} PairedTotal(a: seq<int>, b: seq<int>, n: int)
    requires 0 <= n <= |a| && n <= |b|
    ensures Sum(Paired(SUM, a[..n], b[..n])) == Sum(a[..n]) + Sum(b[..n])
    decreases n
  {
    if n > 0 {
      PairedTotal(a, b, n - 1);
      assert a[..n][..n - 1] == a[..n - 1] && b[..n][..n - 1] == b[..n - 1];
      var p := Paired(SUM, a[..n], b[..n]);
      assert p[..n - 1] == Paired(SUM, a[..n - 1], b[..n - 1]);
    }
  }

  lemma CombineTotal(a: seq<int>, b: seq<int>)
    ensures Sum(Combine(SUM, a, b)) == Sum(a) + Sum(b)
  {
    var n := if |a| < |b| then |a| else |b|;
    PairedTotal(a, b, n);
    assert Paired(SUM, a[..n], b[..n]) == Paired(SUM, a, b);
    assert a == a[..n] + a[n..] && b == b[..n] + b[n..];
    SumConcat(a[..n], a[n..]);
    SumConcat(b[..n], b[n..]);
    if |a| < |b| {
      SumConcat(Paired(SUM, a, b), b[|a|..]);
      assert a[n..] == [];
    } else {
      SumConcat(Paired(SUM, a, b), a[|b|..]);
      assert b[n..] == [];
    }
  }

  /** The weights between the first m vertices and the first n, added up row by row. */
  ghost function Block(g: Graph, m: int, n: int): int
    requires g.Valid() && g.Weighted() && m <= g.nvtxs && n <= g.nvtxs
    decreases m
  {
    if m <= 0 then 0 else Block(g, m - 1, n) + Line(g, m - 1, n)
  }

  ghost function Line(g: Graph, i: int, n: int): int
    requires g.Valid() && g.Weighted() && g.IsVertex(i)
    decreases n
  {
    if n <= 0 then 0 else Line(g, i, n - 1) + Sum(Out(g, i, n - 1))
  }

  ghost function Column(g: Graph, m: int, j: int): int
    requires g.Valid() && g.Weighted() && m <= g.nvtxs
    decreases m
  {
    if m <= 0 then 0 else Column(g, m - 1, j) + Sum(Out(g, m - 1, j))
  }

  lemma {:induction false} BlockByColumns(g: Graph, m: int, n: int)
    requires g.Valid() && g.Weighted() && 0 <= m <= g.nvtxs && 0 < n <= g.nvtxs
    ensures Block(g, m, n) == Block(g, m, n - 1) + Column(g, m, n - 1)
    decreases m
  {
    if m > 0 {
      BlockByColumns(g, m - 1, n);
    }
  }

  lemma {:induction false} LineDoubles(g: Graph, h: Graph, i: int, n: int)
    requires g.Valid() && g.Weighted() && Symmetrized(SUM, g, h) && g.IsVertex(i) && n <= g.nvtxs
    ensures Line(h, i, n) == Line(g, i, n) + Column(g, n, i)
    decreases n
  {
    hide Sum, Combine, Out;
    if n > 0 {
      LineDoubles(g, h, i, n - 1);
      CombineTotal(Out(g, i, n - 1), Out(g, n - 1, i));
    }
  }

  lemma {:induction false} BlockDoubles(g: Graph, h: Graph, m: int)
    requires g.Valid() && g.Weighted() && Symmetrized(SUM, g, h) && 0 <= m <= g.nvtxs
    ensures Block(h, m, g.nvtxs) == Block(g, m, g.nvtxs) + Block(g, g.nvtxs, m)
    decreases m
  {
    if m > 0 {
      BlockDoubles(g, h, m - 1);
      LineDoubles(g, h, m - 1, g.nvtxs);
      BlockByColumns(g, g.nvtxs, m);
    } else {
      BlockNothing(g, g.nvtxs);
    }
  }

  lemma {:induction false} BlockNothing(g: Graph, m: int)
    requires g.Valid() && g.Weighted() && m <= g.nvtxs
    ensures Block(g, m, 0) == 0
    decreases m
  {
    if m > 0 {
      BlockNothing(g, m - 1);
    }
  }

  /** A row of weights is the sum of its arc lists. */
  lemma {:induction false} RowTotal(ind: seq<int>, val: seq<int>, lo: int, hi: int, n: int)
    requires 0 <= lo <= hi <= |ind| == |val| && 0 <= n
    requires forall e :: lo <= e < hi ==> 0 <= ind[e] < n
    ensures Sum(val[lo..hi]) == PickTotals(ind, val, lo, hi, n)
    decreases hi
  {
    hide Pick, PickTotals;
    if lo < hi {
      assert val[lo..hi][..hi - lo - 1] == val[lo..hi - 1];
      RowTotal(ind, val, lo, hi - 1, n);
      OneMoreArc(ind, val, lo, hi, n);
    } else {
      NoArcs(ind, val, lo, n);
    }
  }

  ghost function PickTotals(ind: seq<int>, val: seq<int>, lo: int, hi: int, n: int): int
    requires 0 <= lo && hi <= |ind| == |val|
    decreases n
  {
    if n <= 0 then 0 else PickTotals(ind, val, lo, hi, n - 1) + Sum(Pick(ind, val, lo, hi, n - 1))
  }

  lemma {:induction false} NoArcs(ind: seq<int>, val: seq<int>, lo: int, n: int)
    requires 0 <= lo <= |ind| == |val|
    ensures PickTotals(ind, val, lo, lo, n) == 0
    decreases n
  {
    if n > 0 {
      NoArcs(ind, val, lo, n - 1);
    }
  }

  lemma {:induction false} OneMoreArc(ind: seq<int>, val: seq<int>, lo: int, hi: int, n: int)
    requires 0 <= lo < hi <= |ind| == |val| && 0 <= ind[hi - 1]
    ensures PickTotals(ind, val, lo, hi, n) ==
              PickTotals(ind, val, lo, hi - 1, n) + if ind[hi - 1] < n then val[hi - 1] else 0
    decreases n
  {
    hide Pick, Sum;
    if n > 0 {
      OneMoreArc(ind, val, lo, hi, n - 1);
      PickMore(ind, val, lo, hi, n - 1);
    }
  }

  lemma PickMore(ind: seq<int>, val: seq<int>, lo: int, hi: int, t: int)
    requires 0 <= lo < hi <= |ind| == |val|
    ensures Sum(Pick(ind, val, lo, hi, t)) ==
              Sum(Pick(ind, val, lo, hi - 1, t)) + if ind[hi - 1] == t then val[hi - 1] else 0
  {
    var before := Pick(ind, val, lo, hi - 1, t);
    if ind[hi - 1] == t {
      assert Pick(ind, val, lo, hi, t) == before + [val[hi - 1]];
      SumConcat(before, [val[hi - 1]]);
      assert [val[hi - 1]][..0] == [];
    } else {
      assert Pick(ind, val, lo, hi, t) == before;
    }
  }

  lemma {:induction false} LineIsPicks(g: Graph, i: int, n: int)
    requires g.Valid() && g.Weighted() && g.IsVertex(i)
    ensures Line(g, i, n) == PickTotals(g.adjncy, g.iadjwgt, g.xadj[i], g.xadj[i + 1], n)
    decreases n
  {
    if n > 0 {
      LineIsPicks(g, i, n - 1);
    }
  }

  lemma {:induction false} BlockIsSum(g: Graph, m: int)
    requires g.Valid() && g.Weighted() && 0 <= m <= g.nvtxs
    ensures 0 <= g.xadj[m] <= |g.adjncy| && Block(g, m, g.nvtxs) == Sum(g.iadjwgt[..g.xadj[m]])
    decreases m
  {
    if m > 0 {
      var lo, hi := g.xadj[m - 1], g.xadj[m];
      BlockIsSum(g, m - 1);
      RowTotal(g.adjncy, g.iadjwgt, lo, hi, g.nvtxs);
      LineIsPicks(g, m - 1, g.nvtxs);
      var w := g.iadjwgt;
      hide Graph.Valid, Line;
      assert w[..hi] == w[..lo] + w[lo..hi];
      SumConcat(w[..lo], w[lo..hi]);
    }
  }

  /** With SUM, the new graph weighs exactly twice as much as the old one. */
  lemma SumDoublesWeight(g: Graph, h: Graph)
    requires g.Valid() && g.Weighted() && Symmetrized(SUM, g, h)
    ensures Sum(h.iadjwgt) == 2 * Sum(g.iadjwgt)
  {
    BlockDoubles(g, h, g.nvtxs);
    BlockIsSum(g, g.nvtxs);
    BlockIsSum(h, h.nvtxs);
    assert g.iadjwgt[..g.xadj[g.nvtxs]] == g.iadjwgt && h.iadjwgt[..h.xadj[h.nvtxs]] == h.iadjwgt;
  }

  // ----- The check -----

  /** gk_graph_CompareSymmetryEdges < 0. */
  predicate Before(a: Arc, b: Arc)
  {
    if a.source != b.source then a.source < b.source
    else if a.target != b.target then a.target < b.target
    else a.weight < b.weight
  }

  ghost predicate Ascending(s: seq<Arc>)
  {
    forall i, j :: 0 <= i < j < |s| ==> !Before(s[j], s[i])
  }

  /** The first position that key does not come after: halving the remaining length. */
  method LowerBound(edges: array<Arc>, key: Arc) returns (first: int)
    requires Ascending(edges[..])
    ensures 0 <= first <= edges.Length
    ensures forall k :: 0 <= k < first ==> Before(edges[k], key)
    ensures forall k :: first <= k < edges.Length ==> !Before(edges[k], key)
  {
    first := 0;
    var length := edges.Length;
    while length != 0
      invariant 0 <= first <= first + length <= edges.Length
      invariant forall k :: 0 <= k < first ==> Before(edges[k], key)
      invariant forall k :: first + length <= k < edges.Length ==> !Before(edges[k], key)
    {
      var half := length / 2;
      var middle := first + half;
      if Before(edges[middle], key) {
        forall k | 0 <= k < middle
          ensures Before(edges[k], key)
        {
          assert !Before(edges[..][middle], edges[..][k]);
        }
        first := middle + 1;
        length := length - (half + 1);
      } else {
        forall k | middle <= k < edges.Length
          ensures !Before(edges[k], key)
        {
          assert k > middle ==> !Before(edges[..][k], edges[..][middle]);
        }
        length := half;
      }
    }
  }

  /** The end of the run of arcs equal to x that starts at i. */
  method RunEnd(edges: array<Arc>, i: int, x: Arc) returns (j: int)
    requires 0 <= i <= edges.Length
    ensures i <= j <= edges.Length && (forall k :: i <= k < j ==> edges[k] == x)
    ensures j < edges.Length ==> edges[j] != x
  {
    j := i;
    while j < edges.Length && edges[j] == x
      invariant i <= j <= edges.Length && forall k :: i <= k < j ==> edges[k] == x
    {
      j := j + 1;
    }
  }

  /** A maximal run in a sorted sequence holds all occurrences. */
  lemma RunIsCount(s: seq<Arc>, i: int, j: int, x: Arc)
    requires Ascending(s) && 0 <= i <= j <= |s| && forall k :: i <= k < j ==> s[k] == x
    requires forall k :: 0 <= k < i ==> Before(s[k], x)
    requires j < |s| ==> s[j] != x && !Before(s[j], x)
    ensures multiset(s)[x] == j - i
  {
    assert s == s[..i] + s[i..j] + s[j..];
    SameElement(s[i..j], x);
    forall k | j <= k < |s|
      ensures s[k] != x
    {
      assert k > j ==> !Before(s[k], s[j]);
    }
    assert x !in s[..i] && x !in s[j..];
  }

  lemma {:induction false} SameElement(s: seq<Arc>, x: Arc)
    requires forall k :: 0 <= k < |s| ==> s[k] == x
    ensures multiset(s)[x] == |s|
  {
    if s != [] {
      SameElement(s[1..], x);
      assert s == [s[0]] + s[1..];
    }
  }

  /** Runs follow each other without gaps. */
  lemma NextRun(s: seq<Arc>, i: int, j: int, x: Arc)
    requires Ascending(s) && 0 <= i < j < |s| && s[i] == x && s[j] != x
    requires forall k :: i <= k < j ==> s[k] == x
    requires forall k :: 0 <= k < i ==> Before(s[k], x)
    ensures forall k :: 0 <= k < j ==> Before(s[k], s[j])
  {
    assert !Before(s[j], s[i]);
  }

  lemma RestReversible(whole: multiset<Arc>, rest: multiset<Arc>, a: Arc)
    requires Reversible(whole) && LoopFree(whole) && a in whole
    requires whole == rest + multiset{a} + multiset{a.Reverse()}
    ensures Reversible(rest) && LoopFree(rest)
  {
    forall b: Arc
      ensures rest[b] == rest[b.Reverse()]
    {
      assert whole[b] == whole[b.Reverse()];
      assert b == a <==> b.Reverse() == a.Reverse();
      assert b == a.Reverse() <==> b.Reverse() == a;
    }
  }

  lemma ReverseStandsLater(s: seq<Arc>) returns (j: int)
    requires s != [] && Reversible(multiset(s)) && LoopFree(multiset(s))
    ensures 0 < j < |s| && s[j] == s[0].Reverse()
  {
    assert s[0] in multiset(s);
    assert multiset(s)[s[0].Reverse()] == multiset(s)[s[0]];
    assert s[0].Reverse() in multiset(s);
    j :| 0 <= j < |s| && s[j] == s[0].Reverse();
  }

  lemma TakeTwo(s: seq<Arc>, j: int)
    requires 0 < j < |s|
    ensures multiset(s) == multiset(s[1..j] + s[j + 1..]) + multiset{s[0]} + multiset{s[j]}
  {
    var u, v := s[1..j], s[j + 1..];
    assert s == [s[0]] + (u + ([s[j]] + v));
    assert multiset([s[0]] + (u + ([s[j]] + v))) == multiset{s[0]} + multiset(u + ([s[j]] + v));
    assert multiset(u + ([s[j]] + v)) == multiset(u) + multiset{s[j]} + multiset(v);
    assert multiset(u + v) == multiset(u) + multiset(v);
  }

  /** A loop-free reversible multiset pairs its arcs: their number is even. */
  lemma {:induction false} EvenSize(s: seq<Arc>)
    requires Reversible(multiset(s)) && LoopFree(multiset(s))
    ensures |s| % 2 == 0
    decreases |s|
  {
    hide Reversible, LoopFree;
    if s != [] {
      var j := ReverseStandsLater(s);
      var u, v := s[1..j], s[j + 1..];
      TakeTwo(s, j);
      RestReversible(multiset(s), multiset(u + v), s[0]);
      EvenSize(u + v);
    }
  }

  // ----- Collecting and checking -----

  /** The arcs of one row, written behind those of the rows before it. */
  method CollectRow(g: Graph, vertex: int, edges: array<Arc>)
    requires g.Valid() && g.Weighted() && g.IsVertex(vertex) && edges.Length == |g.adjncy|
    modifies edges
    ensures 0 <= g.xadj[vertex] <= g.xadj[vertex + 1] <= edges.Length
    ensures edges[..g.xadj[vertex]] == old(edges[..g.xadj[vertex]])
    ensures edges[g.xadj[vertex]..g.xadj[vertex + 1]] == RowArcs(g, vertex)
  {
    var lo, hi := g.xadj[vertex], g.xadj[vertex + 1];
    assert 0 <= lo <= hi <= edges.Length;
    for edge := lo to hi
      invariant edges[..lo] == old(edges[..lo])
      invariant edges[lo..edge] == ArcsTo(vertex, g.adjncy, g.iadjwgt, lo, edge)
    {
      edges[edge] := Arc(vertex, g.adjncy[edge], g.iadjwgt[edge]);
      SliceFront(edges[..], lo, edge + 1);
      assert edges[lo..edge + 1] == edges[..][lo..edge + 1] && edges[lo..edge] == edges[..][lo..edge];
    }
  }

  /** Collects the arcs in storage order. */
  method CollectArcs(g: Graph) returns (edges: array<Arc>)
    requires g.Valid() && g.Weighted()
    ensures fresh(edges) && edges.Length == |g.adjncy| && edges[..] == ArcsOf(g, g.nvtxs)
  {
    edges := new Arc[|g.adjncy|](_ => Arc(0, 0, 0));
    for vertex := 0 to g.nvtxs
      invariant 0 <= g.xadj[vertex] <= edges.Length && edges[..g.xadj[vertex]] == ArcsOf(g, vertex)
    {
      CollectRow(g, vertex, edges);
      assert edges[..g.xadj[vertex + 1]] == edges[..g.xadj[vertex]] + edges[g.xadj[vertex]..g.xadj[vertex + 1]];
    }
    assert edges[..g.xadj[g.nvtxs]] == edges[..];
  }

  lemma {:induction false} ArcsSize(g: Graph, n: int)
    requires g.Valid() && g.Weighted() && 0 <= n <= g.nvtxs
    ensures |ArcsOf(g, n)| == g.xadj[n]
    decreases n
  {
    if n > 0 {
      ArcsSize(g, n - 1);
    }
  }

  method SortArcs(edges: array<Arc>, bits: nat)
    requires edges.Length < Pow2(bits)
    modifies edges
    ensures Ascending(edges[..]) && multiset(edges[..]) == multiset(old(edges[..]))
  {
    hide QSort.StrictWeakOrder, QSort.Less;
    var lt := (x: Arc, y: Arc) => Before(x, y);
    ArcOrder(lt);
    QSort.QSort(edges, lt, bits);
    SortedIsAscending(lt, edges[..]);
  }

  lemma ArcOrder(lt: (Arc, Arc) -> bool)
    requires forall x, y :: lt(x, y) == Before(x, y)
    ensures QSort.StrictWeakOrder(lt)
  {
  }

  lemma SortedIsAscending(lt: (Arc, Arc) -> bool, s: seq<Arc>)
    requires forall x, y :: lt(x, y) == Before(x, y)
    requires QSort.Sorted(lt, s)
    ensures Ascending(s)
  {
    forall i, j | 0 <= i < j < |s|
      ensures !Before(s[j], s[i])
    {
      assert !QSort.Less(lt, s[j], s[i]);
    }
  }

  /** The verdict of the loop over the groups. */
  method CheckGroups(edges: array<Arc>) returns (ok: bool)
    requires Ascending(edges[..])
    ensures ok <==> LoopFree(multiset(edges[..])) && Reversible(multiset(edges[..]))
  {
    var n := edges.Length;
    ghost var s := edges[..];
    var i := 0;
    while i < n
      invariant 0 <= i <= n
      invariant forall k :: 0 <= k < i ==>
                  s[k].source != s[k].target && multiset(s)[s[k]] == multiset(s)[s[k].Reverse()]
      invariant i < n ==> forall k :: 0 <= k < i ==> Before(s[k], s[i])
    {
      var x := edges[i];
      var j := RunEnd(edges, i + 1, x);
      RunIsCount(s, i, j, x);
      if x.source == x.target {
        assert x in multiset(s);
        return false;
      }
      var reverse := LowerBound(edges, x.Reverse());
      var reverseEnd := RunEnd(edges, reverse, x.Reverse());
      RunIsCount(s, reverse, reverseEnd, x.Reverse());
      if reverse == n || reverseEnd - reverse != j - i {
        return false;
      }
      if j < n {
        NextRun(s, i, j, x);
      }
      i := j;
    }
    AllGroupsPass(s);
    return true;
  }

  lemma AllGroupsPass(s: seq<Arc>)
    requires forall k :: 0 <= k < |s| ==> s[k].source != s[k].target && multiset(s)[s[k]] == multiset(s)[s[k].Reverse()]
    ensures LoopFree(multiset(s)) && Reversible(multiset(s))
  {
    forall a: Arc
      ensures multiset(s)[a] == multiset(s)[a.Reverse()]
    {
      assert a.Reverse().Reverse() == a;
      assert a in multiset(s) ==> a in s;
      assert a.Reverse() in multiset(s) ==> a.Reverse() in s;
    }
  }

  /** The size of an arc in the array that is sorted. */
  const SIZEOF_EDGE := 16

  /** Accepts, with 1, exactly the loop-free graphs whose arcs equal their own reversal; -1 if the array of
      the arcs cannot be addressed. */
  method ValidateSymmetry(g: Graph, bits: nat) returns (r: int)
    requires g.Valid() && g.Weighted() && |g.adjncy| < Pow2(bits)
    ensures r == -1 <==> |g.adjncy| % 2 == 0 && |g.adjncy| > SIZE_MAX / SIZEOF_EDGE
    ensures r != -1 ==>
              r == if LoopFree(multiset(ArcsOf(g, g.nvtxs))) && Reversible(multiset(ArcsOf(g, g.nvtxs))) then 1 else 0
  {
    hide LoopFree, Reversible, ArcsOf;
    if |g.adjncy| % 2 != 0 {
      ArcsSize(g, g.nvtxs);
      if LoopFree(multiset(ArcsOf(g, g.nvtxs))) && Reversible(multiset(ArcsOf(g, g.nvtxs))) {
        EvenSize(ArcsOf(g, g.nvtxs));
      }
      return 0;
    }
    if |g.adjncy| > SIZE_MAX / SIZEOF_EDGE {
      return -1;
    }
    var edges := CollectArcs(g);
    SortArcs(edges, bits);
    var ok := CheckGroups(edges);
    return if ok then 1 else 0;
  }

  /** So the check accepts what MakeSymmetric makes of a graph without self-loops. */
  lemma AcceptsSymmetrized(op: Op, g: Graph, h: Graph)
    requires g.Valid() && g.Weighted() && Symmetrized(op, g, h)
    requires LoopFree(multiset(ArcsOf(g, g.nvtxs)))
    ensures LoopFree(multiset(ArcsOf(h, h.nvtxs))) && Reversible(multiset(ArcsOf(h, h.nvtxs)))
  {
    SymmetrizedIsReversible(op, g, h);
    forall a: Arc | a in multiset(ArcsOf(h, h.nvtxs))
      ensures a.source != a.target
    {
      ArcCount(h, h.nvtxs, a);
      ArcCount(g, g.nvtxs, a);
      if a.source == a.target {
        NoLoopsCombined(op, g, a.source);
      }
    }
  }

  lemma NoLoopsCombined(op: Op, g: Graph, v: int)
    requires g.Valid() && g.Weighted() && g.IsVertex(v) && LoopFree(multiset(ArcsOf(g, g.nvtxs)))
    ensures Combine(op, Out(g, v, v), Out(g, v, v)) == []
  {
    var weights := Out(g, v, v);
    forall w: int
      ensures multiset(weights)[w] == 0
    {
      ArcCount(g, g.nvtxs, Arc(v, v, w));
    }
    EmptyBag(weights);
    NothingCombined(op);
  }

  lemma NothingCombined(op: Op)
    ensures Combine(op, [], []) == []
  {
    var none: seq<int> := [];
    assert none[|none|..] == none;
    assert |Single(op, none)| == 0;
  }

  lemma EmptyBag(s: seq<int>)
    requires forall w :: w in s ==> multiset(s)[w] == 0
    ensures s == []
  {
    if s != [] {
      InBag(s, s[0]);
    }
  }

  lemma InBag(s: seq<int>, w: int)
    requires w in s
    ensures multiset(s)[w] > 0
  {
    assert w in multiset(s);
  }
}
