/** compute_tcstats (apps/gkgraph.c): triangle counting with a linear-probing hash map. The cache
    simulator that watches it does not influence it and is modelled on its own. */
module Triangles {
  import opened Finite
  import opened Graphs
  import opened Sizes
  import HashTable

  // ----- What is counted -----

  ghost predicate SortedRows(g: Graph)
    requires g.Valid()
  {
    forall v, d, e :: g.IsArc(v, d) && g.IsArc(v, e) && d < e ==> g.adjncy[d] < g.adjncy[e]
  }

  ghost predicate Triangle(g: Graph, i: int, j: int, k: int)
    requires g.Valid()
  {
    0 <= i < j < k < g.nvtxs && g.Adjacent(j, i) && g.Adjacent(i, k) && g.Adjacent(j, k)
  }

  ghost function AllTriangles(g: Graph): set<(int, int, int)>
    requires g.Valid()
  {
    set i, j, k | i in Below(g.nvtxs) && j in Below(g.nvtxs) && k in Below(g.nvtxs) && Triangle(g, i, j, k) :: (i, j, k)
  }

  /** On a symmetric graph these are the triples of mutually adjacent vertices. */
  lemma MutualTriangles(g: Graph, i: int, j: int, k: int)
    requires g.Valid() && g.Symmetric() && i < j < k
    ensures (i, j, k) in AllTriangles(g) <==>
      forall u, v :: u in {i, j, k} && v in {i, j, k} && u != v ==> g.Adjacent(u, v)
  {
    if g.Adjacent(i, j) && g.Adjacent(j, k) {
      assert g.IsVertex(i) && g.IsVertex(j);
      assert g.Adjacent(k, j);
    }
  }

  /** The triangles with middle vertex j. */
  ghost function Middle(g: Graph, j: int): set<(int, int, int)>
    requires g.Valid()
  {
    set t | t in AllTriangles(g) && t.1 == j
  }

  /** The third vertices of triangles on i and j. */
  ghost function Third(g: Graph, i: int, j: int): set<int>
    requires g.Valid()
  {
    set k | k in Below(g.nvtxs) && j < k && g.Adjacent(i, k) && g.Adjacent(j, k)
  }

  // ----- Splitting the rows -----

  /** Row v of adj has the neighbours of v: first those below v, from u on those that are not, in
      descending order, and none of them twice. */
  ghost predicate RowSplit(g: Graph, adj: seq<int>, v: int, u: int)
    requires g.Valid() && g.IsVertex(v) && |adj| == |g.adjncy|
  {
    && g.xadj[v] <= u <= g.xadj[v + 1] <= |adj|
    && (forall e :: g.xadj[v] <= e < u ==> adj[e] < v)
    && (forall e :: u <= e < g.xadj[v + 1] ==> adj[e] >= v)
    && (forall e :: g.xadj[v] <= e < g.xadj[v + 1] ==> g.Adjacent(v, adj[e]))
    && (forall d, e :: g.xadj[v] <= d < e < u ==> adj[d] < adj[e])
    && (forall d, e :: u <= d < e < g.xadj[v + 1] ==> adj[d] > adj[e])
    && (forall t :: g.Adjacent(v, t) ==> exists e :: g.xadj[v] <= e < g.xadj[v + 1] && adj[e] == t)
  }

  ghost predicate AllSplit(g: Graph, adj: seq<int>, uxadj: seq<int>)
    requires g.Valid()
  {
    && |adj| == |g.adjncy| && |uxadj| == g.nvtxs
    && forall v :: g.IsVertex(v) ==> RowSplit(g, adj, v, uxadj[v])
  }

  /** Finds the upper part of row v and reverses it. */
  method FlipRow(g: Graph, adjncy: array<int>, v: int) returns (u: int)
    requires g.Valid() && g.IsVertex(v) && adjncy.Length == |g.adjncy|
    modifies adjncy
    ensures g.xadj[v] <= u <= g.xadj[v + 1] <= adjncy.Length
    ensures forall e :: g.xadj[v] <= e < u ==> old(adjncy[e]) < v
    ensures u < g.xadj[v + 1] ==> old(adjncy[u]) >= v
    ensures forall e :: 0 <= e < u || g.xadj[v + 1] <= e < adjncy.Length ==> adjncy[e] == old(adjncy[e])
    ensures forall e :: u <= e < g.xadj[v + 1] ==> adjncy[e] == old(adjncy[u + g.xadj[v + 1] - 1 - e])
  {
    var lo, hi := g.xadj[v], g.xadj[v + 1];
    assert 0 <= lo <= hi <= adjncy.Length;
    hide Graph.Valid;
    var ei := lo;
    while ei < hi && adjncy[ei] < v
      invariant lo <= ei <= hi && forall e :: lo <= e < ei ==> adjncy[e] < v
    {
      ei := ei + 1;
    }
    u := ei;
    var ej := hi - 1;
    while ei < ej
      invariant u <= ei && ej < hi && ei + ej == u + hi - 1 && ei <= ej + 1
      invariant forall e :: 0 <= e < u || hi <= e < adjncy.Length || ei <= e <= ej ==> adjncy[e] == old(adjncy[e])
      invariant forall e :: u <= e < ei || ej < e < hi ==> adjncy[e] == old(adjncy[u + hi - 1 - e])
    {
      adjncy[ei], adjncy[ej] := adjncy[ej], adjncy[ei];
      ei, ej := ei + 1, ej - 1;
    }
  }

  lemma FlipSplits(g: Graph, adj: seq<int>, v: int, u: int)
    requires g.Valid() && SortedRows(g) && g.IsVertex(v) && |adj| == |g.adjncy|
    requires g.xadj[v] <= u <= g.xadj[v + 1] <= |adj|
    requires forall e :: g.xadj[v] <= e < u ==> g.adjncy[e] < v && adj[e] == g.adjncy[e]
    requires u < g.xadj[v + 1] ==> g.adjncy[u] >= v
    requires forall e :: u <= e < g.xadj[v + 1] ==> adj[e] == g.adjncy[u + g.xadj[v + 1] - 1 - e]
    ensures RowSplit(g, adj, v, u)
  {
    SortedRow(g, v);
    FlippedOrder(g.adjncy, adj, g.xadj[v], u, g.xadj[v + 1]);
    FlippedAdjacent(g, adj, v, u);
    FlippedAll(g, adj, v, u);
    hide Graph.Valid, SortedRows, Graph.Adjacent;
  }

  lemma FlippedAdjacent(g: Graph, adj: seq<int>, v: int, u: int)
    requires g.Valid() && g.IsVertex(v) && |adj| == |g.adjncy| && g.xadj[v] <= u <= g.xadj[v + 1] <= |adj|
    requires forall e :: g.xadj[v] <= e < u ==> adj[e] == g.adjncy[e]
    requires forall e :: u <= e < g.xadj[v + 1] ==> adj[e] == g.adjncy[u + g.xadj[v + 1] - 1 - e]
    ensures forall e :: g.xadj[v] <= e < g.xadj[v + 1] ==> g.Adjacent(v, adj[e])
  {
    RowIsAdjacent(g, v);
    hide Graph.Valid, Graph.Adjacent;
    forall e | g.xadj[v] <= e < g.xadj[v + 1]
      ensures g.Adjacent(v, adj[e])
    {
      var m := if e < u then e else u + g.xadj[v + 1] - 1 - e;
      assert adj[e] == g.adjncy[m];
    }
  }

  lemma FlippedAll(g: Graph, adj: seq<int>, v: int, u: int)
    requires g.Valid() && g.IsVertex(v) && |adj| == |g.adjncy| && g.xadj[v] <= u <= g.xadj[v + 1] <= |adj|
    requires forall e :: g.xadj[v] <= e < u ==> adj[e] == g.adjncy[e]
    requires forall e :: u <= e < g.xadj[v + 1] ==> adj[e] == g.adjncy[u + g.xadj[v + 1] - 1 - e]
    ensures forall t :: g.Adjacent(v, t) ==> exists e :: g.xadj[v] <= e < g.xadj[v + 1] && adj[e] == t
  {
    forall t | g.Adjacent(v, t)
      ensures exists e :: g.xadj[v] <= e < g.xadj[v + 1] && adj[e] == t
    {
      var m :| g.IsArc(v, m) && g.adjncy[m] == t;
      var e := if m < u then m else u + g.xadj[v + 1] - 1 - m;
      assert adj[e] == t;
    }
  }

  lemma SortedRow(g: Graph, v: int)
    requires g.Valid() && SortedRows(g) && g.IsVertex(v)
    ensures forall d, e :: g.xadj[v] <= d < e < g.xadj[v + 1] ==> g.adjncy[d] < g.adjncy[e]
  {
    forall d, e | g.xadj[v] <= d < e < g.xadj[v + 1]
      ensures g.adjncy[d] < g.adjncy[e]
    {
      assert g.IsArc(v, d) && g.IsArc(v, e);
    }
  }

  lemma RowIsAdjacent(g: Graph, v: int)
    requires g.Valid() && g.IsVertex(v)
    ensures forall e :: g.xadj[v] <= e < g.xadj[v + 1] ==> g.Adjacent(v, g.adjncy[e])
  {
    forall e | g.xadj[v] <= e < g.xadj[v + 1]
      ensures g.Adjacent(v, g.adjncy[e])
    {
      assert g.IsArc(v, e);
    }
  }

  lemma FlippedOrder(row: seq<int>, adj: seq<int>, lo: int, u: int, hi: int)
    requires 0 <= lo <= u <= hi <= |adj| == |row|
    requires forall d, e :: lo <= d < e < hi ==> row[d] < row[e]
    requires forall e :: lo <= e < u ==> adj[e] == row[e]
    requires forall e :: u <= e < hi ==> adj[e] == row[u + hi - 1 - e]
    ensures forall d, e :: lo <= d < e < u ==> adj[d] < adj[e]
    ensures forall d, e :: u <= d < e < hi ==> adj[d] > adj[e]
    ensures forall e :: u <= e < hi ==> adj[e] >= row[u]
  {
    forall e | u <= e < hi
      ensures adj[e] >= row[u]
    {
      var m := u + hi - 1 - e;
      assert adj[e] == row[m];
    }
  }

  /** Rows below v are split, the others untouched. */
  ghost predicate SplitBelow(g: Graph, adj: seq<int>, uxadj: seq<int>, v: int)
    requires g.Valid()
  {
    && |adj| == |g.adjncy| && |uxadj| == g.nvtxs && 0 <= v <= g.nvtxs
    && (forall w :: 0 <= w < v ==> RowSplit(g, adj, w, uxadj[w]))
    && (forall e :: g.xadj[v] <= e < |adj| ==> adj[e] == g.adjncy[e])
  }

  lemma SplitStep(g: Graph, was: seq<int>, adj: seq<int>, uxadj: seq<int>, v: int, u: int)
    requires g.Valid() && SortedRows(g) && SplitBelow(g, was, uxadj, v) && g.IsVertex(v) && |adj| == |was|
    requires g.xadj[v] <= u <= g.xadj[v + 1] <= |adj|
    requires forall e :: g.xadj[v] <= e < u ==> was[e] < v
    requires u < g.xadj[v + 1] ==> was[u] >= v
    requires forall e :: 0 <= e < u || g.xadj[v + 1] <= e < |adj| ==> adj[e] == was[e]
    requires forall e :: u <= e < g.xadj[v + 1] ==> adj[e] == was[u + g.xadj[v + 1] - 1 - e]
    ensures SplitBelow(g, adj, uxadj[v := u], v + 1)
  {
    FlipSplits(g, adj, v, u);
    forall w | 0 <= w < v
      ensures RowSplit(g, adj, w, uxadj[w])
    {
      assert g.xadj[w + 1] <= g.xadj[v];
      SameSplit(g, was, adj, w, uxadj[w]);
    }
  }

  lemma SameSplit(g: Graph, was: seq<int>, adj: seq<int>, v: int, u: int)
    requires g.Valid() && g.IsVertex(v) && |adj| == |was| == |g.adjncy| && RowSplit(g, was, v, u)
    requires forall e :: g.xadj[v] <= e < g.xadj[v + 1] ==> adj[e] == was[e]
    ensures RowSplit(g, adj, v, u)
  {
    forall t | g.Adjacent(v, t)
      ensures exists e :: g.xadj[v] <= e < g.xadj[v + 1] && adj[e] == t
    {
      var e :| g.xadj[v] <= e < g.xadj[v + 1] && was[e] == t;
      assert adj[e] == t;
    }
  }

  method FlipUpper(g: Graph, adjncy: array<int>) returns (uxadj: array<int>)
    requires g.Valid() && SortedRows(g) && adjncy[..] == g.adjncy
    modifies adjncy
    ensures fresh(uxadj) && AllSplit(g, adjncy[..], uxadj[..])
  {
    hide RowSplit, SortedRows;
    uxadj := new int[g.nvtxs];
    for vi := 0 to g.nvtxs
      invariant SplitBelow(g, adjncy[..], uxadj[..], vi)
    {
      ghost var was := adjncy[..];
      var u := FlipRow(g, adjncy, vi);
      SplitStep(g, was, adjncy[..], uxadj[..], vi, u);
      uxadj[vi] := u;
    }
  }

  // ----- The hash map of positive numbers, 0 marking an empty slot -----

  /** A probe for k meets slot j before slot i. */
  ghost predicate Earlier(n: int, k: int, j: int, i: int)
    requires n > 0
  {
    HashTable.Steps(n, k % n, j) < HashTable.Steps(n, k % n, i)
  }

  /** The map holds exactly these numbers, each once. */
  ghost predicate Holds(s: seq<int>, held: set<int>)
  {
    && (forall i :: 0 <= i < |s| && s[i] != 0 ==> s[i] in held)
    && (forall k :: k in held ==> k > 0 && k in s)
    && (forall i, j :: 0 <= i < j < |s| && s[i] != 0 ==> s[i] != s[j])
  }

  /** No empty slot lies between a number's hash slot and its place. */
  ghost predicate Probed(s: seq<int>)
    requires |s| > 0
  {
    forall i, j :: 0 <= i < |s| && 0 <= j < |s| && s[i] != 0 && Earlier(|s|, s[i], j, i) ==> s[j] != 0
  }

  lemma {:induction false} SomeEmpty(s: seq<int>, held: set<int>) returns (z: int)
    requires Holds(s, held) && |held| < |s|
    ensures 0 <= z < |s| && s[z] == 0
  {
    if i :| 0 <= i < |s| && s[i] == 0 {
      z := i;
    } else {
      DistinctCount(s);
      CardinalityMonotone((set x | x in s), held);
      z := 0;
    }
  }

  lemma InsertStep(s: seq<int>, held: set<int>, k: int, l: int)
    requires |s| > 0 && Holds(s, held) && Probed(s) && k > 0 && k !in held && 0 <= l < |s| && s[l] == 0
    requires forall j :: 0 <= j < |s| && Earlier(|s|, k, j, l) ==> s[j] != 0
    ensures Holds(s[l := k], held + {k}) && Probed(s[l := k])
  {
    var s' := s[l := k];
    forall x | x in held + {k}
      ensures x in s'
    {
      if x == k {
        assert s'[l] == k;
      } else {
        var i :| 0 <= i < |s| && s[i] == x;
        assert s'[i] == x;
      }
    }
  }

  lemma RemoveStep(s: seq<int>, held: set<int>, k: int, l: int)
    requires Holds(s, held) && 0 <= l < |s| && s[l] == k > 0
    ensures Holds(s[l := 0], held - {k})
  {
    var s' := s[l := 0];
    forall x | x in held - {k}
      ensures x in s'
    {
      var i :| 0 <= i < |s| && s[i] == x;
      assert s'[i] == x;
    }
  }

  /** The three loop conditions: inserting, looking up, removing. */
  datatype Goal = Empty | EmptyOrKey | Key

  predicate Stops(goal: Goal, x: int, k: int)
  {
    match goal
    case Empty => x == 0
    case EmptyOrKey => x == 0 || x == k
    case Key => x == k
  }

  /** Follows k's probe sequence, wrapping around, to the first slot that meets the goal. */
  method Probe(hmap: array<int>, k: int, goal: Goal, ghost z: int) returns (l: int)
    requires 0 <= z < hmap.Length && Stops(goal, hmap[z], k)
    ensures 0 <= l < hmap.Length && Stops(goal, hmap[l], k)
    ensures forall j :: 0 <= j < hmap.Length && Earlier(hmap.Length, k, j, l) ==> !Stops(goal, hmap[j], k)
  {
    var n := hmap.Length;
    l := k % n;
    while !Stops(goal, hmap[l], k)
      invariant 0 <= l < n
      invariant forall j :: 0 <= j < n && Earlier(n, k, j, l) ==> !Stops(goal, hmap[j], k)
      decreases n - HashTable.Steps(n, k % n, l)
    {
      assert !Earlier(n, k, z, l);
      NextSlot(n, k % n, l, z);
      l := (l + 1) % n;
    }
  }

  lemma NextSlot(n: int, first: int, l: int, z: int)
    requires 0 <= first < n && 0 <= l < n && 0 <= z < n && z != l
    requires HashTable.Steps(n, first, l) <= HashTable.Steps(n, first, z)
    ensures 0 <= (l + 1) % n < n && HashTable.Steps(n, first, (l + 1) % n) == HashTable.Steps(n, first, l) + 1
  {
    Wrap(n, l + 1);
  }

  lemma Wrap(n: int, x: int)
    requires 0 <= x <= n && 0 < n
    ensures x % n == if x == n then 0 else x
  {
  }

  // ----- Counting -----

  ghost function Values(adj: seq<int>, lo: int, hi: int): set<int>
    requires 0 <= lo && hi <= |adj|
  {
    set e | lo <= e < hi :: adj[e]
  }

  lemma ValuesGrow(adj: seq<int>, lo: int, hi: int)
    requires 0 <= lo <= hi < |adj|
    ensures Values(adj, lo, hi + 1) == Values(adj, lo, hi) + {adj[hi]}
  {
  }

  lemma {:induction false} ValuesCount(adj: seq<int>, lo: int, hi: int)
    requires 0 <= lo <= hi <= |adj|
    ensures |Values(adj, lo, hi)| <= hi - lo
    decreases hi
  {
    if lo < hi {
      ValuesCount(adj, lo, hi - 1);
      ValuesGrow(adj, lo, hi - 1);
    } else {
      assert Values(adj, lo, hi) == {};
    }
  }

  /** Hashes the descending positive numbers adj[lo..hi]. */
  method HashRow(adjncy: array<int>, lo: int, hi: int, hmap: array<int>)
    requires adjncy != hmap && 0 <= lo <= hi <= adjncy.Length && hi - lo < hmap.Length
    requires forall e :: lo <= e < hi ==> adjncy[e] > 0
    requires forall d, e :: lo <= d < e < hi ==> adjncy[d] > adjncy[e]
    requires Holds(hmap[..], {}) && Probed(hmap[..])
    modifies hmap
    ensures Holds(hmap[..], Values(adjncy[..], lo, hi)) && Probed(hmap[..])
  {
    hide Holds, Probed, Values, Earlier;
    ghost var adj := adjncy[..];
    NoValues(adj, lo);
    for ej := lo to hi
      invariant Holds(hmap[..], Values(adj, lo, ej)) && Probed(hmap[..])
    {
      var vk := adjncy[ej];
      ValuesCount(adj, lo, ej);
      NewValue(adj, lo, ej);
      ghost var z := SomeEmpty(hmap[..], Values(adj, lo, ej));
      var l := Probe(hmap, vk, Empty, z);
      InsertStep(hmap[..], Values(adj, lo, ej), vk, l);
      ghost var s := hmap[..];
      hmap[l] := vk;
      assert hmap[..] == s[l := vk];
      ValuesGrow(adj, lo, ej);
    }
  }

  lemma NoValues(adj: seq<int>, lo: int)
    requires 0 <= lo <= |adj|
    ensures Values(adj, lo, lo) == {}
  {
  }

  lemma NewValue(adj: seq<int>, lo: int, e: int)
    requires 0 <= lo <= e < |adj| && forall d :: lo <= d < e ==> adj[d] > adj[e]
    ensures adj[e] !in Values(adj, lo, e)
  {
  }

  /** Empties the map again, number by number. */
  method ResetHash(adjncy: array<int>, lo: int, hi: int, hmap: array<int>)
    requires adjncy != hmap && 0 <= lo <= hi <= adjncy.Length && 0 < hmap.Length
    requires forall d, e :: lo <= d < e < hi ==> adjncy[d] > adjncy[e]
    requires Holds(hmap[..], Values(adjncy[..], lo, hi))
    modifies hmap
    ensures forall l :: 0 <= l < hmap.Length ==> hmap[l] == 0
    ensures Holds(hmap[..], {}) && Probed(hmap[..])
  {
    hide Holds, Probed, Values, Earlier;
    ghost var adj := adjncy[..];
    for ej := lo to hi
      invariant Holds(hmap[..], Values(adj, ej, hi))
    {
      var vk := adjncy[ej];
      ghost var s := hmap[..];
      ghost var z := StillThere(s, adj, ej, hi);
      var l := Probe(hmap, vk, Key, z);
      RemoveStep(s, Values(adj, ej, hi), vk, l);
      hmap[l] := 0;
      assert hmap[..] == s[l := 0];
      ValuesShrink(adj, ej, hi);
    }
    NoValues(adj, hi);
    EmptyMap(hmap[..]);
    assert forall l :: 0 <= l < hmap.Length ==> hmap[..][l] == hmap[l];
  }

  lemma StillThere(s: seq<int>, adj: seq<int>, e: int, hi: int) returns (z: int)
    requires 0 <= e < hi <= |adj| && Holds(s, Values(adj, e, hi))
    ensures 0 <= z < |s| && s[z] == adj[e] > 0
  {
    assert adj[e] in Values(adj, e, hi);
    z :| 0 <= z < |s| && s[z] == adj[e];
  }

  lemma ValuesShrink(adj: seq<int>, lo: int, hi: int)
    requires 0 <= lo < hi <= |adj| && forall d, e :: lo <= d < e < hi ==> adj[d] > adj[e]
    ensures Values(adj, lo, hi) - {adj[lo]} == Values(adj, lo + 1, hi)
  {
  }

  lemma EmptyMap(s: seq<int>)
    requires Holds(s, {}) && |s| > 0
    ensures Probed(s) && forall l :: 0 <= l < |s| ==> s[l] == 0
  {
  }

  /** What a probe that stops at vk or at an empty slot has found. */
  lemma LookupTells(s: seq<int>, held: set<int>, k: int, l: int)
    requires |s| > 0 && Holds(s, held) && Probed(s) && k > 0 && 0 <= l < |s| && (s[l] == 0 || s[l] == k)
    requires forall j :: 0 <= j < |s| && Earlier(|s|, k, j, l) ==> s[j] != 0 && s[j] != k
    ensures s[l] == k <==> k in held
  {
    forall i | 0 <= i < |s| && s[i] == k
      ensures i == l
    {
      if i != l {
        OneFirst(|s|, k % |s|, i, l);
      }
    }
  }

  lemma OneFirst(n: int, first: int, i: int, j: int)
    requires 0 <= first < n && 0 <= i < n && 0 <= j < n && i != j
    ensures HashTable.Steps(n, first, i) != HashTable.Steps(n, first, j)
  {
  }

  // ----- Counting steps, as sets -----

  /** Below the diagonal a row is its lower part, above it the upper part. */
  lemma UpperPart(g: Graph, adj: seq<int>, uxadj: seq<int>, j: int, k: int)
    requires g.Valid() && AllSplit(g, adj, uxadj) && g.IsVertex(j) && j < k
    ensures 0 <= uxadj[j] <= g.xadj[j + 1] <= |adj|
    ensures k in Values(adj, uxadj[j], g.xadj[j + 1]) <==> g.Adjacent(j, k)
  {
    assert RowSplit(g, adj, j, uxadj[j]);
    if g.Adjacent(j, k) {
      var e :| g.xadj[j] <= e < g.xadj[j + 1] && adj[e] == k;
    }
  }

  lemma LowerPart(g: Graph, adj: seq<int>, uxadj: seq<int>, j: int, i: int)
    requires g.Valid() && AllSplit(g, adj, uxadj) && g.IsVertex(j) && i < j
    ensures 0 <= g.xadj[j] <= uxadj[j] <= |adj|
    ensures i in Values(adj, g.xadj[j], uxadj[j]) <==> g.Adjacent(j, i)
  {
    assert RowSplit(g, adj, j, uxadj[j]);
    if g.Adjacent(j, i) {
      var e :| g.xadj[j] <= e < g.xadj[j + 1] && adj[e] == i;
    }
  }

  lemma RowFacts(g: Graph, adj: seq<int>, uxadj: seq<int>, v: int)
    requires g.Valid() && AllSplit(g, adj, uxadj) && g.IsVertex(v)
    ensures |uxadj| == g.nvtxs && 0 <= g.xadj[v] <= uxadj[v] <= g.xadj[v + 1] <= |adj|
    ensures forall e :: g.xadj[v] <= e < uxadj[v] ==> 0 <= adj[e] < v && g.Adjacent(v, adj[e])
    ensures forall e :: uxadj[v] <= e < g.xadj[v + 1] ==> v <= adj[e] < g.nvtxs && g.Adjacent(v, adj[e])
    ensures forall d, e :: g.xadj[v] <= d < e < uxadj[v] ==> adj[d] < adj[e]
    ensures forall d, e :: uxadj[v] <= d < e < g.xadj[v + 1] ==> adj[d] > adj[e]
  {
    assert RowSplit(g, adj, v, uxadj[v]);
  }

  /** Those of the third vertices that stand in adj[lo..e]. */
  ghost function Met(third: set<int>, adj: seq<int>, lo: int, e: int): set<int>
    requires 0 <= lo && e <= |adj|
  {
    third * Values(adj, lo, e)
  }

  lemma MetStep(third: set<int>, adj: seq<int>, lo: int, e: int)
    requires 0 <= lo <= e < |adj| && forall d :: lo <= d < e ==> adj[d] > adj[e]
    ensures |Met(third, adj, lo, e + 1)| == |Met(third, adj, lo, e)| + if adj[e] in third then 1 else 0
  {
    NewValue(adj, lo, e);
    ValuesGrow(adj, lo, e);
    if adj[e] in third {
      assert Met(third, adj, lo, e + 1) == Met(third, adj, lo, e) + {adj[e]};
    } else {
      assert Met(third, adj, lo, e + 1) == Met(third, adj, lo, e);
    }
  }

  /** The scan may stop at the first neighbour of i that is not above j. */
  lemma MetAll(g: Graph, adj: seq<int>, uxadj: seq<int>, i: int, j: int, e: int)
    requires g.Valid() && AllSplit(g, adj, uxadj) && g.IsVertex(i) && i < j && uxadj[i] <= e <= g.xadj[i + 1]
    requires e < g.xadj[i + 1] && e < |adj| ==> adj[e] <= j
    ensures 0 <= uxadj[i] && e <= |adj| && Met(Third(g, i, j), adj, uxadj[i], e) == Third(g, i, j)
  {
    RowFacts(g, adj, uxadj, i);
    forall k | k in Third(g, i, j)
      ensures k in Values(adj, uxadj[i], e)
    {
      UpperPart(g, adj, uxadj, i, k);
      var d :| uxadj[i] <= d < g.xadj[i + 1] && adj[d] == k;
      assert d < e;
    }
  }

  method CountThird(g: Graph, ghost uxadj: seq<int>, adjncy: array<int>, start: int, vi: int, vj: int, hmap: array<int>,
                    ghost z: int, ntriangles: int)
    returns (ok: bool, n: int)
    requires g.Valid() && AllSplit(g, adjncy[..], uxadj) && 0 <= vi < vj < g.nvtxs && start == uxadj[vi]
    requires 0 <= uxadj[vj] <= g.xadj[vj + 1] <= adjncy.Length
    requires 0 <= z < hmap.Length && hmap[z] == 0
    requires Holds(hmap[..], Values(adjncy[..], uxadj[vj], g.xadj[vj + 1])) && Probed(hmap[..])
    requires ntriangles <= INT64_MAX
    ensures ok == (ntriangles + |Third(g, vi, vj)| <= INT64_MAX)
    ensures ok ==> n == ntriangles + |Third(g, vi, vj)|
  {
    hide Holds, Probed, Values, Earlier, AllSplit, Met, Third;
    ghost var adj := adjncy[..];
    RowFacts(g, adj, uxadj, vi);
    ghost var third := Third(g, vi, vj);
    n := ntriangles;
    NoneMet(third, adj, start);
    var ei := start;
    while ei < g.xadj[vi + 1] && adjncy[ei] > vj
      invariant start <= ei <= g.xadj[vi + 1] <= |adj|
      invariant n == ntriangles + |Met(third, adj, start, ei)| <= INT64_MAX
    {
      var vk := adjncy[ei];
      var l := Probe(hmap, vk, EmptyOrKey, z);
      LookupTells(hmap[..], Values(adj, uxadj[vj], g.xadj[vj + 1]), vk, l);
      UpperPart(g, adj, uxadj, vj, vk);
      InThird(g, vi, vj, vk);
      MetStep(third, adj, start, ei);
      if hmap[l] == vk {
        if n == INT64_MAX {
          MetSome(third, adj, start, ei + 1);
          return false, n;
        }
        n := n + 1;
      }
      ei := ei + 1;
    }
    MetAll(g, adj, uxadj, vi, vj, ei);
    ok := true;
  }

  lemma NoneMet(third: set<int>, adj: seq<int>, lo: int)
    requires 0 <= lo <= |adj|
    ensures |Met(third, adj, lo, lo)| == 0
  {
    assert Met(third, adj, lo, lo) == {};
  }

  lemma MetSome(third: set<int>, adj: seq<int>, lo: int, e: int)
    requires 0 <= lo && e <= |adj|
    ensures |Met(third, adj, lo, e)| <= |third|
  {
    CardinalityMonotone(Met(third, adj, lo, e), third);
  }

  lemma InThird(g: Graph, i: int, j: int, k: int)
    requires g.Valid() && g.Adjacent(i, k) && j < k < g.nvtxs && 0 <= j
    ensures k in Third(g, i, j) <==> g.Adjacent(j, k)
  {
  }

  /** The triangles with middle vertex j whose first vertex stands in adj[lo..e]. */
  ghost function Begun(g: Graph, adj: seq<int>, j: int, lo: int, e: int): set<(int, int, int)>
    requires g.Valid() && 0 <= lo && e <= |adj|
  {
    set t | t in Middle(g, j) && t.0 in Values(adj, lo, e)
  }

  ghost function Fan(i: int, j: int, third: set<int>): set<(int, int, int)>
  {
    set k | k in third :: (i, j, k)
  }

  lemma {:induction false} FanCount(i: int, j: int, third: set<int>)
    ensures |Fan(i, j, third)| == |third|
  {
    if k :| k in third {
      FanCount(i, j, third - {k});
      assert Fan(i, j, third) == Fan(i, j, third - {k}) + {(i, j, k)};
    } else {
      assert forall k :: k !in third;
      assert |third| == 0 && Fan(i, j, third) == {};
    }
  }

  lemma BegunStep(g: Graph, adj: seq<int>, j: int, lo: int, e: int)
    requires g.Valid() && g.IsVertex(j) && 0 <= lo <= e < |adj| && 0 <= adj[e] < j && g.Adjacent(j, adj[e])
    requires forall d :: lo <= d < e ==> adj[d] < adj[e]
    ensures |Begun(g, adj, j, lo, e + 1)| == |Begun(g, adj, j, lo, e)| + |Third(g, adj[e], j)|
  {
    var i := adj[e];
    FanCount(i, j, Third(g, i, j));
    BegunMembers(g, adj, j, lo, e);
    hide Begun, Fan, Third;
    assert Begun(g, adj, j, lo, e + 1) == Begun(g, adj, j, lo, e) + Fan(i, j, Third(g, i, j));
  }

  lemma BegunMembers(g: Graph, adj: seq<int>, j: int, lo: int, e: int)
    requires g.Valid() && g.IsVertex(j) && 0 <= lo <= e < |adj| && 0 <= adj[e] < j && g.Adjacent(j, adj[e])
    requires forall d :: lo <= d < e ==> adj[d] < adj[e]
    ensures var i := adj[e];
            var fan := Fan(i, j, Third(g, i, j));
            && (forall t :: t in Begun(g, adj, j, lo, e + 1) <==> t in Begun(g, adj, j, lo, e) || t in fan)
            && Begun(g, adj, j, lo, e) !! fan
  {
    var i := adj[e];
    ValuesGrow(adj, lo, e);
    assert i !in Values(adj, lo, e);
    hide Values, Fan, Third, Middle;
    forall t: (int, int, int)
      ensures t in Begun(g, adj, j, lo, e + 1) <==> t in Begun(g, adj, j, lo, e) || t in Fan(i, j, Third(g, i, j))
    {
      FanIsMiddle(g, i, j, t);
    }
    forall t: (int, int, int) | t in Fan(i, j, Third(g, i, j))
      ensures t !in Begun(g, adj, j, lo, e)
    {
      FanIsMiddle(g, i, j, t);
    }
  }

  lemma FanIsMiddle(g: Graph, i: int, j: int, t: (int, int, int))
    requires g.Valid() && 0 <= i < j < g.nvtxs && g.Adjacent(j, i)
    ensures t in Fan(i, j, Third(g, i, j)) <==> t in Middle(g, j) && t.0 == i
  {
    if t in Middle(g, j) && t.0 == i {
      assert t == (i, j, t.2) && t.2 in Third(g, i, j);
    }
    if t in Fan(i, j, Third(g, i, j)) {
      assert Triangle(g, t.0, t.1, t.2);
    }
  }

  lemma BegunAll(g: Graph, adj: seq<int>, uxadj: seq<int>, j: int)
    requires g.Valid() && AllSplit(g, adj, uxadj) && g.IsVertex(j)
    ensures 0 <= g.xadj[j] && uxadj[j] <= |adj|
    ensures Begun(g, adj, j, g.xadj[j], uxadj[j]) == Middle(g, j)
  {
    RowFacts(g, adj, uxadj, j);
    forall t | t in Middle(g, j)
      ensures t.0 in Values(adj, g.xadj[j], uxadj[j])
    {
      LowerPart(g, adj, uxadj, j, t.0);
    }
  }

  lemma BegunSome(g: Graph, adj: seq<int>, j: int, lo: int, e: int)
    requires g.Valid() && 0 <= lo && e <= |adj|
    ensures |Begun(g, adj, j, lo, e)| <= |Middle(g, j)|
  {
    CardinalityMonotone(Begun(g, adj, j, lo, e), Middle(g, j));
  }

  lemma NoneBegun(g: Graph, adj: seq<int>, j: int, lo: int)
    requires g.Valid() && 0 <= lo <= |adj|
    ensures |Begun(g, adj, j, lo, lo)| == 0
  {
    assert Begun(g, adj, j, lo, lo) == {};
  }

  /** Adds the triangles with middle vertex vj to the count; false means that it would overflow. */
  method CountMiddle(g: Graph, adjncy: array<int>, uxadj: array<int>, vj: int, hmap: array<int>, ntriangles: int)
    returns (ok: bool, n: int)
    requires g.Valid() && AllSplit(g, adjncy[..], uxadj[..]) && g.IsVertex(vj) && {adjncy} !! {uxadj} !! {hmap}
    requires uxadj.Length == g.nvtxs && g.xadj[vj + 1] - uxadj[vj] < hmap.Length
    requires Holds(hmap[..], {}) && Probed(hmap[..]) && ntriangles <= INT64_MAX
    modifies hmap
    ensures ok == (ntriangles + |Middle(g, vj)| <= INT64_MAX)
    ensures ok ==> n == ntriangles + |Middle(g, vj)|
    ensures ok ==> Holds(hmap[..], {}) && Probed(hmap[..])
  {
    hide Holds, Probed, Values, AllSplit, Begun, Third, Middle, Earlier;
    ghost var adj, u := adjncy[..], uxadj[..];
    RowFacts(g, adj, u, vj);
    var lo, mid, hi := g.xadj[vj], uxadj[vj], g.xadj[vj + 1];
    if hi - mid == 0 || mid == lo {
      NoMiddle(g, adj, u, vj);
      return true, ntriangles;
    }
    LowerIsPositive(g, adj, u, vj);
    HashRow(adjncy, mid, hi, hmap);
    ghost var held := Values(adj, mid, hi);
    ValuesCount(adj, mid, hi);
    ghost var z := SomeEmpty(hmap[..], held);
    n := ntriangles;
    NoneBegun(g, adj, vj, lo);
    for ej := lo to mid
      invariant Holds(hmap[..], held) && Probed(hmap[..]) && hmap[z] == 0
      invariant n == ntriangles + |Begun(g, adj, vj, lo, ej)| <= INT64_MAX
    {
      var vi := adjncy[ej];
      assert g.Adjacent(vj, vi) && 0 <= vi < vj;
      RowFacts(g, adj, u, vi);
      BegunStep(g, adj, vj, lo, ej);
      ok, n := CountThird(g, u, adjncy, uxadj[vi], vi, vj, hmap, z, n);
      if !ok {
        BegunSome(g, adj, vj, lo, ej + 1);
        return;
      }
    }
    BegunAll(g, adj, u, vj);
    ResetHash(adjncy, mid, hi, hmap);
    ok := true;
  }

  lemma LowerIsPositive(g: Graph, adj: seq<int>, uxadj: seq<int>, j: int)
    requires g.Valid() && AllSplit(g, adj, uxadj) && g.IsVertex(j) && g.xadj[j] < uxadj[j]
    ensures 0 <= uxadj[j] <= g.xadj[j + 1] <= |adj|
    ensures forall e :: uxadj[j] <= e < g.xadj[j + 1] ==> adj[e] > 0
  {
    RowFacts(g, adj, uxadj, j);
    assert 0 <= adj[g.xadj[j]] < j;
  }

  lemma NoMiddle(g: Graph, adj: seq<int>, uxadj: seq<int>, j: int)
    requires g.Valid() && AllSplit(g, adj, uxadj) && g.IsVertex(j)
    requires uxadj[j] == g.xadj[j + 1] || uxadj[j] == g.xadj[j]
    ensures |Middle(g, j)| == 0
  {
    RowFacts(g, adj, uxadj, j);
    NoValues(adj, uxadj[j]);
    assert Middle(g, j) == {} by {
      forall t | t in Middle(g, j)
        ensures false
      {
        LowerPart(g, adj, uxadj, j, t.0);
        UpperPart(g, adj, uxadj, j, t.2);
      }
    }
  }

  // ----- The routine -----

  /** A power of two at least sixteen times the largest upper degree, unless that exceeds 2^31. */
  method TableSize(maxdegree: int) returns (ok: bool, tablesize: int)
    requires 0 <= maxdegree
    ensures ok == (maxdegree <= (INT32_MAX + 1) / 16)
    ensures ok ==> 32 <= tablesize <= INT32_MAX + 1 && 16 * maxdegree <= tablesize
    ensures ok ==> exists k: nat :: tablesize == Pow2(k)
  {
    tablesize := 32;
    ghost var k := 5;
    Powers();
    while tablesize / 16 < maxdegree
      invariant 5 <= k <= 31 && tablesize == Pow2(k) && 32 <= tablesize <= INT32_MAX + 1
      invariant tablesize == 32 || tablesize / 32 < maxdegree
      decreases INT32_MAX + 1 - tablesize
    {
      if tablesize > (INT32_MAX + 1) / 2 {
        if k <= 30 {
          Pow2Grows(k, 30);
        }
        return false, tablesize;
      }
      tablesize := 2 * tablesize;
      k := k + 1;
    }
    ok := true;
  }

  /** Six doublings. */
  lemma SixMore(k: nat)
    ensures Pow2(k + 6) == 64 * Pow2(k)
  {
    assert Pow2(k + 2) == 4 * Pow2(k);
    assert Pow2(k + 4) == 4 * Pow2(k + 2);
  }

  lemma Powers()
    ensures Pow2(5) == 32 && Pow2(31) == INT32_MAX + 1
  {
    SixMore(0);
    SixMore(1);
    SixMore(7);
    SixMore(13);
    SixMore(19);
    SixMore(25);
    assert Pow2(0) == 1 && Pow2(1) == 2;
    assert Pow2(6) == 2 * Pow2(5);
  }

  /** None if the table or the count would get too large. */
  datatype Count = None | Triangles(n: int)

  ghost predicate SmallDegrees(g: Graph)
    requires g.Valid()
  {
    forall v :: g.IsVertex(v) ==> |Above(g, v)| <= (INT32_MAX + 1) / 16
  }

  /** The neighbours of v from v on. */
  ghost function Above(g: Graph, v: int): set<int>
    requires g.Valid()
  {
    set t | t in Below(g.nvtxs) && v <= t && g.Adjacent(v, t)
  }

  lemma AboveCount(g: Graph, adj: seq<int>, uxadj: seq<int>, v: int)
    requires g.Valid() && AllSplit(g, adj, uxadj) && g.IsVertex(v)
    ensures |Above(g, v)| == g.xadj[v + 1] - uxadj[v]
  {
    RowFacts(g, adj, uxadj, v);
    var upper := adj[uxadj[v]..g.xadj[v + 1]];
    DistinctCount(upper);
    forall t | t in Above(g, v)
      ensures t in upper
    {
      assert RowSplit(g, adj, v, uxadj[v]);
      var e :| g.xadj[v] <= e < g.xadj[v + 1] && adj[e] == t;
      assert upper[e - uxadj[v]] == t;
    }
    assert Above(g, v) == set t | t in upper;
  }

  method MaxDegree(g: Graph, uxadj: array<int>, ghost adj: seq<int>) returns (maxdegree: int)
    requires g.Valid() && uxadj.Length == g.nvtxs && AllSplit(g, adj, uxadj[..])
    ensures 0 <= maxdegree && forall v :: g.IsVertex(v) ==> g.xadj[v + 1] - uxadj[v] <= maxdegree
    ensures SmallDegrees(g) <==> maxdegree <= (INT32_MAX + 1) / 16
  {
    maxdegree := 0;
    ghost var at := -1;
    hide AllSplit, Above;
    for vi := 0 to g.nvtxs
      invariant 0 <= maxdegree && forall v :: 0 <= v < vi ==> g.xadj[v + 1] - uxadj[v] <= maxdegree
      invariant -1 <= at < vi && maxdegree == if at == -1 then 0 else |Above(g, at)|
    {
      AboveCount(g, adj, uxadj[..], vi);
      var degree := g.xadj[vi + 1] - uxadj[vi];
      if degree > maxdegree {
        maxdegree, at := degree, vi;
      }
    }
    forall v | g.IsVertex(v)
      ensures |Above(g, v)| <= maxdegree
    {
      AboveCount(g, adj, uxadj[..], v);
    }
    assert at != -1 ==> g.IsVertex(at);
  }

  /** The triangles whose middle vertex has been dealt with. */
  ghost function MiddleIn(g: Graph, order: seq<int>): set<(int, int, int)>
    requires g.Valid()
  {
    set t | t in AllTriangles(g) && t.1 in order
  }

  lemma MiddleStep(g: Graph, order: seq<int>, j: int)
    requires g.Valid() && j !in order
    ensures |MiddleIn(g, order + [j])| == |MiddleIn(g, order)| + |Middle(g, j)|
  {
    assert MiddleIn(g, order + [j]) == MiddleIn(g, order) + Middle(g, j);
    assert MiddleIn(g, order) !! Middle(g, j);
  }

  lemma MiddleSome(g: Graph, order: seq<int>)
    requires g.Valid()
    ensures |MiddleIn(g, order)| <= |AllTriangles(g)|
    ensures (forall v :: g.IsVertex(v) ==> v in order) ==> MiddleIn(g, order) == AllTriangles(g)
  {
    CardinalityMonotone(MiddleIn(g, order), AllTriangles(g));
    forall t | t in AllTriangles(g)
      ensures g.IsVertex(t.1)
    {
    }
  }

  /** Every row still has its neighbours, with the upper part reversed. */
  ghost predicate Flipped(g: Graph, adj: seq<int>)
    requires g.Valid()
  {
    exists uxadj :: AllSplit(g, adj, uxadj)
  }

  /** Counts every triangle once, whatever the vertex order. The rows of adjncy are left with their
      upper parts reversed. */
  method CountTriangles(g: Graph, adjncy: array<int>, iperm: seq<int>) returns (r: Count)
    requires g.Valid() && SortedRows(g) && adjncy[..] == g.adjncy
    requires |iperm| == g.nvtxs && (forall v :: v in iperm ==> g.IsVertex(v))
             && (forall v :: g.IsVertex(v) ==> v in iperm)
    requires forall i, j :: 0 <= i < j < |iperm| ==> iperm[i] != iperm[j]
    modifies adjncy
    ensures Flipped(g, adjncy[..])
    ensures r == if SmallDegrees(g) && |AllTriangles(g)| <= INT64_MAX then Triangles(|AllTriangles(g)|) else None
  {
    hide AllSplit, AllTriangles, MiddleIn, Middle, SmallDegrees, SortedRows, Holds, Probed;
    var uxadj := FlipUpper(g, adjncy);
    ghost var adj, u := adjncy[..], uxadj[..];
    SplitLength(g, adj, u);
    var maxdegree := MaxDegree(g, uxadj, adj);
    var ok, tablesize := TableSize(maxdegree);
    if !ok {
      return None;
    }
    var hmap := new int[tablesize](_ => 0);
    FreshMap(hmap[..]);
    var ntriangles := 0;
    NoneCounted(g);
    for vjj := 0 to g.nvtxs
      invariant adjncy[..] == adj && uxadj[..] == u && Holds(hmap[..], {}) && Probed(hmap[..])
      invariant ntriangles == |MiddleIn(g, iperm[..vjj])| <= INT64_MAX
    {
      var vj := iperm[vjj];
      assert vj in iperm && uxadj[vj] == u[vj];
      assert iperm[..vjj + 1] == iperm[..vjj] + [vj];
      MiddleStep(g, iperm[..vjj], vj);
      MiddleSome(g, iperm[..vjj + 1]);
      ok, ntriangles := CountMiddle(g, adjncy, uxadj, vj, hmap, ntriangles);
      if !ok {
        return None;
      }
    }
    assert iperm[..g.nvtxs] == iperm;
    MiddleSome(g, iperm);
    return Triangles(ntriangles);
  }

  lemma NoneCounted(g: Graph)
    requires g.Valid()
    ensures |MiddleIn(g, [])| == 0
  {
    assert MiddleIn(g, []) == {};
  }

  lemma FreshMap(s: seq<int>)
    requires |s| > 0 && forall l :: 0 <= l < |s| ==> s[l] == 0
    ensures Holds(s, {}) && Probed(s)
  {
  }

  lemma SplitLength(g: Graph, adj: seq<int>, uxadj: seq<int>)
    requires g.Valid() && AllSplit(g, adj, uxadj)
    ensures |uxadj| == g.nvtxs
  {
  }
}
