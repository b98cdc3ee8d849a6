/** gk_graph_ComputeBFSOrdering and gk_graph_FindComponents (src/graph.c): one traversal, kept once
    in a single closed/open/todo array and once with a separate todo list. */
module BreadthFirst {
  import opened Arrays
  import opened Graphs

  // ----- Breadth-first orders -----

  /** The first position with an arc to order[k], or k itself if no earlier position has one. */
  ghost function Parent(g: Graph, order: seq<int>, k: int): (p: int)
    requires g.Valid() && 0 <= k < |order|
    ensures 0 <= p <= k && (p < k ==> g.Adjacent(order[p], order[k]))
    ensures forall q :: 0 <= q < p ==> !g.Adjacent(order[q], order[k])
  {
    ParentFrom(g, order, k, 0)
  }

  ghost function ParentFrom(g: Graph, order: seq<int>, k: int, q: int): (p: int)
    requires g.Valid() && 0 <= q <= k < |order|
    requires forall x :: 0 <= x < q ==> !g.Adjacent(order[x], order[k])
    ensures 0 <= p <= k && (p < k ==> g.Adjacent(order[p], order[k]))
    ensures forall x :: 0 <= x < p ==> !g.Adjacent(order[x], order[k])
    decreases k - q
  {
    if q == k || g.Adjacent(order[q], order[k]) then q else ParentFrom(g, order, k, q + 1)
  }

  /** First come, first served: vertices appear in the order of their parents, and those with the same
      parent in the order of its arcs. */
  ghost predicate Breadth(g: Graph, order: seq<int>)
    requires g.Valid()
  {
    && (forall i, j :: 0 <= i <= j < |order| ==> Parent(g, order, i) <= Parent(g, order, j))
    && Siblings(g, order)
  }

  /** Among the arcs of v, the first one to x comes before all those to y. */
  ghost predicate ComesBefore(g: Graph, v: int, x: int, y: int)
    requires g.Valid()
  {
    exists e :: g.IsArc(v, e) && g.adjncy[e] == x && forall d :: g.IsArc(v, d) && d <= e ==> g.adjncy[d] != y
  }

  ghost predicate Siblings(g: Graph, order: seq<int>)
    requires g.Valid()
  {
    forall i, j :: 0 <= i < j < |order| && Parent(g, order, i) == Parent(g, order, j) < i ==>
      ComesBefore(g, order[Parent(g, order, i)], order[i], order[j])
  }

  /** Some walk of at most d arcs leads from s to t. */
  ghost predicate Within(g: Graph, s: int, t: int, d: int)
    requires g.Valid()
  {
    exists w :: IsWalk(g, s, t, w) && Length(w) <= d
  }

  lemma OneFurther(g: Graph, s: int, u: int, t: int, d: int)
    requires g.Valid() && Within(g, s, u, d) && g.Adjacent(u, t)
    ensures Within(g, s, t, d + 1)
  {
    var w :| IsWalk(g, s, u, w) && Length(w) <= d;
    var e :| g.IsArc(u, e) && g.adjncy[e] == t;
    assert IsWalk(g, s, t, Via(w, u, e)) && Length(Via(w, u, e)) <= d + 1;
  }

  /** A vertex that comes earlier is no farther from the first one; so the vertices that the first
      one reaches come before all others, in non-decreasing hop distance. */
  lemma {:induction false} HopsAscend(g: Graph, perm: seq<int>, order: seq<int>, i: int, j: int, d: int)
    requires g.Valid() && |perm| == g.nvtxs && Inverse(perm, order) && Breadth(g, order)
    requires 0 <= i <= j < |order| && Within(g, order[0], order[j], d)
    ensures Within(g, order[0], order[i], d)
    decreases d
  {
    hide Siblings;
    var w :| IsWalk(g, order[0], order[j], w) && Length(w) <= d;
    match w
    case Start =>
      assert perm[order[0]] == 0 && perm[order[j]] == j;
    case Via(w', u, e) =>
      var q := perm[u];
      assert IsWalk(g, order[0], u, w') && Length(w') <= d - 1;
      assert order[q] == u && g.Adjacent(u, order[j]) && Within(g, order[0], u, d - 1);
      assert Parent(g, order, j) <= q;
      var p := Parent(g, order, i);
      assert p <= q;
      HopsAscend(g, perm, order, p, q, d - 1);
      if p < i {
        OneFurther(g, order[0], order[p], order[i], d - 1);
      } else {
        var w2 :| IsWalk(g, order[0], order[i], w2) && Length(w2) <= d - 1;
        assert Length(w2) <= d;
      }
  }

  lemma ReachableFirst(g: Graph, perm: seq<int>, order: seq<int>, i: int, j: int)
    requires g.Valid() && |perm| == g.nvtxs && Inverse(perm, order) && Breadth(g, order)
    requires 0 <= i <= j < |order| && Reachable(g, order[0], order[j])
    ensures Reachable(g, order[0], order[i])
  {
    var w :| IsWalk(g, order[0], order[j], w);
    HopsAscend(g, perm, order, i, j, Length(w));
  }

  // ----- There is only one breadth-first order of what the first vertex reaches -----

  /** No arc leads from before a vertex without an earlier neighbour to that vertex or behind it. */
  lemma {:induction false} StaysBefore(g: Graph, perm: seq<int>, order: seq<int>, k: int, t: int, w: Walk)
    requires g.Valid() && |perm| == g.nvtxs && Inverse(perm, order) && Breadth(g, order)
    requires 0 < k < |order| && Parent(g, order, k) == k && IsWalk(g, order[0], t, w)
    ensures g.IsVertex(t) && perm[t] < k
    decreases w
  {
    hide Siblings;
    match w
    case Start =>
      assert perm[order[0]] == 0;
    case Via(w', u, e) =>
      StaysBefore(g, perm, order, k, u, w');
      assert g.Adjacent(order[perm[u]], order[perm[t]]);
      assert Parent(g, order, perm[t]) <= perm[u];
  }

  /** Every vertex that the first one reaches has its parent before it. */
  lemma ParentBefore(g: Graph, perm: seq<int>, order: seq<int>, k: int)
    requires g.Valid() && |perm| == g.nvtxs && Inverse(perm, order) && Breadth(g, order)
    requires 0 < k < |order| && Reachable(g, order[0], order[k])
    ensures Parent(g, order, k) < k
  {
    hide Breadth;
    var w :| IsWalk(g, order[0], order[k], w);
    if Parent(g, order, k) == k {
      StaysBefore(g, perm, order, k, order[k], w);
    }
  }

  lemma NotBothFirst(g: Graph, v: int, x: int, y: int)
    requires g.Valid()
    ensures !ComesBefore(g, v, x, y) || !ComesBefore(g, v, y, x)
  {
    if ComesBefore(g, v, x, y) {
      var e :| g.IsArc(v, e) && g.adjncy[e] == x && forall d :: g.IsArc(v, d) && d <= e ==> g.adjncy[d] != y;
      assert forall d :: g.IsArc(v, d) && g.adjncy[d] == y ==> e <= d;
    }
  }

  /** Position i of one order and position k of another hold the same vertex, and the orders agree up to
      its parent. */
  lemma SameParents(g: Graph, order: seq<int>, order': seq<int>, i: int, k: int)
    requires g.Valid() && 0 <= i <= k < |order'| && i < |order| && order[i] == order'[k]
    requires order[..i] == order'[..i] && Parent(g, order, i) < i
    ensures Parent(g, order', k) == Parent(g, order, i)
  {
    var p := Parent(g, order, i);
    assert forall q :: 0 <= q < i ==> order[..i][q] == order[q] && order'[..i][q] == order'[q];
    forall q | 0 <= q < p
      ensures !g.Adjacent(order'[q], order'[k])
    {
      assert !g.Adjacent(order[q], order[i]);
    }
    ParentIs(g, order', k, p);
  }

  /** Two breadth-first orders from the same vertex agree on everything that it reaches. */
  lemma {:induction false} Determined(g: Graph, perm: seq<int>, order: seq<int>, perm': seq<int>, order': seq<int>,
                                      i: int)
    requires g.Valid() && |perm| == |perm'| == g.nvtxs && Inverse(perm, order) && Inverse(perm', order')
    requires Breadth(g, order) && Breadth(g, order') && g.nvtxs > 0 && order[0] == order'[0]
    requires 0 <= i < |order| && Reachable(g, order[0], order[i])
    ensures order[..i + 1] == order'[..i + 1]
    decreases i
  {
    if i > 0 {
      ReachableFirst(g, perm, order, i - 1, i);
      Determined(g, perm, order, perm', order', i - 1);
      assert order[..i] == order'[..i];
      SameNext(g, perm, order, perm', order', i);
      assert order[..i + 1] == order[..i] + [order[i]] && order'[..i + 1] == order'[..i] + [order'[i]];
    }
  }

  lemma SameNext(g: Graph, perm: seq<int>, order: seq<int>, perm': seq<int>, order': seq<int>, i: int)
    requires g.Valid() && |perm| == |perm'| == g.nvtxs && Inverse(perm, order) && Inverse(perm', order')
    requires Breadth(g, order) && Breadth(g, order') && g.nvtxs > 0 && order[0] == order'[0]
    requires 0 < i < |order| && Reachable(g, order[0], order[i]) && order[..i] == order'[..i]
    ensures order[i] == order'[i]
  {
    hide ComesBefore, Breadth, Reachable;
    assert forall q :: 0 <= q < i ==> order[..i][q] == order[q] && order'[..i][q] == order'[q];
    ParentBefore(g, perm, order, i);
    if order[i] != order'[i] {
      NotBefore(perm, order, perm', order', i);
      ReachableFirst(g, perm', order', i, perm'[order[i]]);
      NotBothFirst(g, order[Parent(g, order, i)], order[i], order'[i]);
      NextBefore(g, perm, order, perm', order', i);
      NextBefore(g, perm', order', perm, order, i);
    }
  }

  /** If two orders differ at i, the vertex that one has there comes first among the arcs of its parent. */
  lemma NextBefore(g: Graph, perm: seq<int>, order: seq<int>, perm': seq<int>, order': seq<int>, i: int)
    requires g.Valid() && |perm| == |perm'| == g.nvtxs && Inverse(perm, order) && Inverse(perm', order')
    requires Breadth(g, order) && Breadth(g, order') && g.nvtxs > 0 && order[0] == order'[0]
    requires 0 < i < |order| && order[..i] == order'[..i] && order[i] != order'[i]
    requires Reachable(g, order[0], order[i]) && Reachable(g, order[0], order'[i])
    ensures
      var p := Parent(g, order, i);
      p <= Parent(g, order', i) && (p == Parent(g, order', i) ==> ComesBefore(g, order[p], order[i], order'[i]))
  {
    hide Reachable, ComesBefore, Graph.Adjacent;
    NotBefore(perm', order', perm, order, i);
    ParentBefore(g, perm', order', i);
    ParentBefore(g, perm, order, i);
    SameParents(g, order', order, i, perm[order'[i]]);
  }

  lemma NotBefore(perm: seq<int>, order: seq<int>, perm': seq<int>, order': seq<int>, i: int)
    requires |perm| == |perm'| && Inverse(perm, order) && Inverse(perm', order')
    requires 0 <= i < |order| && order[..i] == order'[..i]
    ensures i <= perm'[order[i]] < |order'| && order'[perm'[order[i]]] == order[i]
    ensures order[i] != order'[i] ==> i < perm'[order[i]]
  {
    var k := perm'[order[i]];
    assert forall q :: 0 <= q < i ==> order[..i][q] == order[q] && order'[..i][q] == order'[q];
    assert forall q :: 0 <= q < i ==> order[q] != order[i];
  }

  // ----- The traversal, on the sequence of vertices opened so far -----

  ghost predicate Vertices(g: Graph, o: seq<int>)
  {
    && (forall k :: 0 <= k < |o| ==> g.IsVertex(o[k]))
    && (forall i, j :: 0 <= i < j < |o| ==> o[i] != o[j])
  }

  ghost predicate Served(g: Graph, o: seq<int>, first: int)
    requires g.Valid()
  {
    && Vertices(g, o) && Breadth(g, o)
    && (forall k :: 0 <= k < |o| ==> Parent(g, o, k) < first)
  }

  /** Between two turns: everything next to the first `first` vertices is open or closed. */
  ghost predicate Idle(g: Graph, o: seq<int>, first: int)
    requires g.Valid()
  {
    && 0 <= first <= |o| && Served(g, o, first)
    && (forall p, e :: 0 <= p < first && g.IsArc(o[p], e) ==> g.adjncy[e] in o)
  }

  /** Within a turn: o[first-1] is being expanded, its arcs before j are done. */
  ghost predicate Exploring(g: Graph, o: seq<int>, first: int, j: int)
    requires g.Valid()
  {
    && 1 <= first <= |o| && Served(g, o, first)
    && (forall p, e :: 0 <= p < first - 1 && g.IsArc(o[p], e) ==> g.adjncy[e] in o)
    && (forall e :: g.IsArc(o[first - 1], e) && e < j ==> g.adjncy[e] in o)
    && (forall k :: first <= k < |o| && Parent(g, o, k) == first - 1 ==> ReachedBy(g, o[first - 1], j, o[k]))
  }

  /** One of the arcs of v before j leads to x. */
  ghost predicate ReachedBy(g: Graph, v: int, j: int, x: int)
    requires g.Valid()
  {
    exists e :: g.IsArc(v, e) && e < j && g.adjncy[e] == x
  }

  lemma TakeNext(g: Graph, o: seq<int>, first: int)
    requires g.Valid() && Idle(g, o, first) && first < |o|
    ensures g.IsVertex(o[first]) && Exploring(g, o, first + 1, g.xadj[o[first]])
  {
    hide Breadth;
    assert forall k :: first < k < |o| ==> Parent(g, o, k) < first;
  }

  lemma TurnDone(g: Graph, o: seq<int>, first: int)
    requires g.Valid() && 1 <= first <= |o| && g.IsVertex(o[first - 1])
    requires Exploring(g, o, first, g.xadj[o[first - 1] + 1])
    ensures Idle(g, o, first)
  {
    hide Served;
  }

  /** Adding a vertex whose parent is known and no earlier than the others. */
  lemma AddServed(g: Graph, o: seq<int>, x: int, first: int, p: int)
    requires g.Valid() && Served(g, o, first) && g.IsVertex(x) && x !in o && 0 <= p <= |o| && first - 1 <= p
    requires p < |o| ==> g.Adjacent(o[p], x)
    requires forall q :: 0 <= q < p ==> !g.Adjacent(o[q], x)
    requires forall k :: 0 <= p < k < |o| && Parent(g, o, k) == p ==> ComesBefore(g, o[p], o[k], x)
    ensures Parent(g, o + [x], |o|) == p && Served(g, o + [x], p + 1)
    ensures forall k :: 0 <= k < |o| ==> Parent(g, o + [x], k) == Parent(g, o, k)
  {
    hide Siblings, ComesBefore, Graph.Adjacent, Parent;
    var o' := o + [x];
    forall k | 0 <= k < |o|
      ensures Parent(g, o', k) == Parent(g, o, k)
    {
      SameParent(g, o, o', k);
    }
    assert o'[|o|] == x && forall q :: 0 <= q < |o| ==> o'[q] == o[q];
    ParentIs(g, o', |o|, p);
    AddSibling(g, o, x, p);
  }

  lemma AddSibling(g: Graph, o: seq<int>, x: int, p: int)
    requires g.Valid() && Siblings(g, o) && 0 <= p <= |o|
    requires Parent(g, o + [x], |o|) == p && forall k :: 0 <= k < |o| ==> Parent(g, o + [x], k) == Parent(g, o, k)
    requires forall k :: 0 <= p < k < |o| && Parent(g, o, k) == p ==> ComesBefore(g, o[p], o[k], x)
    ensures Siblings(g, o + [x])
  {
    hide ComesBefore, Parent, Graph.Valid;
    var o' := o + [x];
    forall i, j | 0 <= i < j < |o'| && Parent(g, o', i) == Parent(g, o', j) < i
      ensures ComesBefore(g, o'[Parent(g, o', i)], o'[i], o'[j])
    {
      assert o'[i] == o[i];
      if j < |o| {
        assert Parent(g, o, i) == Parent(g, o, j) < i;
      }
    }
  }

  lemma ParentIs(g: Graph, o: seq<int>, k: int, p: int)
    requires g.Valid() && 0 <= p <= k < |o| && (p < k ==> g.Adjacent(o[p], o[k]))
    requires forall q :: 0 <= q < p ==> !g.Adjacent(o[q], o[k])
    ensures Parent(g, o, k) == p
  {
  }

  lemma SameParent(g: Graph, o: seq<int>, o': seq<int>, k: int)
    requires g.Valid() && 0 <= k < |o| <= |o'| && forall q :: 0 <= q <= k ==> o[q] == o'[q]
    ensures Parent(g, o', k) == Parent(g, o, k)
  {
    var p := Parent(g, o, k);
    forall q | 0 <= q < p
      ensures !g.Adjacent(o'[q], o'[k])
    {
      assert !g.Adjacent(o[q], o[k]);
    }
    ParentIs(g, o', k, p);
  }

  lemma Discover(g: Graph, o: seq<int>, first: int, j: int)
    requires g.Valid() && Exploring(g, o, first, j) && g.IsArc(o[first - 1], j) && g.adjncy[j] !in o
    ensures Exploring(g, o + [g.adjncy[j]], first, j + 1)
    ensures Parent(g, o + [g.adjncy[j]], |o|) == first - 1
    ensures forall k :: 0 <= k < |o| ==> Parent(g, o + [g.adjncy[j]], k) == Parent(g, o, k)
  {
    hide Served, Parent, ComesBefore, ReachedBy;
    var x := g.adjncy[j];
    assert g.Adjacent(o[first - 1], x);
    forall q | 0 <= q < first - 1
      ensures !g.Adjacent(o[q], x)
    {
      assert forall e :: g.IsArc(o[q], e) ==> g.adjncy[e] in o;
    }
    forall k | first - 1 < k < |o| && Parent(g, o, k) == first - 1
      ensures ComesBefore(g, o[first - 1], o[k], x)
    {
      LaterArc(g, o, o[first - 1], j, o[k]);
    }
    AddServed(g, o, x, first, first - 1);
    DiscoverExplores(g, o, first, j);
  }

  lemma DiscoverExplores(g: Graph, o: seq<int>, first: int, j: int)
    requires g.Valid() && Exploring(g, o, first, j) && g.IsArc(o[first - 1], j)
    requires
      var o' := o + [g.adjncy[j]];
      Served(g, o', first) && forall k :: 0 <= k < |o| ==> Parent(g, o', k) == Parent(g, o, k)
    ensures Exploring(g, o + [g.adjncy[j]], first, j + 1)
  {
    hide Served, Parent;
    var o' := o + [g.adjncy[j]];
    var v := o[first - 1];
    assert forall k :: 0 <= k < |o| ==> o'[k] == o[k];
    assert o'[|o|] == g.adjncy[j] && forall y :: y in o ==> y in o';
    forall k | first <= k < |o'| && Parent(g, o', k) == first - 1
      ensures ReachedBy(g, v, j + 1, o'[k])
    {
      if k < |o| {
        assert Parent(g, o, k) == first - 1;
        StillReached(g, v, j, o[k]);
      }
    }
  }

  lemma StillReached(g: Graph, v: int, j: int, x: int)
    requires g.Valid() && ReachedBy(g, v, j, x)
    ensures ReachedBy(g, v, j + 1, x)
  {
  }

  /** What the arcs before j have reached comes before the target of arc j. */
  lemma LaterArc(g: Graph, o: seq<int>, v: int, j: int, y: int)
    requires g.Valid() && g.IsArc(v, j) && g.adjncy[j] !in o && ReachedBy(g, v, j, y)
    requires forall e :: g.IsArc(v, e) && e < j ==> g.adjncy[e] in o
    ensures ComesBefore(g, v, y, g.adjncy[j])
  {
    var e :| g.IsArc(v, e) && e < j && g.adjncy[e] == y;
    assert forall d :: g.IsArc(v, d) && d <= e ==> g.adjncy[d] != g.adjncy[j];
  }

  lemma Skip(g: Graph, o: seq<int>, first: int, j: int)
    requires g.Valid() && Exploring(g, o, first, j) && g.IsArc(o[first - 1], j) && g.adjncy[j] in o
    ensures Exploring(g, o, first, j + 1)
  {
    hide Served, Parent;
    forall k | first <= k < |o| && Parent(g, o, k) == first - 1
      ensures ReachedBy(g, o[first - 1], j + 1, o[k])
    {
      StillReached(g, o[first - 1], j, o[k]);
    }
  }

  lemma Restart(g: Graph, o: seq<int>, v: int)
    requires g.Valid() && Idle(g, o, |o|) && g.IsVertex(v) && v !in o
    ensures Exploring(g, o + [v], |o| + 1, g.xadj[v])
    ensures Parent(g, o + [v], |o|) == |o|
    ensures forall k :: 0 <= k < |o| ==> Parent(g, o + [v], k) == Parent(g, o, k)
  {
    forall q | 0 <= q < |o|
      ensures !g.Adjacent(o[q], v)
    {
    }
    AddServed(g, o, v, |o|, |o|);
  }

  // ----- The closed/open/todo array -----

  /** cot and its inverse `at`; pos shows `at` on the todo part cot[last..] and -1 elsewhere. */
  ghost predicate Split(n: int, cot: seq<int>, pos: seq<int>, at: seq<int>, last: int)
  {
    && |cot| == |pos| == |at| == n && 0 <= last <= n && Inverse(at, cot)
    && (forall u :: 0 <= u < n ==> pos[u] == if at[u] < last then -1 else at[u])
  }

  lemma OpenOrTodo(n: int, cot: seq<int>, pos: seq<int>, at: seq<int>, last: int)
    requires Split(n, cot, pos, at, last)
    ensures forall u :: 0 <= u < n ==> (pos[u] == -1 <==> u in cot[..last])
  {
    forall u | 0 <= u < n && pos[u] == -1
      ensures u in cot[..last]
    {
      assert cot[..last][at[u]] == u;
    }
  }

  /** Exchanging the first todo vertex with u and opening u. */
  lemma OpenKeepsSplit(n: int, cot: seq<int>, pos: seq<int>, at: seq<int>, last: int, u: int)
    requires Split(n, cot, pos, at, last) && 0 <= u < n && pos[u] != -1
    ensures last <= pos[u] < n && last < n && 0 <= cot[last] < n
    ensures var cot' := cot[pos[u] := cot[last]][last := u];
            var pos' := pos[cot[last] := pos[u]][u := -1];
            Split(n, cot', pos', at[cot[last] := at[u]][u := last], last + 1) && cot'[..last] == cot[..last]
  {
  }

  /** Opens u: it changes places with the head of the todo part. */
  method Open(n: int, u: int, last: int, cot: array<int>, pos: array<int>, ghost at: seq<int>)
    returns (last': int, ghost at': seq<int>)
    requires cot != pos && Split(n, cot[..], pos[..], at, last) && 0 <= u < n && pos[u] != -1
    modifies cot, pos
    ensures last' == last + 1 <= n && Split(n, cot[..], pos[..], at', last')
    ensures cot[..last'] == old(cot[..last]) + [u]
  {
    OpenKeepsSplit(n, cot[..], pos[..], at, last, u);
    at' := at[cot[last] := at[u]][u := last];
    hide Split;
    cot[pos[u]] := cot[last];
    pos[cot[last]] := pos[u];
    cot[last] := u;
    last' := last + 1;
    pos[u] := -1;
  }

  /** Opens everything next to the vertex that has just been closed. */
  method OpenNeighbours(g: Graph, first: int, last: int, cot: array<int>, pos: array<int>, ghost at: seq<int>)
    returns (last': int, ghost at': seq<int>)
    requires g.Valid() && cot != pos && Split(g.nvtxs, cot[..], pos[..], at, last)
    requires 1 <= first <= last && g.IsVertex(cot[first - 1])
    requires Exploring(g, cot[..last], first, g.xadj[cot[first - 1]])
    modifies cot, pos
    ensures Split(g.nvtxs, cot[..], pos[..], at', last') && last <= last'
    ensures cot[..last'][..last] == old(cot[..last])
    ensures Idle(g, cot[..last'], first)
  {
    hide Split, Exploring, Idle;
    SplitFacts(g.nvtxs, cot[..], pos[..], at, last);
    last', at' := last, at;
    var i := cot[first - 1];
    ghost var start := cot[..last];
    for j := g.xadj[i] to g.xadj[i + 1]
      invariant Split(g.nvtxs, cot[..], pos[..], at', last')
      invariant last <= last' <= cot.Length && cot[..last'][..last] == start
      invariant Exploring(g, cot[..last'], first, j)
    {
      ghost var o := cot[..last'];
      assert o[first - 1] == start[first - 1] == i && g.IsArc(i, j);
      var k := g.adjncy[j];
      OpenOrTodo(g.nvtxs, cot[..], pos[..], at', last');
      SplitFacts(g.nvtxs, cot[..], pos[..], at', last');
      if pos[k] != -1 {
        Discover(g, o, first, j);
        last', at' := Open(g.nvtxs, k, last', cot, pos, at');
        SplitFacts(g.nvtxs, cot[..], pos[..], at', last');
      } else {
        Skip(g, o, first, j);
      }
    }
    assert cot[..last'][..last][first - 1] == i;
    TurnDone(g, cot[..last'], first);
  }

  lemma SplitFacts(n: int, cot: seq<int>, pos: seq<int>, at: seq<int>, last: int)
    requires Split(n, cot, pos, at, last)
    ensures |cot| == |pos| == n && 0 <= last <= n
  {
  }

  lemma TodoHead(n: int, cot: seq<int>, pos: seq<int>, at: seq<int>, last: int)
    requires Split(n, cot, pos, at, last) && last < n
    ensures 0 <= cot[last] < n && pos[cot[last]] == last
    ensures cot[last] !in cot[..last]
    ensures Split(n, cot, pos[cot[last] := -1], at, last + 1)
  {
  }

  lemma StartSplit(n: int, v: int)
    requires 0 <= v < n
    ensures Split(n, Fronted(n, v), Fronted(n, v), Fronted(n, v), 0) && Fronted(n, v)[0] == v
  {
  }

  lemma AllOpen(g: Graph, cot: seq<int>, pos: seq<int>, at: seq<int>)
    requires g.Valid() && Split(g.nvtxs, cot, pos, at, g.nvtxs) && Idle(g, cot, g.nvtxs)
    ensures |at| == g.nvtxs && Inverse(at, cot) && Breadth(g, cot)
  {
  }

  /** The main loop: one vertex is closed per turn. */
  method Traverse(g: Graph, v: int, cot: array<int>, pos: array<int>, ghost at: seq<int>) returns (ghost at': seq<int>)
    requires g.Valid() && g.IsVertex(v) && cot != pos
    requires Split(g.nvtxs, cot[..], pos[..], at, 0) && cot.Length > 0 && cot[0] == v
    modifies cot, pos
    ensures cot.Length == pos.Length == |at'| == g.nvtxs && Inverse(at', cot[..])
    ensures cot[0] == v && Breadth(g, cot[..])
  {
    hide Split, Exploring, Idle, Breadth, Inverse;
    var n := g.nvtxs;
    var first, last := 0, 0;
    at' := at;
    SplitFacts(n, cot[..], pos[..], at, 0);
    NothingOpen(g);
    assert cot[..last] == [];
    while first < n
      invariant 0 <= first <= last <= n == cot.Length
      invariant Split(n, cot[..], pos[..], at', last)
      invariant Idle(g, cot[..last], first)
      invariant cot[0] == v
    {
      SplitFacts(n, cot[..], pos[..], at', last);
      ghost var o := cot[..last];
      if first == last {
        TodoHead(n, cot[..], pos[..], at', last);
        var k := cot[last];
        assert pos[k] != -1;
        Restart(g, o, k);
        pos[k] := -1;
        last := last + 1;
        assert cot[..last] == o + [k];
      } else {
        TakeNext(g, o, first);
      }
      assert cot[..last][first] == cot[first];
      first := first + 1;
      ghost var l := last;
      ghost var start := cot[..last];
      last, at' := OpenNeighbours(g, first, last, cot, pos, at');
      SplitFacts(n, cot[..], pos[..], at', last);
      assert start[0] == v && cot[..last][..l][0] == v;
    }
    assert cot[..last] == cot[..];
    AllOpen(g, cot[..], pos[..], at');
  }

  lemma NothingOpen(g: Graph)
    requires g.Valid()
    ensures Idle(g, [], 0)
  {
  }

  /** Both permutations are returned; an empty graph returns none. */
  method ComputeBFSOrdering(g: Graph, v: int) returns (perm: array?<int>, iperm: array?<int>)
    requires g.nvtxs > 0 ==> g.Valid() && g.IsVertex(v)
    ensures g.nvtxs <= 0 ==> perm == null && iperm == null
    ensures g.nvtxs > 0 ==> perm != null && iperm != null && fresh(perm) && fresh(iperm)
    ensures g.nvtxs > 0 ==> perm.Length == iperm.Length == g.nvtxs && Inverse(perm[..], iperm[..])
    ensures g.nvtxs > 0 ==> iperm[0] == v && Breadth(g, iperm[..])
  {
    if g.nvtxs <= 0 {
      return null, null;
    }
    var n := g.nvtxs;
    var cot, pos := FrontFirst(n, v);
    ghost var at := Fronted(n, v);
    StartSplit(n, v);
    hide Split, Exploring, Idle, Breadth, Inverse, Fronted;
    at := Traverse(g, v, cot, pos, at);
    Locate(n, cot, pos, at);
    perm, iperm := pos, cot;
  }

  /** Turns pos into the inverse of cot. */
  method Locate(n: int, cot: array<int>, pos: array<int>, ghost at: seq<int>)
    requires cot != pos && cot.Length == pos.Length == |at| == n && Inverse(at, cot[..])
    modifies pos
    ensures Inverse(pos[..], cot[..])
  {
    hide Inverse;
    ghost var order := cot[..];
    for i := 0 to n
      invariant forall k :: 0 <= k < i ==> 0 <= order[k] < n && pos[order[k]] == k
    {
      VertexAt(n, at, order, i);
      pos[cot[i]] := i;
    }
    InverseFromOne(n, at, order, pos[..]);
  }

  lemma VertexAt(n: int, at: seq<int>, cot: seq<int>, i: int)
    requires |cot| == |at| == n && Inverse(at, cot) && 0 <= i < n
    ensures 0 <= cot[i] < n && forall k :: 0 <= k < i ==> cot[k] != cot[i]
  {
  }

  lemma InverseFromOne(n: int, at: seq<int>, cot: seq<int>, pos: seq<int>)
    requires |cot| == |at| == |pos| == n && Inverse(at, cot)
    requires forall k :: 0 <= k < n ==> 0 <= cot[k] < n && pos[cot[k]] == k
    ensures Inverse(pos, cot)
  {
    forall u | 0 <= u < n
      ensures pos[u] == at[u]
    {
      assert pos[cot[at[u]]] == at[u];
    }
  }
}
