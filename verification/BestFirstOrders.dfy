/** What a greedy order is good for: consequences that do not mention the program. */
module BestFirstOrders {
  import opened Arrays
  import opened BestFirst
  import opened Finite
  import opened Graphs

  ghost predicate Distinct(order: seq<int>)
  {
    forall i, j :: 0 <= i < j < |order| ==> order[i] != order[j]
  }

  ghost predicate AllVertices(g: Graph, order: seq<int>)
  {
    && Distinct(order)
    && (forall k :: 0 <= k < |order| ==> g.IsVertex(order[k]))
    && (forall v :: g.IsVertex(v) ==> v in order)
  }

  /** The arcs lo..j that end in u. */
  ghost function ArcSet(g: Graph, lo: int, j: int, u: int): set<int>
    requires 0 <= lo && j <= |g.adjncy|
  {
    set e | lo <= e < j && g.adjncy[e] == u
  }

  /** The arcs from vertices of order into u. */
  ghost function ArcsInto(g: Graph, order: seq<int>, u: int): set<int>
    requires g.Valid()
  {
    set e | 0 <= e < |g.adjncy| && g.adjncy[e] == u && exists k :: 0 <= k < |order| && g.IsArc(order[k], e)
  }

  lemma {:induction false} ArcsCount(g: Graph, k: int, lo: int, j: int, u: int)
    requires 0 <= lo && j <= |g.adjncy|
    ensures |Arcs(g, k, lo, j, u)| == |ArcSet(g, lo, j, u)|
    decreases j - lo
  {
    if j <= lo {
      assert ArcSet(g, lo, j, u) == {};
    } else {
      ArcsCount(g, k, lo, j - 1, u);
      if g.adjncy[j - 1] == u {
        assert ArcSet(g, lo, j, u) == ArcSet(g, lo, j - 1, u) + {j - 1};
      } else {
        assert ArcSet(g, lo, j, u) == ArcSet(g, lo, j - 1, u);
      }
    }
  }

  /** Visits has exactly one entry for each arc that leads from the order into u. */
  lemma {:induction false} VisitsCountArcs(g: Graph, order: seq<int>, u: int)
    requires g.Valid() && Distinct(order) && forall k :: 0 <= k < |order| ==> g.IsVertex(order[k])
    ensures |Visits(g, order, u)| == |ArcsInto(g, order, u)|
  {
    if order == [] {
      assert ArcsInto(g, order, u) == {};
    } else {
      var i := |order| - 1;
      var v := order[i];
      VisitsCountArcs(g, order[..i], u);
      ArcsCount(g, i, g.xadj[v], g.xadj[v + 1], u);
      hide Visits, ArcsInto, ArcSet, Arcs, Graph.Valid;
      VisitsGrow(g, order, u);
      ArcsIntoGrow(g, order, u);
    }
  }

  lemma VisitsGrow(g: Graph, order: seq<int>, u: int)
    requires g.Valid() && order != [] && g.IsVertex(order[|order| - 1])
    ensures var i := |order| - 1; var v := order[i];
            |Visits(g, order, u)| == |Visits(g, order[..i], u)| + |Arcs(g, i, g.xadj[v], g.xadj[v + 1], u)|
  {
    hide Arcs;
  }

  lemma ArcsIntoGrow(g: Graph, order: seq<int>, u: int)
    requires g.Valid() && Distinct(order) && order != [] && forall k :: 0 <= k < |order| ==> g.IsVertex(order[k])
    ensures var i := |order| - 1; var v := order[i];
            g.IsVertex(v) && 0 <= g.xadj[v] && g.xadj[v + 1] <= |g.adjncy| &&
            |ArcsInto(g, order, u)| == |ArcsInto(g, order[..i], u)| + |ArcSet(g, g.xadj[v], g.xadj[v + 1], u)|
  {
    var i := |order| - 1;
    var v := order[i];
    var fromV := ArcSet(g, g.xadj[v], g.xadj[v + 1], u);
    forall e | e in ArcsInto(g, order, u)
      ensures e in ArcsInto(g, order[..i], u) || e in fromV
    {
      var k :| 0 <= k < |order| && g.IsArc(order[k], e);
      assert k < i ==> g.IsArc(order[..i][k], e);
    }
    forall e | e in ArcsInto(g, order[..i], u)
      ensures e in ArcsInto(g, order, u) && e !in fromV
    {
      var k :| 0 <= k < i && g.IsArc(order[..i][k], e);
      assert g.IsArc(order[k], e);
      RowsDisjoint(g, order[k], v, e);
    }
    forall e | e in fromV
      ensures e in ArcsInto(g, order, u)
    {
      assert g.IsArc(order[i], e);
    }
    hide ArcsInto, ArcSet;
    assert ArcsInto(g, order, u) == ArcsInto(g, order[..i], u) + fromV;
  }

  lemma RowsDisjoint(g: Graph, v: int, w: int, e: int)
    requires g.Valid() && g.IsVertex(w) && g.IsArc(v, e) && v != w
    ensures !(g.xadj[w] <= e < g.xadj[w + 1])
  {
    if v < w {
      assert g.xadj[v + 1] <= g.xadj[w];
    } else {
      assert g.xadj[w + 1] <= g.xadj[v];
    }
  }

  /** One comparison out of the greedy order, about its prefix o. */
  lemma Choice(g: Graph, kind: int, sqrt32: int -> int, order: seq<int>, i: int, j: int, o: seq<int>)
    requires g.Valid() && AllVertices(g, order) && Greedy(g, kind, sqrt32, order) && 0 <= i < j < |order|
    requires o == order[..i]
    ensures NoWorse(g, kind, sqrt32, o, order[i], order[j])
    ensures Distinct(o) && forall k :: 0 <= k < i ==> o[k] == order[k] && g.IsVertex(o[k])
  {
  }

  /** Type 2 yields a maximum-adjacency ordering: every vertex receives at least as many arcs from
      the vertices before it as any later vertex does. */
  lemma MaximumAdjacency(g: Graph, sqrt32: int -> int, order: seq<int>, i: int, j: int)
    requires g.Valid() && AllVertices(g, order) && Greedy(g, 2, sqrt32, order) && 0 <= i < j < |order|
    ensures |ArcsInto(g, order[..i], order[j])| <= |ArcsInto(g, order[..i], order[i])|
  {
    hide AllVertices, Greedy, Distinct, Visits, ArcsInto, Graph.Valid;
    var o := order[..i];
    Choice(g, 2, sqrt32, order, i, j, o);
    VisitsCountArcs(g, o, order[i]);
    VisitsCountArcs(g, o, order[j]);
  }

  lemma {:induction false} ArcsNonempty(g: Graph, k: int, lo: int, j: int, u: int)
    requires 0 <= lo && j <= |g.adjncy|
    ensures Arcs(g, k, lo, j, u) != [] <==> exists e :: lo <= e < j && g.adjncy[e] == u
    decreases j - lo
  {
    if j > lo {
      ArcsNonempty(g, k, lo, j - 1, u);
    }
  }

  /** Visits ends with the latest position whose vertex has an arc to u. */
  ghost predicate EndsAtLast(g: Graph, order: seq<int>, u: int, visits: seq<int>)
    requires g.Valid()
  {
    if visits == [] then forall k :: 0 <= k < |order| ==> !g.Adjacent(order[k], u)
    else
      var last := visits[|visits| - 1];
      && 0 <= last < |order| && g.Adjacent(order[last], u)
      && forall k :: last < k < |order| ==> !g.Adjacent(order[k], u)
  }

  lemma {:induction false} VisitsEnd(g: Graph, order: seq<int>, u: int)
    requires g.Valid() && forall k :: 0 <= k < |order| ==> g.IsVertex(order[k])
    ensures EndsAtLast(g, order, u, Visits(g, order, u))
  {
    if order != [] {
      var i := |order| - 1;
      var arcs := Arcs(g, i, g.xadj[order[i]], g.xadj[order[i] + 1], u);
      VisitsEnd(g, order[..i], u);
      RowReaches(g, i, order[i], u);
      ArcsAreK(g, i, g.xadj[order[i]], g.xadj[order[i] + 1], u);
      AppendEnd(g, order, u, Visits(g, order[..i], u), arcs);
    }
  }

  lemma RowReaches(g: Graph, k: int, v: int, u: int)
    requires g.Valid() && g.IsVertex(v)
    ensures Arcs(g, k, g.xadj[v], g.xadj[v + 1], u) != [] <==> g.Adjacent(v, u)
  {
    ArcsNonempty(g, k, g.xadj[v], g.xadj[v + 1], u);
  }

  lemma AppendEnd(g: Graph, order: seq<int>, u: int, visits: seq<int>, arcs: seq<int>)
    requires g.Valid() && order != []
    requires EndsAtLast(g, order[..|order| - 1], u, visits)
    requires arcs != [] <==> g.Adjacent(order[|order| - 1], u)
    requires forall x :: 0 <= x < |arcs| ==> arcs[x] == |order| - 1
    ensures EndsAtLast(g, order, u, visits + arcs)
  {
    hide Graph.Valid, Graph.Adjacent;
    var o := order[..|order| - 1];
    assert forall k :: 0 <= k < |o| ==> o[k] == order[k];
    if arcs == [] {
      assert visits + arcs == visits;
    } else {
      assert (visits + arcs)[|visits + arcs| - 1] == |order| - 1;
    }
  }

  /** Type 1 prefers the vertex with the later latest neighbour, up to one position for every 1000
      arcs that the vertex taken has received. */
  lemma DepthFirstGap(g: Graph, sqrt32: int -> int, order: seq<int>, i: int, j: int, k: int)
    requires g.Valid() && AllVertices(g, order) && Greedy(g, 1, sqrt32, order) && 0 <= i < j < |order|
    requires 0 <= k < i && g.Adjacent(order[k], order[j])
    ensures exists k' :: 0 <= k' < i && g.Adjacent(order[k'], order[i]) &&
              1000 * (k - k') < |ArcsInto(g, order[..i], order[i])|
  {
    hide AllVertices, Greedy, Distinct, Visits, ArcsInto, Graph.Valid, Graph.Adjacent;
    var o := order[..i];
    Choice(g, 1, sqrt32, order, i, j, o);
    VisitsEnd(g, o, order[i]);
    VisitsEnd(g, o, order[j]);
    VisitsCountArcs(g, o, order[i]);
    assert o[k] == order[k];
    var vi, vj := Visits(g, o, order[i]), Visits(g, o, order[j]);
    var ki, kj := vi[|vi| - 1], vj[|vj| - 1];
    assert 1000 * (kj + 1) + |vj| <= 1000 * (ki + 1) + |vi|;
    assert k <= kj && o[ki] == order[ki];
  }

  /** So it is a depth-first order as long as the vertices it takes have received at most 1000 arcs:
      the latest neighbour of the vertex taken is no earlier than the latest neighbour of any
      vertex that could have been taken instead. */
  lemma DepthFirst(g: Graph, sqrt32: int -> int, order: seq<int>, i: int, j: int, k: int)
    requires g.Valid() && AllVertices(g, order) && Greedy(g, 1, sqrt32, order) && 0 <= i < j < |order|
    requires |ArcsInto(g, order[..i], order[i])| <= 1000
    requires 0 <= k < i && g.Adjacent(order[k], order[j])
    ensures exists k' :: k <= k' < i && g.Adjacent(order[k'], order[i])
  {
    hide AllVertices, Greedy, ArcsInto, Graph.Valid, Graph.Adjacent;
    DepthFirstGap(g, sqrt32, order, i, j, k);
    var k' :| 0 <= k' < i && g.Adjacent(order[k'], order[i]) && 1000 * (k - k') < |ArcsInto(g, order[..i], order[i])|;
    assert k <= k';
  }

  /** No vertex has more than n incoming arcs. */
  ghost predicate FewArcs(g: Graph, n: int)
  {
    forall u :: g.IsVertex(u) ==> |ArcSet(g, 0, |g.adjncy|, u)| <= n
  }

  /** The vertex at i has a neighbour at k or later, among those before it. */
  ghost predicate Continues(g: Graph, order: seq<int>, k: int, i: int)
    requires g.Valid() && 0 <= k < i < |order|
  {
    exists k' :: k <= k' < i && g.Adjacent(order[k'], order[i])
  }

  /** The vertex taken has a neighbour as late as any vertex that could have been taken instead. */
  ghost predicate DepthFirstOrder(g: Graph, order: seq<int>)
    requires g.Valid()
  {
    forall k, i, j :: 0 <= k < i < j < |order| && g.Adjacent(order[k], order[j]) ==> Continues(g, order, k, i)
  }

  /** In particular if no vertex has more than 1000 incoming arcs. */
  lemma DepthFirstGraph(g: Graph, sqrt32: int -> int, order: seq<int>)
    requires g.Valid() && AllVertices(g, order) && Greedy(g, 1, sqrt32, order) && FewArcs(g, 1000)
    ensures DepthFirstOrder(g, order)
  {
    hide Greedy, ArcsInto, ArcSet, FewArcs, Graph.Valid, Graph.Adjacent;
    forall k, i, j | 0 <= k < i < j < |order| && g.Adjacent(order[k], order[j])
      ensures Continues(g, order, k, i)
    {
      FewArcsInto(g, 1000, order[..i], order[i]);
      DepthFirst(g, sqrt32, order, i, j, k);
    }
  }

  lemma FewArcsInto(g: Graph, n: int, o: seq<int>, u: int)
    requires g.Valid() && FewArcs(g, n) && g.IsVertex(u)
    ensures |ArcsInto(g, o, u)| <= n
  {
    CardinalityMonotone(ArcsInto(g, o, u), ArcSet(g, 0, |g.adjncy|, u));
  }

  /** What the routine promises of its result is what the lemmas here ask of an order. */
  lemma InverseListsAll(g: Graph, perm: seq<int>, iperm: seq<int>)
    requires |perm| == |iperm| == g.nvtxs && Inverse(perm, iperm)
    ensures AllVertices(g, iperm)
  {
    forall v | g.IsVertex(v)
      ensures v in iperm
    {
      assert iperm[perm[v]] == v;
    }
  }

  /** Whatever the type: all vertices reachable from the start come before all others. */
  lemma ReachableFirst(g: Graph, kind: int, sqrt32: int -> int, order: seq<int>, i: int, j: int)
    requires g.Valid() && AllVertices(g, order) && Greedy(g, kind, sqrt32, order) && 0 <= i < j < |order|
    requires Reachable(g, order[0], order[j])
    ensures Reachable(g, order[0], order[i])
    decreases i
  {
    hide AllVertices, Greedy, Distinct, Visits, Graph.Valid, NoWorse, Score, Reachable;
    if i == 0 {
      ReachesItself(g, order[0]);
    } else {
      var visits := Visits(g, order[..i], order[i]);
      if visits != [] {
        var k := LastVisit(g, order, i);
        ReachableFirst(g, kind, sqrt32, order, k, j);
        OneFurther(g, order[0], order[k], order[i]);
      } else {
        NothingBehind(g, kind, sqrt32, order, i, j);
      }
    }
  }

  lemma ReachesItself(g: Graph, v: int)
    requires g.Valid()
    ensures Reachable(g, v, v)
  {
    assert IsWalk(g, v, v, Start);
  }

  lemma OneFurther(g: Graph, s: int, u: int, t: int)
    requires g.Valid() && Reachable(g, s, u) && g.Adjacent(u, t)
    ensures Reachable(g, s, t)
  {
    var w :| IsWalk(g, s, u, w);
    var e :| g.IsArc(u, e) && g.adjncy[e] == t;
    assert IsWalk(g, s, t, Via(w, u, e));
  }

  lemma LastVisit(g: Graph, order: seq<int>, i: int) returns (k: int)
    requires g.Valid() && 0 <= i < |order| && AllVertices(g, order) && Visits(g, order[..i], order[i]) != []
    ensures 0 <= k < i && g.Adjacent(order[k], order[i])
  {
    hide Visits, Graph.Valid;
    VisitsEnd(g, order[..i], order[i]);
    var visits := Visits(g, order[..i], order[i]);
    k := visits[|visits| - 1];
    assert order[..i][k] == order[k];
  }

  lemma NothingBehind(g: Graph, kind: int, sqrt32: int -> int, order: seq<int>, i: int, j: int)
    requires g.Valid() && AllVertices(g, order) && Greedy(g, kind, sqrt32, order) && 0 < i < j < |order|
    requires Visits(g, order[..i], order[i]) == []
    ensures !Reachable(g, order[0], order[j])
  {
    hide Greedy, Visits, Graph.Valid;
    if w :| IsWalk(g, order[0], order[j], w) {
      StaysInPrefix(g, kind, sqrt32, order, i, order[j], w);
    }
  }

  /** When nothing unclosed has been reached, no walk has left the vertices already taken. */
  lemma {:induction false} StaysInPrefix(g: Graph, kind: int, sqrt32: int -> int, order: seq<int>, i: int, t: int,
                                         w: Walk)
    requires g.Valid() && AllVertices(g, order) && Greedy(g, kind, sqrt32, order) && 0 < i < |order|
    requires Visits(g, order[..i], order[i]) == []
    requires IsWalk(g, order[0], t, w)
    ensures exists k :: 0 <= k < i && order[k] == t
    decreases w
  {
    match w
    case Start =>
    case Via(w', u, e) =>
      StaysInPrefix(g, kind, sqrt32, order, i, u, w');
      var k :| 0 <= k < i && order[k] == u;
      assert g.IsVertex(t) && t in order && g.Adjacent(u, t);
      var j :| 0 <= j < |order| && order[j] == t;
      if j >= i {
        NotReachedYet(g, kind, sqrt32, order, i, j, k);
      }
  }

  lemma NotReachedYet(g: Graph, kind: int, sqrt32: int -> int, order: seq<int>, i: int, j: int, k: int)
    requires g.Valid() && AllVertices(g, order) && Greedy(g, kind, sqrt32, order) && 0 < i <= j < |order|
    requires Visits(g, order[..i], order[i]) == [] && 0 <= k < i
    ensures !g.Adjacent(order[k], order[j])
  {
    hide Graph.Adjacent;
    if i < j {
      Choice(g, kind, sqrt32, order, i, j, order[..i]);
    }
    VisitsEnd(g, order[..i], order[j]);
    assert order[..i][k] == order[k];
  }
}
