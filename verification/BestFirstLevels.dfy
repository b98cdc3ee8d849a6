/** Type 5 of the best-first ordering, which is to be breadth-first: levels and hop distances. */
module BestFirstLevels {
  import opened BestFirst
  import opened BestFirstOrders
  import opened Graphs
  import BreadthFirst

  /** The vertices that the first one reaches come in non-decreasing hop distance, before all others. */
  ghost predicate HopOrder(g: Graph, order: seq<int>)
    requires g.Valid()
  {
    forall i, j, d :: 0 <= i < j < |order| && BreadthFirst.Within(g, order[0], order[j], d) ==>
      BreadthFirst.Within(g, order[0], order[i], d)
  }

  // ----- The vertex that reached u first -----

  /** Visits starts with the first position whose vertex has an arc to u. */
  ghost predicate StartsAtFirst(g: Graph, order: seq<int>, u: int, visits: seq<int>)
    requires g.Valid()
  {
    if visits == [] then forall k :: 0 <= k < |order| ==> !g.Adjacent(order[k], u)
    else
      && 0 <= visits[0] < |order| && g.Adjacent(order[visits[0]], u)
      && forall k :: 0 <= k < visits[0] ==> !g.Adjacent(order[k], u)
  }

  lemma {:induction false} VisitsStart(g: Graph, order: seq<int>, u: int)
    requires g.Valid() && forall k :: 0 <= k < |order| ==> g.IsVertex(order[k])
    ensures StartsAtFirst(g, order, u, Visits(g, order, u))
  {
    if order != [] {
      var i := |order| - 1;
      var arcs := Arcs(g, i, g.xadj[order[i]], g.xadj[order[i] + 1], u);
      VisitsStart(g, order[..i], u);
      RowReaches(g, i, order[i], u);
      ArcsAreK(g, i, g.xadj[order[i]], g.xadj[order[i] + 1], u);
      AppendStart(g, order, u, Visits(g, order[..i], u), arcs);
    }
  }

  lemma AppendStart(g: Graph, order: seq<int>, u: int, visits: seq<int>, arcs: seq<int>)
    requires g.Valid() && order != []
    requires StartsAtFirst(g, order[..|order| - 1], u, visits)
    requires arcs != [] <==> g.Adjacent(order[|order| - 1], u)
    requires forall x :: 0 <= x < |arcs| ==> arcs[x] == |order| - 1
    ensures StartsAtFirst(g, order, u, visits + arcs)
  {
    hide Graph.Valid, Graph.Adjacent;
    var o := order[..|order| - 1];
    assert forall k :: 0 <= k < |o| ==> o[k] == order[k];
    if arcs == [] {
      assert visits + arcs == visits;
    }
  }

  /** The level at which the i-th vertex is taken. */
  ghost function Lev(g: Graph, order: seq<int>, i: int): int
    requires g.Valid() && 0 <= i < |order|
  {
    Level(g, order[..i], order[i])
  }

  /** A vertex is one level above the vertex that reached it first. */
  lemma FirstReach(g: Graph, order: seq<int>, j: int, u: int) returns (p: int)
    requires g.Valid() && AllVertices(g, order) && 0 <= j <= |order| && Visits(g, order[..j], u) != []
    ensures 0 <= p < j && g.Adjacent(order[p], u) && forall k :: 0 <= k < p ==> !g.Adjacent(order[k], u)
    ensures Level(g, order[..j], u) == Lev(g, order, p) + 1
  {
    hide Visits, Graph.Valid, Graph.Adjacent;
    var o := order[..j];
    VisitsStart(g, o, u);
    p := Visits(g, o, u)[0];
    assert o[..p] == order[..p] && o[p] == order[p];
    assert forall k :: 0 <= k < p ==> o[k] == order[k];
  }

  /** A vertex that is adjacent to one already taken has been reached. */
  lemma HasVisits(g: Graph, order: seq<int>, j: int, k: int, u: int)
    requires g.Valid() && AllVertices(g, order) && 0 <= k < j <= |order| && g.Adjacent(order[k], u)
    ensures Visits(g, order[..j], u) != []
  {
    hide Visits, Graph.Valid, Graph.Adjacent;
    VisitsStart(g, order[..j], u);
    assert order[..j][k] == order[k];
  }

  /** A vertex that the first one reaches has been reached when it is taken. */
  lemma ReachedInTime(g: Graph, kind: int, sqrt32: int -> int, order: seq<int>, j: int)
    requires g.Valid() && AllVertices(g, order) && Greedy(g, kind, sqrt32, order) && 0 < j < |order|
    requires Reachable(g, order[0], order[j])
    ensures Visits(g, order[..j], order[j]) != []
  {
    hide Greedy, Visits, Graph.Valid;
    var w :| IsWalk(g, order[0], order[j], w);
    if Visits(g, order[..j], order[j]) == [] {
      StaysInPrefix(g, kind, sqrt32, order, j, order[j], w);
    }
  }

  // ----- Levels ascend -----

  /** One comparison of type 5, with few arcs: the level decides. */
  lemma LevelDecides(g: Graph, sqrt32: int -> int, order: seq<int>, i: int, j: int)
    requires g.Valid() && AllVertices(g, order) && Greedy(g, 5, sqrt32, order) && FewArcs(g, 1000)
    requires 0 <= i < j < |order| && Visits(g, order[..i], order[j]) != []
    ensures Lev(g, order, i) <= Level(g, order[..i], order[j])
  {
    hide AllVertices, Greedy, Distinct, Visits, Level, ArcsInto, FewArcs, Graph.Valid;
    var o := order[..i];
    Choice(g, 5, sqrt32, order, i, j, o);
    VisitsCountArcs(g, o, order[i]);
    assert g.IsVertex(order[i]) by {
      VertexAt(g, order, i);
    }
    FewArcsInto(g, 1000, o, order[i]);
  }

  lemma VertexAt(g: Graph, order: seq<int>, i: int)
    requires AllVertices(g, order) && 0 <= i < |order|
    ensures g.IsVertex(order[i])
  {
  }

  lemma {:induction false} LevelsAscend(g: Graph, sqrt32: int -> int, order: seq<int>, i: int, j: int)
    requires g.Valid() && AllVertices(g, order) && Greedy(g, 5, sqrt32, order) && FewArcs(g, 1000)
    requires 0 <= i < j < |order| && Reachable(g, order[0], order[j])
    ensures Lev(g, order, i) <= Lev(g, order, j)
    decreases j
  {
    hide AllVertices, Greedy, Visits, FewArcs, Graph.Valid, Graph.Adjacent, Level, Reachable;
    ReachedInTime(g, 5, sqrt32, order, j);
    var p := FirstReach(g, order, j, order[j]);
    if p < i {
      HasVisits(g, order, i, p, order[j]);
      var p' := FirstReach(g, order, i, order[j]);
      assert p == p';
      LevelDecides(g, sqrt32, order, i, j);
    } else if p > i {
      ReachableFirst(g, 5, sqrt32, order, p, j);
      LevelsAscend(g, sqrt32, order, i, p);
    }
  }

  // ----- Levels are hop distances -----

  lemma FirstLevel(g: Graph, order: seq<int>)
    requires g.Valid() && order != []
    ensures Lev(g, order, 0) == 0
  {
    assert order[..0] == [];
    assert Visits(g, order[..0], order[0]) == [];
    assert LevelAt(g, order[..0], []) == 0;
  }

  lemma {:induction false} WithinLevel(g: Graph, sqrt32: int -> int, order: seq<int>, i: int)
    requires g.Valid() && AllVertices(g, order) && Greedy(g, 5, sqrt32, order) && 0 <= i < |order|
    requires Reachable(g, order[0], order[i])
    ensures BreadthFirst.Within(g, order[0], order[i], Lev(g, order, i))
    decreases i
  {
    hide AllVertices, Greedy, Visits, Graph.Valid, Graph.Adjacent, Level, Reachable;
    if i == 0 {
      FirstLevel(g, order);
      assert IsWalk(g, order[0], order[0], Start) && Length(Start) == 0;
    } else {
      ReachedInTime(g, 5, sqrt32, order, i);
      var p := FirstReach(g, order, i, order[i]);
      ReachableFirst(g, 5, sqrt32, order, p, i);
      WithinLevel(g, sqrt32, order, p);
      BreadthFirst.OneFurther(g, order[0], order[p], order[i], Lev(g, order, p));
    }
  }

  lemma {:induction false} LevelAtMost(g: Graph, sqrt32: int -> int, order: seq<int>, j: int, w: Walk)
    requires g.Valid() && AllVertices(g, order) && Greedy(g, 5, sqrt32, order) && FewArcs(g, 1000)
    requires 0 <= j < |order| && IsWalk(g, order[0], order[j], w)
    ensures Lev(g, order, j) <= Length(w)
    decreases w
  {
    hide Greedy, Visits, FewArcs, Graph.Valid, Level;
    match w
    case Start =>
      FirstLevel(g, order);
      assert order[j] == order[0];
    case Via(w', u, e) =>
      assert g.IsVertex(u) && g.Adjacent(u, order[j]);
      var q :| 0 <= q < |order| && order[q] == u;
      LevelAtMost(g, sqrt32, order, q, w');
      assert Reachable(g, order[0], order[q]);
      if q < j {
        HasVisits(g, order, j, q, order[j]);
        var p := FirstReach(g, order, j, order[j]);
        assert Lev(g, order, j) == Lev(g, order, p) + 1;
        if p < q {
          LevelsAscend(g, sqrt32, order, p, q);
        }
      } else if j < q {
        LevelsAscend(g, sqrt32, order, j, q);
      }
  }

  /** If no vertex has more than 1000 incoming arcs, type 5 is breadth-first: what the first vertex
      reaches comes in non-decreasing hop distance. */
  lemma HopsAscend(g: Graph, sqrt32: int -> int, order: seq<int>)
    requires g.Valid() && AllVertices(g, order) && Greedy(g, 5, sqrt32, order) && FewArcs(g, 1000)
    ensures HopOrder(g, order)
  {
    hide AllVertices, Greedy, FewArcs, Graph.Valid, Lev;
    forall i, j, d | 0 <= i < j < |order| && BreadthFirst.Within(g, order[0], order[j], d)
      ensures BreadthFirst.Within(g, order[0], order[i], d)
    {
      var w :| IsWalk(g, order[0], order[j], w) && Length(w) <= d;
      LevelAtMost(g, sqrt32, order, j, w);
      LevelsAscend(g, sqrt32, order, i, j);
      ReachableFirst(g, 5, sqrt32, order, i, j);
      WithinLevel(g, sqrt32, order, i);
    }
  }
}
