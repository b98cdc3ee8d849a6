/** How many incoming arcs the depth-first and the breadth-first type of the best-first ordering
    tolerate: 1000, the factor in their keys.  The counterexamples are graphs with four vertices. */
module BestFirstBounds {
  import opened BestFirst
  import opened BestFirstLevels
  import opened BestFirstOrders
  import opened Finite
  import opened Graphs
  import BreadthFirst

  /** x, n times. */
  ghost function Run(n: nat, x: int): seq<int>
  {
    seq(n, _ => x)
  }

  lemma RunGrows(n: nat, x: int)
    ensures Run(0, x) == [] && Run(n + 1, x) == Run(n, x) + [x]
  {
  }

  /** Vertex 0 has a arcs to 1 and b arcs to 2, vertex 1 has c arcs to 3. */
  ghost function Fan(a: nat, b: nat, c: nat): (g: Graph)
    ensures g.Valid()
  {
    Graph(4, [0, a + b, a + b + c, a + b + c, a + b + c],
          Run(a, 1) + Run(b, 2) + Run(c, 3), [])
  }

  lemma {:induction false} ArcsOfRun(g: Graph, k: int, lo: int, hi: int, t: int, u: int)
    requires 0 <= lo <= hi <= |g.adjncy| && forall e :: lo <= e < hi ==> g.adjncy[e] == t
    ensures Arcs(g, k, lo, hi, u) == if u == t then Run(hi - lo, k) else []
    decreases hi - lo
  {
    hide Run;
    if lo < hi {
      ArcsOfRun(g, k, lo, hi - 1, t, u);
      RunGrows(hi - lo - 1, k);
    } else {
      RunGrows(0, k);
    }
  }

  lemma {:induction false} ArcsSplit(g: Graph, k: int, lo: int, mid: int, hi: int, u: int)
    requires 0 <= lo <= mid <= hi <= |g.adjncy|
    ensures Arcs(g, k, lo, hi, u) == Arcs(g, k, lo, mid, u) + Arcs(g, k, mid, hi, u)
    decreases hi - mid
  {
    if mid < hi {
      ArcsSplit(g, k, lo, mid, hi - 1, u);
    }
  }

  lemma FanTargets(a: nat, b: nat, c: nat)
    ensures
      var g := Fan(a, b, c);
      && g.nvtxs == 4 && |g.adjncy| == a + b + c && g.xadj == [0, a + b, a + b + c, a + b + c, a + b + c]
      && (forall e :: 0 <= e < a ==> g.adjncy[e] == 1)
      && (forall e :: a <= e < a + b ==> g.adjncy[e] == 2)
      && (forall e :: a + b <= e < a + b + c ==> g.adjncy[e] == 3)
  {
  }

  /** The arcs of the rows of 0 and 1. */
  lemma FanArcs(a: nat, b: nat, c: nat, k: int, u: int)
    ensures
      var g := Fan(a, b, c);
      && Arcs(g, k, 0, a + b, u) == (if u == 1 then Run(a, k) else if u == 2 then Run(b, k) else [])
      && Arcs(g, k, a + b, a + b + c, u) == (if u == 3 then Run(c, k) else [])
  {
    FanTargets(a, b, c);
    hide Fan, Run, Arcs, Graph.Valid;
    var g := Fan(a, b, c);
    ArcsOfRun(g, k, 0, a, 1, u);
    ArcsOfRun(g, k, a, a + b, 2, u);
    ArcsOfRun(g, k, a + b, a + b + c, 3, u);
    ArcsSplit(g, k, 0, a, a + b, u);
  }

  /** Incoming arcs are at most as many as the largest bundle. */
  lemma FanFewArcs(a: nat, b: nat, c: nat, n: int)
    requires a <= n && b <= n && c <= n
    ensures FewArcs(Fan(a, b, c), n)
  {
    FanTargets(a, b, c);
    hide Fan, Arcs, ArcSet, Graph.Valid;
    var g := Fan(a, b, c);
    forall u | g.IsVertex(u)
      ensures |ArcSet(g, 0, |g.adjncy|, u)| <= n
    {
      ArcsCount(g, 0, 0, |g.adjncy|, u);
      ArcsSplit(g, 0, 0, a + b, a + b + c, u);
      FanArcs(a, b, c, 0, u);
    }
  }

  /** What has reached a vertex after 0, and after 0 and 1. */
  lemma FanVisits(a: nat, b: nat, c: nat, u: int)
    ensures
      var g := Fan(a, b, c);
      && Visits(g, [], u) == []
      && Visits(g, [0], u) == (if u == 1 then Run(a, 0) else if u == 2 then Run(b, 0) else [])
      && Visits(g, [0, 1], u) == Visits(g, [0], u) + (if u == 3 then Run(c, 1) else [])
  {
    FanTargets(a, b, c);
    hide Fan, Run, Arcs, Graph.Valid;
    FanArcs(a, b, c, 0, u);
    FanArcs(a, b, c, 1, u);
    assert [0][..0] == [] && [0, 1][..1] == [0];
  }

  lemma RunStarts(n: nat, x: int)
    requires n > 0
    ensures Run(n, x) != [] && Run(n, x)[0] == x
  {
  }

  lemma FanLevels(a: nat, b: nat, c: nat)
    requires a > 0 && b > 0 && c > 0
    ensures
      var g := Fan(a, b, c);
      && Level(g, [0], 1) == Level(g, [0], 2) == Level(g, [0, 1], 2) == 1
      && Level(g, [0, 1], 3) == 2
  {
    FanVisits(a, b, c, 0);
    FanVisits(a, b, c, 1);
    FanVisits(a, b, c, 2);
    FanVisits(a, b, c, 3);
    hide Fan, Visits, Graph.Valid;
    RunStarts(a, 0);
    RunStarts(b, 0);
    RunStarts(c, 1);
    hide Run;
    assert [0][..0] == [] && [0, 1][..0] == [] && [0, 1][..1] == [0];
  }

  lemma FanAdjacent(a: nat, b: nat, c: nat)
    requires c > 0
    ensures Fan(a, b, c).Adjacent(1, 3) && !Fan(a, b, c).Adjacent(1, 2) && !Fan(a, b, c).Adjacent(0, 3)
    ensures b > 0 ==> Fan(a, b, c).Adjacent(0, 2)
  {
    var g := Fan(a, b, c);
    assert g.IsArc(1, a + b);
    assert b > 0 ==> g.IsArc(0, a);
  }

  lemma FourVertices(g: Graph, order: seq<int>)
    requires g.nvtxs == 4 && AllVertices(g, order)
    ensures |order| == 4
  {
    DistinctCount(order);
    assert (set v | v in order) == Below(4);
  }

  lemma LastOfFour(g: Graph, order: seq<int>, u: int)
    requires g.nvtxs == 4 && AllVertices(g, order) && |order| == 4
    requires g.IsVertex(u) && u !in order[..3]
    ensures order == order[..3] + [u]
  {
    var j :| 0 <= j < 4 && order[j] == u;
    assert forall k :: 0 <= k < 3 ==> order[..3][k] == order[k];
  }

  // ----- Forced and free choices -----

  /** After o, vertex u has been reached and scores above all other vertices that have. */
  ghost predicate Best(g: Graph, kind: int, sqrt32: int -> int, o: seq<int>, u: int)
    requires g.Valid()
  {
    && g.IsVertex(u) && u !in o && Visits(g, o, u) != []
    && forall w :: g.IsVertex(w) && w !in o && w != u && Visits(g, o, w) != [] ==>
         Score(g, kind, sqrt32, o, w) < Score(g, kind, sqrt32, o, u)
  }

  lemma BestIsTaken(g: Graph, kind: int, sqrt32: int -> int, order: seq<int>, i: int, u: int)
    requires g.Valid() && AllVertices(g, order) && Greedy(g, kind, sqrt32, order)
    requires 0 <= i < |order| && Best(g, kind, sqrt32, order[..i], u)
    ensures order[i] == u
  {
    hide Visits, Score, Greedy;
    var j :| 0 <= j < |order| && order[j] == u;
    assert forall k :: 0 <= k < i ==> order[..i][k] == order[k];
    assert order[i] !in order[..i];
    if i < j {
      Choice(g, kind, sqrt32, order, i, j, order[..i]);
    }
  }

  /** Two forced choices determine an order of four vertices. */
  lemma Forced(g: Graph, kind: int, sqrt32: int -> int, order: seq<int>, u: int, v: int)
    requires g.Valid() && g.nvtxs == 4 && AllVertices(g, order) && Greedy(g, kind, sqrt32, order)
    requires order != [] && order[0] == 0 && Best(g, kind, sqrt32, [0], 1) && Best(g, kind, sqrt32, [0, 1], u)
    requires g.IsVertex(v) && v !in {0, 1, u}
    ensures order == [0, 1, u, v]
  {
    hide Best, Greedy, Graph.Valid;
    FourVertices(g, order);
    assert order[..1] == [0];
    BestIsTaken(g, kind, sqrt32, order, 1, 1);
    assert order[..2] == [0, 1];
    BestIsTaken(g, kind, sqrt32, order, 2, u);
    assert order[..3] == [0, 1, u];
    LastOfFour(g, order, v);
  }

  lemma BestOfFour(g: Graph, kind: int, sqrt32: int -> int, u: int, v: int)
    requires g.Valid() && g.nvtxs == 4 && (u, v) in {(2, 3), (3, 2)}
    requires Visits(g, [0], 1) != [] && Visits(g, [0], 3) == []
    requires Score(g, kind, sqrt32, [0], 2) < Score(g, kind, sqrt32, [0], 1)
    requires Visits(g, [0, 1], u) != []
    requires Score(g, kind, sqrt32, [0, 1], v) < Score(g, kind, sqrt32, [0, 1], u)
    ensures Best(g, kind, sqrt32, [0], 1) && Best(g, kind, sqrt32, [0, 1], u)
  {
    hide Visits, Score, Graph.Valid;
    assert g.IsVertex(1) && g.IsVertex(u);
  }

  lemma ListsFour(g: Graph, u: int, v: int)
    requires g.nvtxs == 4 && (u, v) in {(2, 3), (3, 2)}
    ensures AllVertices(g, [0, 1, u, v])
  {
    var order := [0, 1, u, v];
    forall w | g.IsVertex(w)
      ensures w in order
    {
      assert order[0] == 0 && order[1] == 1 && order[2] == u && order[3] == v;
    }
  }

  /** An order of four vertices is greedy if two choices are, since nothing has reached the first. */
  lemma GreedyOfFour(g: Graph, kind: int, sqrt32: int -> int, u: int, v: int)
    requires g.Valid() && forall w :: Visits(g, [], w) == []
    requires NoWorse(g, kind, sqrt32, [0], 1, u) && NoWorse(g, kind, sqrt32, [0], 1, v)
    requires NoWorse(g, kind, sqrt32, [0, 1], u, v)
    ensures Greedy(g, kind, sqrt32, [0, 1, u, v])
  {
    hide Visits, Score, Graph.Valid;
    var order := [0, 1, u, v];
    assert order[..0] == [] && order[..1] == [0] && order[..2] == [0, 1];
  }

  // ----- Depth-first -----

  lemma ScoreOfRun(g: Graph, sqrt32: int -> int, o: seq<int>, u: int, k: int, n: nat)
    requires g.Valid() && n > 0 && Visits(g, o, u) == Run(n, k)
    ensures Visits(g, o, u) != []
    ensures Score(g, 1, sqrt32, o, u) == 1000 * (k + 1) + n
    ensures Score(g, 5, sqrt32, o, u) == n - 1000 * Level(g, o, u)
  {
    hide Visits, Level, Graph.Valid;
  }

  lemma FanScores(a: nat, b: nat, c: nat, sqrt32: int -> int)
    requires a > 0 && b > 0 && c > 0
    ensures
      var g := Fan(a, b, c);
      && Visits(g, [0], 1) != [] && Visits(g, [0], 2) != [] && Visits(g, [0], 3) == []
      && Visits(g, [0, 1], 2) != [] && Visits(g, [0, 1], 3) != []
      && Score(g, 1, sqrt32, [0], 1) == 1000 + a && Score(g, 1, sqrt32, [0], 2) == 1000 + b
      && Score(g, 1, sqrt32, [0, 1], 2) == 1000 + b && Score(g, 1, sqrt32, [0, 1], 3) == 2000 + c
      && Score(g, 5, sqrt32, [0], 1) == a - 1000 && Score(g, 5, sqrt32, [0], 2) == b - 1000
      && Score(g, 5, sqrt32, [0, 1], 2) == b - 1000 && Score(g, 5, sqrt32, [0, 1], 3) == c - 2000
  {
    FanVisits(a, b, c, 1);
    FanVisits(a, b, c, 2);
    FanVisits(a, b, c, 3);
    FanLevels(a, b, c);
    hide Fan, Visits, Level, Score, Run, Graph.Valid;
    var g := Fan(a, b, c);
    ScoreOfRun(g, sqrt32, [0], 1, 0, a);
    ScoreOfRun(g, sqrt32, [0], 2, 0, b);
    ScoreOfRun(g, sqrt32, [0, 1], 2, 0, b);
    ScoreOfRun(g, sqrt32, [0, 1], 3, 1, c);
  }

  lemma FanStart(a: nat, b: nat, c: nat)
    ensures forall u :: Visits(Fan(a, b, c), [], u) == []
  {
  }

  lemma OldArcsNotDepthFirst(a: nat, b: nat)
    ensures !DepthFirstOrder(Fan(a, b, 1), [0, 1, 2, 3])
  {
    FanAdjacent(a, b, 1);
    hide Fan, Graph.Adjacent;
    var g, order := Fan(a, b, 1), [0, 1, 2, 3];
    assert g.Adjacent(order[1], order[3]);
    assert !Continues(g, order, 1, 2);
  }

  /** Above 1001 arcs there are graphs on which no run of type 1 is depth-first. */
  lemma DepthFirstFails(a: nat, b: nat, sqrt32: int -> int, order: seq<int>)
    requires a > b > 1001 && AllVertices(Fan(a, b, 1), order) && Greedy(Fan(a, b, 1), 1, sqrt32, order)
    requires order != [] && order[0] == 0
    ensures !DepthFirstOrder(Fan(a, b, 1), order)
  {
    FanTargets(a, b, 1);
    FanScores(a, b, 1, sqrt32);
    hide Fan, Visits, Score, Greedy, Best, AllVertices, Graph.Valid, DepthFirstOrder;
    var g := Fan(a, b, 1);
    BestOfFour(g, 1, sqrt32, 2, 3);
    Forced(g, 1, sqrt32, order, 2, 3);
    OldArcsNotDepthFirst(a, b);
  }

  /** From 1001 arcs on there are graphs with a greedy order that is not depth-first. */
  lemma DepthFirstMayFail(n: nat, sqrt32: int -> int)
    requires n >= 1001
    ensures
      var g, order := Fan(n, n, 1), [0, 1, 2, 3];
      FewArcs(g, n) && AllVertices(g, order) && Greedy(g, 1, sqrt32, order) && !DepthFirstOrder(g, order)
  {
    FanFewArcs(n, n, 1, n);
    FanTargets(n, n, 1);
    OldArcsNotDepthFirst(n, n);
    FanStart(n, n, 1);
    FanScores(n, n, 1, sqrt32);
    hide Fan, Visits, Score, FewArcs, DepthFirstOrder, Greedy, AllVertices, Graph.Valid;
    var g := Fan(n, n, 1);
    ListsFour(g, 2, 3);
    GreedyOfFour(g, 1, sqrt32, 2, 3);
  }

  lemma FewerArcs(g: Graph, n: int, m: int)
    requires FewArcs(g, n) && n <= m
    ensures FewArcs(g, m)
  {
  }

  /** All greedy orders of type 1 of the graphs with at most n arcs into a vertex are depth-first exactly
      if n is at most 1000. */
  lemma DepthFirstBound(sqrt32: int -> int, n: int)
    ensures
      (forall g: Graph, order ::
         g.Valid() && FewArcs(g, n) && AllVertices(g, order) && Greedy(g, 1, sqrt32, order) ==>
         DepthFirstOrder(g, order))
      <==> n <= 1000
  {
    hide FewArcs, AllVertices, Greedy, DepthFirstOrder, Fan, Graph.Valid;
    if n <= 1000 {
      forall g: Graph, order | g.Valid() && FewArcs(g, n) && AllVertices(g, order) && Greedy(g, 1, sqrt32, order)
        ensures DepthFirstOrder(g, order)
      {
        FewerArcs(g, n, 1000);
        DepthFirstGraph(g, sqrt32, order);
      }
    } else {
      DepthFirstMayFail(n, sqrt32);
    }
  }

  // ----- Breadth-first -----

  lemma FarArcsNotHopOrder(a: nat, c: nat)
    requires c > 0
    ensures !HopOrder(Fan(a, 1, c), [0, 1, 3, 2])
  {
    var g, order := Fan(a, 1, c), [0, 1, 3, 2];
    FanAdjacent(a, 1, c);
    hide Fan, Graph.Adjacent;
    assert IsWalk(g, 0, 0, Start) && Length(Start) == 0;
    assert BreadthFirst.Within(g, 0, 0, 0);
    BreadthFirst.OneFurther(g, 0, 0, 2, 0);
    assert BreadthFirst.Within(g, order[0], order[3], 1);
    NotWithinOne(g, 0, 3);
    assert !BreadthFirst.Within(g, order[0], order[2], 1);
  }

  lemma NotWithinOne(g: Graph, s: int, t: int)
    requires g.Valid() && s != t && !g.Adjacent(s, t)
    ensures !BreadthFirst.Within(g, s, t, 1)
  {
    forall w | IsWalk(g, s, t, w)
      ensures Length(w) > 1
    {
      if Length(w) <= 1 {
        OneArc(g, s, t, w);
      }
    }
  }

  lemma OneArc(g: Graph, s: int, t: int, w: Walk)
    requires g.Valid() && s != t && IsWalk(g, s, t, w) && Length(w) <= 1
    ensures g.Adjacent(s, t)
  {
    match w
    case Start =>
    case Via(w', u, e) =>
      assert g.Adjacent(u, t) && Length(w') == 0;
  }

  /** Above 1001 arcs there are graphs on which no run of type 5 is breadth-first. */
  lemma BreadthFirstFails(c: nat, sqrt32: int -> int, order: seq<int>)
    requires c > 1001 && AllVertices(Fan(2, 1, c), order) && Greedy(Fan(2, 1, c), 5, sqrt32, order)
    requires order != [] && order[0] == 0
    ensures !HopOrder(Fan(2, 1, c), order)
  {
    FanTargets(2, 1, c);
    FanScores(2, 1, c, sqrt32);
    hide Fan, Visits, Score, Greedy, Best, AllVertices, Graph.Valid, HopOrder;
    var g := Fan(2, 1, c);
    BestOfFour(g, 5, sqrt32, 3, 2);
    Forced(g, 5, sqrt32, order, 3, 2);
    FarArcsNotHopOrder(2, c);
  }

  /** From 1001 arcs on there are graphs with a greedy order that is not breadth-first. */
  lemma BreadthFirstMayFail(n: nat, sqrt32: int -> int)
    requires n >= 1001
    ensures
      var g, order := Fan(1, 1, n), [0, 1, 3, 2];
      FewArcs(g, n) && AllVertices(g, order) && Greedy(g, 5, sqrt32, order) && !HopOrder(g, order)
  {
    FanFewArcs(1, 1, n, n);
    FanTargets(1, 1, n);
    FarArcsNotHopOrder(1, n);
    FanStart(1, 1, n);
    FanScores(1, 1, n, sqrt32);
    hide Fan, Visits, Score, FewArcs, HopOrder, Greedy, AllVertices, Graph.Valid;
    var g := Fan(1, 1, n);
    ListsFour(g, 3, 2);
    GreedyOfFour(g, 5, sqrt32, 3, 2);
  }

  /** The same bound for type 5: all its greedy orders are breadth-first exactly if n is at most 1000. */
  lemma BreadthFirstBound(sqrt32: int -> int, n: int)
    ensures
      (forall g: Graph, order ::
         g.Valid() && FewArcs(g, n) && AllVertices(g, order) && Greedy(g, 5, sqrt32, order) ==>
         HopOrder(g, order))
      <==> n <= 1000
  {
    hide FewArcs, AllVertices, Greedy, HopOrder, Fan, Graph.Valid;
    if n <= 1000 {
      forall g: Graph, order | g.Valid() && FewArcs(g, n) && AllVertices(g, order) && Greedy(g, 5, sqrt32, order)
        ensures HopOrder(g, order)
      {
        FewerArcs(g, n, 1000);
        HopsAscend(g, sqrt32, order);
      }
    } else {
      BreadthFirstMayFail(n, sqrt32);
    }
  }
}
