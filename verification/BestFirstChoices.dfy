/** What each type of the best-first ordering takes next, said in terms of the graph and the order
    alone: the latest neighbour of a vertex and the arcs into it. */
module BestFirstChoices {
  import opened BestFirst
  import opened BestFirstLevels
  import opened BestFirstOrders
  import opened Graphs
  import opened Sequences

  /** p is the latest of the first i positions whose vertex has an arc to u. */
  ghost predicate Latest(g: Graph, order: seq<int>, i: int, u: int, p: int)
    requires g.Valid() && 0 <= i <= |order|
  {
    0 <= p < i && g.Adjacent(order[p], u) && forall k :: p < k < i ==> !g.Adjacent(order[k], u)
  }

  /** The number of arcs into u from the first i vertices. */
  ghost function Received(g: Graph, order: seq<int>, i: int, u: int): int
    requires g.Valid() && 0 <= i <= |order|
  {
    |ArcsInto(g, order[..i], u)|
  }

  /** All such arcs, weighted with the positions they come from. */
  ghost function PositionSum(g: Graph, order: seq<int>, i: int, u: int): int
    requires g.Valid() && 0 <= i <= |order| && forall k :: 0 <= k < i ==> g.IsVertex(order[k])
  {
    if i == 0 then 0
    else
      var v := order[i - 1];
      assert g.IsVertex(v);
      PositionSum(g, order, i - 1, u) + (i - 1) * |ArcSet(g, g.xadj[v], g.xadj[v + 1], u)|
  }

  /** The numbers of arcs into u, summed over the first i turns. */
  ghost function RunningSum(g: Graph, order: seq<int>, i: int, u: int): int
    requires g.Valid() && 0 <= i <= |order|
  {
    if i == 0 then 0 else RunningSum(g, order, i - 1, u) + Received(g, order, i, u)
  }

  /** The last of the first i turns in which type 4 updates keys: every turn up to the 1000th, then
      every 25th. */
  ghost function LastRound(i: int): int
  {
    if i <= 1000 then i else i - (i - 1) % 25
  }

  // ----- The bookkeeping in these terms -----

  /** What Visits says about an unvisited vertex and about one that has been reached. */
  lemma VisitsMean(g: Graph, order: seq<int>, i: int, u: int)
    requires g.Valid() && AllVertices(g, order) && 0 <= i <= |order|
    ensures
      var visits := Visits(g, order[..i], u);
      && |visits| == Received(g, order, i, u)
      && (visits == [] <==> forall p :: !Latest(g, order, i, u, p))
      && (visits != [] ==> Latest(g, order, i, u, visits[|visits| - 1]))
  {
    hide Visits, ArcsInto, Graph.Valid, Graph.Adjacent;
    var o := order[..i];
    assert forall k :: 0 <= k < i ==> o[k] == order[k];
    VisitsCountArcs(g, o, u);
    VisitsEnd(g, o, u);
    var visits := Visits(g, o, u);
    if visits != [] {
      var last := visits[|visits| - 1];
      forall k | last < k < i
        ensures !g.Adjacent(order[k], u)
      {
        assert !g.Adjacent(o[k], u);
      }
      assert Latest(g, order, i, u, last);
    }
    forall p | Latest(g, order, i, u, p)
      ensures Visits(g, o, u) != []
    {
      assert g.Adjacent(o[p], u);
    }
  }

  lemma LatestUnique(g: Graph, order: seq<int>, i: int, u: int, p: int, q: int)
    requires g.Valid() && 0 <= i <= |order| && Latest(g, order, i, u, p) && Latest(g, order, i, u, q)
    ensures p == q
  {
  }

  lemma {:induction false} SumOfRun(s: seq<int>, k: int)
    requires forall x :: 0 <= x < |s| ==> s[x] == k
    ensures Sum(s) == k * |s|
  {
    if s != [] {
      SumOfRun(s[..|s| - 1], k);
    }
  }

  lemma {:induction false} VisitsSum(g: Graph, order: seq<int>, i: int, u: int)
    requires g.Valid() && 0 <= i <= |order| && forall k :: 0 <= k < i ==> g.IsVertex(order[k])
    ensures Sum(Visits(g, order[..i], u)) == PositionSum(g, order, i, u)
    decreases i
  {
    hide Visits, ArcSet, Sum, Graph.Valid;
    if i > 0 {
      VisitsSum(g, order, i - 1, u);
      LastTurnSum(g, order, i, u);
    } else {
      assert order[..0] == [];
      NoVisitsSum(g, u);
    }
  }

  lemma NoVisitsSum(g: Graph, u: int)
    requires g.Valid()
    ensures Sum(Visits(g, [], u)) == 0
  {
  }

  /** What the i-th turn adds. */
  lemma LastTurnSum(g: Graph, order: seq<int>, i: int, u: int)
    requires g.Valid() && 0 < i <= |order| && g.IsVertex(order[i - 1])
    ensures
      var v := order[i - 1];
      && 0 <= g.xadj[v] <= g.xadj[v + 1] <= |g.adjncy|
      && Sum(Visits(g, order[..i], u)) ==
           Sum(Visits(g, order[..i - 1], u)) + (i - 1) * |ArcSet(g, g.xadj[v], g.xadj[v + 1], u)|
  {
    var v := order[i - 1];
    var arcs := Arcs(g, i - 1, g.xadj[v], g.xadj[v + 1], u);
    assert order[..i][..i - 1] == order[..i - 1] && order[..i][i - 1] == v;
    assert Visits(g, order[..i], u) == Visits(g, order[..i - 1], u) + arcs;
    hide Visits, Arcs, ArcSet, Sum, Graph.Valid;
    ArcsAreK(g, i - 1, g.xadj[v], g.xadj[v + 1], u);
    ArcsCount(g, i - 1, g.xadj[v], g.xadj[v + 1], u);
    SumOfRun(arcs, i - 1);
    SumConcat(Visits(g, order[..i - 1], u), arcs);
  }

  lemma {:induction false} SodIsRunningSum(g: Graph, order: seq<int>, i: int, u: int)
    requires g.Valid() && AllVertices(g, order) && 0 <= i <= |order|
    ensures Sod(g, order[..i], u) == RunningSum(g, order, i, u)
    decreases i
  {
    hide Visits, ArcsInto, Graph.Valid;
    if i > 0 {
      assert order[..i][..i - 1] == order[..i - 1];
      SodIsRunningSum(g, order, i - 1, u);
      VisitsMean(g, order, i, u);
    }
  }

  lemma NothingPublished(g: Graph, order: seq<int>, u: int)
    requires g.Valid()
    ensures Published(g, order[..0], u) == RunningSum(g, order, 0, u) == 0
  {
  }

  /** What has been published is the running sum of the last round. */
  lemma {:induction false} PublishedIsLastRound(g: Graph, order: seq<int>, i: int, u: int)
    requires g.Valid() && AllVertices(g, order) && 0 <= i <= |order|
    ensures 0 <= LastRound(i) <= i && Published(g, order[..i], u) == RunningSum(g, order, LastRound(i), u)
    decreases i
  {
    hide Visits, Sod, RunningSum, Graph.Valid, AllVertices;
    if i == 0 {
      NothingPublished(g, order, u);
    } else if i <= 1000 || (i - 1) % 25 == 0 {
      if Visits(g, order[..i], u) == [] {
        UnvisitedScoresZero(g, order[..i], u);
      }
      SodIsRunningSum(g, order, i, u);
    } else {
      assert order[..i][..i - 1] == order[..i - 1];
      PublishedIsLastRound(g, order, i - 1, u);
    }
  }

  // ----- The choices -----

  /** The vertex taken has been reached if any other has, and it scores no less. */
  lemma Taken(g: Graph, kind: int, sqrt32: int -> int, order: seq<int>, i: int, j: int, q: int) returns (p: int)
    requires g.Valid() && AllVertices(g, order) && Greedy(g, kind, sqrt32, order) && 0 <= i < j < |order|
    requires Latest(g, order, i, order[j], q)
    ensures Latest(g, order, i, order[i], p)
    ensures Score(g, kind, sqrt32, order[..i], order[j]) <= Score(g, kind, sqrt32, order[..i], order[i])
    ensures HasScore(g, order, i, order[i], p) && HasScore(g, order, i, order[j], q)
  {
    hide Greedy, Visits, Score, Latest, Received, Graph.Valid, AllVertices;
    var o := order[..i];
    Choice(g, kind, sqrt32, order, i, j, o);
    VisitsMean(g, order, i, order[i]);
    VisitsMean(g, order, i, order[j]);
    var vi, vj := Visits(g, o, order[i]), Visits(g, o, order[j]);
    p := vi[|vi| - 1];
    LatestUnique(g, order, i, order[j], q, vj[|vj| - 1]);
  }

  /** The visits of a vertex that has been reached, in short. */
  ghost predicate HasScore(g: Graph, order: seq<int>, i: int, u: int, p: int)
    requires g.Valid() && 0 <= i <= |order|
  {
    var visits := Visits(g, order[..i], u);
    visits != [] && visits[|visits| - 1] == p && |visits| == Received(g, order, i, u)
  }

  /** Type 1: the latest neighbour counts 1000 times as much as an arc. */
  lemma DepthFirstChoice(g: Graph, sqrt32: int -> int, order: seq<int>, i: int, j: int, q: int) returns (p: int)
    requires g.Valid() && AllVertices(g, order) && Greedy(g, 1, sqrt32, order) && 0 <= i < j < |order|
    requires Latest(g, order, i, order[j], q)
    ensures Latest(g, order, i, order[i], p)
    ensures 1000 * q + Received(g, order, i, order[j]) <= 1000 * p + Received(g, order, i, order[i])
  {
    hide Greedy, Visits, Latest, Received, Graph.Valid, AllVertices;
    p := Taken(g, 1, sqrt32, order, i, j, q);
  }

  /** Type 3: the larger root of the sum of positions; so no square separates the sums the wrong way. */
  lemma PositionChoice(g: Graph, sqrt32: int -> int, order: seq<int>, i: int, j: int, q: int)
    requires g.Valid() && AllVertices(g, order) && Greedy(g, 3, sqrt32, order) && 0 <= i < j < |order|
    requires Latest(g, order, i, order[j], q)
    ensures exists p :: Latest(g, order, i, order[i], p)
    ensures forall k :: 0 <= k < i ==> g.IsVertex(order[k])
    ensures sqrt32(PositionSum(g, order, i, order[j])) <= sqrt32(PositionSum(g, order, i, order[i]))
  {
    hide Greedy, Visits, Latest, Received, PositionSum, Graph.Valid;
    var p := Taken(g, 3, sqrt32, order, i, j, q);
    VisitsSum(g, order, i, order[i]);
    VisitsSum(g, order, i, order[j]);
  }

  /** sqrt32 is the root, rounded down. */
  ghost predicate IsRoot(sqrt32: int -> int)
  {
    forall x :: x >= 0 ==> 0 <= sqrt32(x) && sqrt32(x) * sqrt32(x) <= x < (sqrt32(x) + 1) * (sqrt32(x) + 1)
  }

  lemma PositionChoiceBySquares(g: Graph, sqrt32: int -> int, order: seq<int>, i: int, j: int, q: int, r: nat)
    requires g.Valid() && AllVertices(g, order) && Greedy(g, 3, sqrt32, order) && 0 <= i < j < |order|
    requires Latest(g, order, i, order[j], q) && IsRoot(sqrt32)
    requires r * r <= PositionSum(g, order, i, order[j])
    ensures r * r <= PositionSum(g, order, i, order[i])
  {
    hide Greedy, PositionSum, Latest, Graph.Valid, IsRoot, AllVertices;
    PositionChoice(g, sqrt32, order, i, j, q);
    PositionSumGrows(g, order, i, order[i]);
    PositionSumGrows(g, order, i, order[j]);
    SquaresFollow(sqrt32, PositionSum(g, order, i, order[j]), PositionSum(g, order, i, order[i]), r);
  }

  lemma SquaresFollow(sqrt32: int -> int, x: nat, y: nat, r: nat)
    requires IsRoot(sqrt32) && sqrt32(x) <= sqrt32(y) && r * r <= x
    ensures r * r <= y
  {
    var a, b := sqrt32(x), sqrt32(y);
    if r > a {
      Squares(a + 1, r);
    }
    Squares(r, b);
  }

  lemma Squares(a: nat, b: nat)
    requires a <= b
    ensures a * a <= b * b
  {
  }

  lemma {:induction false} PositionSumGrows(g: Graph, order: seq<int>, i: int, u: int)
    requires g.Valid() && 0 <= i <= |order| && forall k :: 0 <= k < i ==> g.IsVertex(order[k])
    ensures 0 <= PositionSum(g, order, i, u)
    decreases i
  {
    if i > 0 {
      PositionSumGrows(g, order, i - 1, u);
    }
  }

  /** Type 4: the larger running sum at the last round. */
  lemma RunningChoice(g: Graph, sqrt32: int -> int, order: seq<int>, i: int, j: int, q: int)
    requires g.Valid() && AllVertices(g, order) && Greedy(g, 4, sqrt32, order) && 0 <= i < j < |order|
    requires Latest(g, order, i, order[j], q)
    ensures exists p :: Latest(g, order, i, order[i], p)
    ensures 0 <= LastRound(i) <= i
    ensures RunningSum(g, order, LastRound(i), order[j]) <= RunningSum(g, order, LastRound(i), order[i])
  {
    PublishedIsLastRound(g, order, i, order[i]);
    PublishedIsLastRound(g, order, i, order[j]);
    hide Greedy, Visits, Latest, Received, RunningSum, Published, Graph.Valid, AllVertices, LastRound;
    var p := Taken(g, 4, sqrt32, order, i, j, q);
  }

  /** Type 5: the level counts 1000 times as much as an arc. */
  lemma LevelChoice(g: Graph, sqrt32: int -> int, order: seq<int>, i: int, j: int, q: int)
    requires g.Valid() && AllVertices(g, order) && Greedy(g, 5, sqrt32, order) && 0 <= i < j < |order|
    requires Latest(g, order, i, order[j], q)
    ensures exists p :: Latest(g, order, i, order[i], p)
    ensures Received(g, order, i, order[j]) - 1000 * Level(g, order[..i], order[j])
         <= Received(g, order, i, order[i]) - 1000 * Lev(g, order, i)
  {
    hide Greedy, Visits, Latest, Received, Level, Graph.Valid, AllVertices;
    var p := Taken(g, 5, sqrt32, order, i, j, q);
  }

  /** Type 6: the position of the latest neighbour, counted from one, times the number of arcs. */
  lemma HybridChoice(g: Graph, sqrt32: int -> int, order: seq<int>, i: int, j: int, q: int) returns (p: int)
    requires g.Valid() && AllVertices(g, order) && Greedy(g, 6, sqrt32, order) && 0 <= i < j < |order|
    requires Latest(g, order, i, order[j], q)
    ensures Latest(g, order, i, order[i], p)
    ensures (q + 1) * Received(g, order, i, order[j]) <= (p + 1) * Received(g, order, i, order[i])
  {
    hide Greedy, Visits, Latest, Received, Graph.Valid, AllVertices;
    p := Taken(g, 6, sqrt32, order, i, j, q);
  }
}
