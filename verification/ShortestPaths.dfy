/** gk_graph_SingleSourceShortestPaths (src/graph.c) on integer weights: Dijkstra's algorithm
    over the indexed max-heap, whose keys are negated distances. */
module ShortestPaths {
  import opened Finite
  import opened Graphs
  import opened PriorityQueue

  const WAITING := 0
  const QUEUED := 1
  const CLOSED := 2

  /** d is the smallest weight of a walk from s to t. */
  ghost predicate IsDistance(g: Graph, s: int, t: int, d: int)
    requires g.Valid()
  {
    && (exists w :: IsWalk(g, s, t, w) && Weight(g, w) == d)
    && (forall w :: IsWalk(g, s, t, w) ==> d <= Weight(g, w))
  }

  ghost function NotClosed(inq: seq<int>): set<int>
  {
    set t | t in Below(|inq|) && inq[t] != CLOSED
  }

  // ----- The state of the search between two arc relaxations -----

  /** Tentative distances are weights of real walks, and the queue holds their negations. */
  ghost predicate Tentative(g: Graph, root: int, sps: seq<int>, inq: seq<int>, keys: map<int, int>)
    requires g.Valid()
  {
    && |sps| == |inq| == g.nvtxs
    && (forall t :: 0 <= t < g.nvtxs ==> inq[t] in {WAITING, QUEUED, CLOSED})
    && (forall t :: 0 <= t < g.nvtxs ==>
         if inq[t] == WAITING then sps[t] == -1
         else sps[t] >= 0 && exists w :: IsWalk(g, root, t, w) && Weight(g, w) == sps[t])
    && (forall t :: t in keys ==> 0 <= t < g.nvtxs && inq[t] == QUEUED && keys[t] == -sps[t])
    && (forall t :: 0 <= t < g.nvtxs && inq[t] == QUEUED ==> t in keys)
  }

  /** No closed vertex is farther than top, and no queued vertex is nearer. */
  ghost predicate Separated(sps: seq<int>, inq: seq<int>, top: int)
    requires |sps| == |inq|
  {
    && (forall t :: 0 <= t < |inq| && inq[t] == CLOSED ==> sps[t] <= top)
    && (forall t :: 0 <= t < |inq| && inq[t] == QUEUED ==> top <= sps[t])
  }

  /** Arc e out of v cannot improve the distance of its end. */
  ghost predicate Relaxed(g: Graph, sps: seq<int>, inq: seq<int>, v: int, e: int)
    requires g.Valid() && g.Weighted() && |sps| == |inq| == g.nvtxs && g.IsArc(v, e)
  {
    inq[g.adjncy[e]] != WAITING && sps[g.adjncy[e]] <= sps[v] + g.iadjwgt[e]
  }

  /** Every arc that leaves a closed vertex is relaxed, except the arcs of v from i on. */
  ghost predicate AllRelaxed(g: Graph, sps: seq<int>, inq: seq<int>, v: int, i: int)
    requires g.Valid() && g.Weighted() && |sps| == |inq| == g.nvtxs
  {
    forall c, e :: g.IsArc(c, e) && inq[c] == CLOSED && (c == v ==> e < i) ==> Relaxed(g, sps, inq, c, e)
  }

  /** When nothing is queued, tentative distances are distances. */
  lemma {:induction false} WalksAreLonger(g: Graph, root: int, sps: seq<int>, inq: seq<int>, t: int, w: Walk)
    requires g.Valid() && g.Weighted() && |sps| == |inq| == g.nvtxs && g.IsVertex(root)
    requires forall t :: 0 <= t < g.nvtxs ==> inq[t] in {WAITING, CLOSED}
    requires inq[root] == CLOSED && sps[root] <= 0
    requires AllRelaxed(g, sps, inq, -1, 0)
    requires IsWalk(g, root, t, w)
    ensures g.IsVertex(t) && inq[t] == CLOSED && sps[t] <= Weight(g, w)
    decreases w
  {
    match w
    case Start =>
    case Via(w', u, e) =>
      WalksAreLonger(g, root, sps, inq, u, w');
      assert Relaxed(g, sps, inq, u, e);
  }

  /** The arc needs no work: its end is closed already, or is near enough. */
  lemma SkipStep(g: Graph, root: int, sps: seq<int>, inq: seq<int>, keys: map<int, int>, v: int, i: int)
    requires g.Valid() && g.Weighted() && g.IsArc(v, i) && 0 <= g.iadjwgt[i]
    requires Tentative(g, root, sps, inq, keys) && Separated(sps, inq, sps[v])
    requires AllRelaxed(g, sps, inq, v, i)
    requires inq[g.adjncy[i]] == CLOSED || 0 <= sps[g.adjncy[i]] <= sps[v] + g.iadjwgt[i]
    ensures AllRelaxed(g, sps, inq, v, i + 1)
  {
  }

  /** The arc shortens the way to its end u, which is queued under the new distance d. */
  lemma RelaxStep(g: Graph, root: int, sps: seq<int>, inq: seq<int>, keys: map<int, int>, v: int, i: int,
                  u: int, d: int)
    requires g.Valid() && g.Weighted() && g.IsArc(v, i) && 0 <= g.iadjwgt[i]
    requires Tentative(g, root, sps, inq, keys) && inq[v] == CLOSED && Separated(sps, inq, sps[v])
    requires AllRelaxed(g, sps, inq, v, i)
    requires u == g.adjncy[i] && inq[u] != CLOSED && d == sps[v] + g.iadjwgt[i]
    requires sps[u] < 0 || d < sps[u]
    ensures Tentative(g, root, sps[u := d], inq[u := QUEUED], keys[u := -d])
    ensures Separated(sps[u := d], inq[u := QUEUED], sps[v])
    ensures AllRelaxed(g, sps[u := d], inq[u := QUEUED], v, i + 1)
    ensures NotClosed(inq[u := QUEUED]) == NotClosed(inq)
  {
    var w :| IsWalk(g, root, v, w) && Weight(g, w) == sps[v];
    assert IsWalk(g, root, u, Via(w, v, i)) && Weight(g, Via(w, v, i)) == d;
    RelaxTentative(g, root, sps, inq, keys, Via(w, v, i), u, d);
    RelaxAllRelaxed(g, sps, inq, v, i, u, d);
    hide Tentative, AllRelaxed, IsWalk;
    assert inq[u := QUEUED][u] != CLOSED && inq[u] != CLOSED;
  }

  lemma RelaxTentative(g: Graph, root: int, sps: seq<int>, inq: seq<int>, keys: map<int, int>, w: Walk,
                       u: int, d: int)
    requires g.Valid() && Tentative(g, root, sps, inq, keys)
    requires g.IsVertex(u) && IsWalk(g, root, u, w) && Weight(g, w) == d >= 0
    ensures Tentative(g, root, sps[u := d], inq[u := QUEUED], keys[u := -d])
  {
  }

  lemma RelaxAllRelaxed(g: Graph, sps: seq<int>, inq: seq<int>, v: int, i: int, u: int, d: int)
    requires g.Valid() && g.Weighted() && g.IsArc(v, i) && |sps| == |inq| == g.nvtxs
    requires AllRelaxed(g, sps, inq, v, i)
    requires u == g.adjncy[i] && inq[u] != CLOSED && d == sps[v] + g.iadjwgt[i]
    requires inq[u] != WAITING ==> d < sps[u]
    ensures AllRelaxed(g, sps[u := d], inq[u := QUEUED], v, i + 1)
  {
    forall c, e | g.IsArc(c, e) && inq[u := QUEUED][c] == CLOSED && (c == v ==> e < i + 1)
      ensures Relaxed(g, sps[u := d], inq[u := QUEUED], c, e)
    {
      assert (c == v && e == i) || Relaxed(g, sps, inq, c, e);
    }
  }

  /** Closing the nearest queued vertex. */
  lemma CloseStep(g: Graph, root: int, sps: seq<int>, inq: seq<int>, keys: map<int, int>, v: int, top: int)
    requires g.Valid() && g.Weighted()
    requires Tentative(g, root, sps, inq, keys) && Separated(sps, inq, top) && AllRelaxed(g, sps, inq, -1, 0)
    requires v in keys && forall t :: t in keys ==> keys[t] <= keys[v]
    ensures Tentative(g, root, sps, inq[v := CLOSED], keys - {v})
    ensures Separated(sps, inq[v := CLOSED], sps[v])
    ensures AllRelaxed(g, sps, inq[v := CLOSED], v, g.xadj[v])
    ensures NotClosed(inq[v := CLOSED]) < NotClosed(inq)
  {
    assert v in NotClosed(inq);
    forall c, e | g.IsArc(c, e) && inq[v := CLOSED][c] == CLOSED && (c == v ==> e < g.xadj[v])
      ensures Relaxed(g, sps, inq[v := CLOSED], c, e)
    {
      assert Relaxed(g, sps, inq, c, e);
    }
  }

  lemma NextVertex(g: Graph, sps: seq<int>, inq: seq<int>, v: int)
    requires g.Valid() && g.Weighted() && g.IsVertex(v) && |sps| == |inq| == g.nvtxs
    requires AllRelaxed(g, sps, inq, v, g.xadj[v + 1])
    ensures AllRelaxed(g, sps, inq, -1, 0)
  {
  }

  lemma Finished(g: Graph, root: int, sps: seq<int>, inq: seq<int>, keys: map<int, int>)
    requires g.Valid() && g.Weighted() && g.IsVertex(root)
    requires Tentative(g, root, sps, inq, keys) && AllRelaxed(g, sps, inq, -1, 0) && keys == map[]
    requires inq[root] != WAITING && sps[root] <= 0
    ensures forall t :: g.IsVertex(t) ==> (sps[t] == -1 <==> !Reachable(g, root, t))
    ensures forall t :: g.IsVertex(t) && Reachable(g, root, t) ==> IsDistance(g, root, t, sps[t])
  {
    assert forall t :: 0 <= t < g.nvtxs ==> inq[t] != QUEUED;
    forall t, w | IsWalk(g, root, t, w)
      ensures g.IsVertex(t) && inq[t] == CLOSED && sps[t] <= Weight(g, w)
    {
      WalksAreLonger(g, root, sps, inq, t, w);
    }
  }

  lemma InitStep(g: Graph, root: int, sps: seq<int>, inq: seq<int>)
    requires g.Valid() && g.Weighted() && g.IsVertex(root) && |sps| == |inq| == g.nvtxs
    requires forall t :: g.IsVertex(t) ==> sps[t] == (if t == root then 0 else -1)
    requires forall t :: g.IsVertex(t) ==> inq[t] == (if t == root then QUEUED else WAITING)
    ensures Tentative(g, root, sps, inq, map[root := 0])
    ensures Separated(sps, inq, 0) && AllRelaxed(g, sps, inq, -1, 0)
  {
    assert IsWalk(g, root, root, Start) && Weight(g, Start) == 0;
  }

  lemma KeysAreQueued(g: Graph, root: int, sps: seq<int>, inq: seq<int>, keys: map<int, int>)
    requires g.Valid() && Tentative(g, root, sps, inq, keys)
    ensures |sps| == |inq| == g.nvtxs
    ensures forall t :: t in keys <==> 0 <= t < g.nvtxs && inq[t] == QUEUED
    ensures forall t :: 0 <= t < g.nvtxs ==> inq[t] in {WAITING, QUEUED, CLOSED}
    ensures forall t :: 0 <= t < g.nvtxs && inq[t] != WAITING ==> 0 <= sps[t]
  {
  }

  /** The inner loop: relaxes the arcs that leave the vertex v just closed. */
  method RelaxArcs(g: Graph, root: int, v: int, queue: PQueue, sps: array<int>, inqueue: array<int>)
    requires g.Valid() && g.Weighted() && g.IsVertex(v)
    requires forall e :: 0 <= e < |g.iadjwgt| ==> 0 <= g.iadjwgt[e]
    requires queue.Valid() && queue.locator.Length == inqueue.Length == sps.Length == g.nvtxs
    requires inqueue != sps && inqueue != queue.locator && sps != queue.locator
    requires Tentative(g, root, sps[..], inqueue[..], queue.Keys()) && inqueue[v] == CLOSED
    requires Separated(sps[..], inqueue[..], sps[v]) && AllRelaxed(g, sps[..], inqueue[..], v, g.xadj[v])
    modifies queue, queue.heap, queue.locator, sps, inqueue
    ensures queue.Valid()
    ensures Tentative(g, root, sps[..], inqueue[..], queue.Keys())
    ensures sps[v] == old(sps[v])
    ensures Separated(sps[..], inqueue[..], sps[v]) && AllRelaxed(g, sps[..], inqueue[..], v, g.xadj[v + 1])
    ensures forall t :: g.IsVertex(t) && old(inqueue[t]) != WAITING ==> inqueue[t] != WAITING && sps[t] <= old(sps[t])
    ensures NotClosed(inqueue[..]) == old(NotClosed(inqueue[..]))
  {
    hide Tentative, AllRelaxed, Separated, NotClosed, PQueue.Valid, PQueue.Keys;
    for i := g.xadj[v] to g.xadj[v + 1]
      invariant queue.Valid()
      invariant Tentative(g, root, sps[..], inqueue[..], queue.Keys())
      invariant Separated(sps[..], inqueue[..], sps[v]) && AllRelaxed(g, sps[..], inqueue[..], v, i)
      invariant sps[v] == old(sps[v]) && inqueue[v] == CLOSED
      invariant forall t :: g.IsVertex(t) && old(inqueue[t]) != WAITING ==>
                  inqueue[t] != WAITING && sps[t] <= old(sps[t])
      invariant NotClosed(inqueue[..]) == old(NotClosed(inqueue[..]))
    {
      assert g.IsArc(v, i);
      var u := g.adjncy[i];
      KeysAreQueued(g, root, sps[..], inqueue[..], queue.Keys());
      if inqueue[u] == CLOSED {
        SkipStep(g, root, sps[..], inqueue[..], queue.Keys(), v, i);
        continue;
      }
      if sps[u] < 0 || sps[v] + g.iadjwgt[i] < sps[u] {
        var d := sps[v] + g.iadjwgt[i];
        RelaxStep(g, root, sps[..], inqueue[..], queue.Keys(), v, i, u, d);
        ghost var sps', inq' := sps[..][u := d], inqueue[..][u := QUEUED];
        sps[u] := d;
        if inqueue[u] != WAITING {
          queue.Update(u, -sps[u]);
        } else {
          queue.Insert(u, -sps[u]);
          inqueue[u] := QUEUED;
        }
        assert sps[..] == sps' && inqueue[..] == inq';
      } else {
        SkipStep(g, root, sps[..], inqueue[..], queue.Keys(), v, i);
      }
    }
  }

  /** The computation for a graph with vertices. */
  method FindPaths(g: Graph, root: int) returns (sps: array<int>)
    requires g.Valid() && g.Weighted() && g.IsVertex(root)
    requires forall e :: 0 <= e < |g.iadjwgt| ==> 0 <= g.iadjwgt[e]
    ensures fresh(sps) && sps.Length == g.nvtxs
    ensures forall t :: g.IsVertex(t) ==> (sps[t] == -1 <==> !Reachable(g, root, t))
    ensures forall t :: g.IsVertex(t) && Reachable(g, root, t) ==> IsDistance(g, root, t, sps[t])
  {
    hide Tentative, AllRelaxed, Separated, NotClosed, PQueue.Valid, PQueue.Keys, Reachable, IsDistance, Graph.Valid,
         Graph.Weighted;
    var inqueue := new int[g.nvtxs](_ => WAITING);
    var queue := new PQueue(g.nvtxs);
    queue.Insert(root, 0);
    inqueue[root] := QUEUED;
    sps := new int[g.nvtxs](_ => -1);
    sps[root] := 0;
    InitStep(g, root, sps[..], inqueue[..]);
    ghost var top := 0;
    while true
      invariant fresh(inqueue) && fresh(sps) && fresh(queue) && fresh(queue.heap) && fresh(queue.locator)
      invariant inqueue != sps && inqueue != queue.locator && sps != queue.locator
      invariant queue.Valid() && queue.locator.Length == inqueue.Length == sps.Length == g.nvtxs
      invariant Tentative(g, root, sps[..], inqueue[..], queue.Keys())
      invariant Separated(sps[..], inqueue[..], top)
      invariant AllRelaxed(g, sps[..], inqueue[..], -1, 0)
      invariant inqueue[root] != WAITING && sps[root] <= 0
      decreases NotClosed(inqueue[..])
    {
      KeysAreQueued(g, root, sps[..], inqueue[..], queue.Keys());
      ghost var keys := queue.Keys();
      var v := queue.GetTop();
      if v == -1 {
        break;
      }
      CloseStep(g, root, sps[..], inqueue[..], keys, v, top);
      ghost var inq := inqueue[..][v := CLOSED];
      inqueue[v] := CLOSED;
      assert inqueue[..] == inq;
      top := sps[v];
      RelaxArcs(g, root, v, queue, sps, inqueue);
      NextVertex(g, sps[..], inqueue[..], v);
    }
    Finished(g, root, sps[..], inqueue[..], queue.Keys());
  }

  /** gk_graph_SingleSourceShortestPaths for integer weights; an empty graph has no result. */
  method SingleSourceShortestPaths(g: Graph, root: int) returns (sps: array?<int>)
    requires g.nvtxs > 0 ==> g.Valid() && g.Weighted() && g.IsVertex(root)
    requires forall e :: 0 <= e < |g.iadjwgt| ==> 0 <= g.iadjwgt[e]
    ensures sps == null <==> g.nvtxs <= 0
    ensures sps != null ==> fresh(sps) && sps.Length == g.nvtxs
    ensures sps != null ==> forall t :: g.IsVertex(t) ==> (sps[t] == -1 <==> !Reachable(g, root, t))
    ensures sps != null ==> forall t :: g.IsVertex(t) && Reachable(g, root, t) ==> IsDistance(g, root, t, sps[t])
  {
    hide Reachable, IsDistance;
    if g.nvtxs <= 0 {
      return null;
    }
    sps := FindPaths(g, root);
  }
}
