/** The compressed-row graph of include/gk_struct.h: the arcs leaving vertex v are the
    positions e with xadj[v] <= e < xadj[v+1], and arc e ends in adjncy[e]. */
module Graphs {
  import opened Sizes

  datatype Graph = Graph(nvtxs: int, xadj: seq<int>, adjncy: seq<int>, iadjwgt: seq<int>)
  {
    /** The structure every traversal relies on (gk_graph_ValidateStructure). */
    ghost predicate Valid()
    {
      && 0 <= nvtxs
      && |xadj| == nvtxs + 1
      && xadj[0] == 0
      && xadj[nvtxs] == |adjncy|
      && (forall v, w :: 0 <= v <= w <= nvtxs ==> xadj[v] <= xadj[w])
      && (forall e :: 0 <= e < |adjncy| ==> 0 <= adjncy[e] < nvtxs)
    }

    /** The pointer array alone is in order. */
    ghost predicate HasRows()
    {
      && 0 <= nvtxs && |xadj| == nvtxs + 1 && xadj[0] == 0 && xadj[nvtxs] == |adjncy|
      && (forall v, w :: 0 <= v <= w <= nvtxs ==> xadj[v] <= xadj[w])
    }

    /** Arrays of 8 bytes per vertex and 4 bytes per arc can be addressed. */
    ghost predicate Addressable()
    {
      nvtxs + 1 <= SIZE_MAX / 8 && |adjncy| <= SIZE_MAX / 4
    }

    ghost predicate Weighted()
    {
      |iadjwgt| == |adjncy|
    }

    ghost predicate IsVertex(v: int)
    {
      0 <= v < nvtxs
    }

    /** Arc e leaves vertex v. */
    ghost predicate IsArc(v: int, e: int)
      requires Valid()
    {
      IsVertex(v) && xadj[v] <= e < xadj[v + 1] <= |adjncy|
    }

    ghost predicate Adjacent(u: int, v: int)
      requires Valid()
    {
      exists e :: IsArc(u, e) && adjncy[e] == v
    }

    /** Every arc has an arc the other way. */
    ghost predicate Symmetric()
      requires Valid()
    {
      forall u, v :: Adjacent(u, v) ==> Adjacent(v, u)
    }
  }

  /** gk_graph_ValidateStructure: the arrays have the lengths their owner claims; their values are
      checked. */
  method ValidateStructure(g: Graph) returns (ok: bool)
    requires g.nvtxs >= 0 ==> |g.xadj| == g.nvtxs + 1
    requires g.nvtxs >= 0 && g.xadj[g.nvtxs] >= 0 ==> |g.adjncy| == g.xadj[g.nvtxs]
    ensures ok <==> g.Valid() && g.Addressable()
  {
    if g.nvtxs < 0 || g.xadj[0] != 0 {
      return false;
    }
    if g.nvtxs + 1 > SIZE_MAX / 8 {
      return false;
    }
    ok := RowsAscend(g);
    if !ok || g.xadj[g.nvtxs] < 0 {
      return false;
    }
    if |g.adjncy| > SIZE_MAX / 4 {
      return false;
    }
    ok := TargetsInRange(g);
  }

  /** The loop over the pointers. */
  method RowsAscend(g: Graph) returns (ok: bool)
    requires 0 <= g.nvtxs && |g.xadj| == g.nvtxs + 1 && g.xadj[0] == 0
    ensures ok ==> forall v, w :: 0 <= v <= w <= g.nvtxs ==> 0 <= g.xadj[v] <= g.xadj[w]
    ensures !ok ==> exists v :: 0 <= v < g.nvtxs && (g.xadj[v] < 0 || g.xadj[v] > g.xadj[v + 1])
  {
    for i := 0 to g.nvtxs
      invariant forall v, w :: 0 <= v <= w <= i ==> 0 <= g.xadj[v] <= g.xadj[w]
    {
      if g.xadj[i] < 0 || g.xadj[i] > g.xadj[i + 1] {
        return false;
      }
    }
    return true;
  }

  /** The loop over the targets. */
  method TargetsInRange(g: Graph) returns (ok: bool)
    ensures ok <==> forall e :: 0 <= e < |g.adjncy| ==> 0 <= g.adjncy[e] < g.nvtxs
  {
    for e := 0 to |g.adjncy|
      invariant forall x :: 0 <= x < e ==> 0 <= g.adjncy[x] < g.nvtxs
    {
      if g.adjncy[e] < 0 || g.adjncy[e] >= g.nvtxs {
        return false;
      }
    }
    return true;
  }

  /** A walk, given by its last arc and the vertex it leaves. */
  datatype Walk = Start | Via(walk: Walk, vertex: int, arc: int)

  ghost predicate IsWalk(g: Graph, s: int, t: int, w: Walk)
    requires g.Valid()
    decreases w
  {
    match w
    case Start => s == t
    case Via(w', u, e) => g.IsArc(u, e) && g.adjncy[e] == t && IsWalk(g, s, u, w')
  }

  ghost function Length(w: Walk): nat
  {
    match w
    case Start => 0
    case Via(w', _, _) => Length(w') + 1
  }

  ghost function Weight(g: Graph, w: Walk): int
  {
    match w
    case Start => 0
    case Via(w', _, e) => Weight(g, w') + (if 0 <= e < |g.iadjwgt| then g.iadjwgt[e] else 0)
  }

  ghost predicate Reachable(g: Graph, s: int, t: int)
    requires g.Valid()
  {
    exists w :: IsWalk(g, s, t, w)
  }

  ghost function Append(w1: Walk, w2: Walk): Walk
  {
    match w2
    case Start => w1
    case Via(w', u, e) => Via(Append(w1, w'), u, e)
  }

  lemma {:induction false} AppendIsWalk(g: Graph, r: int, s: int, t: int, w1: Walk, w2: Walk)
    requires g.Valid() && IsWalk(g, r, s, w1) && IsWalk(g, s, t, w2)
    ensures IsWalk(g, r, t, Append(w1, w2))
    decreases w2
  {
    match w2
    case Start =>
    case Via(w', u, e) => AppendIsWalk(g, r, s, u, w1, w');
  }

  /** On a symmetric graph every walk can be walked back. */
  lemma {:induction false} WalkBack(g: Graph, s: int, t: int, w: Walk) returns (back: Walk)
    requires g.Valid() && g.Symmetric() && IsWalk(g, s, t, w)
    ensures IsWalk(g, t, s, back)
    decreases w
  {
    match w
    case Start => back := Start;
    case Via(w', u, e) =>
      assert g.Adjacent(u, t);
      var e' :| g.IsArc(t, e') && g.adjncy[e'] == u;
      var rest := WalkBack(g, s, u, w');
      AppendIsWalk(g, t, u, s, Via(Start, t, e'), rest);
      back := Append(Via(Start, t, e'), rest);
  }
}
