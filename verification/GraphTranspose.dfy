/** gk_graph_Transpose (src/graph.c): the counting sort applied to the arcs of a graph. */
module GraphTranspose {
  import opened Csr
  import opened Graphs
  import opened MakeSymmetric
  import opened Picks
  import opened SymmetryCheck
  import Transpose

  datatype Outcome = Failed | Turned(graph: Graph)

  /** Every arc of g the other way round, parallel arcs in the same order. */
  ghost predicate Reversed(g: Graph, h: Graph)
    requires g.Valid() && g.Weighted()
  {
    && h.Valid() && h.Weighted() && h.nvtxs == g.nvtxs
    && forall i, j :: g.IsVertex(i) && g.IsVertex(j) ==> Out(h, i, j) == Out(g, j, i)
  }

  method TransposeGraph(g: Graph) returns (result: Outcome)
    requires g.nvtxs >= 0 ==> |g.xadj| == g.nvtxs + 1
    requires g.nvtxs >= 0 && g.xadj[g.nvtxs] >= 0 ==> |g.adjncy| == g.xadj[g.nvtxs]
    requires g.Weighted()
    ensures result == Failed <==> !(g.Valid() && g.Addressable())
    ensures result.Turned? ==> Reversed(g, result.graph)
  {
    hide Reversed, Slot, RowsUpTo, ValuesUpTo, Count, First;
    var ok := ValidateStructure(g);
    if !ok {
      return Failed;
    }
    var n := g.nvtxs;
    assert ValidCsr(n, n, g.xadj, g.adjncy);
    var xadj := new int[n + 1](_ => 0);
    var adjncy := new int[|g.adjncy|](_ => 0);
    var weights := new int[|g.adjncy|](_ => 0);
    CountIndices(n, n, g.xadj, g.adjncy, xadj);
    ghost var counts := xadj[..];
    MakeCsr(n, xadj);
    forall k | 0 <= k <= n
      ensures xadj[k] == First(g.adjncy, k)
    {
      SumIsFirst(g.adjncy, counts, n, k);
    }
    Scatter(n, n, g.xadj, g.adjncy, xadj, true, adjncy, true, g.iadjwgt, weights);
    ShiftBack(n, g.adjncy, xadj);
    IndexReverses(g, xadj[..], adjncy[..], weights[..]);
    return Turned(Graph(n, xadj[..], adjncy[..], weights[..]));
  }

  lemma IndexReverses(g: Graph, xadj: seq<int>, adjncy: seq<int>, weights: seq<int>)
    requires g.Valid() && g.Weighted() && ValidCsr(g.nvtxs, g.nvtxs, g.xadj, g.adjncy)
    requires IsIndex(g.nvtxs, g.nvtxs, g.xadj, g.adjncy, xadj, adjncy)
    requires |weights| == |g.adjncy| && ValuesUpTo(g.adjncy, g.iadjwgt, weights, |g.adjncy|)
    ensures Reversed(g, Graph(g.nvtxs, xadj, adjncy, weights))
  {
    hide IsIndex, ValuesUpTo, Slot, First, Count;
    var n := g.nvtxs;
    Transpose.IndexIsValid(n, n, g.xadj, g.adjncy, xadj, adjncy);
    ViewSize(g, xadj, adjncy);
    var h := Graph(n, xadj, adjncy, weights);
    assert h.Valid() && h.Weighted();
    forall i, j | g.IsVertex(i) && g.IsVertex(j)
      ensures Out(h, i, j) == Out(g, j, i)
    {
      ColumnPicksRow(n, n, g.xadj, g.adjncy, g.iadjwgt, xadj, adjncy, weights, i, j);
    }
  }

  /** Turning a graph round twice changes no arc list. */
  lemma TwiceReversed(g: Graph, h: Graph, k: Graph, i: int, j: int)
    requires g.Valid() && g.Weighted() && Reversed(g, h) && Reversed(h, k) && g.IsVertex(i) && g.IsVertex(j)
    ensures Out(k, i, j) == Out(g, i, j)
  {
    hide Out, Graph.Valid;
  }

  /** A graph equals its reversal, as a multiset of arcs, exactly when it has the arcs of its
      transpose. */
  lemma ReversibleIsTranspose(g: Graph, h: Graph)
    requires g.Valid() && g.Weighted() && Reversed(g, h)
    ensures Reversible(multiset(ArcsOf(g, g.nvtxs))) <==> multiset(ArcsOf(g, g.nvtxs)) == multiset(ArcsOf(h, h.nvtxs))
  {
    var arcs, reversed := multiset(ArcsOf(g, g.nvtxs)), multiset(ArcsOf(h, h.nvtxs));
    forall a: Arc
      ensures reversed[a] == arcs[a.Reverse()]
    {
      ArcTurned(g, h, a);
    }
    assert Reversible(arcs) <==> forall a :: arcs[a] == reversed[a];
  }

  lemma ArcTurned(g: Graph, h: Graph, a: Arc)
    requires g.Valid() && g.Weighted() && Reversed(g, h)
    ensures multiset(ArcsOf(h, h.nvtxs))[a] == multiset(ArcsOf(g, g.nvtxs))[a.Reverse()]
  {
    ArcCount(h, h.nvtxs, a);
    ArcCount(g, g.nvtxs, a.Reverse());
    if g.IsVertex(a.source) && !g.IsVertex(a.target) {
      NoTarget(h, a.source, a.target);
    } else if g.IsVertex(a.target) && !g.IsVertex(a.source) {
      NoTarget(g, a.target, a.source);
    }
  }
}
