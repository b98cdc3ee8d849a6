/** gk_graph_FindComponents (src/graph.c): a breadth-first traversal that writes the vertices it
    opens to one array and keeps the others in a todo list; every restart starts a block. */
module Components {
  import opened BreadthFirst
  import opened Finite
  import opened Graphs

  // ----- What the result says -----

  /** The blocks of a breadth-first order start exactly where a vertex has no earlier neighbour. */
  ghost predicate Blocks(g: Graph, ptr: seq<int>, ind: seq<int>)
    requires g.Valid()
  {
    && |ind| == g.nvtxs && Vertices(g, ind) && Breadth(g, ind)
    && |ptr| > 0 && ptr[|ptr| - 1] == g.nvtxs
    && Starts(g, ind, ptr[..|ptr| - 1])
  }

  /** The ascending list of the positions that are their own parents. */
  ghost predicate Starts(g: Graph, o: seq<int>, starts: seq<int>)
    requires g.Valid()
  {
    && (forall b, c :: 0 <= b < c < |starts| ==> starts[b] < starts[c])
    && (forall b :: 0 <= b < |starts| ==> 0 <= starts[b] < |o| && Parent(g, o, starts[b]) == starts[b])
    && (forall k :: 0 <= k < |o| && Parent(g, o, k) == k ==> k in starts)
  }

  /** Position k lies in block b. */
  ghost predicate InBlock(ptr: seq<int>, b: int, k: int)
  {
    0 <= b < |ptr| - 1 && ptr[b] <= k < ptr[b + 1]
  }

  lemma BlockBounds(g: Graph, ptr: seq<int>, ind: seq<int>, b: int)
    requires g.Valid() && Blocks(g, ptr, ind) && 0 <= b < |ptr| - 1
    ensures 0 <= ptr[b] < ptr[b + 1] <= |ind| && Parent(g, ind, ptr[b]) == ptr[b]
    ensures b + 1 < |ptr| - 1 ==> Parent(g, ind, ptr[b + 1]) == ptr[b + 1]
    ensures forall k :: ptr[b] < k < ptr[b + 1] ==> Parent(g, ind, k) < k
  {
    hide Breadth;
    var starts := ptr[..|ptr| - 1];
    assert ptr[b] == starts[b];
    assert b + 1 < |ptr| - 1 ==> ptr[b + 1] == starts[b + 1];
    assert forall c :: 0 <= c <= b ==> starts[c] <= ptr[b];
    assert forall c :: b < c < |starts| ==> ptr[b + 1] <= starts[c];
    assert forall k :: ptr[b] < k < ptr[b + 1] ==> k !in starts;
  }

  /** The first vertex of a block reaches all of it. */
  lemma {:induction false} FirstReaches(g: Graph, ptr: seq<int>, ind: seq<int>, b: int, k: int)
    requires g.Valid() && Blocks(g, ptr, ind) && InBlock(ptr, b, k)
    ensures 0 <= ptr[b] <= k < |ind| && Reachable(g, ind[ptr[b]], ind[k])
    decreases k
  {
    BlockBounds(g, ptr, ind, b);
    if k == ptr[b] {
      assert IsWalk(g, ind[k], ind[k], Start);
    } else {
      var p := Parent(g, ind, k);
      assert Parent(g, ind, ptr[b]) <= p < k;
      FirstReaches(g, ptr, ind, b, p);
      var w :| IsWalk(g, ind[ptr[b]], ind[p], w);
      var e :| g.IsArc(ind[p], e) && g.adjncy[e] == ind[k];
      assert IsWalk(g, ind[ptr[b]], ind[k], Via(w, ind[p], e));
    }
  }

  lemma BlocksAreBreadth(g: Graph, ptr: seq<int>, ind: seq<int>)
    requires g.Valid() && Blocks(g, ptr, ind)
    ensures Breadth(g, ind) && |ptr| > 0 && ptr[|ptr| - 1] == |ind| == g.nvtxs
  {
  }

  lemma ArcStaysInBlock(g: Graph, ptr: seq<int>, ind: seq<int>, b: int, i: int, j: int)
    requires g.Valid() && g.Symmetric() && Blocks(g, ptr, ind) && InBlock(ptr, b, i)
    requires 0 <= i < |ind| && 0 <= j < |ind| && g.Adjacent(ind[i], ind[j])
    ensures InBlock(ptr, b, j)
  {
    hide Blocks, Breadth, Graph.Adjacent;
    BlockBounds(g, ptr, ind, b);
    BlocksAreBreadth(g, ptr, ind);
    assert g.Adjacent(ind[j], ind[i]);
    Later(g, ind, ptr[b], i);
    if ptr[b + 1] <= j {
      Later(g, ind, ptr[b + 1], j);
    }
  }

  lemma Later(g: Graph, ind: seq<int>, i: int, j: int)
    requires g.Valid() && Breadth(g, ind) && 0 <= i <= j < |ind|
    ensures Parent(g, ind, i) <= Parent(g, ind, j)
  {
  }

  lemma {:induction false} WalkStaysInBlock(g: Graph, ptr: seq<int>, ind: seq<int>, b: int, i: int, j: int, w: Walk)
    requires g.Valid() && g.Symmetric() && Blocks(g, ptr, ind) && InBlock(ptr, b, i)
    requires 0 <= i < |ind| && 0 <= j < |ind| && IsWalk(g, ind[i], ind[j], w)
    ensures InBlock(ptr, b, j)
    decreases w
  {
    match w
    case Start => assert i == j;
    case Via(w', u, e) =>
      AllListed(g, ind);
      var k :| 0 <= k < |ind| && ind[k] == u;
      WalkStaysInBlock(g, ptr, ind, b, i, k, w');
      ArcStaysInBlock(g, ptr, ind, b, k, j);
  }

  /** nvtxs distinct vertices are all vertices. */
  lemma AllListed(g: Graph, o: seq<int>)
    requires g.Valid() && Vertices(g, o) && |o| == g.nvtxs
    ensures forall v :: g.IsVertex(v) ==> v in o
  {
    DistinctCount(o);
    var listed := set v | v in o;
    forall v | g.IsVertex(v)
      ensures v in o
    {
      if v !in o {
        assert listed <= Below(g.nvtxs) - {v};
        CardinalityMonotone(listed, Below(g.nvtxs) - {v});
      }
    }
  }

  lemma {:induction false} SomeBlock(ptr: seq<int>, k: int) returns (b: int)
    requires |ptr| > 0 && ptr[0] <= k < ptr[|ptr| - 1]
    ensures InBlock(ptr, b, k)
    decreases |ptr|
  {
    var n := |ptr| - 1;
    if n > 0 && ptr[n - 1] <= k {
      b := n - 1;
    } else {
      b := SomeBlock(ptr[..n], k);
    }
  }

  /** On a symmetric graph two vertices share a block exactly when a path joins them. */
  lemma BlocksAreComponents(g: Graph, ptr: seq<int>, ind: seq<int>, b: int, i: int, j: int)
    requires g.Valid() && g.Symmetric() && Blocks(g, ptr, ind)
    requires InBlock(ptr, b, i) && 0 <= j < |ind|
    ensures 0 <= i < |ind|
    ensures InBlock(ptr, b, j) <==> Reachable(g, ind[i], ind[j])
  {
    BlockBounds(g, ptr, ind, b);
    if Reachable(g, ind[i], ind[j]) {
      var w :| IsWalk(g, ind[i], ind[j], w);
      WalkStaysInBlock(g, ptr, ind, b, i, j, w);
    }
    if InBlock(ptr, b, j) {
      FirstReaches(g, ptr, ind, b, i);
      FirstReaches(g, ptr, ind, b, j);
      var root := ind[ptr[b]];
      var w1 :| IsWalk(g, root, ind[i], w1);
      var w2 :| IsWalk(g, root, ind[j], w2);
      var back := WalkBack(g, root, ind[i], w1);
      AppendIsWalk(g, ind[i], root, ind[j], back, w2);
    }
  }

  /** The component of v: everything a path leads to. */
  ghost function ComponentOf(g: Graph, v: int): set<int>
    requires g.Valid()
  {
    set u | u in Below(g.nvtxs) && Reachable(g, v, u)
  }

  ghost function AllComponents(g: Graph): set<set<int>>
    requires g.Valid()
  {
    set v | v in Below(g.nvtxs) :: ComponentOf(g, v)
  }

  lemma BlocksAscend(g: Graph, ptr: seq<int>, ind: seq<int>, b: int, c: int)
    requires g.Valid() && Blocks(g, ptr, ind) && 0 <= b < c < |ptr| - 1
    ensures ptr[b] < ptr[c]
  {
    var starts := ptr[..|ptr| - 1];
    assert starts[b] == ptr[b] && starts[c] == ptr[c];
  }

  lemma BlocksDiffer(g: Graph, ptr: seq<int>, ind: seq<int>, b: int, c: int)
    requires g.Valid() && g.Symmetric() && Blocks(g, ptr, ind) && 0 <= b < c < |ptr| - 1
    ensures 0 <= ptr[b] < |ind| && 0 <= ptr[c] < |ind|
    ensures ComponentOf(g, ind[ptr[b]]) != ComponentOf(g, ind[ptr[c]])
  {
    BlockBounds(g, ptr, ind, b);
    BlockBounds(g, ptr, ind, c);
    BlocksAscend(g, ptr, ind, b, c);
    BlocksAreComponents(g, ptr, ind, c, ptr[c], ptr[b]);
    BlocksAreComponents(g, ptr, ind, b, ptr[b], ptr[b]);
    assert ind[ptr[b]] in ComponentOf(g, ind[ptr[b]]);
    assert ind[ptr[b]] !in ComponentOf(g, ind[ptr[c]]);
  }

  /** On a symmetric graph the number of blocks is the number of components. */
  lemma CountIsComponents(g: Graph, ptr: seq<int>, ind: seq<int>)
    requires g.Valid() && g.Symmetric() && Blocks(g, ptr, ind)
    ensures |ptr| - 1 == |AllComponents(g)|
  {
    var m := |ptr| - 1;
    forall b | 0 <= b < m
      ensures 0 <= ptr[b] < |ind|
    {
      BlockBounds(g, ptr, ind, b);
    }
    var found := seq(m, b requires 0 <= b < m => ComponentOf(g, ind[ptr[b]]));
    forall b, c | 0 <= b < c < m
      ensures found[b] != found[c]
    {
      BlocksDiffer(g, ptr, ind, b, c);
    }
    DistinctCount(found);
    forall v | g.IsVertex(v)
      ensures ComponentOf(g, v) in found
    {
      VertexInBlock(g, ptr, ind, v, found);
    }
    forall b | 0 <= b < m
      ensures found[b] in AllComponents(g)
    {
      assert g.IsVertex(ind[ptr[b]]);
    }
    assert AllComponents(g) == set c | c in found;
  }

  lemma VertexInBlock(g: Graph, ptr: seq<int>, ind: seq<int>, v: int, found: seq<set<int>>)
    requires g.Valid() && g.Symmetric() && Blocks(g, ptr, ind) && g.IsVertex(v)
    requires |found| == |ptr| - 1
    requires forall b :: 0 <= b < |found| ==> 0 <= ptr[b] < |ind| && found[b] == ComponentOf(g, ind[ptr[b]])
    ensures ComponentOf(g, v) in found
  {
    AllListed(g, ind);
    var k :| 0 <= k < |ind| && ind[k] == v;
    FirstStart(g, ptr, ind);
    var b := SomeBlock(ptr, k);
    BlockBounds(g, ptr, ind, b);
    SameComponent(g, ptr, ind, b, k);
    assert found[b] == ComponentOf(g, v);
  }

  lemma FirstStart(g: Graph, ptr: seq<int>, ind: seq<int>)
    requires g.Valid() && Blocks(g, ptr, ind)
    ensures ptr[0] == 0
  {
    if |ind| > 0 {
      var starts := ptr[..|ptr| - 1];
      assert Parent(g, ind, 0) == 0;
      assert 0 in starts;
      assert starts[0] == ptr[0];
    }
  }

  lemma SameComponent(g: Graph, ptr: seq<int>, ind: seq<int>, b: int, k: int)
    requires g.Valid() && g.Symmetric() && Blocks(g, ptr, ind) && InBlock(ptr, b, k) && 0 <= ptr[b] <= k < |ind|
    ensures ComponentOf(g, ind[k]) == ComponentOf(g, ind[ptr[b]])
  {
    BlockBounds(g, ptr, ind, b);
    AllListed(g, ind);
    forall u | g.IsVertex(u)
      ensures Reachable(g, ind[k], u) <==> Reachable(g, ind[ptr[b]], u)
    {
      var j :| 0 <= j < |ind| && ind[j] == u;
      BlocksAreComponents(g, ptr, ind, b, k, j);
      BlocksAreComponents(g, ptr, ind, b, ptr[b], j);
    }
  }

  // ----- The todo list -----

  /** o holds the opened vertices, todo[..ntodo] the others, and pos where they stand in todo. */
  ghost predicate Pending(n: int, o: seq<int>, todo: seq<int>, ntodo: int, pos: seq<int>)
  {
    && |todo| == |pos| == n && 0 <= ntodo && |o| + ntodo == n
    && (forall k :: 0 <= k < ntodo ==> 0 <= todo[k] < n && pos[todo[k]] == k)
    && (forall v :: 0 <= v < n ==> if v in o then pos[v] == -1 else 0 <= pos[v] < ntodo && todo[pos[v]] == v)
  }

  /** Removing v by moving the last todo vertex into its place loses no vertex. */
  lemma RemoveKeepsPending(n: int, o: seq<int>, todo: seq<int>, ntodo: int, pos: seq<int>, v: int)
    requires Pending(n, o, todo, ntodo, pos) && 0 <= v < n && v !in o
    ensures 0 <= pos[v] < ntodo <= n && 0 <= todo[ntodo - 1] < n
    ensures pos[v] < ntodo - 1 ==>
      Pending(n, o + [v], todo[pos[v] := todo[ntodo - 1]], ntodo - 1, pos[v := -1][todo[ntodo - 1] := pos[v]])
    ensures pos[v] == ntodo - 1 ==> Pending(n, o + [v], todo, ntodo - 1, pos[v := -1])
  {
  }

  /** Appends v to the opened vertices and removes it from the todo list. */
  method Open(n: int, v: int, last: int, ntodo: int, ind: array<int>, todo: array<int>, pos: array<int>)
    returns (last': int, ntodo': int)
    requires {ind} !! {todo} !! {pos} && ind.Length == n && 0 <= last <= n
    requires Pending(n, ind[..last], todo[..], ntodo, pos[..]) && 0 <= v < n && v !in ind[..last]
    modifies ind, todo, pos
    ensures last' == last + 1 <= n && ind[..last'] == old(ind[..last]) + [v]
    ensures Pending(n, ind[..last'], todo[..], ntodo', pos[..])
  {
    RemoveKeepsPending(n, ind[..last], todo[..], ntodo, pos[..], v);
    PendingFacts(n, ind[..last], todo[..], ntodo, pos[..]);
    hide Pending;
    ghost var o := ind[..last];
    ind[last] := v;
    last' := last + 1;
    var position := pos[v];
    pos[v] := -1;
    ntodo' := ntodo - 1;
    if position < ntodo' {
      todo[position] := todo[ntodo'];
      pos[todo[position]] := position;
    }
    assert ind[..last'] == o + [v];
  }

  lemma PendingFacts(n: int, o: seq<int>, todo: seq<int>, ntodo: int, pos: seq<int>)
    requires Pending(n, o, todo, ntodo, pos)
    ensures |todo| == |pos| == n && 0 <= ntodo && |o| + ntodo == n
    ensures forall v :: 0 <= v < n ==> (pos[v] == -1 <==> v in o)
    ensures ntodo > 0 ==> 0 <= todo[0] < n && todo[0] !in o
  {
  }

  method OpenNeighbours(g: Graph, first: int, last: int, ntodo: int, ghost starts: seq<int>,
                        ind: array<int>, todo: array<int>, pos: array<int>)
    returns (last': int, ntodo': int)
    requires g.Valid() && {ind} !! {todo} !! {pos} && ind.Length == g.nvtxs && 1 <= first <= last <= g.nvtxs
    requires Pending(g.nvtxs, ind[..last], todo[..], ntodo, pos[..]) && g.IsVertex(ind[first - 1])
    requires Exploring(g, ind[..last], first, g.xadj[ind[first - 1]]) && Starts(g, ind[..last], starts)
    modifies ind, todo, pos
    ensures last <= last' <= g.nvtxs && Pending(g.nvtxs, ind[..last'], todo[..], ntodo', pos[..])
    ensures Idle(g, ind[..last'], first) && Starts(g, ind[..last'], starts)
  {
    hide Pending, Exploring, Idle, Starts;
    last', ntodo' := last, ntodo;
    var i := ind[first - 1];
    for j := g.xadj[i] to g.xadj[i + 1]
      invariant last <= last' <= g.nvtxs && Pending(g.nvtxs, ind[..last'], todo[..], ntodo', pos[..])
      invariant ind[first - 1] == i && Exploring(g, ind[..last'], first, j) && Starts(g, ind[..last'], starts)
    {
      ghost var o := ind[..last'];
      assert o[first - 1] == i && g.IsArc(i, j);
      PendingFacts(g.nvtxs, o, todo[..], ntodo', pos[..]);
      var k := g.adjncy[j];
      if pos[k] != -1 {
        Discover(g, o, first, j);
        StartsKept(g, o, k, starts);
        last', ntodo' := Open(g.nvtxs, k, last', ntodo', ind, todo, pos);
        assert ind[..last'][first - 1] == i;
      } else {
        Skip(g, o, first, j);
      }
    }
    assert ind[..last'][first - 1] == i;
    TurnDone(g, ind[..last'], first);
  }

  lemma StartsKept(g: Graph, o: seq<int>, k: int, starts: seq<int>)
    requires g.Valid() && Starts(g, o, starts) && Parent(g, o + [k], |o|) < |o|
    requires forall i :: 0 <= i < |o| ==> Parent(g, o + [k], i) == Parent(g, o, i)
    ensures Starts(g, o + [k], starts)
  {
  }

  lemma StartAdded(g: Graph, o: seq<int>, v: int, starts: seq<int>)
    requires g.Valid() && Starts(g, o, starts) && Parent(g, o + [v], |o|) == |o|
    requires forall i :: 0 <= i < |o| ==> Parent(g, o + [v], i) == Parent(g, o, i)
    ensures Starts(g, o + [v], starts + [|o|])
  {
    var o', starts' := o + [v], starts + [|o|];
    forall k | 0 <= k < |o'| && Parent(g, o', k) == k
      ensures k in starts'
    {
      if k == |o| {
        assert starts'[|starts|] == k;
      } else {
        assert k in starts;
      }
    }
  }

  /** With nothing open, the first todo vertex starts a block. */
  method StartBlock(g: Graph, last: int, ntodo: int, ghost o: seq<int>, ghost starts: seq<int>,
                    ind: array<int>, todo: array<int>, pos: array<int>)
    returns (last': int, ntodo': int)
    requires g.Valid() && {ind} !! {todo} !! {pos} && ind.Length == g.nvtxs && 0 <= last <= g.nvtxs
    requires o == ind[..last] && Pending(g.nvtxs, o, todo[..], ntodo, pos[..]) && ntodo > 0
    requires Idle(g, o, last) && starts != [] && starts[|starts| - 1] == last && Starts(g, o, starts[..|starts| - 1])
    modifies ind, todo, pos
    ensures last' == last + 1 <= g.nvtxs && ind[..last] == o && g.IsVertex(ind[last])
    ensures Pending(g.nvtxs, ind[..last'], todo[..], ntodo', pos[..])
    ensures Exploring(g, ind[..last'], last', g.xadj[ind[last]]) && Starts(g, ind[..last'], starts)
  {
    hide Pending, Exploring, Idle, Starts, Served;
    PendingFacts(g.nvtxs, o, todo[..], ntodo, pos[..]);
    ghost var v := todo[0];
    Restart(g, o, v);
    StartAdded(g, o, v, starts[..|starts| - 1]);
    assert starts == starts[..|starts| - 1] + [|o|];
    last', ntodo' := Open(g.nvtxs, todo[0], last, ntodo, ind, todo, pos);
    assert ind[..last'][last] == v && ind[..last'][..last] == ind[..last];
  }

  /** Blocks and their members for a well-formed graph. */
  method Traverse(g: Graph) returns (ncmps: int, cptr: array<int>, cind: array<int>)
    requires g.Valid()
    ensures fresh(cptr) && fresh(cind) && cptr != cind && cptr.Length == g.nvtxs + 1 && cind.Length == g.nvtxs
    ensures 0 <= ncmps < cptr.Length && Blocks(g, cptr[..ncmps + 1], cind[..])
  {
    hide Pending, Exploring, Idle, Starts, Served;
    var n := g.nvtxs;
    cptr := new int[n + 1];
    cind := new int[n];
    var pos := new int[n](i => i);
    var todo := new int[n](i => i);
    assert todo[..] == pos[..];
    StartPending(n, pos[..]);
    ncmps := FindBlocks(g, cptr, cind, todo, pos);
    ghost var starts := cptr[..ncmps];
    cptr[ncmps] := n;
    assert cptr[..ncmps + 1][..ncmps] == starts;
    BlocksFound(g, cptr[..ncmps + 1], cind[..]);
  }

  /** The main loop: one vertex is taken per turn. */
  method FindBlocks(g: Graph, cptr: array<int>, cind: array<int>, todo: array<int>, pos: array<int>)
    returns (ncmps: int)
    requires g.Valid() && {cptr} !! {cind} !! {todo} !! {pos}
    requires cptr.Length == g.nvtxs + 1 && cind.Length == g.nvtxs && Pending(g.nvtxs, [], todo[..], g.nvtxs, pos[..])
    modifies cptr, cind, todo, pos
    ensures 0 <= ncmps <= g.nvtxs && Idle(g, cind[..], g.nvtxs) && Starts(g, cind[..], cptr[..ncmps])
  {
    hide Pending, Exploring, Idle, Starts, Served;
    var n := g.nvtxs;
    var ntodo, first, last := n, 0, 0;
    ncmps := 0;
    NothingOpen(g);
    NoStarts(g);
    assert cind[..last] == [] && cptr[..ncmps] == [];
    while first < last || ntodo > 0
      invariant 0 <= first <= last <= n && Pending(n, cind[..last], todo[..], ntodo, pos[..])
      invariant 0 <= ncmps <= first && Idle(g, cind[..last], first) && Starts(g, cind[..last], cptr[..ncmps])
      decreases n - first
    {
      ghost var o, starts := cind[..last], cptr[..ncmps];
      PendingFacts(n, o, todo[..], ntodo, pos[..]);
      if first == last {
        cptr[ncmps] := first;
        ncmps := ncmps + 1;
        assert cptr[..ncmps] == starts + [|o|];
        starts := cptr[..ncmps];
        last, ntodo := StartBlock(g, last, ntodo, o, starts, cind, todo, pos);
      } else {
        TakeNext(g, o, first);
        assert o[first] == cind[first];
      }
      first := first + 1;
      last, ntodo := OpenNeighbours(g, first, last, ntodo, starts, cind, todo, pos);
    }
    PendingFacts(n, cind[..last], todo[..], ntodo, pos[..]);
    assert cind[..last] == cind[..];
  }

  lemma StartPending(n: int, pos: seq<int>)
    requires 0 <= n == |pos| && forall k :: 0 <= k < n ==> pos[k] == k
    ensures Pending(n, [], pos, n, pos)
  {
  }

  lemma NoStarts(g: Graph)
    requires g.Valid()
    ensures Starts(g, [], [])
  {
  }

  lemma BlocksFound(g: Graph, ptr: seq<int>, ind: seq<int>)
    requires g.Valid() && Idle(g, ind, g.nvtxs) && |ind| == g.nvtxs
    requires |ptr| > 0 && ptr[|ptr| - 1] == g.nvtxs && Starts(g, ind, ptr[..|ptr| - 1])
    ensures Blocks(g, ptr, ind)
  {
  }

  /** Both outputs or neither must be given; without them only the count is returned. -1 reports an
      error. */
  method FindComponents(g: Graph, cptr: array?<int>, cind: array?<int>)
    returns (ncmps: int, ghost ptr: seq<int>, ghost ind: seq<int>)
    requires g.nvtxs >= 0 ==> |g.xadj| == g.nvtxs + 1
    requires g.nvtxs >= 0 && g.xadj[g.nvtxs] >= 0 ==> |g.adjncy| == g.xadj[g.nvtxs]
    requires cptr != null ==> g.nvtxs + 1 == cptr.Length
    requires cind != null ==> g.nvtxs == cind.Length && cind != cptr
    modifies if cptr == null then {} else {cptr}, if cind == null then {} else {cind}
    ensures ncmps == -1 <==> (cptr == null) != (cind == null) || !(g.Valid() && g.Addressable())
    ensures ncmps == -1 && cptr != null ==> cptr[..] == old(cptr[..])
    ensures ncmps == -1 && cind != null ==> cind[..] == old(cind[..])
    ensures ncmps != -1 ==> g.Valid() && ncmps == |ptr| - 1 && Blocks(g, ptr, ind)
    ensures ncmps != -1 && cptr != null && cind != null ==>
      0 <= ncmps < cptr.Length && cptr[..ncmps + 1] == ptr && cind[..] == ind
    ensures ncmps != -1 && cptr != null && cind != null ==>
      forall k :: ncmps < k < cptr.Length ==> cptr[k] == old(cptr[k])
  {
    hide Blocks;
    ptr, ind := [], [];
    if (cptr == null) != (cind == null) {
      return -1, ptr, ind;
    }
    var ok := ValidateStructure(g);
    if !ok {
      return -1, ptr, ind;
    }
    var workPtr, workInd;
    ncmps, workPtr, workInd := Traverse(g);
    ptr, ind := workPtr[..ncmps + 1], workInd[..];
    if cptr != null && cind != null {
      forall k | 0 <= k <= ncmps {
        cptr[k] := workPtr[k];
      }
      forall k | 0 <= k < cind.Length {
        cind[k] := workInd[k];
      }
    }
  }
}
