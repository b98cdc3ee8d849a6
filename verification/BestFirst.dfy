/** gk_graph_ComputeBestFOrdering (src/graph.c): a best-first traversal that keeps the open and
    the untouched vertices in one array `ot`, with `pos` as its inverse, and the open ones in
    an indexed heap. */
module BestFirst {
  import opened Arrays
  import opened Graphs
  import opened PriorityQueue
  import opened Sequences

  // ----- The open/todo list -----

  /** ot[..nopen] holds the open vertices and ot[nopen..ntodo] the untouched ones; perm[u] is the
      position at which u was closed, or -1. */
  datatype Lists = Lists(ot: seq<int>, pos: seq<int>, perm: seq<int>, nopen: int, ntodo: int)
  {
    ghost predicate Valid(n: int)
    {
      && |ot| == |pos| == |perm| == n
      && 0 <= nopen <= ntodo <= n
      && (forall k :: 0 <= k < ntodo ==> 0 <= ot[k] < n && pos[ot[k]] == k && perm[ot[k]] == -1)
      && (forall u :: 0 <= u < n && perm[u] == -1 ==> 0 <= pos[u] < ntodo && ot[pos[u]] == u)
    }

    ghost predicate Unclosed(u: int)
    {
      0 <= u < |perm| && perm[u] == -1
    }

    ghost predicate Open(u: int)
    {
      Unclosed(u) && u < |pos| && pos[u] < nopen
    }
  }

  /** Closing an open vertex: the last open vertex fills its slot, the last untouched one the gap. */
  lemma CloseKeepsLists(n: int, l: Lists, v: int, i: int, l': Lists)
    requires l.Valid(n) && l.Open(v) && 0 <= i
    requires
      var ot1 := l.ot[l.pos[v] := l.ot[l.nopen - 1]];
      var pos1 := l.pos[l.ot[l.nopen - 1] := l.pos[v]];
      && l'.perm == l.perm[v := i] && l'.nopen == l.nopen - 1 && l'.ntodo == l.ntodo - 1
      && l'.ot == (if l.ntodo > l.nopen then ot1[l.nopen - 1 := ot1[l.ntodo - 1]] else ot1)
      && l'.pos == (if l.ntodo > l.nopen then pos1[ot1[l.ntodo - 1] := l.nopen - 1] else pos1)
    ensures l'.Valid(n)
    ensures forall u :: l'.Unclosed(u) <==> l.Unclosed(u) && u != v
    ensures forall u :: l'.Open(u) <==> l.Open(u) && u != v
  {
    hide Lists.Valid;
    if l.ntodo > l.nopen {
      CloseWithGap(n, l, v, i, l');
    } else {
      CloseLast(n, l, v, i, l');
    }
  }

  lemma CloseLast(n: int, l: Lists, v: int, i: int, l': Lists)
    requires l.Valid(n) && l.Open(v) && 0 <= i && l.ntodo <= l.nopen
    requires
      var last := l.ot[l.nopen - 1];
      l' == Lists(l.ot[l.pos[v] := last], l.pos[last := l.pos[v]], l.perm[v := i], l.nopen - 1, l.ntodo - 1)
    ensures l'.Valid(n)
    ensures forall u :: l'.Unclosed(u) <==> l.Unclosed(u) && u != v
    ensures forall u :: l'.Open(u) <==> l.Open(u) && u != v
  {
    assert l.pos[l.ot[l.nopen - 1]] == l.nopen - 1;
  }

  lemma CloseWithGap(n: int, l: Lists, v: int, i: int, l': Lists)
    requires l.Valid(n) && l.Open(v) && 0 <= i && l.ntodo > l.nopen
    requires
      var ot1 := l.ot[l.pos[v] := l.ot[l.nopen - 1]];
      var pos1 := l.pos[l.ot[l.nopen - 1] := l.pos[v]];
      l' == Lists(ot1[l.nopen - 1 := ot1[l.ntodo - 1]], pos1[ot1[l.ntodo - 1] := l.nopen - 1], l.perm[v := i],
                  l.nopen - 1, l.ntodo - 1)
    ensures l'.Valid(n)
    ensures forall u :: l'.Unclosed(u) <==> l.Unclosed(u) && u != v
    ensures forall u :: l'.Open(u) <==> l.Open(u) && u != v
  {
    var last, end := l.ot[l.nopen - 1], l.ot[l.ntodo - 1];
    assert l'.ot == l.ot[l.pos[v] := last][l.nopen - 1 := end];
    assert l'.pos == l.pos[last := l.pos[v]][end := l.nopen - 1];
    assert l.pos[last] == l.nopen - 1 && l.pos[end] == l.ntodo - 1 && last != end;
  }

  /** Opening an untouched vertex: it changes places with the first untouched one. */
  lemma OpenKeepsLists(n: int, l: Lists, u: int, l': Lists)
    requires l.Valid(n) && l.Unclosed(u) && !l.Open(u)
    requires l' == Lists(l.ot[l.pos[u] := l.ot[l.nopen]][l.nopen := u],
                         l.pos[l.ot[l.nopen] := l.pos[u]][u := l.nopen],
                         l.perm, l.nopen + 1, l.ntodo)
    ensures l'.Valid(n)
    ensures forall w :: l'.Unclosed(w) <==> l.Unclosed(w)
    ensures forall w :: l'.Open(w) <==> l.Open(w) || w == u
  {
  }

  // ----- The order it promises -----

  /** The arcs lo..j that end in u, each recorded as the position k of their source. */
  ghost function Arcs(g: Graph, k: int, lo: int, j: int, u: int): seq<int>
    decreases j - lo
  {
    if j <= lo then [] else Arcs(g, k, lo, j - 1, u) + (if 0 < j <= |g.adjncy| && g.adjncy[j - 1] == u then [k] else [])
  }

  /** One entry for every arc from a vertex of order into u: the position of its source. */
  ghost function Visits(g: Graph, order: seq<int>, u: int): seq<int>
    requires g.Valid()
  {
    if order == [] then []
    else
      var i := |order| - 1;
      Visits(g, order[..i], u) +
      (if g.IsVertex(order[i]) then Arcs(g, i, g.xadj[order[i]], g.xadj[order[i] + 1], u) else [])
  }

  /** One more than the level of the vertex that reached u first. */
  ghost function LevelAt(g: Graph, order: seq<int>, visits: seq<int>): int
    requires g.Valid()
    decreases |order|, 0
  {
    if visits == [] || !(0 <= visits[0] < |order|) then 0
    else Level(g, order[..visits[0]], order[visits[0]]) + 1
  }

  ghost function Level(g: Graph, order: seq<int>, u: int): int
    requires g.Valid()
    decreases |order|, 1
  {
    LevelAt(g, order, Visits(g, order, u))
  }

  /** Summed over time, the number of arcs that had reached u. */
  ghost function Sod(g: Graph, order: seq<int>, u: int): int
    requires g.Valid()
  {
    if order == [] then 0 else Sod(g, order[..|order| - 1], u) + |Visits(g, order, u)|
  }

  /** The value of Sod when it was last published: every step at first, then every 25th. */
  ghost function Published(g: Graph, order: seq<int>, u: int): int
    requires g.Valid()
  {
    if order == [] then 0
    else if Visits(g, order, u) != [] && (|order| <= 1000 || (|order| - 1) % 25 == 0) then Sod(g, order, u)
    else Published(g, order[..|order| - 1], u)
  }

  /** The priorities of types 1, 2, 3, 5 and 6 for a vertex that was reached at all. */
  ghost function Priority(kind: int, sqrt32: int -> int, visits: seq<int>, level: int): int
  {
    if visits == [] then 0
    else
      var last := visits[|visits| - 1];
      match kind
      case 1 => 1000 * (last + 1) + |visits|
      case 2 => |visits|
      case 3 => sqrt32(Sum(visits))
      case 5 => -(1000 * level - |visits|)
      case 6 => (last + 1) * |visits|
      case _ => 0
  }

  ghost function Score(g: Graph, kind: int, sqrt32: int -> int, order: seq<int>, u: int): int
    requires g.Valid()
  {
    if kind == 4 then Published(g, order, u)
    else Priority(kind, sqrt32, Visits(g, order, u), Level(g, order, u))
  }

  /** After order, taking v is no worse than taking w: a vertex that nothing has reached is
      taken only when there is no other, and no reached vertex scores above the one taken. */
  ghost predicate NoWorse(g: Graph, kind: int, sqrt32: int -> int, order: seq<int>, v: int, w: int)
    requires g.Valid()
  {
    Visits(g, order, w) != [] ==>
      Visits(g, order, v) != [] && Score(g, kind, sqrt32, order, w) <= Score(g, kind, sqrt32, order, v)
  }

  ghost predicate Greedy(g: Graph, kind: int, sqrt32: int -> int, order: seq<int>)
    requires g.Valid()
  {
    forall i, j :: 0 <= i < j < |order| ==> NoWorse(g, kind, sqrt32, order[..i], order[i], order[j])
  }

  lemma {:induction false} ArcsAreK(g: Graph, k: int, lo: int, j: int, u: int)
    ensures forall x :: 0 <= x < |Arcs(g, k, lo, j, u)| ==> Arcs(g, k, lo, j, u)[x] == k
    decreases j - lo
  {
    if j > lo {
      ArcsAreK(g, k, lo, j - 1, u);
    }
  }

  lemma {:induction false} UnvisitedScoresZero(g: Graph, order: seq<int>, u: int)
    requires g.Valid() && Visits(g, order, u) == []
    ensures Published(g, order, u) == 0 && Sod(g, order, u) == 0
  {
    if order != [] {
      UnvisitedScoresZero(g, order[..|order| - 1], u);
    }
  }

  // ----- The state between two arcs -----

  datatype Marks = Marks(degrees: seq<int>, wdegrees: seq<int>, sod: seq<int>, level: seq<int>, keys: map<int, int>)

  /** hist[u] lists the arcs that have reached u; every unclosed vertex carries the bookkeeping that
      belongs to its list.  Type 4 publishes its keys late, hence from the shorter order o4. */
  ghost predicate Scored(g: Graph, kind: int, sqrt32: int -> int, order: seq<int>, o4: seq<int>,
                         hist: seq<seq<int>>, l: Lists, m: Marks)
    requires g.Valid()
  {
    && l.Valid(g.nvtxs) && |l.perm| == |l.pos| == g.nvtxs
    && |hist| == |m.degrees| == |m.wdegrees| == |m.sod| == |m.level| == g.nvtxs
    && (forall u :: l.Unclosed(u) ==> Reached(g, kind, order, o4, hist[u], u, m))
    && (forall u :: u in m.keys <==> l.Open(u))
  }

  ghost predicate Reached(g: Graph, kind: int, order: seq<int>, o4: seq<int>, visits: seq<int>, u: int, m: Marks)
    requires g.Valid() && 0 <= u < |m.degrees| && |m.degrees| == |m.wdegrees| == |m.sod| == |m.level|
  {
    && m.degrees[u] == |visits|
    && (kind == 3 ==> m.wdegrees[u] == Sum(visits))
    && (kind == 4 ==> m.sod[u] == Sod(g, o4, u))
    && m.level[u] == LevelAt(g, order, visits)
    && (visits != [] ==> 0 <= visits[0] < |order|)
  }

  /** The open vertices are exactly the reached ones, and their keys are their scores. */
  ghost predicate Keyed(g: Graph, kind: int, sqrt32: int -> int, o4: seq<int>, hist: seq<seq<int>>, l: Lists, m: Marks)
    requires g.Valid() && |hist| == |m.level| == |l.perm| && forall u :: l.Open(u) ==> u in m.keys
  {
    && (forall u :: l.Unclosed(u) ==> (l.Open(u) <==> hist[u] != []))
    && (forall u :: l.Open(u) ==>
         m.keys[u] == if kind == 4 then Published(g, o4, u) else Priority(kind, sqrt32, hist[u], m.level[u]))
  }

  /** Only the vertex that starts a component may be open without having been reached. */
  ghost predicate Restarted(hist: seq<seq<int>>, l: Lists)
    requires |hist| == |l.perm|
  {
    l.nopen == 1 && forall u :: l.Unclosed(u) ==> hist[u] == []
  }

  lemma LevelAtGrows(g: Graph, order: seq<int>, v: int, visits: seq<int>)
    requires g.Valid() && (visits != [] ==> 0 <= visits[0] < |order|)
    ensures LevelAt(g, order + [v], visits) == LevelAt(g, order, visits)
  {
    if visits != [] {
      assert (order + [v])[..visits[0]] == order[..visits[0]];
    }
  }

  /** Taking the open vertex with the largest key is a greedy choice. */
  lemma PopIsGreedy(g: Graph, kind: int, sqrt32: int -> int, o: seq<int>, hist: seq<seq<int>>, l: Lists, m: Marks,
                    v: int, w: int)
    requires g.Valid() && Scored(g, kind, sqrt32, o, o, hist, l, m)
    requires Keyed(g, kind, sqrt32, o, hist, l, m) || Restarted(hist, l)
    requires forall u :: g.IsVertex(u) ==> hist[u] == Visits(g, o, u)
    requires v in m.keys && forall u :: u in m.keys ==> m.keys[u] <= m.keys[v]
    requires l.Unclosed(w)
    ensures NoWorse(g, kind, sqrt32, o, v, w)
  {
    if Visits(g, o, w) != [] {
      assert hist[w] != [];
      assert Reached(g, kind, o, o, hist[w], w, m) && Reached(g, kind, o, o, hist[v], v, m);
    }
  }

  lemma PopStep(g: Graph, kind: int, sqrt32: int -> int, o: seq<int>, hist: seq<seq<int>>, l: Lists, m: Marks,
                v: int, l': Lists)
    requires g.Valid() && Scored(g, kind, sqrt32, o, o, hist, l, m)
    requires Keyed(g, kind, sqrt32, o, hist, l, m) || Restarted(hist, l)
    requires forall u :: g.IsVertex(u) ==> hist[u] == Visits(g, o, u)
    requires v in m.keys
    requires l'.Valid(g.nvtxs) && l'.nopen == l.nopen - 1
    requires forall u :: l'.Unclosed(u) <==> l.Unclosed(u) && u != v
    requires forall u :: l'.Open(u) <==> l.Open(u) && u != v
    ensures Scored(g, kind, sqrt32, o + [v], o, hist, l', m.(keys := m.keys - {v}))
    ensures Keyed(g, kind, sqrt32, o, hist, l', m.(keys := m.keys - {v}))
    ensures m.level[v] == Level(g, o, v)
  {
    assert Reached(g, kind, o, o, hist[v], v, m);
    forall u | l'.Unclosed(u)
      ensures Reached(g, kind, o + [v], o, hist[u], u, m.(keys := m.keys - {v}))
    {
      assert Reached(g, kind, o, o, hist[u], u, m);
      LevelAtGrows(g, o, v, hist[u]);
    }
    if Restarted(hist, l) {
      forall u ensures !l'.Open(u) {}
    }
  }

  /** The key that the switch on the type gives to the end of an arc from the i-th vertex. */
  function NewKey(kind: int, sqrt32: int -> int, i: int, degree: int, wdegree: int, level: int, oldkey: int): int
  {
    match kind
    case 1 => 1000 * (i + 1) + degree
    case 2 => degree
    case 3 => sqrt32(wdegree)
    case 5 => -(1000 * level - degree)
    case 6 => (i + 1) * degree
    case _ => oldkey
  }

  /** The bookkeeping of one arc from v, closed at position i, to the unclosed vertex u. */
  ghost predicate ArcMarked(kind: int, sqrt32: int -> int, i: int, v: int, u: int, m: Marks, m': Marks)
    requires 0 <= u < |m.degrees| && 0 <= v < |m.degrees| == |m.wdegrees| == |m.level|
  {
    var first := m.degrees[u] == 0;
    && m'.degrees == m.degrees[u := m.degrees[u] + 1]
    && m'.wdegrees == (if kind == 3 then m.wdegrees[u := m.wdegrees[u] + i] else m.wdegrees)
    && m'.sod == m.sod
    && m'.level == (if first then m.level[u := m.level[v] + 1] else m.level)
    && (first || u in m.keys)
    && m'.keys == m.keys[u := NewKey(kind, sqrt32, i, m'.degrees[u], m'.wdegrees[u], m'.level[u],
                                      if first then 0 else m.keys[u])]
  }

  lemma NewKeyIsPriority(kind: int, sqrt32: int -> int, i: int, visits: seq<int>, wdegree: int, level: int, old4: int)
    requires kind == 3 ==> wdegree == Sum(visits) + i
    requires !(1 <= kind <= 6) ==> old4 == 0
    ensures NewKey(kind, sqrt32, i, |visits| + 1, wdegree, level, old4) ==
      if kind == 4 then old4 else Priority(kind, sqrt32, visits + [i], level)
  {
    hide Sum;
    var h := visits + [i];
    SumAppend(visits, i);
    assert |h| == |visits| + 1 && h[|h| - 1] == i;
  }

  lemma ArcReaches(g: Graph, kind: int, sqrt32: int -> int, o: seq<int>, v: int, visits: seq<int>, m: Marks,
                   u: int, m': Marks)
    requires g.Valid() && 0 <= u < |m.degrees| == |m.wdegrees| == |m.sod| == |m.level| == g.nvtxs
    requires g.IsVertex(v) && m.level[v] == Level(g, o, v)
    requires Reached(g, kind, o + [v], o, visits, u, m) && ArcMarked(kind, sqrt32, |o|, v, u, m, m')
    requires visits == [] ==> Visits(g, o, u) == []
    requires visits != [] ==>
      m.keys[u] == if kind == 4 then Published(g, o, u) else Priority(kind, sqrt32, visits, m.level[u])
    ensures Reached(g, kind, o + [v], o, visits + [|o|], u, m')
    ensures m'.keys[u] ==
      if kind == 4 then Published(g, o, u) else Priority(kind, sqrt32, visits + [|o|], m'.level[u])
  {
    hide NewKey;
    assert (visits + [|o|])[..|visits|] == visits;
    if visits == [] {
      assert (o + [v])[..|o|] == o;
      UnvisitedScoresZero(g, o, u);
    }
    NewKeyIsPriority(kind, sqrt32, |o|, visits, m'.wdegrees[u], m'.level[u], if visits == [] then 0 else m.keys[u]);
  }

  lemma ArcPassesOthers(g: Graph, kind: int, sqrt32: int -> int, o: seq<int>, v: int, visits: seq<int>, m: Marks,
                        u: int, w: int, m': Marks)
    requires g.Valid() && 0 <= u < |m.degrees| == |m.wdegrees| == |m.sod| == |m.level| == g.nvtxs
    requires g.IsVertex(v) && g.IsVertex(w) && w != u && ArcMarked(kind, sqrt32, |o|, v, u, m, m')
    requires Reached(g, kind, o + [v], o, visits, w, m)
    ensures Reached(g, kind, o + [v], o, visits, w, m') && m'.level[w] == m.level[w]
    ensures w in m.keys ==> m'.keys[w] == m.keys[w]
  {
  }

  lemma ArcStep(g: Graph, kind: int, sqrt32: int -> int, o: seq<int>, v: int, hist: seq<seq<int>>, l: Lists, m: Marks,
                u: int, l': Lists, m': Marks)
    requires g.Valid() && Scored(g, kind, sqrt32, o + [v], o, hist, l, m)
    requires Keyed(g, kind, sqrt32, o, hist, l, m)
    requires g.IsVertex(v) && m.level[v] == Level(g, o, v) && !l.Unclosed(v)
    requires l.Unclosed(u) && (hist[u] == [] ==> Visits(g, o, u) == [])
    requires l'.Valid(g.nvtxs) && l'.perm == l.perm && (forall w :: l'.Open(w) <==> l.Open(w) || w == u)
    requires ArcMarked(kind, sqrt32, |o|, v, u, m, m')
    ensures Scored(g, kind, sqrt32, o + [v], o, hist[u := hist[u] + [|o|]], l', m')
    ensures Keyed(g, kind, sqrt32, o, hist[u := hist[u] + [|o|]], l', m')
    ensures m'.level[v] == m.level[v]
  {
    ArcKeepsScored(g, kind, sqrt32, o, v, hist, l, m, u, l', m');
    ArcKeepsKeyed(g, kind, sqrt32, o, v, hist, l, m, u, l', m');
  }

  lemma ArcKeepsScored(g: Graph, kind: int, sqrt32: int -> int, o: seq<int>, v: int, hist: seq<seq<int>>, l: Lists,
                       m: Marks, u: int, l': Lists, m': Marks)
    requires g.Valid() && Scored(g, kind, sqrt32, o + [v], o, hist, l, m)
    requires Keyed(g, kind, sqrt32, o, hist, l, m)
    requires g.IsVertex(v) && m.level[v] == Level(g, o, v)
    requires l.Unclosed(u) && (hist[u] == [] ==> Visits(g, o, u) == [])
    requires l'.Valid(g.nvtxs) && l'.perm == l.perm && (forall w :: l'.Open(w) <==> l.Open(w) || w == u)
    requires ArcMarked(kind, sqrt32, |o|, v, u, m, m')
    ensures Scored(g, kind, sqrt32, o + [v], o, hist[u := hist[u] + [|o|]], l', m')
    ensures m'.keys[u] ==
      if kind == 4 then Published(g, o, u) else Priority(kind, sqrt32, hist[u] + [|o|], m'.level[u])
  {
    hide Published, Priority, LevelAt, Level, Sod, Sum, Visits, NewKey, Reached;
    var hist' := hist[u := hist[u] + [|o|]];
    assert Reached(g, kind, o + [v], o, hist[u], u, m);
    ArcReaches(g, kind, sqrt32, o, v, hist[u], m, u, m');
    forall w | l'.Unclosed(w)
      ensures Reached(g, kind, o + [v], o, hist'[w], w, m')
    {
      assert l.Unclosed(w);
      assert Reached(g, kind, o + [v], o, hist[w], w, m);
      if w != u {
        ArcPassesOthers(g, kind, sqrt32, o, v, hist[w], m, u, w, m');
      }
    }
  }

  lemma ArcKeepsKeyed(g: Graph, kind: int, sqrt32: int -> int, o: seq<int>, v: int, hist: seq<seq<int>>, l: Lists,
                      m: Marks, u: int, l': Lists, m': Marks)
    requires g.Valid() && Scored(g, kind, sqrt32, o + [v], o, hist, l, m) && g.IsVertex(v)
    requires Keyed(g, kind, sqrt32, o, hist, l, m) && l.Unclosed(u)
    requires l'.perm == l.perm && (forall w :: l'.Open(w) <==> l.Open(w) || w == u)
    requires ArcMarked(kind, sqrt32, |o|, v, u, m, m')
    requires Scored(g, kind, sqrt32, o + [v], o, hist[u := hist[u] + [|o|]], l', m')
    requires m'.keys[u] ==
      if kind == 4 then Published(g, o, u) else Priority(kind, sqrt32, hist[u] + [|o|], m'.level[u])
    ensures Keyed(g, kind, sqrt32, o, hist[u := hist[u] + [|o|]], l', m')
  {
    hide Published, Priority, LevelAt, Level, Sod, Sum, Visits, NewKey, Reached, Lists.Valid;
    var hist' := hist[u := hist[u] + [|o|]];
    forall w | l'.Unclosed(w)
      ensures l'.Open(w) <==> hist'[w] != []
    {
      assert l.Unclosed(w);
    }
    forall w | l'.Open(w)
      ensures m'.keys[w] == if kind == 4 then Published(g, o, w) else Priority(kind, sqrt32, hist'[w], m'.level[w])
    {
      assert w == u || l.Open(w);
    }
  }

  // ----- The program -----

  /** Records that v is the i-th vertex and takes it out of the list. */
  method CloseVertex(n: int, v: int, i: int, ot: array<int>, pos: array<int>, perm: array<int>, nopen: int, ntodo: int)
    returns (nopen': int, ntodo': int)
    requires ot != pos && ot != perm && pos != perm && 0 <= i
    requires Lists(ot[..], pos[..], perm[..], nopen, ntodo).Valid(n)
    requires Lists(ot[..], pos[..], perm[..], nopen, ntodo).Open(v)
    modifies ot, pos, perm
    ensures nopen' == nopen - 1 && ntodo' == ntodo - 1 && perm[..] == old(perm[..])[v := i]
    ensures
      var l := old(Lists(ot[..], pos[..], perm[..], nopen, ntodo));
      var l' := Lists(ot[..], pos[..], perm[..], nopen', ntodo');
      && l'.Valid(n)
      && (forall u :: l'.Unclosed(u) <==> l.Unclosed(u) && u != v)
      && (forall u :: l'.Open(u) <==> l.Open(u) && u != v)
  {
    ghost var l := Lists(ot[..], pos[..], perm[..], nopen, ntodo);
    perm[v] := i;
    ot[pos[v]] := ot[nopen - 1];
    pos[ot[nopen - 1]] := pos[v];
    if ntodo > nopen {
      ot[nopen - 1] := ot[ntodo - 1];
      pos[ot[ntodo - 1]] := nopen - 1;
    }
    nopen', ntodo' := nopen - 1, ntodo - 1;
    CloseKeepsLists(n, l, v, i, Lists(ot[..], pos[..], perm[..], nopen', ntodo'));
  }

  method OpenVertex(n: int, u: int, ot: array<int>, pos: array<int>, ghost perm: seq<int>, nopen: int, ghost ntodo: int)
    returns (nopen': int)
    requires ot != pos
    requires Lists(ot[..], pos[..], perm, nopen, ntodo).Valid(n)
    requires Lists(ot[..], pos[..], perm, nopen, ntodo).Unclosed(u)
    requires !Lists(ot[..], pos[..], perm, nopen, ntodo).Open(u)
    modifies ot, pos
    ensures nopen' == nopen + 1
    ensures
      var l := old(Lists(ot[..], pos[..], perm, nopen, ntodo));
      var l' := Lists(ot[..], pos[..], perm, nopen', ntodo);
      && l'.Valid(n)
      && (forall w :: l'.Open(w) <==> l.Open(w) || w == u)
  {
    ghost var l := Lists(ot[..], pos[..], perm, nopen, ntodo);
    ot[pos[u]] := ot[nopen];
    pos[ot[nopen]] := pos[u];
    ot[nopen] := u;
    pos[u] := nopen;
    nopen' := nopen + 1;
    OpenKeepsLists(n, l, u, Lists(ot[..], pos[..], perm, nopen', ntodo));
  }

  /** A vertex that no arc has reached before is opened, one level above v, and queued. */
  method OpenIfNew(n: int, v: int, u: int, degrees: array<int>, level: array<int>, ot: array<int>, pos: array<int>,
                   queue: PQueue, nopen: int, ghost ntodo: int, ghost perm: seq<int>)
    returns (nopen': int)
    requires queue.Valid() && queue.locator.Length == degrees.Length == level.Length == n && 0 <= v < n
    requires {degrees} !! {level} !! {ot} !! {pos} !! {queue.locator}
    requires
      var l := Lists(ot[..], pos[..], perm, nopen, ntodo);
      l.Valid(n) && l.Unclosed(u) && (l.Open(u) <==> degrees[u] != 0) && (l.Open(u) <==> u in queue.Keys())
    modifies level, ot, pos, queue, queue.heap, queue.locator
    ensures queue.Valid()
    ensures
      var l := old(Lists(ot[..], pos[..], perm, nopen, ntodo));
      var l' := Lists(ot[..], pos[..], perm, nopen', ntodo);
      l'.Valid(n) && forall w :: l'.Open(w) <==> l.Open(w) || w == u
    ensures 0 <= u < n && u in queue.Keys()
    ensures level[..] == if degrees[u] == 0 then old(level[..][u := level[v] + 1]) else old(level[..])
    ensures queue.Keys() == if degrees[u] == 0 then old(queue.Keys())[u := 0] else old(queue.Keys())
  {
    hide Lists.Valid, PQueue.Valid, PQueue.Keys;
    ListSizes(n, Lists(ot[..], pos[..], perm, nopen, ntodo));
    nopen' := nopen;
    if degrees[u] == 0 {
      nopen' := OpenVertex(n, u, ot, pos, perm, nopen, ntodo);
      level[u] := level[v] + 1;
      queue.Insert(u, 0);
    }
  }

  /** Updates the arrays and the queue for one arc from v, the i-th vertex, to an unclosed vertex u. */
  method MarkArc(n: int, kind: int, sqrt32: int -> int, v: int, u: int,
                 degrees: array<int>, wdegrees: array<int>, level: array<int>, ot: array<int>, pos: array<int>,
                 queue: PQueue, nopen: int, ghost ntodo: int, ghost perm: seq<int>, ghost sod: seq<int>, i: int)
    returns (nopen': int)
    requires queue.Valid() && queue.locator.Length == n && 0 <= v < n
    requires {degrees} !! {wdegrees} !! {level} !! {ot} !! {pos} !! {queue.locator}
    requires degrees.Length == wdegrees.Length == level.Length == n
    requires
      var l := Lists(ot[..], pos[..], perm, nopen, ntodo);
      l.Valid(n) && l.Unclosed(u) && (l.Open(u) <==> degrees[u] != 0) && (l.Open(u) <==> u in queue.Keys())
    modifies degrees, wdegrees, level, ot, pos, queue, queue.heap, queue.locator
    ensures queue.Valid()
    ensures
      var l := old(Lists(ot[..], pos[..], perm, nopen, ntodo));
      var l' := Lists(ot[..], pos[..], perm, nopen', ntodo);
      l'.Valid(n) && forall w :: l'.Open(w) <==> l.Open(w) || w == u
    ensures ArcMarked(kind, sqrt32, i, v, u, old(Marks(degrees[..], wdegrees[..], sod, level[..], queue.Keys())),
                      Marks(degrees[..], wdegrees[..], sod, level[..], queue.Keys()))
  {
    hide Lists.Valid, PQueue.Valid, PQueue.Keys;
    ListSizes(n, Lists(ot[..], pos[..], perm, nopen, ntodo));
    nopen' := OpenIfNew(n, v, u, degrees, level, ot, pos, queue, nopen, ntodo, perm);
    degrees[u] := degrees[u] + 1;
    if kind == 3 {
      wdegrees[u] := wdegrees[u] + i;
    }
    if kind in {1, 2, 3, 5, 6} {
      queue.Update(u, NewKey(kind, sqrt32, i, degrees[u], wdegrees[u], level[u], 0));
    }
  }

  lemma ListSizes(n: int, l: Lists)
    requires l.Valid(n)
    ensures |l.ot| == |l.pos| == |l.perm| == n
  {
  }

  /** The state while the arcs of v, which follows o in the order, are visited. */
  ghost predicate Visiting(g: Graph, kind: int, sqrt32: int -> int, o: seq<int>, v: int, hist: seq<seq<int>>,
                           l: Lists, m: Marks)
    requires g.Valid() && g.IsVertex(v)
  {
    && Scored(g, kind, sqrt32, o + [v], o, hist, l, m) && Keyed(g, kind, sqrt32, o, hist, l, m)
    && m.level[v] == Level(g, o, v) && !l.Unclosed(v)
  }

  lemma VisitingFacts(g: Graph, kind: int, sqrt32: int -> int, o: seq<int>, v: int, hist: seq<seq<int>>, l: Lists,
                      m: Marks)
    requires g.Valid() && g.IsVertex(v) && Visiting(g, kind, sqrt32, o, v, hist, l, m)
    ensures l.Valid(g.nvtxs) && |hist| == |m.degrees| == |m.wdegrees| == |m.sod| == |m.level| == g.nvtxs
    ensures forall u :: l.Unclosed(u) ==> (l.Open(u) <==> m.degrees[u] != 0) && (l.Open(u) <==> u in m.keys)
  {
    hide Lists.Valid, Visits, Level, LevelAt, Sod, Published, Priority;
    forall u | l.Unclosed(u)
      ensures l.Open(u) <==> m.degrees[u] != 0
    {
      assert Reached(g, kind, o + [v], o, hist[u], u, m);
    }
  }

  lemma ArcVisited(g: Graph, kind: int, sqrt32: int -> int, o: seq<int>, v: int, hist: seq<seq<int>>, l: Lists,
                   m: Marks, u: int, l': Lists, m': Marks)
    requires g.Valid() && g.IsVertex(v) && Visiting(g, kind, sqrt32, o, v, hist, l, m) && |hist| == g.nvtxs
    requires g.IsVertex(u) && l.Unclosed(u) && (hist[u] == [] ==> Visits(g, o, u) == [])
    requires l'.Valid(g.nvtxs) && l'.perm == l.perm && (forall w :: l'.Open(w) <==> l.Open(w) || w == u)
    requires |m.degrees| == |m.wdegrees| == |m.level| == g.nvtxs && ArcMarked(kind, sqrt32, |o|, v, u, m, m')
    ensures Visiting(g, kind, sqrt32, o, v, hist[u := hist[u] + [|o|]], l', m')
  {
    hide Lists.Valid, Visits, Level, Scored, Keyed, ArcMarked;
    ArcStep(g, kind, sqrt32, o, v, hist, l, m, u, l', m');
  }

  /** Handles one arc from v, the i-th vertex, to a vertex u that is not closed. */
  method Encounter(g: Graph, kind: int, sqrt32: int -> int, ghost o: seq<int>, v: int, u: int,
                   degrees: array<int>, wdegrees: array<int>, level: array<int>, ot: array<int>, pos: array<int>,
                   queue: PQueue, nopen: int, ghost ntodo: int, ghost perm: seq<int>, ghost sod: seq<int>,
                   ghost hist: seq<seq<int>>, i: int)
    returns (nopen': int, ghost hist': seq<seq<int>>)
    requires g.Valid() && queue.Valid() && i == |o| && queue.locator.Length == g.nvtxs && g.IsVertex(v) && g.IsVertex(u)
    requires {degrees} !! {wdegrees} !! {level} !! {ot} !! {pos} !! {queue.locator}
    requires
      var l := Lists(ot[..], pos[..], perm, nopen, ntodo);
      var m := Marks(degrees[..], wdegrees[..], sod, level[..], queue.Keys());
      && Visiting(g, kind, sqrt32, o, v, hist, l, m)
      && l.Unclosed(u) && |hist| == g.nvtxs && (hist[u] == [] ==> Visits(g, o, u) == [])
    modifies degrees, wdegrees, level, ot, pos, queue, queue.heap, queue.locator
    ensures queue.Valid() && hist' == hist[u := hist[u] + [i]]
    ensures
      var l := Lists(ot[..], pos[..], perm, nopen', ntodo);
      var m := Marks(degrees[..], wdegrees[..], sod, level[..], queue.Keys());
      Visiting(g, kind, sqrt32, o, v, hist', l, m)
  {
    hide Lists.Valid, Visits, PQueue.Valid, PQueue.Keys, Graph.Valid, Visiting, ArcMarked;
    ghost var l := Lists(ot[..], pos[..], perm, nopen, ntodo);
    ghost var m := Marks(degrees[..], wdegrees[..], sod, level[..], queue.Keys());
    VisitingFacts(g, kind, sqrt32, o, v, hist, l, m);
    nopen' := MarkArc(g.nvtxs, kind, sqrt32, v, u, degrees, wdegrees, level, ot, pos, queue, nopen, ntodo, perm, sod,
                       i);
    hist' := hist[u := hist[u] + [i]];
    ArcVisited(g, kind, sqrt32, o, v, hist, l, m, u, Lists(ot[..], pos[..], perm, nopen', ntodo),
               Marks(degrees[..], wdegrees[..], sod, level[..], queue.Keys()));
  }

  /** The history after the arcs before j of v, which follows o in the order. */
  ghost predicate Seen(g: Graph, o: seq<int>, v: int, j: int, hist: seq<seq<int>>)
    requires g.Valid() && g.IsVertex(v)
  {
    |hist| == g.nvtxs && forall u :: 0 <= u < |hist| ==> hist[u] == Visits(g, o, u) + Arcs(g, |o|, g.xadj[v], j, u)
  }

  lemma SeenStep(g: Graph, o: seq<int>, v: int, j: int, hist: seq<seq<int>>)
    requires g.Valid() && g.IsVertex(v) && g.xadj[v] <= j < g.xadj[v + 1] && Seen(g, o, v, j, hist)
    ensures g.IsVertex(g.adjncy[j])
    ensures Seen(g, o, v, j + 1, hist[g.adjncy[j] := hist[g.adjncy[j]] + [|o|]])
    ensures hist[g.adjncy[j]] == [] ==> Visits(g, o, g.adjncy[j]) == []
  {
    assert g.IsArc(v, j);
    forall u | g.IsVertex(u)
      ensures Arcs(g, |o|, g.xadj[v], j + 1, u) ==
        Arcs(g, |o|, g.xadj[v], j, u) + (if u == g.adjncy[j] then [|o|] else [])
    {
    }
  }

  lemma SeenAll(g: Graph, o: seq<int>, v: int, hist: seq<seq<int>>)
    requires g.Valid() && g.IsVertex(v) && Seen(g, o, v, g.xadj[v + 1], hist)
    ensures forall u :: g.IsVertex(u) ==> hist[u] == Visits(g, o + [v], u)
  {
    assert (o + [v])[..|o|] == o;
  }

  /** A closed vertex is skipped: the history grows there, but nobody looks at it again. */
  lemma SkipClosed(g: Graph, kind: int, sqrt32: int -> int, o: seq<int>, v: int, hist: seq<seq<int>>, l: Lists,
                   m: Marks, u: int)
    requires g.Valid() && g.IsVertex(v) && Visiting(g, kind, sqrt32, o, v, hist, l, m)
    requires |hist| == g.nvtxs && g.IsVertex(u) && !l.Unclosed(u)
    ensures Visiting(g, kind, sqrt32, o, v, hist[u := hist[u] + [|o|]], l, m)
  {
    hide Lists.Valid, Level, LevelAt, Sod, Published, Priority;
    forall w | l.Unclosed(w)
      ensures Reached(g, kind, o + [v], o, hist[u := hist[u] + [|o|]][w], w, m)
    {
      assert Reached(g, kind, o + [v], o, hist[w], w, m);
    }
  }

  /** The loop over the arcs of v. */
  method VisitArcs(g: Graph, kind: int, sqrt32: int -> int, ghost o: seq<int>, v: int,
                   degrees: array<int>, wdegrees: array<int>, level: array<int>, ot: array<int>, pos: array<int>,
                   perm: array<int>, queue: PQueue, nopen: int, ghost ntodo: int, ghost sod: seq<int>,
                   ghost hist: seq<seq<int>>, i: int)
    returns (nopen': int, ghost hist': seq<seq<int>>)
    requires g.Valid() && queue.Valid() && i == |o| && g.IsVertex(v) && perm.Length == |hist| == g.nvtxs
    requires {degrees} !! {wdegrees} !! {level} !! {ot} !! {pos} !! {perm} !! {queue.locator}
    requires queue.locator.Length == g.nvtxs
    requires Visiting(g, kind, sqrt32, o, v, hist, Lists(ot[..], pos[..], perm[..], nopen, ntodo),
                      Marks(degrees[..], wdegrees[..], sod, level[..], queue.Keys()))
    requires forall u :: g.IsVertex(u) ==> hist[u] == Visits(g, o, u)
    modifies degrees, wdegrees, level, ot, pos, queue, queue.heap, queue.locator
    ensures queue.Valid() && |hist'| == g.nvtxs
    ensures Visiting(g, kind, sqrt32, o, v, hist', Lists(ot[..], pos[..], perm[..], nopen', ntodo),
                     Marks(degrees[..], wdegrees[..], sod, level[..], queue.Keys()))
    ensures forall u :: g.IsVertex(u) ==> hist'[u] == Visits(g, o + [v], u)
  {
    hide Lists.Valid, Visiting, Visits, Seen, PQueue.Valid, PQueue.Keys;
    nopen', hist' := nopen, hist;
    SeenNone(g, o, v, hist);
    for j := g.xadj[v] to g.xadj[v + 1]
      invariant queue.Valid() && |hist'| == g.nvtxs
      invariant Visiting(g, kind, sqrt32, o, v, hist', Lists(ot[..], pos[..], perm[..], nopen', ntodo),
                         Marks(degrees[..], wdegrees[..], sod, level[..], queue.Keys()))
      invariant Seen(g, o, v, j, hist')
    {
      var u := g.adjncy[j];
      SeenStep(g, o, v, j, hist');
      if perm[u] == -1 {
        nopen', hist' := Encounter(g, kind, sqrt32, o, v, u, degrees, wdegrees, level, ot, pos, queue, nopen', ntodo,
                                   perm[..], sod, hist', i);
      } else {
        SkipClosed(g, kind, sqrt32, o, v, hist', Lists(ot[..], pos[..], perm[..], nopen', ntodo),
                   Marks(degrees[..], wdegrees[..], sod, level[..], queue.Keys()), u);
        hist' := hist'[u := hist'[u] + [i]];
      }
    }
    SeenAll(g, o, v, hist');
  }

  lemma SeenNone(g: Graph, o: seq<int>, v: int, hist: seq<seq<int>>)
    requires g.Valid() && g.IsVertex(v) && |hist| == g.nvtxs && forall u :: g.IsVertex(u) ==> hist[u] == Visits(g, o, u)
    ensures Seen(g, o, v, g.xadj[v], hist)
  {
  }

  // ----- Type 4 publishes its keys after the arcs -----

  ghost predicate Publishing(g: Graph, o: seq<int>, o': seq<int>, l: Lists, sod: seq<int>, keys: map<int, int>, j: int)
    requires g.Valid() && |sod| == |l.perm| == |l.pos| && forall u :: l.Open(u) ==> u in keys
  {
    forall w :: l.Unclosed(w) ==>
      if l.Open(w) && l.pos[w] < j then sod[w] == Sod(g, o', w) && keys[w] == Published(g, o', w)
      else sod[w] == Sod(g, o, w) && (l.Open(w) ==> keys[w] == Published(g, o, w))
  }

  lemma PublishStart(g: Graph, kind: int, sqrt32: int -> int, o: seq<int>, v: int, hist: seq<seq<int>>, l: Lists,
                     m: Marks)
    requires g.Valid() && kind == 4 && Scored(g, kind, sqrt32, o + [v], o, hist, l, m)
    requires Keyed(g, kind, sqrt32, o, hist, l, m)
    ensures Publishing(g, o, o + [v], l, m.sod, m.keys, 0)
  {
    forall w | l.Unclosed(w)
      ensures m.sod[w] == Sod(g, o, w)
    {
      assert Reached(g, kind, o + [v], o, hist[w], w, m);
    }
  }

  lemma PublishStep(g: Graph, o: seq<int>, v: int, l: Lists, sod: seq<int>, keys: map<int, int>, j: int,
                    u: int, sod': seq<int>, keys': map<int, int>)
    requires g.Valid() && |sod| == |l.perm| == |l.pos| && l.Valid(|sod|) && (forall w :: l.Open(w) ==> w in keys)
    requires Publishing(g, o, o + [v], l, sod, keys, j) && 0 <= j < l.nopen && u == l.ot[j]
    requires Visits(g, o + [v], u) != []
    requires sod' == sod[u := sod[u] + |Visits(g, o + [v], u)|]
    requires keys' == if |o| < 1000 || |o| % 25 == 0 then keys[u := sod'[u]] else keys
    ensures Publishing(g, o, o + [v], l, sod', keys', j + 1)
  {
    assert (o + [v])[..|o|] == o;
    assert l.Open(u);
    assert sod'[u] == Sod(g, o + [v], u) && keys'[u] == Published(g, o + [v], u);
    forall w | l.Unclosed(w) && w != u
      ensures l.Open(w) ==> l.pos[w] != j
      ensures sod'[w] == sod[w] && (l.Open(w) ==> keys'[w] == keys[w])
    {
    }
  }

  /** From here on the longer order counts. */
  lemma PublishDone(g: Graph, kind: int, sqrt32: int -> int, o: seq<int>, v: int, hist: seq<seq<int>>, l: Lists,
                    m: Marks, m': Marks)
    requires g.Valid() && Scored(g, kind, sqrt32, o + [v], o, hist, l, m) && Keyed(g, kind, sqrt32, o, hist, l, m)
    requires forall u :: g.IsVertex(u) ==> hist[u] == Visits(g, o + [v], u)
    requires m' == m.(sod := m'.sod, keys := m'.keys) && |m'.sod| == g.nvtxs && m'.keys.Keys == m.keys.Keys
    requires if kind == 4 then Publishing(g, o, o + [v], l, m'.sod, m'.keys, l.nopen) else m' == m
    ensures Scored(g, kind, sqrt32, o + [v], o + [v], hist, l, m') && Keyed(g, kind, sqrt32, o + [v], hist, l, m')
  {
    hide Published, Priority, Sum, LevelAt, Lists.Valid, Visits, Graph.Valid;
    forall u | l.Unclosed(u)
      ensures Reached(g, kind, o + [v], o + [v], hist[u], u, m')
    {
      assert Reached(g, kind, o + [v], o, hist[u], u, m);
      if kind == 4 && !l.Open(u) {
        assert (o + [v])[..|o|] == o;
      }
    }
  }

  method Publish(g: Graph, sqrt32: int -> int, ghost o: seq<int>, ghost v: int,
                 degrees: array<int>, sod: array<int>, ot: array<int>, pos: array<int>,
                 perm: array<int>, queue: PQueue, nopen: int, ghost ntodo: int, ghost wdegrees: seq<int>,
                 ghost level: seq<int>, ghost hist: seq<seq<int>>, i: int)
    requires g.Valid() && queue.Valid() && i == |o|
    requires {degrees} !! {sod} !! {ot} !! {pos} !! {perm} !! {queue.locator}
    requires queue.locator.Length == g.nvtxs
    requires
      var l := Lists(ot[..], pos[..], perm[..], nopen, ntodo);
      var m := Marks(degrees[..], wdegrees, sod[..], level, queue.Keys());
      && Scored(g, 4, sqrt32, o + [v], o, hist, l, m) && Keyed(g, 4, sqrt32, o, hist, l, m)
    requires forall u :: g.IsVertex(u) ==> hist[u] == Visits(g, o + [v], u)
    modifies sod, queue, queue.heap, queue.locator
    ensures queue.Valid()
    ensures
      var l := Lists(ot[..], pos[..], perm[..], nopen, ntodo);
      var m := Marks(degrees[..], wdegrees, sod[..], level, queue.Keys());
      && Scored(g, 4, sqrt32, o + [v], o + [v], hist, l, m) && Keyed(g, 4, sqrt32, o + [v], hist, l, m)
  {
    hide Visits, LevelAt, Level, Sod, Published, Priority, Publishing, PQueue.Valid, PQueue.Keys;
    ghost var l := Lists(ot[..], pos[..], perm[..], nopen, ntodo);
    ghost var m := Marks(degrees[..], wdegrees, sod[..], level, queue.Keys());
    PublishStart(g, 4, sqrt32, o, v, hist, l, m);
    for j := 0 to nopen
      invariant queue.Valid() && queue.Keys().Keys == m.keys.Keys
      invariant Publishing(g, o, o + [v], l, sod[..], queue.Keys(), j)
    {
      var u := ot[j];
      if perm[u] != -1 {
        assert false;  // the open list contains a closed vertex
      }
      assert l.Open(u) && u in queue.Keys();
      assert Reached(g, 4, o + [v], o, hist[u], u, m);
      ghost var keys, sod0 := queue.Keys(), sod[..];
      sod[u] := sod[u] + degrees[u];
      if i < 1000 || i % 25 == 0 {
        queue.Update(u, sod[u]);
      }
      PublishStep(g, o, v, l, sod0, keys, j, u, sod[..], queue.Keys());
    }
    PublishDone(g, 4, sqrt32, o, v, hist, l, m, Marks(degrees[..], wdegrees, sod[..], level, queue.Keys()));
  }

  // ----- The whole run -----

  /** perm and order are inverse to each other on the vertices closed so far. */
  ghost predicate Ordered(n: int, order: seq<int>, perm: seq<int>)
  {
    && |perm| == n
    && (forall k :: 0 <= k < |order| ==> 0 <= order[k] < n && perm[order[k]] == k)
    && (forall u :: 0 <= u < n && perm[u] != -1 ==> 0 <= perm[u] < |order| && order[perm[u]] == u)
  }

  /** Each choice so far was no worse than any vertex that was then not closed. */
  ghost predicate GreedySoFar(g: Graph, kind: int, sqrt32: int -> int, order: seq<int>, perm: seq<int>)
    requires g.Valid() && |perm| == g.nvtxs
  {
    forall k, w :: 0 <= k < |order| && 0 <= w < g.nvtxs && (perm[w] == -1 || perm[w] > k) ==>
      NoWorse(g, kind, sqrt32, order[..k], order[k], w)
  }

  lemma GreedyStep(g: Graph, kind: int, sqrt32: int -> int, o: seq<int>, perm: seq<int>, v: int)
    requires g.Valid() && Ordered(g.nvtxs, o, perm) && GreedySoFar(g, kind, sqrt32, o, perm)
    requires g.IsVertex(v) && perm[v] == -1
    requires forall w :: 0 <= w < g.nvtxs && perm[w] == -1 && w != v ==> NoWorse(g, kind, sqrt32, o, v, w)
    ensures Ordered(g.nvtxs, o + [v], perm[v := |o|])
    ensures GreedySoFar(g, kind, sqrt32, o + [v], perm[v := |o|])
  {
    hide NoWorse;
    var perm' := perm[v := |o|];
    forall k, w | 0 <= k < |o| + 1 && 0 <= w < g.nvtxs && (perm'[w] == -1 || perm'[w] > k)
      ensures NoWorse(g, kind, sqrt32, (o + [v])[..k], (o + [v])[k], w)
    {
      if k < |o| {
        assert (o + [v])[..k] == o[..k];
      } else {
        assert (o + [v])[..k] == o;
      }
    }
  }

  lemma AllClosed(g: Graph, kind: int, sqrt32: int -> int, order: seq<int>, perm: seq<int>)
    requires g.Valid() && Ordered(g.nvtxs, order, perm) && GreedySoFar(g, kind, sqrt32, order, perm)
    requires forall u :: 0 <= u < g.nvtxs ==> perm[u] != -1
    ensures Greedy(g, kind, sqrt32, order)
  {
    forall i, j | 0 <= i < j < |order|
      ensures NoWorse(g, kind, sqrt32, order[..i], order[i], order[j])
    {
      assert perm[order[j]] == j;
    }
  }

  /** A queue with nothing in it means that nothing unclosed has been reached. */
  lemma Restart(g: Graph, kind: int, sqrt32: int -> int, o: seq<int>, hist: seq<seq<int>>, l: Lists, m: Marks, u: int)
    requires g.Valid() && Scored(g, kind, sqrt32, o, o, hist, l, m)
    requires Keyed(g, kind, sqrt32, o, hist, l, m) || Restarted(hist, l)
    requires l.nopen == 0 && l.ntodo > 0 && u == l.ot[0]
    ensures l.Unclosed(u) && u !in m.keys
    ensures
      var l' := l.(nopen := 1);
      && Scored(g, kind, sqrt32, o, o, hist, l', m.(keys := m.keys[u := 1])) && Restarted(hist, l')
  {
    var l', m' := l.(nopen := 1), m.(keys := m.keys[u := 1]);
    forall w ensures l'.Open(w) <==> w == u {}
    forall w | l'.Unclosed(w)
      ensures Reached(g, kind, o, o, hist[w], w, m') && hist[w] == []
    {
      assert l.Unclosed(w);
      assert Reached(g, kind, o, o, hist[w], w, m);
    }
  }

  lemma StartState(g: Graph, kind: int, sqrt32: int -> int, root: int, hist: seq<seq<int>>, l: Lists, m: Marks)
    requires g.Valid() && g.IsVertex(root)
    requires |l.ot| == |l.pos| == |l.perm| == g.nvtxs == l.ntodo && l.nopen == 1
    requires |hist| == |m.degrees| == |m.wdegrees| == |m.sod| == |m.level| == g.nvtxs
    requires forall u :: g.IsVertex(u) ==>
      && l.perm[u] == -1 && hist[u] == []
      && m.degrees[u] == m.wdegrees[u] == m.sod[u] == m.level[u] == 0
      && l.ot[u] == l.pos[u] == (if u == 0 then root else if u == root then 0 else u)
    requires m.keys == map[root := 1]
    ensures Scored(g, kind, sqrt32, [], [], hist, l, m) && Restarted(hist, l)
  {
    forall u ensures l.Open(u) <==> u == root {}
  }

  /** The state in which the next vertex is chosen. */
  ghost predicate Ready(g: Graph, kind: int, sqrt32: int -> int, o: seq<int>, l: Lists, m: Marks)
    requires g.Valid()
  {
    var hist := History(g, o);
    && Scored(g, kind, sqrt32, o, o, hist, l, m)
    && (Keyed(g, kind, sqrt32, o, hist, l, m) || Restarted(hist, l))
    && Ordered(g.nvtxs, o, l.perm) && GreedySoFar(g, kind, sqrt32, o, l.perm)
    && l.ntodo == g.nvtxs - |o|
  }

  ghost function History(g: Graph, o: seq<int>): seq<seq<int>>
    requires g.Valid()
  {
    seq(g.nvtxs, u => Visits(g, o, u))
  }

  lemma HistoryAt(g: Graph, o: seq<int>)
    requires g.Valid()
    ensures |History(g, o)| == g.nvtxs && forall u :: g.IsVertex(u) ==> History(g, o)[u] == Visits(g, o, u)
  {
  }

  lemma IsHistory(g: Graph, o: seq<int>, hist: seq<seq<int>>)
    requires g.Valid() && |hist| == g.nvtxs && forall u :: g.IsVertex(u) ==> hist[u] == Visits(g, o, u)
    ensures hist == History(g, o)
  {
    hide Visits;
  }

  lemma ScoredSize(g: Graph, kind: int, sqrt32: int -> int, o: seq<int>, o4: seq<int>, hist: seq<seq<int>>, l: Lists,
                   m: Marks)
    requires g.Valid() && Scored(g, kind, sqrt32, o, o4, hist, l, m)
    ensures |hist| == |m.sod| == g.nvtxs
  {
  }

  /** After the arcs of v: everything is ready for the next choice. */
  lemma TurnDone(g: Graph, kind: int, sqrt32: int -> int, o: seq<int>, v: int, hist: seq<seq<int>>, l: Lists, m: Marks)
    requires
      var o4 := if kind == 4 then o + [v] else o;
      g.Valid() && Scored(g, kind, sqrt32, o + [v], o4, hist, l, m) && Keyed(g, kind, sqrt32, o4, hist, l, m)
    requires forall u :: g.IsVertex(u) ==> hist[u] == Visits(g, o + [v], u)
    requires Ordered(g.nvtxs, o + [v], l.perm) && GreedySoFar(g, kind, sqrt32, o + [v], l.perm)
    requires l.ntodo == g.nvtxs - |o| - 1
    ensures Ready(g, kind, sqrt32, o + [v], l, m)
  {
    hide Scored, Keyed, Visits, Ordered, GreedySoFar, History, Publishing;
    ScoredSize(g, kind, sqrt32, o + [v], if kind == 4 then o + [v] else o, hist, l, m);
    IsHistory(g, o + [v], hist);
    if kind != 4 {
      PublishDone(g, kind, sqrt32, o, v, hist, l, m, m);
    }
  }

  lemma ReadyFacts(g: Graph, kind: int, sqrt32: int -> int, o: seq<int>, l: Lists, m: Marks)
    requires g.Valid() && Ready(g, kind, sqrt32, o, l, m)
    ensures l.Valid(g.nvtxs) && |l.perm| == g.nvtxs && l.ntodo == g.nvtxs - |o|
    ensures forall u :: u in m.keys <==> l.Open(u)
    ensures forall u :: u in m.keys ==> g.IsVertex(u) && l.perm[u] == -1 && l.ot[l.pos[u]] == u && l.pos[u] < l.nopen
    ensures l.nopen > 0 ==> m.keys != map[]
  {
    if l.nopen > 0 {
      assert l.Open(l.ot[0]);
    }
  }

  /** The choice of v, up to the point where its arcs are looked at. */
  lemma ChooseStep(g: Graph, kind: int, sqrt32: int -> int, o: seq<int>, l: Lists, m: Marks, v: int, l': Lists)
    requires g.Valid() && Ready(g, kind, sqrt32, o, l, m)
    requires v in m.keys && forall u :: u in m.keys ==> m.keys[u] <= m.keys[v]
    requires l'.Valid(g.nvtxs) && l'.nopen == l.nopen - 1 && l'.perm == l.perm[v := |o|]
    requires forall u :: l'.Unclosed(u) <==> l.Unclosed(u) && u != v
    requires forall u :: l'.Open(u) <==> l.Open(u) && u != v
    ensures Scored(g, kind, sqrt32, o + [v], o, History(g, o), l', m.(keys := m.keys - {v}))
    ensures Keyed(g, kind, sqrt32, o, History(g, o), l', m.(keys := m.keys - {v}))
    ensures m.level[v] == Level(g, o, v) && !l'.Unclosed(v)
    ensures Ordered(g.nvtxs, o + [v], l'.perm) && GreedySoFar(g, kind, sqrt32, o + [v], l'.perm)
  {
    ReadyFacts(g, kind, sqrt32, o, l, m);
    hide Lists.Valid, Scored, Keyed, Restarted, NoWorse, GreedySoFar, Ordered, Visits, Level;
    var hist := History(g, o);
    assert l.Unclosed(v);
    PopStep(g, kind, sqrt32, o, hist, l, m, v, l');
    forall w | 0 <= w < g.nvtxs && l.perm[w] == -1 && w != v
      ensures NoWorse(g, kind, sqrt32, o, v, w)
    {
      PopIsGreedy(g, kind, sqrt32, o, hist, l, m, v, w);
    }
    GreedyStep(g, kind, sqrt32, o, l.perm, v);
  }

  /** One turn of the main loop: the open vertex of largest key becomes the i-th vertex. */
  method Step(g: Graph, kind: int, sqrt32: int -> int, ghost o: seq<int>, i: int,
              degrees: array<int>, wdegrees: array<int>, sod: array<int>, level: array<int>, ot: array<int>,
              pos: array<int>, perm: array<int>, queue: PQueue, nopen: int, ntodo: int)
    returns (nopen': int, ntodo': int, ghost v: int)
    requires g.Valid() && queue.Valid() && i == |o| && queue.locator.Length == g.nvtxs
    requires {degrees} !! {wdegrees} !! {sod} !! {level} !! {ot} !! {pos} !! {perm} !! {queue.locator}
    requires Ready(g, kind, sqrt32, o, Lists(ot[..], pos[..], perm[..], nopen, ntodo),
                   Marks(degrees[..], wdegrees[..], sod[..], level[..], queue.Keys()))
    requires nopen > 0
    modifies degrees, wdegrees, sod, level, ot, pos, perm, queue, queue.heap, queue.locator
    ensures queue.Valid() && g.IsVertex(v)
    ensures v in old(queue.Keys())
    ensures Ready(g, kind, sqrt32, o + [v], Lists(ot[..], pos[..], perm[..], nopen', ntodo'),
                  Marks(degrees[..], wdegrees[..], sod[..], level[..], queue.Keys()))
  {
    hide Lists.Valid, Scored, Keyed, Restarted, NoWorse, GreedySoFar, Ordered, Visits, Level, Ready, History,
      PQueue.Valid, PQueue.Keys, Graph.Valid;
    ghost var l := Lists(ot[..], pos[..], perm[..], nopen, ntodo);
    ghost var m := Marks(degrees[..], wdegrees[..], sod[..], level[..], queue.Keys());
    ReadyFacts(g, kind, sqrt32, o, l, m);
    var u := queue.GetTop();
    v := u;
    if u == -1 {
      assert false;  // the priority queue got empty ahead of time
    }
    if perm[u] != -1 {
      assert false;  // perm[u] has already been set
    }
    if ot[pos[u]] != u || pos[u] >= nopen {
      assert false;  // u is not in the open list
    }
    nopen', ntodo' := CloseVertex(g.nvtxs, u, i, ot, pos, perm, nopen, ntodo);
    ghost var l' := Lists(ot[..], pos[..], perm[..], nopen', ntodo');
    ChooseStep(g, kind, sqrt32, o, l, m, u, l');
    HistoryAt(g, o);
    ghost var hist := History(g, o);
    nopen', hist := VisitArcs(g, kind, sqrt32, o, u, degrees, wdegrees, level, ot, pos, perm, queue, nopen', ntodo',
                              sod[..], hist, i);
    if kind == 4 {
      Publish(g, sqrt32, o, u, degrees, sod, ot, pos, perm, queue, nopen', ntodo', wdegrees[..], level[..], hist, i);
    }
    TurnDone(g, kind, sqrt32, o, u, hist, Lists(ot[..], pos[..], perm[..], nopen', ntodo'),
             Marks(degrees[..], wdegrees[..], sod[..], level[..], queue.Keys()));
  }

  lemma ReadyAtStart(g: Graph, kind: int, sqrt32: int -> int, root: int, l: Lists, m: Marks)
    requires g.Valid() && g.IsVertex(root)
    requires l == Lists(Fronted(g.nvtxs, root), Fronted(g.nvtxs, root), seq(g.nvtxs, _ => -1), 1, g.nvtxs)
    requires m.degrees == m.wdegrees == m.sod == m.level == seq(g.nvtxs, _ => 0)
    requires m.keys == map[root := 1]
    ensures Ready(g, kind, sqrt32, [], l, m)
  {
    hide Scored, Keyed, Restarted;
    HistoryAt(g, []);
    StartState(g, kind, sqrt32, root, History(g, []), l, m);
  }

  lemma ReadyRestart(g: Graph, kind: int, sqrt32: int -> int, o: seq<int>, l: Lists, m: Marks, u: int)
    requires g.Valid() && Ready(g, kind, sqrt32, o, l, m)
    requires l.nopen == 0 && l.ntodo > 0 && |l.ot| > 0 && u == l.ot[0]
    ensures g.IsVertex(u) && u !in m.keys
    ensures Ready(g, kind, sqrt32, o, l.(nopen := 1), m.(keys := m.keys[u := 1]))
  {
    hide Keyed, Restarted;
    ReadyFacts(g, kind, sqrt32, o, l, m);
    Restart(g, kind, sqrt32, o, History(g, o), l, m, u);
  }

  lemma ReadyDone(g: Graph, kind: int, sqrt32: int -> int, o: seq<int>, l: Lists, m: Marks)
    requires g.Valid() && Ready(g, kind, sqrt32, o, l, m) && |o| == g.nvtxs
    ensures |l.perm| == g.nvtxs && Inverse(l.perm, o)
    ensures Greedy(g, kind, sqrt32, o)
  {
    hide NoWorse, Scored, Keyed, Restarted;
    ReadyFacts(g, kind, sqrt32, o, l, m);
    forall u | 0 <= u < g.nvtxs
      ensures l.perm[u] != -1
    {
      if l.perm[u] == -1 {
        assert false;
      }
    }
    AllClosed(g, kind, sqrt32, o, l.perm);
  }

  /** The main loop, from the state with only root queued. */
  method Traverse(g: Graph, root: int, kind: int, sqrt32: int -> int,
                  degrees: array<int>, wdegrees: array<int>, sod: array<int>, level: array<int>, ot: array<int>,
                  pos: array<int>, perm: array<int>, queue: PQueue)
    returns (ghost order: seq<int>)
    requires g.Valid() && g.IsVertex(root) && queue.Valid() && queue.locator.Length == g.nvtxs
    requires {degrees} !! {wdegrees} !! {sod} !! {level} !! {ot} !! {pos} !! {perm} !! {queue.locator}
    requires degrees[..] == wdegrees[..] == sod[..] == level[..] == seq(g.nvtxs, _ => 0)
    requires ot[..] == pos[..] == Fronted(g.nvtxs, root) && perm[..] == seq(g.nvtxs, _ => -1)
    requires queue.Keys() == map[root := 1]
    modifies degrees, wdegrees, sod, level, ot, pos, perm, queue, queue.heap, queue.locator
    ensures |order| == perm.Length == g.nvtxs && Inverse(perm[..], order)
    ensures order[0] == root && Greedy(g, kind, sqrt32, order)
  {
    hide Lists.Valid, Scored, Keyed, Restarted, NoWorse, GreedySoFar, Visits, Level, Ready, Ordered, Greedy, Inverse,
         Fronted,
      PQueue.Valid, PQueue.Keys, Graph.Valid;
    var nopen, ntodo := 1, g.nvtxs;
    order := [];
    ReadyAtStart(g, kind, sqrt32, root, Lists(ot[..], pos[..], perm[..], nopen, ntodo),
                 Marks(degrees[..], wdegrees[..], sod[..], level[..], queue.Keys()));
    for i := 0 to g.nvtxs
      invariant queue.Valid() && |order| == i
      invariant Ready(g, kind, sqrt32, order, Lists(ot[..], pos[..], perm[..], nopen, ntodo),
                      Marks(degrees[..], wdegrees[..], sod[..], level[..], queue.Keys()))
      invariant if i == 0 then nopen == 1 && queue.Keys() == map[root := 1] else order[0] == root
    {
      ReadyFacts(g, kind, sqrt32, order, Lists(ot[..], pos[..], perm[..], nopen, ntodo),
                 Marks(degrees[..], wdegrees[..], sod[..], level[..], queue.Keys()));
      if nopen == 0 {
        ReadyRestart(g, kind, sqrt32, order, Lists(ot[..], pos[..], perm[..], nopen, ntodo),
                     Marks(degrees[..], wdegrees[..], sod[..], level[..], queue.Keys()), ot[0]);
        queue.Insert(ot[0], 1);
        nopen := nopen + 1;
      }
      ghost var v;
      nopen, ntodo, v := Step(g, kind, sqrt32, order, i, degrees, wdegrees, sod, level, ot, pos, perm, queue, nopen,
                              ntodo);
      order := order + [v];
    }
    ReadyDone(g, kind, sqrt32, order, Lists(ot[..], pos[..], perm[..], nopen, ntodo),
              Marks(degrees[..], wdegrees[..], sod[..], level[..], queue.Keys()));
  }

  method Zeros(n: nat) returns (degrees: array<int>, wdegrees: array<int>, sod: array<int>, level: array<int>)
    ensures fresh(degrees) && fresh(wdegrees) && fresh(sod) && fresh(level)
    ensures {degrees} !! {wdegrees} !! {sod} !! {level}
    ensures degrees[..] == wdegrees[..] == sod[..] == level[..] == seq(n, _ => 0)
  {
    degrees := Filled(n, 0);
    wdegrees := Filled(n, 0);
    sod := Filled(n, 0);
    level := Filled(n, 0);
  }

  /** The ordering of a graph with vertices. */
  method Order(g: Graph, root: int, kind: int, sqrt32: int -> int)
    returns (perm: array<int>, iperm: array<int>)
    requires g.Valid() && g.IsVertex(root)
    ensures fresh(perm) && fresh(iperm) && perm.Length == iperm.Length == g.nvtxs
    ensures Inverse(perm[..], iperm[..])
    ensures iperm[0] == root && Greedy(g, kind, sqrt32, iperm[..])
  {
    hide Lists.Valid, Scored, Keyed, Restarted, NoWorse, GreedySoFar, Visits, Level, Ready, Ordered, Greedy, Inverse,
         Fronted,
      PQueue.Valid, PQueue.Keys, Graph.Valid;
    var n := g.nvtxs;
    var degrees, wdegrees, sod, level := Zeros(n);
    perm := Filled(n, -1);
    var queue := new PQueue(n);
    queue.Insert(root, 1);
    var ot, pos := FrontFirst(n, root);
    ghost var order := Traverse(g, root, kind, sqrt32, degrees, wdegrees, sod, level, ot, pos, perm, queue);
    iperm := degrees;
    InvertInto(n, order, perm, iperm);
  }

  /** gk_graph_ComputeBestFOrdering; an empty graph has no result. */
  method ComputeBestFOrdering(g: Graph, root: int, kind: int, sqrt32: int -> int)
    returns (perm: array?<int>, iperm: array?<int>)
    requires g.nvtxs > 0 ==> g.Valid() && g.IsVertex(root)
    ensures g.nvtxs <= 0 ==> perm == null && iperm == null
    ensures g.nvtxs > 0 ==> perm != null && iperm != null && fresh(perm) && fresh(iperm)
    ensures g.nvtxs > 0 ==> perm.Length == iperm.Length == g.nvtxs && Inverse(perm[..], iperm[..])
    ensures g.nvtxs > 0 ==> iperm[0] == root && Greedy(g, kind, sqrt32, iperm[..])
  {
    hide Greedy, Inverse;
    if g.nvtxs <= 0 {
      return null, null;
    }
    perm, iperm := Order(g, root, kind, sqrt32);
  }
}
