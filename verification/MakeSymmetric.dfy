/** gk_graph_MakeSymmetric (src/graph.c) on integer weights: every arc is combined with the arc of the
    same rank in the other direction, found through linked lists over a scratch row. */
module MakeSymmetric {
  import opened Arrays
  import opened Csr
  import opened Graphs
  import opened Picks
  import Transpose
  import opened Sizes

  datatype Op = SUM | MIN | MAX | AVG

  // ----- The result, arc list by arc list -----

  /** The weights of the arcs from i to j, in the order of row i. */
  ghost function Out(g: Graph, i: int, j: int): seq<int>
    requires g.Valid() && g.Weighted() && g.IsVertex(i)
  {
    Pick(g.adjncy, g.iadjwgt, g.xadj[i], g.xadj[i + 1], j)
  }

  /** Division by two as C does it, towards zero. */
  function Half(x: int): int
  {
    if x >= 0 then x / 2 else -(-x / 2)
  }

  function Both(op: Op, a: int, b: int): int
  {
    match op
    case SUM => a + b
    case MIN => if a < b then a else b
    case MAX => if a > b then a else b
    case AVG => Half(a + b)
  }

  /** What becomes of arcs without a partner. */
  ghost function Single(op: Op, a: seq<int>): seq<int>
  {
    match op
    case MIN => []
    case AVG => seq(|a|, x requires 0 <= x < |a| => Half(a[x]))
    case _ => a
  }

  ghost function Paired(op: Op, a: seq<int>, b: seq<int>): seq<int>
  {
    seq(if |a| < |b| then |a| else |b|, x requires 0 <= x < |a| && x < |b| => Both(op, a[x], b[x]))
  }

  /** The k-th arc one way with the k-th arc the other way, then whatever is left over. */
  ghost function Combine(op: Op, a: seq<int>, b: seq<int>): seq<int>
  {
    Paired(op, a, b) + if |a| < |b| then Single(op, b[|a|..]) else Single(op, a[|b|..])
  }

  lemma CombineSymmetric(op: Op, a: seq<int>, b: seq<int>)
    ensures Combine(op, a, b) == Combine(op, b, a)
  {
    assert Paired(op, a, b) == Paired(op, b, a);
    if |a| == |b| {
      assert a[|b|..] == b[|a|..] == [];
    }
  }

  /** No sum of two partners leaves the range of int32_t. */
  ghost predicate Fits(op: Op, a: seq<int>, b: seq<int>)
  {
    op == SUM ==> forall x :: 0 <= x < |a| && x < |b| ==> INT32_MIN <= a[x] + b[x] <= INT32_MAX
  }

  // ----- The column view -----

  /** The in-arcs of i that come from j, in column order, are the arcs from j to i, in row order. */
  lemma ColumnIsReverse(g: Graph, colptr: seq<int>, colind: seq<int>, colval: seq<int>, i: int, j: int)
    requires g.Valid() && g.Weighted() && g.IsVertex(i) && g.IsVertex(j)
    requires ValidCsr(g.nvtxs, g.nvtxs, g.xadj, g.adjncy) && ValidCsr(g.nvtxs, g.nvtxs, colptr, colind)
    requires IsIndex(g.nvtxs, g.nvtxs, g.xadj, g.adjncy, colptr, colind)
    requires |colval| == |g.adjncy| && ValuesUpTo(g.adjncy, g.iadjwgt, colval, |g.adjncy|)
    ensures Pick(colind, colval, colptr[i], colptr[i + 1], j) == Out(g, j, i)
  {
    ColumnPicksRow(g.nvtxs, g.nvtxs, g.xadj, g.adjncy, g.iadjwgt, colptr, colind, colval, i, j);
  }

  // ----- The scratch row -----

  /** The arrays that hold one row while it is being combined. */
  datatype Row = Row(marker: seq<int>, last: seq<int>, next: seq<int>, ids: seq<int>, wgts: seq<int>)

  ghost function At1(p: seq<int>, k: int): int
  {
    if 0 <= k < |p| then p[k] else -1
  }

  /** The list that starts at first and ends at last visits the positions p in order. */
  ghost predicate Threaded(p: seq<int>, first: int, last: int, next: seq<int>)
  {
    && first == At1(p, 0) && last == At1(p, |p| - 1)
    && forall k :: 0 <= k < |p| ==> 0 <= p[k] < |next| && next[p[k]] == At1(p, k + 1)
  }

  lemma ThreadAppend(p: seq<int>, first: int, last: int, next: seq<int>, n: int, next': seq<int>)
    requires Threaded(p, first, last, next) && 0 <= n < |next|
    requires forall k :: 0 <= k < |p| ==> p[k] < n
    requires forall k, l :: 0 <= k < l < |p| ==> p[k] < p[l]
    requires first == -1 || 0 <= last < |next|
    requires next' == (if first == -1 then next else next[last := n])[n := -1]
    ensures Threaded(p + [n], if first == -1 then n else first, n, next')
  {
    assert p == [] <==> first == -1;
  }

  lemma ThreadKept(p: seq<int>, first: int, last: int, next: seq<int>, next': seq<int>)
    requires Threaded(p, first, last, next) && |next'| == |next|
    requires forall k :: 0 <= k < |p| ==> next'[p[k]] == next[p[k]]
    ensures Threaded(p, first, last, next')
  {
  }

  /** The lists after n out-arcs: one for every target. */
  ghost predicate Linked(ids0: seq<int>, n: int, r: Row)
    requires 0 <= n <= |ids0|
  {
    && |r.marker| == |r.last|
    && forall t :: 0 <= t < |r.marker| ==> Threaded(Positions(ids0, 0, n, t), r.marker[t], r.last[t], r.next)
  }

  lemma LinkStep(ids0: seq<int>, n: int, r: Row, r': Row)
    requires 0 <= n < |ids0| && n < |r.next| && Linked(ids0, n, r) && 0 <= ids0[n] < |r.marker|
    requires
      var u := ids0[n];
      && (r.marker[u] == -1 || 0 <= r.last[u] < |r.next|)
      && r'.marker == (if r.marker[u] == -1 then r.marker[u := n] else r.marker)
      && r'.next == (if r.marker[u] == -1 then r.next else r.next[r.last[u] := n])[n := -1]
      && r'.last == r.last[u := n]
    ensures Linked(ids0, n + 1, r')
  {
    hide Threaded, At1;
    var u := ids0[n];
    forall t | 0 <= t < |r'.marker|
      ensures Threaded(Positions(ids0, 0, n + 1, t), r'.marker[t], r'.last[t], r'.next)
    {
      var p := Positions(ids0, 0, n, t);
      PositionsFacts(ids0, 0, n, t);
      assert Positions(ids0, 0, n + 1, t) == if t == u then p + [n] else p;
      if t == u {
        ThreadAppend(p, r.marker[t], r.last[t], r.next, n, r'.next);
      } else {
        PositionsFacts(ids0, 0, n, u);
        LastOf(ids0, n, r, u);
        ThreadKept(p, r.marker[t], r.last[t], r.next, r'.next);
      }
    }
  }

  /** A non-empty list ends at an arc with its target. */
  lemma LastOf(ids0: seq<int>, n: int, r: Row, u: int)
    requires 0 <= n <= |ids0| && Linked(ids0, n, r) && 0 <= u < |r.marker|
    ensures r.marker[u] != -1 ==> 0 <= r.last[u] < n && r.last[u] < |r.next| && ids0[r.last[u]] == u
    ensures r.marker[u] == -1 <==> Positions(ids0, 0, n, u) == []
  {
    PositionsFacts(ids0, 0, n, u);
  }

  // ----- Matching in-arcs -----

  /** The k-th out-arc to a target after the in-arcs b from there have been handled. */
  ghost function Weight(op: Op, a: seq<int>, b: seq<int>, k: int): int
    requires 0 <= k < |a|
  {
    if k < |b| then Both(op, a[k], b[k]) else a[k]
  }

  /** Target t after the in-arcs b: the first |b| of its out-arcs, at positions p with weights a, are
      combined and marked, and the in-arcs beyond them stand after position nout. */
  ghost predicate Matched(op: Op, p: seq<int>, a: seq<int>, b: seq<int>, first: int, next: seq<int>, wgts: seq<int>)
    requires |p| == |a|
  {
    && first == At1(p, |b|)
    && forall k :: 0 <= k < |p| ==>
         && 0 <= p[k] < |next| && p[k] < |wgts|
         && next[p[k]] == (if k < |b| then -2 else At1(p, k + 1))
         && wgts[p[k]] == Weight(op, a, b, k)
  }

  ghost function Extra(op: Op, p: seq<int>, b: seq<int>): seq<int>
  {
    if |b| <= |p| then [] else Single(op, b[|p|..])
  }

  lemma MatchPartner(op: Op, p: seq<int>, a: seq<int>, b: seq<int>, first: int, next: seq<int>, wgts: seq<int>, v: int)
    requires |p| == |a| && Matched(op, p, a, b, first, next, wgts) && first != -1
    requires forall k, l :: 0 <= k < l < |p| ==> p[k] < p[l]
    ensures |b| < |p| && 0 <= first < |next| && first < |wgts| && first == p[|b|]
    ensures wgts[first] == a[|b|] && next[first] == At1(p, |b| + 1)
    ensures Matched(op, p, a, b + [v], next[first], next[first := -2], wgts[first := Both(op, a[|b|], v)])
    ensures Extra(op, p, b + [v]) == Extra(op, p, b)
  {
    forall k | 0 <= k < |p|
      ensures Weight(op, a, b + [v], k) == if k == |b| then Both(op, a[|b|], v) else Weight(op, a, b, k)
    {
    }
  }

  lemma MatchNone(op: Op, p: seq<int>, a: seq<int>, b: seq<int>, first: int, next: seq<int>, wgts: seq<int>, v: int)
    requires |p| == |a| && Matched(op, p, a, b, first, next, wgts) && first == -1
    requires forall k :: 0 <= k < |p| ==> 0 <= p[k]
    ensures |p| <= |b| && Matched(op, p, a, b + [v], first, next, wgts)
    ensures Extra(op, p, b + [v]) == Extra(op, p, b) + Single(op, [v])
  {
    assert (b + [v])[|p|..] == b[|p|..] + [v];
    forall k | 0 <= k < |p|
      ensures Weight(op, a, b + [v], k) == Weight(op, a, b, k)
    {
    }
  }

  lemma MatchKept(op: Op, p: seq<int>, a: seq<int>, b: seq<int>, first: int, next: seq<int>, wgts: seq<int>,
                  next': seq<int>, wgts': seq<int>)
    requires |p| == |a| && Matched(op, p, a, b, first, next, wgts) && |next'| == |next| && |wgts'| == |wgts|
    requires forall k :: 0 <= k < |p| ==> next'[p[k]] == next[p[k]] && wgts'[p[k]] == wgts[p[k]]
    ensures Matched(op, p, a, b, first, next', wgts')
  {
  }

  /** All targets after the in-arcs lo..j of the column view. */
  ghost predicate AllMatched(op: Op, ids0: seq<int>, w0: seq<int>, cind: seq<int>, cval: seq<int>, lo: int, j: int,
                             r: Row, nadj: int)
    requires |ids0| == |w0| && 0 <= lo <= j <= |cind| && j <= |cval|
  {
    && |ids0| <= nadj <= |r.ids| && nadj <= |r.wgts|
    && r.ids[..|ids0|] == ids0
    && forall t :: 0 <= t < |r.marker| ==> MatchedAt(op, ids0, w0, Pick(cind, cval, lo, j, t), r, nadj, t)
  }

  ghost predicate MatchedAt(op: Op, ids0: seq<int>, w0: seq<int>, b: seq<int>, r: Row, nadj: int, t: int)
    requires |ids0| == |w0| && 0 <= t < |r.marker| && |ids0| <= nadj <= |r.ids| && nadj <= |r.wgts|
  {
    var p := Positions(ids0, 0, |ids0|, t);
    && Matched(op, p, Pick(ids0, w0, 0, |ids0|, t), b, r.marker[t], r.next, r.wgts)
    && Pick(r.ids, r.wgts, |ids0|, nadj, t) == Extra(op, p, b)
  }

  /** An in-arc from u with weight v that has a partner. */
  lemma PartnerStep(op: Op, ids0: seq<int>, w0: seq<int>, b: seq<int>, r: Row, nadj: int, u: int, v: int, r': Row,
                    t: int, b': seq<int>)
    requires |ids0| == |w0| && 0 <= u < |r.marker| && 0 <= t < |r.marker| && |ids0| <= nadj <= |r.ids|
             && nadj <= |r.wgts|
    requires r.marker[u] != -1 && MatchedAt(op, ids0, w0, b, r, nadj, t)
    requires t == u || exists bu :: MatchedAt(op, ids0, w0, bu, r, nadj, u)
    requires b' == if t == u then b + [v] else b
    requires 0 <= r.marker[u] < |r.next| && r.marker[u] < |ids0| && ids0[r.marker[u]] == u
    requires
      var q := r.marker[u];
      r' == r.(marker := r.marker[u := r.next[q]], next := r.next[q := -2], wgts := r.wgts[q := Both(op, r.wgts[q], v)])
    ensures MatchedAt(op, ids0, w0, b', r', nadj, t)
  {
    var p := Positions(ids0, 0, |ids0|, t);
    PositionsFacts(ids0, 0, |ids0|, t);
    PickElsewhere(r.ids, r.wgts, r'.wgts, |ids0|, nadj, t);
    if t == u {
      MatchPartner(op, p, Pick(ids0, w0, 0, |ids0|, t), b, r.marker[t], r.next, r.wgts, v);
    } else {
      MatchKept(op, p, Pick(ids0, w0, 0, |ids0|, t), b, r.marker[t], r.next, r.wgts, r'.next, r'.wgts);
    }
  }

  lemma PickElsewhere(ind: seq<int>, val: seq<int>, val': seq<int>, lo: int, hi: int, t: int)
    requires 0 <= lo <= hi <= |ind| && hi <= |val| == |val'|
    requires forall x :: lo <= x < hi ==> val'[x] == val[x]
    ensures Pick(ind, val', lo, hi, t) == Pick(ind, val, lo, hi, t)
  {
    PickDepends(ind, val, lo, hi, ind, val', lo, hi, t);
  }

  /** The partner of an in-arc is an out-arc to the same vertex. */
  lemma PartnerPosition(op: Op, ids0: seq<int>, w0: seq<int>, b: seq<int>, r: Row, nadj: int, u: int)
    requires |ids0| == |w0| && 0 <= u < |r.marker| && |ids0| <= nadj <= |r.ids| && nadj <= |r.wgts|
    requires MatchedAt(op, ids0, w0, b, r, nadj, u)
    ensures r.marker[u] != -1 <==> |b| < |Pick(ids0, w0, 0, |ids0|, u)|
    ensures r.marker[u] != -1 ==>
      && 0 <= r.marker[u] < |r.next| && r.marker[u] < |ids0| && ids0[r.marker[u]] == u
      && r.wgts[r.marker[u]] == Pick(ids0, w0, 0, |ids0|, u)[|b|]
  {
    PositionsFacts(ids0, 0, |ids0|, u);
  }

  /** An in-arc without a partner: it goes to the end of the row, or is dropped. */
  lemma LonelyStep(op: Op, ids0: seq<int>, w0: seq<int>, b: seq<int>, r: Row, nadj: int, u: int, v: int, r': Row,
                   nadj': int, t: int, b': seq<int>)
    requires |ids0| == |w0| && 0 <= u < |r.marker| && 0 <= t < |r.marker| && |ids0| <= nadj <= |r.ids|
             && nadj <= |r.wgts|
    requires r.marker[u] == -1 && MatchedAt(op, ids0, w0, b, r, nadj, t)
    requires b' == if t == u then b + [v] else b
    requires if op == MIN then r' == r && nadj' == nadj else
      && nadj < |r.ids| && nadj < |r.wgts| && nadj' == nadj + 1
      && r' == r.(ids := r.ids[nadj := u], wgts := r.wgts[nadj := if op == AVG then Half(v) else v])
    ensures MatchedAt(op, ids0, w0, b', r', nadj', t)
  {
    hide Matched, Extra, Single;
    var p := Positions(ids0, 0, |ids0|, t);
    var a := Pick(ids0, w0, 0, |ids0|, t);
    PositionsFacts(ids0, 0, |ids0|, t);
    LonelyRow(op, r, |ids0|, nadj, u, v, r', nadj', t);
    LonelyKept(op, p, a, b, r, nadj, r', |ids0|, t);
    if t == u {
      MatchNone(op, p, a, b, r.marker[t], r'.next, r'.wgts, v);
    }
  }

  lemma LonelyKept(op: Op, p: seq<int>, a: seq<int>, b: seq<int>, r: Row, nadj: int, r': Row, nout: int, t: int)
    requires |p| == |a| && 0 <= t < |r.marker| && Matched(op, p, a, b, r.marker[t], r.next, r.wgts)
    requires forall k :: 0 <= k < |p| ==> p[k] < nout
    requires r'.next == r.next && |r'.wgts| == |r.wgts| && nout <= nadj
    requires forall x :: 0 <= x < |r.wgts| && x != nadj ==> r'.wgts[x] == r.wgts[x]
    ensures Matched(op, p, a, b, r.marker[t], r'.next, r'.wgts)
  {
  }

  lemma LonelyRow(op: Op, r: Row, nout: int, nadj: int, u: int, v: int, r': Row, nadj': int, t: int)
    requires 0 <= nout <= nadj <= |r.ids| && nadj <= |r.wgts|
    requires if op == MIN then r' == r && nadj' == nadj else
      && nadj < |r.ids| && nadj < |r.wgts| && nadj' == nadj + 1
      && r' == r.(ids := r.ids[nadj := u], wgts := r.wgts[nadj := if op == AVG then Half(v) else v])
    ensures nadj' <= |r'.ids| && nadj' <= |r'.wgts|
    ensures Pick(r'.ids, r'.wgts, nout, nadj', t) ==
      Pick(r.ids, r.wgts, nout, nadj, t) + if t == u then Single(op, [v]) else []
  {
    if op != MIN {
      PickDepends(r.ids, r.wgts, nout, nadj, r'.ids, r'.wgts, nout, nadj, t);
    }
  }

  // ----- The program, one row at a time -----

  /** Copies the out-arcs of a row to the scratch row and threads the lists. */
  method OutArcs(n: int, ids0: seq<int>, w0: seq<int>, marker: array<int>, last: array<int>, next: array<int>,
                 ids: array<int>, wgts: array<int>)
    requires {marker} !! {last} !! {next} !! {ids} !! {wgts}
    requires |ids0| == |w0| <= next.Length == ids.Length == wgts.Length && marker.Length == last.Length == n
    requires forall x :: 0 <= x < |ids0| ==> 0 <= ids0[x] < n
    requires forall t :: 0 <= t < n ==> marker[t] == -1 && last[t] == -1
    modifies marker, last, next, ids, wgts
    ensures ids[..|ids0|] == ids0 && wgts[..|ids0|] == w0
    ensures Linked(ids0, |ids0|, Row(marker[..], last[..], next[..], ids[..], wgts[..]))
    ensures forall t :: 0 <= t < n && t !in ids0 ==> marker[t] == -1 && last[t] == -1
  {
    hide Linked;
    NothingLinked(ids0, Row(marker[..], last[..], next[..], ids[..], wgts[..]));
    for x := 0 to |ids0|
      invariant ids[..x] == ids0[..x] && wgts[..x] == w0[..x]
      invariant Linked(ids0, x, Row(marker[..], last[..], next[..], ids[..], wgts[..]))
      invariant forall t :: 0 <= t < n && t !in ids0 ==> marker[t] == -1 && last[t] == -1
    {
      var u := ids0[x];
      LastOf(ids0, x, Row(marker[..], last[..], next[..], ids[..], wgts[..]), u);
      ghost var r := Row(marker[..], last[..], next[..], ids[..], wgts[..]);
      ids[x] := u;
      wgts[x] := w0[x];
      if marker[u] == -1 {
        marker[u] := x;
      } else {
        next[last[u]] := x;
      }
      last[u] := x;
      next[x] := -1;
      LinkStep(ids0, x, r, Row(marker[..], last[..], next[..], ids[..], wgts[..]));
    }
  }

  lemma NothingLinked(ids0: seq<int>, r: Row)
    requires |r.marker| == |r.last| && forall t :: 0 <= t < |r.marker| ==> r.marker[t] == -1 && r.last[t] == -1
    ensures Linked(ids0, 0, r)
  {
  }

  lemma NothingMatched(op: Op, ids0: seq<int>, w0: seq<int>, cind: seq<int>, cval: seq<int>, lo: int, r: Row)
    requires |ids0| == |w0| <= |r.ids| && |ids0| <= |r.wgts| && |ids0| <= |r.next|
    requires 0 <= lo <= |cind| && lo <= |cval|
    requires r.ids[..|ids0|] == ids0 && r.wgts[..|ids0|] == w0 && Linked(ids0, |ids0|, r)
    ensures AllMatched(op, ids0, w0, cind, cval, lo, lo, r, |ids0|)
  {
    hide Threaded, MatchedAt, Pick, Positions;
    forall t | 0 <= t < |r.marker|
      ensures MatchedAt(op, ids0, w0, Pick(cind, cval, lo, lo, t), r, |ids0|, t)
    {
      PickNone(cind, cval, lo, t);
      assert Threaded(Positions(ids0, 0, |ids0|, t), r.marker[t], r.last[t], r.next);
      UnmatchedAt(op, ids0, w0, r, t);
    }
  }

  /** Before the first in-arc every list holds all out-arcs to its target. */
  lemma UnmatchedAt(op: Op, ids0: seq<int>, w0: seq<int>, r: Row, t: int)
    requires |ids0| == |w0| <= |r.ids| && |ids0| <= |r.wgts| && 0 <= t < |r.marker| == |r.last|
    requires r.wgts[..|ids0|] == w0
    requires Threaded(Positions(ids0, 0, |ids0|, t), r.marker[t], r.last[t], r.next)
    ensures MatchedAt(op, ids0, w0, [], r, |ids0|, t)
  {
    var p := Positions(ids0, 0, |ids0|, t);
    PositionsFacts(ids0, 0, |ids0|, t);
    PickIsValues(ids0, w0, 0, |ids0|, t);
    PickNone(r.ids, r.wgts, |ids0|, t);
    hide Pick, Positions;
    forall k | 0 <= k < |p|
      ensures r.wgts[p[k]] == w0[p[k]]
    {
      assert r.wgts[..|ids0|][p[k]] == w0[p[k]];
    }
    ThreadedMatches(op, p, Pick(ids0, w0, 0, |ids0|, t), r.marker[t], r.last[t], r.next, r.wgts);
    hide Matched;
  }

  lemma ThreadedMatches(op: Op, p: seq<int>, a: seq<int>, first: int, last: int, next: seq<int>, wgts: seq<int>)
    requires |p| == |a| && Threaded(p, first, last, next)
    requires forall k :: 0 <= k < |p| ==> p[k] < |wgts| && (p[k] >= 0 ==> wgts[p[k]] == a[k])
    ensures Matched(op, p, a, [], first, next, wgts)
  {
  }

  /** One in-arc, from u with weight v: the turn from the first j in-arcs to j + 1. */
  lemma InArcStep(op: Op, ids0: seq<int>, w0: seq<int>, cind: seq<int>, cval: seq<int>, lo: int, j: int,
                  r: Row, nadj: int, r': Row, nadj': int)
    requires |ids0| == |w0| && 0 <= lo <= j < |cind| && j < |cval| && 0 <= cind[j] < |r.marker|
    requires AllMatched(op, ids0, w0, cind, cval, lo, j, r, nadj)
    requires
      var u, v := cind[j], cval[j];
      var q := r.marker[u];
      if q == -1 then
        if op == MIN then r' == r && nadj' == nadj else
          && nadj < |r.ids| && nadj < |r.wgts| && nadj' == nadj + 1
          && r' == r.(ids := r.ids[nadj := u], wgts := r.wgts[nadj := if op == AVG then Half(v) else v])
      else
        && 0 <= q < |r.next| && q < |r.wgts| && nadj' == nadj
        && r' == r.(marker := r.marker[u := r.next[q]], next := r.next[q := -2],
                    wgts := r.wgts[q := Both(op, r.wgts[q], v)])
    ensures AllMatched(op, ids0, w0, cind, cval, lo, j + 1, r', nadj')
  {
    hide Both, Half, MatchedAt, Pick;
    var u, v := cind[j], cval[j];
    var j' := j + 1;
    assert MatchedAt(op, ids0, w0, Pick(cind, cval, lo, j, u), r, nadj, u);
    PartnerPosition(op, ids0, w0, Pick(cind, cval, lo, j, u), r, nadj, u);
    forall t | 0 <= t < |r'.marker|
      ensures MatchedAt(op, ids0, w0, Pick(cind, cval, lo, j', t), r', nadj', t)
    {
      var b := Pick(cind, cval, lo, j, t);
      assert MatchedAt(op, ids0, w0, b, r, nadj, t);
      PickStep(cind, cval, lo, j, t);
      if r.marker[u] == -1 {
        LonelyStep(op, ids0, w0, b, r, nadj, u, v, r', nadj', t, Pick(cind, cval, lo, j', t));
      } else {
        PartnerStep(op, ids0, w0, b, r, nadj, u, v, r', t, Pick(cind, cval, lo, j', t));
      }
    }
  }

  lemma PickStep(ind: seq<int>, val: seq<int>, lo: int, j: int, t: int)
    requires 0 <= lo <= j < |ind| && j < |val|
    ensures Pick(ind, val, lo, j + 1, t) ==
      if t == ind[j] then Pick(ind, val, lo, j, t) + [val[j]] else Pick(ind, val, lo, j, t)
  {
  }

  lemma PartnerOf(op: Op, ids0: seq<int>, w0: seq<int>, cind: seq<int>, cval: seq<int>, lo: int, j: int,
                  r: Row, nadj: int, u: int)
    requires |ids0| == |w0| && 0 <= lo <= j <= |cind| && j <= |cval| && 0 <= u < |r.marker|
    requires AllMatched(op, ids0, w0, cind, cval, lo, j, r, nadj)
    ensures
      var a, b := Pick(ids0, w0, 0, |ids0|, u), Pick(cind, cval, lo, j, u);
      if r.marker[u] == -1 then |a| <= |b| else
        && |b| < |a| && 0 <= r.marker[u] < |r.next| && r.marker[u] < |r.wgts| && r.wgts[r.marker[u]] == a[|b|]
        && u in ids0
  {
    assert MatchedAt(op, ids0, w0, Pick(cind, cval, lo, j, u), r, nadj, u);
    PartnerPosition(op, ids0, w0, Pick(cind, cval, lo, j, u), r, nadj, u);
  }

  lemma FitsStep(op: Op, ids0: seq<int>, w0: seq<int>, n: int, cind: seq<int>, cval: seq<int>, lo: int, j: int)
    requires |ids0| == |w0| && 0 <= lo <= j < |cind| && j < |cval|
    requires forall t :: 0 <= t < n ==> Fits(op, Pick(ids0, w0, 0, |ids0|, t), Pick(cind, cval, lo, j, t))
    requires
      var a, b := Pick(ids0, w0, 0, |ids0|, cind[j]), Pick(cind, cval, lo, j, cind[j]);
      op == SUM && |b| < |a| ==> INT32_MIN <= a[|b|] + cval[j] <= INT32_MAX
    ensures
      var j' := j + 1;
      forall t :: 0 <= t < n ==> Fits(op, Pick(ids0, w0, 0, |ids0|, t), Pick(cind, cval, lo, j', t))
  {
  }

  /** The sum that overflows belongs to the whole arc lists. */
  lemma SumOverflows(op: Op, a: seq<int>, cind: seq<int>, cval: seq<int>, lo: int, j: int, hi: int)
    requires 0 <= lo <= j < hi <= |cind| && hi <= |cval| && op == SUM
    requires
      var b := Pick(cind, cval, lo, j, cind[j]);
      |b| < |a| && !(INT32_MIN <= a[|b|] + cval[j] <= INT32_MAX)
    ensures !Fits(op, a, Pick(cind, cval, lo, hi, cind[j]))
  {
    hide Pick;
    PickSplit(cind, cval, lo, j + 1, hi, cind[j]);
    PickNext(cind, cval, lo, j);
    var b := Pick(cind, cval, lo, j, cind[j]);
    assert Pick(cind, cval, lo, hi, cind[j])[|b|] == cval[j];
  }

  lemma PickNext(ind: seq<int>, val: seq<int>, lo: int, j: int)
    requires 0 <= lo <= j < |ind| && j < |val|
    ensures Pick(ind, val, lo, j + 1, ind[j]) == Pick(ind, val, lo, j, ind[j]) + [val[j]]
  {
  }

  lemma LastIrrelevant(op: Op, ids0: seq<int>, w0: seq<int>, cind: seq<int>, cval: seq<int>, lo: int, j: int,
                       r: Row, last: seq<int>, nadj: int)
    requires |ids0| == |w0| && 0 <= lo <= j <= |cind| && j <= |cval|
    requires AllMatched(op, ids0, w0, cind, cval, lo, j, r, nadj)
    ensures AllMatched(op, ids0, w0, cind, cval, lo, j, r.(last := last), nadj)
  {
    forall t | 0 <= t < |r.marker|
      ensures MatchedAt(op, ids0, w0, Pick(cind, cval, lo, j, t), r.(last := last), nadj, t)
    {
      assert MatchedAt(op, ids0, w0, Pick(cind, cval, lo, j, t), r, nadj, t);
    }
  }

  lemma NothingFits(op: Op, ids0: seq<int>, w0: seq<int>, n: int, cind: seq<int>, cval: seq<int>, lo: int)
    requires |ids0| == |w0| && 0 <= lo <= |cind| && lo <= |cval|
    ensures forall t :: 0 <= t < n ==> Fits(op, Pick(ids0, w0, 0, |ids0|, t), Pick(cind, cval, lo, lo, t))
  {
  }

  /** Handles the in-arc j; gives up when a sum leaves the range. */
  method InArc(n: int, op: Op, ghost ids0: seq<int>, ghost w0: seq<int>, cind: seq<int>, cval: seq<int>,
               ghost lo: int, j: int,
               marker: array<int>, last: array<int>, next: array<int>, ids: array<int>, wgts: array<int>, nadj: int)
    returns (nadj': int, ok: bool)
    requires {marker} !! {last} !! {next} !! {ids} !! {wgts}
    requires |ids0| == |w0| <= nadj < next.Length == ids.Length == wgts.Length
    requires marker.Length == last.Length == n && 0 <= lo <= j < |cind| == |cval| && 0 <= cind[j] < n
    requires AllMatched(op, ids0, w0, cind, cval, lo, j, Row(marker[..], last[..], next[..], ids[..], wgts[..]), nadj)
    modifies marker, last, next, ids, wgts
    ensures nadj <= nadj' <= nadj + 1 && ids[..nadj] == old(ids[..nadj]) && (nadj' > nadj ==> ids[nadj] == cind[j])
    ensures forall t :: 0 <= t < n && t !in ids0 ==> marker[t] == old(marker[t]) && last[t] == old(last[t])
    ensures
      var a, b := Pick(ids0, w0, 0, |ids0|, cind[j]), Pick(cind, cval, lo, j, cind[j]);
      ok <==> (op == SUM && |b| < |a| ==> INT32_MIN <= a[|b|] + cval[j] <= INT32_MAX)
    ensures ok ==>
      AllMatched(op, ids0, w0, cind, cval, lo, j + 1, Row(marker[..], last[..], next[..], ids[..], wgts[..]), nadj')
  {
    hide AllMatched, Half, Pick;
    var u, v := cind[j], cval[j];
    ghost var r := Row(marker[..], last[..], next[..], ids[..], wgts[..]);
    PartnerOf(op, ids0, w0, cind, cval, lo, j, r, nadj, u);
    nadj' := nadj;
    if marker[u] == -1 {
      if op != MIN {
        ids[nadj] := u;
        wgts[nadj] := if op == AVG then Half(v) else v;
        nadj' := nadj + 1;
      }
    } else {
      var position := marker[u];
      marker[u] := next[position];
      if marker[u] == -1 {
        last[u] := -1;
      }
      next[position] := -2;
      if op == SUM && !(INT32_MIN <= wgts[position] + v <= INT32_MAX) {
        return nadj, false;
      }
      wgts[position] := Both(op, wgts[position], v);
    }
    ghost var r' := Row(marker[..], r.last, next[..], ids[..], wgts[..]);
    InArcStep(op, ids0, w0, cind, cval, lo, j, r, nadj, r', nadj');
    LastIrrelevant(op, ids0, w0, cind, cval, lo, j + 1, r', last[..], nadj');
    ok := true;
  }

  /** Combines the in-arcs of a row with its out-arcs. */
  method InArcs(n: int, op: Op, ghost ids0: seq<int>, ghost w0: seq<int>, cind: seq<int>, cval: seq<int>, lo: int,
                hi: int,
                marker: array<int>, last: array<int>, next: array<int>, ids: array<int>, wgts: array<int>, nout: int)
    returns (nadj: int, ok: bool)
    requires {marker} !! {last} !! {next} !! {ids} !! {wgts}
    requires |ids0| == |w0| == nout && nout + (hi - lo) <= next.Length == ids.Length == wgts.Length
    requires marker.Length == last.Length == n && 0 <= lo <= hi <= |cind| == |cval|
    requires forall j :: lo <= j < hi ==> 0 <= cind[j] < n
    requires ids[..nout] == ids0 && wgts[..nout] == w0
    requires Linked(ids0, nout, Row(marker[..], last[..], next[..], ids[..], wgts[..]))
    requires forall t :: 0 <= t < n && t !in ids0 ==> marker[t] == -1 && last[t] == -1
    modifies marker, last, next, ids, wgts
    ensures nout <= nadj <= nout + (hi - lo) && ids[..nout] == ids0
    ensures forall x :: nout <= x < nadj ==> 0 <= ids[x] < n
    ensures ok ==>
      && AllMatched(op, ids0, w0, cind, cval, lo, hi, Row(marker[..], last[..], next[..], ids[..], wgts[..]), nadj)
      && forall t :: 0 <= t < n ==> Fits(op, Pick(ids0, w0, 0, nout, t), Pick(cind, cval, lo, hi, t))
    ensures !ok ==>
      exists t :: 0 <= t < n && !Fits(op, Pick(ids0, w0, 0, nout, t), Pick(cind, cval, lo, hi, t))
    ensures forall t :: 0 <= t < n && t !in ids0 ==> marker[t] == -1 && last[t] == -1
  {
    hide Linked, AllMatched, Fits, Pick;
    NothingMatched(op, ids0, w0, cind, cval, lo, Row(marker[..], last[..], next[..], ids[..], wgts[..]));
    NothingFits(op, ids0, w0, n, cind, cval, lo);
    nadj := nout;
    for j := lo to hi
      invariant nout <= nadj <= nout + (j - lo) && ids[..nout] == ids0
      invariant forall x :: nout <= x < nadj ==> 0 <= ids[x] < n
      invariant
        AllMatched(op, ids0, w0, cind, cval, lo, j, Row(marker[..], last[..], next[..], ids[..], wgts[..]), nadj)
      invariant forall t :: 0 <= t < n ==> Fits(op, Pick(ids0, w0, 0, nout, t), Pick(cind, cval, lo, j, t))
      invariant forall t :: 0 <= t < n && t !in ids0 ==> marker[t] == -1 && last[t] == -1
    {
      ghost var before, nadj0 := ids[..nadj], nadj;
      nadj, ok := InArc(n, op, ids0, w0, cind, cval, lo, j, marker, last, next, ids, wgts, nadj);
      assert forall x :: 0 <= x < nadj0 ==> ids[x] == ids[..nadj0][x] == before[x];
      assert ids[..nout] == ids[..nadj0][..nout] == before[..nout];
      if !ok {
        SumOverflows(op, Pick(ids0, w0, 0, nout, cind[j]), cind, cval, lo, j, hi);
        return;
      }
      FitsStep(op, ids0, w0, n, cind, cval, lo, j);
    }
    ok := true;
  }

  // ----- Leftover out-arcs, and the finished row -----

  /** An out-arc position after the last pass: matched ones stay, the others are dropped or halved. */
  ghost predicate Resolved(op: Op, ids0: seq<int>, next: seq<int>, wgts: seq<int>, ids': seq<int>, wgts': seq<int>,
                           x: int)
    requires 0 <= x < |ids0| <= |next| && |ids0| <= |wgts| && |ids0| <= |ids'| && |ids0| <= |wgts'|
  {
    if next[x] == -2 then ids'[x] == ids0[x] && wgts'[x] == wgts[x]
    else
      && ids'[x] == (if op == MIN then -1 else ids0[x])
      && wgts'[x] == (if op == AVG then Half(wgts[x]) else wgts[x])
  }

  method ResolveOutArcs(op: Op, nout: int, next: array<int>, ids: array<int>, wgts: array<int>)
    requires {next} !! {ids} !! {wgts} && 0 <= nout <= next.Length == ids.Length == wgts.Length
    modifies ids, wgts
    ensures forall x :: 0 <= x < nout ==> Resolved(op, old(ids[..nout]), next[..], old(wgts[..]), ids[..], wgts[..], x)
    ensures ids[nout..] == old(ids[nout..]) && wgts[nout..] == old(wgts[nout..])
  {
    ghost var ids0, wgts0, next0 := ids[..nout], wgts[..], next[..];
    for j := 0 to nout
      invariant next[..] == next0
      invariant forall x :: 0 <= x < j ==> Resolved(op, ids0, next0, wgts0, ids[..], wgts[..], x)
      invariant forall x :: j <= x < nout ==> ids[x] == ids0[x] && wgts[x] == wgts0[x]
      invariant ids[nout..] == old(ids[nout..]) && wgts[nout..] == old(wgts[nout..])
    {
      assert next[j] == next0[j];
      ghost var ids1, wgts1 := ids[..], wgts[..];
      if next[j] != -2 {
        if op == MIN {
          ids[j] := -1;
        } else if op == AVG {
          wgts[j] := Half(wgts[j]);
        }
      }
      forall x | 0 <= x < j
        ensures Resolved(op, ids0, next0, wgts0, ids[..], wgts[..], x)
      {
        assert Resolved(op, ids0, next0, wgts0, ids1, wgts1, x);
      }
    }
  }

  /** The row that results holds, for every target, the combination of the two arc lists. */
  lemma RowCombines(op: Op, ids0: seq<int>, w0: seq<int>, b: seq<int>, r: Row, nadj: int, ids': seq<int>,
                    wgts': seq<int>, t: int)
    requires |ids0| == |w0| && 0 <= t < |r.marker| && |ids0| <= nadj <= |r.ids| == |ids'| && nadj <= |r.wgts| == |wgts'|
    requires |ids0| <= |r.next| && MatchedAt(op, ids0, w0, b, r, nadj, t)
    requires forall x :: 0 <= x < |ids0| ==> Resolved(op, ids0, r.next, r.wgts, ids', wgts', x)
    requires ids'[|ids0|..] == r.ids[|ids0|..] && wgts'[|ids0|..] == r.wgts[|ids0|..]
    ensures Pick(ids', wgts', 0, nadj, t) == Combine(op, Pick(ids0, w0, 0, |ids0|, t), b)
  {
    hide OutPart, Combine, Matched, Positions, Pick;
    var nout := |ids0|;
    var p, a := Positions(ids0, 0, nout, t), Pick(ids0, w0, 0, nout, t);
    PickSplit(ids', wgts', 0, nout, nadj, t);
    assert ids'[nout..nadj] == ids'[nout..][..nadj - nout] && wgts'[nout..nadj] == wgts'[nout..][..nadj - nout];
    assert r.ids[nout..nadj] == r.ids[nout..][..nadj - nout] && r.wgts[nout..nadj] == r.wgts[nout..][..nadj - nout];
    PickDepends(r.ids, r.wgts, nout, nadj, ids', wgts', nout, nadj, t);
    OutPartCombines(op, ids0, w0, b, r, nadj, ids', wgts', t);
    CombineParts(op, p, a, b);
  }

  /** The part of the result that stands among the out-arcs. */
  ghost function OutPart(op: Op, a: seq<int>, b: seq<int>): seq<int>
  {
    Paired(op, a, b) + if |b| < |a| then Single(op, a[|b|..]) else []
  }

  lemma CombineParts(op: Op, p: seq<int>, a: seq<int>, b: seq<int>)
    requires |p| == |a|
    ensures OutPart(op, a, b) + Extra(op, p, b) == Combine(op, a, b)
  {
    if |a| == |b| {
      assert a[|b|..] == [];
    }
  }

  lemma OutPartAt(op: Op, a: seq<int>, b: seq<int>, k: int)
    requires 0 <= k < |a| && (op == MIN ==> k < |b|)
    ensures k < |OutPart(op, a, b)|
    ensures OutPart(op, a, b)[k] == if k < |b| then Both(op, a[k], b[k]) else if op == AVG then Half(a[k]) else a[k]
  {
    hide Both, Half;
  }

  lemma OutPartCombines(op: Op, ids0: seq<int>, w0: seq<int>, b: seq<int>, r: Row, nadj: int, ids': seq<int>,
                        wgts': seq<int>, t: int)
    requires |ids0| == |w0| && 0 <= t < |r.marker| && |ids0| <= nadj <= |r.ids| == |ids'| && nadj <= |r.wgts| == |wgts'|
    requires |ids0| <= |r.next| && MatchedAt(op, ids0, w0, b, r, nadj, t)
    requires forall x :: 0 <= x < |ids0| ==> Resolved(op, ids0, r.next, r.wgts, ids', wgts', x)
    ensures
      Pick(ids', wgts', 0, |ids0|, t) == OutPart(op, Pick(ids0, w0, 0, |ids0|, t), b)
  {
    hide OutPart, Both, Half;
    var nout := |ids0|;
    var p, a := Positions(ids0, 0, nout, t), Pick(ids0, w0, 0, nout, t);
    PositionsFacts(ids0, 0, nout, t);
    var kept := if op == MIN && |b| < |p| then p[..|b|] else p;
    KeptPositions(op, ids0, w0, b, r, nadj, ids', wgts', t, kept);
    PickIsValues(ids', wgts', 0, nout, t);
    OutPartSize(op, a, b);
    forall k | 0 <= k < |kept|
      ensures wgts'[kept[k]] == OutPart(op, a, b)[k]
    {
      assert Resolved(op, ids0, r.next, r.wgts, ids', wgts', p[k]);
      OutPartAt(op, a, b, k);
    }
    assert ValuesAt(wgts', kept) == OutPart(op, a, b);
  }

  lemma OutPartSize(op: Op, a: seq<int>, b: seq<int>)
    ensures |OutPart(op, a, b)| == if op == MIN && |b| < |a| then |b| else |a|
  {
  }

  lemma KeptPositions(op: Op, ids0: seq<int>, w0: seq<int>, b: seq<int>, r: Row, nadj: int, ids': seq<int>,
                      wgts': seq<int>, t: int, kept: seq<int>)
    requires |ids0| == |w0| && 0 <= t < |r.marker| && |ids0| <= nadj <= |r.ids| == |ids'| && nadj <= |r.wgts| == |wgts'|
    requires |ids0| <= |r.next| && MatchedAt(op, ids0, w0, b, r, nadj, t)
    requires forall x :: 0 <= x < |ids0| ==> Resolved(op, ids0, r.next, r.wgts, ids', wgts', x)
    requires
      var p := Positions(ids0, 0, |ids0|, t);
      kept == if op == MIN && |b| < |p| then p[..|b|] else p
    ensures Positions(ids', 0, |ids0|, t) == kept
  {
    var nout := |ids0|;
    var p, q := Positions(ids0, 0, nout, t), Positions(ids', 0, nout, t);
    PositionsFacts(ids0, 0, nout, t);
    PositionsFacts(ids', 0, nout, t);
    hide MatchedAt, Resolved, Positions;
    forall x | x in q || x in kept
      ensures x in q && x in kept
    {
      assert x in kept ==> x in p;
      KeptAt(op, ids0, w0, b, r, nadj, ids', wgts', t, kept, x);
      if x in kept {
        var l := PositionsAll(ids', 0, nout, t, x);
      }
    }
    AscendingUnique(q, kept);
  }

  lemma KeptAt(op: Op, ids0: seq<int>, w0: seq<int>, b: seq<int>, r: Row, nadj: int, ids': seq<int>, wgts': seq<int>,
               t: int, kept: seq<int>, x: int)
    requires |ids0| == |w0| && 0 <= t < |r.marker| && |ids0| <= nadj <= |r.ids| == |ids'| && nadj <= |r.wgts| == |wgts'|
    requires |ids0| <= |r.next| && MatchedAt(op, ids0, w0, b, r, nadj, t) && 0 <= x < |ids0|
    requires Resolved(op, ids0, r.next, r.wgts, ids', wgts', x)
    requires
      var p := Positions(ids0, 0, |ids0|, t);
      kept == if op == MIN && |b| < |p| then p[..|b|] else p
    ensures ids'[x] == t <==> x in kept
  {
    var p := Positions(ids0, 0, |ids0|, t);
    PositionsFacts(ids0, 0, |ids0|, t);
    hide MatchedAt, Positions, Half;
    assert x in p ==> ids0[x] == t;
    assert kept == p[..|kept|];
    if ids0[x] == t {
      var l := PositionsAll(ids0, 0, |ids0|, t, x);
      FirstAreMatched(op, ids0, w0, b, r, nadj, t, l);
      AmongFirst(p, |kept|, l);
    }
  }

  lemma AmongFirst(p: seq<int>, k: int, l: int)
    requires 0 <= l < |p| && 0 <= k <= |p|
    requires forall x, y :: 0 <= x < y < |p| ==> p[x] < p[y]
    ensures p[l] in p[..k] <==> l < k
  {
    if l < k {
      assert p[..k][l] == p[l];
    }
  }

  /** The out-arcs to t that have a partner are the first ones. */
  lemma FirstAreMatched(op: Op, ids0: seq<int>, w0: seq<int>, b: seq<int>, r: Row, nadj: int, t: int, l: int)
    requires |ids0| == |w0| && 0 <= t < |r.marker| && |ids0| <= nadj <= |r.ids| && nadj <= |r.wgts|
    requires MatchedAt(op, ids0, w0, b, r, nadj, t) && 0 <= l < |Positions(ids0, 0, |ids0|, t)|
    ensures 0 <= Positions(ids0, 0, |ids0|, t)[l] < |r.next|
    ensures r.next[Positions(ids0, 0, |ids0|, t)[l]] == -2 <==> l < |b|
  {
    PositionsFacts(ids0, 0, |ids0|, t);
    hide Positions, Pick, Weight, Extra;
  }

  /** Takes the targets of the row out of the lists again. */
  method ClearMarkers(n: int, ids0: seq<int>, marker: array<int>, last: array<int>)
    requires marker != last && marker.Length == last.Length == n
    requires forall x :: 0 <= x < |ids0| ==> 0 <= ids0[x] < n
    requires forall t :: 0 <= t < n && t !in ids0 ==> marker[t] == -1 && last[t] == -1
    modifies marker, last
    ensures forall t :: 0 <= t < n ==> marker[t] == -1 && last[t] == -1
  {
    for j := 0 to |ids0|
      invariant forall t :: 0 <= t < n && t !in ids0[j..] ==> marker[t] == -1 && last[t] == -1
    {
      assert ids0[j..] == [ids0[j]] + ids0[j + 1..];
      marker[ids0[j]] := -1;
      last[ids0[j]] := -1;
    }
  }

  /** Appends the entries of the scratch row, without the dropped ones, to the new graph. */
  method AppendRow(n: int, nadj: int, ids: array<int>, wgts: array<int>, nrowind: array<int>, nrowval: array<int>,
                   nnz: int)
    returns (nnz': int)
    requires {ids} !! {wgts} !! {nrowind} !! {nrowval}
    requires 0 <= nadj <= ids.Length && nadj <= wgts.Length
    requires 0 <= nnz && nnz + nadj <= nrowind.Length == nrowval.Length
    requires forall x :: 0 <= x < nadj ==> ids[x] == -1 || 0 <= ids[x] < n
    modifies nrowind, nrowval
    ensures nnz <= nnz' <= nnz + nadj
    ensures nrowind[..nnz] == old(nrowind[..nnz]) && nrowval[..nnz] == old(nrowval[..nnz])
    ensures forall x :: nnz <= x < nnz' ==> 0 <= nrowind[x] < n
    ensures forall t :: 0 <= t < n ==>
              Pick(nrowind[..], nrowval[..], nnz, nnz', t) == Pick(ids[..], wgts[..], 0, nadj, t)
  {
    ghost var ids0, wgts0 := ids[..], wgts[..];
    nnz' := nnz;
    for j := 0 to nadj
      invariant nnz <= nnz' <= nnz + j && ids[..] == ids0 && wgts[..] == wgts0
      invariant nrowind[..nnz] == old(nrowind[..nnz]) && nrowval[..nnz] == old(nrowval[..nnz])
      invariant forall x :: nnz <= x < nnz' ==> 0 <= nrowind[x] < n
      invariant forall t :: 0 <= t < n ==> Pick(nrowind[..], nrowval[..], nnz, nnz', t) == Pick(ids0, wgts0, 0, j, t)
    {
      assert ids[j] == ids0[j] && wgts[j] == wgts0[j];
      if ids[j] != -1 {
        ghost var ind1, val1 := nrowind[..], nrowval[..];
        nrowind[nnz'] := ids[j];
        nrowval[nnz'] := wgts[j];
        forall t | 0 <= t < n
          ensures Pick(nrowind[..], nrowval[..], nnz, nnz', t) == Pick(ind1, val1, nnz, nnz', t)
        {
          PickDepends(ind1, val1, nnz, nnz', nrowind[..], nrowval[..], nnz, nnz', t);
        }
        nnz' := nnz' + 1;
      }
    }
  }

  /** Everything that happens to one row: ids0 and w0 are its out-arcs, lo..hi its in-arcs. */
  method CombineRow(n: int, op: Op, ids0: seq<int>, w0: seq<int>, cind: seq<int>, cval: seq<int>, lo: int, hi: int,
                    marker: array<int>, last: array<int>, next: array<int>, ids: array<int>, wgts: array<int>,
                    nrowind: array<int>, nrowval: array<int>, nnz: int)
    returns (nnz': int, ok: bool)
    requires {marker} !! {last} !! {next} !! {ids} !! {wgts} !! {nrowind} !! {nrowval}
    requires |ids0| == |w0| && 0 <= lo <= hi <= |cind| == |cval|
    requires |ids0| + (hi - lo) <= next.Length == ids.Length == wgts.Length && marker.Length == last.Length == n
    requires 0 <= nnz && nnz + |ids0| + (hi - lo) <= nrowind.Length == nrowval.Length
    requires forall x :: 0 <= x < |ids0| ==> 0 <= ids0[x] < n
    requires forall j :: lo <= j < hi ==> 0 <= cind[j] < n
    requires forall t :: 0 <= t < n ==> marker[t] == -1 && last[t] == -1
    modifies marker, last, next, ids, wgts, nrowind, nrowval
    ensures ok ==>
      && nnz <= nnz' <= nnz + |ids0| + (hi - lo)
      && nrowind[..nnz] == old(nrowind[..nnz]) && nrowval[..nnz] == old(nrowval[..nnz])
      && (forall x :: nnz <= x < nnz' ==> 0 <= nrowind[x] < n)
      && (forall t :: 0 <= t < n ==> marker[t] == -1 && last[t] == -1)
      && (forall t :: 0 <= t < n ==>
           Pick(nrowind[..], nrowval[..], nnz, nnz', t)
           == Combine(op, Pick(ids0, w0, 0, |ids0|, t), Pick(cind, cval, lo, hi, t)))
      && (forall t :: 0 <= t < n ==> Fits(op, Pick(ids0, w0, 0, |ids0|, t), Pick(cind, cval, lo, hi, t)))
    ensures !ok ==>
      exists t :: 0 <= t < n && !Fits(op, Pick(ids0, w0, 0, |ids0|, t), Pick(cind, cval, lo, hi, t))
  {
    hide Linked, AllMatched, Fits, Combine, Resolved;
    OutArcs(n, ids0, w0, marker, last, next, ids, wgts);
    var nadj;
    nadj, ok := InArcs(n, op, ids0, w0, cind, cval, lo, hi, marker, last, next, ids, wgts, |ids0|);
    if !ok {
      return nnz, false;
    }
    ghost var r := Row(marker[..], last[..], next[..], ids[..], wgts[..]);
    ResolveOutArcs(op, |ids0|, next, ids, wgts);
    assert next[..] == r.next;
    RowIsCombined(n, op, ids0, w0, cind, cval, lo, hi, r, nadj, ids[..], wgts[..]);
    ClearMarkers(n, ids0, marker, last);
    nnz' := AppendRow(n, nadj, ids, wgts, nrowind, nrowval, nnz);
  }

  lemma RowIsCombined(n: int, op: Op, ids0: seq<int>, w0: seq<int>, cind: seq<int>, cval: seq<int>, lo: int, hi: int,
                      r: Row, nadj: int, ids': seq<int>, wgts': seq<int>)
    requires |ids0| == |w0| && 0 <= lo <= hi <= |cind| == |cval| && |r.marker| == n
    requires |ids0| <= nadj <= |r.ids| == |ids'| && nadj <= |r.wgts| == |wgts'| && |ids0| <= |r.next|
    requires AllMatched(op, ids0, w0, cind, cval, lo, hi, r, nadj)
    requires forall x :: 0 <= x < |ids0| ==> Resolved(op, ids0, r.next, r.wgts, ids', wgts', x)
    requires ids'[|ids0|..] == r.ids[|ids0|..] && wgts'[|ids0|..] == r.wgts[|ids0|..]
    requires forall x :: 0 <= x < |ids0| ==> 0 <= ids0[x] < n
    requires forall x :: |ids0| <= x < nadj ==> 0 <= r.ids[x] < n
    ensures forall t :: 0 <= t < n ==>
      Pick(ids', wgts', 0, nadj, t) == Combine(op, Pick(ids0, w0, 0, |ids0|, t), Pick(cind, cval, lo, hi, t))
    ensures forall x :: 0 <= x < nadj ==> ids'[x] == -1 || 0 <= ids'[x] < n
  {
    forall t | 0 <= t < n
      ensures Pick(ids', wgts', 0, nadj, t) == Combine(op, Pick(ids0, w0, 0, |ids0|, t), Pick(cind, cval, lo, hi, t))
    {
      assert MatchedAt(op, ids0, w0, Pick(cind, cval, lo, hi, t), r, nadj, t);
      RowCombines(op, ids0, w0, Pick(cind, cval, lo, hi, t), r, nadj, ids', wgts', t);
    }
    forall x | 0 <= x < nadj
      ensures ids'[x] == -1 || 0 <= ids'[x] < n
    {
      if x < |ids0| {
        assert Resolved(op, ids0, r.next, r.wgts, ids', wgts', x);
      } else {
        assert ids'[|ids0|..][x - |ids0|] == r.ids[|ids0|..][x - |ids0|];
      }
    }
  }

  // ----- The whole graph -----

  datatype Result = Invalid | Overflow | Made(graph: Graph)

  /** Every pair of partners fits. */
  ghost predicate AllFit(op: Op, g: Graph)
    requires g.Valid() && g.Weighted()
  {
    forall i, j :: g.IsVertex(i) && g.IsVertex(j) ==> Fits(op, Out(g, i, j), Out(g, j, i))
  }

  /** For every ordered pair of vertices the new arc list combines the two old ones. */
  ghost predicate Symmetrized(op: Op, g: Graph, h: Graph)
    requires g.Valid() && g.Weighted()
  {
    && h.Valid() && h.Weighted() && h.nvtxs == g.nvtxs
    && forall i, j :: g.IsVertex(i) && g.IsVertex(j) ==> Out(h, i, j) == Combine(op, Out(g, i, j), Out(g, j, i))
  }

  /** Row i of the new graph under construction is what it should be, and so were its sums. */
  ghost predicate RowDone(op: Op, g: Graph, i: int, ptr: seq<int>, ind: seq<int>, val: seq<int>)
    requires g.Valid() && g.Weighted() && g.IsVertex(i)
  {
    && i + 1 < |ptr| && 0 <= ptr[i] <= ptr[i + 1] <= |ind| && ptr[i + 1] <= |val|
    && forall t :: g.IsVertex(t) ==>
         && Pick(ind, val, ptr[i], ptr[i + 1], t) == Combine(op, Out(g, i, t), Out(g, t, i))
         && Fits(op, Out(g, i, t), Out(g, t, i))
  }

  /** The first n rows are done and fill exactly the first nnz entries. */
  ghost predicate RowsDone(op: Op, g: Graph, n: int, ptr: seq<int>, ind: seq<int>, val: seq<int>, nnz: int)
    requires g.Valid() && g.Weighted()
  {
    && 0 <= n <= g.nvtxs < |ptr| && 0 <= nnz <= |ind| == |val|
    && ptr[0] == 0 && ptr[n] == nnz
    && (forall v, w :: 0 <= v <= w <= n ==> ptr[v] <= ptr[w])
    && (forall x :: 0 <= x < nnz ==> 0 <= ind[x] < g.nvtxs)
    && (forall i :: 0 <= i < n ==> RowDone(op, g, i, ptr, ind, val))
  }

  lemma RowKept(op: Op, g: Graph, i: int, ptr: seq<int>, ind: seq<int>, val: seq<int>,
                ptr': seq<int>, ind': seq<int>, val': seq<int>, nnz: int)
    requires g.Valid() && g.Weighted() && g.IsVertex(i) && RowDone(op, g, i, ptr, ind, val)
    requires i + 1 < |ptr'| && ptr'[i] == ptr[i] && ptr'[i + 1] == ptr[i + 1] <= nnz <= |ind| && nnz <= |val|
    requires nnz <= |ind'| && nnz <= |val'| && ind'[..nnz] == ind[..nnz] && val'[..nnz] == val[..nnz]
    ensures RowDone(op, g, i, ptr', ind', val')
  {
    var lo, hi := ptr[i], ptr[i + 1];
    assert ind'[lo..hi] == ind'[..nnz][lo..hi] && ind[lo..hi] == ind[..nnz][lo..hi];
    assert val'[lo..hi] == val'[..nnz][lo..hi] && val[lo..hi] == val[..nnz][lo..hi];
    forall t | g.IsVertex(t)
      ensures Pick(ind', val', lo, hi, t) == Pick(ind, val, lo, hi, t)
    {
      PickDepends(ind, val, lo, hi, ind', val', lo, hi, t);
    }
  }

  lemma RowAdded(op: Op, g: Graph, n: int, ptr: seq<int>, ind: seq<int>, val: seq<int>, nnz: int,
                 ptr': seq<int>, ind': seq<int>, val': seq<int>, nnz': int)
    requires g.Valid() && g.Weighted() && RowsDone(op, g, n, ptr, ind, val, nnz) && n < g.nvtxs
    requires nnz <= nnz' <= |ind'| == |val'| && ptr' == ptr[n + 1 := nnz']
    requires ind'[..nnz] == ind[..nnz] && val'[..nnz] == val[..nnz]
    requires forall x :: nnz <= x < nnz' ==> 0 <= ind'[x] < g.nvtxs
    requires RowDone(op, g, n, ptr', ind', val')
    ensures RowsDone(op, g, n + 1, ptr', ind', val', nnz')
  {
    hide RowDone;
    forall i | 0 <= i < n
      ensures RowDone(op, g, i, ptr', ind', val')
    {
      RowKept(op, g, i, ptr, ind, val, ptr', ind', val', nnz);
    }
    forall x | 0 <= x < nnz
      ensures 0 <= ind'[x] < g.nvtxs
    {
      assert ind'[..nnz][x] == ind[..nnz][x];
    }
  }

  /** The arc list of a row, read from the scratch copy of the row. */
  lemma OutOfCopy(g: Graph, i: int, t: int)
    requires g.Valid() && g.Weighted() && g.IsVertex(i)
    ensures
      var ids0, w0 := g.adjncy[g.xadj[i]..g.xadj[i + 1]], g.iadjwgt[g.xadj[i]..g.xadj[i + 1]];
      Pick(ids0, w0, 0, |ids0|, t) == Out(g, i, t)
  {
    var ids0, w0 := g.adjncy[g.xadj[i]..g.xadj[i + 1]], g.iadjwgt[g.xadj[i]..g.xadj[i + 1]];
    assert ids0[0..|ids0|] == ids0 && w0[0..|w0|] == w0;
    PickDepends(g.adjncy, g.iadjwgt, g.xadj[i], g.xadj[i + 1], ids0, w0, 0, |ids0|, t);
  }

  /** The column view of a graph. */
  ghost predicate IsColumnView(g: Graph, colptr: seq<int>, colind: seq<int>, colval: seq<int>)
    requires g.Valid() && g.Weighted()
  {
    && ValidCsr(g.nvtxs, g.nvtxs, colptr, colind) && |colind| == |colval| == |g.adjncy|
    && forall i, j :: g.IsVertex(i) && g.IsVertex(j) ==>
         Pick(colind, colval, colptr[i], colptr[i + 1], j) == Out(g, j, i)
  }

  method ColumnView(g: Graph) returns (colptr: array<int>, colind: array<int>, colval: array<int>)
    requires g.Valid() && g.Weighted()
    ensures fresh(colptr) && fresh(colind) && fresh(colval)
    ensures IsColumnView(g, colptr[..], colind[..], colval[..])
  {
    hide IsIndex, ValuesUpTo, Out;
    assert ValidCsr(g.nvtxs, g.nvtxs, g.xadj, g.adjncy);
    colptr, colind, colval := CreateIndex(g.nvtxs, g.nvtxs, g.xadj, g.adjncy, true, g.iadjwgt, 0);
    Transpose.IndexIsValid(g.nvtxs, g.nvtxs, g.xadj, g.adjncy, colptr[..], colind[..]);
    ViewSize(g, colptr[..], colind[..]);
    forall i, j | g.IsVertex(i) && g.IsVertex(j)
      ensures Pick(colind[..], colval[..], colptr[..][i], colptr[..][i + 1], j) == Out(g, j, i)
    {
      ColumnIsReverse(g, colptr[..], colind[..], colval[..], i, j);
    }
  }

  lemma ViewSize(g: Graph, colptr: seq<int>, colind: seq<int>)
    requires g.Valid() && ValidCsr(g.nvtxs, g.nvtxs, g.xadj, g.adjncy)
    requires IsIndex(g.nvtxs, g.nvtxs, g.xadj, g.adjncy, colptr, colind)
    ensures |colind| == |g.adjncy|
  {
  }

  /** One turn of the main loop, for row i. */
  method SymmetrizeRow(op: Op, g: Graph, i: int, colptr: seq<int>, colind: seq<int>, colval: seq<int>,
                       marker: array<int>, last: array<int>, next: array<int>, ids: array<int>, wgts: array<int>,
                       nrowptr: array<int>, nrowind: array<int>, nrowval: array<int>, nnz: int)
    returns (nnz': int, ok: bool)
    requires g.Valid() && g.Weighted() && g.IsVertex(i) && IsColumnView(g, colptr, colind, colval)
    requires {marker} !! {last} !! {next} !! {ids} !! {wgts} !! {nrowind} !! {nrowval} !! {nrowptr}
    requires 2 * |g.adjncy| == next.Length == ids.Length == wgts.Length == nrowind.Length == nrowval.Length
    requires marker.Length == last.Length == g.nvtxs && nrowptr.Length == g.nvtxs + 1
    requires forall t :: 0 <= t < g.nvtxs ==> marker[t] == -1 && last[t] == -1
    requires RowsDone(op, g, i, nrowptr[..], nrowind[..], nrowval[..], nnz) && nnz <= g.xadj[i] + colptr[i]
    modifies marker, last, next, ids, wgts, nrowptr, nrowind, nrowval
    ensures ok ==>
      && RowsDone(op, g, i + 1, nrowptr[..], nrowind[..], nrowval[..], nnz') && nnz' <= g.xadj[i + 1] + colptr[i + 1]
      && (forall t :: 0 <= t < g.nvtxs ==> marker[t] == -1 && last[t] == -1)
    ensures !ok ==> !AllFit(op, g)
  {
    hide Fits, Combine, Out, RowDone;
    ghost var ptr0, ind0, val0 := nrowptr[..], nrowind[..], nrowval[..];
    var ids0, w0 := g.adjncy[g.xadj[i]..g.xadj[i + 1]], g.iadjwgt[g.xadj[i]..g.xadj[i + 1]];
    nnz', ok := CombineRow(g.nvtxs, op, ids0, w0, colind, colval, colptr[i], colptr[i + 1],
                           marker, last, next, ids, wgts, nrowind, nrowval, nnz);
    forall t | g.IsVertex(t)
      ensures Pick(ids0, w0, 0, |ids0|, t) == Out(g, i, t)
    {
      OutOfCopy(g, i, t);
    }
    if !ok {
      return;
    }
    nrowptr[i + 1] := nnz';
    RowIsDone(op, g, i, colptr, colind, colval, ids0, w0, nrowptr[..], nrowind[..], nrowval[..], nnz, nnz');
    RowAdded(op, g, i, ptr0, ind0, val0, nnz, nrowptr[..], nrowind[..], nrowval[..], nnz');
  }

  lemma RowIsDone(op: Op, g: Graph, i: int, colptr: seq<int>, colind: seq<int>, colval: seq<int>, ids0: seq<int>,
                  w0: seq<int>, ptr: seq<int>, ind: seq<int>, val: seq<int>, nnz: int, nnz': int)
    requires g.Valid() && g.Weighted() && g.IsVertex(i) && IsColumnView(g, colptr, colind, colval)
    requires |ids0| == |w0| && forall t :: g.IsVertex(t) ==> Pick(ids0, w0, 0, |ids0|, t) == Out(g, i, t)
    requires i + 1 < |ptr| && ptr[i] == nnz && ptr[i + 1] == nnz' && 0 <= nnz <= nnz' <= |ind| == |val|
    requires forall t :: g.IsVertex(t) ==>
      && Pick(ind, val, nnz, nnz', t) ==
           Combine(op, Pick(ids0, w0, 0, |ids0|, t), Pick(colind, colval, colptr[i], colptr[i + 1], t))
      && Fits(op, Pick(ids0, w0, 0, |ids0|, t), Pick(colind, colval, colptr[i], colptr[i + 1], t))
    ensures RowDone(op, g, i, ptr, ind, val)
  {
    hide Fits, Combine, Out;
  }

  method MakeSymmetric(g: Graph, op: Op) returns (result: Result)
    requires g.nvtxs >= 0 ==> |g.xadj| == g.nvtxs + 1
    requires g.nvtxs >= 0 && g.xadj[g.nvtxs] >= 0 ==> |g.adjncy| == g.xadj[g.nvtxs]
    requires g.Weighted()
    ensures result == Invalid <==> if TooLarge(g) then !g.HasRows() else !g.Valid()
    ensures result == Overflow <==> g.HasRows() && if TooLarge(g) then true else g.Valid() && !AllFit(op, g)
    ensures result.Made? ==> !TooLarge(g) && g.Valid() && AllFit(op, g) && Symmetrized(op, g, result.graph)
  {
    hide AllFit, Symmetrized, RowsDone, IsColumnView;
    result := CheckInput(g);
    if !result.Made? {
      return;
    }
    var colptr, colind, colval := ColumnView(g);
    ViewStarts(g, colptr[..], colind[..], colval[..]);
    var n, maxedges := g.nvtxs, 2 * |g.adjncy|;
    var marker, last, next, ids, wgts := NewRow(n, maxedges);
    var nrowptr, nrowind, nrowval := NewRows(n, maxedges);
    var ok, h := SymmetrizeRows(op, g, colptr[..], colind[..], colval[..], marker, last, next, ids, wgts, nrowptr,
                                nrowind, nrowval);
    return if ok then Made(h) else Overflow;
  }

  /** The arrays of the routine, with two entries for every arc, cannot be addressed. */
  ghost predicate TooLarge(g: Graph)
  {
    || |g.adjncy| > PTRDIFF_MAX / 2 || g.nvtxs + 1 > SIZE_MAX / 8
    || |g.adjncy| > SIZE_MAX / (2 * 4) || |g.adjncy| > SIZE_MAX / (2 * 8) || g.nvtxs > SIZE_MAX / 8
  }

  /** The checks at the start, in their order: pointers, sizes, targets. */
  method CheckInput(g: Graph) returns (result: Result)
    requires g.nvtxs >= 0 ==> |g.xadj| == g.nvtxs + 1
    requires g.nvtxs >= 0 && g.xadj[g.nvtxs] >= 0 ==> |g.adjncy| == g.xadj[g.nvtxs]
    ensures result == Invalid <==> if TooLarge(g) then !g.HasRows() else !g.Valid()
    ensures result == Overflow <==> g.HasRows() && TooLarge(g)
  {
    if g.nvtxs < 0 || g.xadj[0] != 0 {
      return Invalid;
    }
    var ok := RowsAscend(g);
    if !ok || g.xadj[g.nvtxs] < 0 {
      return Invalid;
    }
    var nedges := |g.adjncy|;
    if || nedges > PTRDIFF_MAX / 2 || g.nvtxs + 1 > SIZE_MAX / 8
       || nedges > SIZE_MAX / (2 * 4) || nedges > SIZE_MAX / (2 * 8) || g.nvtxs > SIZE_MAX / 8
    {
      return Overflow;
    }
    ok := TargetsInRange(g);
    return if ok then Made(g) else Invalid;
  }

  /** The scratch arrays for one row. */
  method NewRow(n: nat, maxedges: nat)
    returns (marker: array<int>, last: array<int>, next: array<int>, ids: array<int>, wgts: array<int>)
    ensures fresh(marker) && fresh(last) && fresh(next) && fresh(ids) && fresh(wgts)
    ensures {marker} !! {last} !! {next} !! {ids} !! {wgts}
    ensures marker[..] == last[..] == seq(n, _ => -1) && marker.Length == last.Length == n
    ensures next.Length == ids.Length == wgts.Length == maxedges
  {
    marker := Filled(n, -1);
    last := Filled(n, -1);
    next := Filled(maxedges, 0);
    ids := Filled(maxedges, 0);
    wgts := Filled(maxedges, 0);
  }

  /** The arrays of the new graph. */
  method NewRows(n: nat, maxedges: nat) returns (ptr: array<int>, ind: array<int>, val: array<int>)
    ensures fresh(ptr) && fresh(ind) && fresh(val) && {ptr} !! {ind} !! {val}
    ensures ptr.Length == n + 1 && ptr[0] == 0 && ind.Length == val.Length == maxedges
  {
    ptr := Filled(n + 1, 0);
    ind := Filled(maxedges, 0);
    val := Filled(maxedges, 0);
    assert ptr[..][0] == 0;
  }

  lemma ViewStarts(g: Graph, colptr: seq<int>, colind: seq<int>, colval: seq<int>)
    requires g.Valid() && g.Weighted() && IsColumnView(g, colptr, colind, colval)
    ensures |colptr| == g.nvtxs + 1 && colptr[0] == 0
  {
  }

  /** The main loop over all rows. */
  method SymmetrizeRows(op: Op, g: Graph, colptr: seq<int>, colind: seq<int>, colval: seq<int>,
                        marker: array<int>, last: array<int>, next: array<int>, ids: array<int>, wgts: array<int>,
                        nrowptr: array<int>, nrowind: array<int>, nrowval: array<int>)
    returns (ok: bool, h: Graph)
    requires g.Valid() && g.Weighted() && IsColumnView(g, colptr, colind, colval) && |colptr| == g.nvtxs + 1
             && colptr[0] == 0
    requires {marker} !! {last} !! {next} !! {ids} !! {wgts} !! {nrowind} !! {nrowval} !! {nrowptr}
    requires 2 * |g.adjncy| == next.Length == ids.Length == wgts.Length == nrowind.Length == nrowval.Length
    requires marker.Length == last.Length == g.nvtxs && nrowptr.Length == g.nvtxs + 1
    requires marker[..] == last[..] == seq(g.nvtxs, _ => -1) && nrowptr[0] == 0
    modifies marker, last, next, ids, wgts, nrowptr, nrowind, nrowval
    ensures ok ==> AllFit(op, g) && Symmetrized(op, g, h)
    ensures !ok ==> !AllFit(op, g)
  {
    hide AllFit, Symmetrized, RowsDone, IsColumnView, RowDone;
    forall t | 0 <= t < g.nvtxs
      ensures marker[t] == -1 && last[t] == -1
    {
      assert marker[..][t] == -1 && last[..][t] == -1;
    }
    NoRowsDone(op, g, nrowptr[..], nrowind[..], nrowval[..]);
    var nnz := 0;
    h := g;
    for i := 0 to g.nvtxs
      invariant RowsDone(op, g, i, nrowptr[..], nrowind[..], nrowval[..], nnz) && nnz <= g.xadj[i] + colptr[i]
      invariant forall t :: 0 <= t < g.nvtxs ==> marker[t] == -1 && last[t] == -1
    {
      nnz, ok := SymmetrizeRow(op, g, i, colptr, colind, colval, marker, last, next, ids, wgts, nrowptr, nrowind,
                               nrowval, nnz);
      if !ok {
        return;
      }
    }
    FinishGraph(op, g, nrowptr[..], nrowind[..], nrowval[..], nnz);
    ok := true;
    h := Graph(g.nvtxs, nrowptr[..], nrowind[..nnz], nrowval[..nnz]);
  }

  lemma NoRowsDone(op: Op, g: Graph, ptr: seq<int>, ind: seq<int>, val: seq<int>)
    requires g.Valid() && g.Weighted() && |ptr| == g.nvtxs + 1 && ptr[0] == 0 && |ind| == |val|
    ensures RowsDone(op, g, 0, ptr, ind, val, 0)
  {
  }

  lemma FinishGraph(op: Op, g: Graph, ptr: seq<int>, ind: seq<int>, val: seq<int>, nnz: int)
    requires g.Valid() && g.Weighted() && RowsDone(op, g, g.nvtxs, ptr, ind, val, nnz) && |ptr| == g.nvtxs + 1
    ensures 0 <= nnz <= |ind| && nnz <= |val|
    ensures AllFit(op, g) && Symmetrized(op, g, Graph(g.nvtxs, ptr, ind[..nnz], val[..nnz]))
  {
    hide Fits, Combine;
    var h := Graph(g.nvtxs, ptr, ind[..nnz], val[..nnz]);
    assert h.Valid() && h.Weighted();
    forall i, j | g.IsVertex(i) && g.IsVertex(j)
      ensures Out(h, i, j) == Combine(op, Out(g, i, j), Out(g, j, i)) && Fits(op, Out(g, i, j), Out(g, j, i))
    {
      assert RowDone(op, g, i, ptr, ind, val);
      RowKept(op, g, i, ptr, ind, val, ptr, ind[..nnz], val[..nnz], nnz);
    }
  }

  // ----- What this means for single arcs -----

  /** There are as many arcs as in the shorter list for MIN, and as in the longer one otherwise. */
  lemma ListLengths(op: Op, g: Graph, h: Graph, i: int, j: int)
    requires g.Valid() && g.Weighted() && Symmetrized(op, g, h) && g.IsVertex(i) && g.IsVertex(j)
    ensures
      var m, n := |Out(g, i, j)|, |Out(g, j, i)|;
      |Out(h, i, j)| == if (op == MIN) == (m <= n) then m else n
  {
    hide Out, Graph.Valid;
    assert Out(h, i, j) == Combine(op, Out(g, i, j), Out(g, j, i));
  }

  /** The k-th arc from i to j, if there are k-th arcs both ways. */
  lemma PartnersCombine(op: Op, g: Graph, h: Graph, i: int, j: int, k: int)
    requires g.Valid() && g.Weighted() && Symmetrized(op, g, h) && g.IsVertex(i) && g.IsVertex(j)
    requires 0 <= k < |Out(g, i, j)| && k < |Out(g, j, i)|
    ensures k < |Out(h, i, j)|
    ensures
      var a, b, w := Out(g, i, j)[k], Out(g, j, i)[k], Out(h, i, j)[k];
      && (op == SUM ==> w == a + b)
      && (op == MIN ==> w <= a && w <= b && (w == a || w == b))
      && (op == MAX ==> w >= a && w >= b && (w == a || w == b))
      && (op == AVG ==> HalfOf(a + b, w))
  {
    hide Out, Graph.Valid;
    assert Out(h, i, j) == Combine(op, Out(g, i, j), Out(g, j, i));
  }

  /** w is half of x, rounded towards zero. */
  ghost predicate HalfOf(x: int, w: int)
  {
    2 * w == x || (x > 0 && 2 * w == x - 1) || (x < 0 && 2 * w == x + 1)
  }

  /** The k-th arc from i to j or from j to i, if it has no partner. */
  lemma SinglesRemain(op: Op, g: Graph, h: Graph, i: int, j: int, k: int)
    requires g.Valid() && g.Weighted() && Symmetrized(op, g, h) && g.IsVertex(i) && g.IsVertex(j)
    requires |Out(g, j, i)| <= k < |Out(g, i, j)| && op != MIN
    ensures k < |Out(h, i, j)| == |Out(h, j, i)| && Out(h, j, i)[k] == Out(h, i, j)[k]
    ensures
      var a, w := Out(g, i, j)[k], Out(h, i, j)[k];
      if op == AVG then HalfOf(a, w) else w == a
  {
    hide Out, Graph.Valid;
    CombineSymmetric(op, Out(g, i, j), Out(g, j, i));
    assert Out(h, i, j) == Combine(op, Out(g, i, j), Out(g, j, i));
    assert Out(h, j, i) == Combine(op, Out(g, j, i), Out(g, i, j));
  }
}
