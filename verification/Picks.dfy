/** Selecting from a stretch of parallel arrays the entries with one index, in order. */
module Picks {
  import opened Csr
  import opened Sequences
  import opened Transpose

  /** The positions in [lo, hi) that hold t. */
  ghost function Positions(ind: seq<int>, lo: int, hi: int, t: int): seq<int>
    requires 0 <= lo && hi <= |ind|
    decreases hi - lo
  {
    if hi <= lo then [] else Positions(ind, lo, hi - 1, t) + if ind[hi - 1] == t then [hi - 1] else []
  }

  /** The values at these positions. */
  ghost function Pick(ind: seq<int>, val: seq<int>, lo: int, hi: int, t: int): seq<int>
    requires 0 <= lo && hi <= |ind| && hi <= |val|
    ensures |Pick(ind, val, lo, hi, t)| == |Positions(ind, lo, hi, t)|
    decreases hi - lo
  {
    if hi <= lo then [] else Pick(ind, val, lo, hi - 1, t) + if ind[hi - 1] == t then [val[hi - 1]] else []
  }

  ghost function ValuesAt(val: seq<int>, at: seq<int>): seq<int>
    requires forall x :: 0 <= x < |at| ==> 0 <= at[x] < |val|
  {
    seq(|at|, x requires 0 <= x < |at| => val[at[x]])
  }

  lemma {:induction false} PositionsFacts(ind: seq<int>, lo: int, hi: int, t: int)
    requires 0 <= lo && hi <= |ind|
    ensures forall x :: 0 <= x < |Positions(ind, lo, hi, t)| ==>
      lo <= Positions(ind, lo, hi, t)[x] < hi && ind[Positions(ind, lo, hi, t)[x]] == t
    ensures forall x, y :: 0 <= x < y < |Positions(ind, lo, hi, t)| ==>
      Positions(ind, lo, hi, t)[x] < Positions(ind, lo, hi, t)[y]
    decreases hi - lo
  {
    if lo < hi {
      PositionsFacts(ind, lo, hi - 1, t);
    }
  }

  lemma {:induction false} PositionsAll(ind: seq<int>, lo: int, hi: int, t: int, p: int) returns (x: int)
    requires 0 <= lo <= p < hi <= |ind| && ind[p] == t
    ensures 0 <= x < |Positions(ind, lo, hi, t)| && Positions(ind, lo, hi, t)[x] == p
    decreases hi - lo
  {
    if p == hi - 1 {
      x := |Positions(ind, lo, hi - 1, t)|;
    } else {
      x := PositionsAll(ind, lo, hi - 1, t, p);
    }
  }

  lemma {:induction false} PickIsValues(ind: seq<int>, val: seq<int>, lo: int, hi: int, t: int)
    requires 0 <= lo && hi <= |ind| && hi <= |val|
    ensures forall x :: 0 <= x < |Positions(ind, lo, hi, t)| ==> 0 <= Positions(ind, lo, hi, t)[x] < |val|
    ensures Pick(ind, val, lo, hi, t) == ValuesAt(val, Positions(ind, lo, hi, t))
    decreases hi - lo
  {
    PositionsFacts(ind, lo, hi, t);
    if lo < hi {
      PositionsFacts(ind, lo, hi - 1, t);
      PickIsValues(ind, val, lo, hi - 1, t);
      var p := Positions(ind, lo, hi - 1, t);
      if ind[hi - 1] == t {
        assert ValuesAt(val, p + [hi - 1]) == ValuesAt(val, p) + [val[hi - 1]];
      } else {
        assert Positions(ind, lo, hi, t) == p;
      }
    }
  }

  lemma PickNone(ind: seq<int>, val: seq<int>, lo: int, t: int)
    requires 0 <= lo <= |ind| && lo <= |val|
    ensures Pick(ind, val, lo, lo, t) == []
  {
  }

  lemma PickLast(ind: seq<int>, val: seq<int>, lo: int, hi: int, t: int)
    requires 0 <= lo < hi <= |ind| && hi <= |val|
    ensures Pick(ind, val, lo, hi, t) ==
      Pick(ind, val, lo, hi - 1, t) + if ind[hi - 1] == t then [val[hi - 1]] else []
  {
  }

  lemma {:induction false} PickSplit(ind: seq<int>, val: seq<int>, lo: int, mid: int, hi: int, t: int)
    requires 0 <= lo <= mid <= hi <= |ind| && hi <= |val|
    ensures Pick(ind, val, lo, hi, t) == Pick(ind, val, lo, mid, t) + Pick(ind, val, mid, hi, t)
    decreases hi - mid
  {
    hide Pick;
    if mid < hi {
      PickSplit(ind, val, lo, mid, hi - 1, t);
      PickLast(ind, val, lo, hi, t);
      PickLast(ind, val, mid, hi, t);
      var last := if ind[hi - 1] == t then [val[hi - 1]] else [];
      Associative(Pick(ind, val, lo, mid, t), Pick(ind, val, mid, hi - 1, t), last);
    } else {
      PickNone(ind, val, mid, t);
    }
  }

  /** Only the stretch matters. */
  lemma {:induction false} PickDepends(ind: seq<int>, val: seq<int>, lo: int, hi: int,
                                       ind': seq<int>, val': seq<int>, lo': int, hi': int, t: int)
    requires 0 <= lo <= hi <= |ind| && hi <= |val| && 0 <= lo' <= hi' <= |ind'| && hi' <= |val'|
    requires ind'[lo'..hi'] == ind[lo..hi] && val'[lo'..hi'] == val[lo..hi]
    ensures Pick(ind', val', lo', hi', t) == Pick(ind, val, lo, hi, t)
    decreases hi - lo
  {
    hide Pick;
    assert |ind'[lo'..hi']| == |ind[lo..hi]|;
    if lo < hi {
      FrontEqual(ind', lo', hi', ind, lo, hi);
      FrontEqual(val', lo', hi', val, lo, hi);
      PickDepends(ind, val, lo, hi - 1, ind', val', lo', hi' - 1, t);
      PickLast(ind, val, lo, hi, t);
      PickLast(ind', val', lo', hi', t);
    } else {
      PickNone(ind, val, lo, t);
      PickNone(ind', val', lo', t);
    }
  }

  /** Ascending sequences with the same elements are the same. */
  lemma {:induction false} AscendingUnique(s: seq<int>, t: seq<int>)
    requires forall i, j :: 0 <= i < j < |s| ==> s[i] < s[j]
    requires forall i, j :: 0 <= i < j < |t| ==> t[i] < t[j]
    requires forall x :: x in s <==> x in t
    ensures s == t
    decreases |s|
  {
    if t != [] {
      assert t[0] in t;
      assert t[0] in s;
    }
    if s != [] {
      assert s[|s| - 1] in s;
      assert s[|s| - 1] in t;
      assert t[|t| - 1] in t;
      assert t[|t| - 1] in s;
      var s', t' := s[..|s| - 1], t[..|t| - 1];
      forall x
        ensures x in s' <==> x in t'
      {
        assert x in s' <==> x in s && x != s[|s| - 1];
        assert x in t' <==> x in t && x != t[|t| - 1];
      }
      AscendingUnique(s', t');
    }
  }

  /** In the other view, what part k says of row i is what row i says of index k, in the same order. */
  lemma ColumnPicksRow(nf: int, nr: int, ptr: seq<int>, ind: seq<int>, val: seq<int>,
                       rptr: seq<int>, rind: seq<int>, rval: seq<int>, k: int, i: int)
    requires ValidCsr(nf, nr, ptr, ind) && IsIndex(nf, nr, ptr, ind, rptr, rind) && ValidCsr(nr, nf, rptr, rind)
    requires |rval| == |val| == |ind| && ValuesUpTo(ind, val, rval, |ind|)
    requires 0 <= k < nr && 0 <= i < nf
    ensures 0 <= rptr[k] <= rptr[k + 1] <= |rind| && 0 <= ptr[i] <= ptr[i + 1] <= |ind|
    ensures Pick(rind, rval, rptr[k], rptr[k + 1], i) == Pick(ind, val, ptr[i], ptr[i + 1], k)
  {
    var slots := Positions(rind, rptr[k], rptr[k + 1], i);
    var entries := Positions(ind, ptr[i], ptr[i + 1], k);
    PositionsFacts(rind, rptr[k], rptr[k + 1], i);
    PositionsFacts(ind, ptr[i], ptr[i + 1], k);
    PickIsValues(rind, rval, rptr[k], rptr[k + 1], i);
    PickIsValues(ind, val, ptr[i], ptr[i + 1], k);
    var moved := seq(|entries|, x requires 0 <= x < |entries| => Slot(ind, entries[x]));
    forall x | 0 <= x < |entries|
      ensures moved[x] in slots && 0 <= moved[x] < |rval| && rval[moved[x]] == val[entries[x]]
    {
      var e := entries[x];
      assert InRow(ptr, i, e);
      assert At(ind, rind, e, i) && At(ind, rval, e, val[e]);
      SlotInPart(ind, e);
      var y := PositionsAll(rind, rptr[k], rptr[k + 1], i, moved[x]);
    }
    forall y | 0 <= y < |slots|
      ensures slots[y] in moved
    {
      var e := PartHoldsRows(nf, nr, ptr, ind, rptr, rind, k, slots[y]);
      var x := PositionsAll(ind, ptr[i], ptr[i + 1], k, e);
      assert moved[x] == slots[y];
    }
    forall x, y | 0 <= x < y < |moved|
      ensures moved[x] < moved[y]
    {
      SlotOrder(ind, entries[x], entries[y]);
    }
    AscendingUnique(slots, moved);
    assert ValuesAt(rval, slots) == ValuesAt(val, entries);
  }
}
