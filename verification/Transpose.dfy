/** What the counting sort of Csr means: the other view lists the same entries, index by index and
    in row order, and turning the view twice sorts every row by index. */
module Transpose {
  import opened Csr

  // ----- Every slot is filled exactly once -----

  lemma {:induction false} NthOccurrence(ind: seq<int>, k: int, c: int, n: int) returns (j: int)
    requires n <= |ind| && 0 <= c < Count(ind, k, n)
    ensures 0 <= j < n && ind[j] == k && Count(ind, k, j) == c
    decreases n
  {
    if c < Count(ind, k, n - 1) {
      j := NthOccurrence(ind, k, c, n - 1);
    } else {
      j := n - 1;
    }
  }

  lemma {:induction false} PartOf(ind: seq<int>, nr: int, s: int) returns (k: int)
    requires 0 <= s < First(ind, nr)
    ensures 0 <= k < nr && First(ind, k) <= s < First(ind, k + 1)
    decreases nr
  {
    if s < First(ind, nr - 1) {
      k := PartOf(ind, nr - 1, s);
    } else {
      k := nr - 1;
    }
  }

  /** The position that slot s comes from. */
  lemma Source(nf: int, nr: int, ptr: seq<int>, ind: seq<int>, s: int) returns (j: int)
    requires ValidCsr(nf, nr, ptr, ind) && 0 <= s < |ind|
    ensures 0 <= j < |ind| && Slot(ind, j) == s
  {
    FirstIsTotal(ind, nr, |ind|);
    FirstIsCountAll(ind, nr);
    var k := PartOf(ind, nr, s);
    j := NthOccurrence(ind, k, s - First(ind, k), |ind|);
  }

  lemma {:induction false} RowOf(nf: int, ptr: seq<int>, n: int, j: int) returns (i: int)
    requires 0 <= n < |ptr| && ptr[0] <= j < ptr[n]
    ensures 0 <= i < n && ptr[i] <= j < ptr[i + 1]
    decreases n
  {
    if j < ptr[n - 1] {
      i := RowOf(nf, ptr, n - 1, j);
    } else {
      i := n - 1;
    }
  }

  /** The other view is a matrix again, with rows and indices exchanged. */
  lemma IndexIsValid(nf: int, nr: int, ptr: seq<int>, ind: seq<int>, rptr: seq<int>, rind: seq<int>)
    requires ValidCsr(nf, nr, ptr, ind) && IsIndex(nf, nr, ptr, ind, rptr, rind)
    ensures ValidCsr(nr, nf, rptr, rind)
  {
    FirstIsTotal(ind, nr, |ind|);
    FirstIsCountAll(ind, nr);
    forall i, j | 0 <= i <= j <= nr
      ensures rptr[i] <= rptr[j]
    {
      FirstGrows(ind, i, j);
    }
    forall s | 0 <= s < |rind|
      ensures 0 <= rind[s] < nf
    {
      var j := Source(nf, nr, ptr, ind, s);
      var i := RowOf(nf, ptr, nf, j);
      assert InRow(ptr, i, j);
      assert At(ind, rind, j, i);
    }
  }

  // ----- One part of the other view -----

  /** Slot s lies in part k exactly if it comes from a position with index k, and it then holds
      the row of that position. */
  lemma PartHoldsRows(nf: int, nr: int, ptr: seq<int>, ind: seq<int>, rptr: seq<int>, rind: seq<int>, k: int, s: int)
    returns (j: int)
    requires ValidCsr(nf, nr, ptr, ind) && IsIndex(nf, nr, ptr, ind, rptr, rind) && InRow(rptr, k, s)
    ensures 0 <= s < |rind| && 0 <= j < |ind| && Slot(ind, j) == s && ind[j] == k && InRow(ptr, rind[s], j)
  {
    IndexIsValid(nf, nr, ptr, ind, rptr, rind);
    j := Source(nf, nr, ptr, ind, s);
    SlotInPart(ind, j);
    var i := RowOf(nf, ptr, nf, j);
    assert InRow(ptr, i, j);
    assert At(ind, rind, j, i);
  }

  /** Part k lists row i exactly if row i has an entry with index k. */
  lemma PartListsRow(nf: int, nr: int, ptr: seq<int>, ind: seq<int>, rptr: seq<int>, rind: seq<int>, k: int, i: int)
    requires ValidCsr(nf, nr, ptr, ind) && IsIndex(nf, nr, ptr, ind, rptr, rind) && 0 <= k < nr
    ensures ValidCsr(nr, nf, rptr, rind)
    ensures (exists s :: InRow(rptr, k, s) && rind[s] == i) <==> (exists j :: InRow(ptr, i, j) && ind[j] == k)
  {
    IndexIsValid(nf, nr, ptr, ind, rptr, rind);
    if s :| InRow(rptr, k, s) && rind[s] == i {
      var j := PartHoldsRows(nf, nr, ptr, ind, rptr, rind, k, s);
    }
    if j :| InRow(ptr, i, j) && ind[j] == k {
      assert At(ind, rind, j, i);
      SlotInPart(ind, j);
      assert InRow(rptr, k, Slot(ind, j)) && rind[Slot(ind, j)] == i;
    }
  }

  /** Within a part, rows ascend; strictly if no row holds an index twice. */
  lemma PartAscends(nf: int, nr: int, ptr: seq<int>, ind: seq<int>, rptr: seq<int>, rind: seq<int>, k: int, s: int,
                    t: int)
    requires ValidCsr(nf, nr, ptr, ind) && IsIndex(nf, nr, ptr, ind, rptr, rind)
    requires InRow(rptr, k, s) && InRow(rptr, k, t) && s < t
    ensures ValidCsr(nr, nf, rptr, rind) && rind[s] <= rind[t]
    ensures rind[s] == rind[t] ==>
              exists i, j :: InRow(ptr, rind[s], i) && InRow(ptr, rind[s], j) && i != j && ind[i] == ind[j]
  {
    IndexIsValid(nf, nr, ptr, ind, rptr, rind);
    var i := PartHoldsRows(nf, nr, ptr, ind, rptr, rind, k, s);
    var j := PartHoldsRows(nf, nr, ptr, ind, rptr, rind, k, t);
    if j < i {
      SlotOrder(ind, j, i);
    }
  }

  // ----- Turning the view twice -----

  /** Where position j ends up after two turns. */
  ghost function Twice(ind: seq<int>, rind: seq<int>, j: int): int
    requires 0 <= j < |ind| && 0 <= Slot(ind, j) < |rind|
  {
    Slot(rind, Slot(ind, j))
  }

  /** Two turns keep every position in its row and sort the row by index, stably: of two positions
      in one row, the one with the smaller index, or with the same index and the smaller
      position, comes first. */
  lemma TwiceSortsRows(nf: int, nr: int, ptr: seq<int>, ind: seq<int>, rptr: seq<int>, rind: seq<int>, i: int, j: int,
                       j': int)
    requires ValidCsr(nf, nr, ptr, ind) && IsIndex(nf, nr, ptr, ind, rptr, rind)
    requires InRow(ptr, i, j) && InRow(ptr, i, j') && (ind[j] < ind[j'] || (ind[j] == ind[j'] && j < j'))
    ensures 0 <= Slot(ind, j) < |rind| && 0 <= Slot(ind, j') < |rind|
    ensures Twice(ind, rind, j) < Twice(ind, rind, j')
  {
    IndexIsValid(nf, nr, ptr, ind, rptr, rind);
    assert At(ind, rind, j, i) && At(ind, rind, j', i);
    SlotOrder(ind, j, j');
    SlotOrder(rind, Slot(ind, j), Slot(ind, j'));
  }

  /** The entry that lands on a position after two turns is the entry it was: same index, same value. */
  lemma TwiceKeepsEntries<V>(nf: int, nr: int, ptr: seq<int>, ind: seq<int>, val: seq<V>,
                          rptr: seq<int>, rind: seq<int>, rval: seq<V>,
                          ptr2: seq<int>, ind2: seq<int>, val2: seq<V>, j: int)
    requires ValidCsr(nf, nr, ptr, ind) && IsIndex(nf, nr, ptr, ind, rptr, rind)
    requires ValidCsr(nr, nf, rptr, rind) && IsIndex(nr, nf, rptr, rind, ptr2, ind2)
    requires |val| == |ind| && |rval| == |rind| && ValuesUpTo(ind, val, rval, |ind|)
             && ValuesUpTo(rind, rval, val2, |rind|)
    requires 0 <= j < |ind|
    ensures 0 <= Slot(ind, j) < |rind| && 0 <= Twice(ind, rind, j) < |ind2| && Twice(ind, rind, j) < |val2|
    ensures ind2[Twice(ind, rind, j)] == ind[j] && val2[Twice(ind, rind, j)] == val[j]
  {
    assert At(ind, rval, j, val[j]);
    var s := Slot(ind, j);
    assert At(rind, val2, s, rval[s]);
    SlotInPart(ind, j);
    assert InRow(rptr, ind[j], s);
    assert At(rind, ind2, s, ind[j]);
  }

  ghost function Holding(ind: seq<int>, k: int, n: int): set<int>
    requires 0 <= n <= |ind|
  {
    set s | 0 <= s < n && ind[s] == k
  }

  lemma {:induction false} HoldingCount(ind: seq<int>, k: int, n: int)
    requires 0 <= n <= |ind|
    ensures |Holding(ind, k, n)| == Count(ind, k, n)
    decreases n
  {
    if n == 0 {
      assert Holding(ind, k, n) == {};
    } else {
      HoldingCount(ind, k, n - 1);
      if ind[n - 1] == k {
        assert Holding(ind, k, n) == Holding(ind, k, n - 1) + {n - 1};
      } else {
        assert Holding(ind, k, n) == Holding(ind, k, n - 1);
      }
    }
  }

  /** The slots of the positions lo..hi. */
  ghost function SlotsOf(ind: seq<int>, lo: int, hi: int): (slots: set<int>)
    requires 0 <= lo && hi <= |ind|
  {
    set j | lo <= j < hi :: Slot(ind, j)
  }

  lemma {:induction false} SlotsOfInterval(ind: seq<int>, lo: int, hi: int)
    requires 0 <= lo <= hi <= |ind| && forall j :: lo <= j < hi ==> 0 <= ind[j]
    ensures |SlotsOf(ind, lo, hi)| == hi - lo
    decreases hi - lo
  {
    hide Slot, Count, First;
    if lo < hi {
      SlotsOfInterval(ind, lo, hi - 1);
      forall j | lo <= j < hi - 1
        ensures Slot(ind, j) != Slot(ind, hi - 1)
      {
        SlotInjective(ind, j, hi - 1);
      }
      assert SlotsOf(ind, lo, hi) == SlotsOf(ind, lo, hi - 1) + {Slot(ind, hi - 1)};
    } else {
      assert SlotsOf(ind, lo, hi) == {};
    }
  }

  /** Row i has as many entries in the other view as in this one. */
  lemma RowSize(nf: int, nr: int, ptr: seq<int>, ind: seq<int>, rptr: seq<int>, rind: seq<int>, i: int)
    requires ValidCsr(nf, nr, ptr, ind) && IsIndex(nf, nr, ptr, ind, rptr, rind) && 0 <= i < nf
    ensures Count(rind, i, |rind|) == ptr[i + 1] - ptr[i]
  {
    HoldingCount(rind, i, |rind|);
    SlotsOfInterval(ind, ptr[i], ptr[i + 1]);
    hide Slot, Count, First, Holding, SlotsOf;
    RowIsSlots(nf, nr, ptr, ind, rptr, rind, i);
  }

  lemma RowIsSlots(nf: int, nr: int, ptr: seq<int>, ind: seq<int>, rptr: seq<int>, rind: seq<int>, i: int)
    requires ValidCsr(nf, nr, ptr, ind) && IsIndex(nf, nr, ptr, ind, rptr, rind) && 0 <= i < nf
    ensures 0 <= ptr[i] <= ptr[i + 1] <= |ind|
    ensures Holding(rind, i, |rind|) == SlotsOf(ind, ptr[i], ptr[i + 1])
  {
    hide Slot, Count, First;
    forall s | s in Holding(rind, i, |rind|)
      ensures s in SlotsOf(ind, ptr[i], ptr[i + 1])
    {
      var j := Source(nf, nr, ptr, ind, s);
      var i' := RowOf(nf, ptr, nf, j);
      assert InRow(ptr, i', j);
      assert At(ind, rind, j, i');
    }
    forall j | ptr[i] <= j < ptr[i + 1]
      ensures Slot(ind, j) in Holding(rind, i, |rind|)
    {
      assert InRow(ptr, i, j);
      assert At(ind, rind, j, i);
    }
  }

  /** So two turns restore the row pointers. */
  lemma {:induction false} PointersReturn(nf: int, nr: int, ptr: seq<int>, ind: seq<int>, rptr: seq<int>,
                                          rind: seq<int>, i: int)
    requires ValidCsr(nf, nr, ptr, ind) && IsIndex(nf, nr, ptr, ind, rptr, rind) && 0 <= i <= nf
    ensures First(rind, i) == ptr[i]
    decreases i
  {
    if i > 0 {
      PointersReturn(nf, nr, ptr, ind, rptr, rind, i - 1);
      RowSize(nf, nr, ptr, ind, rptr, rind, i - 1);
    }
  }

  ghost predicate RowsSorted(ptr: seq<int>, ind: seq<int>)
  {
    forall i, j, j' :: InRow(ptr, i, j) && InRow(ptr, i, j') && j < j' && 0 <= j && j' < |ind| ==> ind[j] <= ind[j']
  }

  /** With sorted rows, no position moves. */
  lemma {:induction false} TwiceAtLeast(nf: int, nr: int, ptr: seq<int>, ind: seq<int>, rptr: seq<int>,
                                        rind: seq<int>, i: int, j: int)
    requires ValidCsr(nf, nr, ptr, ind) && IsIndex(nf, nr, ptr, ind, rptr, rind)
    requires RowsSorted(ptr, ind) && InRow(ptr, i, j)
    ensures 0 <= Slot(ind, j) < |rind| && j <= Twice(ind, rind, j)
    decreases j
  {
    IndexIsValid(nf, nr, ptr, ind, rptr, rind);
    assert At(ind, rind, j, i);
    SlotInPart(rind, Slot(ind, j));
    PointersReturn(nf, nr, ptr, ind, rptr, rind, i);
    if ptr[i] < j {
      TwiceAtLeast(nf, nr, ptr, ind, rptr, rind, i, j - 1);
      TwiceSortsRows(nf, nr, ptr, ind, rptr, rind, i, j - 1, j);
    }
  }

  lemma {:induction false} TwiceAtMost(nf: int, nr: int, ptr: seq<int>, ind: seq<int>, rptr: seq<int>, rind: seq<int>,
                                       i: int, j: int)
    requires ValidCsr(nf, nr, ptr, ind) && IsIndex(nf, nr, ptr, ind, rptr, rind)
    requires RowsSorted(ptr, ind) && InRow(ptr, i, j)
    ensures 0 <= Slot(ind, j) < |rind| && Twice(ind, rind, j) <= j
    decreases ptr[i + 1] - j
  {
    IndexIsValid(nf, nr, ptr, ind, rptr, rind);
    assert At(ind, rind, j, i);
    SlotInPart(rind, Slot(ind, j));
    PointersReturn(nf, nr, ptr, ind, rptr, rind, i + 1);
    if j + 1 < ptr[i + 1] {
      TwiceAtMost(nf, nr, ptr, ind, rptr, rind, i, j + 1);
      TwiceSortsRows(nf, nr, ptr, ind, rptr, rind, i, j, j + 1);
    }
  }

  /** On a matrix with sorted rows, turning the view twice gives back the same arrays. */
  lemma TwiceIsIdentity<V>(nf: int, nr: int, ptr: seq<int>, ind: seq<int>, val: seq<V>,
                        rptr: seq<int>, rind: seq<int>, rval: seq<V>,
                        ptr2: seq<int>, ind2: seq<int>, val2: seq<V>)
    requires ValidCsr(nf, nr, ptr, ind) && IsIndex(nf, nr, ptr, ind, rptr, rind)
    requires ValidCsr(nr, nf, rptr, rind) && IsIndex(nr, nf, rptr, rind, ptr2, ind2)
    requires |val| == |ind| && |rval| == |rind| && |val2| == |ind2|
    requires ValuesUpTo(ind, val, rval, |ind|) && ValuesUpTo(rind, rval, val2, |rind|)
    requires RowsSorted(ptr, ind)
    ensures ptr2 == ptr && ind2 == ind && val2 == val
  {
    forall i | 0 <= i <= nf
      ensures ptr2[i] == ptr[i]
    {
      PointersReturn(nf, nr, ptr, ind, rptr, rind, i);
    }
    forall j | 0 <= j < |ind|
      ensures ind2[j] == ind[j] && val2[j] == val[j]
    {
      var i := RowOf(nf, ptr, nf, j);
      TwiceAtLeast(nf, nr, ptr, ind, rptr, rind, i, j);
      TwiceAtMost(nf, nr, ptr, ind, rptr, rind, i, j);
      TwiceKeepsEntries(nf, nr, ptr, ind, val, rptr, rind, rval, ptr2, ind2, val2, j);
    }
  }

  /** There is only one index of a matrix, so the ways to compute it agree. */
  lemma IndexUnique(nf: int, nr: int, ptr: seq<int>, ind: seq<int>, rptr: seq<int>, rind: seq<int>,
                    rptr': seq<int>, rind': seq<int>)
    requires ValidCsr(nf, nr, ptr, ind)
    requires IsIndex(nf, nr, ptr, ind, rptr, rind) && IsIndex(nf, nr, ptr, ind, rptr', rind')
    ensures rptr == rptr' && rind == rind'
  {
    forall s | 0 <= s < |ind|
      ensures rind[s] == rind'[s]
    {
      var j := Source(nf, nr, ptr, ind, s);
      var i := RowOf(nf, ptr, nf, j);
      assert InRow(ptr, i, j);
      assert At(ind, rind, j, i) && At(ind, rind', j, i);
    }
  }

  /** The same for the values. */
  lemma ValuesUnique<V>(nf: int, nr: int, ptr: seq<int>, ind: seq<int>, val: seq<V>, rval: seq<V>, rval': seq<V>)
    requires ValidCsr(nf, nr, ptr, ind) && |val| == |rval| == |rval'| == |ind|
    requires ValuesUpTo(ind, val, rval, |ind|) && ValuesUpTo(ind, val, rval', |ind|)
    ensures rval == rval'
  {
    forall s | 0 <= s < |ind|
      ensures rval[s] == rval'[s]
    {
      var j := Source(nf, nr, ptr, ind, s);
      assert At(ind, rval, j, val[j]) && At(ind, rval', j, val[j]);
    }
  }
}
