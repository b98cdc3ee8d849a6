/** The compressed-row matrix of src/csr.c and the counting sort that turns a row view into a
    column view (gk_csr_CreateIndex, gk_csr_Transpose) with the macros of include/gk_macros.h. */
module Csr {
  import opened Sequences

  /** ptr cuts the positions of ind into nf rows; every index lies below nr. */
  ghost predicate ValidCsr(nf: int, nr: int, ptr: seq<int>, ind: seq<int>)
  {
    && 0 <= nf && 0 <= nr && |ptr| == nf + 1 && ptr[0] == 0 && ptr[nf] == |ind|
    && (forall i, j :: 0 <= i <= j <= nf ==> ptr[i] <= ptr[j])
    && (forall j :: 0 <= j < |ind| ==> 0 <= ind[j] < nr)
  }

  /** Position j belongs to row i. */
  ghost predicate InRow(ptr: seq<int>, i: int, j: int)
  {
    0 <= i < |ptr| - 1 && ptr[i] <= j < ptr[i + 1]
  }

  // ----- Where the counting sort puts position j -----

  /** How many of the first n positions hold index k. */
  ghost function Count(ind: seq<int>, k: int, n: int): (c: int)
    requires n <= |ind|
    ensures 0 <= c && (n >= 0 ==> c <= n)
    decreases n
  {
    if n <= 0 then 0 else Count(ind, k, n - 1) + if ind[n - 1] == k then 1 else 0
  }

  /** How many positions hold an index below k. */
  ghost function First(ind: seq<int>, k: int): (c: int)
    ensures 0 <= c
    decreases k
  {
    if k <= 0 then 0 else First(ind, k - 1) + Count(ind, k - 1, |ind|)
  }

  ghost function Slot(ind: seq<int>, j: int): int
    requires 0 <= j < |ind|
  {
    First(ind, ind[j]) + Count(ind, ind[j], j)
  }

  lemma {:induction false} CountGrows(ind: seq<int>, k: int, m: int, n: int)
    requires m <= n <= |ind|
    ensures Count(ind, k, m) <= Count(ind, k, n)
    decreases n - m
  {
    if m < n {
      CountGrows(ind, k, m, n - 1);
    }
  }

  lemma {:induction false} FirstGrows(ind: seq<int>, k: int, l: int)
    requires k <= l
    ensures First(ind, k) <= First(ind, l)
    decreases l - k
  {
    if k < l {
      FirstGrows(ind, k, l - 1);
    }
  }

  /** Slots lie in the part of their index, and no two positions share one. */
  lemma SlotInPart(ind: seq<int>, j: int)
    requires 0 <= j < |ind| && 0 <= ind[j]
    ensures First(ind, ind[j]) <= Slot(ind, j) < First(ind, ind[j] + 1)
  {
    CountGrows(ind, ind[j], j + 1, |ind|);
  }

  /** Slots are ordered by index first and by position second: the sort is stable. */
  lemma SlotOrder(ind: seq<int>, i: int, j: int)
    requires 0 <= i < |ind| && 0 <= j < |ind| && 0 <= ind[i] && 0 <= ind[j]
    requires ind[i] < ind[j] || (ind[i] == ind[j] && i < j)
    ensures Slot(ind, i) < Slot(ind, j)
  {
    SlotInPart(ind, i);
    SlotInPart(ind, j);
    if ind[i] < ind[j] {
      FirstGrows(ind, ind[i] + 1, ind[j]);
    } else {
      CountGrows(ind, ind[i], i + 1, j);
    }
  }

  lemma SlotInjective(ind: seq<int>, i: int, j: int)
    requires 0 <= i < |ind| && 0 <= j < |ind| && i != j && 0 <= ind[i] && 0 <= ind[j]
    ensures Slot(ind, i) != Slot(ind, j)
  {
    if ind[i] < ind[j] || (ind[i] == ind[j] && i < j) {
      SlotOrder(ind, i, j);
    } else {
      SlotOrder(ind, j, i);
    }
  }

  /** All counts together make up all positions. */
  lemma {:induction false} FirstIsTotal(ind: seq<int>, nr: int, n: int)
    requires 0 <= n <= |ind| && 0 <= nr && forall j :: 0 <= j < |ind| ==> 0 <= ind[j] < nr
    ensures CountAll(ind, nr, n) == n
  {
    if n == 0 {
      CountNone(ind, nr);
    } else {
      FirstIsTotal(ind, nr, n - 1);
      CountOneMore(ind, nr, n);
    }
  }

  ghost function CountAll(ind: seq<int>, k: int, n: int): int
    requires n <= |ind|
    decreases k
  {
    if k <= 0 then 0 else CountAll(ind, k - 1, n) + Count(ind, k - 1, n)
  }

  lemma {:induction false} CountNone(ind: seq<int>, k: int)
    ensures CountAll(ind, k, 0) == 0
    decreases k
  {
    if k > 0 {
      CountNone(ind, k - 1);
    }
  }

  lemma {:induction false} CountOneMore(ind: seq<int>, k: int, n: int)
    requires 0 < n <= |ind| && 0 <= ind[n - 1]
    ensures CountAll(ind, k, n) == CountAll(ind, k, n - 1) + if ind[n - 1] < k then 1 else 0
    decreases k
  {
    if k > 0 {
      CountOneMore(ind, k - 1, n);
    }
  }

  lemma {:induction false} FirstIsCountAll(ind: seq<int>, k: int)
    ensures First(ind, k) == CountAll(ind, k, |ind|)
    decreases k
  {
    if k > 0 {
      FirstIsCountAll(ind, k - 1);
    }
  }

  lemma SlotInRange(nf: int, nr: int, ptr: seq<int>, ind: seq<int>, j: int)
    requires ValidCsr(nf, nr, ptr, ind) && 0 <= j < |ind|
    ensures First(ind, nr) == |ind| && 0 <= Slot(ind, j) < |ind|
  {
    FirstIsTotal(ind, nr, |ind|);
    FirstIsCountAll(ind, nr);
    SlotInPart(ind, j);
    FirstGrows(ind, ind[j] + 1, nr);
  }

  // ----- The macros -----

  /** MAKECSR: turns counts into starting points. */
  method MakeCsr(n: nat, a: array<int>)
    requires a.Length == n + 1
    modifies a
    ensures forall k :: 0 <= k <= n ==> a[k] == Sum(old(a[..])[..k])
  {
    hide Sum;
    ghost var s := a[..];
    var i := 1;
    FirstSum(s);
    while i < n
      invariant 1 <= i && (i <= n || n == 0)
      invariant forall k :: 0 <= k < i && k < n ==> a[k] == Sum(s[..k + 1])
      invariant forall k :: i <= k <= n ==> a[k] == s[k]
    {
      SumPrefix(s, i);
      a[i] := a[i] + a[i - 1];
      i := i + 1;
    }
    i := n;
    while i > 0
      invariant 0 <= i <= n
      invariant forall k :: 0 <= k < i ==> a[k] == Sum(s[..k + 1])
      invariant forall k :: i < k <= n ==> a[k] == Sum(s[..k])
    {
      a[i] := a[i - 1];
      i := i - 1;
    }
    a[0] := 0;
  }

  lemma FirstSum(s: seq<int>)
    requires s != []
    ensures Sum(s[..0]) == 0 && Sum(s[..1]) == s[0]
  {
    SumPrefix(s, 0);
  }

  /** SHIFTCSR: moves the starting points back after they have been advanced. */
  method ShiftCsr(n: nat, a: array<int>)
    requires a.Length == n + 1
    modifies a
    ensures a[0] == 0 && forall k :: 0 < k <= n ==> a[k] == old(a[k - 1])
  {
    var i: int := n;
    while i > 0
      invariant 0 <= i <= n
      invariant forall k :: 0 <= k <= i ==> a[k] == old(a[k])
      invariant forall k :: i < k <= n ==> a[k] == old(a[k - 1])
    {
      a[i] := a[i - 1];
      i := i - 1;
    }
    a[0] := 0;
  }

  // ----- gk_csr_CreateIndex -----

  /** rptr and rind are the other view: the part of index k starts at First(k), and the slot of
      position j holds the row of j. */
  ghost predicate IsIndex(nf: int, nr: int, ptr: seq<int>, ind: seq<int>, rptr: seq<int>, rind: seq<int>)
    requires ValidCsr(nf, nr, ptr, ind)
  {
    && |rptr| == nr + 1 && (forall k :: 0 <= k <= nr ==> rptr[k] == First(ind, k))
    && |rind| == |ind| && RowsUpTo(nf, nr, ptr, ind, rind, |ind|)
  }

  ghost predicate RowsUpTo(nf: int, nr: int, ptr: seq<int>, ind: seq<int>, rind: seq<int>, n: int)
    requires ValidCsr(nf, nr, ptr, ind) && |rind| == |ind|
  {
    forall i, j :: InRow(ptr, i, j) && j < n ==> At(ind, rind, j, i)
  }

  ghost predicate ValuesUpTo<V>(ind: seq<int>, val: seq<V>, rval: seq<V>, n: int)
    requires |val| == |ind| && n <= |ind|
  {
    forall j :: 0 <= j < n ==> At(ind, rval, j, val[j])
  }

  /** The slot of position j holds x. */
  ghost predicate At<V>(ind: seq<int>, target: seq<V>, j: int, x: V)
  {
    0 <= j < |ind| && 0 <= Slot(ind, j) < |target| && target[Slot(ind, j)] == x
  }

  ghost predicate Advanced(nr: int, ind: seq<int>, rptr: seq<int>, n: int)
    requires n <= |ind|
  {
    |rptr| == nr + 1 && forall k :: 0 <= k < nr ==> rptr[k] == First(ind, k) + Count(ind, k, n)
  }

  /** Writing one slot leaves the slots of earlier positions alone. */
  lemma WriteSlot<V>(nf: int, nr: int, ptr: seq<int>, ind: seq<int>, target: seq<V>, x: V, n: int)
    requires ValidCsr(nf, nr, ptr, ind) && 0 <= n < |ind| && |target| == |ind|
    ensures 0 <= Slot(ind, n) < |ind| && At(ind, target[Slot(ind, n) := x], n, x)
    ensures forall j, y :: 0 <= j < n && At(ind, target, j, y) ==> At(ind, target[Slot(ind, n) := x], j, y)
  {
    SlotInRange(nf, nr, ptr, ind, n);
    forall j, y | 0 <= j < n && At(ind, target, j, y)
      ensures At(ind, target[Slot(ind, n) := x], j, y)
    {
      SlotInjective(ind, j, n);
    }
  }

  /** The slot that comes next for index find[j], and what advancing its pointer leads to. */
  lemma NextSlot(nf: int, nr: int, ptr: seq<int>, ind: seq<int>, rptr: seq<int>, j: int)
    requires ValidCsr(nf, nr, ptr, ind) && 0 <= j < |ind| && Advanced(nr, ind, rptr, j)
    ensures 0 <= ind[j] < nr && rptr[ind[j]] == Slot(ind, j)
    ensures Advanced(nr, ind, rptr[ind[j] := rptr[ind[j]] + 1], j + 1)
  {
  }

  lemma RowStep(nf: int, nr: int, ptr: seq<int>, ind: seq<int>, rind: seq<int>, i: int, j: int)
    requires ValidCsr(nf, nr, ptr, ind) && InRow(ptr, i, j) && j < |ind| == |rind|
    requires RowsUpTo(nf, nr, ptr, ind, rind, j)
    ensures 0 <= Slot(ind, j) < |ind| && RowsUpTo(nf, nr, ptr, ind, rind[Slot(ind, j) := i], j + 1)
  {
    WriteSlot(nf, nr, ptr, ind, rind, i, j);
    forall i', j' | InRow(ptr, i', j') && j' < j + 1
      ensures At(ind, rind[Slot(ind, j) := i], j', i')
    {
      if j' == j {
        assert i' == i;
      } else {
        assert At(ind, rind, j', i');
      }
    }
  }

  lemma ValueStep<V>(nf: int, nr: int, ptr: seq<int>, ind: seq<int>, val: seq<V>, rval: seq<V>, j: int)
    requires ValidCsr(nf, nr, ptr, ind) && 0 <= j < |ind| == |rval| == |val|
    requires ValuesUpTo(ind, val, rval, j)
    ensures 0 <= Slot(ind, j) < |ind| && ValuesUpTo(ind, val, rval[Slot(ind, j) := val[j]], j + 1)
  {
    WriteSlot(nf, nr, ptr, ind, rval, val[j], j);
  }

  /** One run over all positions in row order, writing rows, values or both. */
  method Scatter<V>(nf: int, nr: int, fptr: seq<int>, find: seq<int>, rptr: array<int>,
                 rows: bool, rind: array<int>, vals: bool, fval: seq<V>, rval: array<V>)
    requires ValidCsr(nf, nr, fptr, find) && rptr != rind && rptr as object != rval && rind as object != rval
    requires rptr.Length == nr + 1 && forall k :: 0 <= k <= nr ==> rptr[k] == First(find, k)
    requires (rows ==> rind.Length == |find|) && (vals ==> rval.Length == |fval| == |find|)
    modifies rptr, rind, rval
    ensures forall k :: 0 <= k < nr ==> rptr[k] == First(find, k + 1)
    ensures if rows then RowsUpTo(nf, nr, fptr, find, rind[..], |find|) else rind[..] == old(rind[..])
    ensures if vals then ValuesUpTo(find, fval, rval[..], |find|) else rval[..] == old(rval[..])
  {
    hide Slot, RowsUpTo, ValuesUpTo, Advanced;
    ScatterStart(nf, nr, fptr, find, rptr[..], rind[..], fval, rval[..]);
    for i := 0 to nf
      invariant Advanced(nr, find, rptr[..], fptr[i])
      invariant if rows then RowsUpTo(nf, nr, fptr, find, rind[..], fptr[i]) else rind[..] == old(rind[..])
      invariant if vals then ValuesUpTo(find, fval, rval[..], fptr[i]) else rval[..] == old(rval[..])
    {
      for j := fptr[i] to fptr[i + 1]
        invariant Advanced(nr, find, rptr[..], j)
        invariant if rows then RowsUpTo(nf, nr, fptr, find, rind[..], j) else rind[..] == old(rind[..])
        invariant if vals then ValuesUpTo(find, fval, rval[..], j) else rval[..] == old(rval[..])
      {
        var k := find[j];
        NextSlot(nf, nr, fptr, find, rptr[..], j);
        ghost var slot := rptr[k];
        if rows {
          RowStep(nf, nr, fptr, find, rind[..], i, j);
          ghost var rind' := rind[..][slot := i];
          rind[rptr[k]] := i;
          assert rind[..] == rind';
        }
        if vals {
          ValueStep(nf, nr, fptr, find, fval, rval[..], j);
          ghost var rval' := rval[..][slot := fval[j]];
          rval[rptr[k]] := fval[j];
          assert rval[..] == rval';
        }
        ghost var rptr' := rptr[..][k := slot + 1];
        rptr[k] := rptr[k] + 1;
        assert rptr[..] == rptr';
      }
    }
    ScatterEnd(nr, find, rptr[..]);
  }

  lemma ScatterStart<V>(nf: int, nr: int, ptr: seq<int>, ind: seq<int>, rptr: seq<int>, rind: seq<int>,
                     val: seq<V>, rval: seq<V>)
    requires ValidCsr(nf, nr, ptr, ind)
    requires |rptr| == nr + 1 && forall k :: 0 <= k <= nr ==> rptr[k] == First(ind, k)
    ensures Advanced(nr, ind, rptr, 0)
    ensures |rind| == |ind| ==> RowsUpTo(nf, nr, ptr, ind, rind, 0)
    ensures |val| == |ind| ==> ValuesUpTo(ind, val, rval, 0)
  {
  }

  lemma ScatterEnd(nr: int, ind: seq<int>, rptr: seq<int>)
    requires Advanced(nr, ind, rptr, |ind|)
    ensures forall k :: 0 <= k < nr ==> rptr[k] == First(ind, k + 1)
  {
  }

  /** Counts the positions of every index. */
  method CountIndices(nf: int, nr: int, fptr: seq<int>, find: seq<int>, rptr: array<int>)
    requires ValidCsr(nf, nr, fptr, find) && rptr.Length == nr + 1 && forall k :: 0 <= k <= nr ==> rptr[k] == 0
    modifies rptr
    ensures forall k :: 0 <= k < nr ==> rptr[k] == Count(find, k, |find|)
  {
    for i := 0 to nf
      invariant forall k :: 0 <= k < nr ==> rptr[k] == Count(find, k, fptr[i])
    {
      for j := fptr[i] to fptr[i + 1]
        invariant forall k :: 0 <= k < nr ==> rptr[k] == Count(find, k, j)
      {
        rptr[find[j]] := rptr[find[j]] + 1;
      }
    }
  }

  lemma {:induction false} SumIsFirst(ind: seq<int>, counts: seq<int>, n: nat, k: int)
    requires |counts| == n + 1 && 0 <= k <= n
    requires forall l :: 0 <= l < n ==> counts[l] == Count(ind, l, |ind|)
    ensures Sum(counts[..k]) == First(ind, k)
    decreases k
  {
    if k > 0 {
      SumIsFirst(ind, counts, n, k - 1);
      SumPrefix(counts, k - 1);
    }
  }

  method ShiftBack(nr: int, ghost find: seq<int>, rptr: array<int>)
    requires 0 <= nr && rptr.Length == nr + 1
    requires forall k :: 0 <= k < nr ==> rptr[k] == First(find, k + 1)
    modifies rptr
    ensures forall k :: 0 <= k <= nr ==> rptr[k] == First(find, k)
  {
    ghost var s := rptr[..];
    ShiftCsr(nr, rptr);
    forall k | 0 < k <= nr
      ensures rptr[k] == First(find, k)
    {
      assert rptr[k] == s[k - 1];
    }
  }

  /** The other view of a matrix.  With many entries per index, rows and values are written in two
      runs; otherwise, as in gk_csr_Transpose, in one: the arrays are the same. */
  method CreateIndex<V>(nf: int, nr: int, fptr: seq<int>, find: seq<int>, hasVal: bool, fval: seq<V>, zero: V)
    returns (rptr: array<int>, rind: array<int>, rval: array<V>)
    requires ValidCsr(nf, nr, fptr, find) && (hasVal ==> |fval| == |find|)
    ensures fresh(rptr) && fresh(rind) && fresh(rval) && rptr != rind
    ensures IsIndex(nf, nr, fptr, find, rptr[..], rind[..])
    ensures hasVal ==> rval.Length == |find| && ValuesUpTo(find, fval, rval[..], |find|)
  {
    hide Slot, RowsUpTo, ValuesUpTo, Count, First;
    rptr := new int[nr + 1](_ => 0);
    rind := new int[|find|](_ => 0);
    rval := new V[if hasVal then |find| else 0](_ => zero);
    CountIndices(nf, nr, fptr, find, rptr);
    ghost var counts := rptr[..];
    MakeCsr(nr, rptr);
    forall k | 0 <= k <= nr
      ensures rptr[k] == First(find, k)
    {
      SumIsFirst(find, counts, nr, k);
    }
    if rptr[nr] > 6 * nr {
      Scatter(nf, nr, fptr, find, rptr, true, rind, false, fval, rval);
      ShiftBack(nr, find, rptr);
      if hasVal {
        Scatter(nf, nr, fptr, find, rptr, false, rind, true, fval, rval);
        ShiftBack(nr, find, rptr);
      }
    } else {
      Scatter(nf, nr, fptr, find, rptr, true, rind, hasVal, fval, rval);
      ShiftBack(nr, find, rptr);
    }
  }
}
