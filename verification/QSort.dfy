/** GK_MKQSORT (include/gk_mksort.h): quicksort with an explicit stack of fixed size that leaves
    small partitions unsorted, followed by an insertion sort whose inner loop has no bounds
    check.  The element type and the comparison are parameters, as in the macro. */
module QSort {
  import opened Finite
  import Sequences

  /** The comparison as a function that does not look at the heap. */
  predicate Less<T>(lt: (T, T) -> bool, x: T, y: T)
  {
    lt(x, y)
  }

  /** All the macro may assume of its comparison. */
  ghost predicate StrictWeakOrder<T(!new)>(lt: (T, T) -> bool)
  {
    && (forall x, y :: Less(lt, x, y) ==> !Less(lt, y, x))
    && (forall x, y, z :: Less(lt, x, z) ==> Less(lt, x, y) || Less(lt, y, z))
  }

  ghost predicate Sorted<T>(lt: (T, T) -> bool, s: seq<T>)
  {
    forall i, j :: 0 <= i < j < |s| ==> !Less(lt, s[j], s[i])
  }

  // ----- Rearranging a segment -----

  /** s' is s with the elements of [lo, hi) rearranged among themselves. */
  ghost predicate Rearranged<T>(s: seq<T>, s': seq<T>, lo: int, hi: int)
  {
    && 0 <= lo <= hi <= |s| == |s'|
    && s'[..lo] == s[..lo] && s'[hi..] == s[hi..]
    && multiset(s'[lo..hi]) == multiset(s[lo..hi])
  }

  lemma SwapRearranges<T>(s: seq<T>, s': seq<T>, i: int, j: int, lo: int, hi: int)
    requires 0 <= lo <= i < hi <= |s| && lo <= j < hi
    requires s' == s[i := s[j]][j := s[i]]
    ensures Rearranged(s, s', lo, hi)
  {
    assert s'[lo..hi] == s[lo..hi][i - lo := s[lo..hi][j - lo]][j - lo := s[lo..hi][i - lo]];
  }

  lemma RearrangedTwice<T>(s: seq<T>, s': seq<T>, s'': seq<T>, lo: int, hi: int)
    requires Rearranged(s, s', lo, hi) && Rearranged(s', s'', lo, hi)
    ensures Rearranged(s, s'', lo, hi)
  {
  }

  lemma RearrangedAll<T>(s: seq<T>, s': seq<T>, lo: int, hi: int)
    requires Rearranged(s, s', lo, hi)
    ensures multiset(s') == multiset(s)
  {
    assert s == s[..lo] + s[lo..hi] + s[hi..];
    assert s' == s'[..lo] + s'[lo..hi] + s'[hi..];
  }

  /** Every element of the segment was in the segment before. */
  lemma ComesFrom<T>(s: seq<T>, s': seq<T>, lo: int, hi: int, i: int) returns (k: int)
    requires Rearranged(s, s', lo, hi) && 0 <= i < |s|
    ensures if lo <= i < hi then lo <= k < hi else k == i
    ensures 0 <= k < |s| && s'[i] == s[k]
  {
    if lo <= i < hi {
      assert s'[lo..hi][i - lo] in multiset(s'[lo..hi]);
      assert s'[i] in s[lo..hi];
      var x :| 0 <= x < hi - lo && s[lo..hi][x] == s'[i];
      k := lo + x;
    } else {
      k := i;
      assert i < lo ==> s'[..lo][i] == s[..lo][i];
      assert i >= hi ==> s'[hi..][i - hi] == s[hi..][i - hi];
    }
  }

  // ----- Cuts: positions that everything respects already -----

  /** Nothing before c is greater than anything from c on. */
  ghost predicate Cut<T>(lt: (T, T) -> bool, s: seq<T>, c: int)
  {
    forall i, j :: 0 <= i < c <= j < |s| ==> !Less(lt, s[j], s[i])
  }

  /** Rearranging a segment does not disturb the cuts outside it. */
  lemma CutStays<T>(lt: (T, T) -> bool, s: seq<T>, s': seq<T>, lo: int, hi: int, c: int)
    requires Rearranged(s, s', lo, hi) && Cut(lt, s, c) && (c <= lo || hi <= c)
    ensures Cut(lt, s', c)
  {
    forall i, j | 0 <= i < c <= j < |s'|
      ensures !Less(lt, s'[j], s'[i])
    {
      var i0 := ComesFrom(s, s', lo, hi, i);
      var j0 := ComesFrom(s, s', lo, hi, j);
    }
  }

  // ----- The pending segments -----

  type Segment = (int, int)  // first and last index

  ghost predicate InSegment(segs: seq<Segment>, i: int, j: int)
  {
    exists k :: 0 <= k < |segs| && segs[k].0 <= i && j <= segs[k].1
  }

  ghost predicate Apart(p: Segment, q: Segment)
  {
    p.1 < q.0 || q.1 < p.0
  }

  /** The pending segments are disjoint, large, and surrounded by cuts. */
  ghost predicate Pending<T>(lt: (T, T) -> bool, s: seq<T>, segs: seq<Segment>)
  {
    && (forall k :: 0 <= k < |segs| ==> 0 <= segs[k].0 && segs[k].0 + THRESH <= segs[k].1 < |s|)
    && (forall k :: 0 <= k < |segs| ==> Cut(lt, s, segs[k].0) && Cut(lt, s, segs[k].1 + 1))
    && (forall k, l :: 0 <= k < l < |segs| ==> Apart(segs[k], segs[l]))
  }

  /** Elements more than THRESH apart are in order unless they share a pending segment. */
  ghost predicate FarOrdered<T>(lt: (T, T) -> bool, s: seq<T>, segs: seq<Segment>)
  {
    forall i, j :: 0 <= i && i + THRESH < j < |s| ==> !Less(lt, s[j], s[i]) || InSegment(segs, i, j)
  }

  const THRESH := 8

  /** The k-th pending segment has at most a 2^k-th part of all elements. */
  ghost predicate Halving(n: int, segs: seq<Segment>)
  {
    forall k :: 0 <= k < |segs| ==> (segs[k].1 - segs[k].0 + 1) * Pow2(k) <= n
  }

  /** A partition of [lo, hi] into [lo, right] and [left, hi], up to one element between them. */
  ghost predicate Split<T>(lt: (T, T) -> bool, s: seq<T>, lo: int, hi: int, left: int, right: int)
  {
    && 0 <= lo <= right < left <= hi < |s| && left <= right + 2
    && Cut(lt, s, left) && Cut(lt, s, right + 1)
  }

  /** What remains to be sorted after a partition: the parts above the threshold. */
  ghost function Parts(lo: int, hi: int, left: int, right: int): seq<Segment>
  {
    if right - lo <= THRESH then
      if hi - left <= THRESH then [] else [(left, hi)]
    else if hi - left <= THRESH then [(lo, right)]
    else if right - lo > hi - left then [(lo, right), (left, hi)]
    else [(left, hi), (lo, right)]
  }

  lemma PartsPending<T>(lt: (T, T) -> bool, s: seq<T>, s': seq<T>, pre: seq<Segment>, lo: int, hi: int,
                        left: int, right: int)
    requires Pending(lt, s, pre + [(lo, hi)]) && Rearranged(s, s', lo, hi + 1)
    requires Split(lt, s', lo, hi, left, right)
    ensures Pending(lt, s', pre + Parts(lo, hi, left, right))
  {
    var segs, segs' := pre + [(lo, hi)], pre + Parts(lo, hi, left, right);
    PartsApart(lt, s, pre, lo, hi, left, right, s');
    assert segs[|pre|] == (lo, hi);
    hide Less, Cut, Rearranged;
    CutStays(lt, s, s', lo, hi + 1, lo);
    CutStays(lt, s, s', lo, hi + 1, hi + 1);
    forall k | 0 <= k < |segs'|
      ensures 0 <= segs'[k].0 && segs'[k].0 + THRESH <= segs'[k].1 < |s'|
      ensures Cut(lt, s', segs'[k].0) && Cut(lt, s', segs'[k].1 + 1)
    {
      if k < |pre| {
        SegmentStays(lt, s, s', pre, lo, hi, k);
      }
    }
  }

  lemma SegmentStays<T>(lt: (T, T) -> bool, s: seq<T>, s': seq<T>, pre: seq<Segment>, lo: int, hi: int, k: int)
    requires Pending(lt, s, pre + [(lo, hi)]) && Rearranged(s, s', lo, hi + 1) && 0 <= k < |pre|
    ensures 0 <= pre[k].0 && pre[k].0 + THRESH <= pre[k].1 < |s'|
    ensures Cut(lt, s', pre[k].0) && Cut(lt, s', pre[k].1 + 1)
  {
    var segs := pre + [(lo, hi)];
    assert segs[k] == pre[k] && segs[|pre|] == (lo, hi) && Apart(segs[k], segs[|pre|]);
    hide Less, Cut;
    CutStays(lt, s, s', lo, hi + 1, pre[k].0);
    CutStays(lt, s, s', lo, hi + 1, pre[k].1 + 1);
  }

  lemma PartsApart<T>(lt: (T, T) -> bool, s: seq<T>, pre: seq<Segment>, lo: int, hi: int, left: int, right: int,
                      s': seq<T>)
    requires Pending(lt, s, pre + [(lo, hi)]) && Rearranged(s, s', lo, hi + 1) && Split(lt, s', lo, hi, left, right)
    ensures |s'| == |s|
    ensures var segs' := pre + Parts(lo, hi, left, right);
            forall k, l :: 0 <= k < l < |segs'| ==> Apart(segs'[k], segs'[l])
  {
    hide Less, Cut;
    var segs, segs' := pre + [(lo, hi)], pre + Parts(lo, hi, left, right);
    assert segs[|pre|] == (lo, hi);
    forall k, l | 0 <= k < l < |segs'|
      ensures Apart(segs'[k], segs'[l])
    {
      if k < |pre| {
        assert segs[k] == pre[k];
        assert Apart(segs[k], segs[if l < |pre| then l else |pre|]);
      }
    }
  }

  lemma PartsFarOrdered<T>(lt: (T, T) -> bool, s: seq<T>, s': seq<T>, pre: seq<Segment>, lo: int, hi: int,
                           left: int, right: int)
    requires Pending(lt, s, pre + [(lo, hi)]) && FarOrdered(lt, s, pre + [(lo, hi)])
    requires Rearranged(s, s', lo, hi + 1) && Split(lt, s', lo, hi, left, right)
    ensures FarOrdered(lt, s', pre + Parts(lo, hi, left, right))
  {
    var segs, segs' := pre + [(lo, hi)], pre + Parts(lo, hi, left, right);
    assert segs[|pre|] == (lo, hi);
    forall i, j | 0 <= i && i + THRESH < j < |s'|
      ensures !Less(lt, s'[j], s'[i]) || InSegment(segs', i, j)
    {
      if lo <= i <= hi || lo <= j <= hi {
        FarInside(lt, s, s', pre, lo, hi, left, right, i, j);
      } else {
        var i0 := ComesFrom(s, s', lo, hi + 1, i);
        var j0 := ComesFrom(s, s', lo, hi + 1, j);
        if InSegment(segs, i, j) {
          KeepsSegment(pre, (lo, hi), Parts(lo, hi, left, right), i, j);
        }
      }
    }
  }

  lemma KeepsSegment(pre: seq<Segment>, seg: Segment, parts: seq<Segment>, i: int, j: int)
    requires InSegment(pre + [seg], i, j) && !(seg.0 <= i && j <= seg.1)
    ensures InSegment(pre + parts, i, j)
  {
    var k :| 0 <= k < |pre + [seg]| && (pre + [seg])[k].0 <= i && j <= (pre + [seg])[k].1;
    assert (pre + parts)[k] == pre[k];
  }

  lemma FarInside<T>(lt: (T, T) -> bool, s: seq<T>, s': seq<T>, pre: seq<Segment>, lo: int, hi: int,
                     left: int, right: int, i: int, j: int)
    requires Cut(lt, s, lo) && Cut(lt, s, hi + 1) && 0 <= lo <= hi < |s|
    requires Rearranged(s, s', lo, hi + 1) && Split(lt, s', lo, hi, left, right)
    requires 0 <= i && i + THRESH < j < |s'| && (lo <= i <= hi || lo <= j <= hi)
    ensures !Less(lt, s'[j], s'[i]) || InSegment(pre + Parts(lo, hi, left, right), i, j)
  {
    var parts := Parts(lo, hi, left, right);
    var segs' := pre + parts;
    CutStays(lt, s, s', lo, hi + 1, lo);
    CutStays(lt, s, s', lo, hi + 1, hi + 1);
    if lo <= i && j <= right {
      var k := if (lo, right) == parts[0] then |pre| else |pre| + 1;
      assert segs'[k] == (lo, right);
    } else if left <= i && j <= hi {
      var k := if (left, hi) == parts[0] then |pre| else |pre| + 1;
      assert segs'[k] == (left, hi);
    }
  }

  lemma PartsHalving(n: int, pre: seq<Segment>, lo: int, hi: int, left: int, right: int)
    requires Halving(n, pre + [(lo, hi)]) && lo <= right < left <= hi
    ensures Halving(n, pre + Parts(lo, hi, left, right))
  {
    var k := |pre|;
    var segs, parts := pre + [(lo, hi)], Parts(lo, hi, left, right);
    assert segs[k] == (lo, hi);
    forall l | 0 <= l < |pre + parts|
      ensures ((pre + parts)[l].1 - (pre + parts)[l].0 + 1) * Pow2(l) <= n
    {
      if l < k {
        assert segs[l] == pre[l];
      } else if l == k {
        SmallerFits(parts[0].1 - parts[0].0 + 1, hi - lo + 1, Pow2(k));
      } else {
        SmallerFits(2 * (parts[1].1 - parts[1].0 + 1), hi - lo + 1, Pow2(k));
      }
    }
  }

  lemma SmallerFits(part: int, whole: int, times: nat)
    requires part <= whole
    ensures part * times <= whole * times
  {
  }

  /** The stack cannot overflow: with more than THRESH elements in the smallest pending segment, fewer
      than `bits` segments can be pending when the number of elements fits in `bits` bits. */
  lemma StackFits(n: int, segs: seq<Segment>, bits: nat)
    requires Halving(n, segs) && n < Pow2(bits)
    requires segs != [] && segs[|segs| - 1].0 + THRESH <= segs[|segs| - 1].1
    ensures |segs| < bits
  {
    var k := |segs| - 1;
    SmallerFits(8, segs[k].1 - segs[k].0 + 1, Pow2(k));
    if bits <= |segs| {
      Pow2Grows(bits, k + 1);
    }
  }

  // ----- The partition -----

  /** Everything in [lo, left) is at most p and everything in (right, hi] is at least p. */
  ghost predicate Around<T>(lt: (T, T) -> bool, s: seq<T>, p: T, lo: int, hi: int, left: int, right: int)
  {
    && 0 <= lo && hi < |s|
    && (forall k :: lo <= k < left && k <= hi ==> !Less(lt, p, s[k]))
    && (forall k :: right < k <= hi && lo <= k ==> !Less(lt, s[k], p))
  }

  lemma AroundIsCut<T(!new)>(lt: (T, T) -> bool, s: seq<T>, p: T, lo: int, hi: int, left: int, right: int, c: int)
    requires StrictWeakOrder(lt) && Around(lt, s, p, lo, hi, left, right)
    requires lo <= c <= left && right < c <= hi + 1
    requires Cut(lt, s, lo) && Cut(lt, s, hi + 1)
    ensures Cut(lt, s, c)
  {
    forall i, j | 0 <= i < c <= j < |s|
      ensures !Less(lt, s[j], s[i])
    {
      if lo <= i && j <= hi {
        assert !Less(lt, p, s[i]) && !Less(lt, s[j], p);
      }
    }
  }

  /** _GKQSORT_SWAP inside a segment. */
  method Swap<T>(a: array<T>, i: int, j: int, ghost s: seq<T>, ghost lo: int, ghost hi: int)
    requires 0 <= lo <= i < hi <= a.Length && lo <= j < hi
    requires Rearranged(s, a[..], lo, hi)
    modifies a
    ensures a[i] == old(a[j]) && a[j] == old(a[i])
    ensures forall k :: 0 <= k < a.Length && k != i && k != j ==> a[k] == old(a[k])
    ensures Rearranged(s, a[..], lo, hi)
  {
    ghost var t := a[..];
    var hold := a[i];
    a[i] := a[j];
    a[j] := hold;
    SwapRearranges(t, a[..], i, j, lo, hi);
    RearrangedTwice(s, t, a[..], lo, hi);
  }

  lemma Antisymmetric<T(!new)>(lt: (T, T) -> bool, x: T, y: T)
    requires StrictWeakOrder(lt)
    ensures !(Less(lt, x, y) && Less(lt, y, x))
  {
  }

  lemma Irreflexive<T(!new)>(lt: (T, T) -> bool, x: T)
    requires StrictWeakOrder(lt)
    ensures !Less(lt, x, x)
  {
  }

  lemma RearrangedNot<T>(s: seq<T>, lo: int, hi: int)
    requires 0 <= lo <= hi <= |s|
    ensures Rearranged(s, s, lo, hi)
  {
  }

  /** Sorts the first, middle and last element of [lo, hi] among themselves. */
  method MedianOfThree<T(!new)>(a: array<T>, lt: (T, T) -> bool, lo: int, hi: int) returns (mid: int)
    requires StrictWeakOrder(lt) && 0 <= lo && lo + THRESH <= hi < a.Length
    modifies a
    ensures lo < mid < hi && !Less(lt, a[mid], a[lo]) && !Less(lt, a[hi], a[mid])
    ensures Rearranged(old(a[..]), a[..], lo, hi + 1)
  {
    hide StrictWeakOrder, Rearranged, Less;
    ghost var s := a[..];
    mid := lo + (hi - lo) / 2;
    assert lo < mid < hi;
    Antisymmetric(lt, a[lo], a[mid]);
    Antisymmetric(lt, a[lo], a[hi]);
    Antisymmetric(lt, a[mid], a[hi]);
    RearrangedNot(s, lo, hi + 1);
    if Less(lt, a[mid], a[lo]) {
      Swap(a, mid, lo, s, lo, hi + 1);
    }
    assert !Less(lt, a[mid], a[lo]);
    if Less(lt, a[hi], a[mid]) {
      Swap(a, mid, hi, s, lo, hi + 1);
      assert !Less(lt, a[hi], a[mid]) && !Less(lt, a[hi], a[lo]);
      if Less(lt, a[mid], a[lo]) {
        Swap(a, mid, lo, s, lo, hi + 1);
      }
    }
  }

  lemma AroundStart<T>(lt: (T, T) -> bool, s: seq<T>, p: T, lo: int, hi: int)
    requires 0 <= lo < hi < |s| && !Less(lt, p, s[lo]) && !Less(lt, s[hi], p)
    ensures Around(lt, s, p, lo, hi, lo + 1, hi - 1)
  {
  }

  /** The left scan may pass an element below the pivot, and never reaches beyond right + 1. */
  lemma ScanLeft<T(!new)>(lt: (T, T) -> bool, s: seq<T>, p: T, lo: int, hi: int, left: int, right: int)
    requires StrictWeakOrder(lt) && Around(lt, s, p, lo, hi, left, right)
    requires lo < left <= right + 1 <= hi && Less(lt, s[left], p)
    ensures left <= right && Around(lt, s, p, lo, hi, left + 1, right)
  {
    Antisymmetric(lt, s[left], p);
  }

  lemma ScanRight<T(!new)>(lt: (T, T) -> bool, s: seq<T>, p: T, lo: int, hi: int, left: int, right: int)
    requires StrictWeakOrder(lt) && Around(lt, s, p, lo, hi, left, right)
    requires lo < left <= right + 1 <= hi && Less(lt, p, s[right])
    ensures left <= right && Around(lt, s, p, lo, hi, left, right - 1)
  {
    Antisymmetric(lt, p, s[right]);
  }

  lemma SwapWalls<T>(lt: (T, T) -> bool, s: seq<T>, p: T, lo: int, hi: int, left: int, right: int, s': seq<T>)
    requires Around(lt, s, p, lo, hi, left, right) && lo < left < right < hi
    requires !Less(lt, s[left], p) && !Less(lt, p, s[right])
    requires |s'| == |s| && s'[left] == s[right] && s'[right] == s[left]
    requires forall k :: 0 <= k < |s| && k != left && k != right ==> s'[k] == s[k]
    ensures Around(lt, s', p, lo, hi, left + 1, right - 1)
  {
  }

  lemma MeetWalls<T>(lt: (T, T) -> bool, s: seq<T>, p: T, lo: int, hi: int, left: int)
    requires Around(lt, s, p, lo, hi, left, left) && lo < left < hi
    requires !Less(lt, s[left], p) && !Less(lt, p, s[left])
    ensures Around(lt, s, p, lo, hi, left + 1, left - 1)
  {
  }

  /** The "collapse the walls" loop.  Neither scan tests for the end of the segment: a[hi], which is at
      least the pivot, stops the left one, and a[lo] stops the right one; the pivot itself may
      move, and mid follows it. */
  method Partition<T(!new)>(a: array<T>, lt: (T, T) -> bool, lo: int, hi: int) returns (left: int, right: int)
    requires StrictWeakOrder(lt) && 0 <= lo && lo + THRESH <= hi < a.Length
    requires Cut(lt, a[..], lo) && Cut(lt, a[..], hi + 1)
    modifies a
    ensures Rearranged(old(a[..]), a[..], lo, hi + 1)
    ensures Split(lt, a[..], lo, hi, left, right)
  {
    hide StrictWeakOrder, Rearranged, Cut, Less, Around, Split;
    ghost var s := a[..];
    var mid := MedianOfThree(a, lt, lo, hi);
    ghost var p := a[mid];
    left, right := lo + 1, hi - 1;
    AroundStart(lt, a[..], p, lo, hi);
    while true
      invariant lo < left <= right + 1 <= hi && lo <= mid <= hi && a[mid] == p
      invariant Around(lt, a[..], p, lo, hi, left, right)
      invariant Rearranged(s, a[..], lo, hi + 1)
      decreases right - left
    {
      ghost var t := a[..];
      while Less(lt, a[left], a[mid])
        invariant lo < left <= right + 1 && a[..] == t
        invariant Around(lt, t, p, lo, hi, left, right)
        decreases hi - left
      {
        ScanLeft(lt, t, p, lo, hi, left, right);
        left := left + 1;
      }
      while Less(lt, a[mid], a[right])
        invariant lo < left <= right + 1 <= hi && a[..] == t
        invariant Around(lt, t, p, lo, hi, left, right)
        decreases right
      {
        ScanRight(lt, t, p, lo, hi, left, right);
        right := right - 1;
      }
      if left < right {
        Swap(a, left, right, s, lo, hi + 1);
        SwapWalls(lt, t, p, lo, hi, left, right, a[..]);
        if mid == left {
          mid := right;
        } else if mid == right {
          mid := left;
        }
        left, right := left + 1, right - 1;
      } else if left == right {
        MeetWalls(lt, t, p, lo, hi, left);
        left, right := left + 1, right - 1;
        break;
      }
      if !(left <= right) {
        break;
      }
    }
    PartitionDone(lt, s, a[..], p, lo, hi, left, right);
  }

  lemma PartitionDone<T(!new)>(lt: (T, T) -> bool, s: seq<T>, s': seq<T>, p: T, lo: int, hi: int, left: int, right: int)
    requires StrictWeakOrder(lt) && 0 <= lo <= hi < |s| && Cut(lt, s, lo) && Cut(lt, s, hi + 1)
    requires Rearranged(s, s', lo, hi + 1) && Around(lt, s', p, lo, hi, left, right)
    requires lo < left <= hi && lo <= right < hi && right < left <= right + 2
    ensures Split(lt, s', lo, hi, left, right)
  {
    hide StrictWeakOrder, Rearranged, Cut, Less, Around;
    CutStays(lt, s, s', lo, hi + 1, lo);
    CutStays(lt, s, s', lo, hi + 1, hi + 1);
    assert |s'| == |s| by { RearrangedSize(s, s', lo, hi + 1); }
    AroundIsCut(lt, s', p, lo, hi, left, right, left);
    AroundIsCut(lt, s', p, lo, hi, left, right, right + 1);
  }

  lemma RearrangedSize<T>(s: seq<T>, s': seq<T>, lo: int, hi: int)
    requires Rearranged(s, s', lo, hi)
    ensures |s'| == |s|
  {
  }

  // ----- The loop over the explicit stack -----

  ghost function Width(segs: seq<Segment>): int
  {
    if segs == [] then 0 else Width(segs[..|segs| - 1]) + segs[|segs| - 1].1 - segs[|segs| - 1].0
  }

  lemma {:induction false} WidthPositive(segs: seq<Segment>)
    requires forall k :: 0 <= k < |segs| ==> segs[k].0 <= segs[k].1
    ensures Width(segs) >= 0
  {
    if segs != [] {
      WidthPositive(segs[..|segs| - 1]);
    }
  }

  lemma PartsNarrower(pre: seq<Segment>, lo: int, hi: int, left: int, right: int)
    requires lo <= right < left <= hi
    ensures Width(pre + Parts(lo, hi, left, right)) < Width(pre + [(lo, hi)])
  {
    assert (pre + [(lo, hi)])[..|pre|] == pre;
    var segs := pre + Parts(lo, hi, left, right);
    if |segs| == |pre| {
      assert segs == pre;
    } else if |segs| == |pre| + 1 {
      assert segs[..|pre|] == pre;
    } else {
      assert segs[..|pre| + 1][..|pre|] == pre;
    }
  }

  /** Everything the outer loop keeps. */
  ghost predicate Progress<T>(lt: (T, T) -> bool, s: seq<T>, segs: seq<Segment>)
  {
    Pending(lt, s, segs) && FarOrdered(lt, s, segs) && Halving(|s|, segs)
  }

  lemma Advance<T>(lt: (T, T) -> bool, s: seq<T>, s': seq<T>, pre: seq<Segment>, lo: int, hi: int, left: int,
                   right: int)
    requires Progress(lt, s, pre + [(lo, hi)]) && Rearranged(s, s', lo, hi + 1)
    requires Split(lt, s', lo, hi, left, right)
    ensures Progress(lt, s', pre + Parts(lo, hi, left, right))
    ensures Width(pre + Parts(lo, hi, left, right)) < Width(pre + [(lo, hi)])
  {
    PartsPending(lt, s, s', pre, lo, hi, left, right);
    PartsFarOrdered(lt, s, s', pre, lo, hi, left, right);
    PartsHalving(|s|, pre, lo, hi, left, right);
    PartsNarrower(pre, lo, hi, left, right);
  }

  lemma LastSegment<T>(lt: (T, T) -> bool, s: seq<T>, pre: seq<Segment>, lo: int, hi: int)
    requires Progress(lt, s, pre + [(lo, hi)])
    ensures 0 <= lo && lo + THRESH <= hi < |s| && Cut(lt, s, lo) && Cut(lt, s, hi + 1)
    ensures Width(pre + [(lo, hi)]) >= 0
  {
    WidthPositive(pre + [(lo, hi)]);
    assert (pre + [(lo, hi)])[|pre|] == (lo, hi);
  }

  lemma StackRoom<T>(lt: (T, T) -> bool, s: seq<T>, segs: seq<Segment>, bits: nat)
    requires Progress(lt, s, segs) && |s| < Pow2(bits) && segs != []
    ensures |segs| < bits
  {
    StackFits(|s|, segs, bits);
  }

  /** The quicksort phase.  bits is the width of size_t; the stack has that many slots, slot 0 being
      a dummy that is popped only to end the loop. */
  method QuickPhase<T(!new)>(a: array<T>, lt: (T, T) -> bool, bits: nat)
    requires StrictWeakOrder(lt) && THRESH < a.Length < Pow2(bits)
    modifies a
    ensures FarOrdered(lt, a[..], [])
    ensures multiset(a[..]) == multiset(old(a[..]))
  {
    hide StrictWeakOrder, Rearranged, Cut, Less, Progress, Split, FarOrdered, Width;
    ghost var n := a.Length;
    var lo, hi := 0, a.Length - 1;
    ghost var segs: seq<Segment> := [(lo, hi)];
    StartProgress(lt, a[..]);
    StackRoom(lt, a[..], segs, bits);
    var stack := new Segment[bits](_ => (0, 0));
    var top := 1;
    while 0 < top
      invariant 0 <= top <= bits == stack.Length && |segs| == top
      invariant top > 0 ==> segs == stack[1..top] + [(lo, hi)]
      invariant Progress(lt, a[..], segs)
      invariant multiset(a[..]) == multiset(old(a[..]))
      decreases Width(segs)
    {
      ghost var s, pre := a[..], stack[1..top];
      LastSegment(lt, s, pre, lo, hi);
      var left, right := Partition(a, lt, lo, hi);
      RearrangedAll(s, a[..], lo, hi + 1);
      SplitBounds(lt, a[..], lo, hi, left, right);
      Advance(lt, s, a[..], pre, lo, hi, left, right);
      segs := pre + Parts(lo, hi, left, right);
      if segs != [] {
        StackRoom(lt, a[..], segs, bits);
      }
      if right - lo <= THRESH {
        if hi - left <= THRESH {
          top := top - 1;
          lo, hi := stack[top].0, stack[top].1;
        } else {
          lo := left;
        }
      } else if hi - left <= THRESH {
        hi := right;
      } else if right - lo > hi - left {
        stack[top] := (lo, right);
        top := top + 1;
        lo := left;
      } else {
        stack[top] := (left, hi);
        top := top + 1;
        hi := right;
      }
    }
    NothingPending(lt, a[..], segs);
  }

  lemma NothingPending<T>(lt: (T, T) -> bool, s: seq<T>, segs: seq<Segment>)
    requires Progress(lt, s, segs) && segs == []
    ensures FarOrdered(lt, s, [])
  {
  }

  lemma StartProgress<T>(lt: (T, T) -> bool, s: seq<T>)
    requires |s| > THRESH
    ensures Progress(lt, s, [(0, |s| - 1)])
  {
    forall i, j | 0 <= i && i + THRESH < j < |s|
      ensures !Less(lt, s[j], s[i]) || InSegment([(0, |s| - 1)], i, j)
    {
      assert [(0, |s| - 1)][0].0 <= i;
    }
  }

  lemma SplitBounds<T>(lt: (T, T) -> bool, s: seq<T>, lo: int, hi: int, left: int, right: int)
    requires Split(lt, s, lo, hi, left, right)
    ensures 0 <= lo <= right < left <= hi < |s|
  {
  }

  // ----- The insertion sort -----

  /** No element is smaller than the first: the sentinel of the insertion loop. */
  ghost predicate Guarded<T>(lt: (T, T) -> bool, s: seq<T>)
  {
    forall k :: 0 <= k < |s| ==> !Less(lt, s[k], s[0])
  }

  lemma NotLessTransitive<T(!new)>(lt: (T, T) -> bool, x: T, y: T, z: T)
    requires StrictWeakOrder(lt) && !Less(lt, y, x) && !Less(lt, z, y)
    ensures !Less(lt, z, x)
  {
  }

  /** The smallest of the first nine elements is the smallest of all; exchanging it to the front
      leaves distant elements in order. */
  lemma SentinelFound<T(!new)>(lt: (T, T) -> bool, s: seq<T>, m: int, s': seq<T>)
    requires StrictWeakOrder(lt) && FarOrdered(lt, s, []) && 0 <= m < |s| && m <= THRESH
    requires forall k :: 0 <= k < |s| && k <= THRESH ==> !Less(lt, s[k], s[m])
    requires s' == s[m := s[0]][0 := s[m]]
    ensures Guarded(lt, s') && FarOrdered(lt, s', [])
  {
    hide StrictWeakOrder, Less;
    forall k | 0 <= k < |s|
      ensures !Less(lt, s[k], s[m])
    {
      if k > THRESH {
        NotLessTransitive(lt, s[m], s[0], s[k]);
      }
    }
  }

  /** Finds the smallest element among the first nine and exchanges it to the front. */
  method PlaceSentinel<T(!new)>(a: array<T>, lt: (T, T) -> bool)
    requires StrictWeakOrder(lt) && a.Length > 0 && FarOrdered(lt, a[..], [])
    modifies a
    ensures multiset(a[..]) == multiset(old(a[..]))
    ensures Guarded(lt, a[..]) && FarOrdered(lt, a[..], [])
  {
    hide StrictWeakOrder, Less, FarOrdered, Guarded, Rearranged;
    ghost var s := a[..];
    var thresh := if THRESH > a.Length - 1 then a.Length - 1 else THRESH;
    var tmp := 0;
    Irreflexive(lt, a[0]);
    for run := 1 to thresh + 1
      invariant 0 <= tmp < run && a[..] == s
      invariant forall k :: 0 <= k < run ==> !Less(lt, s[k], s[tmp])
    {
      if Less(lt, a[run], a[tmp]) {
        forall k | 0 <= k < run + 1
          ensures !Less(lt, s[k], s[run])
        {
          SmallerThanAll(lt, s, run, tmp, k);
        }
        tmp := run;
      }
    }
    SentinelFound(lt, s, tmp, s[tmp := s[0]][0 := s[tmp]]);
    if tmp != 0 {
      RearrangedNot(s, 0, a.Length);
      Swap(a, tmp, 0, s, 0, a.Length);
      RearrangedAll(s, a[..], 0, a.Length);
    }
    assert a[..] == s[tmp := s[0]][0 := s[tmp]];
  }

  lemma SmallerThanAll<T(!new)>(lt: (T, T) -> bool, s: seq<T>, run: int, tmp: int, k: int)
    requires StrictWeakOrder(lt) && 0 <= tmp < |s| && 0 <= run < |s| && 0 <= k < |s|
    requires Less(lt, s[run], s[tmp]) && (!Less(lt, s[k], s[tmp]) || k == run)
    ensures !Less(lt, s[k], s[run])
  {
  }

  // How far an element can travel: the elements above it that stand before it.

  ghost function CountAbove<T>(lt: (T, T) -> bool, x: T, s: seq<T>): nat
  {
    if s == [] then 0 else CountAbove(lt, x, s[1..]) + if Less(lt, x, s[0]) then 1 else 0
  }

  lemma {:induction false} CountAboveConcat<T>(lt: (T, T) -> bool, x: T, s: seq<T>, t: seq<T>)
    ensures CountAbove(lt, x, s + t) == CountAbove(lt, x, s) + CountAbove(lt, x, t)
  {
    if s == [] {
      assert s + t == t;
    } else {
      assert (s + t)[1..] == s[1..] + t;
      CountAboveConcat(lt, x, s[1..], t);
    }
  }

  lemma CountAboveWithout<T>(lt: (T, T) -> bool, x: T, t: seq<T>, j: int)
    requires 0 <= j < |t|
    ensures CountAbove(lt, x, t) == CountAbove(lt, x, t[..j] + t[j + 1..]) + if Less(lt, x, t[j]) then 1 else 0
  {
    hide Less, CountAbove;
    var u, v := t[..j], t[j + 1..];
    Sequences.TakeOut(t, j);
    CountAboveConcat(lt, x, u, v);
    CountAboveConcat(lt, x, u + [t[j]], v);
    CountAboveConcat(lt, x, u, [t[j]]);
    CountAboveOne(lt, x, t[j]);
  }

  lemma CountAboveOne<T>(lt: (T, T) -> bool, x: T, y: T)
    ensures CountAbove(lt, x, [y]) == if Less(lt, x, y) then 1 else 0
  {
    assert [y][1..] == [];
  }

  lemma {:induction false} CountAbovePermuted<T>(lt: (T, T) -> bool, x: T, s: seq<T>, t: seq<T>)
    requires multiset(s) == multiset(t)
    ensures CountAbove(lt, x, s) == CountAbove(lt, x, t)
    decreases |s|
  {
    if s == [] {
      assert |multiset(t)| == 0;
    } else {
      var j := Sequences.StandsIn(s, t, 0);
      Sequences.TakeOut(s, 0);
      Sequences.TakeOut(t, j);
      CountAboveWithout(lt, x, s, 0);
      CountAboveWithout(lt, x, t, j);
      CountAbovePermuted(lt, x, s[..0] + s[1..], t[..j] + t[j + 1..]);
    }
  }

  lemma {:induction false} CountAboveBounds<T>(lt: (T, T) -> bool, x: T, s: seq<T>)
    ensures CountAbove(lt, x, s) <= |s|
    ensures (forall k :: 0 <= k < |s| ==> !Less(lt, x, s[k])) ==> CountAbove(lt, x, s) == 0
    ensures (forall k :: 0 <= k < |s| ==> Less(lt, x, s[k])) ==> CountAbove(lt, x, s) == |s|
  {
    if s != [] {
      CountAboveBounds(lt, x, s[1..]);
      assert forall k :: 0 <= k < |s| - 1 ==> s[1..][k] == s[k + 1];
    }
  }

  /** In a rearranged prefix, at most THRESH elements stand above the element that follows it. */
  lemma ShortWay<T>(lt: (T, T) -> bool, s1: seq<T>, s: seq<T>, run: int, tmp: int)
    requires FarOrdered(lt, s1, []) && 0 <= tmp <= run < |s1| == |s|
    requires multiset(s[..run]) == multiset(s1[..run])
    requires forall k :: tmp <= k < run ==> Less(lt, s1[run], s[k])
    ensures run - tmp <= THRESH
  {
    hide CountAbove, Less;
    var x := s1[run];
    var far := if run > THRESH then run - THRESH else 0;
    assert s[..run] == s[..tmp] + s[tmp..run] && s1[..run] == s1[..far] + s1[far..run];
    CountAboveConcat(lt, x, s[..tmp], s[tmp..run]);
    CountAboveConcat(lt, x, s1[..far], s1[far..run]);
    CountAbovePermuted(lt, x, s[..run], s1[..run]);
    CountAboveBounds(lt, x, s[tmp..run]);
    CountAboveBounds(lt, x, s1[..far]);
    CountAboveBounds(lt, x, s1[far..run]);
  }

  /** Everything before run is sorted; the rest is as the quicksort phase left it. */
  ghost predicate SortedTo<T>(lt: (T, T) -> bool, s1: seq<T>, s: seq<T>, run: int)
  {
    && 0 <= run <= |s| == |s1|
    && (forall i, j :: 0 <= i < j < run ==> !Less(lt, s[j], s[i]))
    && multiset(s[..run]) == multiset(s1[..run])
    && s[run..] == s1[run..]
  }

  /** The effect of one insertion. */
  ghost function Inserted<T>(s: seq<T>, tmp: int, run: int): seq<T>
    requires 0 <= tmp <= run < |s|
  {
    s[..tmp] + [s[run]] + s[tmp..run] + s[run + 1..]
  }

  lemma InsertKeepsSorted<T(!new)>(lt: (T, T) -> bool, s1: seq<T>, s: seq<T>, run: int, tmp: int)
    requires StrictWeakOrder(lt) && SortedTo(lt, s1, s, run) && 1 <= tmp <= run < |s| && Guarded(lt, s)
    requires !Less(lt, s[run], s[tmp - 1]) && forall k :: tmp <= k < run ==> Less(lt, s[run], s[k])
    ensures SortedTo(lt, s1, Inserted(s, tmp, run), run + 1) && Guarded(lt, Inserted(s, tmp, run))
  {
    var s' := Inserted(s, tmp, run);
    InsertedBag(s1, s, tmp, run);
    forall i, j | 0 <= i < j < run + 1
      ensures !Less(lt, s'[j], s'[i])
    {
      PairInserted(lt, s, tmp, run, i, j);
    }
    hide StrictWeakOrder, Less;
    forall k | 0 <= k < |s'|
      ensures !Less(lt, s'[k], s'[0])
    {
      var k0 := if k < tmp || k > run then k else if k == tmp then run else k - 1;
      assert s'[k] == s[k0];
    }
  }

  lemma InsertedBag<T>(s1: seq<T>, s: seq<T>, tmp: int, run: int)
    requires 0 <= tmp <= run < |s| == |s1| && multiset(s[..run]) == multiset(s1[..run]) && s[run..] == s1[run..]
    ensures multiset(Inserted(s, tmp, run)[..run + 1]) == multiset(s1[..run + 1])
    ensures |Inserted(s, tmp, run)| == |s| && Inserted(s, tmp, run)[run + 1..] == s1[run + 1..]
  {
    var s' := Inserted(s, tmp, run);
    assert s'[..run + 1] == s[..tmp] + ([s[run]] + s[tmp..run]);
    assert s[..run] == s[..tmp] + s[tmp..run];
    assert s1[..run + 1] == s1[..run] + [s1[run]] && s[run..][0] == s1[run..][0];
    assert s'[run + 1..] == s[run..][1..] && s1[run + 1..] == s1[run..][1..];
  }

  lemma PairInserted<T(!new)>(lt: (T, T) -> bool, s: seq<T>, tmp: int, run: int, i: int, j: int)
    requires StrictWeakOrder(lt) && 1 <= tmp <= run < |s| && 0 <= i < j <= run
    requires forall i, j :: 0 <= i < j < run ==> !Less(lt, s[j], s[i])
    requires !Less(lt, s[run], s[tmp - 1]) && forall k :: tmp <= k < run ==> Less(lt, s[run], s[k])
    ensures !Less(lt, Inserted(s, tmp, run)[j], Inserted(s, tmp, run)[i])
  {
    hide StrictWeakOrder, Less;
    var s' := Inserted(s, tmp, run);
    var i0 := if i < tmp then i else if i == tmp then run else i - 1;
    var j0 := if j < tmp then j else if j == tmp then run else j - 1;
    assert s'[i] == s[i0] && s'[j] == s[j0];
    if j == tmp && i < tmp - 1 {
      NotLessTransitive(lt, s[i], s[tmp - 1], s[run]);
    } else if i == tmp {
      Antisymmetric(lt, s[j0], s[run]);
    }
  }

  /** Moves element run down to position tmp, one slot at a time. */
  method Rotate<T>(a: array<T>, tmp: int, run: int)
    requires 0 <= tmp < run < a.Length
    modifies a
    ensures a[..] == Inserted(old(a[..]), tmp, run)
  {
    hide Shifted, Inserted;
    ghost var s := a[..];
    var hold := a[run];
    var hi := run;
    ShiftDone(s, run, run);
    while hi - 1 >= tmp
      invariant tmp <= hi <= run
      invariant a[..] == Shifted(s, hi, run)
    {
      ShiftOne(s, hi, run);
      a[hi] := a[hi - 1];
      hi := hi - 1;
    }
    ShiftDone(s, hi, run);
    a[hi] := hold;
  }

  /** The elements hi..run stand one place higher; place hi is free. */
  ghost function Shifted<T>(s: seq<T>, hi: int, run: int): (s': seq<T>)
    requires 0 <= hi <= run < |s|
    ensures |s'| == |s|
  {
    s[..hi + 1] + s[hi..run] + s[run + 1..]
  }

  lemma ShiftOne<T>(s: seq<T>, hi: int, run: int)
    requires 0 < hi <= run < |s|
    ensures var t := Shifted(s, hi, run); t[hi := t[hi - 1]] == Shifted(s, hi - 1, run)
  {
    assert s[..hi + 1] == s[..hi] + [s[hi]];
    assert s[hi - 1..run] == [s[hi - 1]] + s[hi..run];
  }

  lemma ShiftDone<T>(s: seq<T>, hi: int, run: int)
    requires 0 <= hi <= run < |s|
    ensures Shifted(s, hi, run)[hi := s[run]] == Inserted(s, hi, run)
    ensures Shifted(s, run, run) == s
  {
    assert s[..hi + 1] == s[..hi] + [s[hi]];
    assert s == s[..run + 1] + s[run + 1..];
  }

  /** Moves element run to its place among the sorted elements before it.  The scan has no bounds
      check: element 0 stops it. */
  method InsertOne<T(!new)>(a: array<T>, lt: (T, T) -> bool, run: int, ghost s1: seq<T>) returns (tmp: int)
    requires StrictWeakOrder(lt) && 2 <= run < a.Length
    requires SortedTo(lt, s1, a[..], run) && Guarded(lt, a[..]) && FarOrdered(lt, s1, [])
    modifies a
    ensures 1 <= tmp <= run && run - tmp <= THRESH
    ensures a[..] == Inserted(old(a[..]), tmp, run)
    ensures SortedTo(lt, s1, a[..], run + 1) && Guarded(lt, a[..])
  {
    hide StrictWeakOrder, Less, FarOrdered;
    ghost var s := a[..];
    tmp := run - 1;
    while Less(lt, a[run], a[tmp])
      invariant 0 <= tmp < run && a[..] == s
      invariant forall k :: tmp < k < run ==> Less(lt, s[run], s[k])
      decreases tmp
    {
      tmp := tmp - 1;
    }
    tmp := tmp + 1;
    InsertKeepsSorted(lt, s1, s, run, tmp);
    assert s[run..][0] == s1[run..][0];
    ShortWay(lt, s1, s, run, tmp);
    if tmp != run {
      Rotate(a, tmp, run);
    }
    assert tmp == run ==> a[..] == Inserted(s, tmp, run);
  }

  method InsertionSort<T(!new)>(a: array<T>, lt: (T, T) -> bool)
    requires StrictWeakOrder(lt) && a.Length > 0 && FarOrdered(lt, a[..], [])
    modifies a
    ensures Sorted(lt, a[..]) && multiset(a[..]) == multiset(old(a[..]))
  {
    hide StrictWeakOrder, Less, FarOrdered;
    PlaceSentinel(a, lt);
    ghost var s1 := a[..];
    var run := 2;
    while run < a.Length
      invariant 2 <= run && SortedTo(lt, s1, a[..], if run < a.Length then run else a.Length)
      invariant Guarded(lt, a[..])
    {
      var tmp := InsertOne(a, lt, run, s1);
      run := run + 1;
    }
    assert a[..a.Length] == a[..] && s1[..a.Length] == s1;
  }

  /** The whole macro.  bits is the width of size_t, so every possible length fits in it. */
  method QSort<T(!new)>(a: array<T>, lt: (T, T) -> bool, bits: nat)
    requires StrictWeakOrder(lt) && a.Length < Pow2(bits)
    modifies a
    ensures Sorted(lt, a[..]) && multiset(a[..]) == multiset(old(a[..]))
    ensures forall i, j :: 0 <= i < j < a.Length ==> !lt(a[j], a[i])
  {
    hide StrictWeakOrder;
    if a.Length < 1 {
      return;
    }
    if a.Length > THRESH {
      QuickPhase(a, lt, bits);
    }
    InsertionSort(a, lt);
    SortedMeans(lt, a[..]);
  }

  lemma SortedMeans<T>(lt: (T, T) -> bool, s: seq<T>)
    requires Sorted(lt, s)
    ensures forall i, j :: 0 <= i < j < |s| ==> !lt(s[j], s[i])
  {
    forall i, j | 0 <= i < j < |s|
      ensures !lt(s[j], s[i])
    {
      assert !Less(lt, s[j], s[i]);
    }
  }
}
