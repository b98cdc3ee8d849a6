/** gk_dfkvkselect and gk_ifkvkselect (src/fkvkselect.c): in-place selection of the topk largest or
    smallest keys. */
module Select {
  import opened PriorityQueue
  import opened QSort

  /** x may stand before y; the two routines differ in nothing else. */
  predicate AtLeast(descending: bool, x: KV, y: KV)
  {
    if descending then x.key >= y.key else x.key <= y.key
  }

  ghost predicate Selected(descending: bool, s: seq<KV>, topk: int)
  {
    forall a, b :: 0 <= a < topk <= b < |s| ==>
      if descending then s[a].key >= s[b].key else s[a].key <= s[b].key
  }

  /** Everything before lo is at least, and everything behind hi at most, as large as the rest. */
  ghost predicate Walled(descending: bool, s: seq<KV>, lo: int, hi: int)
  {
    && (forall a, b :: 0 <= a < lo <= b < |s| ==> AtLeast(descending, s[a], s[b]))
    && (forall a, b :: 0 <= a <= hi < b < |s| ==> AtLeast(descending, s[a], s[b]))
  }

  lemma WallsStand(descending: bool, s: seq<KV>, s': seq<KV>, lo: int, hi: int)
    requires Rearranged(s, s', lo, hi + 1) && Walled(descending, s, lo, hi)
    ensures Walled(descending, s', lo, hi)
  {
    forall a, b | 0 <= a < |s| && 0 <= b < |s| && ((a < lo && lo <= b) || (a <= hi && hi < b))
      ensures AtLeast(descending, s'[a], s'[b])
    {
      var c := ComesFrom(s, s', lo, hi + 1, a);
      var d := ComesFrom(s, s', lo, hi + 1, b);
      assert AtLeast(descending, s[c], s[d]);
    }
  }

  /** After a split at i both sides have walls. */
  lemma WallsAtSplit(descending: bool, s: seq<KV>, lo: int, hi: int, i: int)
    requires Walled(descending, s, lo, hi) && 0 <= lo <= i <= hi < |s|
    requires forall k :: lo <= k < i ==> AtLeast(descending, s[k], s[i])
    requires forall k :: i < k <= hi ==> AtLeast(descending, s[i], s[k])
    ensures Walled(descending, s, lo, i - 1) && Walled(descending, s, i + 1, hi)
  {
  }

  /** The element the code picks of the first, the middle and the last one. */
  function Pivot(descending: bool, first: KV, middle: KV, last: KV): KV
  {
    var candidate := if AtLeast(descending, first, middle) then middle else first;
    if AtLeast(descending, candidate, last) then candidate
    else if AtLeast(descending, first, last) then last
    else first
  }

  /** m is one of the three, and two of them are at most and two at least as large. */
  ghost predicate MedianOf(x: KV, y: KV, z: KV, m: KV)
  {
    && (m == x || m == y || m == z)
    && ((x.key <= m.key && y.key <= m.key) || (x.key <= m.key && z.key <= m.key) || (y.key <= m.key && z.key <= m.key))
    && ((x.key >= m.key && y.key >= m.key) || (x.key >= m.key && z.key >= m.key) || (y.key >= m.key && z.key >= m.key))
  }

  /** The pivot is a median unless the first key loses strictly to both others. */
  lemma PivotIsMedian(descending: bool, first: KV, middle: KV, last: KV)
    ensures MedianOf(first, middle, last, Pivot(descending, first, middle, last)) <==>
      AtLeast(descending, first, middle) || AtLeast(descending, first, last)
  {
  }

  /** Of the keys 1, 5 and 9 the routine for the largest values picks 1. */
  lemma SmallestPicked()
    ensures var x, y, z := KV(1, 0), KV(5, 1), KV(9, 2);
            Pivot(true, x, y, z) == x && !MedianOf(x, y, z, Pivot(true, x, y, z))
  {
  }

  /** Picks one of the first, the middle and the last position. */
  method ChoosePivot(descending: bool, cand: array<KV>, lo: int, hi: int) returns (mid: int)
    requires 0 <= lo < hi < cand.Length
    ensures lo <= mid <= hi && cand[mid] == Pivot(descending, cand[lo], cand[lo + (hi - lo) / 2], cand[hi])
    ensures MedianOf(cand[lo], cand[lo + (hi - lo) / 2], cand[hi], cand[mid]) <==>
      AtLeast(descending, cand[lo], cand[lo + (hi - lo) / 2]) || AtLeast(descending, cand[lo], cand[hi])
  {
    mid := lo + (hi - lo) / 2;
    PivotIsMedian(descending, cand[lo], cand[mid], cand[hi]);
    if !AtLeast(descending, cand[lo], cand[mid]) {
      mid := lo;
    }
    if !AtLeast(descending, cand[mid], cand[hi]) {
      mid := hi;
      if !AtLeast(descending, cand[lo], cand[mid]) {
        mid := lo;
      }
    }
  }

  /** The partition of [lo, hi] around the pivot that ends up at i. */
  method Split(descending: bool, cand: array<KV>, lo: int, hi: int) returns (i: int)
    requires 0 <= lo < hi < cand.Length
    modifies cand
    ensures Rearranged(old(cand[..]), cand[..], lo, hi + 1) && lo <= i <= hi
    ensures forall k :: lo <= k < i ==> AtLeast(descending, cand[k], cand[i])
    ensures forall k :: i < k <= hi ==> AtLeast(descending, cand[i], cand[k])
  {
    hide Rearranged, Pivot, MedianOf;
    ghost var s := cand[..];
    Unchanged(s, lo, hi + 1);
    var mid := ChoosePivot(descending, cand, lo, hi);
    QSort.Swap(cand, mid, hi, s, lo, hi + 1);
    var pivot := cand[hi];
    i := lo - 1;
    for j := lo to hi
      invariant lo - 1 <= i < j && cand[hi] == pivot && Rearranged(s, cand[..], lo, hi + 1)
      invariant forall k :: lo <= k <= i ==> AtLeast(descending, cand[k], pivot)
      invariant forall k :: i < k < j ==> !AtLeast(descending, cand[k], pivot)
    {
      if AtLeast(descending, cand[j], pivot) {
        i := i + 1;
        QSort.Swap(cand, i, j, s, lo, hi + 1);
      }
    }
    i := i + 1;
    QSort.Swap(cand, i, hi, s, lo, hi + 1);
  }

  lemma Unchanged(s: seq<KV>, lo: int, hi: int)
    requires 0 <= lo <= hi <= |s|
    ensures Rearranged(s, s, lo, hi)
  {
  }

  /** One split, seen from the first n elements. */
  method SplitWalled(descending: bool, n: int, cand: array<KV>, lo: int, hi: int) returns (i: int)
    requires 0 <= lo < hi < n <= cand.Length && Walled(descending, cand[..n], lo, hi)
    modifies cand
    ensures multiset(cand[..n]) == multiset(old(cand[..n])) && cand[n..] == old(cand[n..])
    ensures lo <= i <= hi && Walled(descending, cand[..n], lo, i - 1) && Walled(descending, cand[..n], i + 1, hi)
    ensures forall k :: lo <= k < i ==> AtLeast(descending, cand[..n][k], cand[..n][i])
    ensures forall k :: i < k <= hi ==> AtLeast(descending, cand[..n][i], cand[..n][k])
  {
    hide Rearranged, Walled, AtLeast;
    ghost var t := cand[..];
    i := Split(descending, cand, lo, hi);
    InPrefix(t, cand[..], lo, hi + 1, n);
    RearrangedAll(t[..n], cand[..n], lo, hi + 1);
    WallsStand(descending, t[..n], cand[..n], lo, hi);
    WallsAtSplit(descending, cand[..n], lo, hi, i);
  }

  /** Puts topk largest (smallest) of the first n elements in front, in any order. */
  method Select(descending: bool, n: int, topk: int, cand: array<KV>) returns (count: int)
    requires 0 <= topk && 0 <= n <= cand.Length
    modifies cand
    ensures count == (if n <= topk then n else topk)
    ensures multiset(cand[..n]) == multiset(old(cand[..n])) && cand[n..] == old(cand[n..])
    ensures Selected(descending, cand[..n], topk)
    ensures n <= topk ==> cand[..] == old(cand[..])
  {
    if n <= topk {
      return n;
    }
    hide Rearranged, Walled, Selected;
    ghost var s := cand[..];
    var lo, hi := 0, n - 1;
    NoWalls(descending, s[..n]);
    while lo < hi
      invariant 0 <= lo <= topk <= hi < n && cand[n..] == s[n..]
      invariant multiset(cand[..n]) == multiset(s[..n]) && Walled(descending, cand[..n], lo, hi)
      decreases hi - lo
    {
      var i := SplitWalled(descending, n, cand, lo, hi);
      if i > topk {
        hi := i - 1;
      } else if i < topk {
        lo := i + 1;
      } else {
        WallsSelect(descending, cand[..n], lo, i - 1, topk);
        return topk;
      }
    }
    WallsSelect(descending, cand[..n], lo, hi, topk);
    return topk;
  }

  lemma InPrefix(s: seq<KV>, s': seq<KV>, lo: int, hi: int, n: int)
    requires Rearranged(s, s', lo, hi) && hi <= n <= |s|
    ensures Rearranged(s[..n], s'[..n], lo, hi) && s'[n..] == s[n..]
  {
    assert s'[..n][..lo] == s'[..lo] && s[..n][..lo] == s[..lo];
    assert s'[..n][lo..hi] == s'[lo..hi] && s[..n][lo..hi] == s[lo..hi];
    assert s'[..n][hi..] == s'[hi..][..n - hi] && s[..n][hi..] == s[hi..][..n - hi];
    assert s'[n..] == s'[hi..][n - hi..] && s[n..] == s[hi..][n - hi..];
  }

  lemma NoWalls(descending: bool, s: seq<KV>)
    requires s != []
    ensures Walled(descending, s, 0, |s| - 1)
  {
  }

  lemma WallsSelect(descending: bool, s: seq<KV>, lo: int, hi: int, topk: int)
    requires Walled(descending, s, lo, hi) && (lo == topk || hi == topk - 1)
    ensures Selected(descending, s, topk)
  {
  }
}
