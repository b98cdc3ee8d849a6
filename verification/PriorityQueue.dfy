/** The indexed max-heap generated by GK_MKPQUEUE (include/gk_mkpqueue.h) for the comparison
    key_gt of src/pqueue.c.  `heap` and `locator` are the two arrays of the C structure: heap[0..nnodes)
    is a binary heap of key/node pairs and locator[v] is the slot that holds node v, or -1. */
module PriorityQueue {
  import opened Finite
  import opened Sizes

  datatype KV = KV(key: int, val: int)

  // ----- The heap as a value: a slot sequence h, its inverse loc, and the fill level n -----

  /** loc is exactly the inverse of the val column of h[..n], and -1 elsewhere. */
  ghost predicate Located(h: seq<KV>, loc: seq<int>, n: int)
  {
    && 0 <= n <= |h|
    && (forall i :: 0 <= i < n ==> 0 <= h[i].val < |loc| && loc[h[i].val] == i)
    && (forall v :: 0 <= v < |loc| ==> loc[v] == -1 || (0 <= loc[v] < n && h[loc[v]].val == v))
  }

  function Parent(i: int): int
  {
    (i - 1) / 2
  }

  ghost predicate Ordered(h: seq<KV>, n: int)
    requires 0 <= n <= |h|
  {
    forall k :: 1 <= k < n ==> h[Parent(k)].key >= h[k].key
  }

  /** Heap order holds everywhere except possibly between slot i and its parent. */
  ghost predicate OrderedBelow(h: seq<KV>, n: int, i: int)
    requires 0 <= n <= |h|
  {
    && (forall k :: 1 <= k < n && k != i ==> h[Parent(k)].key >= h[k].key)
    && (forall k :: 1 <= k < n && Parent(k) == i && 1 <= i ==> h[Parent(i)].key >= h[k].key)
  }

  /** Heap order holds everywhere except possibly between slot i and its children. */
  ghost predicate OrderedAbove(h: seq<KV>, n: int, i: int)
    requires 0 <= n <= |h|
  {
    && (forall k :: 1 <= k < n && Parent(k) != i ==> h[Parent(k)].key >= h[k].key)
    && (forall k :: 1 <= k < n && Parent(k) == i && 1 <= i < n ==> h[Parent(i)].key >= h[k].key)
  }

  /** The abstract value: which nodes are queued, and with which keys. */
  ghost function Contents(h: seq<KV>, loc: seq<int>): map<int, int>
  {
    map v | 0 <= v < |loc| && 0 <= loc[v] < |h| :: h[loc[v]].key
  }

  lemma TwoSlots(h: seq<KV>, loc: seq<int>, n: int, i: int, j: int)
    requires Located(h, loc, n) && 0 <= i < n && 0 <= j < n && i != j
    ensures 0 <= h[i].val < |loc| && 0 <= h[j].val < |loc| && h[i].val != h[j].val
  {
  }

  /** Exchanging two filled slots, with the locator following, changes no contents. */
  lemma SwapKeepsContents(h: seq<KV>, loc: seq<int>, n: int, i: int, j: int, h': seq<KV>, loc': seq<int>)
    requires Located(h, loc, n) && 0 <= i < n && 0 <= j < n && i != j
    requires h' == h[i := h[j]][j := h[i]]
    requires loc' == loc[h[j].val := i][h[i].val := j]
    ensures Located(h', loc', n) && Contents(h', loc') == Contents(h, loc)
  {
  }

  /** The root of an ordered heap carries the largest key. */
  lemma {:induction false} RootIsMax(h: seq<KV>, n: int, k: int)
    requires 0 <= k < n <= |h| && Ordered(h, n)
    ensures h[k].key <= h[0].key
    decreases k
  {
    if k > 0 {
      RootIsMax(h, n, Parent(k));
    }
  }

  lemma NoKeys(h: seq<KV>, loc: seq<int>)
    requires Located(h, loc, 0)
    ensures Contents(h, loc) == map[]
  {
  }

  lemma TopIsMax(h: seq<KV>, loc: seq<int>, n: int)
    requires Located(h, loc, n) && 1 <= n && Ordered(h, n)
    ensures 0 <= h[0].val < |loc| && loc[h[0].val] == 0 && h[0].val in Contents(h, loc)
    ensures forall v :: v in Contents(h, loc) ==> Contents(h, loc)[v] <= Contents(h, loc)[h[0].val]
    ensures n > 1 ==> h[n - 1].val != h[0].val && h[n - 1].key <= h[0].key
  {
    forall k | 0 <= k < n
      ensures h[k].key <= h[0].key
    {
      RootIsMax(h, n, k);
    }
  }

  /** A heap over |loc| nodes that misses some node has fewer than |loc| filled slots. */
  lemma FreeSlot(h: seq<KV>, loc: seq<int>, n: int, node: int)
    requires Located(h, loc, n) && 0 <= node < |loc| && loc[node] == -1
    ensures n < |loc|
  {
    var vals := set i | 0 <= i < n :: h[i].val;
    DistinctVals(h, loc, n);
    assert vals <= Below(|loc|) - {node};
    CardinalityMonotone(vals, Below(|loc|) - {node});
  }

  lemma {:induction false} DistinctVals(h: seq<KV>, loc: seq<int>, n: int)
    requires 0 <= n <= |h|
    requires forall i :: 0 <= i < n ==> 0 <= h[i].val < |loc| && loc[h[i].val] == i
    ensures |set i | 0 <= i < n :: h[i].val| == n
    decreases n
  {
    var vals := set i | 0 <= i < n :: h[i].val;
    if n == 0 {
      assert vals == {};
    } else {
      var less := set i | 0 <= i < n - 1 :: h[i].val;
      DistinctVals(h, loc, n - 1);
      assert h[n - 1].val !in less;
      assert vals == less + {h[n - 1].val};
    }
  }

  /** One turn of the filter-up loop, seen on the heap with the moving item in place. */
  lemma UpStep(h: seq<KV>, loc: seq<int>, n: int, i: int, h': seq<KV>, loc': seq<int>)
    requires Located(h, loc, n) && OrderedBelow(h, n, i) && 1 <= i < n
    requires h[i].key > h[Parent(i)].key
    requires h' == h[i := h[Parent(i)]][Parent(i) := h[i]]
    requires loc' == loc[h[Parent(i)].val := i][h[i].val := Parent(i)]
    ensures Located(h', loc', n) && OrderedBelow(h', n, Parent(i))
    ensures Contents(h', loc') == Contents(h, loc)
  {
    SwapKeepsContents(h, loc, n, i, Parent(i), h', loc');
  }

  /** One turn of the filter-down loop; j is the child with the larger key. */
  lemma DownStep(h: seq<KV>, loc: seq<int>, n: int, i: int, j: int, h': seq<KV>, loc': seq<int>)
    requires Located(h, loc, n) && OrderedAbove(h, n, i) && 0 <= i < j < n
    requires j == 2 * i + 1 || j == 2 * i + 2
    requires h[j].key > h[i].key
    requires h[j].key >= h[2 * i + 1].key && (2 * i + 2 < n ==> h[j].key >= h[2 * i + 2].key)
    requires h' == h[i := h[j]][j := h[i]]
    requires loc' == loc[h[j].val := i][h[i].val := j]
    ensures Located(h', loc', n) && OrderedAbove(h', n, j)
    ensures Contents(h', loc') == Contents(h, loc)
  {
    DownOrder(h, n, i, j, h');
    SwapKeepsContents(h, loc, n, i, j, h', loc');
  }

  lemma DownOrder(h: seq<KV>, n: int, i: int, j: int, h': seq<KV>)
    requires 0 <= i < j < n <= |h| && OrderedAbove(h, n, i)
    requires j == 2 * i + 1 || j == 2 * i + 2
    requires h[j].key > h[i].key
    requires h[j].key >= h[2 * i + 1].key && (2 * i + 2 < n ==> h[j].key >= h[2 * i + 2].key)
    requires h' == h[i := h[j]][j := h[i]]
    ensures OrderedAbove(h', n, j)
  {
    forall k | 1 <= k < n && Parent(k) != j
      ensures h'[Parent(k)].key >= h'[k].key
    {
      assert Parent(k) == i ==> k == 2 * i + 1 || k == 2 * i + 2;
    }
    forall k | 1 <= k < n && Parent(k) == j
      ensures h'[Parent(j)].key >= h'[k].key
    {
      assert h[j].key >= h[k].key;
    }
  }

  lemma UpDone(h: seq<KV>, n: int, i: int)
    requires 0 <= i < n <= |h| && OrderedBelow(h, n, i)
    requires i == 0 || h[i].key <= h[Parent(i)].key
    ensures Ordered(h, n)
  {
  }

  lemma DownDone(h: seq<KV>, n: int, i: int)
    requires 0 <= i < n <= |h| && OrderedAbove(h, n, i)
    requires 2 * i + 1 < n ==> h[i].key >= h[2 * i + 1].key
    requires 2 * i + 2 < n ==> h[i].key >= h[2 * i + 2].key
    ensures Ordered(h, n)
  {
  }

  /** Taking the last item out, or moving it into the hole that another node leaves. */
  lemma MoveLast(h: seq<KV>, loc: seq<int>, n: int, node: int)
    requires Located(h, loc, n) && Ordered(h, n) && node in Contents(h, loc)
    ensures 0 <= node < |loc| && 0 <= loc[node] < n <= |h| && 0 <= h[n - 1].val < |loc|
    ensures h[n - 1].val == node ==>
      && Located(h, loc[node := -1], n - 1) && Ordered(h, n - 1)
      && Contents(h, loc[node := -1]) == Contents(h, loc) - {node}
    ensures h[n - 1].val != node ==>
      var h' := h[loc[node] := h[n - 1]];
      var loc' := loc[node := -1][h[n - 1].val := loc[node]];
      && loc[node] < n - 1
      && Located(h', loc', n - 1) && Contents(h', loc') == Contents(h, loc) - {node}
      && (if h[n - 1].key > h[loc[node]].key then OrderedBelow(h', n - 1, loc[node])
          else OrderedAbove(h', n - 1, loc[node]))
  {
    if h[n - 1].val != node {
      var i := loc[node];
      assert i < n - 1;
      MoveLastLocated(h, loc, n, node);
      MoveLastOrdered(h, n, i);
    }
  }

  lemma MoveLastLocated(h: seq<KV>, loc: seq<int>, n: int, node: int)
    requires Located(h, loc, n) && 0 <= node < |loc| && 0 <= loc[node] < n - 1
    ensures
      var h' := h[loc[node] := h[n - 1]];
      var loc' := loc[node := -1][h[n - 1].val := loc[node]];
      Located(h', loc', n - 1) && Contents(h', loc') == Contents(h, loc) - {node}
  {
  }

  lemma MoveLastOrdered(h: seq<KV>, n: int, i: int)
    requires 0 <= i < n - 1 < |h| && Ordered(h, n)
    ensures
      var h' := h[i := h[n - 1]];
      if h[n - 1].key > h[i].key then OrderedBelow(h', n - 1, i) else OrderedAbove(h', n - 1, i)
  {
  }

  // ----- The mutable queue -----

  class PQueue {
    const heap: array<KV>
    const locator: array<int>
    var nnodes: int

    ghost predicate Valid()
      reads this, heap, locator
    {
      && 0 <= nnodes <= heap.Length == locator.Length
      && Located(heap[..], locator[..], nnodes)
      && Ordered(heap[..], nnodes)
    }

    /** Node -> key. */
    ghost function Keys(): map<int, int>
      reads this, heap, locator
    {
      Contents(heap[..], locator[..])
    }

    constructor (maxnodes: nat)
      ensures Valid() && fresh(heap) && fresh(locator)
      ensures locator.Length == maxnodes && Keys() == map[]
    {
      heap := new KV[maxnodes](_ => KV(0, 0));
      locator := new int[maxnodes](_ => -1);
      nnodes := 0;
    }

    /** The filter-up loop: moves ancestors with smaller keys down into the hole at i0. */
    method FilterUp(i0: nat, key: int, node: int)
      requires heap.Length == locator.Length && i0 < nnodes <= heap.Length && 0 <= node < locator.Length
      requires Located(heap[..][i0 := KV(key, node)], locator[..][node := i0], nnodes)
      requires OrderedBelow(heap[..][i0 := KV(key, node)], nnodes, i0)
      modifies heap, locator
      ensures Valid()
      ensures Keys() == old(Contents(heap[..][i0 := KV(key, node)], locator[..][node := i0]))
    {
      hide Located, OrderedBelow, Ordered, Contents;
      var i: int := i0;
      ghost var h := heap[..][i := KV(key, node)];
      ghost var l := locator[..][node := i];
      ghost var h0, l0 := h, l;
      while i > 0
        invariant 0 <= i < nnodes
        invariant h == heap[..][i := KV(key, node)] && l == locator[..][node := i]
        invariant Located(h, l, nnodes) && OrderedBelow(h, nnodes, i)
        invariant Contents(h, l) == Contents(h0, l0)
      {
        var j := Parent(i);
        if !(key > heap[j].key) {
          break;
        }
        TwoSlots(h, l, nnodes, i, j);
        ghost var h', l' := h[i := h[j]][j := h[i]], l[h[j].val := i][h[i].val := j];
        UpStep(h, l, nnodes, i, h', l');
        heap[i] := heap[j];
        locator[heap[i].val] := i;
        i := j;
        h, l := h', l';
      }
      heap[i] := KV(key, node);
      locator[node] := i;
      assert heap[..] == h && locator[..] == l;
      UpDone(h, nnodes, i);
    }

    /** The filter-down loop: moves the larger child up into the hole at i0. */
    method FilterDown(i0: nat, key: int, node: int)
      requires heap.Length == locator.Length && i0 < nnodes <= heap.Length && 0 <= node < locator.Length
      requires Located(heap[..][i0 := KV(key, node)], locator[..][node := i0], nnodes)
      requires OrderedAbove(heap[..][i0 := KV(key, node)], nnodes, i0)
      modifies heap, locator
      ensures Valid()
      ensures Keys() == old(Contents(heap[..][i0 := KV(key, node)], locator[..][node := i0]))
    {
      hide Located, OrderedAbove, Ordered, Contents;
      var i: int := i0;
      var j := 2 * i + 1;
      ghost var h := heap[..][i := KV(key, node)];
      ghost var l := locator[..][node := i];
      ghost var h0, l0 := h, l;
      while j < nnodes
        invariant 0 <= i < nnodes && j == 2 * i + 1
        invariant h == heap[..][i := KV(key, node)] && l == locator[..][node := i]
        invariant Located(h, l, nnodes) && OrderedAbove(h, nnodes, i)
        invariant Contents(h, l) == Contents(h0, l0)
      {
        if heap[j].key > key {
          if j + 1 < nnodes && heap[j + 1].key > heap[j].key {
            j := j + 1;
          }
        } else if j + 1 < nnodes && heap[j + 1].key > key {
          j := j + 1;
        } else {
          break;
        }
        TwoSlots(h, l, nnodes, i, j);
        ghost var h', l' := h[i := h[j]][j := h[i]], l[h[j].val := i][h[i].val := j];
        DownStep(h, l, nnodes, i, j, h', l');
        heap[i] := heap[j];
        locator[heap[i].val] := i;
        i := j;
        h, l := h', l';
        j := 2 * i + 1;
      }
      heap[i] := KV(key, node);
      locator[node] := i;
      assert heap[..] == h && locator[..] == l;
      DownDone(h, nnodes, i);
    }

    method Insert(node: int, key: int)
      requires Valid() && 0 <= node < locator.Length && node !in Keys()
      modifies this, heap, locator
      ensures Valid() && Keys() == old(Keys())[node := key]
    {
      FreeSlot(heap[..], locator[..], nnodes, node);
      nnodes := nnodes + 1;
      ghost var h := heap[..][nnodes - 1 := KV(key, node)];
      ghost var l := locator[..][node := nnodes - 1];
      assert Contents(h, l) == old(Keys())[node := key];
      FilterUp(nnodes - 1, key, node);
    }

    method Delete(node: int)
      requires Valid() && node in Keys()
      modifies this, heap, locator
      ensures Valid() && Keys() == old(Keys()) - {node}
    {
      hide Located, OrderedBelow, OrderedAbove, Ordered, Contents;
      MoveLast(heap[..], locator[..], nnodes, node);
      var i := locator[node];
      locator[node] := -1;
      nnodes := nnodes - 1;
      if nnodes > 0 && heap[nnodes].val != node {
        var last := heap[nnodes].val;
        var newkey := heap[nnodes].key;
        var oldkey := heap[i].key;
        assert KV(newkey, last) == heap[nnodes];
        if newkey > oldkey {
          FilterUp(i, newkey, last);
        } else {
          FilterDown(i, newkey, last);
        }
      }
    }

    method Update(node: int, newkey: int)
      requires Valid() && node in Keys()
      modifies this, heap, locator
      ensures Valid() && Keys() == old(Keys())[node := newkey]
    {
      var oldkey := heap[locator[node]].key;
      if !(newkey > oldkey) && !(oldkey > newkey) {
        assert Keys() == old(Keys())[node := newkey];
        return;
      }
      var i := locator[node];
      ghost var h := heap[..][i := KV(newkey, node)];
      ghost var l := locator[..][node := i];
      assert Contents(h, l) == old(Keys())[node := newkey];
      if newkey > oldkey {
        FilterUp(i, newkey, node);
      } else {
        FilterDown(i, newkey, node);
      }
    }

    /** Removes and returns a node whose key is largest, or returns -1 on an empty queue. */
    method GetTop() returns (vtx: int)
      requires Valid()
      modifies this, heap, locator
      ensures Valid()
      ensures old(Keys()) == map[] ==> vtx == -1 && Keys() == old(Keys())
      ensures old(Keys()) != map[] ==>
        && vtx in old(Keys())
        && (forall v :: v in old(Keys()) ==> old(Keys())[v] <= old(Keys())[vtx])
        && Keys() == old(Keys()) - {vtx}
    {
      hide Located, OrderedBelow, OrderedAbove, Ordered, Contents;
      if nnodes == 0 {
        NoKeys(heap[..], locator[..]);
        return -1;
      }
      TopIsMax(heap[..], locator[..], nnodes);
      MoveLast(heap[..], locator[..], nnodes, heap[0].val);
      nnodes := nnodes - 1;
      vtx := heap[0].val;
      locator[vtx] := -1;
      var i := nnodes;
      if i > 0 {
        var key := heap[i].key;
        var node := heap[i].val;
        assert KV(key, node) == heap[i];
        FilterDown(0, key, node);
      }
    }

    /** Empties the queue, clearing only the locator entries that are in use. */
    method Reset()
      requires Valid()
      modifies this, locator
      ensures Valid() && Keys() == map[]
    {
      var i := nnodes;
      while i > 0
        invariant 0 <= i <= nnodes
        invariant forall v :: 0 <= v < locator.Length ==>
          locator[v] == (if old(locator[v]) >= i then -1 else old(locator[v]))
      {
        locator[heap[i - 1].val] := -1;
        i := i - 1;
      }
      nnodes := 0;
    }
  }

  /** gk_PQCreate: null reports that the arrays would be too large. */
  method Create(maxnodes: nat) returns (queue: PQueue?)
    ensures queue == null <==> maxnodes > PTRDIFF_MAX
    ensures queue != null ==>
              fresh(queue) && fresh(queue.heap) && fresh(queue.locator) &&
              queue.Valid() && queue.locator.Length == maxnodes && queue.Keys() == map[]
  {
    if maxnodes > PTRDIFF_MAX {
      return null;
    }
    queue := new PQueue(maxnodes);
  }
}
