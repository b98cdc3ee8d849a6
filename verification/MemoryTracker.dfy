/** The tracker of all heap allocations (src/memory.c): gk_malloc_init opens a frame and
    gk_malloc_cleanup frees what was allocated in it and not freed since. */
module MemoryTracker {
  import opened MallocStack
  import opened Mcore

  // ----- A stack of sets -----

  /** The live blocks of each frame, the active one last; below the first mark there is one more. */
  ghost function FrameSets(s: seq<Mop>): (l: seq<set<int>>)
    ensures |l| > 0
  {
    if s == [] then [{}]
    else
      var l, m := FrameSets(s[..|s| - 1]), s[|s| - 1];
      if m.kind == MARK then l + [{}] else Joined(l, m.Addresses())
  }

  /** More blocks in the active frame. */
  ghost function Joined(l: seq<set<int>>, more: set<int>): (l': seq<set<int>>)
    requires |l| > 0
    ensures |l'| == |l|
  {
    l[|l| - 1 := l[|l| - 1] + more]
  }

  /** What the operations mean for the sets. */
  ghost function Ledger(l: seq<set<int>>, op: Op): (l': seq<set<int>>)
    requires |l| > 0
    ensures |l'| > 0
  {
    var top := l[|l| - 1];
    match op
    case Push => l + [{}]
    case Pop => if |l| > 1 then l[..|l| - 1] else [{}]
    case Add(m) => l[|l| - 1 := top + m.Addresses()]
    case Del(ptr) => if ptr.OnHeap? then l[|l| - 1 := top - {ptr.address}] else l
    case Update(was, m) =>
      if was.OnHeap? && was.address in top then l[|l| - 1 := top - {was.address} + m.Addresses()] else l
  }

  ghost function LedgerRun(l: seq<set<int>>, ops: seq<Op>): seq<set<int>>
    requires |l| > 0
    decreases |ops|
  {
    if ops == [] then l else LedgerRun(Ledger(l, ops[0]), ops[1..])
  }

  /** Only heap records are added, always with an address that no record has. */
  ghost predicate Tracks(s: seq<Mop>, ops: seq<Op>)
    decreases |ops|
  {
    ops != [] ==>
    && (match ops[0]
        case Add(m) => m.kind == HEAP && m.Valid() && m.ptr.address !in Addresses(s)
        case Update(was, m) => m.kind == HEAP && m.Valid() && (m.ptr == was || m.ptr.address !in Addresses(s))
        case _ => true)
    && Tracks(Apply(s, ops[0]), ops[1..])
  }

  /** Records as the tracker keeps them. */
  ghost predicate Tracked(s: seq<Mop>)
  {
    MallocStack.Valid(s) && Distinct(s) && forall k :: 0 <= k < |s| ==> s[k].kind != CORE
  }

  lemma {:induction false} TopIsFrame(s: seq<Mop>)
    ensures FrameSets(s)[|FrameSets(s)| - 1] == Addresses(Frame(s))
  {
    if s != [] && s[|s| - 1].kind != MARK {
      var n := |s| - 1;
      TopIsFrame(s[..n]);
      Append(Frame(s[..n]), s[n]);
    }
  }

  lemma SameTop(l: seq<set<int>>, top: set<int>)
    requires |l| > 0 && top == l[|l| - 1]
    ensures l[|l| - 1 := top] == l
  {
  }

  lemma JoinTwice(l: seq<set<int>>, a: set<int>, b: set<int>)
    requires |l| > 0
    ensures Joined(Joined(l, a), b) == Joined(l, a + b)
  {
    assert l[|l| - 1] + a + b == l[|l| - 1] + (a + b);
  }

  lemma {:induction false} JoinSets(s: seq<Mop>, f: seq<Mop>)
    requires forall k :: 0 <= k < |f| ==> f[k].kind != MARK
    ensures FrameSets(s + f) == Joined(FrameSets(s), Addresses(f))
  {
    if f == [] {
      assert s + f == s;
      SameTop(FrameSets(s), FrameSets(s)[|FrameSets(s)| - 1] + {});
    } else {
      var n := |f| - 1;
      JoinSets(s, f[..n]);
      assert (s + f)[..|s + f| - 1] == s + f[..n];
      JoinTwice(FrameSets(s), Addresses(f[..n]), f[n].Addresses());
    }
  }

  lemma {:induction false} PopSets(s: seq<Mop>)
    ensures FrameSets(Popped(s)) == Ledger(FrameSets(s), Pop)
  {
    if s != [] {
      var n := |s| - 1;
      PopSets(s[..n]);
      assert s[n].kind == MARK ==> FrameSets(s)[..|FrameSets(s)| - 1] == FrameSets(s[..n]);
    }
  }

  /** g has the records of f but for those with address a. */
  ghost predicate Lacks(f: seq<Mop>, g: seq<Mop>, a: int)
  {
    && (forall k :: 0 <= k < |g| ==> g[k] in f && g[k].ptr != OnHeap(a))
    && (forall k :: 0 <= k < |f| && f[k].ptr != OnHeap(a) ==> f[k] in g)
  }

  lemma WithoutAddresses(f: seq<Mop>, g: seq<Mop>, a: int)
    requires Lacks(f, g, a)
    ensures Addresses(g) == Addresses(f) - {a}
  {
    forall x | x in Addresses(g)
      ensures x in Addresses(f) - {a}
    {
      var k := AddressAt(g, x);
      var i :| 0 <= i < |f| && f[i] == g[k];
      InAddresses(f, i);
    }
    forall x | x in Addresses(f) - {a}
      ensures x in Addresses(g)
    {
      var k := AddressAt(f, x);
      var i :| 0 <= i < |g| && g[i] == f[k];
      InAddresses(g, i);
    }
  }

  lemma DelSets(s: seq<Mop>, a: int)
    requires Tracked(s)
    ensures FrameSets(Apply(s, Del(OnHeap(a)))) == Ledger(FrameSets(s), Del(OnHeap(a)))
  {
    var i := Find(s, OnHeap(a));
    if i >= 0 {
      assert s[i].Valid();
      FoundOnHeap(s, a);
      hide FrameSets, Find, Addresses;
      DelFound(s, i, a);
    } else {
      TopIsFrame(s);
      NotFound(s, a);
      SameTop(FrameSets(s), FrameSets(s)[|FrameSets(s)| - 1] - {a});
    }
  }

  lemma FoundOnHeap(s: seq<Mop>, a: int)
    requires Tracked(s) && Find(s, OnHeap(a)) >= 0
    ensures var i := Find(s, OnHeap(a)); s[i].kind == HEAP
  {
    assert s[Find(s, OnHeap(a))].Valid();
  }

  lemma DelFound(s: seq<Mop>, i: int, a: int)
    requires Tracked(s) && 0 <= i < |s| && s[i].ptr == OnHeap(a)
    requires forall k :: i < k < |s| ==> s[k].kind != MARK && s[k].ptr != OnHeap(a)
    requires s[i].kind == HEAP
    ensures FrameSets(Without(s, i)) == Ledger(FrameSets(s), Del(OnHeap(a)))
  {
    SplitAt(s, i);
    hide Tracked, Lacks, FrameSets, Without;
    SwapRemoved(s, i, a);
    NotBelow(s, i, a);
    DelJoin(s[..i], s[i..], Without(s, i)[i..], a);
  }

  lemma SplitAt(s: seq<Mop>, i: int)
    requires 0 <= i < |s| && s[i].kind != MARK && forall k :: i < k < |s| ==> s[k].kind != MARK
    ensures |Without(s, i)| == |s| - 1
    ensures s == s[..i] + s[i..] && Without(s, i) == s[..i] + Without(s, i)[i..]
    ensures forall k :: 0 <= k < |s[i..]| ==> s[i..][k].kind != MARK
  {
  }

  lemma DelJoin(below: seq<Mop>, f: seq<Mop>, g: seq<Mop>, a: int)
    requires (forall k :: 0 <= k < |f| ==> f[k].kind != MARK) && Lacks(f, g, a)
    requires a !in FrameSets(below)[|FrameSets(below)| - 1]
    ensures FrameSets(below + g) == Ledger(FrameSets(below + f), Del(OnHeap(a)))
  {
    NoMarks(f, g, a);
    hide Lacks, FrameSets, Addresses;
    WithoutAddresses(f, g, a);
    JoinSets(below, f);
    JoinSets(below, g);
    JoinedLess(FrameSets(below), Addresses(f), a);
  }

  lemma NoMarks(f: seq<Mop>, g: seq<Mop>, a: int)
    requires forall k :: 0 <= k < |f| ==> f[k].kind != MARK
    requires Lacks(f, g, a)
    ensures forall k :: 0 <= k < |g| ==> g[k].kind != MARK
  {
  }

  lemma JoinedLess(l: seq<set<int>>, more: set<int>, a: int)
    requires |l| > 0 && a !in l[|l| - 1]
    ensures Joined(l, more - {a}) == Ledger(Joined(l, more), Del(OnHeap(a)))
  {
    var top := l[|l| - 1];
    assert top + (more - {a}) == top + more - {a};
  }

  /** What is left of the records from i on when record i is removed. */
  lemma SwapRemoved(s: seq<Mop>, i: int, a: int)
    requires Tracked(s) && 0 <= i < |s| && s[i].ptr == OnHeap(a)
    requires forall k :: i < k < |s| ==> s[k].ptr != OnHeap(a)
    ensures Lacks(s[i..], Without(s, i)[i..], a)
  {
    var f, g, n := s[i..], Without(s, i)[i..], |s| - 1;
    forall k | 0 <= k < |g|
      ensures g[k] in f && g[k].ptr != OnHeap(a)
    {
      assert g[k] == if k == 0 then f[n - i] else f[k];
    }
    forall k | 0 <= k < |f| && f[k].ptr != OnHeap(a)
      ensures f[k] in g
    {
      assert k > 0;
      assert f[k] == if k == n - i then g[0] else g[k];
    }
  }

  lemma {:induction false} Unlisted(s: seq<Mop>, a: int)
    requires forall k :: 0 <= k < |s| ==> s[k].ptr != OnHeap(a)
    ensures a !in Addresses(s)
  {
    if s != [] {
      Unlisted(s[..|s| - 1], a);
    }
  }

  /** No other record has the address of record i. */
  lemma OnlyThere(s: seq<Mop>, i: int, a: int)
    requires Tracked(s) && 0 <= i < |s| && s[i].ptr == OnHeap(a)
    ensures s[i].kind == HEAP && forall k :: 0 <= k < |s| && k != i ==> s[k].ptr != OnHeap(a)
  {
    assert s[i].Valid();
    forall k | 0 <= k < |s| && k != i
      ensures s[k].ptr != OnHeap(a)
    {
      assert s[k].Valid();
    }
  }

  lemma NotBelow(s: seq<Mop>, i: int, a: int)
    requires Tracked(s) && 0 <= i < |s| && s[i].ptr == OnHeap(a)
    ensures a !in FrameSets(s[..i])[|FrameSets(s[..i])| - 1]
  {
    TopIsFrame(s[..i]);
    FrameAddresses(s[..i]);
    OnlyThere(s, i, a);
    Unlisted(s[..i], a);
  }

  lemma {:induction false} NotFound(s: seq<Mop>, a: int)
    requires Find(s, OnHeap(a)) == -1
    ensures a !in Addresses(Frame(s))
  {
    if s != [] && s[|s| - 1].kind != MARK {
      NotFound(s[..|s| - 1], a);
      Append(Frame(s[..|s| - 1]), s[|s| - 1]);
    }
  }

  lemma {:induction false} SplitAddresses(f: seq<Mop>, g: seq<Mop>)
    ensures Addresses(f + g) == Addresses(f) + Addresses(g)
  {
    if g == [] {
      assert f + g == f;
    } else {
      var n := |g| - 1;
      SplitAddresses(f, g[..n]);
      assert (f + g)[..|f + g| - 1] == f + g[..n];
    }
  }

  lemma UpdateSets(s: seq<Mop>, a: int, m: Mop)
    requires Tracked(s) && m.kind == HEAP && m.Valid()
    ensures FrameSets(Apply(s, Update(OnHeap(a), m))) == Ledger(FrameSets(s), Update(OnHeap(a), m))
  {
    var i := Find(s, OnHeap(a));
    if i >= 0 {
      FoundOnHeap(s, a);
      hide FrameSets, Find, Addresses;
      UpdateFound(s, i, a, m);
    } else {
      TopIsFrame(s);
      NotFound(s, a);
    }
  }

  lemma UpdateFound(s: seq<Mop>, i: int, a: int, m: Mop)
    requires Tracked(s) && 0 <= i < |s| && s[i].ptr == OnHeap(a) && m.kind == HEAP && m.Valid()
    requires forall k :: i < k < |s| ==> s[k].kind != MARK
    ensures FrameSets(s[i := m]) == Ledger(FrameSets(s), Update(OnHeap(a), m))
  {
    var below, rest := s[..i], s[i + 1..];
    OnlyThere(s, i, a);
    Unlisted(rest, a);
    NotBelow(s, i, a);
    OneAddress(s[i]);
    OneAddress(m);
    ReplacedAt(s, i, m);
    hide FrameSets, Addresses, Tracked;
    UpdateJoin(below, s[i], rest, a, m);
  }

  lemma ReplacedAt(s: seq<Mop>, i: int, m: Mop)
    requires 0 <= i < |s| && forall k :: i < k < |s| ==> s[k].kind != MARK
    ensures s == s[..i] + ([s[i]] + s[i + 1..]) && s[i := m] == s[..i] + ([m] + s[i + 1..])
    ensures var rest := s[i + 1..]; forall k :: 0 <= k < |rest| ==> rest[k].kind != MARK
  {
  }

  lemma UpdateJoin(below: seq<Mop>, was: Mop, rest: seq<Mop>, a: int, m: Mop)
    requires was.kind != MARK && m.kind != MARK && forall k :: 0 <= k < |rest| ==> rest[k].kind != MARK
    requires Addresses([was]) == {a} && Addresses([m]) == m.Addresses()
    requires a !in Addresses(rest) && a !in FrameSets(below)[|FrameSets(below)| - 1]
    ensures FrameSets(below + ([m] + rest)) == Ledger(FrameSets(below + ([was] + rest)), Update(OnHeap(a), m))
  {
    hide FrameSets, Addresses;
    SplitAddresses([was], rest);
    SplitAddresses([m], rest);
    JoinSets(below, [was] + rest);
    JoinSets(below, [m] + rest);
    JoinedMoved(FrameSets(below), Addresses(rest), a, m);
  }

  lemma JoinedMoved(l: seq<set<int>>, rest: set<int>, a: int, m: Mop)
    requires |l| > 0 && a !in l[|l| - 1] && a !in rest
    ensures Joined(l, m.Addresses() + rest) == Ledger(Joined(l, {a} + rest), Update(OnHeap(a), m))
  {
    var top := l[|l| - 1];
    assert top + (m.Addresses() + rest) == top + ({a} + rest) - {a} + m.Addresses();
  }

  lemma OneAddress(m: Mop)
    requires m.kind == HEAP && m.ptr.OnHeap?
    ensures Addresses([m]) == m.Addresses() == {m.ptr.address}
  {
    Append([], m);
    assert [] + [m] == [m];
  }

  /** One operation. */
  lemma LedgerStep(s: seq<Mop>, op: Op)
    requires Tracked(s) && Tracks(s, [op])
    ensures FrameSets(Apply(s, op)) == Ledger(FrameSets(s), op)
  {
    match op
    case Push => assert (s + [MARK_MOP])[..|s|] == s;
    case Pop => PopSets(s);
    case Add(m) => assert (s + [m])[..|s|] == s;
    case Del(ptr) =>
      if ptr.OnHeap? {
        DelSets(s, ptr.address);
      } else {
        NoSuchHeap(s, ptr);
      }
    case Update(was, m) =>
      if was.OnHeap? {
        UpdateSets(s, was.address, m);
      } else {
        NoSuchHeap(s, was);
      }
  }

  lemma NoSuchHeap(s: seq<Mop>, ptr: Pointer)
    requires Tracked(s) && !ptr.OnHeap?
    ensures Apply(s, Del(ptr)) == s
    ensures forall m :: Apply(s, Update(ptr, m)) == s
  {
    forall k | 0 <= k < |s| && s[k].kind != MARK
      ensures s[k].ptr != ptr
    {
      assert s[k].Valid();
    }
  }

  lemma TrackedStep(s: seq<Mop>, op: Op)
    requires Tracked(s) && Tracks(s, [op])
    ensures Tracked(Apply(s, op))
  {
    match op
    case Push =>
    case Pop => PoppedIsPrefix(s);
    case Add(m) => NewAddress(s, m);
    case Del(ptr) =>
      var i := Find(s, ptr);
      if i >= 0 {
        var t := Without(s, i);
        assert forall k :: 0 <= k < |t| ==> t[k] == if k == i then s[|s| - 1] else s[k];
      }
    case Update(was, m) =>
      var i := Find(s, was);
      if i >= 0 && s[i].kind == HEAP && m.ptr != was {
        NewAddress(s, m);
      }
  }

  lemma NewAddress(s: seq<Mop>, m: Mop)
    requires m.kind == HEAP && m.Valid() && m.ptr.address !in Addresses(s)
    ensures forall k :: 0 <= k < |s| && s[k].kind == HEAP ==> s[k].ptr != m.ptr
  {
    forall k | 0 <= k < |s| && s[k].kind == HEAP
      ensures s[k].ptr != m.ptr
    {
      InAddresses(s, k);
    }
  }

  /** Over any run the record stack, in which removals reorder frames, is the stack of sets. So
      what cleanup frees is the set of blocks allocated in the frame and not freed since. */
  lemma {:induction false} LedgerHolds(s: seq<Mop>, ops: seq<Op>)
    requires Tracked(s) && Tracks(s, ops)
    ensures FrameSets(Run(s, ops)) == LedgerRun(FrameSets(s), ops)
    decreases |ops|
  {
    if ops != [] {
      assert Tracks(s, [ops[0]]) by {
        assert [ops[0]][1..] == [];
      }
      LedgerStep(s, ops[0]);
      TrackedStep(s, ops[0]);
      LedgerHolds(Apply(s, ops[0]), ops[1..]);
    }
  }

  // ----- The tracker -----

  /** Blocks and bytes asked for so far, and bytes allocated now and at most. */
  datatype Statistics = Statistics(num: int, size: int, cur: int, max: int)

  /** A request for nbytes bytes was counted if it was served; the maximum never falls. */
  ghost predicate Counted(was: Statistics, now: Statistics, served: bool, nbytes: int)
  {
    if served then
      && now.num == was.num + 1 && now.size == was.size + nbytes
      && now.max == if was.max < now.cur then now.cur else was.max
    else now == was
  }

  class Tracker {
    var gkmcore: MCore?

    /** All blocks allocated through the tracker's interface that have not been freed. */
    ghost var heap: set<int>

    ghost predicate Valid()
      reads this, gkmcore, if gkmcore == null then {} else {gkmcore.mops}
    {
      gkmcore != null ==> gkmcore.Valid() && gkmcore.heap == heap
    }

    ghost function Records(): seq<Mop>
      requires Valid()
      reads this, gkmcore, if gkmcore == null then {} else {gkmcore.mops}
    {
      if gkmcore == null then [] else gkmcore.Records()
    }

    constructor ()
      ensures Valid() && gkmcore == null && heap == {}
    {
      gkmcore := null;
      heap := {};
    }

    /** The statistics of the open tracker. */
    ghost function Counters(): Statistics
      reads this, gkmcore
    {
      if gkmcore == null then Statistics(0, 0, 0, 0)
      else Statistics(gkmcore.numHallocs, gkmcore.sizeHallocs, gkmcore.curHallocs, gkmcore.maxHallocs)
    }

    /** gk_malloc_init. */
    method Init() returns (ok: bool)
      requires Valid()
      modifies this, gkmcore, if gkmcore == null then {} else {gkmcore.mops}
      ensures Valid() && heap == old(heap) && gkmcore != null
      ensures gkmcore == old(gkmcore) || fresh(gkmcore)
      ensures fresh(gkmcore.mops) || (old(gkmcore) != null && gkmcore.mops == old(gkmcore.mops))
      ensures ok == (old(gkmcore) == null || old(gkmcore.HasRoom()))
      ensures Records() == if ok then Apply(old(Records()), Push) else old(Records())
    {
      hide AllTiled, Distinct, MallocStack.Valid, CoreBytes, HeapBytes;
      if gkmcore == null {
        gkmcore := new MCore(0);
        gkmcore.heap := heap;
      }
      ok := gkmcore.Push();
    }

    /** gk_malloc_cleanup: the innermost frame's blocks are freed, and nothing else. */
    method Cleanup()
      requires Valid()
      modifies this, gkmcore
      ensures Valid() && Records() == Apply(old(Records()), Pop)
      ensures heap == old(heap) - Addresses(Frame(old(Records())))
      ensures gkmcore == null <==> Records() == []
    {
      hide AllTiled, Distinct, MallocStack.Valid, CoreBytes, HeapBytes;
      if gkmcore != null {
        gkmcore.Pop();
        heap := gkmcore.heap;
        if gkmcore.cmop == 0 {
          gkmcore := null;
        }
      }
    }

    /** gk_malloc_nosignal: without an open frame nothing is recorded. */
    method Malloc(nbytes: int, address: int) returns (ptr: Pointer)
      requires Valid() && 0 <= nbytes && address !in heap
      modifies this, gkmcore, if gkmcore == null then {} else {gkmcore.mops}
      ensures Valid() && gkmcore == old(gkmcore)
      ensures gkmcore != null ==> fresh(gkmcore.mops) || gkmcore.mops == old(gkmcore.mops)
      ensures ptr ==
                if old(gkmcore != null && !(gkmcore.CanAdd(HEAP, AtLeastOne(nbytes)) && gkmcore.HasRoom())) then Null
                else OnHeap(address)
      ensures ptr == Null ==> heap == old(heap) && Records() == old(Records())
      ensures ptr != Null ==> heap == old(heap) + {address}
      ensures ptr != Null && gkmcore != null ==>
        Records() == Apply(old(Records()), Add(Mop(HEAP, AtLeastOne(nbytes), ptr)))
      ensures gkmcore != null ==>
        Counted(old(Counters()), Counters(), ptr != Null, if nbytes == 0 then 1 else nbytes)
    {
      hide AllTiled, Distinct, MallocStack.Valid, CoreBytes, HeapBytes, Addresses;
      var size := AtLeastOne(nbytes);
      if gkmcore != null {
        if !gkmcore.CanAdd(HEAP, size) {
          return Null;
        }
        var ok := gkmcore.EnsureCapacity();
        if !ok {
          return Null;
        }
      }
      ptr := OnHeap(address);
      if gkmcore != null {
        AddHeap(gkmcore.Records(), size, address, heap);
        gkmcore.AddReserved(Mop(HEAP, size, ptr));
        gkmcore.heap := heap + {address};
      }
      heap := heap + {address};
    }

    /** gk_free_nosignal: with an open frame, only blocks of that frame can be freed. */
    method Free(ptr: Pointer) returns (ok: bool)
      requires Valid() && !ptr.InCore? && (gkmcore == null && ptr.OnHeap? ==> ptr.address in heap)
      modifies this, gkmcore, if gkmcore == null then {} else {gkmcore.mops}
      ensures Valid() && gkmcore == old(gkmcore) && (gkmcore != null ==> gkmcore.mops == old(gkmcore.mops))
      ensures ok == (ptr == Null || gkmcore == null || old(Find(Records(), ptr)) >= 0)
      ensures Records() == if ptr == Null then old(Records()) else Apply(old(Records()), Del(ptr))
      ensures heap == if ok && ptr.OnHeap? then old(heap) - {ptr.address} else old(heap)
    {
      hide AllTiled, Distinct, MallocStack.Valid, CoreBytes, HeapBytes, Addresses;
      ok := true;
      if ptr != Null {
        if gkmcore != null {
          DelUnlists(gkmcore.Records(), ptr.address, heap);
          ok := gkmcore.Del(ptr);
          if !ok {
            return;
          }
          gkmcore.heap := heap - {ptr.address};
        }
        heap := heap - {ptr.address};
      }
    }

    /** The open frame admits the request: a new block, or one of its blocks in the new size. */
    ghost predicate CanMove(was: Pointer, size: int)
      requires Valid() && gkmcore != null
      reads this, gkmcore, gkmcore.mops
    {
      if was == Null then gkmcore.CanAdd(HEAP, size) && gkmcore.HasRoom()
      else var i := Find(Records(), was); i >= 0 && gkmcore.CanRealloc(i, size)
    }

    /** gk_realloc_nosignal; the system answers with an address that may be the old one. */
    method Realloc(was: Pointer, nbytes: int, address: int) returns (ptr: Pointer)
      requires Valid() && 0 <= nbytes && !was.InCore? && (address !in heap || was == OnHeap(address))
      requires gkmcore == null && was.OnHeap? ==> was.address in heap
      modifies this, gkmcore, if gkmcore == null then {} else {gkmcore.mops}
      ensures Valid() && gkmcore == old(gkmcore)
      ensures gkmcore != null ==> fresh(gkmcore.mops) || gkmcore.mops == old(gkmcore.mops)
      ensures ptr == Null ==> heap == old(heap) && Records() == old(Records())
      ensures ptr == if gkmcore != null && old(!CanMove(was, AtLeastOne(nbytes))) then Null else OnHeap(address)
      ensures ptr != Null ==> heap == old(heap) - (if was.OnHeap? then {was.address} else {}) + {address}
      ensures ptr != Null && gkmcore != null ==>
        var m := Mop(HEAP, AtLeastOne(nbytes), ptr);
        Records() == Apply(old(Records()), if was == Null then Add(m) else Update(was, m))
      ensures gkmcore != null ==>
        Counted(old(Counters()), Counters(), ptr != Null, if nbytes == 0 then 1 else nbytes)
    {
      hide AllTiled, Distinct, MallocStack.Valid, CoreBytes, HeapBytes, Addresses;
      if was == Null {
        ptr := Malloc(nbytes, address);
        return;
      }
      var size := AtLeastOne(nbytes);
      if gkmcore != null {
        var mop := gkmcore.FindRecord(was);
        if mop < 0 || !gkmcore.CanRealloc(mop, size) {
          return Null;
        }
        Move(was, mop, size, address);
      } else {
        heap := heap - {was.address} + {address};
      }
      ptr := OnHeap(address);
    }

    /** The block of record mop moves. */
    method Move(was: Pointer, mop: int, size: int, address: int)
      requires Valid() && gkmcore != null && 0 <= size && was.OnHeap? && (address !in heap || was == OnHeap(address))
      requires 0 <= mop < gkmcore.cmop && mop == Find(Records(), was) && gkmcore.CanRealloc(mop, size)
      requires Records()[mop].kind == HEAP && Records()[mop].ptr == was
      modifies this`heap, gkmcore, gkmcore.mops
      ensures Valid() && gkmcore.mops == old(gkmcore.mops)
      ensures heap == old(heap) - {was.address} + {address}
      ensures Records() == Apply(old(Records()), Update(was, Mop(HEAP, size, OnHeap(address))))
      ensures Counted(old(Counters()), Counters(), true, size)
    {
      hide AllTiled, Distinct, MallocStack.Valid, CoreBytes, HeapBytes, Addresses;
      OnlyRecord(gkmcore.Records(), mop, address, heap);
      gkmcore.UpdateRealloc(mop, size, address);
      NoLongerListed(old(gkmcore.Records()), mop, size, address, heap);
      gkmcore.heap := heap - {was.address} + {address};
      heap := heap - {was.address} + {address};
    }
  }

  /** No request is for 0 bytes. */
  function AtLeastOne(nbytes: int): (r: int)
    ensures r == if nbytes == 0 then 1 else nbytes
  {
    if nbytes == 0 then 1 else nbytes
  }

  /** When its record is gone, a block may be freed. */
  lemma DelUnlists(s: seq<Mop>, a: int, heap: set<int>)
    requires Sound(s, heap)
    ensures Find(s, OnHeap(a)) >= 0 ==> Addresses(Apply(s, Del(OnHeap(a)))) <= heap - {a}
  {
    var i := Find(s, OnHeap(a));
    if i >= 0 {
      assert s[i].Valid();
      DropHeap(s, i, heap);
      var t := Without(s, i);
      forall x | x in Addresses(t)
        ensures x != a
      {
        var k := AddressAt(t, x);
        assert t[k] == if k == i then s[|s| - 1] else s[k];
      }
    }
  }

  lemma OnlyRecord(s: seq<Mop>, i: int, address: int, heap: set<int>)
    requires Sound(s, heap) && 0 <= i < |s| && s[i].kind == HEAP && (address !in heap || s[i].ptr == OnHeap(address))
    ensures forall k :: 0 <= k < |s| && k != i ==> s[k].ptr != OnHeap(address)
  {
    forall k | 0 <= k < |s| && k != i
      ensures s[k].ptr != OnHeap(address)
    {
      InAddresses(s, k);
      assert s[k].Valid();
    }
  }

  lemma NoLongerListed(s: seq<Mop>, i: int, size: int, address: int, heap: set<int>)
    requires Sound(s, heap) && 0 <= i < |s| && s[i].kind == HEAP && s[i].ptr.OnHeap?
    ensures Addresses(s[i := Mop(HEAP, size, OnHeap(address))]) <= heap - {s[i].ptr.address} + {address}
  {
    var t := s[i := Mop(HEAP, size, OnHeap(address))];
    forall x | x in Addresses(t)
      ensures x in heap - {s[i].ptr.address} + {address}
    {
      var k := AddressAt(t, x);
      if k != i {
        InAddresses(s, k);
      }
    }
  }
}
