/** gk_mcore_t (src/mcore.c): a workspace that serves small requests from one block of memory and
    the others from the heap, with frames that are freed at once. */
module Mcore {
  import opened MallocStack
  import opened Sizes

  const SIZEOF_MOP := 24

  function Aligned(nbytes: int): (r: int)
    ensures nbytes <= r < nbytes + 8 && r % 8 == 0
  {
    nbytes + if nbytes % 8 == 0 then 0 else 8 - nbytes % 8
  }

  class MCore {
    const coresize: int
    var corecpos: int
    var cmop: int
    var mops: array<Mop>
    var numCallocs: int
    var numHallocs: int
    var sizeCallocs: int
    var sizeHallocs: int
    var curCallocs: int
    var curHallocs: int
    var maxCallocs: int
    var maxHallocs: int

    /** The heap blocks that the workspace has allocated and not freed.  A block that was given up stays
        here: its owner may free it without the workspace noticing. */
    ghost var heap: set<int>

    /** The live records. */
    ghost function Records(): seq<Mop>
      requires 0 <= cmop <= mops.Length
      reads this, mops
    {
      mops[..cmop]
    }

    ghost predicate Valid()
      reads this, mops
    {
      && 0 <= cmop <= mops.Length <= SIZE_MAX
      && 0 <= corecpos <= coresize && corecpos == curCallocs == CoreBytes(Records())
      && curHallocs == HeapBytes(Records()) && curCallocs <= maxCallocs && curHallocs <= maxHallocs
      && CountersFit()
      && MallocStack.Valid(Records()) && AllTiled(Records())
      && Distinct(Records()) && Addresses(Records()) <= heap
    }

    /** No statistic has left the range of size_t. */
    ghost predicate CountersFit()
      reads this
    {
      && numCallocs <= SIZE_MAX && sizeCallocs <= SIZE_MAX && maxCallocs <= SIZE_MAX
      && numHallocs <= SIZE_MAX && sizeHallocs <= SIZE_MAX && maxHallocs <= SIZE_MAX
    }

    /** gk_mcoreCreate. */
    constructor (coresize: int)
      requires 0 <= coresize
      ensures Valid() && Records() == [] && this.coresize == coresize && heap == {} && fresh(mops)
    {
      this.coresize := coresize;
      corecpos, cmop := 0, 0;
      numCallocs, numHallocs, sizeCallocs, sizeHallocs := 0, 0, 0, 0;
      curCallocs, curHallocs, maxCallocs, maxHallocs := 0, 0, 0, 0;
      mops := new Mop[2048](_ => MARK_MOP);
      heap := {};
    }

    /** gk_mcoreCanAdd. */
    predicate CanAdd(kind: Kind, nbytes: int)
      reads this
    {
      nbytes <= PTRDIFF_MAX &&
      match kind
      case MARK => true
      case CORE => numCallocs < SIZE_MAX && sizeCallocs <= SIZE_MAX - nbytes && curCallocs <= SIZE_MAX - nbytes
      case HEAP => numHallocs < SIZE_MAX && sizeHallocs <= SIZE_MAX - nbytes && curHallocs <= SIZE_MAX - nbytes
    }

    /** A request is refused exactly if it is too large or some statistic would leave its range. */
    lemma CanAddIs(nbytes: int)
      ensures CanAdd(CORE, nbytes) <==>
        && nbytes <= PTRDIFF_MAX && numCallocs + 1 <= SIZE_MAX
        && sizeCallocs + nbytes <= SIZE_MAX && curCallocs + nbytes <= SIZE_MAX
      ensures CanAdd(HEAP, nbytes) <==>
        && nbytes <= PTRDIFF_MAX && numHallocs + 1 <= SIZE_MAX
        && sizeHallocs + nbytes <= SIZE_MAX && curHallocs + nbytes <= SIZE_MAX
    {
    }

    /** Another record fits, or the array may still be doubled. */
    predicate HasRoom()
      reads this
    {
      || cmop < mops.Length
      || mops.Length == 0
      || (2 * mops.Length <= SIZE_MAX && 2 * mops.Length * SIZEOF_MOP <= SIZE_MAX)
    }

    /** gk_mcoreEnsureCapacity. */
    method EnsureCapacity() returns (ok: bool)
      requires 0 <= cmop <= mops.Length <= SIZE_MAX
      modifies this`mops
      ensures ok == old(HasRoom())
      ensures ok ==> cmop < mops.Length <= SIZE_MAX && (mops == old(mops) || fresh(mops))
      ensures ok ==> mops[..cmop] == old(mops[..cmop])
      ensures !ok ==> mops == old(mops)
    {
      if cmop < mops.Length {
        return true;
      }
      var nmops;
      if mops.Length == 0 {
        nmops := 2048;
      } else {
        ok, nmops := SizeAdd(mops.Length, mops.Length);
        if !ok {
          return;
        }
      }
      var nbytes;
      ok, nbytes := SizeMul(nmops, SIZEOF_MOP);
      if !ok {
        return;
      }
      var grown := new Mop[nmops](_ => MARK_MOP);
      for i := 0 to cmop
        modifies grown
        invariant grown[..i] == mops[..i]
      {
        grown[i] := mops[i];
      }
      mops := grown;
      return true;
    }

    /** gk_mcoreAddReserved. */
    method AddReserved(m: Mop)
      requires 0 <= cmop < mops.Length
      modifies this`cmop, this`numCallocs, this`numHallocs, this`sizeCallocs, this`sizeHallocs, this`curCallocs,
        this`curHallocs, this`maxCallocs, this`maxHallocs, mops
      ensures 0 <= cmop <= mops.Length && Records() == old(Records()) + [m]
      ensures curCallocs == old(curCallocs) + m.CoreSize() && curHallocs == old(curHallocs) + m.HeapSize()
      ensures maxCallocs == if m.kind == CORE && old(maxCallocs) < curCallocs then curCallocs else old(maxCallocs)
      ensures maxHallocs == if m.kind == HEAP && old(maxHallocs) < curHallocs then curHallocs else old(maxHallocs)
      ensures numCallocs == old(numCallocs) + (if m.kind == CORE then 1 else 0)
              && sizeCallocs == old(sizeCallocs) + m.CoreSize()
      ensures numHallocs == old(numHallocs) + (if m.kind == HEAP then 1 else 0)
              && sizeHallocs == old(sizeHallocs) + m.HeapSize()
    {
      mops[cmop] := m;
      cmop := cmop + 1;
      match m.kind
      case MARK =>
      case CORE =>
        numCallocs := numCallocs + 1;
        sizeCallocs := sizeCallocs + m.nbytes;
        curCallocs := curCallocs + m.nbytes;
        if maxCallocs < curCallocs {
          maxCallocs := curCallocs;
        }
      case HEAP =>
        numHallocs := numHallocs + 1;
        sizeHallocs := sizeHallocs + m.nbytes;
        curHallocs := curHallocs + m.nbytes;
        if maxHallocs < curHallocs {
          maxHallocs := curHallocs;
        }
    }

    /** gk_mcoreMalloc; address is what the heap answers if it is asked, not that of a block with a
        record. Null reports an overflow. */
    method Malloc(nbytes: int, address: int) returns (ptr: Pointer)
      requires Valid() && 0 <= nbytes <= SIZE_MAX && address !in Addresses(Records())
      modifies this, mops
      ensures Valid() && (mops == old(mops) || fresh(mops))
      ensures var size := Aligned(nbytes); var kind := if size < old(coresize - corecpos) then CORE else HEAP;
              ptr == if size > SIZE_MAX || !old(CanAdd(kind, size)) || !old(HasRoom()) then Null
                     else if kind == CORE then InCore(old(corecpos)) else OnHeap(address)
      ensures ptr == Null ==> Records() == old(Records()) && heap == old(heap)
      ensures corecpos == old(corecpos) + if ptr.InCore? then Aligned(nbytes) else 0
      ensures numCallocs == old(numCallocs) + (if ptr.InCore? then 1 else 0)
              && numHallocs == old(numHallocs) + if ptr.OnHeap? then 1 else 0
      ensures sizeCallocs == old(sizeCallocs) + if ptr.InCore? then Aligned(nbytes) else 0
      ensures sizeHallocs == old(sizeHallocs) + if ptr.OnHeap? then Aligned(nbytes) else 0
      ensures maxCallocs == if ptr.InCore? && old(maxCallocs) < curCallocs then curCallocs else old(maxCallocs)
      ensures maxHallocs == if ptr.OnHeap? && old(maxHallocs) < curHallocs then curHallocs else old(maxHallocs)
      ensures ptr.InCore? ==>
                Records() == Apply(old(Records()), Add(Mop(CORE, Aligned(nbytes), ptr))) && heap == old(heap)
      ensures ptr.OnHeap? ==>
                && Records() == Apply(old(Records()), Add(Mop(HEAP, Aligned(nbytes), ptr)))
                && heap == old(heap) + {address}
    {
      hide AllTiled, MallocStack.Valid, Distinct, Addresses, CoreBytes, HeapBytes;
      var padding := if nbytes % 8 == 0 then 0 else 8 - nbytes % 8;
      var ok, size := SizeAdd(nbytes, padding);
      if !ok {
        return Null;
      }
      assert size == Aligned(nbytes);
      var kind := if corecpos <= coresize && size < coresize - corecpos then CORE else HEAP;
      if !CanAdd(kind, size) {
        return Null;
      }
      ok := EnsureCapacity();
      if !ok {
        return Null;
      }
      if kind == CORE {
        ptr := FromCore(size);
      } else {
        ptr := FromHeap(size, address);
      }
    }

    /** The next bytes of the core. */
    method FromCore(size: int) returns (ptr: Pointer)
      requires Valid() && cmop < mops.Length && CanAdd(CORE, size) && 0 <= size < coresize - corecpos && size % 8 == 0
      modifies this, mops
      ensures Valid() && mops == old(mops) && heap == old(heap) && ptr == InCore(old(corecpos))
      ensures corecpos == old(corecpos) + size
      ensures numCallocs == old(numCallocs) + 1 && sizeCallocs == old(sizeCallocs) + size
      ensures maxCallocs == if old(maxCallocs) < curCallocs then curCallocs else old(maxCallocs)
      ensures numHallocs == old(numHallocs) && sizeHallocs == old(sizeHallocs) && maxHallocs == old(maxHallocs)
      ensures Records() == Apply(old(Records()), Add(Mop(CORE, size, ptr)))
    {
      hide AllTiled, MallocStack.Valid, Distinct, Addresses, CoreBytes, HeapBytes;
      ptr := InCore(corecpos);
      AddCore(Records(), size, heap);
      corecpos := corecpos + size;
      AddReserved(Mop(CORE, size, ptr));
    }

    /** A block of the heap. */
    method FromHeap(size: int, address: int) returns (ptr: Pointer)
      requires Valid() && cmop < mops.Length && CanAdd(HEAP, size) && 0 <= size && address !in Addresses(Records())
      modifies this, mops
      ensures Valid() && mops == old(mops) && heap == old(heap) + {address} && ptr == OnHeap(address)
      ensures corecpos == old(corecpos)
      ensures numCallocs == old(numCallocs) && sizeCallocs == old(sizeCallocs) && maxCallocs == old(maxCallocs)
      ensures numHallocs == old(numHallocs) + 1 && sizeHallocs == old(sizeHallocs) + size
      ensures maxHallocs == if old(maxHallocs) < curHallocs then curHallocs else old(maxHallocs)
      ensures Records() == Apply(old(Records()), Add(Mop(HEAP, size, ptr)))
    {
      hide AllTiled, MallocStack.Valid, Distinct, Addresses, CoreBytes, HeapBytes;
      ptr := OnHeap(address);
      AddHeap(Records(), size, address, heap);
      heap := heap + {address};
      AddReserved(Mop(HEAP, size, ptr));
    }

    /** gk_mcorePush; false reports an overflow. */
    method Push() returns (ok: bool)
      requires Valid()
      modifies this, mops
      ensures corecpos == old(corecpos) && curCallocs == old(curCallocs) && curHallocs == old(curHallocs)
      ensures numCallocs == old(numCallocs) && sizeCallocs == old(sizeCallocs) && maxCallocs == old(maxCallocs)
      ensures numHallocs == old(numHallocs) && sizeHallocs == old(sizeHallocs) && maxHallocs == old(maxHallocs)
      ensures Valid() && ok == old(HasRoom()) && (mops == old(mops) || fresh(mops)) && heap == old(heap)
      ensures Records() == if ok then Apply(old(Records()), MallocStack.Push) else old(Records())
    {
      hide AllTiled, MallocStack.Valid, Distinct, Addresses, CoreBytes, HeapBytes;
      ok := EnsureCapacity();
      if ok {
        AddMark(Records(), heap);
        AddReserved(MARK_MOP);
      }
    }

    /** gk_mcoreDel: gives up the record of a heap block of the active frame, which stays allocated. */
    method Del(ptr: Pointer) returns (ok: bool)
      requires Valid()
      modifies this`cmop, this`curHallocs, mops
      ensures Valid() && Records() == Apply(old(Records()), MallocStack.Del(ptr))
      ensures ok == (old(Find(Records(), ptr)) >= 0 && ptr.OnHeap?)
    {
      hide AllTiled, MallocStack.Valid, Distinct, Addresses, CoreBytes, HeapBytes, Find;
      ghost var s := Records();
      var i := cmop;
      FindEnd(s, ptr);
      while i > 0
        invariant Valid() && Records() == s
        invariant 0 <= i <= cmop && Find(s, ptr) == Find(s[..i], ptr)
        invariant forall k :: i <= k < cmop ==> s[k].kind != MARK
      {
        i := i - 1;
        FindTop(s, i, ptr);
        if mops[i].kind == MARK {
          return false;
        }
        if mops[i].ptr == ptr {
          RecordKind(s, i);
          if mops[i].kind != HEAP {
            return false;
          }
          DropHeap(s, i, heap);
          curHallocs := curHallocs - mops[i].nbytes;
          cmop := cmop - 1;
          mops[i] := mops[cmop];
          assert Records() == Without(s, i);
          return true;
        }
      }
      FindNothing(ptr);
      assert s[..0] == [];
      return false;
    }

    /** gk_gkmcoreFindQuiet: the record of a heap block of the active frame, or -1. */
    method FindRecord(ptr: Pointer) returns (r: int)
      requires Valid() && ptr.OnHeap?
      ensures r == Find(Records(), ptr) && (r >= 0 ==> Records()[r].kind == HEAP)
    {
      hide AllTiled, Distinct, Addresses, CoreBytes, HeapBytes, Find;
      ghost var s := Records();
      FindEnd(s, ptr);
      var i := cmop;
      while i > 0
        invariant 0 <= i <= cmop && Find(s, ptr) == Find(s[..i], ptr)
      {
        i := i - 1;
        FindTop(s, i, ptr);
        if mops[i].kind == MARK {
          return -1;
        }
        RecordKind(s, i);
        if mops[i].ptr == ptr && mops[i].kind == HEAP {
          return i;
        }
      }
      FindNothing(ptr);
      assert s[..0] == [];
      return -1;
    }

    /** gk_gkmcoreCanRealloc. */
    predicate CanRealloc(mop: int, nbytes: int)
      requires 0 <= mop < mops.Length
      reads this, mops
    {
      && nbytes <= PTRDIFF_MAX && numHallocs < SIZE_MAX && sizeHallocs <= SIZE_MAX - nbytes
      && (nbytes <= mops[mop].nbytes || curHallocs <= SIZE_MAX - (nbytes - mops[mop].nbytes))
    }

    /** A block may change its size unless some statistic would leave its range. */
    lemma CanReallocIs(mop: int, nbytes: int)
      requires Valid() && 0 <= mop < cmop
      ensures CanRealloc(mop, nbytes) <==>
        && nbytes <= PTRDIFF_MAX && numHallocs + 1 <= SIZE_MAX && sizeHallocs + nbytes <= SIZE_MAX
        && curHallocs - mops[mop].nbytes + nbytes <= SIZE_MAX
    {
      hide AllTiled, MallocStack.Valid, Distinct, Addresses, CoreBytes, HeapBytes;
    }

    /** gk_gkmcoreUpdateRealloc: the block of record mop has moved to an address of its own. */
    method UpdateRealloc(mop: int, nbytes: int, address: int)
      requires Valid() && 0 <= mop < cmop && Records()[mop].kind == HEAP && 0 <= nbytes
      requires forall k :: 0 <= k < cmop && k != mop ==> Records()[k].ptr != OnHeap(address)
      requires CanRealloc(mop, nbytes)
      modifies this, mops
      ensures Valid() && mops == old(mops) && heap == old(heap) + {address}
      ensures Records() == old(Records())[mop := Mop(HEAP, nbytes, OnHeap(address))]
      ensures corecpos == old(corecpos) && numCallocs == old(numCallocs)
              && sizeCallocs == old(sizeCallocs) && maxCallocs == old(maxCallocs)
      ensures numHallocs == old(numHallocs) + 1 && sizeHallocs == old(sizeHallocs) + nbytes
      ensures curHallocs == old(curHallocs) - old(mops[mop].nbytes) + nbytes
      ensures maxHallocs == if old(maxHallocs) < curHallocs then curHallocs else old(maxHallocs)
    {
      hide AllTiled, MallocStack.Valid, Distinct, Addresses, CoreBytes, HeapBytes, Find;
      ghost var s := Records();
      MoveHeap(s, mop, nbytes, address, heap);
      var oldnbytes := mops[mop].nbytes;
      mops[mop] := Mop(HEAP, nbytes, OnHeap(address));
      heap := heap + {address};
      numHallocs := numHallocs + 1;
      sizeHallocs := sizeHallocs + nbytes;
      curHallocs := curHallocs - oldnbytes;
      curHallocs := curHallocs + nbytes;
      if maxHallocs < curHallocs {
        maxHallocs := curHallocs;
      }
      assert Records() == s[mop := Mop(HEAP, nbytes, OnHeap(address))];
    }

    /** gk_mcorePop: frees the heap blocks of the active frame and leaves the records below it. */
    method Pop()
      requires Valid()
      modifies this`cmop, this`corecpos, this`curCallocs, this`curHallocs, this`heap
      ensures Valid() && Records() == Apply(old(Records()), MallocStack.Pop)
      ensures heap == old(heap) - Addresses(Frame(old(Records())))
    {
      hide AllTiled, MallocStack.Valid, Distinct, Addresses, CoreBytes, HeapBytes, Find, Popped, Frame;
      ghost var s := Records();
      ghost var freed: set<int> := {};
      PopDone(s, heap);
      assert s[..cmop] == s;
      while cmop > 0
        invariant 0 <= cmop <= |s| <= mops.Length && Records() == s[..cmop]
        invariant Popped(s) == Popped(s[..cmop]) && Addresses(Frame(s)) == Addresses(Frame(s[..cmop])) + freed
        invariant heap == old(heap) - freed
        invariant corecpos == curCallocs == CoreBytes(s[..cmop]) && curHallocs == HeapBytes(s[..cmop])
        invariant 0 <= corecpos <= coresize && curCallocs <= maxCallocs && curHallocs <= maxHallocs
      {
        var mop := cmop - 1;
        PopTop(s, cmop, old(heap));
        match mops[mop].kind {
          case MARK =>
            cmop := mop;
            assert freed == Addresses(Frame(s)) && Records() == Popped(s);
            return;
          case CORE =>
            if corecpos < mops[mop].nbytes {
              assert false;  // the core is about to be over-freed
            }
            corecpos := corecpos - mops[mop].nbytes;
            curCallocs := curCallocs - mops[mop].nbytes;
            cmop := mop;
          case HEAP =>
            heap := heap - {mops[mop].ptr.address};
            freed := freed + {mops[mop].ptr.address};
            curHallocs := curHallocs - mops[mop].nbytes;
            cmop := mop;
        }
      }
      PopNothing();
      assert s[..0] == [];
      assert freed == Addresses(Frame(s)) && Records() == Popped(s);
    }
  }

  ghost predicate Sound(s: seq<Mop>, heap: set<int>)
  {
    MallocStack.Valid(s) && AllTiled(s) && Distinct(s) && Addresses(s) <= heap
  }

  lemma {:induction false} InAddresses(s: seq<Mop>, k: int)
    requires 0 <= k < |s|
    ensures s[k].Addresses() <= Addresses(s)
  {
    if k < |s| - 1 {
      InAddresses(s[..|s| - 1], k);
    }
  }

  lemma AddCore(s: seq<Mop>, size: int, heap: set<int>)
    requires Sound(s, heap) && size >= 0 && size % 8 == 0
    ensures var s' := s + [Mop(CORE, size, InCore(CoreBytes(s)))];
            Sound(s', heap) && CoreBytes(s') == CoreBytes(s) + size && HeapBytes(s') == HeapBytes(s)
  {
    TileCore(s, size);
    Append(s, Mop(CORE, size, InCore(CoreBytes(s))));
    hide AllTiled, Addresses;
  }

  lemma AddHeap(s: seq<Mop>, size: int, address: int, heap: set<int>)
    requires Sound(s, heap) && size >= 0 && address !in Addresses(s)
    ensures var s' := s + [Mop(HEAP, size, OnHeap(address))];
            Sound(s', heap + {address}) && CoreBytes(s') == CoreBytes(s) && HeapBytes(s') == HeapBytes(s) + size
  {
    var m := Mop(HEAP, size, OnHeap(address));
    TileOther(s, m);
    Append(s, m);
    hide AllTiled, Addresses;
    forall k | 0 <= k < |s| && s[k].kind == HEAP
      ensures s[k].ptr != m.ptr
    {
      InAddresses(s, k);
    }
  }

  lemma AddMark(s: seq<Mop>, heap: set<int>)
    requires Sound(s, heap)
    ensures Sound(s + [MARK_MOP], heap) && CoreBytes(s + [MARK_MOP]) == CoreBytes(s)
            && HeapBytes(s + [MARK_MOP]) == HeapBytes(s)
  {
    TileOther(s, MARK_MOP);
    Append(s, MARK_MOP);
    hide AllTiled, Addresses;
  }

  lemma RecordKind(s: seq<Mop>, i: int)
    requires 0 <= i < |s| && MallocStack.Valid(s)
    ensures s[i].nbytes >= 0 && (s[i].kind == HEAP <==> s[i].ptr.OnHeap?)
  {
    assert s[i].Valid();
  }

  lemma FindEnd(s: seq<Mop>, ptr: Pointer)
    ensures Find(s, ptr) == Find(s[..|s|], ptr)
  {
    assert s[..|s|] == s;
  }

  lemma FindTop(s: seq<Mop>, i: int, ptr: Pointer)
    requires 0 <= i < |s|
    ensures Find(s[..i + 1], ptr) ==
      if s[i].kind == MARK then -1 else if s[i].ptr == ptr then i else Find(s[..i], ptr)
  {
    assert s[..i + 1][..i] == s[..i];
  }

  lemma FindNothing(ptr: Pointer)
    ensures Find([], ptr) == -1
  {
  }

  lemma DropHeap(s: seq<Mop>, i: int, heap: set<int>)
    requires Sound(s, heap) && 0 <= i < |s| && s[i].kind == HEAP
    requires forall k :: i < k < |s| ==> s[k].kind != MARK
    ensures Sound(Without(s, i), heap)
    ensures CoreBytes(Without(s, i)) == CoreBytes(s) && HeapBytes(Without(s, i)) == HeapBytes(s) - s[i].nbytes
  {
    TileWithout(s, i);
    Remove(s, i, 0);
    WithoutValid(s, i);
    hide AllTiled, MallocStack.Valid, Distinct, Addresses, CoreBytes, HeapBytes;
    WithoutWithin(s, i, heap);
  }

  lemma WithoutAt(s: seq<Mop>, i: int, k: int)
    requires 0 <= i < |s| && 0 <= k < |s| - 1
    ensures |Without(s, i)| == |s| - 1 && Without(s, i)[k] == if k == i then s[|s| - 1] else s[k]
  {
  }

  lemma WithoutValid(s: seq<Mop>, i: int)
    requires MallocStack.Valid(s) && Distinct(s) && 0 <= i < |s|
    ensures MallocStack.Valid(Without(s, i)) && Distinct(Without(s, i))
  {
    var t, n := Without(s, i), |s| - 1;
    forall k | 0 <= k < n
      ensures t[k].Valid()
    {
      WithoutAt(s, i, k);
      assert s[if k == i then n else k].Valid();
    }
    forall k, l | 0 <= k < l < n && t[k].kind == HEAP && t[l].kind == HEAP
      ensures t[k].ptr != t[l].ptr
    {
      WithoutAt(s, i, k);
      WithoutAt(s, i, l);
    }
  }

  lemma WithoutWithin(s: seq<Mop>, i: int, heap: set<int>)
    requires Addresses(s) <= heap && 0 <= i < |s|
    ensures Addresses(Without(s, i)) <= heap
  {
    hide Addresses, Without;
    var n := |s| - 1;
    forall k | 0 <= k < |Without(s, i)|
      ensures Without(s, i)[k].Addresses() <= heap
    {
      WithoutSize(s, i);
      WithoutAt(s, i, k);
      InAddresses(s, if k == i then n else k);
    }
    AddressesWithin(Without(s, i), heap);
  }

  lemma WithoutSize(s: seq<Mop>, i: int)
    requires 0 <= i < |s|
    ensures |Without(s, i)| == |s| - 1
  {
  }

  lemma {:induction false} AddressesWithin(s: seq<Mop>, heap: set<int>)
    requires forall k :: 0 <= k < |s| ==> s[k].Addresses() <= heap
    ensures Addresses(s) <= heap
  {
    if s != [] {
      AddressesWithin(s[..|s| - 1], heap);
    }
  }

  lemma PopNothing()
    ensures Popped([]) == [] && Frame([]) == [] && Addresses([]) == {}
  {
  }

  lemma {:induction false} AddressAt(s: seq<Mop>, a: int) returns (k: int)
    requires a in Addresses(s)
    ensures 0 <= k < |s| && s[k].kind == HEAP && s[k].ptr == OnHeap(a)
  {
    k := |s| - 1;
    if a !in s[k].Addresses() {
      k := AddressAt(s[..k], a);
    }
  }

  lemma {:induction false} FrameIsSuffix(s: seq<Mop>)
    ensures |Popped(s)| + |Frame(s)| <= |s| && Frame(s) == s[|s| - |Frame(s)|..]
  {
    if s != [] && s[|s| - 1].kind != MARK {
      FrameIsSuffix(s[..|s| - 1]);
    }
  }

  /** Popping leaves no record of a block it frees. */
  lemma FrameApart(s: seq<Mop>, a: int)
    requires Distinct(s) && a in Addresses(Popped(s))
    ensures a !in Addresses(Frame(s))
  {
    var below, frame := Popped(s), Frame(s);
    PoppedIsPrefix(s);
    FrameIsSuffix(s);
    if a in Addresses(frame) {
      var k := AddressAt(frame, a);
      var i := AddressAt(below, a);
      hide Popped, Frame;
      OneRecord(s, |below|, |s| - |frame|, i, k);
    }
  }

  lemma PopDone(s: seq<Mop>, heap: set<int>)
    requires Sound(s, heap)
    ensures Sound(Popped(s), heap - Addresses(Frame(s)))
  {
    TilePopped(s);
    PoppedIsPrefix(s);
    FrameAddresses(s);
    hide AllTiled, Popped, Frame, Addresses;
    forall a | a in Addresses(Popped(s))
      ensures a !in Addresses(Frame(s))
    {
      FrameApart(s, a);
    }
  }

  lemma OneRecord(s: seq<Mop>, m: int, n: int, i: int, k: int)
    requires Distinct(s) && 0 <= i < m <= n <= |s| && 0 <= k < |s| - n
    requires s[..m][i].kind == HEAP && s[n..][k].kind == HEAP
    ensures s[..m][i].ptr != s[n..][k].ptr
  {
    assert s[n..][k] == s[n + k];
  }

  /** What popping looks at when the records from n on are gone. */
  lemma PopTop(s: seq<Mop>, n: int, heap: set<int>)
    requires Sound(s, heap) && 0 < n <= |s|
    ensures var top := s[n - 1];
            && CoreBytes(s[..n]) == CoreBytes(s[..n - 1]) + top.CoreSize()
            && HeapBytes(s[..n]) == HeapBytes(s[..n - 1]) + top.HeapSize()
            && CoreBytes(s[..n - 1]) >= 0 && top.Valid()
            && Popped(s[..n]) == (if top.kind == MARK then s[..n - 1] else Popped(s[..n - 1]))
            && Addresses(Frame(s[..n])) ==
               (if top.kind == MARK then {} else Addresses(Frame(s[..n - 1])) + top.Addresses())
  {
    assert s[..n][..n - 1] == s[..n - 1];
    Totals(s[..n - 1]);
    Append(s[..n - 1], s[n - 1]);
    Append(Frame(s[..n - 1]), s[n - 1]);
    assert s[..n] == s[..n - 1] + [s[n - 1]];
  }

  lemma MoveHeap(s: seq<Mop>, i: int, nbytes: int, address: int, heap: set<int>)
    requires Sound(s, heap) && 0 <= i < |s| && s[i].kind == HEAP && nbytes >= 0
    requires forall k :: 0 <= k < |s| && k != i ==> s[k].ptr != OnHeap(address)
    ensures var t := s[i := Mop(HEAP, nbytes, OnHeap(address))];
            && Sound(t, heap + {address}) && CoreBytes(t) == CoreBytes(s)
            && HeapBytes(t) == HeapBytes(s) - s[i].nbytes + nbytes
  {
    var m := Mop(HEAP, nbytes, OnHeap(address));
    Change(s, i, m, 0);
    TileChange(s, i, m);
    hide AllTiled;
    var t := s[i := m];
    forall k | 0 <= k < |t|
      ensures t[k].Addresses() <= heap + {address}
    {
      InAddresses(s, k);
    }
    AddressesWithin(t, heap + {address});
  }
}
