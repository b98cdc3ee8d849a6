/** The record stack behind gk_mcore_t and the allocation tracker (src/mcore.c, src/memory.c), as a
    sequence of records and the operations on it. */
module MallocStack {
  datatype Kind = MARK | CORE | HEAP

  /** A pointer into the core, to a heap block, or NULL. */
  datatype Pointer = Null | InCore(offset: int) | OnHeap(address: int)

  datatype Mop = Mop(kind: Kind, nbytes: int, ptr: Pointer)
  {
    /** Core records point into the core and heap records to the heap. */
    ghost predicate Valid()
    {
      match kind
      case MARK => nbytes == 0 && ptr == Null
      case CORE => nbytes >= 0 && ptr.InCore?
      case HEAP => nbytes >= 0 && ptr.OnHeap?
    }

    ghost function CoreSize(): int
    {
      if kind == CORE then nbytes else 0
    }

    ghost function HeapSize(): int
    {
      if kind == HEAP then nbytes else 0
    }

    ghost predicate Covers(x: int)
    {
      kind == CORE && ptr.InCore? && ptr.offset <= x < ptr.offset + nbytes
    }

    ghost function Addresses(): set<int>
    {
      if kind == HEAP && ptr.OnHeap? then {ptr.address} else {}
    }
  }

  const MARK_MOP := Mop(MARK, 0, Null)

  // ----- What a stack of records adds up to -----

  ghost function CoreBytes(s: seq<Mop>): int
  {
    if s == [] then 0 else CoreBytes(s[..|s| - 1]) + s[|s| - 1].CoreSize()
  }

  ghost function HeapBytes(s: seq<Mop>): int
  {
    if s == [] then 0 else HeapBytes(s[..|s| - 1]) + s[|s| - 1].HeapSize()
  }

  /** How many core blocks contain byte x. */
  ghost function Cover(s: seq<Mop>, x: int): int
  {
    if s == [] then 0 else Cover(s[..|s| - 1], x) + if s[|s| - 1].Covers(x) then 1 else 0
  }

  ghost function Addresses(s: seq<Mop>): set<int>
  {
    if s == [] then {} else Addresses(s[..|s| - 1]) + s[|s| - 1].Addresses()
  }

  /** The core blocks cover each byte before their total size exactly once, and no other byte, and
      all their bounds are multiples of 8. */
  ghost predicate Tiled(s: seq<Mop>)
  {
    && (forall x :: Cover(s, x) == if 0 <= x < CoreBytes(s) then 1 else 0)
    && (forall k :: 0 <= k < |s| && s[k].kind == CORE ==>
          s[k].ptr.InCore? && s[k].ptr.offset % 8 == 0 && s[k].nbytes % 8 == 0)
  }

  /** So do the records below any mark: popping a frame never tears a block apart. */
  ghost predicate AllTiled(s: seq<Mop>)
  {
    Tiled(s) && forall p :: 0 <= p < |s| && s[p].kind == MARK ==> Tiled(s[..p])
  }

  ghost predicate Valid(s: seq<Mop>)
  {
    forall k :: 0 <= k < |s| ==> s[k].Valid()
  }

  ghost predicate Distinct(s: seq<Mop>)
  {
    forall i, j :: 0 <= i < j < |s| && s[i].kind == HEAP && s[j].kind == HEAP ==> s[i].ptr != s[j].ptr
  }

  // ----- The operations -----

  /** The topmost record of the active frame with that pointer, or -1. */
  ghost function Find(s: seq<Mop>, ptr: Pointer): (i: int)
    ensures -1 <= i < |s|
    ensures i >= 0 ==> s[i].ptr == ptr && s[i].kind != MARK
    ensures i >= 0 ==> forall k :: i < k < |s| ==> s[k].kind != MARK && s[k].ptr != ptr
  {
    if s == [] || s[|s| - 1].kind == MARK then -1
    else if s[|s| - 1].ptr == ptr then |s| - 1
    else Find(s[..|s| - 1], ptr)
  }

  /** The last record takes the place of record i. */
  ghost function Without(s: seq<Mop>, i: int): seq<Mop>
    requires 0 <= i < |s|
  {
    s[i := s[|s| - 1]][..|s| - 1]
  }

  /** Everything from the last mark on is gone; without a mark, everything. */
  ghost function Popped(s: seq<Mop>): seq<Mop>
  {
    if s == [] then []
    else if s[|s| - 1].kind == MARK then s[..|s| - 1]
    else Popped(s[..|s| - 1])
  }

  /** The records above the last mark. */
  ghost function Frame(s: seq<Mop>): seq<Mop>
  {
    if s == [] || s[|s| - 1].kind == MARK then [] else Frame(s[..|s| - 1]) + [s[|s| - 1]]
  }

  datatype Op = Push | Pop | Add(mop: Mop) | Del(ptr: Pointer) | Update(was: Pointer, mop: Mop)

  ghost function Apply(s: seq<Mop>, op: Op): seq<Mop>
  {
    match op
    case Push => s + [MARK_MOP]
    case Pop => Popped(s)
    case Add(m) => s + [m]
    case Del(ptr) => var i := Find(s, ptr); if i >= 0 && s[i].kind == HEAP then Without(s, i) else s
    case Update(was, m) => var i := Find(s, was); if i >= 0 && s[i].kind == HEAP then s[i := m] else s
  }

  ghost function Run(s: seq<Mop>, ops: seq<Op>): seq<Mop>
    decreases |ops|
  {
    if ops == [] then s else Run(Apply(s, ops[0]), ops[1..])
  }

  /** Every Pop has its Push, starting d frames deep; only Push makes marks. */
  ghost predicate Balanced(ops: seq<Op>, d: nat)
    decreases |ops|
  {
    if ops == [] then d == 0
    else match ops[0]
      case Push => Balanced(ops[1..], d + 1)
      case Pop => d > 0 && Balanced(ops[1..], d - 1)
      case Add(m) => m.kind != MARK && Balanced(ops[1..], d)
      case Del(_) => Balanced(ops[1..], d)
      case Update(_, m) => m.kind != MARK && Balanced(ops[1..], d)
  }

  // ----- Balanced runs restore the stack -----

  ghost function Marks(s: seq<Mop>): (n: nat)
    ensures n == 0 <==> forall k :: 0 <= k < |s| ==> s[k].kind != MARK
  {
    if s == [] then 0 else Marks(s[..|s| - 1]) + if s[|s| - 1].kind == MARK then 1 else 0
  }

  lemma {:induction false} MarksChange(s: seq<Mop>, i: int, m: Mop)
    requires 0 <= i < |s| && s[i].kind != MARK && m.kind != MARK
    ensures Marks(s[i := m]) == Marks(s)
  {
    var n := |s| - 1;
    if i < n {
      MarksChange(s[..n], i, m);
      assert s[i := m][..n] == s[..n][i := m];
    } else {
      assert s[i := m][..n] == s[..n];
    }
  }

  /** Popping base + [MARK_MOP] + rest pops rest's last frame, or if rest has no mark, all of it. */
  lemma {:induction false} PopAbove(base: seq<Mop>, rest: seq<Mop>)
    ensures Marks(rest) > 0 ==> Popped(base + [MARK_MOP] + rest) == base + [MARK_MOP] + Popped(rest)
    ensures Marks(rest) > 0 ==> Marks(Popped(rest)) == Marks(rest) - 1
    ensures Marks(rest) == 0 ==> Popped(base + [MARK_MOP] + rest) == base
  {
    var s := base + [MARK_MOP] + rest;
    if rest == [] {
      assert s[..|s| - 1] == base;
    } else {
      var n := |rest| - 1;
      assert s[..|s| - 1] == base + [MARK_MOP] + rest[..n] && s[|s| - 1] == rest[n];
      PopAbove(base, rest[..n]);
    }
  }

  lemma {:induction false} FindAbove(base: seq<Mop>, rest: seq<Mop>, ptr: Pointer)
    ensures Find(base + [MARK_MOP] + rest, ptr) == if Find(rest, ptr) >= 0 then |base| + 1 + Find(rest, ptr) else -1
  {
    var s := base + [MARK_MOP] + rest;
    if rest != [] {
      var n := |rest| - 1;
      assert s[..|s| - 1] == base + [MARK_MOP] + rest[..n] && s[|s| - 1] == rest[n];
      FindAbove(base, rest[..n], ptr);
    }
  }

  /** No operation reaches below a mark that is not popped. */
  lemma ApplyAbove(base: seq<Mop>, rest: seq<Mop>, op: Op)
    requires op == Pop ==> Marks(rest) > 0
    ensures Apply(base + [MARK_MOP] + rest, op) == base + [MARK_MOP] + Apply(rest, op)
  {
    var s := base + [MARK_MOP] + rest;
    match op
    case Push =>
    case Pop => PopAbove(base, rest);
    case Add(m) =>
    case Del(ptr) => DelAbove(base, rest, ptr);
    case Update(was, m) => UpdateAbove(base, rest, was, m);
  }

  lemma DelAbove(base: seq<Mop>, rest: seq<Mop>, ptr: Pointer)
    ensures Apply(base + [MARK_MOP] + rest, Del(ptr)) == base + [MARK_MOP] + Apply(rest, Del(ptr))
  {
    var s := base + [MARK_MOP] + rest;
    FindAbove(base, rest, ptr);
    hide Find;
    var i := Find(rest, ptr);
    if i >= 0 {
      assert s[|base| + 1 + i] == rest[i];
      assert Without(s, |base| + 1 + i) == base + [MARK_MOP] + Without(rest, i);
    }
  }

  lemma UpdateAbove(base: seq<Mop>, rest: seq<Mop>, was: Pointer, m: Mop)
    ensures Apply(base + [MARK_MOP] + rest, Update(was, m)) == base + [MARK_MOP] + Apply(rest, Update(was, m))
  {
    var s := base + [MARK_MOP] + rest;
    FindAbove(base, rest, was);
    hide Find;
    var i := Find(rest, was);
    if i >= 0 {
      assert s[|base| + 1 + i] == rest[i];
      assert s[|base| + 1 + i := m] == base + [MARK_MOP] + rest[i := m];
    }
  }

  lemma ApplyMarks(s: seq<Mop>, op: Op)
    requires op.Add? ==> op.mop.kind != MARK
    requires op.Update? ==> op.mop.kind != MARK
    requires op == Pop ==> Marks(s) > 0
    ensures Marks(Apply(s, op)) == Marks(s) + (if op == Push then 1 else if op == Pop then -1 else 0)
  {
    match op
    case Push => assert (s + [MARK_MOP])[..|s|] == s;
    case Pop => PopAbove([], s);
    case Add(m) => assert (s + [m])[..|s|] == s;
    case Del(ptr) =>
      var i := Find(s, ptr);
      if i >= 0 {
        var n := |s| - 1;
        assert s[n].kind != MARK;
        MarksChange(s, i, s[n]);
      }
    case Update(was, m) =>
      var i := Find(s, was);
      if i >= 0 {
        MarksChange(s, i, m);
      }
  }

  lemma {:induction false} RunAbove(base: seq<Mop>, rest: seq<Mop>, ops: seq<Op>)
    requires Balanced(ops, Marks(rest))
    ensures Run(base + [MARK_MOP] + rest, ops + [Pop]) == base
    decreases |ops|
  {
    var s := base + [MARK_MOP] + rest;
    if ops == [] {
      assert Run(s, [Pop]) == Run(Popped(s), []) by {
        assert [Pop][1..] == [];
      }
      assert ops + [Pop] == [Pop];
      PopAbove(base, rest);
    } else {
      ApplyAbove(base, rest, ops[0]);
      ApplyMarks(rest, ops[0]);
      RunAbove(base, Apply(rest, ops[0]), ops[1..]);
      assert (ops + [Pop])[1..] == ops[1..] + [Pop];
    }
  }

  /** Push, any balanced sequence of operations, Pop: the records are what they were, and with them
      everything that is computed from them. */
  lemma FrameRestored(s: seq<Mop>, ops: seq<Op>)
    requires Balanced(ops, 0)
    ensures Run(s, [Push] + ops + [Pop]) == s
  {
    var all := [Push] + ops + [Pop];
    assert all[1..] == ops + [Pop];
    RunAbove(s, [], ops);
    assert s + [MARK_MOP] + [] == s + [MARK_MOP];
  }

  // ----- The totals and the tiling, operation by operation -----

  lemma Append(s: seq<Mop>, m: Mop)
    ensures CoreBytes(s + [m]) == CoreBytes(s) + m.CoreSize()
    ensures HeapBytes(s + [m]) == HeapBytes(s) + m.HeapSize()
    ensures Addresses(s + [m]) == Addresses(s) + m.Addresses()
    ensures forall x :: Cover(s + [m], x) == Cover(s, x) + if m.Covers(x) then 1 else 0
  {
    assert (s + [m])[..|s|] == s;
  }

  lemma {:induction false} Change(s: seq<Mop>, i: int, m: Mop, x: int)
    requires 0 <= i < |s|
    ensures CoreBytes(s[i := m]) == CoreBytes(s) - s[i].CoreSize() + m.CoreSize()
    ensures HeapBytes(s[i := m]) == HeapBytes(s) - s[i].HeapSize() + m.HeapSize()
    ensures Cover(s[i := m], x) == Cover(s, x) - (if s[i].Covers(x) then 1 else 0) + if m.Covers(x) then 1 else 0
  {
    var n := |s| - 1;
    if i < n {
      Change(s[..n], i, m, x);
      assert s[i := m][..n] == s[..n][i := m];
    } else {
      assert s[i := m][..n] == s[..n];
    }
  }

  lemma Remove(s: seq<Mop>, i: int, x: int)
    requires 0 <= i < |s|
    ensures CoreBytes(Without(s, i)) == CoreBytes(s) - s[i].CoreSize()
    ensures HeapBytes(Without(s, i)) == HeapBytes(s) - s[i].HeapSize()
    ensures Cover(Without(s, i), x) == Cover(s, x) - if s[i].Covers(x) then 1 else 0
  {
    var n := |s| - 1;
    Change(s, i, s[n], x);
    assert s[i := s[n]][n] == s[n];
  }

  lemma {:induction false} Totals(s: seq<Mop>)
    requires Valid(s)
    ensures CoreBytes(s) >= 0 && HeapBytes(s) >= 0
  {
    if s != [] {
      Totals(s[..|s| - 1]);
    }
  }

  lemma {:induction false} CoreBytesAligned(s: seq<Mop>)
    requires forall k :: 0 <= k < |s| && s[k].kind == CORE ==> s[k].nbytes % 8 == 0
    ensures CoreBytes(s) % 8 == 0
  {
    if s != [] {
      CoreBytesAligned(s[..|s| - 1]);
    }
  }

  /** A new core block at the end of the covered part. */
  lemma TileCore(s: seq<Mop>, nbytes: int)
    requires AllTiled(s) && Valid(s) && nbytes >= 0 && nbytes % 8 == 0
    ensures AllTiled(s + [Mop(CORE, nbytes, InCore(CoreBytes(s)))])
  {
    var m := Mop(CORE, nbytes, InCore(CoreBytes(s)));
    Totals(s);
    TileLast(s, m);
    hide Tiled;
    SamePrefixes(s, m);
  }

  lemma TileLast(s: seq<Mop>, m: Mop)
    requires Tiled(s) && m.kind == CORE && m.ptr == InCore(CoreBytes(s)) && CoreBytes(s) >= 0
    requires m.nbytes >= 0 && m.nbytes % 8 == 0
    ensures Tiled(s + [m])
  {
    Append(s, m);
    CoreBytesAligned(s);
  }

  lemma TileOther(s: seq<Mop>, m: Mop)
    requires AllTiled(s) && m.kind != CORE
    ensures AllTiled(s + [m])
  {
    Append(s, m);
    assert Tiled(s + [m]);
    SamePrefixes(s, m);
  }

  lemma SamePrefixes(s: seq<Mop>, m: Mop)
    requires AllTiled(s)
    ensures forall p :: 0 <= p < |s| + 1 && (s + [m])[p].kind == MARK ==> Tiled((s + [m])[..p])
  {
    forall p | 0 <= p < |s| + 1 && (s + [m])[p].kind == MARK
      ensures Tiled((s + [m])[..p])
    {
      assert (s + [m])[..p] == s[..p];
    }
  }

  /** Removing a heap record moves the last record into the hole; the blocks still tile the core,
      only in another order. */
  lemma TileWithout(s: seq<Mop>, i: int)
    requires AllTiled(s) && 0 <= i < |s| && s[i].kind == HEAP
    requires forall k :: i < k < |s| ==> s[k].kind != MARK
    ensures AllTiled(Without(s, i)) && CoreBytes(Without(s, i)) == CoreBytes(s)
  {
    var t := Without(s, i);
    Remove(s, i, 0);
    forall x
      ensures Cover(t, x) == if 0 <= x < CoreBytes(t) then 1 else 0
    {
      Remove(s, i, x);
    }
    assert Tiled(t);
    forall p | 0 <= p < |t| && t[p].kind == MARK
      ensures Tiled(t[..p])
    {
      assert t[..p] == s[..p] && s[p].kind == MARK;
    }
  }

  /** Exchanging one heap record for another. */
  lemma TileChange(s: seq<Mop>, i: int, m: Mop)
    requires AllTiled(s) && 0 <= i < |s| && s[i].kind == HEAP && m.kind == HEAP
    ensures AllTiled(s[i := m])
  {
    TileSame(s, i, m);
    var t := s[i := m];
    forall p | 0 <= p < |t| && t[p].kind == MARK
      ensures Tiled(t[..p])
    {
      if i < p {
        TileSame(s[..p], i, m);
        assert t[..p] == s[..p][i := m];
      } else {
        assert t[..p] == s[..p];
      }
    }
  }

  lemma TileSame(s: seq<Mop>, i: int, m: Mop)
    requires Tiled(s) && 0 <= i < |s| && s[i].kind == HEAP && m.kind == HEAP
    ensures Tiled(s[i := m])
  {
    var t := s[i := m];
    Change(s, i, m, 0);
    forall x
      ensures Cover(t, x) == if 0 <= x < CoreBytes(t) then 1 else 0
    {
      Change(s, i, m, x);
    }
  }

  lemma {:induction false} PoppedIsPrefix(s: seq<Mop>)
    ensures |Popped(s)| <= |s| && Popped(s) == s[..|Popped(s)|] && (s != [] ==> |Popped(s)| < |s|)
    ensures Popped(s) != [] && |Popped(s)| < |s| ==> s[|Popped(s)|].kind == MARK
    ensures |Popped(s)| < |s| && s[|Popped(s)|].kind != MARK ==> Popped(s) == []
  {
    if s != [] && s[|s| - 1].kind != MARK {
      var below := s[..|s| - 1];
      PoppedIsPrefix(below);
      assert below[..|Popped(below)|] == s[..|Popped(below)|];
    }
  }

  /** What popping leaves is tiled. */
  lemma TilePopped(s: seq<Mop>)
    requires AllTiled(s)
    ensures AllTiled(Popped(s))
  {
    PoppedIsPrefix(s);
    var k := |Popped(s)|;
    if k > 0 {
      assert Tiled(s[..k]);
      forall p | 0 <= p < k && s[p].kind == MARK
        ensures Tiled(s[..k][..p])
      {
        assert s[..k][..p] == s[..p];
      }
    }
  }

  /** The heap blocks of the frame that is popped are all blocks but those of the records left. */
  lemma {:induction false} FrameAddresses(s: seq<Mop>)
    ensures Addresses(s) == Addresses(Popped(s)) + Addresses(Frame(s))
  {
    if s != [] && s[|s| - 1].kind != MARK {
      var n := |s| - 1;
      FrameAddresses(s[..n]);
      Append(Frame(s[..n]), s[n]);
    }
  }
}
