/** The open-addressing hash table of src/htable.c: a multimap with linear probing and tombstones. */
module HashTable {
  import opened Sizes

  const EMPTY := -1
  const DELETED := -2

  datatype Slot = Slot(key: int, val: int)
  {
    predicate Free()
    {
      key == EMPTY || key == DELETED
    }
  }

  predicate Reserved(key: int)
  {
    key == EMPTY || key == DELETED
  }

  /** HTable_HFunction: the key converted to a 32-bit unsigned number, reduced. */
  function Hash(nelements: int, key: int): (h: int)
    requires nelements > 0
    ensures 0 <= h < nelements
  {
    (key % 0x1_0000_0000) % nelements
  }

  /** For keys of type int that is the remainder of the key, or of the key and 2^32 if it is negative. */
  lemma HashIs(nelements: int, key: int)
    requires nelements > 0 && -0x8000_0000 <= key <= 0x7FFF_FFFF
    ensures Hash(nelements, key) == if key >= 0 then key % nelements else (key + 0x1_0000_0000) % nelements
  {
    if key < 0 {
      assert key + 0x1_0000_0000 == key % 0x1_0000_0000;
    }
  }

  // ----- Probe sequences -----

  /** How many steps a probe that starts at first needs to reach i. */
  ghost function Steps(n: int, first: int, i: int): int
  {
    if i >= first then i - first else i - first + n
  }

  /** A probe for key meets slot j before slot i. */
  ghost predicate Earlier(n: int, key: int, j: int, i: int)
    requires n > 0
  {
    Steps(n, Hash(n, key), j) < Steps(n, Hash(n, key), i)
  }

  /** The slot of that key that a probe meets first, or -1. */
  ghost function Find(s: seq<Slot>, key: int): (p: int)
    requires |s| > 0
    ensures -1 <= p < |s|
    ensures p == -1 ==> forall j :: 0 <= j < |s| ==> s[j].key != key
    ensures p != -1 ==> s[p].key == key && forall j :: 0 <= j < |s| && Earlier(|s|, key, j, p) ==> s[j].key != key
  {
    FindFrom(s, key, Hash(|s|, key), 0)
  }

  ghost function FindFrom(s: seq<Slot>, key: int, first: int, d: int): (p: int)
    requires 0 <= first < |s| && 0 <= d <= |s|
    requires forall j :: 0 <= j < |s| && Steps(|s|, first, j) < d ==> s[j].key != key
    ensures -1 <= p < |s|
    ensures p == -1 ==> forall j :: 0 <= j < |s| ==> s[j].key != key
    ensures p != -1 ==> s[p].key == key &&
                          forall j :: 0 <= j < |s| && Steps(|s|, first, j) < Steps(|s|, first, p) ==> s[j].key != key
    decreases |s| - d
  {
    if d == |s| then
      assert forall j :: 0 <= j < |s| ==> Steps(|s|, first, j) < |s|;
      -1
    else
      var i := if first + d < |s| then first + d else first + d - |s|;
      if s[i].key == key then i else FindFrom(s, key, first, d + 1)
  }

  /** There is only one such slot. */
  lemma FindIs(s: seq<Slot>, key: int, p: int)
    requires 0 <= p < |s| && s[p].key == key
    requires forall j :: 0 <= j < |s| && Earlier(|s|, key, j, p) ==> s[j].key != key
    ensures Find(s, key) == p
  {
  }

  /** No empty slot lies between the hash slot of a key and the slot it is stored in. */
  ghost predicate Reachable(s: seq<Slot>)
    requires |s| > 0
  {
    forall i, j :: 0 <= i < |s| && 0 <= j < |s| && !s[i].Free() && Earlier(|s|, s[i].key, j, i) ==> s[j].key != EMPTY
  }

  // ----- The pairs in the table -----

  ghost function Held(x: Slot): multiset<Slot>
  {
    if x.Free() then multiset{} else multiset{x}
  }

  ghost function Pairs(s: seq<Slot>): (pairs: multiset<Slot>)
    ensures |pairs| <= |s|
  {
    if s == [] then multiset{} else Pairs(s[..|s| - 1]) + Held(s[|s| - 1])
  }

  lemma {:induction false} PairsPoint(s: seq<Slot>, i: int, x: Slot)
    requires 0 <= i < |s|
    ensures Pairs(s[i := x]) + Held(s[i]) == Pairs(s) + Held(x)
  {
    hide Held;
    var n := |s| - 1;
    if i < n {
      PairsPoint(s[..n], i, x);
      assert s[i := x][..n] == s[..n][i := x];
      Swapped(Pairs(s[..n][i := x]), Held(s[i]), Pairs(s[..n]), Held(x), Held(s[n]));
    } else {
      assert s[i := x][..n] == s[..n];
      Swapped(Pairs(s[..n]), Held(x), Pairs(s[..n]), Held(x), Held(s[n]));
    }
  }

  lemma Swapped(a: multiset<Slot>, b: multiset<Slot>, c: multiset<Slot>, d: multiset<Slot>, e: multiset<Slot>)
    requires a + b == c + d
    ensures a + e + b == c + e + d
  {
    assert a + e + b == (a + b) + e;
    assert c + e + d == (c + d) + e;
  }

  /** A key has a pair exactly when it stands in a slot. */
  lemma {:induction false} PairsInSlots(s: seq<Slot>, x: Slot)
    ensures x in Pairs(s) <==> x in s && !x.Free()
  {
    if s != [] {
      PairsInSlots(s[..|s| - 1], x);
      assert s == s[..|s| - 1] + [s[|s| - 1]];
    }
  }

  /** So Find looks a key up in the multimap. */
  lemma FindFinds(s: seq<Slot>, key: int)
    requires |s| > 0 && !Reserved(key)
    ensures Find(s, key) != -1 <==> exists x :: x in Pairs(s) && x.key == key
    ensures Find(s, key) != -1 ==> s[Find(s, key)] in Pairs(s)
  {
    var p := Find(s, key);
    if p != -1 {
      PairsInSlots(s, s[p]);
    }
    forall x | x in Pairs(s) && x.key == key
      ensures p != -1
    {
      PairsInSlots(s, x);
    }
  }

  lemma {:induction false} FullCount(s: seq<Slot>)
    requires forall i :: 0 <= i < |s| ==> !s[i].Free()
    ensures |Pairs(s)| == |s|
  {
    if s != [] {
      FullCount(s[..|s| - 1]);
    }
  }

  lemma {:induction false} EmptyCount(s: seq<Slot>)
    requires forall i :: 0 <= i < |s| ==> s[i].key == EMPTY
    ensures Pairs(s) == multiset{} && (|s| > 0 ==> Reachable(s))
  {
    if s != [] {
      EmptyCount(s[..|s| - 1]);
    }
  }

  // ----- One change of one slot -----

  /** Storing a pair in the first free slot of its probe sequence. */
  lemma StoreStep(s: seq<Slot>, i: int, x: Slot)
    requires 0 <= i < |s| && Reachable(s) && s[i].Free() && !x.Free()
    requires forall j :: 0 <= j < |s| && Earlier(|s|, x.key, j, i) ==> !s[j].Free()
    ensures Reachable(s[i := x])
  {
  }

  lemma StorePairs(s: seq<Slot>, i: int, x: Slot)
    requires 0 <= i < |s| && s[i].Free() && !x.Free()
    ensures Pairs(s[i := x]) == Pairs(s) + multiset{x}
  {
    PairsPoint(s, i, x);
  }

  /** Turning a pair into a tombstone. */
  lemma EraseStep(s: seq<Slot>, i: int, x: Slot)
    requires 0 <= i < |s| && Reachable(s) && x.key == DELETED
    ensures Reachable(s[i := x])
  {
  }

  lemma ErasePairs(s: seq<Slot>, i: int, x: Slot)
    requires 0 <= i < |s| && !s[i].Free() && x.Free()
    ensures s[i] in Pairs(s) && Pairs(s[i := x]) == Pairs(s) - multiset{s[i]}
  {
    PairsPoint(s, i, x);
    PairsInSlots(s, s[i]);
    assert Pairs(s[i := x]) + multiset{s[i]} == Pairs(s);
  }

  /** A search may stop at an empty slot. */
  lemma StopAtEmpty(s: seq<Slot>, key: int, i: int)
    requires |s| > 0 && Reachable(s) && !Reserved(key) && 0 <= i < |s| && s[i].key == EMPTY
    requires forall j :: 0 <= j < |s| && Earlier(|s|, key, j, i) ==> s[j].key != key
    ensures Find(s, key) == -1
  {
  }

  ghost predicate HasEmpty(s: seq<Slot>)
  {
    exists i :: 0 <= i < |s| && s[i].key == EMPTY
  }

  datatype Outcome = Done | ReservedKey | CapacityOverflow | Full | Invalid

  datatype Removal = Removed(val: int) | Absent | Failed | Refused

  class HTable {
    var nelements: int
    var htsize: int
    var harray: array<Slot>

    ghost predicate Valid()
      reads this, harray
    {
      && 0 < nelements == harray.Length && Reachable(harray[..])
      && htsize == |Pairs(harray[..])|
    }

    /** HTable_Create and HTable_Reset for a positive capacity. */
    constructor (nelements: int)
      requires nelements > 0
      ensures Valid() && this.nelements == nelements && Pairs(harray[..]) == multiset{} && fresh(harray)
    {
      this.nelements := nelements;
      htsize := 0;
      harray := new Slot[nelements](_ => Slot(EMPTY, 0));
      new;
      EmptyCount(harray[..]);
    }

    method Reset()
      requires Valid()
      modifies this, harray
      ensures Valid() && nelements == old(nelements) && harray == old(harray) && Pairs(harray[..]) == multiset{}
    {
      for i := 0 to nelements
        modifies harray
        invariant forall j :: 0 <= j < i ==> harray[j].key == EMPTY
      {
        harray[i] := harray[i].(key := EMPTY);
      }
      htsize := 0;
      EmptyCount(harray[..]);
    }

    /** HTable_InsertInto: takes the first empty or deleted slot; fails only on a full table. */
    method InsertInto(key: int, val: int) returns (ok: bool)
      requires Valid() && !Reserved(key)
      modifies this, harray
      ensures Valid() && nelements == old(nelements) && harray == old(harray)
      ensures ok == (old(htsize) < nelements)
      ensures Pairs(harray[..]) == old(Pairs(harray[..])) + if ok then multiset{Slot(key, val)} else multiset{}
    {
      hide Reachable, Pairs, Find, Hash;
      var first := Hash(nelements, key);
      ghost var s := harray[..];
      for i := first to nelements
        invariant harray[..] == s && Valid() && nelements == |s| && harray == old(harray)
        invariant forall j :: first <= j < i ==> !s[j].Free()
      {
        if harray[i].key == EMPTY || harray[i].key == DELETED {
          Store(i, key, val);
          return true;
        }
      }
      for i := 0 to first
        invariant harray[..] == s && Valid() && nelements == |s| && harray == old(harray)
        invariant forall j :: first <= j < |s| || 0 <= j < i ==> !s[j].Free()
      {
        if harray[i].key == EMPTY || harray[i].key == DELETED {
          Store(i, key, val);
          return true;
        }
      }
      FullCount(s);
      return false;
    }

    method Store(i: int, key: int, val: int)
      requires Valid() && !Reserved(key) && 0 <= i < nelements && harray[i].Free()
      requires forall j :: 0 <= j < nelements && Earlier(nelements, key, j, i) ==> !harray[j].Free()
      modifies this, harray
      ensures Valid() && nelements == old(nelements) && harray == old(harray) && old(htsize) < nelements
      ensures Pairs(harray[..]) == old(Pairs(harray[..])) + multiset{Slot(key, val)}
    {
      ghost var s := harray[..];
      StoreStep(s, i, Slot(key, val));
      StorePairs(s, i, Slot(key, val));
      assert |Pairs(s[i := Slot(key, val)])| <= |s|;
      harray[i] := Slot(key, val);
      assert harray[..] == s[i := Slot(key, val)];
      htsize := htsize + 1;
    }

    /** HTable_ResizeNoSignal: rehashes everything into a table of the new capacity. */
    method Resize(nelements': int) returns (ok: bool)
      requires Valid()
      modifies this
      ensures Valid() && Pairs(harray[..]) == old(Pairs(harray[..])) && (harray == old(harray) || fresh(harray))
      ensures ok == (0 < nelements' && htsize <= nelements')
      ensures nelements == if ok then nelements' else old(nelements)
    {
      hide Reachable, Pairs;
      if nelements' <= 0 || nelements' < htsize {
        return false;
      }
      var next := new HTable(nelements');
      ghost var s := harray[..];
      ghost var storage := next.harray;
      for i := 0 to nelements
        modifies next, storage
        invariant next.Valid() && next.nelements == nelements' && fresh(next) && next.harray == storage
        invariant Pairs(next.harray[..]) == Pairs(s[..i]) && harray[..] == s
      {
        PairsGrow(s, i);
        if harray[i].key != EMPTY && harray[i].key != DELETED {
          PrefixFits(s, i);
          ok := next.InsertInto(harray[i].key, harray[i].val);
          if !ok {
            assert false;
          }
        }
      }
      assert s[..nelements] == s;
      if next.htsize != htsize {
        assert false;
      }
      nelements := next.nelements;
      htsize := next.htsize;
      harray := next.harray;
      return true;
    }

    /** HTable_Insert: doubles a table that is more than half full before it stores the pair. */
    method Insert(key: int, val: int) returns (outcome: Outcome)
      requires Valid()
      modifies this, harray
      ensures Valid() && outcome != Full && outcome != Invalid
      ensures outcome == ReservedKey <==> key == -1 || key == -2
      ensures outcome == CapacityOverflow <==>
        !Reserved(key) && old(htsize > nelements / 2) && old(nelements) > INT32_MAX / 2
      ensures Pairs(harray[..]) ==
                old(Pairs(harray[..])) + if outcome == Done then multiset{Slot(key, val)} else multiset{}
      ensures outcome != Done ==> harray == old(harray) && harray[..] == old(harray[..])
      ensures nelements == if outcome == Done && old(htsize > nelements / 2) then 2 * old(nelements) else old(nelements)
    {
      if key == EMPTY || key == DELETED {
        return ReservedKey;
      }
      if htsize > nelements / 2 {
        if nelements > INT32_MAX / 2 {
          return CapacityOverflow;
        }
        assert htsize <= nelements;
        var ok := Resize(2 * nelements);
        if !ok {
          return Invalid;
        }
      }
      var ok := InsertInto(key, val);
      if !ok {
        return Full;
      }
      return Done;
    }

    /** HTable_Delete: the first slot with the key becomes a tombstone. */
    method Delete(key: int) returns (outcome: Outcome)
      requires Valid()
      modifies this, harray
      ensures Valid() && nelements == old(nelements) && harray == old(harray)
      ensures outcome == if key == -1 || key == -2 then ReservedKey else Done
      ensures var s := old(harray[..]); var p := Find(s, key);
              if Reserved(key) || p == -1 then harray[..] == s
              else s[p] in Pairs(s) && Pairs(harray[..]) == Pairs(s) - multiset{s[p]}
    {
      if key == EMPTY || key == DELETED {
        return ReservedKey;
      }
      hide Reachable, Pairs, Find, Hash;
      var first := Hash(nelements, key);
      ghost var s := harray[..];
      for i := first to nelements
        invariant harray[..] == s && Valid() && nelements == |s| && harray == old(harray)
        invariant forall j :: first <= j < i ==> s[j].key != key
      {
        if harray[i].key == key {
          FindIs(s, key, i);
          Erase(i);
          return Done;
        }
      }
      for i := 0 to first
        invariant harray[..] == s && Valid() && nelements == |s| && harray == old(harray)
        invariant forall j :: first <= j < |s| || 0 <= j < i ==> s[j].key != key
      {
        if harray[i].key == key {
          FindIs(s, key, i);
          Erase(i);
          return Done;
        }
      }
      return Done;
    }

    method Erase(i: int)
      requires Valid() && 0 <= i < nelements && !harray[i].Free()
      modifies this, harray
      ensures Valid() && nelements == old(nelements) && harray == old(harray)
      ensures harray[..] == old(harray[..])[i := Slot(DELETED, old(harray[i].val))]
      ensures var s := old(harray[..]); s[i] in Pairs(s) && Pairs(harray[..]) == Pairs(s) - multiset{s[i]}
    {
      ghost var s := harray[..];
      EraseStep(s, i, Slot(DELETED, s[i].val));
      ErasePairs(s, i, Slot(DELETED, s[i].val));
      harray[i] := harray[i].(key := DELETED);
      assert harray[..] == s[i := Slot(DELETED, s[i].val)];
      htsize := htsize - 1;
    }

    /** HTable_Search: the value of the pair that Delete would remove, or -1. */
    method Search(key: int) returns (val: int)
      requires Valid()
      ensures var p := Find(harray[..], key);
              val == if key == -1 || key == -2 || p == -1 then -1 else harray[p].val
    {
      if key == EMPTY || key == DELETED {
        return -1;
      }
      hide Reachable, Pairs, Find, Hash;
      var first := Hash(nelements, key);
      ghost var s := harray[..];
      for i := first to nelements
        invariant forall j :: first <= j < i ==> s[j].key != key
      {
        if harray[i].key == key {
          FindIs(s, key, i);
          return harray[i].val;
        } else if harray[i].key == EMPTY {
          StopAtEmpty(s, key, i);
          return -1;
        }
      }
      for i := 0 to first
        invariant forall j :: first <= j < |s| || 0 <= j < i ==> s[j].key != key
      {
        if harray[i].key == key {
          FindIs(s, key, i);
          return harray[i].val;
        } else if harray[i].key == EMPTY {
          StopAtEmpty(s, key, i);
          return -1;
        }
      }
      return -1;
    }

    /** HTable_SearchAndDelete: a missing key is an error, unless no empty slot shows it. */
    method SearchAndDelete(key: int) returns (r: Removal)
      requires Valid()
      modifies this, harray
      ensures Valid() && nelements == old(nelements) && harray == old(harray)
      ensures r == Refused <==> key == -1 || key == -2
      ensures var s := old(harray[..]); var p := Find(s, key);
              if Reserved(key) || p == -1 then harray[..] == s && !r.Removed?
              else r == Removed(s[p].val) && s[p] in Pairs(s) && Pairs(harray[..]) == Pairs(s) - multiset{s[p]}
      ensures r == Failed <==> !Reserved(key) && old(Find(harray[..], key) == -1 && HasEmpty(harray[..]))
    {
      hide Reachable, Pairs, Find, Hash, HasEmpty;
      if key == EMPTY || key == DELETED {
        return Refused;
      }
      var first := Hash(nelements, key);
      ghost var s := harray[..];
      for i := first to nelements
        invariant harray[..] == s && Valid() && nelements == |s| && harray == old(harray)
        invariant forall j :: first <= j < i ==> s[j].key != key && s[j].key != EMPTY
      {
        if harray[i].key == key {
          FindIs(s, key, i);
          Erase(i);
          return Removed(harray[i].val);
        } else if harray[i].key == EMPTY {
          StopAtEmpty(s, key, i);
          EmptyAt(s, i);
          return Failed;
        }
      }
      for i := 0 to first
        invariant harray[..] == s && Valid() && nelements == |s| && harray == old(harray)
        invariant forall j :: first <= j < |s| || 0 <= j < i ==> s[j].key != key && s[j].key != EMPTY
      {
        if harray[i].key == key {
          FindIs(s, key, i);
          Erase(i);
          return Removed(harray[i].val);
        } else if harray[i].key == EMPTY {
          StopAtEmpty(s, key, i);
          EmptyAt(s, i);
          return Failed;
        }
      }
      NoneEmpty(s, key);
      return Absent;
    }
  }

  lemma EmptyAt(s: seq<Slot>, i: int)
    requires 0 <= i < |s| && s[i].key == EMPTY
    ensures HasEmpty(s)
  {
  }

  lemma NoneEmpty(s: seq<Slot>, key: int)
    requires |s| > 0 && forall j :: 0 <= j < |s| ==> s[j].key != key && s[j].key != EMPTY
    ensures !HasEmpty(s) && Find(s, key) == -1
  {
  }

  lemma PairsGrow(s: seq<Slot>, i: int)
    requires 0 <= i < |s|
    ensures Pairs(s[..i + 1]) == Pairs(s[..i]) + Held(s[i])
  {
    assert s[..i + 1][..i] == s[..i];
  }

  /** Before a pair is moved, fewer pairs than all have been moved. */
  lemma PrefixFits(s: seq<Slot>, i: int)
    requires 0 <= i < |s| && !s[i].Free()
    ensures |Pairs(s[..i])| < |Pairs(s)|
  {
    PairsGrow(s, i);
    PrefixSmaller(s, i + 1);
  }

  lemma {:induction false} PrefixSmaller(s: seq<Slot>, i: int)
    requires 0 <= i <= |s|
    ensures |Pairs(s[..i])| <= |Pairs(s)|
    decreases |s| - i
  {
    hide Pairs, Held;
    if i < |s| {
      PairsGrow(s, i);
      PrefixSmaller(s, i + 1);
      MoreIsLarger(Pairs(s[..i]), Held(s[i]));
    } else {
      assert s[..i] == s;
    }
  }

  lemma MoreIsLarger(a: multiset<Slot>, b: multiset<Slot>)
    ensures |a| <= |a + b|
  {
  }
}
