/** The set-associative cache simulator of src/cache.c. Line addresses are what is left of an
    address after dropping lnbits bits; time starts at 1, so a zero latime marks an empty slot. */
module CacheSimulator {
  import opened Finite
  import opened Sizes

  // ----- What a least-recently-used cache holds -----

  /** The last time x was loaded, or 0. */
  ghost function LastUse(lines: seq<int>, x: int): (t: nat)
    ensures t <= |lines| && (t > 0 <==> x in lines) && (t > 0 ==> lines[t - 1] == x)
    ensures forall k :: t <= k < |lines| ==> lines[k] != x
  {
    if lines == [] then 0
    else if lines[|lines| - 1] == x then |lines|
    else LastUse(lines[..|lines| - 1], x)
  }

  /** The distinct lines of x's set that were used after x was. */
  ghost function UsedSince(lines: seq<int>, csize: int, x: int): set<int>
    requires csize > 0
  {
    set y | y in lines && y % csize == x % csize && LastUse(lines, y) > LastUse(lines, x)
  }

  /** x is among the nway most recently used lines of its set. */
  ghost predicate Held(lines: seq<int>, csize: int, nway: int, x: int)
    requires csize > 0
  {
    x in lines && |UsedSince(lines, csize, x)| < nway
  }

  /** The number of loads that find their line held. */
  ghost function Hits(lines: seq<int>, csize: int, nway: int): (h: nat)
    requires csize > 0
    ensures h <= |lines|
  {
    if lines == [] then 0
    else
      var before := lines[..|lines| - 1];
      Hits(before, csize, nway) + if Held(before, csize, nway, lines[|lines| - 1]) then 1 else 0
  }

  /** More ways never hold less ... */
  lemma MoreWaysHoldMore(lines: seq<int>, csize: int, nway: int, more: int, x: int)
    requires csize > 0 && nway <= more && Held(lines, csize, nway, x)
    ensures Held(lines, csize, more, x)
  {
  }

  /** ... and never hit less often on the same trace. */
  lemma {:induction false} MoreWaysHitMore(lines: seq<int>, csize: int, nway: int, more: int)
    requires csize > 0 && nway <= more
    ensures Hits(lines, csize, nway) <= Hits(lines, csize, more)
  {
    if lines != [] {
      MoreWaysHitMore(lines[..|lines| - 1], csize, nway, more);
    }
  }

  lemma HitsStep(lines: seq<int>, csize: int, nway: int, a: int)
    requires csize > 0
    ensures Hits(lines + [a], csize, nway) == Hits(lines, csize, nway) + if Held(lines, csize, nway, a) then 1 else 0
  {
    assert (lines + [a])[..|lines|] == lines;
  }

  // ----- One set -----

  ghost predicate Cached(times: seq<int>, tags: seq<int>, x: int)
    requires |times| == |tags|
  {
    exists i :: 0 <= i < |times| && times[i] != 0 && tags[i] == x
  }

  /** The slots of set s: a full slot shows its line's last use, no line is there twice, and every
      line that was loaded but is not there was used before all slots. */
  ghost predicate SetOk(lines: seq<int>, csize: int, s: int, times: seq<int>, tags: seq<int>)
    requires csize > 0
  {
    && |times| == |tags|
    && (forall i :: 0 <= i < |times| && times[i] != 0 ==>
          times[i] == LastUse(lines, tags[i]) && tags[i] % csize == s)
    && (forall i, j :: 0 <= i < j < |times| && times[i] != 0 && times[j] != 0 ==> tags[i] != tags[j])
    && (forall x, i :: x in lines && x % csize == s && !Cached(times, tags, x) && 0 <= i < |times| ==>
          LastUse(lines, x) < times[i])
  }

  lemma NewestLast(lines: seq<int>, a: int)
    ensures LastUse(lines + [a], a) == |lines| + 1
    ensures forall x :: x != a ==> LastUse(lines + [a], x) == LastUse(lines, x)
  {
    assert (lines + [a])[..|lines|] == lines;
  }

  lemma HitStep(lines: seq<int>, csize: int, s: int, times: seq<int>, tags: seq<int>, a: int, i: int)
    requires csize > 0 && SetOk(lines, csize, s, times, tags) && a % csize == s
    requires 0 <= i < |times| && times[i] != 0 && tags[i] == a
    ensures SetOk(lines + [a], csize, s, times[i := |lines| + 1], tags)
  {
    NewestLast(lines, a);
    var times' := times[i := |lines| + 1];
    forall x
      ensures Cached(times', tags, x) <==> Cached(times, tags, x)
    {
      assert forall k :: 0 <= k < |times| ==> (times[k] != 0 <==> times'[k] != 0);
    }
    assert Cached(times, tags, a);
  }

  lemma MissStep(lines: seq<int>, csize: int, s: int, times: seq<int>, tags: seq<int>, a: int, lru: int)
    requires csize > 0 && SetOk(lines, csize, s, times, tags) && a % csize == s && !Cached(times, tags, a)
    requires 0 <= lru < |times|
    requires times[lru] != 0 ==> forall i :: 0 <= i < |times| ==> times[i] != 0 && times[lru] <= times[i]
    ensures SetOk(lines + [a], csize, s, times[lru := |lines| + 1], tags[lru := a])
  {
    NewestLast(lines, a);
    var times', tags' := times[lru := |lines| + 1], tags[lru := a];
    forall x, i | x in lines + [a] && x % csize == s && !Cached(times', tags', x) && 0 <= i < |times'|
      ensures LastUse(lines + [a], x) < times'[i]
    {
      assert times'[lru] != 0 && tags'[lru] == a;
      assert x != a && x in lines;
      assert LastUse(lines, x) <= |lines|;
      if Cached(times, tags, x) && i != lru {
        EvictedWasCached(times, tags, |lines| + 1, a, lru, x);
        EvictedIsOldest(lines, csize, s, times, tags, lru, x, i);
      }
    }
  }

  lemma EvictedWasCached(times: seq<int>, tags: seq<int>, now: int, a: int, lru: int, x: int)
    requires |times| == |tags| && 0 <= lru < |times| && Cached(times, tags, x)
    requires !Cached(times[lru := now], tags[lru := a], x)
    ensures times[lru] != 0 && tags[lru] == x
  {
    var k :| 0 <= k < |times| && times[k] != 0 && tags[k] == x;
    if k != lru {
      FullSlot(times[lru := now], tags[lru := a], x, k);
    }
  }

  lemma EvictedIsOldest(lines: seq<int>, csize: int, s: int, times: seq<int>, tags: seq<int>, lru: int, x: int, i: int)
    requires csize > 0 && SetOk(lines, csize, s, times, tags)
    requires 0 <= lru < |times| && 0 <= i < |times| && i != lru && times[lru] != 0 && tags[lru] == x
    requires forall k :: 0 <= k < |times| ==> times[k] != 0 && times[lru] <= times[k]
    ensures LastUse(lines, x) < times[i]
  {
    TwoSlots(lines, csize, s, times, tags, lru, i);
    hide SetOk;
    var y := tags[i];
    if LastUse(lines, x) == LastUse(lines, y) {
      assert lines[LastUse(lines, x) - 1] == x;
    }
  }

  lemma TwoSlots(lines: seq<int>, csize: int, s: int, times: seq<int>, tags: seq<int>, k: int, i: int)
    requires csize > 0 && SetOk(lines, csize, s, times, tags)
    requires 0 <= k < |times| && 0 <= i < |times| && i != k && times[k] != 0 && times[i] != 0
    ensures tags[i] != tags[k]
    ensures times[i] == LastUse(lines, tags[i]) > 0 && times[k] == LastUse(lines, tags[k]) > 0
  {
    hide LastUse;
    assert if i < k then tags[i] != tags[k] else tags[k] != tags[i];
  }

  lemma OtherSet(lines: seq<int>, csize: int, s: int, times: seq<int>, tags: seq<int>, a: int)
    requires csize > 0 && SetOk(lines, csize, s, times, tags) && a % csize != s
    ensures SetOk(lines + [a], csize, s, times, tags)
  {
    NewestLast(lines, a);
  }

  /** A set that is in order holds exactly its most recently used lines. */
  lemma SetHolds(lines: seq<int>, csize: int, s: int, times: seq<int>, tags: seq<int>, x: int)
    requires csize > 0 && SetOk(lines, csize, s, times, tags) && x % csize == s
    ensures Cached(times, tags, x) <==> Held(lines, csize, |times|, x)
  {
    var newer := UsedSince(lines, csize, x);
    if Cached(times, tags, x) {
      var i :| 0 <= i < |times| && times[i] != 0 && tags[i] == x;
      forall y | y in newer
        ensures Cached(times, tags, y)
      {
        assert LastUse(lines, y) > times[i];
      }
      NewerHaveSlots(times, tags, newer, x, i);
      NewerFits(times, tags, newer, Below(|times|) - {i});
    } else if x in lines {
      assert forall k :: 0 <= k < |times| ==> LastUse(lines, x) < times[k];
      AllNewer(lines, csize, s, times, tags, x, |times|);
    }
  }

  lemma NewerHaveSlots(times: seq<int>, tags: seq<int>, newer: set<int>, x: int, i: int)
    requires |times| == |tags| && 0 <= i < |times| && tags[i] == x && x !in newer
    requires forall y :: y in newer ==> Cached(times, tags, y)
    ensures forall y :: y in newer ==> exists k :: k in Below(|times|) - {i} && tags[k] == y
  {
    forall y | y in newer
      ensures exists k :: k in Below(|times|) - {i} && tags[k] == y
    {
      var k :| 0 <= k < |times| && times[k] != 0 && tags[k] == y;
      assert k in Below(|times|) - {i};
    }
  }

  lemma {:induction false} NewerFits(times: seq<int>, tags: seq<int>, newer: set<int>, slots: set<int>)
    requires |times| == |tags| && forall k :: k in slots ==> 0 <= k < |times|
    requires forall y :: y in newer ==> exists k :: k in slots && tags[k] == y
    ensures |newer| <= |slots|
  {
    if y :| y in newer {
      var k :| k in slots && tags[k] == y;
      forall z | z in newer - {y}
        ensures exists c :: c in slots - {k} && tags[c] == z
      {
        var c :| c in slots && tags[c] == z;
        assert c in slots - {k};
      }
      NewerFits(times, tags, newer - {y}, slots - {k});
    } else {
      assert newer == {};
    }
  }

  lemma {:induction false} AllNewer(lines: seq<int>, csize: int, s: int, times: seq<int>, tags: seq<int>, x: int,
                                    n: int)
    requires csize > 0 && SetOk(lines, csize, s, times, tags) && x % csize == s && 0 <= n <= |times|
    requires forall k :: 0 <= k < n ==> LastUse(lines, x) < times[k]
    ensures n <= |UsedSince(lines, csize, x)|
  {
    var tagged := tags[..n];
    forall k | 0 <= k < n
      ensures tagged[k] in UsedSince(lines, csize, x)
    {
      assert times[k] == LastUse(lines, tags[k]);
    }
    DistinctCount(tagged);
    CardinalityMonotone((set y | y in tagged), UsedSince(lines, csize, x));
  }

  lemma FullSlot(times: seq<int>, tags: seq<int>, x: int, i: int)
    requires |times| == |tags| && 0 <= i < |times| && times[i] != 0 && tags[i] == x
    ensures Cached(times, tags, x)
  {
  }

  // ----- The whole cache -----

  /** addr is one of the Pow2(lnbits) bytes of line x. */
  ghost predicate InLine(addr: int, x: int, lnbits: nat)
  {
    x * Pow2(lnbits) <= addr < (x + 1) * Pow2(lnbits)
  }

  /** The address without its lnbits lowest bits. */
  function LineOf(addr: int, lnbits: nat): (x: int)
    ensures InLine(addr, x, lnbits)
  {
    addr / Pow2(lnbits)
  }

  lemma LineBounds(addr: int, x: int, lnbits: nat)
    requires InLine(addr, x, lnbits)
    ensures x * Pow2(lnbits) <= addr < (x + 1) * Pow2(lnbits)
  {
  }

  lemma OneLine(addr: int, x: int, y: int, lnbits: nat)
    requires InLine(addr, x, lnbits) && InLine(addr, y, lnbits)
    ensures x == y
  {
    Ordered(x + 1, y, Pow2(lnbits));
    Ordered(y + 1, x, Pow2(lnbits));
  }

  lemma Ordered(x: int, y: int, n: nat)
    requires n > 0
    ensures x <= y ==> x * n <= y * n
  {
  }

  /** The line loaded last is held. */
  lemma NewestHeld(lines: seq<int>, csize: int, nway: int)
    requires csize > 0 && nway > 0 && lines != []
    ensures Held(lines, csize, nway, lines[|lines| - 1])
  {
    assert UsedSince(lines, csize, lines[|lines| - 1]) == {};
  }

  /** Where set s starts. */
  function Base(nway: int, s: int): int
  {
    s * nway
  }

  lemma {:induction false} BasesGrow(nway: int, s: int, t: int)
    requires nway > 0 && s < t
    ensures Base(nway, s) + nway <= Base(nway, t)
    decreases t - s
  {
    assert t * nway == (t - 1) * nway + nway;
    if s < t - 1 {
      BasesGrow(nway, s, t - 1);
    }
  }

  lemma BaseZero(nway: int)
    ensures Base(nway, 0) == 0
  {
  }

  lemma SetBounds(nway: int, csize: int, s: int)
    requires nway > 0 && 0 <= s < csize
    ensures 0 <= Base(nway, s) <= Base(nway, s) + nway <= Base(nway, csize)
  {
    BaseZero(nway);
    hide Base;
    BasesGrow(nway, s, csize);
    if s > 0 {
      BasesGrow(nway, 0, s);
    }
  }

  lemma SetsApart(nway: int, s: int, t: int)
    requires nway > 0 && s != t
    ensures Base(nway, s) + nway <= Base(nway, t) || Base(nway, t) + nway <= Base(nway, s)
  {
    hide Base;
    if s < t {
      BasesGrow(nway, s, t);
    } else {
      BasesGrow(nway, t, s);
    }
  }

  /** The slots of set s. */
  ghost function Slots(nway: int, csize: int, a: seq<int>, s: int): (slots: seq<int>)
    requires nway > 0 && |a| == Base(nway, csize) && 0 <= s < csize
    ensures |slots| == nway
  {
    SetBounds(nway, csize, s);
    a[Base(nway, s)..Base(nway, s) + nway]
  }

  ghost predicate AllSetsOk(lines: seq<int>, nway: int, csize: int, times: seq<int>, tags: seq<int>)
    requires nway > 0 && csize > 0 && |times| == |tags| == Base(nway, csize)
  {
    forall s :: 0 <= s < csize ==>
      SetOk(lines, csize, s, Slots(nway, csize, times, s), Slots(nway, csize, tags, s))
  }

  /** The i-th slot of set s. */
  lemma SlotAt(nway: int, csize: int, a: seq<int>, s: int, k: int, v: int)
    requires nway > 0 && |a| == Base(nway, csize) && 0 <= s < csize && Base(nway, s) <= k < Base(nway, s) + nway
    ensures 0 <= Base(nway, s) <= k < |a|
    ensures Slots(nway, csize, a, s)[k - Base(nway, s)] == a[k]
    ensures Slots(nway, csize, a[k := v], s) == Slots(nway, csize, a, s)[k - Base(nway, s) := v]
  {
    hide Base;
    SetBounds(nway, csize, s);
  }

  lemma SlotsElsewhere(nway: int, csize: int, a: seq<int>, s: int, k: int, v: int, t: int)
    requires nway > 0 && |a| == Base(nway, csize) && 0 <= s < csize && Base(nway, s) <= k < Base(nway, s) + nway
    requires 0 <= t < csize && t != s && 0 <= k < |a|
    ensures Slots(nway, csize, a[k := v], t) == Slots(nway, csize, a, t)
  {
    hide Base;
    SetBounds(nway, csize, t);
    SetsApart(nway, s, t);
  }

  /** A load that changes slot k of the line's set, and nothing else. */
  lemma LoadStep(lines: seq<int>, nway: int, csize: int, times: seq<int>, tags: seq<int>, line: int, k: int)
    requires nway > 0 && csize > 0 && |times| == |tags| == Base(nway, csize)
    requires AllSetsOk(lines, nway, csize, times, tags)
    requires var s := line % csize;
             Base(nway, s) <= k < Base(nway, s) + nway && 0 <= k < |times| &&
             SetOk(lines + [line], csize, s, Slots(nway, csize, times, s)[k - Base(nway, s) := |lines| + 1],
                   Slots(nway, csize, tags, s)[k - Base(nway, s) := line])
    ensures AllSetsOk(lines + [line], nway, csize, times[k := |lines| + 1], tags[k := line])
  {
    hide SetOk, Base, Slots;
    var s := line % csize;
    var times', tags' := times[k := |lines| + 1], tags[k := line];
    SlotAt(nway, csize, times, s, k, |lines| + 1);
    SlotAt(nway, csize, tags, s, k, line);
    forall t | 0 <= t < csize
      ensures SetOk(lines + [line], csize, t, Slots(nway, csize, times', t), Slots(nway, csize, tags', t))
    {
      if t != s {
        SlotsElsewhere(nway, csize, times, s, k, |lines| + 1, t);
        SlotsElsewhere(nway, csize, tags, s, k, line, t);
        OtherSet(lines, csize, t, Slots(nway, csize, times, t), Slots(nway, csize, tags, t), line);
      }
    }
  }

  lemma HitLoad(lines: seq<int>, nway: int, csize: int, times: seq<int>, tags: seq<int>, line: int, k: int)
    requires nway > 0 && csize > 0 && |times| == |tags| == Base(nway, csize)
    requires AllSetsOk(lines, nway, csize, times, tags)
    requires Base(nway, line % csize) <= k < Base(nway, line % csize) + nway && 0 <= k < |times|
    requires times[k] != 0 && tags[k] == line
    ensures AllSetsOk(lines + [line], nway, csize, times[k := |lines| + 1], tags)
    ensures InSet(nway, csize, times, tags, line)
  {
    hide SetOk, Base, Slots, Cached;
    var s := line % csize;
    var i := k - Base(nway, s);
    SlotAt(nway, csize, times, s, k, 0);
    SlotAt(nway, csize, tags, s, k, 0);
    FullSlot(Slots(nway, csize, times, s), Slots(nway, csize, tags, s), line, i);
    HitStep(lines, csize, s, Slots(nway, csize, times, s), Slots(nway, csize, tags, s), line, i);
    assert Slots(nway, csize, tags, s)[i := line] == Slots(nway, csize, tags, s);
    LoadStep(lines, nway, csize, times, tags, line, k);
    assert tags[k := line] == tags;
  }

  lemma MissLoad(lines: seq<int>, nway: int, csize: int, times: seq<int>, tags: seq<int>, line: int, k: int)
    requires nway > 0 && csize > 0 && |times| == |tags| == Base(nway, csize)
    requires AllSetsOk(lines, nway, csize, times, tags) && !InSet(nway, csize, times, tags, line)
    requires var s := line % csize;
             0 <= Base(nway, s) <= k < Base(nway, s) + nway <= |times| &&
             (times[k] != 0 ==>
                forall c :: Base(nway, s) <= c < Base(nway, s) + nway ==> times[c] != 0 && times[k] <= times[c])
    ensures AllSetsOk(lines + [line], nway, csize, times[k := |lines| + 1], tags[k := line])
  {
    hide SetOk, Base, Cached;
    var s := line % csize;
    SlotAt(nway, csize, times, s, k, 0);
    MissStep(lines, csize, s, Slots(nway, csize, times, s), Slots(nway, csize, tags, s), line, k - Base(nway, s));
    LoadStep(lines, nway, csize, times, tags, line, k);
  }

  /** Line x stands in one of the slots of its set. */
  ghost predicate InSet(nway: int, csize: int, times: seq<int>, tags: seq<int>, x: int)
    requires nway > 0 && csize > 0 && |times| == |tags| == Base(nway, csize)
  {
    Cached(Slots(nway, csize, times, x % csize), Slots(nway, csize, tags, x % csize), x)
  }

  lemma NotInSlots(nway: int, csize: int, times: seq<int>, tags: seq<int>, x: int)
    requires nway > 0 && csize > 0 && |times| == |tags| == Base(nway, csize)
    requires 0 <= Base(nway, x % csize) <= Base(nway, x % csize) + nway <= |times|
    requires forall k :: Base(nway, x % csize) <= k < Base(nway, x % csize) + nway ==> times[k] == 0 || tags[k] != x
    ensures !InSet(nway, csize, times, tags, x)
  {
    hide Base;
  }

  lemma EmptySets(nway: int, csize: int, times: seq<int>, tags: seq<int>)
    requires nway > 0 && csize > 0 && |times| == |tags| == Base(nway, csize)
    requires forall k :: 0 <= k < |times| ==> times[k] == 0
    ensures AllSetsOk([], nway, csize, times, tags)
  {
    forall s | 0 <= s < csize
      ensures SetOk([], csize, s, Slots(nway, csize, times, s), Slots(nway, csize, tags, s))
    {
      SetBounds(nway, csize, s);
    }
  }

  class Cache {
    const nway: int
    const lnbits: nat
    const cnbits: nat
    const csize: int
    var nhits: int
    var nmisses: int
    var clock: int
    const latimes: array<int>
    const clines: array<int>

    /** The line addresses loaded since the last reset. */
    ghost var lines: seq<int>

    ghost predicate Shape()
    {
      && nway > 0 && csize == Pow2(cnbits) && csize > 0
      && latimes != clines && latimes.Length == clines.Length == Base(nway, csize)
    }

    ghost predicate Valid()
      reads this, latimes, clines
    {
      && Shape() && AllSetsOk(lines, nway, csize, latimes[..], clines[..]) && clock == |lines|
      && nhits == Hits(lines, csize, nway) && nmisses == clock - nhits
    }

    ghost predicate Holds(x: int)
      requires Shape()
      reads latimes, clines
    {
      InSet(nway, csize, latimes[..], clines[..], x)
    }

    /** After any run of loads a set holds exactly its nway most recently used lines. */
    lemma HoldsMostRecent(x: int)
      requires Valid()
      ensures Holds(x) <==> Held(lines, csize, nway, x)
    {
      var s := x % csize;
      SetHolds(lines, csize, s, Slots(nway, csize, latimes[..], s), Slots(nway, csize, clines[..], s), x);
    }

    constructor (nway: int, lnbits: nat, cnbits: nat)
      requires nway > 0
      ensures Valid() && lines == [] && this.nway == nway && this.lnbits == lnbits && this.cnbits == cnbits
      ensures fresh(latimes) && fresh(clines)
    {
      hide Base, Pow2, AllSetsOk;
      this.nway, this.lnbits, this.cnbits := nway, lnbits, cnbits;
      nhits, nmisses, clock := 0, 0, 0;
      var size := Pow2(cnbits);
      csize := size;
      SetBounds(nway, size, 0);
      latimes := new int[Base(nway, size)](_ => 0);
      clines := new int[Base(nway, size)](_ => 0);
      lines := [];
      new;
      EmptySets(nway, size, latimes[..], clines[..]);
    }

    /** gk_cacheReset. */
    method Reset()
      requires Valid()
      modifies this, latimes, clines
      ensures Valid() && lines == []
    {
      hide Base, Pow2;
      var nlines := latimes.Length;
      nhits, nmisses, clock := 0, 0, 0;
      lines := [];
      for k := 0 to nlines
        modifies latimes, clines
        invariant forall i :: 0 <= i < k ==> latimes[i] == 0 && clines[i] == 0
      {
        latimes[k] := 0;
        clines[k] := 0;
      }
      EmptySets(nway, csize, latimes[..], clines[..]);
    }

    /** The slot that holds the line, if any. */
    method FindHit(set0: int, line: int) returns (i: int)
      requires Shape() && 0 <= set0 <= set0 + nway <= latimes.Length
      ensures 0 <= i <= nway
      ensures i < nway ==> latimes[set0 + i] != 0 && clines[set0 + i] == line
      ensures i == nway ==> forall k :: set0 <= k < set0 + nway ==> latimes[k] == 0 || clines[k] != line
    {
      hide Base, Pow2;
      i := 0;
      while i < nway
        invariant 0 <= i <= nway
        invariant forall k :: set0 <= k < set0 + i ==> latimes[k] == 0 || clines[k] != line
      {
        if latimes[set0 + i] != 0 && clines[set0 + i] == line {
          return;
        }
        i := i + 1;
      }
    }

    /** The first empty slot, or one that was used least recently. */
    method FindLru(set0: int) returns (lru: int)
      requires Shape() && 0 <= set0 <= set0 + nway <= latimes.Length
      ensures 0 <= lru < nway
      ensures latimes[set0 + lru] != 0 ==>
        forall k :: set0 <= k < set0 + nway ==> latimes[k] != 0 && latimes[set0 + lru] <= latimes[k]
    {
      hide Base, Pow2;
      lru := 0;
      for i := 0 to nway
        invariant 0 <= lru < nway && (i == 0 ==> lru == 0)
        invariant forall k :: set0 <= k < set0 + i ==> latimes[k] != 0 && latimes[set0 + lru] <= latimes[k]
      {
        if latimes[set0 + i] == 0 {
          lru := i;
          break;
        } else if latimes[set0 + i] < latimes[set0 + lru] {
          lru := i;
        }
      }
    }

    /** gk_cacheLoad: hit or miss, the line becomes the most recent one of its set. */
    method Load(addr: int)
      requires Valid() && 0 <= addr <= SIZE_MAX
      modifies this, latimes, clines
      ensures Valid() && |lines| == |old(lines)| + 1 && lines[..|old(lines)|] == old(lines)
      ensures lines[|old(lines)|] * Pow2(lnbits) <= addr < (lines[|old(lines)|] + 1) * Pow2(lnbits)
      ensures var x := lines[|old(lines)|]; nhits == old(nhits) + if old(Holds(x)) then 1 else 0
      ensures old(lines != [] && InLine(addr, lines[|lines| - 1], lnbits)) ==> nhits == old(nhits) + 1
    {
      hide AllSetsOk, InSet, Base, LineOf, InLine, Held, Hits, Pow2;
      var line := LineOf(addr, lnbits);
      LineBounds(addr, line, lnbits);
      ghost var before := lines;
      if before != [] && InLine(addr, before[|before| - 1], lnbits) {
        OneLine(addr, line, before[|before| - 1], lnbits);
        NewestHeld(lines, csize, nway);
      }
      var s := line % csize;
      var set0 := Base(nway, s);
      SetBounds(nway, csize, s);
      HoldsMostRecent(line);
      HitsStep(lines, csize, nway, line);
      ghost var times, tags := latimes[..], clines[..];
      clock := clock + 1;
      var i := FindHit(set0, line);
      if i < nway {
        HitLoad(lines, nway, csize, times, tags, line, set0 + i);
        nhits := nhits + 1;
        latimes[set0 + i] := clock;
        assert latimes[..] == times[set0 + i := clock];
      } else {
        NotInSlots(nway, csize, times, tags, line);
        var lru := FindLru(set0);
        MissLoad(lines, nway, csize, times, tags, line, set0 + lru);
        nmisses := nmisses + 1;
        clines[set0 + lru] := line;
        latimes[set0 + lru] := clock;
        assert latimes[..] == times[set0 + lru := clock] && clines[..] == tags[set0 + lru := line];
      }
      lines := lines + [line];
    }

    /** gk_cacheGetHitRate. */
    method GetHitRate() returns (rate: real)
      requires Valid()
      ensures 0.0 <= rate <= 1.0
      ensures rate * |lines| as real == Hits(lines, csize, nway) as real
    {
      hide Base, Pow2, AllSetsOk, Hits;
      rate := if clock == 0 then 0.0 else nhits as real / clock as real;
      if clock != 0 {
        Fraction(nhits, clock);
      }
    }
  }

  lemma Fraction(a: int, b: int)
    requires 0 <= a <= b && b > 0
    ensures 0.0 <= a as real / b as real <= 1.0
    ensures a as real / b as real * b as real == a as real
  {
  }

  lemma AtLeast(a: int, b: int)
    requires a > 0 && b >= 0
    ensures a * b >= b
  {
  }

  /** gk_cacheCreate: every size it computes must fit into 64 bits. */
  method Create(nway: int, lnbits: nat, cnbits: nat) returns (cache: Cache?)
    requires 0 <= nway <= 0xFFFF_FFFF
    ensures cache != null <==>
      && nway > 0 && lnbits < 64 && cnbits < 64 && lnbits + cnbits < 64
      && nway * Pow2(cnbits + lnbits) <= SIZE_MAX && nway * Pow2(cnbits) * 8 <= SIZE_MAX
    ensures cache != null ==>
      fresh(cache) && cache.Valid() && cache.lines == [] && cache.nway == nway && cache.lnbits == lnbits
      && cache.cnbits == cnbits
  {
    hide Pow2, Base, AllSetsOk;
    if nway == 0 {
      return null;
    }
    if lnbits >= 64 || cnbits >= 64 {
      return null;
    }
    var addressBits := cnbits + lnbits;
    QuotientBound(nway, Pow2(addressBits), SIZE_MAX);
    if addressBits >= 64 || nway > SIZE_MAX / Pow2(addressBits) {
      return null;
    }
    Pow2Grows(cnbits, addressBits);
    AtLeast(nway, Pow2(addressBits));
    var ok, nlines := SizeMul(Pow2(cnbits), nway);
    if !ok {
      return null;
    }
    var bytes;
    ok, bytes := SizeMul(nlines, 8);
    if !ok {
      return null;
    }
    cache := new Cache(nway, lnbits, cnbits);
  }
}
