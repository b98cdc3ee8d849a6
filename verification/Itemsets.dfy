/** Frequent itemset discovery (src/itemsets.c): a depth-first search over projected matrices whose
    columns are filtered and sorted again at every step. */
module Itemsets {
  import opened Csr
  import opened Finite
  import opened Picks
  import opened PriorityQueue
  import opened Sequences
  import QSort
  import Transpose

  // ----- Transactions and their itemsets -----

  /** The items of every transaction, and how often it lists them. */
  type Database = seq<multiset<int>>

  ghost predicate Contains(t: multiset<int>, s: set<int>)
  {
    forall x :: x in s ==> x in t
  }

  /** The transactions that contain all of s. */
  ghost function Support(db: Database, s: set<int>): set<int>
  {
    set t | t in Below(|db|) && Contains(db[t], s)
  }

  ghost function Repeat(t: int, k: nat): seq<int>
  {
    seq(k, _ => t)
  }

  /** The transactions that contain s, in order, each as often as it lists x. */
  ghost function Listing(db: Database, s: set<int>, x: int): seq<int>
  {
    if db == [] then []
    else var n := |db| - 1; Listing(db[..n], s, x) + if Contains(db[n], s) then Repeat(n, db[n][x]) else []
  }

  /** How often x occurs in the transactions that contain s. */
  ghost function Occurrences(db: Database, s: set<int>, x: int): nat
  {
    |Listing(db, s, x)|
  }

  /** A reported itemset, as the call-back receives it. */
  datatype Found = Found(items: seq<int>, trans: seq<int>)

  datatype Limits = Limits(minfreq: int, maxfreq: int, minlen: int, maxlen: int)

  ghost function Elements<T>(s: seq<T>): set<T>
  {
    set x | x in s
  }

  ghost predicate Ascending(s: seq<int>)
  {
    forall i, j :: 0 <= i < j < |s| ==> s[i] < s[j]
  }

  ghost predicate Distinct(s: seq<int>)
  {
    forall i, j :: 0 <= i < j < |s| ==> s[i] != s[j]
  }

  /** The report names an itemset without repetition and lists its transactions, in order, once for
      each occurrence of the itemset's last item. */
  ghost predicate Sound(db: Database, f: Found)
  {
    f.items != [] && Distinct(f.items) && f.trans == Listing(db, Elements(f.items), f.items[|f.items| - 1])
  }

  /** How often the itemset s was reported. */
  ghost function Times(log: seq<Found>, s: set<int>): nat
  {
    if log == [] then 0
    else Times(log[..|log| - 1], s) + if Elements(log[|log| - 1].items) == s then 1 else 0
  }

  lemma {:induction false} TimesConcat(a: seq<Found>, b: seq<Found>, s: set<int>)
    ensures Times(a + b, s) == Times(a, s) + Times(b, s)
    decreases |b|
  {
    if b == [] {
      assert a + b == a;
    } else {
      assert (a + b)[..|a + b| - 1] == a + b[..|b| - 1];
      TimesConcat(a, b[..|b| - 1], s);
    }
  }

  // ----- Filtering a column by a set of rows -----

  ghost function Filter(col: seq<int>, keep: set<int>): seq<int>
  {
    if col == [] then []
    else Filter(col[..|col| - 1], keep) + if col[|col| - 1] in keep then [col[|col| - 1]] else []
  }

  lemma ElementsAppend<T>(s: seq<T>, x: T)
    ensures Elements(s + [x]) == Elements(s) + {x}
  {
  }

  lemma {:induction false} FilterConcat(a: seq<int>, b: seq<int>, keep: set<int>)
    ensures Filter(a + b, keep) == Filter(a, keep) + Filter(b, keep)
    decreases |b|
  {
    if b == [] {
      assert a + b == a;
    } else {
      var init, last := b[..|b| - 1], [b[|b| - 1]];
      assert (a + b)[..|a + b| - 1] == a + init;
      FilterConcat(a, init, keep);
      Associative(Filter(a, keep), Filter(init, keep), if last[0] in keep then last else []);
    }
  }

  lemma {:induction false} FilterRepeat(t: int, k: nat, keep: set<int>)
    ensures Filter(Repeat(t, k), keep) == if t in keep then Repeat(t, k) else []
  {
    if k > 0 {
      FilterRepeat(t, k - 1, keep);
      assert Repeat(t, k) == Repeat(t, k - 1) + [t];
      assert Repeat(t, k)[..k - 1] == Repeat(t, k - 1);
    }
  }

  // ----- The listings -----

  lemma SupportStep(db: Database, s: set<int>)
    requires db != []
    ensures
      var n := |db| - 1;
      n !in Support(db[..n], s) && Support(db, s) == Support(db[..n], s) + if Contains(db[n], s) then {n} else {}
  {
  }

  lemma {:induction false} ListingElements(db: Database, s: set<int>, x: int)
    requires x in s
    ensures Elements(Listing(db, s, x)) == Support(db, s)
  {
    hide Repeat;
    if db != [] {
      var n := |db| - 1;
      ListingElements(db[..n], s, x);
      SupportStep(db, s);
      if Contains(db[n], s) {
        RepeatElements(n, db[n][x]);
        ElementsConcat(Listing(db[..n], s, x), Repeat(n, db[n][x]));
      }
    }
  }

  lemma RepeatElements(t: int, k: nat)
    requires k > 0
    ensures Elements(Repeat(t, k)) == {t}
  {
    assert Repeat(t, k)[0] == t;
  }

  lemma ElementsConcat<T>(s: seq<T>, t: seq<T>)
    ensures Elements(s + t) == Elements(s) + Elements(t)
  {
  }

  /** Keeping the transactions that contain more turns one listing into another. */
  lemma {:induction false} FilterListing(db: Database, s: set<int>, s': set<int>, x: int, keep: set<int>)
    requires s <= s'
    requires forall t :: 0 <= t < |db| && Contains(db[t], s) ==> (t in keep <==> Contains(db[t], s'))
    ensures Filter(Listing(db, s, x), keep) == Listing(db, s', x)
  {
    if db != [] {
      var n := |db| - 1;
      FilterListing(db[..n], s, s', x, keep);
      assert Contains(db[n], s') ==> Contains(db[n], s);
      FilterConcat(Listing(db[..n], s, x), if Contains(db[n], s) then Repeat(n, db[n][x]) else [], keep);
      FilterRepeat(n, db[n][x], keep);
    }
  }

  /** Items occur at least as often as there are transactions, and exactly as often only if none lists
      the item twice. */
  lemma {:induction false} OccurrencesCount(db: Database, s: set<int>, x: int)
    requires x in s
    ensures |Support(db, s)| <= Occurrences(db, s, x)
    ensures |Support(db, s)| == Occurrences(db, s, x) <==> OnceIn(db, s, x)
  {
    hide Support, OnceIn;
    OnceStep(db, s, x);
    if db != [] {
      var n := |db| - 1;
      OccurrencesCount(db[..n], s, x);
      SupportStep(db, s);
    }
  }

  /** No transaction that contains s lists x twice. */
  ghost predicate OnceIn(db: Database, s: set<int>, x: int)
    requires x in s
  {
    forall t :: 0 <= t < |db| && Contains(db[t], s) ==> db[t][x] == 1
  }

  lemma OnceStep(db: Database, s: set<int>, x: int)
    requires x in s
    ensures db == [] ==> Support(db, s) == {} && OnceIn(db, s, x)
    ensures db != [] ==>
      var n := |db| - 1;
      OnceIn(db, s, x) <==> OnceIn(db[..n], s, x) && (Contains(db[n], s) ==> db[n][x] == 1)
  {
    if db != [] {
      var n := |db| - 1;
      assert db == db[..n] + [db[n]];
    }
  }

  /** No transaction lists an item twice. */
  ghost predicate NoItemTwice(db: Database)
  {
    forall t, x :: 0 <= t < |db| ==> db[t][x] <= 1
  }

  /** Occurrences are transactions exactly if no transaction lists an item twice. */
  lemma CountsAreSupports(db: Database)
    ensures NoItemTwice(db) <==> forall s, x :: x in s ==> Occurrences(db, s, x) == |Support(db, s)|
  {
    hide Occurrences, Support;
    if NoItemTwice(db) {
      forall s, x | x in s
        ensures Occurrences(db, s, x) == |Support(db, s)|
      {
        OccurrencesOnce(db, s, x);
      }
    } else {
      var t, x :| 0 <= t < |db| && db[t][x] > 1;
      OccurrencesTwice(db, t, x);
    }
  }

  lemma OccurrencesOnce(db: Database, s: set<int>, x: int)
    requires NoItemTwice(db) && x in s
    ensures Occurrences(db, s, x) == |Support(db, s)|
  {
    hide Occurrences;
    OccurrencesCount(db, s, x);
    forall t | 0 <= t < |db| && Contains(db[t], s)
      ensures db[t][x] == 1
    {
      assert x in db[t];
    }
  }

  lemma OccurrencesTwice(db: Database, t: int, x: int)
    requires 0 <= t < |db| && db[t][x] > 1
    ensures x in {x} && Occurrences(db, {x}, x) != |Support(db, {x})|
  {
    hide Occurrences;
    OccurrencesCount(db, {x}, x);
    assert Contains(db[t], {x});
  }

  lemma {:induction false} ListingAscends(db: Database, s: set<int>, x: int)
    requires NoItemTwice(db)
    ensures Ascending(Listing(db, s, x))
    ensures forall i :: 0 <= i < |Listing(db, s, x)| ==> Listing(db, s, x)[i] < |db|
  {
    if db != [] {
      var n := |db| - 1;
      ListingAscends(db[..n], s, x);
    }
  }

  // ----- The projected matrices -----

  /** A column view: column i lists rows colind[colptr[i]..colptr[i+1]] and stands for item colids[i]. */
  datatype Matrix = Matrix(ncols: int, colptr: seq<int>, colind: seq<int>, colids: seq<int>)
  {
    ghost predicate Valid(nrows: int)
    {
      && ValidCsr(ncols, nrows, colptr, colind)
      && |colids| == ncols && Distinct(colids)
    }

    function Column(i: int): seq<int>
      requires 0 <= i < |colptr| - 1 && 0 <= colptr[i] <= colptr[i + 1] <= |colind|
    {
      colind[colptr[i]..colptr[i + 1]]
    }
  }

  /** The columns of m are the extensions of the itemset p: column i lists the transactions that
      contain p and item colids[i], once for each occurrence of that item, and there are neither too few
      nor too many of them; shorter columns come first. */
  ghost predicate Extends(db: Database, lim: Limits, m: Matrix, p: set<int>)
  {
    && m.Valid(|db|)
    && (forall i :: 0 <= i < m.ncols ==> IsExtension(db, lim, m, p, i))
    && (forall i, j :: 0 <= i < j < m.ncols ==> |m.Column(i)| <= |m.Column(j)|)
  }

  ghost predicate IsExtension(db: Database, lim: Limits, m: Matrix, p: set<int>, i: int)
    requires m.Valid(|db|) && 0 <= i < m.ncols
  {
    && m.colids[i] !in p
    && m.Column(i) == Listing(db, p + {m.colids[i]}, m.colids[i])
    && lim.minfreq <= |m.Column(i)| <= lim.maxfreq
  }

  /** How many rows of column i are kept. */
  ghost function Size(m: Matrix, nrows: int, keep: set<int>, i: int): int
    requires m.Valid(nrows) && 0 <= i < m.ncols
  {
    |Filter(m.Column(i), keep)|
  }

  ghost predicate Admissible(lim: Limits, m: Matrix, nrows: int, keep: set<int>, i: int)
    requires m.Valid(nrows) && 0 <= i < m.ncols
  {
    lim.minfreq <= Size(m, nrows, keep, i) <= lim.maxfreq
  }

  /** sel lists, without repetition, the columns after cid that keep an admissible number of rows. */
  ghost predicate Selects(lim: Limits, m: Matrix, nrows: int, cid: int, keep: set<int>, sel: seq<int>)
    requires m.Valid(nrows) && -1 <= cid < m.ncols
  {
    && Distinct(sel)
    && (forall x :: 0 <= x < |sel| ==> cid < sel[x] < m.ncols)
    && (forall i :: cid < i < m.ncols ==> (i in sel <==> Admissible(lim, m, nrows, keep, i)))
  }

  /** Column x of pm is what column sel[x] of m keeps. */
  ghost predicate KeepsColumns(m: Matrix, nrows: int, keep: set<int>, sel: seq<int>, pm: Matrix)
    requires m.Valid(nrows) && pm.Valid(nrows) && pm.ncols == |sel|
    requires forall x :: 0 <= x < |sel| ==> 0 <= sel[x] < m.ncols
  {
    forall x :: 0 <= x < |sel| ==>
      pm.Column(x) == Filter(m.Column(sel[x]), keep) && pm.colids[x] == m.colids[sel[x]]
  }

  /** What a projection along the kept rows does: it selects columns, keeps their rows, and puts the
      shortest first. */
  ghost predicate Projected(lim: Limits, m: Matrix, nrows: int, cid: int, keep: set<int>, sel: seq<int>, pm: Matrix)
    requires m.Valid(nrows) && -1 <= cid < m.ncols
  {
    && pm.Valid(nrows) && pm.ncols == |sel|
    && Selects(lim, m, nrows, cid, keep, sel)
    && KeepsColumns(m, nrows, keep, sel, pm)
    && (forall x, y :: 0 <= x < y < |sel| ==> |pm.Column(x)| <= |pm.Column(y)|)
  }

  /** Projecting along column cid yields the extensions of the larger itemset. */
  lemma ProjectionExtends(db: Database, lim: Limits, m: Matrix, p: set<int>, cid: int, sel: seq<int>, pm: Matrix)
    requires Extends(db, lim, m, p) && 0 <= cid < m.ncols
    requires Projected(lim, m, |db|, cid, Elements(m.Column(cid)), sel, pm)
    ensures Extends(db, lim, pm, p + {m.colids[cid]})
  {
    hide Filter, Listing;
    forall x | 0 <= x < pm.ncols
      ensures IsExtension(db, lim, pm, p + {m.colids[cid]}, x)
    {
      var i := sel[x];
      assert i in sel && Admissible(lim, m, |db|, Elements(m.Column(cid)), i);
      ProjectedColumn(db, lim, m, p, cid, i);
    }
  }

  /** What column x keeps when column i is projected. */
  lemma ProjectedColumn(db: Database, lim: Limits, m: Matrix, p: set<int>, i: int, x: int)
    requires Extends(db, lim, m, p) && 0 <= i < m.ncols && 0 <= x < m.ncols && i != x
    ensures m.colids[x] !in p + {m.colids[i]}
    ensures Filter(m.Column(x), Elements(m.Column(i))) ==
              Listing(db, p + {m.colids[i]} + {m.colids[x]}, m.colids[x])
  {
    var c, y := m.colids[i], m.colids[x];
    assert IsExtension(db, lim, m, p, i) && IsExtension(db, lim, m, p, x);
    ListingElements(db, p + {c}, c);
    BothContained(db, p, c, y);
    FilterListing(db, p + {y}, p + {c} + {y}, y, Support(db, p + {c}));
  }

  lemma BothContained(db: Database, p: set<int>, c: int, y: int)
    ensures forall t :: 0 <= t < |db| && Contains(db[t], p + {y}) ==>
              (t in Support(db, p + {c}) <==> Contains(db[t], p + {c} + {y}))
  {
  }

  // ----- What is reported below an itemset -----

  ghost function Items(m: Matrix): set<int>
  {
    Elements(m.colids)
  }

  /** s extends p by items of j and has an admissible length.  The length limit does not apply to the
      extensions by a single item. */
  ghost predicate Within(lim: Limits, p: set<int>, j: set<int>, s: set<int>)
  {
    p < s && s - p <= j && lim.minlen <= |s| && (|s| <= lim.maxlen || |s| == |p| + 1)
  }

  /** Whichever new item of s is added to p, it occurs often enough, and not too often, there. */
  ghost predicate InRange(db: Database, lo: int, hi: int, p: set<int>, s: set<int>)
  {
    forall x :: x in s && x !in p ==> lo <= Occurrences(db, p + {x}, x) <= hi
  }

  /** No new item of s occurs less often, when it is added to p, than a. */
  ghost predicate Least(db: Database, p: set<int>, s: set<int>, a: int)
  {
    && a in s && a !in p
    && forall b :: b in s && b !in p ==> Occurrences(db, p + {a}, a) <= Occurrences(db, p + {b}, b)
  }

  /** The new items of s stay in range while they are added to p one by one, always a least one, and
      whichever of several least ones is taken. */
  ghost predicate Always(db: Database, lo: int, hi: int, p: set<int>, s: set<int>)
    decreases s - p
  {
    InRange(db, lo, hi, p, s) && forall a :: Least(db, p, s, a) ==> Always(db, lo, hi, p + {a}, s)
  }

  /** The same if the right one of several least ones is taken. */
  ghost predicate Sometimes(db: Database, lo: int, hi: int, p: set<int>, s: set<int>)
    decreases s - p
  {
    && InRange(db, lo, hi, p, s)
    && (s - p == {} || exists a :: Least(db, p, s, a) && Sometimes(db, lo, hi, p + {a}, s))
  }

  /** s is reported below p. */
  ghost predicate Wanted(db: Database, lim: Limits, p: set<int>, j: set<int>, s: set<int>)
  {
    Within(lim, p, j, s) && Always(db, lim.minfreq, lim.maxfreq, p, s)
  }

  /** s is reported below p if ties between columns are broken in its favour. */
  ghost predicate Possible(db: Database, lim: Limits, p: set<int>, j: set<int>, s: set<int>)
  {
    Within(lim, p, j, s) && Sometimes(db, lim.minfreq, lim.maxfreq, p, s)
  }

  ghost predicate Between(times: nat, wanted: bool, possible: bool)
  {
    times <= 1 && (wanted ==> times == 1) && (times == 1 ==> possible)
  }

  /** Everything wanted below p is reported once, nothing twice, and nothing impossible at all. */
  ghost predicate Reported(db: Database, lim: Limits, p: set<int>, j: set<int>, log: seq<Found>)
  {
    && (forall x :: 0 <= x < |log| ==> Sound(db, log[x]))
    && (forall s :: Between(Times(log, s), Wanted(db, lim, p, j, s), Possible(db, lim, p, j, s)))
  }

  /** s uses one of the first n columns. */
  ghost predicate Uses(p: set<int>, m: Matrix, n: int, s: set<int>)
    requires 0 <= n <= |m.colids|
  {
    (s - p) * Elements(m.colids[..n]) != {}
  }

  /** The first column that s uses is i. */
  ghost predicate FirstIs(p: set<int>, m: Matrix, i: int, s: set<int>)
    requires 0 <= i < |m.colids|
  {
    !Uses(p, m, i, s) && m.colids[i] in s
  }

  /** The same for the itemsets that use one of the first n columns. */
  ghost predicate ReportedTo(db: Database, lim: Limits, p: set<int>, m: Matrix, n: int, log: seq<Found>)
    requires 0 <= n <= |m.colids|
  {
    && (forall x :: 0 <= x < |log| ==> Sound(db, log[x]))
    && (forall s :: Between(Times(log, s),
                            Wanted(db, lim, p, Items(m), s) && Uses(p, m, n, s),
                            Possible(db, lim, p, Items(m), s) && Uses(p, m, n, s)))
  }

  lemma SizePlusOne(p: set<int>, c: int)
    requires c !in p
    ensures |p + {c}| == |p| + 1
  {
  }

  /** The first column that s uses is the least of its new items, since columns are sorted. */
  lemma FirstIsLeast(db: Database, lim: Limits, p: set<int>, m: Matrix, i: int, s: set<int>)
    requires Extends(db, lim, m, p) && 0 <= i < m.ncols && FirstIs(p, m, i, s) && s - p <= Items(m)
    ensures Least(db, p, s, m.colids[i])
  {
    hide Listing;
    var c := m.colids[i];
    assert IsExtension(db, lim, m, p, i);
    forall b | b in s && b !in p
      ensures Occurrences(db, p + {c}, c) <= Occurrences(db, p + {b}, b)
    {
      assert b in s - p;
      assert b in Items(m);
      var x :| 0 <= x < m.ncols && m.colids[x] == b;
      assert IsExtension(db, lim, m, p, x);
      NotEarlier(p, m, i, s, x);
    }
  }

  lemma NotEarlier(p: set<int>, m: Matrix, i: int, s: set<int>, x: int)
    requires 0 <= i < |m.colids| && FirstIs(p, m, i, s)
    requires 0 <= x < |m.colids| && m.colids[x] in s && m.colids[x] !in p
    ensures i <= x
  {
    assert m.colids[x] in s - p;
    assert m.colids[x] !in (s - p) * Elements(m.colids[..i]);
    assert m.colids[x] !in Elements(m.colids[..i]);
    assert forall y :: 0 <= y < i ==> m.colids[..i][y] == m.colids[y];
  }

  /** The later columns of a wanted itemset stay in the projection. */
  lemma StaysAdmissible(db: Database, lim: Limits, p: set<int>, m: Matrix, i: int, s: set<int>, x: int)
    requires Extends(db, lim, m, p) && 0 <= i < m.ncols && 0 <= x < m.ncols && i != x
    requires InRange(db, lim.minfreq, lim.maxfreq, p + {m.colids[i]}, s) && m.colids[x] in s
    ensures Admissible(lim, m, |db|, Elements(m.Column(i)), x)
  {
    hide Filter, Listing;
    ProjectedColumn(db, lim, m, p, i, x);
  }

  /** Among the itemsets below p whose first column is i, one is p with that item alone.  The others that
      are wanted are wanted below it in the projection. */
  lemma FirstColumnWanted(db: Database, lim: Limits, p: set<int>, m: Matrix, i: int, sel: seq<int>, pm: Matrix,
                          s: set<int>)
    requires Extends(db, lim, m, p) && 0 <= i < m.ncols
    requires Projected(lim, m, |db|, i, Elements(m.Column(i)), sel, pm)
    requires s != p + {m.colids[i]} && Wanted(db, lim, p, Items(m), s)
    requires FirstIs(p, m, i, s)
    ensures |p| + 1 < lim.maxlen && Wanted(db, lim, p + {m.colids[i]}, Items(pm), s)
  {
    hide Occurrences, InRange, Least;
    var c := m.colids[i];
    assert IsExtension(db, lim, m, p, i);
    FirstIsLeast(db, lim, p, m, i, s);
    assert Always(db, lim.minfreq, lim.maxfreq, p + {c}, s);
    SizePlusOne(p, c);
    RestIsOffered(db, lim, p, m, i, sel, pm, s);
    assert p + {c} < s;
    CardinalityStrict(p + {c}, s);
  }

  lemma RestIsOffered(db: Database, lim: Limits, p: set<int>, m: Matrix, i: int, sel: seq<int>, pm: Matrix, s: set<int>)
    requires Extends(db, lim, m, p) && 0 <= i < m.ncols && s - p <= Items(m) && FirstIs(p, m, i, s)
    requires Projected(lim, m, |db|, i, Elements(m.Column(i)), sel, pm)
    requires InRange(db, lim.minfreq, lim.maxfreq, p + {m.colids[i]}, s)
    ensures s - (p + {m.colids[i]}) <= Items(pm)
  {
    hide Occurrences, InRange, FirstIs, Admissible;
    forall y | y in s - (p + {m.colids[i]})
      ensures y in Items(pm)
    {
      assert y in Items(m);
      var x :| 0 <= x < m.ncols && m.colids[x] == y;
      NotEarlier(p, m, i, s, x);
      StaysAdmissible(db, lim, p, m, i, s, x);
      assert x in sel;
      var z :| 0 <= z < |sel| && sel[z] == x;
      assert pm.colids[z] == y;
    }
  }

  /** And what is possible below it in the projection is possible below p. */
  lemma FirstColumnPossible(db: Database, lim: Limits, p: set<int>, m: Matrix, i: int, sel: seq<int>, pm: Matrix,
                            s: set<int>)
    requires Extends(db, lim, m, p) && 0 <= i < m.ncols
    requires Projected(lim, m, |db|, i, Elements(m.Column(i)), sel, pm)
    requires |p| + 1 < lim.maxlen && Possible(db, lim, p + {m.colids[i]}, Items(pm), s)
    ensures Possible(db, lim, p, Items(m), s) && FirstIs(p, m, i, s)
    ensures s != p + {m.colids[i]}
  {
    hide Occurrences, Projected, InRange, Least;
    var c := m.colids[i];
    assert IsExtension(db, lim, m, p, i);
    SizePlusOne(p, c);
    LaterItems(db, lim, p, m, i, sel, pm);
    assert s - p <= Items(pm) + {c};
    assert c in Items(m);
    assert s - p <= Items(m);
    assert p < s && c in s;
    assert (s - p) * Elements(m.colids[..i]) == {};
    FirstIsLeast(db, lim, p, m, i, s);
    OfferedIsInRange(db, lim, p, m, s);
  }

  /** Items that have a column are in range. */
  lemma OfferedIsInRange(db: Database, lim: Limits, p: set<int>, m: Matrix, s: set<int>)
    requires Extends(db, lim, m, p) && s - p <= Items(m)
    ensures InRange(db, lim.minfreq, lim.maxfreq, p, s)
  {
    hide Listing;
    forall x | x in s && x !in p
      ensures lim.minfreq <= Occurrences(db, p + {x}, x) <= lim.maxfreq
    {
      assert x in s - p;
      assert x in Items(m);
      var i :| 0 <= i < m.ncols && m.colids[i] == x;
      assert IsExtension(db, lim, m, p, i);
    }
  }

  lemma CardinalityStrict(s: set<int>, t: set<int>)
    requires s < t
    ensures |s| < |t|
  {
    assert t == s + (t - s);
  }

  /** The projection offers only items of later columns. */
  lemma LaterItems(db: Database, lim: Limits, p: set<int>, m: Matrix, i: int, sel: seq<int>, pm: Matrix)
    requires Extends(db, lim, m, p) && 0 <= i < m.ncols
    requires Projected(lim, m, |db|, i, Elements(m.Column(i)), sel, pm)
    ensures Items(pm) <= Items(m) && Items(pm) * Elements(m.colids[..i]) == {}
    ensures m.colids[i] !in Elements(m.colids[..i])
  {
    forall y | y in Items(pm)
      ensures y in Items(m) && y !in Elements(m.colids[..i])
    {
      var z :| 0 <= z < |sel| && pm.colids[z] == y;
      assert m.colids[sel[z]] == y && sel[z] > i;
    }
  }

  // ----- Putting a run together -----

  lemma ReportOwn(db: Database, lim: Limits, prefix: seq<int>, m: Matrix, i: int)
    requires Distinct(prefix) && Extends(db, lim, m, Elements(prefix)) && 0 <= i < m.ncols
    ensures
      var f := Found(prefix + [m.colids[i]], m.Column(i));
      Sound(db, f) && Elements(f.items) == Elements(prefix) + {m.colids[i]}
  {
    hide Listing;
    assert IsExtension(db, lim, m, Elements(prefix), i);
    ElementsAppend(prefix, m.colids[i]);
  }

  lemma {:induction false} DistinctSize(s: seq<int>)
    requires Distinct(s)
    ensures |Elements(s)| == |s|
  {
    if s == [] {
      assert Elements(s) == {};
    } else {
      var init, last := s[..|s| - 1], s[|s| - 1];
      DistinctSize(init);
      assert s == init + [last];
      ElementsAppend(init, last);
      assert last !in init;
    }
  }

  /** One turn of the loop: the itemset with column i alone, and everything below it. */
  lemma TurnReports(db: Database, lim: Limits, p: set<int>, m: Matrix, i: int, sel: seq<int>, pm: Matrix,
                    log: seq<Found>, own: seq<Found>, below: seq<Found>)
    requires Extends(db, lim, m, p) && 0 <= i < m.ncols
    requires Projected(lim, m, |db|, i, Elements(m.Column(i)), sel, pm)
    requires ReportedTo(db, lim, p, m, i, log)
    requires if lim.minlen <= |p| + 1 then
      |own| == 1 && Sound(db, own[0]) && Elements(own[0].items) == p + {m.colids[i]} else own == []
    requires if |p| + 1 < lim.maxlen then Reported(db, lim, p + {m.colids[i]}, Items(pm), below) else below == []
    ensures ReportedTo(db, lim, p, m, i + 1, log + own + below)
  {
    hide Wanted, Possible, Projected, Elements, Times, Sound, Support, Listing, IsExtension, Between;
    forall s
      ensures Between(Times(own, s) + Times(below, s),
                      Wanted(db, lim, p, Items(m), s) && FirstIs(p, m, i, s),
                      Possible(db, lim, p, Items(m), s) && FirstIs(p, m, i, s))
    {
      TurnCount(db, lim, p, m, i, sel, pm, own, below, s);
    }
    OwnIsWanted(db, lim, p, m, i);
    AddTurn(db, lim, p, m, i, log, own, below);
  }

  lemma AddTurn(db: Database, lim: Limits, p: set<int>, m: Matrix, i: int,
                log: seq<Found>, own: seq<Found>, below: seq<Found>)
    requires 0 <= i < |m.colids| && m.colids[i] !in p && ReportedTo(db, lim, p, m, i, log)
    requires forall x :: 0 <= x < |own| ==> Sound(db, own[x])
    requires forall x :: 0 <= x < |below| ==> Sound(db, below[x])
    requires forall s :: Between(Times(own, s) + Times(below, s),
                                 Wanted(db, lim, p, Items(m), s) && FirstIs(p, m, i, s),
                                 Possible(db, lim, p, Items(m), s) && FirstIs(p, m, i, s))
    ensures ReportedTo(db, lim, p, m, i + 1, log + own + below)
  {
    hide Wanted, Possible, Uses, FirstIs, Times, Sound, Items;
    LogGrows(db, log, own, below);
    forall s
      ensures Between(Times(log + own + below, s),
                      Wanted(db, lim, p, Items(m), s) && Uses(p, m, i + 1, s),
                      Possible(db, lim, p, Items(m), s) && Uses(p, m, i + 1, s))
    {
      TimesConcat(log + own, below, s);
      TimesConcat(log, own, s);
      OneMoreColumn(p, m, i, s);
      assert Between(Times(own, s) + Times(below, s), Wanted(db, lim, p, Items(m), s) && FirstIs(p, m, i, s),
                     Possible(db, lim, p, Items(m), s) && FirstIs(p, m, i, s));
    }
  }

  lemma LogGrows(db: Database, log: seq<Found>, own: seq<Found>, below: seq<Found>)
    requires forall x :: 0 <= x < |log| ==> Sound(db, log[x])
    requires forall x :: 0 <= x < |own| ==> Sound(db, own[x])
    requires forall x :: 0 <= x < |below| ==> Sound(db, below[x])
    ensures forall x :: 0 <= x < |log + own + below| ==> Sound(db, (log + own + below)[x])
  {
  }

  lemma OneMoreColumn(p: set<int>, m: Matrix, i: int, s: set<int>)
    requires 0 <= i < |m.colids| && m.colids[i] !in p
    ensures Uses(p, m, i + 1, s) <==> Uses(p, m, i, s) || FirstIs(p, m, i, s)
    ensures FirstIs(p, m, i, s) ==> !Uses(p, m, i, s)
  {
    assert m.colids[..i + 1] == m.colids[..i] + [m.colids[i]];
    ElementsAppend(m.colids[..i], m.colids[i]);
    if m.colids[i] in s - p {
      assert m.colids[i] in (s - p) * Elements(m.colids[..i + 1]);
    }
  }

  lemma TurnCount(db: Database, lim: Limits, p: set<int>, m: Matrix, i: int, sel: seq<int>, pm: Matrix,
                  own: seq<Found>, below: seq<Found>, s: set<int>)
    requires Extends(db, lim, m, p) && 0 <= i < m.ncols
    requires Projected(lim, m, |db|, i, Elements(m.Column(i)), sel, pm)
    requires if lim.minlen <= |p| + 1 then
      |own| == 1 && Sound(db, own[0]) && Elements(own[0].items) == p + {m.colids[i]} else own == []
    requires if |p| + 1 < lim.maxlen then Reported(db, lim, p + {m.colids[i]}, Items(pm), below) else below == []
    ensures Between(Times(own, s) + Times(below, s),
                    Wanted(db, lim, p, Items(m), s) && FirstIs(p, m, i, s),
                    Possible(db, lim, p, Items(m), s) && FirstIs(p, m, i, s))
  {
    hide Wanted, Possible, Projected, Elements, Sound, Support, Listing, IsExtension;
    var c := m.colids[i];
    OwnIsWanted(db, lim, p, m, i);
    if |p| + 1 < lim.maxlen {
      assert Between(Times(below, s), Wanted(db, lim, p + {c}, Items(pm), s), Possible(db, lim, p + {c}, Items(pm), s));
      if Possible(db, lim, p + {c}, Items(pm), s) {
        FirstColumnPossible(db, lim, p, m, i, sel, pm, s);
      }
    }
    if s != p + {c} && Wanted(db, lim, p, Items(m), s) && FirstIs(p, m, i, s) {
      FirstColumnWanted(db, lim, p, m, i, sel, pm, s);
    }
  }

  /** The itemset with column i alone is possible, and wanted, if it is long enough. */
  lemma OwnIsWanted(db: Database, lim: Limits, p: set<int>, m: Matrix, i: int)
    requires Extends(db, lim, m, p) && 0 <= i < m.ncols
    ensures Possible(db, lim, p, Items(m), p + {m.colids[i]}) <==> lim.minlen <= |p| + 1
    ensures Wanted(db, lim, p, Items(m), p + {m.colids[i]}) ==> lim.minlen <= |p| + 1
    ensures m.colids[i] !in p && FirstIs(p, m, i, p + {m.colids[i]})
  {
    var c := m.colids[i];
    assert IsExtension(db, lim, m, p, i);
    SizePlusOne(p, c);
    FirstOnly(p, m, i);
    assert c in Items(m);
    hide Elements, Items, Occurrences, Extends, IsExtension, Matrix.Valid, InRange, Least;
    assert (p + {c}) - p == {c};
    assert c in p + {c};
    assert Within(lim, p, Items(m), p + {c}) <==> lim.minlen <= |p| + 1;
    OwnIsPossible(db, lim, p, m, i);
  }

  lemma OwnIsPossible(db: Database, lim: Limits, p: set<int>, m: Matrix, i: int)
    requires Extends(db, lim, m, p) && 0 <= i < m.ncols && m.colids[i] !in p
    ensures Sometimes(db, lim.minfreq, lim.maxfreq, p, p + {m.colids[i]})
  {
    hide Listing;
    var c := m.colids[i];
    assert IsExtension(db, lim, m, p, i);
    assert InRange(db, lim.minfreq, lim.maxfreq, p, p + {c});
    assert Least(db, p, p + {c}, c);
    assert Sometimes(db, lim.minfreq, lim.maxfreq, p + {c}, p + {c});
  }

  lemma AllColumns(db: Database, lim: Limits, p: set<int>, m: Matrix, log: seq<Found>)
    requires |m.colids| == m.ncols && ReportedTo(db, lim, p, m, m.ncols, log)
    ensures Reported(db, lim, p, Items(m), log)
  {
    hide Sound, Occurrences, Within, Elements;
    assert m.colids[..m.ncols] == m.colids;
    forall s | Within(lim, p, Items(m), s)
      ensures (s - p) * Items(m) != {}
    {
      SomethingNew(lim, p, Items(m), s);
    }
  }

  lemma SomethingNew(lim: Limits, p: set<int>, j: set<int>, s: set<int>)
    requires Within(lim, p, j, s)
    ensures (s - p) * j != {}
  {
    assert s == p + (s - p);
    CardinalityStrict(p, s);
    assert |s - p| > 0;
    assert (s - p) * j == s - p;
  }

  // ----- The projection, step by step -----

  /** rmarker is 1 exactly on the rows in keep. */
  ghost predicate Marks(rmarker: seq<int>, keep: set<int>)
  {
    forall r :: 0 <= r < |rmarker| ==> rmarker[r] == if r in keep then 1 else 0
  }

  ghost function Kept(m: Matrix, nrows: int, cid: int): set<int>
    requires m.Valid(nrows) && -1 <= cid < m.ncols
  {
    if cid == -1 then Below(nrows) else Elements(m.Column(cid))
  }

  method SetRows(m: Matrix, nrows: int, cid: int, x: int, rmarker: array<int>)
    requires m.Valid(nrows) && -1 <= cid < m.ncols && rmarker.Length == nrows
    modifies rmarker
    ensures forall r :: 0 <= r < nrows ==> rmarker[r] == if r in Kept(m, nrows, cid) then x else old(rmarker[r])
  {
    if cid == -1 {
      for r := 0 to nrows
        invariant forall q :: 0 <= q < r ==> rmarker[q] == x
      {
        rmarker[r] := x;
      }
    } else {
      ghost var col := m.Column(cid);
      for i := m.colptr[cid] to m.colptr[cid + 1]
        invariant forall r :: 0 <= r < nrows ==>
          rmarker[r] == if r in col[..i - m.colptr[cid]] then x else old(rmarker[r])
      {
        assert m.colind[i] == col[i - m.colptr[cid]];
        assert col[..i + 1 - m.colptr[cid]] == col[..i - m.colptr[cid]] + [m.colind[i]];
        rmarker[m.colind[i]] := x;
      }
      assert col[..m.colptr[cid + 1] - m.colptr[cid]] == col;
    }
  }

  lemma FilterAppend(s: seq<int>, x: int, keep: set<int>)
    ensures Filter(s + [x], keep) == Filter(s, keep) + if x in keep then [x] else []
  {
    assert (s + [x])[..|s|] == s;
  }

  /** The number of rows that column i keeps. */
  method CountKept(m: Matrix, nrows: int, i: int, rmarker: array<int>, ghost keep: set<int>) returns (k: int)
    requires m.Valid(nrows) && 0 <= i < m.ncols && rmarker.Length == nrows && Marks(rmarker[..], keep)
    ensures k == Size(m, nrows, keep, i)
  {
    ghost var col := m.Column(i);
    k := 0;
    for j := m.colptr[i] to m.colptr[i + 1]
      invariant k == |Filter(col[..j - m.colptr[i]], keep)|
    {
      var x := m.colind[j];
      assert x == col[j - m.colptr[i]];
      assert col[..j + 1 - m.colptr[i]] == col[..j - m.colptr[i]] + [x];
      FilterAppend(col[..j - m.colptr[i]], x, keep);
      k := k + rmarker[x];
    }
    assert col[..m.colptr[i + 1] - m.colptr[i]] == col;
  }

  /** cand lists, with their sizes, the columns among those after cid and before i that stay. */
  ghost predicate Candidates(lim: Limits, m: Matrix, nrows: int, cid: int, keep: set<int>, i: int, cand: seq<KV>)
    requires m.Valid(nrows) && -1 <= cid < i <= m.ncols
  {
    && (forall x :: 0 <= x < |cand| ==> cid < cand[x].val < i && cand[x].key == Size(m, nrows, keep, cand[x].val))
    && (forall x, y :: 0 <= x < y < |cand| ==> cand[x].val != cand[y].val)
    && (forall j :: cid < j < i ==> (Listed(cand, j) <==> Admissible(lim, m, nrows, keep, j)))
  }

  ghost predicate Listed(cand: seq<KV>, j: int)
  {
    exists x :: 0 <= x < |cand| && cand[x].val == j
  }

  ghost function Keys(cand: seq<KV>): int
  {
    if cand == [] then 0 else Keys(cand[..|cand| - 1]) + cand[|cand| - 1].key
  }

  lemma CandidateStep(lim: Limits, m: Matrix, nrows: int, cid: int, keep: set<int>, i: int, cand: seq<KV>, k: int)
    requires m.Valid(nrows) && -1 <= cid < i < m.ncols && Candidates(lim, m, nrows, cid, keep, i, cand)
    requires k == Size(m, nrows, keep, i)
    ensures
      Candidates(lim, m, nrows, cid, keep, i + 1,
                 if lim.minfreq <= k <= lim.maxfreq then cand + [KV(k, i)] else cand)
  {
    var cand' := if lim.minfreq <= k <= lim.maxfreq then cand + [KV(k, i)] else cand;
    hide Size, Listed;
    forall j | cid < j < i + 1
      ensures Listed(cand', j) <==> Admissible(lim, m, nrows, keep, j)
    {
      ListedAppend(cand, KV(k, i), j);
      if j == i {
        NotListed(cand, i);
      }
    }
    forall x | 0 <= x < |cand'|
      ensures cid < cand'[x].val < i + 1 && cand'[x].key == Size(m, nrows, keep, cand'[x].val)
    {
      assert x == |cand| || cand'[x] == cand[x];
    }
    forall x, y | 0 <= x < y < |cand'|
      ensures cand'[x].val != cand'[y].val
    {
      assert y == |cand| || cand'[y] == cand[y];
    }
  }

  lemma ListedAppend(cand: seq<KV>, c: KV, j: int)
    ensures Listed(cand + [c], j) <==> Listed(cand, j) || j == c.val
  {
    assert (cand + [c])[|cand|] == c;
    if Listed(cand, j) {
      var x :| 0 <= x < |cand| && cand[x].val == j;
      assert (cand + [c])[x].val == j;
    }
  }

  lemma NotListed(cand: seq<KV>, i: int)
    requires forall x :: 0 <= x < |cand| ==> cand[x].val < i
    ensures !Listed(cand, i)
  {
  }

  /** Determines the columns that stay, their number and their total length. */
  method SelectColumns(lim: Limits, m: Matrix, nrows: int, cid: int, rmarker: array<int>, cand: array<KV>,
                       ghost keep: set<int>)
    returns (pncols: int, pnnz: int)
    requires m.Valid(nrows) && -1 <= cid < m.ncols && rmarker.Length == nrows && Marks(rmarker[..], keep)
    requires m.ncols <= cand.Length
    modifies cand
    ensures 0 <= pncols <= m.ncols - cid - 1 && pnnz == Keys(cand[..pncols])
    ensures Candidates(lim, m, nrows, cid, keep, m.ncols, cand[..pncols])
  {
    hide Candidates, Size;
    CandidatesStart(lim, m, nrows, cid, keep);
    pncols, pnnz := 0, 0;
    for i := cid + 1 to m.ncols
      invariant 0 <= pncols <= i - cid - 1 && pnnz == Keys(cand[..pncols])
      invariant Candidates(lim, m, nrows, cid, keep, i, cand[..pncols])
    {
      var k := CountKept(m, nrows, i, rmarker, keep);
      CandidateStep(lim, m, nrows, cid, keep, i, cand[..pncols], k);
      if k >= lim.minfreq && k <= lim.maxfreq {
        ghost var cand' := cand[..pncols] + [KV(k, i)];
        cand[pncols] := KV(k, i);
        assert cand[..pncols + 1] == cand' && cand'[..pncols] == cand[..pncols];
        pncols := pncols + 1;
        pnnz := pnnz + k;
      }
    }
  }

  lemma CandidatesStart(lim: Limits, m: Matrix, nrows: int, cid: int, keep: set<int>)
    requires m.Valid(nrows) && -1 <= cid < m.ncols
    ensures Candidates(lim, m, nrows, cid, keep, cid + 1, [])
  {
  }

  /** gk_ikvsorti on the first n elements. */
  method SortPrefix(cand: array<KV>, n: int, bits: nat)
    requires 0 <= n <= cand.Length < Pow2(bits)
    modifies cand
    ensures multiset(cand[..n]) == multiset(old(cand[..n]))
    ensures forall x, y :: 0 <= x < y < n ==> cand[x].key <= cand[y].key
  {
    hide QSort.StrictWeakOrder;
    var lt := (x: KV, y: KV) => x.key < y.key;
    KeyOrder(lt);
    var a := new KV[n](k requires 0 <= k < n reads cand => cand[k]);
    assert a[..] == cand[..n];
    QSort.QSort(a, lt, bits);
    ghost var sorted := a[..];
    for k := 0 to n
      invariant a[..] == sorted && forall l :: 0 <= l < k ==> cand[l] == a[l]
    {
      cand[k] := a[k];
    }
    assert cand[..n] == a[..];
    forall x, y | 0 <= x < y < n
      ensures cand[x].key <= cand[y].key
    {
      assert !QSort.Less(lt, a[y], a[x]);
    }
  }

  lemma KeyOrder(lt: (KV, KV) -> bool)
    requires forall x, y :: lt(x, y) == (x.key < y.key)
    ensures QSort.StrictWeakOrder(lt)
  {
  }

  lemma {:induction false} FilterPrefix(col: seq<int>, n: int, keep: set<int>)
    requires 0 <= n <= |col|
    ensures |Filter(col[..n], keep)| <= |Filter(col, keep)|
    decreases |col|
  {
    if n == |col| {
      assert col[..n] == col;
    } else {
      FilterPrefix(col[..|col| - 1], n, keep);
      assert col[..|col| - 1][..n] == col[..n];
    }
  }

  lemma FilterNothing(keep: set<int>)
    ensures Filter([], keep) == []
  {
  }

  /** Copies the kept rows of column i to pcolind, from position pos on. */
  method CopyColumn(m: Matrix, nrows: int, i: int, rmarker: array<int>, ghost keep: set<int>, pcolind: array<int>,
                    pos: int)
    returns (pos': int)
    requires m.Valid(nrows) && 0 <= i < m.ncols && rmarker.Length == nrows && Marks(rmarker[..], keep)
    requires rmarker != pcolind && 0 <= pos && pos + Size(m, nrows, keep, i) <= pcolind.Length
    requires forall q :: 0 <= q < pos ==> 0 <= pcolind[q] < nrows
    modifies pcolind
    ensures pos' == pos + Size(m, nrows, keep, i)
    ensures pcolind[..pos] == old(pcolind[..pos]) && pcolind[pos..pos'] == Filter(m.Column(i), keep)
    ensures forall q :: 0 <= q < pos' ==> 0 <= pcolind[q] < nrows
  {
    hide Filter;
    ghost var col := m.Column(i);
    assert |col| == m.colptr[i + 1] - m.colptr[i];
    FilterNothing(keep);
    pos' := pos;
    for j := m.colptr[i] to m.colptr[i + 1]
      invariant pos <= pos' <= pcolind.Length
      invariant pcolind[..pos] == old(pcolind[..pos])
      invariant pcolind[pos..pos'] == Filter(col[..j - m.colptr[i]], keep)
      invariant forall q :: 0 <= q < pos' ==> 0 <= pcolind[q] < nrows
    {
      var x := m.colind[j];
      ghost var t := j - m.colptr[i];
      assert 0 <= t < |col|;
      assert x == col[t] && col[..t + 1] == col[..t] + [x];
      FilterAppend(col[..t], x, keep);
      FilterPrefix(col, t + 1, keep);
      if rmarker[x] != 0 {
        pcolind[pos'] := x;
        pos' := pos' + 1;
      }
    }
    assert col[..m.colptr[i + 1] - m.colptr[i]] == col;
  }

  lemma {:induction false} KeysGrow(c: seq<KV>, x: int, y: int)
    requires 0 <= x <= y <= |c| && forall z :: 0 <= z < |c| ==> 0 <= c[z].key
    ensures 0 <= Keys(c[..x]) <= Keys(c[..y])
    decreases y
  {
    if y > 0 {
      assert c[..y][..y - 1] == c[..y - 1];
      KeysGrow(c, if x < y then x else y - 1, y - 1);
    }
  }

  lemma KeysNext(c: seq<KV>, x: int)
    requires 0 <= x < |c|
    ensures Keys(c[..x + 1]) == Keys(c[..x]) + c[x].key
  {
    assert c[..x + 1][..x] == c[..x];
  }

  /** Column x of the result holds the kept rows of the x-th candidate. */
  ghost predicate Holds(m: Matrix, nrows: int, keep: set<int>, c: seq<KV>, x: int,
                        pcolptr: seq<int>, pcolind: seq<int>, pcolids: seq<int>)
    requires m.Valid(nrows)
  {
    && 0 <= x < |c| && x + 1 < |pcolptr| && x < |pcolids| && 0 <= c[x].val < m.ncols
    && 0 <= pcolptr[x] <= pcolptr[x + 1] <= |pcolind|
    && pcolids[x] == m.colids[c[x].val]
    && pcolind[pcolptr[x]..pcolptr[x + 1]] == Filter(m.Column(c[x].val), keep)
  }

  ghost predicate FilledTo(m: Matrix, nrows: int, keep: set<int>, c: seq<KV>, n: int,
                           pcolptr: seq<int>, pcolind: seq<int>, pcolids: seq<int>)
    requires m.Valid(nrows)
  {
    && 0 <= n <= |c| < |pcolptr| && |c| <= |pcolids|
    && (forall x :: 0 <= x <= n ==> pcolptr[x] == Keys(c[..x]))
    && (forall x :: 0 <= x < n ==> Holds(m, nrows, keep, c, x, pcolptr, pcolind, pcolids))
  }

  lemma HoldsStill(m: Matrix, nrows: int, keep: set<int>, c: seq<KV>, x: int, n: int,
                   pcolptr: seq<int>, pcolind: seq<int>, pcolids: seq<int>,
                   pcolptr': seq<int>, pcolind': seq<int>, pcolids': seq<int>, pos: int)
    requires m.Valid(nrows) && Holds(m, nrows, keep, c, x, pcolptr, pcolind, pcolids)
    requires 0 <= x < n < |c| && |pcolptr'| == |pcolptr| && |pcolids'| == |pcolids| && |pcolind'| == |pcolind|
    requires pcolptr'[x] == pcolptr[x] && pcolptr'[x + 1] == pcolptr[x + 1] <= pos <= |pcolind|
    requires pcolids'[x] == pcolids[x] && pcolind'[..pos] == pcolind[..pos]
    ensures Holds(m, nrows, keep, c, x, pcolptr', pcolind', pcolids')
  {
    assert pcolind'[pcolptr[x]..pcolptr[x + 1]] == pcolind'[..pos][pcolptr[x]..pcolptr[x + 1]];
    assert pcolind[pcolptr[x]..pcolptr[x + 1]] == pcolind[..pos][pcolptr[x]..pcolptr[x + 1]];
  }

  lemma FillStep(m: Matrix, nrows: int, keep: set<int>, c: seq<KV>, n: int,
                 pcolptr: seq<int>, pcolind: seq<int>, pcolids: seq<int>,
                 pcolptr': seq<int>, pcolind': seq<int>, pcolids': seq<int>, pos: int)
    requires m.Valid(nrows) && FilledTo(m, nrows, keep, c, n, pcolptr, pcolind, pcolids) && n < |c|
    requires 0 <= c[n].val < m.ncols && c[n].key == Size(m, nrows, keep, c[n].val)
    requires pos == Keys(c[..n]) && 0 <= pos <= pos + c[n].key <= |pcolind| == |pcolind'|
    requires pcolind'[..pos] == pcolind[..pos]
    requires pcolind'[pos..pos + c[n].key] == Filter(m.Column(c[n].val), keep)
    requires pcolids' == pcolids[n := m.colids[c[n].val]] && pcolptr' == pcolptr[n + 1 := pos + c[n].key]
    requires forall z :: 0 <= z < |c| ==> 0 <= c[z].key
    ensures FilledTo(m, nrows, keep, c, n + 1, pcolptr', pcolind', pcolids')
  {
    KeysNext(c, n);
    assert Holds(m, nrows, keep, c, n, pcolptr', pcolind', pcolids');
    hide Holds, Filter, Size, Keys;
    forall x | 0 <= x < n
      ensures Holds(m, nrows, keep, c, x, pcolptr', pcolind', pcolids')
    {
      KeysGrow(c, x + 1, n);
      assert pcolptr[x + 1] == Keys(c[..x + 1]);
      HoldsStill(m, nrows, keep, c, x, n, pcolptr, pcolind, pcolids, pcolptr', pcolind', pcolids', pos);
    }
  }

  /** Writes the column of the ii-th candidate. */
  method FillColumn(m: Matrix, nrows: int, rmarker: array<int>, ghost keep: set<int>, cand: array<KV>, ghost c: seq<KV>,
                    ii: int, pcolptr: array<int>, pcolind: array<int>, pcolids: array<int>, pos: int)
    returns (pos': int)
    requires {rmarker} !! {pcolptr} !! {pcolind} !! {pcolids}
    requires m.Valid(nrows) && rmarker.Length == nrows && Marks(rmarker[..], keep)
    requires 0 <= ii < |c| && |c| <= cand.Length && cand[..|c|] == c
    requires forall x :: 0 <= x < |c| ==> 0 <= c[x].val < m.ncols && 0 <= c[x].key == Size(m, nrows, keep, c[x].val)
    requires pcolids.Length == |c| && pcolptr.Length == |c| + 1
    requires 0 <= pos == Keys(c[..ii]) && pos + c[ii].key <= pcolind.Length
    requires FilledTo(m, nrows, keep, c, ii, pcolptr[..], pcolind[..], pcolids[..])
    requires forall q :: 0 <= q < pos ==> 0 <= pcolind[q] < nrows
    modifies pcolptr, pcolind, pcolids
    ensures pos' == Keys(c[..ii + 1]) == pos + c[ii].key
    ensures FilledTo(m, nrows, keep, c, ii + 1, pcolptr[..], pcolind[..], pcolids[..])
    ensures forall q :: 0 <= q < pos' ==> 0 <= pcolind[q] < nrows
  {
    hide Filter, FilledTo, Keys, Size;
    var i := cand[ii].val;
    assert cand[..|c|][ii] == cand[ii];
    KeysNext(c, ii);
    ghost var ptr0, ind0, ids0 := pcolptr[..], pcolind[..], pcolids[..];
    pos' := CopyColumn(m, nrows, i, rmarker, keep, pcolind, pos);
    pcolids[ii] := m.colids[i];
    pcolptr[ii + 1] := pos';
    FillStep(m, nrows, keep, c, ii, ptr0, ind0, ids0, pcolptr[..], pcolind[..], pcolids[..], pos);
  }

  /** Builds the projected matrix from the sorted candidates. */
  method FillColumns(m: Matrix, nrows: int, rmarker: array<int>, cand: array<KV>, pncols: int, pnnz: int,
                     ghost keep: set<int>)
    returns (pm: Matrix)
    requires m.Valid(nrows) && rmarker.Length == nrows && Marks(rmarker[..], keep)
    requires 0 <= pncols <= cand.Length && pnnz == Keys(cand[..pncols])
    requires forall x :: 0 <= x < pncols ==>
               0 <= cand[x].val < m.ncols && cand[x].key == Size(m, nrows, keep, cand[x].val)
    requires forall x :: 0 <= x < pncols ==> 0 <= cand[x].key
    ensures pm.ncols == pncols && |pm.colptr| == pncols + 1 && |pm.colids| == pncols && |pm.colind| == pnnz
    ensures FilledTo(m, nrows, keep, cand[..pncols], pncols, pm.colptr, pm.colind, pm.colids)
    ensures forall q :: 0 <= q < |pm.colind| ==> 0 <= pm.colind[q] < nrows
  {
    hide Filter, FilledTo, Keys, Size;
    ghost var c := cand[..pncols];
    KeysGrow(c, 0, pncols);
    assert c[..pncols] == c && c[..0] == [];
    assert forall x :: 0 <= x < pncols ==> c[x] == cand[x];
    var pcolids := new int[pncols](_ => 0);
    var pcolptr := new int[pncols + 1](_ => 0);
    var pcolind := new int[pnnz](_ => 0);
    var pos := 0;
    FillStart(m, nrows, keep, c, pcolptr[..], pcolind[..], pcolids[..]);
    for ii := 0 to pncols
      invariant 0 <= pos == Keys(c[..ii]) && pos <= pcolind.Length && cand[..pncols] == c
      invariant FilledTo(m, nrows, keep, c, ii, pcolptr[..], pcolind[..], pcolids[..])
      invariant forall q :: 0 <= q < pos ==> 0 <= pcolind[q] < nrows
    {
      KeysNext(c, ii);
      KeysGrow(c, ii + 1, pncols);
      pos := FillColumn(m, nrows, rmarker, keep, cand, c, ii, pcolptr, pcolind, pcolids, pos);
    }
    pm := Matrix(pncols, pcolptr[..], pcolind[..], pcolids[..]);
  }

  lemma FillStart(m: Matrix, nrows: int, keep: set<int>, c: seq<KV>, pcolptr: seq<int>, pcolind: seq<int>,
                  pcolids: seq<int>)
    requires m.Valid(nrows) && |pcolptr| == |c| + 1 && |pcolids| == |c| && pcolptr[0] == 0
    ensures FilledTo(m, nrows, keep, c, 0, pcolptr, pcolind, pcolids)
  {
  }

  // ----- Sorting the candidates changes their order only -----

  lemma {:induction false} KeysConcat(c: seq<KV>, d: seq<KV>)
    ensures Keys(c + d) == Keys(c) + Keys(d)
    decreases |d|
  {
    if d == [] {
      assert c + d == c;
    } else {
      assert (c + d)[..|c + d| - 1] == c + d[..|d| - 1];
      KeysConcat(c, d[..|d| - 1]);
    }
  }

  lemma KeysOfOne(e: KV)
    ensures Keys([e]) == e.key
  {
    assert [e][..0] == [];
  }

  lemma KeysWithout(c: seq<KV>, j: int)
    requires 0 <= j < |c|
    ensures Keys(c) == Keys(c[..j] + c[j + 1..]) + c[j].key
  {
    hide Keys;
    var u, v := c[..j], c[j + 1..];
    TakeOut(c, j);
    KeysConcat(u, v);
    KeysConcat(u + [c[j]], v);
    KeysConcat(u, [c[j]]);
    KeysOfOne(c[j]);
  }

  lemma {:induction false} KeysPermuted(c: seq<KV>, d: seq<KV>)
    requires multiset(c) == multiset(d)
    ensures Keys(c) == Keys(d)
    decreases |c|
  {
    if c == [] {
      assert |multiset(d)| == 0;
    } else {
      var j := StandsIn(c, d, 0);
      TakeOut(c, 0);
      TakeOut(d, j);
      KeysWithout(c, 0);
      KeysWithout(d, j);
      KeysPermuted(c[..0] + c[1..], d[..j] + d[j + 1..]);
    }
  }

  lemma CandidatesPermuted(lim: Limits, m: Matrix, nrows: int, cid: int, keep: set<int>, c: seq<KV>, d: seq<KV>)
    requires m.Valid(nrows) && -1 <= cid < m.ncols && Candidates(lim, m, nrows, cid, keep, m.ncols, c)
    requires multiset(c) == multiset(d)
    ensures Candidates(lim, m, nrows, cid, keep, m.ncols, d)
  {
    hide Size;
    forall x | 0 <= x < |d|
      ensures exists z :: 0 <= z < |c| && c[z] == d[x]
    {
      assert d[x] in multiset(d);
      assert d[x] in multiset(c);
    }
    forall x, y | 0 <= x < y < |d|
      ensures d[x].val != d[y].val
    {
      PermutedOnceEach(c, d, x, y);
    }
    forall j
      ensures Listed(d, j) <==> Listed(c, j)
    {
      ListedPermuted(c, d, j);
      ListedPermuted(d, c, j);
    }
  }

  lemma ListedPermuted(c: seq<KV>, d: seq<KV>, j: int)
    requires multiset(c) == multiset(d)
    ensures Listed(c, j) ==> Listed(d, j)
  {
    if Listed(c, j) {
      var x :| 0 <= x < |c| && c[x].val == j;
      assert c[x] in multiset(d);
      var y :| 0 <= y < |d| && d[y] == c[x];
    }
  }

  lemma BecomesProjected(lim: Limits, m: Matrix, nrows: int, cid: int, keep: set<int>, c: seq<KV>, sel: seq<int>,
                         pm: Matrix)
    requires 0 <= nrows && m.Valid(nrows) && -1 <= cid < m.ncols && Candidates(lim, m, nrows, cid, keep, m.ncols, c)
    requires forall x, y :: 0 <= x < y < |c| ==> c[x].key <= c[y].key
    requires forall z :: 0 <= z < |c| ==> 0 <= c[z].key
    requires |sel| == |c| && forall x :: 0 <= x < |c| ==> sel[x] == c[x].val
    requires pm.ncols == |c| && |pm.colptr| == |c| + 1 && |pm.colids| == |c| && |pm.colind| == Keys(c)
    requires FilledTo(m, nrows, keep, c, |c|, pm.colptr, pm.colind, pm.colids)
    requires forall q :: 0 <= q < |pm.colind| ==> 0 <= pm.colind[q] < nrows
    ensures Projected(lim, m, nrows, cid, keep, sel, pm)
  {
    FilledIsValid(m, nrows, keep, c, pm);
    CandidatesSelected(lim, m, nrows, cid, keep, c, sel);
    FilledColumns(m, nrows, keep, c, sel, pm);
    hide Filter, Size, Keys, Listed, FilledTo, Candidates, Selects, KeepsColumns;
  }

  lemma CandidatesSelected(lim: Limits, m: Matrix, nrows: int, cid: int, keep: set<int>, c: seq<KV>, sel: seq<int>)
    requires m.Valid(nrows) && -1 <= cid < m.ncols && Candidates(lim, m, nrows, cid, keep, m.ncols, c)
    requires |sel| == |c| && forall x :: 0 <= x < |c| ==> sel[x] == c[x].val
    ensures Selects(lim, m, nrows, cid, keep, sel)
  {
    hide Size, Listed;
    forall i | cid < i < m.ncols
      ensures i in sel <==> Listed(c, i)
    {
      ListedInSel(c, sel, i);
    }
  }

  lemma ListedInSel(c: seq<KV>, sel: seq<int>, i: int)
    requires |sel| == |c| && forall x :: 0 <= x < |c| ==> sel[x] == c[x].val
    ensures i in sel <==> Listed(c, i)
  {
    if Listed(c, i) {
      var x :| 0 <= x < |c| && c[x].val == i;
      assert sel[x] == i;
    }
  }

  lemma FilledColumns(m: Matrix, nrows: int, keep: set<int>, c: seq<KV>, sel: seq<int>, pm: Matrix)
    requires 0 <= nrows && m.Valid(nrows) && pm.Valid(nrows) && pm.ncols == |c|
    requires FilledTo(m, nrows, keep, c, |c|, pm.colptr, pm.colind, pm.colids)
    requires forall x :: 0 <= x < |c| ==> 0 <= c[x].val < m.ncols && c[x].key == Size(m, nrows, keep, c[x].val)
    requires |sel| == |c| && forall x :: 0 <= x < |c| ==> sel[x] == c[x].val
    ensures KeepsColumns(m, nrows, keep, sel, pm)
    ensures forall x :: 0 <= x < |c| ==> |pm.Column(x)| == c[x].key
  {
    hide Filter;
    forall x | 0 <= x < |c|
      ensures pm.Column(x) == Filter(m.Column(c[x].val), keep) && pm.colids[x] == m.colids[c[x].val]
    {
      assert Holds(m, nrows, keep, c, x, pm.colptr, pm.colind, pm.colids);
    }
  }

  lemma FilledIsValid(m: Matrix, nrows: int, keep: set<int>, c: seq<KV>, pm: Matrix)
    requires 0 <= nrows && m.Valid(nrows)
    requires forall x, y :: 0 <= x < y < |c| ==> c[x].val != c[y].val
    requires forall z :: 0 <= z < |c| ==> 0 <= c[z].key && 0 <= c[z].val < m.ncols
    requires pm.ncols == |c| && |pm.colptr| == |c| + 1 && |pm.colids| == |c| && |pm.colind| == Keys(c)
    requires FilledTo(m, nrows, keep, c, |c|, pm.colptr, pm.colind, pm.colids)
    requires forall q :: 0 <= q < |pm.colind| ==> 0 <= pm.colind[q] < nrows
    ensures pm.Valid(nrows)
  {
    FilledPointers(m, nrows, keep, c, pm);
    FilledIds(m, nrows, keep, c, pm);
    hide FilledTo, Keys;
  }

  lemma FilledPointers(m: Matrix, nrows: int, keep: set<int>, c: seq<KV>, pm: Matrix)
    requires 0 <= nrows && m.Valid(nrows) && |pm.colptr| == |c| + 1 && |pm.colind| == Keys(c)
    requires forall z :: 0 <= z < |c| ==> 0 <= c[z].key
    requires FilledTo(m, nrows, keep, c, |c|, pm.colptr, pm.colind, pm.colids)
    ensures pm.colptr[0] == 0 && pm.colptr[|c|] == |pm.colind|
    ensures forall x, y :: 0 <= x <= y <= |c| ==> pm.colptr[x] <= pm.colptr[y]
  {
    hide Holds, Matrix.Valid;
    assert c[..|c|] == c && c[..0] == [];
    assert pm.colptr[0] == Keys(c[..0]) && pm.colptr[|c|] == Keys(c[..|c|]);
    assert Keys([]) == 0;
    hide Keys;
    forall x, y | 0 <= x <= y <= |c|
      ensures pm.colptr[x] <= pm.colptr[y]
    {
      KeysGrow(c, x, y);
    }
  }

  lemma FilledIds(m: Matrix, nrows: int, keep: set<int>, c: seq<KV>, pm: Matrix)
    requires 0 <= nrows && m.Valid(nrows) && |pm.colids| == |c|
    requires forall x, y :: 0 <= x < y < |c| ==> c[x].val != c[y].val
    requires forall z :: 0 <= z < |c| ==> 0 <= c[z].val < m.ncols
    requires FilledTo(m, nrows, keep, c, |c|, pm.colptr, pm.colind, pm.colids)
    ensures forall x, y :: 0 <= x < y < |c| ==> pm.colids[x] != pm.colids[y]
  {
    hide Filter, Keys;
    forall x, y | 0 <= x < y < |c|
      ensures pm.colids[x] != pm.colids[y]
    {
      assert Holds(m, nrows, keep, c, x, pm.colptr, pm.colind, pm.colids);
      assert Holds(m, nrows, keep, c, y, pm.colptr, pm.colind, pm.colids);
    }
  }

  /** itemsets_project_matrix.  rmarker is all zero before and after. */
  method ProjectMatrix(lim: Limits, m: Matrix, nrows: int, cid: int, rmarker: array<int>, cand: array<KV>, bits: nat)
    returns (pm: Matrix, ghost sel: seq<int>)
    requires m.Valid(nrows) && -1 <= cid < m.ncols
    requires rmarker.Length == nrows && Marks(rmarker[..], {}) && m.ncols <= cand.Length < Pow2(bits)
    modifies rmarker, cand
    ensures Marks(rmarker[..], {})
    ensures Projected(lim, m, nrows, cid, Kept(m, nrows, cid), sel, pm)
  {
    hide Filter, FilledTo, Keys, Candidates, Projected, Size;
    ghost var keep := Kept(m, nrows, cid);
    SetRows(m, nrows, cid, 1, rmarker);
    assert Marks(rmarker[..], keep);
    var pncols, pnnz := SelectColumns(lim, m, nrows, cid, rmarker, cand, keep);
    ghost var c := cand[..pncols];
    SortPrefix(cand, pncols, bits);
    KeysPermuted(c, cand[..pncols]);
    CandidatesPermuted(lim, m, nrows, cid, keep, c, cand[..pncols]);
    CandidateFacts(lim, m, nrows, cid, keep, cand[..pncols]);
    assert forall x :: 0 <= x < pncols ==> cand[..pncols][x] == cand[x];
    pm := FillColumns(m, nrows, rmarker, cand, pncols, pnnz, keep);
    sel := seq(pncols, x requires 0 <= x < pncols reads cand => cand[x].val);
    BecomesProjected(lim, m, nrows, cid, keep, cand[..pncols], sel, pm);
    SetRows(m, nrows, cid, 0, rmarker);
  }

  lemma CandidateFacts(lim: Limits, m: Matrix, nrows: int, cid: int, keep: set<int>, c: seq<KV>)
    requires m.Valid(nrows) && -1 <= cid < m.ncols && Candidates(lim, m, nrows, cid, keep, m.ncols, c)
    ensures forall x :: 0 <= x < |c| ==>
      0 <= c[x].val < m.ncols && 0 <= c[x].key == Size(m, nrows, keep, c[x].val)
  {
  }

  // ----- The search -----

  /** itemsets_find_frequent_itemsets: prefix[..preflen] is the itemset whose extensions m describes.
      The result lists the calls of the call-back in order. */
  method FindBelow(ghost db: Database, lim: Limits, m: Matrix, nrows: int, preflen: int, prefix: array<int>,
                   rmarker: array<int>, cand: array<KV>, bits: nat)
    returns (found: seq<Found>)
    requires 0 <= preflen <= prefix.Length && preflen + m.ncols <= prefix.Length && prefix != rmarker && nrows == |db|
    requires Distinct(prefix[..preflen]) && Extends(db, lim, m, Elements(prefix[..preflen]))
    requires rmarker.Length == nrows && Marks(rmarker[..], {}) && m.ncols <= cand.Length < Pow2(bits)
    modifies prefix, rmarker, cand
    ensures prefix[..preflen] == old(prefix[..preflen]) && Marks(rmarker[..], {})
    ensures Reported(db, lim, Elements(old(prefix[..preflen])), Items(m), found)
    decreases m.ncols
  {
    hide Projected, Reported, ReportedTo, IsExtension, Elements, Items, Distinct, Marks, Sound;
    ghost var pre := prefix[..preflen];
    ghost var p := Elements(pre);
    DistinctSize(pre);
    found := [];
    NothingReported(db, lim, p, m);
    for i := 0 to m.ncols
      invariant prefix[..preflen] == pre && Marks(rmarker[..], {})
      invariant ReportedTo(db, lim, p, m, i, found)
    {
      prefix[preflen] := m.colids[i];
      assert prefix[..preflen + 1] == pre + [m.colids[i]];
      ReportOwn(db, lim, pre, m, i);
      ghost var before := found;
      ghost var own: seq<Found> := [];
      if preflen + 1 >= lim.minlen {
        found := found + [Found(prefix[..preflen + 1], m.Column(i))];
        own := [Found(pre + [m.colids[i]], m.Column(i))];
      }
      assert found == before + own;
      if preflen + 1 < lim.maxlen {
        var cmat, sel0 := ProjectMatrix(lim, m, nrows, i, rmarker, cand, bits);
        ProjectionExtends(db, lim, m, p, i, sel0, cmat);
        ExtendDistinct(db, lim, pre, m, i);
        ProjectionSmaller(lim, m, nrows, i, Elements(m.Column(i)), sel0, cmat);
        var below := FindBelow(db, lim, cmat, nrows, preflen + 1, prefix, rmarker, cand, bits);
        assert prefix[..preflen] == prefix[..preflen + 1][..preflen];
        found := found + below;
        TurnReports(db, lim, p, m, i, sel0, cmat, before, own, below);
      } else {
        LeafReports(db, lim, p, m, i, before, own);
      }
    }
    AllColumns(db, lim, p, m, found);
  }

  /** Without room for another item, a column accounts for one itemset only. */
  lemma LeafReports(db: Database, lim: Limits, p: set<int>, m: Matrix, i: int, log: seq<Found>, own: seq<Found>)
    requires Extends(db, lim, m, p) && 0 <= i < m.ncols && lim.maxlen <= |p| + 1
    requires ReportedTo(db, lim, p, m, i, log)
    requires if lim.minlen <= |p| + 1 then
      |own| == 1 && Sound(db, own[0]) && Elements(own[0].items) == p + {m.colids[i]} else own == []
    ensures ReportedTo(db, lim, p, m, i + 1, log + own)
  {
    hide Projected, Elements, Sound, Support, Wanted, Possible, IsExtension;
    var c := m.colids[i];
    OwnIsWanted(db, lim, p, m, i);
    var below: seq<Found> := [];
    forall s
      ensures Between(Times(own, s) + Times(below, s),
                      Wanted(db, lim, p, Items(m), s) && FirstIs(p, m, i, s),
                      Possible(db, lim, p, Items(m), s) && FirstIs(p, m, i, s))
    {
      if s != p + {c} && c in s {
        NoRoom(db, lim, p, Items(m), c, s);
      }
    }
    AddTurn(db, lim, p, m, i, log, own, below);
    assert log + own + below == log + own;
  }

  lemma NoRoom(db: Database, lim: Limits, p: set<int>, j: set<int>, c: int, s: set<int>)
    requires lim.maxlen <= |p| + 1 && c in s && c !in p && s != p + {c}
    ensures !Wanted(db, lim, p, j, s) && !Possible(db, lim, p, j, s)
  {
    hide Always, Sometimes;
    if p < s {
      SizePlusOne(p, c);
      CardinalityStrict(p + {c}, s);
    }
  }

  lemma FirstOnly(p: set<int>, m: Matrix, i: int)
    requires 0 <= i < |m.colids| && Distinct(m.colids) && m.colids[i] !in p
    ensures ((p + {m.colids[i]}) - p) * Elements(m.colids[..i]) == {}
  {
  }

  lemma ProjectionSmaller(lim: Limits, m: Matrix, nrows: int, i: int, keep: set<int>, sel: seq<int>, pm: Matrix)
    requires m.Valid(nrows) && 0 <= i < m.ncols && Projected(lim, m, nrows, i, keep, sel, pm)
    ensures pm.ncols < m.ncols
  {
    DistinctSize(sel);
    CardinalityMonotone(Elements(sel), Below(m.ncols) - {i});
  }

  lemma NothingReported(db: Database, lim: Limits, p: set<int>, m: Matrix)
    ensures ReportedTo(db, lim, p, m, 0, [])
  {
    assert m.colids[..0] == [];
  }

  lemma ExtendDistinct(db: Database, lim: Limits, pre: seq<int>, m: Matrix, i: int)
    requires Distinct(pre) && Extends(db, lim, m, Elements(pre)) && 0 <= i < m.ncols
    ensures Distinct(pre + [m.colids[i]]) && Elements(pre + [m.colids[i]]) == Elements(pre) + {m.colids[i]}
  {
    assert IsExtension(db, lim, m, Elements(pre), i);
    ElementsAppend(pre, m.colids[i]);
  }

  // ----- The entry point -----

  /** The item sets of the transactions, from their compressed rows. */
  ghost function Transactions(tranptr: seq<int>, tranind: seq<int>): Database
    requires |tranptr| > 0 && forall i, j :: 0 <= i <= j < |tranptr| ==> 0 <= tranptr[i] <= tranptr[j] <= |tranind|
  {
    seq(|tranptr| - 1, t requires 0 <= t < |tranptr| - 1 => multiset(tranind[tranptr[t]..tranptr[t + 1]]))
  }

  /** The upper limit in force: without one, the number of transactions. */
  ghost function MostFrequent(db: Database, lim: Limits): int
  {
    if lim.maxfreq == -1 then |db| else lim.maxfreq
  }

  /** The upper length limit does not apply to single items. */
  ghost predicate LengthFits(lim: Limits, s: set<int>)
  {
    s != {} && lim.minlen <= |s| && (lim.maxlen == -1 || |s| <= lim.maxlen || |s| == 1)
  }

  /** The itemsets that are reported: taken in the order of their frequency, the items stay in range. */
  ghost predicate Frequent(db: Database, lim: Limits, s: set<int>)
  {
    LengthFits(lim, s) && Always(db, lim.minfreq, MostFrequent(db, lim), {}, s)
  }

  /** The itemsets that are reported if ties are broken in their favour. */
  ghost predicate Reportable(db: Database, lim: Limits, s: set<int>)
  {
    LengthFits(lim, s) && Sometimes(db, lim.minfreq, MostFrequent(db, lim), {}, s)
  }

  /** The itemsets that are reported if no transaction lists an item twice.  The upper frequency limit
      applies to the single items of the set, not to the set. */
  ghost predicate Supported(db: Database, lim: Limits, s: set<int>)
  {
    && LengthFits(lim, s) && lim.minfreq <= |Support(db, s)|
    && (lim.maxfreq == -1 || forall x :: x in s ==> |Support(db, {x})| <= lim.maxfreq)
  }

  lemma {:induction false} LeastExists(db: Database, p: set<int>, s: set<int>) returns (a: int)
    requires s - p != {}
    ensures Least(db, p, s, a)
    decreases s
  {
    hide Occurrences;
    var x := SomeElement(s - p);
    if s - {x} - p == {} {
      assert forall b :: b in s && b !in p ==> b == x || b in s - {x} - p;
      a := x;
    } else {
      a := LeastExists(db, p, s - {x});
      if Occurrences(db, p + {x}, x) < Occurrences(db, p + {a}, a) {
        a := x;
      }
    }
  }

  /** No two items of s in range tie when they are added to a part of s. */
  ghost predicate NoTies(db: Database, lo: int, hi: int, s: set<int>)
  {
    forall p, a, b :: Tie(db, lo, hi, p, a, b) && p <= s && a in s && b in s ==> a == b
  }

  ghost predicate Tie(db: Database, lo: int, hi: int, p: set<int>, a: int, b: int)
  {
    a !in p && b !in p && lo <= Occurrences(db, p + {a}, a) == Occurrences(db, p + {b}, b) <= hi
  }

  /** Without ties it is determined what is reported. */
  lemma {:induction false} SometimesIsAlways(db: Database, lo: int, hi: int, p: set<int>, s: set<int>)
    requires NoTies(db, lo, hi, s) && p <= s
    ensures Always(db, lo, hi, p, s) <==> Sometimes(db, lo, hi, p, s)
    decreases s - p
  {
    hide Occurrences, InRange, Least, NoTies;
    if s - p == {} {
      NothingToAdd(db, lo, hi, p, s);
    } else if InRange(db, lo, hi, p, s) {
      var a := LeastExists(db, p, s);
      LeastIsNew(db, p, s, a);
      forall b | Least(db, p, s, b)
        ensures a == b
      {
        LeastTie(db, lo, hi, p, s, a, b);
      }
      SometimesIsAlways(db, lo, hi, p + {a}, s);
    }
  }

  lemma LeastTie(db: Database, lo: int, hi: int, p: set<int>, s: set<int>, a: int, b: int)
    requires NoTies(db, lo, hi, s) && p <= s && InRange(db, lo, hi, p, s) && Least(db, p, s, a) && Least(db, p, s, b)
    ensures a == b
  {
    hide Occurrences;
    assert Tie(db, lo, hi, p, a, b);
  }

  lemma FrequentIsReportable(db: Database, lim: Limits, s: set<int>)
    requires NoTies(db, lim.minfreq, MostFrequent(db, lim), s)
    ensures Frequent(db, lim, s) <==> Reportable(db, lim, s)
  {
    SometimesIsAlways(db, lim.minfreq, MostFrequent(db, lim), {}, s);
  }

  /** If no transaction lists an item twice, the order does not matter. */
  ghost predicate SupportFits(db: Database, lo: int, hi: int, p: set<int>, s: set<int>)
  {
    s - p == {} || (lo <= |Support(db, s)| && forall x :: x in s && x !in p ==> |Support(db, p + {x})| <= hi)
  }

  lemma {:induction false} OrderIrrelevant(db: Database, lo: int, hi: int, p: set<int>, s: set<int>)
    requires NoItemTwice(db) && p <= s
    ensures SupportFits(db, lo, hi, p, s) <==> Always(db, lo, hi, p, s)
    ensures SupportFits(db, lo, hi, p, s) <==> Sometimes(db, lo, hi, p, s)
    decreases s - p
  {
    hide Occurrences, InRange, Least, NoItemTwice, SupportFits;
    if s - p == {} {
      NothingToAdd(db, lo, hi, p, s);
    } else {
      var a := LeastExists(db, p, s);
      forall b | Least(db, p, s, b)
        ensures b in s && b !in p
        ensures Always(db, lo, hi, p + {b}, s) <==> SupportFits(db, lo, hi, p + {b}, s)
        ensures Sometimes(db, lo, hi, p + {b}, s) <==> SupportFits(db, lo, hi, p + {b}, s)
        ensures SupportFits(db, lo, hi, p, s) <==> InRange(db, lo, hi, p, s) && SupportFits(db, lo, hi, p + {b}, s)
      {
        LeastIsNew(db, p, s, b);
        OrderIrrelevant(db, lo, hi, p + {b}, s);
        FitsStep(db, lo, hi, p, s, b);
      }
    }
  }

  lemma LeastIsNew(db: Database, p: set<int>, s: set<int>, a: int)
    requires Least(db, p, s, a)
    ensures a in s && a !in p
  {
  }

  lemma NothingToAdd(db: Database, lo: int, hi: int, p: set<int>, s: set<int>)
    requires s - p == {}
    ensures Always(db, lo, hi, p, s) && Sometimes(db, lo, hi, p, s) && SupportFits(db, lo, hi, p, s)
  {
  }

  lemma FitsStep(db: Database, lo: int, hi: int, p: set<int>, s: set<int>, a: int)
    requires NoItemTwice(db) && p <= s && a in s && a !in p
    ensures SupportFits(db, lo, hi, p, s) <==> InRange(db, lo, hi, p, s) && SupportFits(db, lo, hi, p + {a}, s)
  {
    hide Occurrences, NoItemTwice, Support;
    forall x | x in s && x !in p
      ensures Occurrences(db, p + {x}, x) == |Support(db, p + {x})| >= |Support(db, s)|
      ensures |Support(db, p + {a} + {x})| <= |Support(db, p + {x})|
    {
      OccurrencesOnce(db, p + {x}, x);
      SupportShrinks(db, p + {x}, s);
      SupportShrinks(db, p + {x}, p + {a} + {x});
    }
    if s - (p + {a}) == {} {
      assert s == p + {a};
    }
  }

  lemma SupportedIsFrequent(db: Database, lim: Limits, s: set<int>)
    requires NoItemTwice(db)
    ensures Supported(db, lim, s) <==> Frequent(db, lim, s)
    ensures Supported(db, lim, s) <==> Reportable(db, lim, s)
  {
    hide Occurrences, Support, NoItemTwice, Always, Sometimes;
    OrderIrrelevant(db, lim.minfreq, MostFrequent(db, lim), {}, s);
    forall x | x in s
      ensures {} + {x} == {x} && |Support(db, {x})| <= |db|
    {
      SupportBound(db, {x});
    }
  }

  lemma SupportShrinks(db: Database, s: set<int>, t: set<int>)
    requires s <= t
    ensures Support(db, t) <= Support(db, s) && |Support(db, t)| <= |Support(db, s)|
  {
    CardinalityMonotone(Support(db, t), Support(db, s));
  }

  lemma SupportBound(db: Database, s: set<int>)
    ensures |Support(db, s)| <= |db|
  {
    CardinalityMonotone(Support(db, s), Below(|db|));
  }

  /** A transaction that lists an item twice counts twice: the item is reported as frequent though only one
      transaction contains it, and it is not reported, whatever the lower limit, if no upper one is given. */
  lemma RepeatsCount()
    ensures
      var db: Database, s := [multiset{0, 0}], {0};
      && |Support(db, s)| == 1
      && Frequent(db, Limits(2, 2, 1, -1), s)
      && !Reportable(db, Limits(1, -1, 1, -1), s)
  {
    var db: Database := [multiset{0, 0}];
    assert Support(db, {0}) == {0};
    assert Listing(db[..0], {0}, 0) == [];
    assert Contains(db[0], {0}) && Occurrences(db, {0}, 0) == 2;
    SingleFits(db, Limits(2, 2, 1, -1), 0);
    SingleFits(db, Limits(1, -1, 1, -1), 0);
  }

  /** A single item is reported exactly if its number of occurrences is in range. */
  lemma SingleFits(db: Database, lim: Limits, x: int)
    ensures Frequent(db, lim, {x}) <==> LengthFits(lim, {x}) && SingleReported(db, lim, x)
    ensures Reportable(db, lim, {x}) <==> LengthFits(lim, {x}) && SingleReported(db, lim, x)
  {
    hide Occurrences;
    assert x in {x} && {} + {x} == {x};
    assert InRange(db, lim.minfreq, MostFrequent(db, lim), {}, {x}) <==> SingleReported(db, lim, x);
    assert Least(db, {}, {x}, x);
    NothingToAdd(db, lim.minfreq, MostFrequent(db, lim), {x}, {x});
  }

  /** What the parameters are documented to mean: all limits apply to the itemset. */
  ghost predicate WithinLimits(db: Database, lim: Limits, s: set<int>)
  {
    && s != {} && lim.minlen <= |s| && (lim.maxlen == -1 || |s| <= lim.maxlen)
    && lim.minfreq <= |Support(db, s)| && (lim.maxfreq == -1 || |Support(db, s)| <= lim.maxfreq)
  }

  /** With a length limit of at least 1, exactly those itemsets within the limits are reported whose
      items, one by one, are within the upper frequency limit. */
  lemma FrequentWithinLimits(db: Database, lim: Limits, s: set<int>)
    requires lim.maxlen == -1 || lim.maxlen >= 1
    ensures Supported(db, lim, s) <==>
      WithinLimits(db, lim, s) && (lim.maxfreq == -1 || forall x :: x in s ==> |Support(db, {x})| <= lim.maxfreq)
  {
    hide Support;
    if s != {} {
      var x := SomeElement(s);
      SupportShrinks(db, {x}, s);
    }
  }

  /** An itemset within the limits that is not reported: item 0 alone is too frequent. */
  lemma UpperLimitMisses()
    ensures
      var db: Database, lim, s := [multiset{0, 1}, multiset{0}], Limits(1, 1, 1, -1), {0, 1};
      NoItemTwice(db) && WithinLimits(db, lim, s) && !Supported(db, lim, s)
  {
    var a, b := multiset{0, 1}, multiset{0};
    assert 1 in {0, 1} && 0 in {0};
    SupportOfTwo(a, b, {0, 1});
    SupportOfTwo(a, b, {0});
    assert |{0, 1}| == 2 && |{0}| == 1;
  }

  lemma SupportOfTwo(a: multiset<int>, b: multiset<int>, s: set<int>)
    ensures Support([a, b], s) == (if Contains(a, s) then {0} else {}) + (if Contains(b, s) then {1} else {})
  {
    hide Contains;
  }

  /** A single item that is reported whatever the length limit. */
  ghost predicate SingleReported(db: Database, lim: Limits, x: int)
  {
    lim.minfreq <= Occurrences(db, {x}, x) <= MostFrequent(db, lim)
  }

  /** The length limit holds for everything that is reported exactly if it allows single items, or
      single items are too short or not frequent. */
  lemma LengthLimitHolds(db: Database, lim: Limits)
    ensures
      var met := lim.maxlen == -1 || lim.maxlen >= 1 || lim.minlen > 1 || forall x :: !SingleReported(db, lim, x);
      && (met <==> forall s :: Frequent(db, lim, s) ==> lim.maxlen == -1 || |s| <= lim.maxlen)
      && (met <==> forall s :: Reportable(db, lim, s) ==> lim.maxlen == -1 || |s| <= lim.maxlen)
  {
    hide Occurrences, Frequent, Reportable;
    forall x | SingleReported(db, lim, x) && lim.minlen <= 1
      ensures Frequent(db, lim, {x}) && Reportable(db, lim, {x}) && |{x}| == 1
    {
      SingleFits(db, lim, x);
    }
    forall s | Frequent(db, lim, s) || Reportable(db, lim, s)
      ensures LengthFits(lim, s) && exists x :: SingleReported(db, lim, x)
    {
      var x := ReportedItem(db, lim, s);
    }
  }

  lemma ReportedItem(db: Database, lim: Limits, s: set<int>) returns (x: int)
    requires Frequent(db, lim, s) || Reportable(db, lim, s)
    ensures LengthFits(lim, s) && SingleReported(db, lim, x)
  {
    hide Occurrences;
    x := SomeElement(s);
    AllInRange(db, lim, s);
  }

  /** A single item that is reported although no length is allowed. */
  lemma LengthZeroReports()
    ensures
      var db: Database, lim, s := [multiset{0}], Limits(1, -1, 0, 0), {0};
      NoItemTwice(db) && Supported(db, lim, s) && !WithinLimits(db, lim, s)
  {
    var db: Database := [multiset{0}];
    assert db[0] == multiset{0};
    assert Support(db, {0}) == {0};
  }

  method MaxItem(tranind: seq<int>) returns (max: int)
    requires tranind != []
    ensures max in tranind && forall j :: 0 <= j < |tranind| ==> tranind[j] <= max
  {
    max := tranind[0];
    for j := 1 to |tranind|
      invariant max in tranind && forall k :: 0 <= k < j ==> tranind[k] <= max
    {
      if tranind[j] > max {
        max := tranind[j];
      }
    }
  }

  // ----- The column view of the transactions -----

  ghost predicate NonDescending(s: seq<int>)
  {
    forall i, j :: 0 <= i < j < |s| ==> s[i] <= s[j]
  }

  lemma {:induction false} SortedUnique(s: seq<int>, t: seq<int>)
    requires NonDescending(s) && NonDescending(t) && multiset(s) == multiset(t)
    ensures s == t
    decreases |s|
  {
    assert |multiset(t)| == |multiset(s)|;
    if s != [] {
      var n := |s| - 1;
      LastIsLargest(s, t);
      LastIsLargest(t, s);
      FrontBag(s);
      FrontBag(t);
      SortedUnique(s[..n], t[..n]);
    }
  }

  lemma FrontBag(s: seq<int>)
    requires s != []
    ensures multiset(s[..|s| - 1]) == multiset(s) - multiset{s[|s| - 1]}
  {
    assert s == s[..|s| - 1] + [s[|s| - 1]];
  }

  lemma LastIsLargest(s: seq<int>, t: seq<int>)
    requires NonDescending(s) && multiset(s) == multiset(t) && s != []
    ensures t != [] && t[|t| - 1] <= s[|s| - 1]
  {
    assert |multiset(t)| == |multiset(s)|;
    var i := StandsIn(t, s, |t| - 1);
  }

  lemma {:induction false} ListingCounts(db: Database, s: set<int>, x: int, t: int)
    ensures multiset(Listing(db, s, x))[t] == if 0 <= t < |db| && Contains(db[t], s) then db[t][x] else 0
  {
    if db != [] {
      var n := |db| - 1;
      ListingCounts(db[..n], s, x, t);
      RepeatCounts(n, db[n][x], t);
    }
  }

  lemma {:induction false} RepeatCounts(n: int, k: nat, t: int)
    ensures multiset(Repeat(n, k))[t] == if t == n then k else 0
  {
    if k > 0 {
      RepeatCounts(n, k - 1, t);
      assert Repeat(n, k) == Repeat(n, k - 1) + [n];
    }
  }

  lemma {:induction false} ListingSorted(db: Database, s: set<int>, x: int)
    ensures NonDescending(Listing(db, s, x))
    ensures forall i :: 0 <= i < |Listing(db, s, x)| ==> Listing(db, s, x)[i] < |db|
  {
    if db != [] {
      var n := |db| - 1;
      ListingSorted(db[..n], s, x);
    }
  }

  lemma {:induction false} PickCounts(ind: seq<int>, val: seq<int>, lo: int, hi: int, t: int)
    requires 0 <= lo <= hi <= |ind| && hi <= |val|
    ensures |Pick(ind, val, lo, hi, t)| == multiset(ind[lo..hi])[t]
    decreases hi - lo
  {
    if lo < hi {
      PickLonger(ind, val, lo, hi, t);
      PickCounts(ind, val, lo, hi - 1, t);
    } else {
      assert ind[lo..hi] == [];
    }
  }

  lemma PickLonger(ind: seq<int>, val: seq<int>, lo: int, hi: int, t: int)
    requires 0 <= lo < hi <= |ind| && hi <= |val|
    ensures |Pick(ind, val, lo, hi, t)| == |Pick(ind, val, lo, hi - 1, t)| + if ind[hi - 1] == t then 1 else 0
    ensures multiset(ind[lo..hi])[t] == multiset(ind[lo..hi - 1])[t] + if ind[hi - 1] == t then 1 else 0
  {
    SliceFront(ind, lo, hi);
    CountAppend(ind[lo..hi - 1], ind[hi - 1], t);
  }

  lemma CountAppend(s: seq<int>, x: int, t: int)
    ensures multiset(s + [x])[t] == multiset(s)[t] + if x == t then 1 else 0
  {
  }

  /** Column k of the column view lists a transaction as often as that lists item k. */
  lemma ColumnCounts(ntrans: int, ncols: int, tranptr: seq<int>, tranind: seq<int>, m: Matrix, k: int, t: int)
    requires ValidCsr(ntrans, ncols, tranptr, tranind)
    requires m.Valid(ntrans) && m.ncols == ncols && IsIndex(ntrans, ncols, tranptr, tranind, m.colptr, m.colind)
    requires 0 <= k < ncols && 0 <= t < ntrans
    ensures multiset(m.Column(k))[t] == multiset(tranind[tranptr[t]..tranptr[t + 1]])[k]
  {
    var zeros := seq(|tranind|, _ => 0);
    assert ValuesUpTo(tranind, zeros, zeros, |tranind|) by {
      SlotsInRange(ntrans, ncols, tranptr, tranind, m.colptr, m.colind);
    }
    hide IsIndex, ValuesUpTo;
    ColumnPicksRow(ntrans, ncols, tranptr, tranind, zeros, m.colptr, m.colind, zeros, k, t);
    PickCounts(m.colind, zeros, m.colptr[k], m.colptr[k + 1], t);
    PickCounts(tranind, zeros, tranptr[t], tranptr[t + 1], k);
  }

  lemma SlotsInRange(nf: int, nr: int, ptr: seq<int>, ind: seq<int>, rptr: seq<int>, rind: seq<int>)
    requires ValidCsr(nf, nr, ptr, ind) && IsIndex(nf, nr, ptr, ind, rptr, rind)
    ensures forall j :: 0 <= j < |ind| ==> 0 <= Slot(ind, j) < |rind|
  {
    forall j | 0 <= j < |ind|
      ensures 0 <= Slot(ind, j) < |rind|
    {
      var i := Transpose.RowOf(nf, ptr, nf, j);
      assert InRow(ptr, i, j);
      assert At(ind, rind, j, i);
    }
  }

  /** Column k lists the transactions in order, once for each occurrence of item k. */
  lemma ColumnsAreListings(ntrans: int, ncols: int, tranptr: seq<int>, tranind: seq<int>, m: Matrix, k: int)
    requires ValidCsr(ntrans, ncols, tranptr, tranind)
    requires m.Valid(ntrans) && m.ncols == ncols && IsIndex(ntrans, ncols, tranptr, tranind, m.colptr, m.colind)
    requires 0 <= k < ncols
    ensures m.Column(k) == Listing(Transactions(tranptr, tranind), {k}, k)
  {
    var db := Transactions(tranptr, tranind);
    ColumnSorted(ntrans, ncols, tranptr, tranind, m, k);
    ListingSorted(db, {k}, k);
    forall t
      ensures multiset(m.Column(k))[t] == multiset(Listing(db, {k}, k))[t]
    {
      ColumnAndListing(ntrans, ncols, tranptr, tranind, m, k, t);
    }
    SameCounts(m.Column(k), Listing(db, {k}, k));
    SortedUnique(m.Column(k), Listing(db, {k}, k));
  }

  lemma SameCounts(s: seq<int>, t: seq<int>)
    requires forall x :: multiset(s)[x] == multiset(t)[x]
    ensures multiset(s) == multiset(t)
  {
    var a, b := multiset(s), multiset(t);
    forall x
      ensures a[x] == b[x]
    {
    }
    assert a == b;
  }

  lemma ColumnSorted(ntrans: int, ncols: int, tranptr: seq<int>, tranind: seq<int>, m: Matrix, k: int)
    requires ValidCsr(ntrans, ncols, tranptr, tranind)
    requires m.Valid(ntrans) && m.ncols == ncols && IsIndex(ntrans, ncols, tranptr, tranind, m.colptr, m.colind)
    requires 0 <= k < ncols
    ensures NonDescending(m.Column(k))
  {
    hide IsIndex;
    var col := m.Column(k);
    forall x, y | 0 <= x < y < |col|
      ensures col[x] <= col[y]
    {
      Transpose.PartAscends(ntrans, ncols, tranptr, tranind, m.colptr, m.colind, k, m.colptr[k] + x, m.colptr[k] + y);
    }
  }

  lemma ColumnAndListing(ntrans: int, ncols: int, tranptr: seq<int>, tranind: seq<int>, m: Matrix, k: int, t: int)
    requires ValidCsr(ntrans, ncols, tranptr, tranind)
    requires m.Valid(ntrans) && m.ncols == ncols && IsIndex(ntrans, ncols, tranptr, tranind, m.colptr, m.colind)
    requires 0 <= k < ncols
    ensures multiset(m.Column(k))[t] == multiset(Listing(Transactions(tranptr, tranind), {k}, k))[t]
  {
    hide IsIndex;
    var db := Transactions(tranptr, tranind);
    ListingCounts(db, {k}, k, t);
    hide Listing;
    if 0 <= t < ntrans {
      ColumnCounts(ntrans, ncols, tranptr, tranind, m, k, t);
      assert Contains(db[t], {k}) <==> db[t][k] > 0;
    } else {
      assert t !in m.Column(k);
    }
  }

  /** Column k of the full matrix lists the transactions that contain item k. */
  ghost predicate FullColumn(db: Database, m: Matrix, k: int)
    requires m.Valid(|db|) && 0 <= k < m.ncols
  {
    m.colids[k] == k && m.Column(k) == Listing(db, {k}, k)
  }

  lemma FullColumnKept(db: Database, m: Matrix, k: int)
    requires m.Valid(|db|) && 0 <= k < m.ncols && FullColumn(db, m, k)
    ensures Filter(m.Column(k), Below(|db|)) == m.Column(k)
    ensures |m.Column(k)| == Occurrences(db, {k}, k) == Size(m, |db|, Below(|db|), k)
  {
    hide Listing;
    FilterEverything(m.Column(k), Below(|db|));
  }

  /** The first projection keeps all rows and drops the items that are too rare or too common. */
  lemma FirstProjection(db: Database, lim: Limits, m: Matrix, sel: seq<int>, pm: Matrix)
    requires m.Valid(|db|) && Projected(lim, m, |db|, -1, Below(|db|), sel, pm)
    requires forall k :: 0 <= k < m.ncols ==> FullColumn(db, m, k)
    ensures Extends(db, lim, pm, {})
    ensures forall k :: k in Items(pm) <==> 0 <= k < m.ncols && lim.minfreq <= Occurrences(db, {k}, k) <= lim.maxfreq
  {
    hide Filter, Size;
    forall x | 0 <= x < pm.ncols
      ensures IsExtension(db, lim, pm, {}, x) && pm.colids[x] == sel[x]
    {
      FirstColumnKept(db, lim, m, sel, pm, x);
    }
    FirstItems(db, lim, m, sel, pm);
  }

  lemma FirstColumnKept(db: Database, lim: Limits, m: Matrix, sel: seq<int>, pm: Matrix, x: int)
    requires m.Valid(|db|) && Projected(lim, m, |db|, -1, Below(|db|), sel, pm) && 0 <= x < pm.ncols
    requires forall k :: 0 <= k < m.ncols ==> FullColumn(db, m, k)
    ensures IsExtension(db, lim, pm, {}, x) && pm.colids[x] == sel[x]
  {
    hide Filter, Size, Listing;
    assert sel[x] in sel && Admissible(lim, m, |db|, Below(|db|), sel[x]);
    FullColumnKept(db, m, sel[x]);
    assert {} + {sel[x]} == {sel[x]};
  }

  lemma FirstItems(db: Database, lim: Limits, m: Matrix, sel: seq<int>, pm: Matrix)
    requires m.Valid(|db|) && Projected(lim, m, |db|, -1, Below(|db|), sel, pm)
    requires forall k :: 0 <= k < m.ncols ==> FullColumn(db, m, k)
    ensures forall k :: k in Items(pm) <==> 0 <= k < m.ncols && lim.minfreq <= Occurrences(db, {k}, k) <= lim.maxfreq
  {
    hide Filter, Size;
    assert forall x :: 0 <= x < |sel| ==> m.colids[sel[x]] == sel[x] by {
      forall x | 0 <= x < |sel| ensures m.colids[sel[x]] == sel[x] {
        assert FullColumn(db, m, sel[x]);
      }
    }
    assert pm.colids == sel;
    forall k | 0 <= k < m.ncols
      ensures k in sel <==> lim.minfreq <= Occurrences(db, {k}, k) <= lim.maxfreq
    {
      FullColumnKept(db, m, k);
      assert k in sel <==> Admissible(lim, m, |db|, Below(|db|), k);
    }
  }

  lemma {:induction false} FilterEverything(col: seq<int>, keep: set<int>)
    requires forall x :: 0 <= x < |col| ==> col[x] in keep
    ensures Filter(col, keep) == col
  {
    if col != [] {
      FilterEverything(col[..|col| - 1], keep);
    }
  }

  /** Below the empty itemset, what is wanted is what is frequent, and what is possible is reportable. */
  lemma WantedIsFrequent(db: Database, given: Limits, lim: Limits, ncols: int, items: set<int>, s: set<int>)
    requires 0 <= ncols && s <= Below(ncols)
    requires lim == given.(maxfreq := MostFrequent(db, given),
                           maxlen := if given.maxlen == -1 then ncols else given.maxlen)
    requires forall k :: k in items <==> 0 <= k < ncols && lim.minfreq <= Occurrences(db, {k}, k) <= lim.maxfreq
    ensures Wanted(db, lim, {}, items, s) <==> Frequent(db, given, s)
    ensures Possible(db, lim, {}, items, s) <==> Reportable(db, given, s)
  {
    hide Occurrences, Always, Sometimes;
    CardinalityMonotone(s, Below(ncols));
    assert s - {} == s;
    if Frequent(db, given, s) || Reportable(db, given, s) {
      AllInRange(db, given, s);
    }
  }

  lemma AllInRange(db: Database, lim: Limits, s: set<int>)
    requires Frequent(db, lim, s) || Reportable(db, lim, s)
    ensures forall x :: x in s ==> lim.minfreq <= Occurrences(db, {x}, x) <= MostFrequent(db, lim)
  {
    hide Occurrences;
    forall x | x in s
      ensures lim.minfreq <= Occurrences(db, {x}, x) <= MostFrequent(db, lim)
    {
      assert {} + {x} == {x};
    }
  }

  ghost predicate IsMax(s: seq<int>, max: int)
  {
    max in s && forall j :: 0 <= j < |s| ==> s[j] <= max
  }

  /** Every report is sound; no itemset is reported twice; over the items 0..max every frequent itemset is
      reported and only reportable ones are.  If a set must occur at all to be frequent, that covers all
      sets. */
  ghost predicate Complete(db: Database, given: Limits, tranind: seq<int>, found: seq<Found>)
  {
    && (forall x :: 0 <= x < |found| ==> Sound(db, found[x]))
    && (forall max, s :: IsMax(tranind, max) ==>
          if s <= Below(if max < 0 then 0 else max + 1)
          then Between(Times(found, s), Frequent(db, given, s), Reportable(db, given, s))
          else Times(found, s) == 0)
    && (given.minfreq >= 1 ==>
          forall s :: Between(Times(found, s), Frequent(db, given, s), Reportable(db, given, s)))
  }

  /** The report lists exactly the transactions that contain the itemset, in order. */
  ghost predicate ListsSupport(db: Database, f: Found)
  {
    Distinct(f.items) && Ascending(f.trans) && Elements(f.trans) == Support(db, Elements(f.items))
  }

  /** The same for transactions without repetition: exactly the supported itemsets are reported. */
  ghost predicate Exact(db: Database, given: Limits, tranind: seq<int>, found: seq<Found>)
  {
    && (forall x :: 0 <= x < |found| ==> ListsSupport(db, found[x]))
    && (forall max, s :: IsMax(tranind, max) ==>
          Times(found, s) == if s <= Below(if max < 0 then 0 else max + 1) && Supported(db, given, s) then 1 else 0)
    && (given.minfreq >= 1 ==> forall s :: Times(found, s) == if Supported(db, given, s) then 1 else 0)
  }

  lemma CompleteIsExact(db: Database, given: Limits, tranind: seq<int>, found: seq<Found>)
    requires Complete(db, given, tranind, found) && NoItemTwice(db)
    ensures Exact(db, given, tranind, found)
  {
    hide Times, Frequent, Reportable, Supported, Listing, NoItemTwice;
    forall x | 0 <= x < |found|
      ensures ListsSupport(db, found[x])
    {
      var f := found[x];
      assert Sound(db, f);
      var last := f.items[|f.items| - 1];
      ListingAscends(db, Elements(f.items), last);
      ListingElements(db, Elements(f.items), last);
    }
    forall s
      ensures Supported(db, given, s) <==> Frequent(db, given, s)
      ensures Supported(db, given, s) <==> Reportable(db, given, s)
    {
      SupportedIsFrequent(db, given, s);
    }
  }

  lemma SearchIsComplete(tranptr: seq<int>, tranind: seq<int>, db: Database, given: Limits, lim: Limits, ncols: int,
                         items: set<int>, found: seq<Found>)
    requires ValidCsr(|db|, ncols, tranptr, tranind) && db == Transactions(tranptr, tranind)
    requires IsMax(tranind, ncols - 1) && 0 <= ncols
    requires lim == given.(maxfreq := MostFrequent(db, given),
                           maxlen := if given.maxlen == -1 then ncols else given.maxlen)
    requires forall k :: k in items <==> 0 <= k < ncols && lim.minfreq <= Occurrences(db, {k}, k) <= lim.maxfreq
    requires Reported(db, lim, {}, items, found)
    ensures Complete(db, given, tranind, found)
  {
    hide Sound, Frequent, Reportable, Wanted, Possible, Transactions, Times;
    forall s
      ensures
        if s <= Below(ncols) then Between(Times(found, s), Frequent(db, given, s), Reportable(db, given, s))
        else Times(found, s) == 0
      ensures given.minfreq >= 1 && !(s <= Below(ncols)) ==> !Frequent(db, given, s)
    {
      assert Between(Times(found, s), Wanted(db, lim, {}, items, s), Possible(db, lim, {}, items, s));
      if s <= Below(ncols) {
        WantedIsFrequent(db, given, lim, ncols, items, s);
      } else {
        NotPossible(db, lim, items, ncols, s);
        if given.minfreq >= 1 && Frequent(db, given, s) {
          FrequentOccurs(tranptr, tranind, db, given, ncols, s);
        }
      }
    }
    forall max | IsMax(tranind, max)
      ensures max == ncols - 1
    {
    }
  }

  lemma NotPossible(db: Database, lim: Limits, items: set<int>, ncols: nat, s: set<int>)
    requires items <= Below(ncols) && !(s <= Below(ncols))
    ensures !Possible(db, lim, {}, items, s)
  {
    assert s - {} == s;
  }

  lemma FrequentOccurs(tranptr: seq<int>, tranind: seq<int>, db: Database, given: Limits, ncols: int, s: set<int>)
    requires ValidCsr(|db|, ncols, tranptr, tranind) && db == Transactions(tranptr, tranind)
    requires given.minfreq >= 1 && Frequent(db, given, s)
    ensures s <= Below(ncols)
  {
    hide Frequent, Occurrences;
    AllInRange(db, given, s);
    forall x | x in s
      ensures 0 <= x < ncols
    {
      var t := OccursSomewhere(db, x);
      assert x in tranind[tranptr[t]..tranptr[t + 1]];
    }
  }

  lemma OccursSomewhere(db: Database, x: int) returns (t: int)
    requires Occurrences(db, {x}, x) >= 1
    ensures 0 <= t < |db| && x in db[t]
  {
    var l := Listing(db, {x}, x);
    t := l[0];
    ListingCounts(db, {x}, x, t);
    assert t in multiset(l);
  }

  method FindFrequentItemsets(ntrans: int, tranptr: seq<int>, tranind: seq<int>, given: Limits, bits: nat)
    returns (found: seq<Found>)
    requires ValidCsr(ntrans, Pow2(bits) - 1, tranptr, tranind) && tranind != []
    ensures Complete(Transactions(tranptr, tranind), given, tranind, found)
    ensures NoItemTwice(Transactions(tranptr, tranind)) ==> Exact(Transactions(tranptr, tranind), given, tranind, found)
  {
    hide Complete, Exact, NoItemTwice, Transactions, Reported, FullColumn, Occurrences;
    ghost var db := Transactions(tranptr, tranind);
    var max := MaxItem(tranind);
    var ncols := max + 1;
    TransactionCount(tranptr, tranind);
    assert ValidCsr(ntrans, ncols, tranptr, tranind);
    var lim := given.(maxfreq := if given.maxfreq == -1 then ntrans else given.maxfreq,
                      maxlen := if given.maxlen == -1 then ncols else given.maxlen);
    var mat := ColumnView(ntrans, ncols, tranptr, tranind);
    ghost var items;
    found, items := SearchAll(db, lim, mat, ntrans, bits);
    SearchIsComplete(tranptr, tranind, db, given, lim, ncols, items, found);
    if NoItemTwice(db) {
      CompleteIsExact(db, given, tranind, found);
    }
  }

  /** The part of gk_find_frequent_itemsets after the column view has been built. */
  method SearchAll(ghost db: Database, lim: Limits, mat: Matrix, ntrans: int, bits: nat)
    returns (found: seq<Found>, ghost items: set<int>)
    requires mat.Valid(ntrans) && ntrans == |db| && 0 <= mat.ncols < Pow2(bits)
    requires forall k :: 0 <= k < mat.ncols ==> FullColumn(db, mat, k)
    ensures Reported(db, lim, {}, items, found)
    ensures forall k :: k in items <==> 0 <= k < mat.ncols && lim.minfreq <= Occurrences(db, {k}, k) <= lim.maxfreq
  {
    hide Reported, FullColumn, Projected, IsExtension, Occurrences;
    var rmarker := new int[ntrans](_ => 0);
    var cand := new KV[mat.ncols](_ => KV(0, 0));
    var pmat, sel := ProjectMatrix(lim, mat, ntrans, -1, rmarker, cand, bits);
    FirstProjection(db, lim, mat, sel, pmat);
    ProjectionNoLarger(lim, mat, ntrans, sel, pmat);
    var pattern := new int[pmat.ncols](_ => 0);
    ghost var none: seq<int> := [];
    assert pattern[..0] == none && Elements(none) == {};
    found := FindBelow(db, lim, pmat, ntrans, 0, pattern, rmarker, cand, bits);
    items := Items(pmat);
  }

  lemma TransactionCount(tranptr: seq<int>, tranind: seq<int>)
    requires |tranptr| > 0 && forall i, j :: 0 <= i <= j < |tranptr| ==> 0 <= tranptr[i] <= tranptr[j] <= |tranind|
    ensures |Transactions(tranptr, tranind)| == |tranptr| - 1
  {
  }

  lemma ProjectionNoLarger(lim: Limits, m: Matrix, nrows: int, sel: seq<int>, pm: Matrix)
    requires 0 <= nrows && m.Valid(nrows) && 0 <= m.ncols && Projected(lim, m, nrows, -1, Below(nrows), sel, pm)
    ensures 0 <= pm.ncols <= m.ncols && pm.Valid(nrows)
  {
    DistinctSize(sel);
    CardinalityMonotone(Elements(sel), Below(m.ncols));
  }

  method ColumnView(ntrans: int, ncols: int, tranptr: seq<int>, tranind: seq<int>) returns (mat: Matrix)
    requires ValidCsr(ntrans, ncols, tranptr, tranind)
    ensures |Transactions(tranptr, tranind)| == ntrans && mat.Valid(ntrans) && mat.ncols == ncols
    ensures forall k :: 0 <= k < ncols ==> FullColumn(Transactions(tranptr, tranind), mat, k)
  {
    hide IsIndex, Listing, Transactions;
    TransactionCount(tranptr, tranind);
    var colptr, colind, _ := CreateIndex<int>(ntrans, ncols, tranptr, tranind, false, [], 0);
    Transpose.IndexIsValid(ntrans, ncols, tranptr, tranind, colptr[..], colind[..]);
    mat := Matrix(ncols, colptr[..], colind[..], seq(ncols, k => k));
    forall k | 0 <= k < ncols
      ensures FullColumn(Transactions(tranptr, tranind), mat, k)
    {
      ColumnsAreListings(ntrans, ncols, tranptr, tranind, mat, k);
    }
  }
}
