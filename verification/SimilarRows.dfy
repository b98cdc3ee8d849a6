/** gk_csr_GetSimilarRows (src/csr.c) for the dot product: scores are accumulated over the columns of
    the query, pruned by minsim, and the nsim best are selected and sorted. */
module SimilarRows {
  import opened Csr
  import opened Finite
  import opened Picks
  import opened PriorityQueue
  import opened Sequences
  import QSort
  import Select
  import SymmetryCheck

  /** A column view with values and a query. */
  datatype Search = Search(nrows: int, ncols: int, colptr: seq<int>, colind: seq<int>, colval: seq<int>,
                           qind: seq<int>, qval: seq<int>)
  {
    ghost predicate Valid()
    {
      && ValidCsr(ncols, nrows, colptr, colind) && |colval| == |colind| && |qval| == |qind|
      && forall t :: 0 <= t < |qind| ==> 0 <= qind[t]
    }

    /** Where the column of query term t begins and ends; a term beyond the matrix has none. */
    ghost function Begin(t: int): (b: int)
      requires Valid() && 0 <= t < |qind|
      ensures 0 <= b <= End(t) <= |colind|
    {
      if qind[t] < ncols then colptr[qind[t]] else 0
    }

    ghost function End(t: int): (e: int)
      requires Valid() && 0 <= t < |qind|
      ensures e <= |colind|
    {
      if qind[t] < ncols then colptr[qind[t] + 1] else 0
    }
  }

  // ----- The score of a row, as the columns give it -----

  function Product(a: int, b: int): int
  {
    a * b
  }

  /** What the positions [lo, hi) of a column with weight w add to row k. */
  ghost function Part(q: Search, k: int, lo: int, hi: int, w: int): int
    requires q.Valid() && 0 <= lo && hi <= |q.colind|
    decreases hi - lo
  {
    if hi <= lo then 0
    else Part(q, k, lo, hi - 1, w) + if q.colind[hi - 1] == k then Product(q.colval[hi - 1], w) else 0
  }

  /** The score after the first t terms. */
  ghost function Score(q: Search, k: int, t: int): int
    requires q.Valid() && t <= |q.qind|
    decreases t
  {
    if t <= 0 then 0 else Score(q, k, t - 1) + Part(q, k, q.Begin(t - 1), q.End(t - 1), q.qval[t - 1])
  }

  ghost predicate In(q: Search, k: int, lo: int, hi: int)
    requires q.Valid() && 0 <= lo && hi <= |q.colind|
  {
    exists j :: lo <= j < hi && q.colind[j] == k
  }

  /** Row k occurs in the column of one of the first t terms. */
  ghost predicate Touched(q: Search, k: int, t: int)
    requires q.Valid() && t <= |q.qind|
  {
    exists s :: 0 <= s < t && In(q, k, q.Begin(s), q.End(s))
  }

  // ----- The sparse accumulator -----

  /** marker points every row into cand[..ncand] or to -1, and cand points back. */
  ghost predicate Linked(nrows: int, marker: seq<int>, cand: seq<KV>, ncand: int)
  {
    && |marker| == |cand| == nrows && 0 <= ncand <= nrows
    && (forall c :: 0 <= c < ncand ==> 0 <= cand[c].val < nrows && marker[cand[c].val] == c)
    && (forall k :: 0 <= k < nrows && marker[k] != -1 ==> 0 <= marker[k] < ncand && cand[marker[k]].val == k)
  }

  /** Exactly the rows in `rows` have candidates, with these scores; the others score nothing. */
  ghost predicate Accumulated(nrows: int, marker: seq<int>, cand: seq<KV>, ncand: int, rows: set<int>,
                              score: int -> int)
  {
    && Linked(nrows, marker, cand, ncand)
    && (forall k :: 0 <= k < nrows ==> (marker[k] != -1 <==> k in rows))
    && (forall c :: 0 <= c < ncand ==> cand[c].key == score(cand[c].val))
    && (forall k :: 0 <= k < nrows && k !in rows ==> score(k) == 0)
  }

  lemma Room(nrows: int, marker: seq<int>, cand: seq<KV>, ncand: int, k: int)
    requires Linked(nrows, marker, cand, ncand) && 0 <= k < nrows && marker[k] == -1
    ensures ncand < nrows
  {
    var vals := seq(ncand, c requires 0 <= c < ncand => cand[c].val);
    DistinctCount(vals);
    CardinalityMonotone((set v | v in vals), Below(nrows) - {k});
  }

  /** One occurrence of row k adds x to its score. */
  lemma AddStep(nrows: int, marker: seq<int>, cand: seq<KV>, ncand: int, rows: set<int>, score: int -> int,
                k: int, x: int, score': int -> int)
    requires Accumulated(nrows, marker, cand, ncand, rows, score) && 0 <= k < nrows
    requires forall i :: score'(i) == score(i) + if i == k then x else 0
    ensures marker[k] == -1 ==> ncand < nrows
    ensures marker[k] == -1 ==>
      Accumulated(nrows, marker[k := ncand], cand[ncand := KV(x, k)], ncand + 1, rows + {k}, score')
    ensures marker[k] != -1 ==> 0 <= marker[k] < nrows && k in rows
    ensures marker[k] != -1 ==>
      Accumulated(nrows, marker, cand[marker[k] := KV(cand[marker[k]].key + x, k)], ncand, rows, score')
  {
    if marker[k] == -1 {
      Room(nrows, marker, cand, ncand, k);
    }
  }

  /** The rows touched, and the scores, after t terms and the positions up to j of the next. */
  ghost function RowsAt(q: Search, t: int, j: int): set<int>
    requires q.Valid() && 0 <= t < |q.qind| && j <= |q.colind|
  {
    set k | k in Below(q.nrows) && (Touched(q, k, t) || In(q, k, q.Begin(t), j))
  }

  ghost function ScoreAt(q: Search, t: int, j: int): int -> int
    requires q.Valid() && 0 <= t < |q.qind| && j <= |q.colind|
  {
    k => if q.Valid() && 0 <= t < |q.qind| && j <= |q.colind|
         then Score(q, k, t) + Part(q, k, q.Begin(t), j, q.qval[t]) else 0
  }

  ghost function RowsTo(q: Search, t: int): set<int>
    requires q.Valid() && t <= |q.qind|
  {
    set k | k in Below(q.nrows) && Touched(q, k, t)
  }

  ghost function ScoreTo(q: Search, t: int): int -> int
    requires q.Valid() && t <= |q.qind|
  {
    k => if q.Valid() && t <= |q.qind| then Score(q, k, t) else 0
  }

  lemma TermStarts(q: Search, t: int)
    requires q.Valid() && 0 <= t < |q.qind|
    ensures RowsAt(q, t, q.Begin(t)) == RowsTo(q, t)
    ensures forall k :: ScoreAt(q, t, q.Begin(t))(k) == ScoreTo(q, t)(k)
  {
  }

  lemma TermEnds(q: Search, t: int)
    requires q.Valid() && 0 <= t < |q.qind|
    ensures RowsAt(q, t, q.End(t)) == RowsTo(q, t + 1)
    ensures forall k :: ScoreAt(q, t, q.End(t))(k) == ScoreTo(q, t + 1)(k)
  {
    forall k
      ensures Touched(q, k, t + 1) <==> Touched(q, k, t) || In(q, k, q.Begin(t), q.End(t))
    {
      OneMoreTerm(q, k, t);
    }
    hide Touched, In, Part;
  }

  lemma OneMoreTerm(q: Search, k: int, t: int)
    requires q.Valid() && 0 <= t < |q.qind|
    ensures Touched(q, k, t + 1) <==> Touched(q, k, t) || In(q, k, q.Begin(t), q.End(t))
  {
    hide In;
  }

  lemma PositionStep(q: Search, t: int, j: int)
    requires q.Valid() && 0 <= t < |q.qind| && q.Begin(t) <= j < q.End(t)
    ensures 0 <= q.colind[j] < q.nrows && RowsAt(q, t, j + 1) == RowsAt(q, t, j) + {q.colind[j]}
    ensures var x := Product(q.colval[j], q.qval[t]);
            forall k :: ScoreAt(q, t, j + 1)(k) == ScoreAt(q, t, j)(k) + if k == q.colind[j] then x else 0
  {
    forall k | k in Below(q.nrows)
      ensures In(q, k, q.Begin(t), j + 1) <==> In(q, k, q.Begin(t), j) || k == q.colind[j]
    {
    }
  }

  /** Accumulated speaks of the function's values only. */
  lemma SameScores(nrows: int, marker: seq<int>, cand: seq<KV>, ncand: int, rows: set<int>, f: int -> int,
                   g: int -> int)
    requires Accumulated(nrows, marker, cand, ncand, rows, f) && forall k :: f(k) == g(k)
    ensures Accumulated(nrows, marker, cand, ncand, rows, g)
  {
  }

  /** Adds one column of the query. */
  method AddColumn(q: Search, t: int, marker: array<int>, cand: array<KV>, ncand: int) returns (n: int)
    requires q.Valid() && 0 <= t < |q.qind| && q.qind[t] < q.ncols
    requires Accumulated(q.nrows, marker[..], cand[..], ncand, RowsTo(q, t), ScoreTo(q, t))
    modifies marker, cand
    ensures Accumulated(q.nrows, marker[..], cand[..], n, RowsTo(q, t + 1), ScoreTo(q, t + 1))
  {
    hide Accumulated, RowsAt, ScoreAt, RowsTo, ScoreTo, Touched, In;
    var i := q.qind[t];
    n := ncand;
    TermStarts(q, t);
    SameScores(q.nrows, marker[..], cand[..], n, RowsTo(q, t), ScoreTo(q, t), ScoreAt(q, t, q.Begin(t)));
    for j := q.colptr[i] to q.colptr[i + 1]
      invariant Accumulated(q.nrows, marker[..], cand[..], n, RowsAt(q, t, j), ScoreAt(q, t, j))
    {
      PositionStep(q, t, j);
      n := AddOne(q.nrows, marker, cand, n, RowsAt(q, t, j), ScoreAt(q, t, j), q.colind[j],
                  Product(q.colval[j], q.qval[t]), ScoreAt(q, t, j + 1));
    }
    TermEnds(q, t);
    SameScores(q.nrows, marker[..], cand[..], n, RowsTo(q, t + 1), ScoreAt(q, t, q.End(t)), ScoreTo(q, t + 1));
  }

  method AddOne(nrows: int, marker: array<int>, cand: array<KV>, ncand: int, ghost rows: set<int>,
                ghost score: int -> int, k: int, x: int, ghost score': int -> int)
    returns (n: int)
    requires Accumulated(nrows, marker[..], cand[..], ncand, rows, score) && 0 <= k < nrows
    requires forall i :: score'(i) == score(i) + if i == k then x else 0
    modifies marker, cand
    ensures Accumulated(nrows, marker[..], cand[..], n, rows + {k}, score')
  {
    Sizes(nrows, marker[..], cand[..], ncand, rows, score);
    hide Accumulated;
    ghost var m, c := marker[..], cand[..];
    AddStep(nrows, m, c, ncand, rows, score, k, x, score');
    n := ncand;
    if marker[k] == -1 {
      cand[n] := KV(0, k);
      marker[k] := n;
      n := n + 1;
      cand[marker[k]] := cand[marker[k]].(key := cand[marker[k]].key + x);
      assert marker[..] == m[k := ncand] && cand[..] == c[ncand := KV(x, k)];
    } else {
      cand[marker[k]] := cand[marker[k]].(key := cand[marker[k]].key + x);
      assert rows + {k} == rows;
      assert cand[..] == c[m[k] := KV(c[m[k]].key + x, k)];
    }
  }

  lemma Sizes(nrows: int, marker: seq<int>, cand: seq<KV>, ncand: int, rows: set<int>, score: int -> int)
    requires Accumulated(nrows, marker, cand, ncand, rows, score)
    ensures |marker| == |cand| == nrows && 0 <= ncand <= nrows
    ensures forall k :: 0 <= k < nrows && marker[k] != -1 ==> 0 <= marker[k] < ncand && cand[marker[k]].val == k
  {
  }

  /** A term beyond the matrix changes nothing. */
  lemma SkipTerm(q: Search, t: int)
    requires q.Valid() && 0 <= t < |q.qind| && q.ncols <= q.qind[t]
    ensures RowsTo(q, t + 1) == RowsTo(q, t) && forall k :: ScoreTo(q, t + 1)(k) == ScoreTo(q, t)(k)
  {
    forall k | k in Below(q.nrows)
      ensures Touched(q, k, t + 1) <==> Touched(q, k, t)
    {
    }
  }

  /** The loop over the query. */
  method Accumulate(q: Search, marker: array<int>, cand: array<KV>) returns (ncand: int)
    requires q.Valid() && marker.Length == cand.Length == q.nrows && forall k :: 0 <= k < q.nrows ==> marker[k] == -1
    modifies marker, cand
    ensures Accumulated(q.nrows, marker[..], cand[..], ncand, RowsTo(q, |q.qind|), ScoreTo(q, |q.qind|))
  {
    hide Accumulated, RowsTo, ScoreTo, Touched, In, Score;
    NothingYet(q, marker[..], cand[..]);
    ncand := 0;
    for t := 0 to |q.qind|
      invariant Accumulated(q.nrows, marker[..], cand[..], ncand, RowsTo(q, t), ScoreTo(q, t))
    {
      if q.qind[t] < q.ncols {
        ncand := AddColumn(q, t, marker, cand, ncand);
      } else {
        SkipTerm(q, t);
        SameScores(q.nrows, marker[..], cand[..], ncand, RowsTo(q, t), ScoreTo(q, t), ScoreTo(q, t + 1));
      }
    }
  }

  lemma NothingYet(q: Search, marker: seq<int>, cand: seq<KV>)
    requires q.Valid() && |marker| == |cand| == q.nrows && forall k :: 0 <= k < q.nrows ==> marker[k] == -1
    ensures Accumulated(q.nrows, marker, cand, 0, RowsTo(q, 0), ScoreTo(q, 0))
  {
  }

  // ----- Pruning -----

  ghost function Kept(s: seq<KV>, minsim: int): seq<KV>
  {
    if s == [] then []
    else Kept(s[..|s| - 1], minsim) + if s[|s| - 1].key >= minsim then [s[|s| - 1]] else []
  }

  lemma {:induction false} KeptFacts(s: seq<KV>, minsim: int)
    requires forall i, j :: 0 <= i < j < |s| ==> s[i].val != s[j].val
    ensures |Kept(s, minsim)| <= |s|
    ensures forall x :: x in Kept(s, minsim) <==> x in s && x.key >= minsim
    ensures forall i, j :: 0 <= i < j < |Kept(s, minsim)| ==> Kept(s, minsim)[i].val != Kept(s, minsim)[j].val
  {
    if s != [] {
      var n := |s| - 1;
      KeptFacts(s[..n], minsim);
      assert s == s[..n] + [s[n]];
      assert forall i :: 0 <= i < |Kept(s[..n], minsim)| ==> Kept(s[..n], minsim)[i] in s[..n];
    }
  }

  /** Which candidates the marker still knows after the first i have been dealt with. */
  ghost predicate LinkedFrom(nrows: int, marker: seq<int>, cand: seq<KV>, ncand: int, i: int)
  {
    && |marker| == |cand| == nrows && 0 <= i <= ncand <= nrows
    && (forall c :: 0 <= c < ncand ==> 0 <= cand[c].val < nrows)
    && (forall k :: 0 <= k < nrows && marker[k] != -1 ==> i <= marker[k] < ncand && cand[marker[k]].val == k)
  }

  /** Clears the marker and moves the candidates of sufficient score to the front. */
  method Prune(nrows: int, marker: array<int>, cand: array<KV>, ncand: int, minsim: int) returns (n: int)
    requires LinkedFrom(nrows, marker[..], cand[..], ncand, 0)
    modifies marker, cand
    ensures forall k :: 0 <= k < nrows ==> marker[k] == -1
    ensures 0 <= n <= ncand && cand[..n] == Kept(old(cand[..ncand]), minsim)
  {
    hide Kept;
    ghost var s := cand[..];
    n := 0;
    KeptNone(minsim);
    assert s[..0] == [];
    for i := 0 to ncand
      invariant 0 <= n <= i && cand[..n] == Kept(s[..i], minsim)
      invariant forall c :: i <= c < nrows ==> cand[c] == s[c]
      invariant LinkedFrom(nrows, marker[..], s, ncand, i)
    {
      assert cand[i] == s[i];
      KeptStep(s, i, minsim);
      marker[cand[i].val] := -1;
      if cand[i].key >= minsim {
        cand[n] := cand[i];
        n := n + 1;
        assert cand[..n] == Kept(s[..i], minsim) + [s[i]];
      }
    }
  }

  lemma KeptNone(minsim: int)
    ensures Kept([], minsim) == []
  {
  }

  lemma KeptStep(s: seq<KV>, i: int, minsim: int)
    requires 0 <= i < |s|
    ensures Kept(s[..i + 1], minsim) == Kept(s[..i], minsim) + if s[i].key >= minsim then [s[i]] else []
  {
    assert s[..i + 1][..i] == s[..i];
  }

  // ----- The answer -----

  /** The rows that are touched and score at least minsim. */
  ghost function Similar(q: Search, minsim: int): set<int>
    requires q.Valid()
  {
    set k | k in Below(q.nrows) && Touched(q, k, |q.qind|) && Score(q, k, |q.qind|) >= minsim
  }

  /** Different similar rows with their scores. */
  ghost predicate Sound(q: Search, minsim: int, hits: seq<KV>)
    requires q.Valid()
  {
    && (forall i, j :: 0 <= i < j < |hits| ==> hits[i].val != hits[j].val)
    && (forall i :: 0 <= i < |hits| ==>
          hits[i].val in Similar(q, minsim) && hits[i].key == Score(q, hits[i].val, |q.qind|))
  }

  /** All similar rows, or if that is less, nsim of the best in decreasing order. */
  ghost predicate Answer(q: Search, nsim: int, minsim: int, hits: seq<KV>)
    requires q.Valid()
  {
    && Sound(q, minsim, hits)
    && if nsim == -1 || nsim >= |Similar(q, minsim)| then |hits| == |Similar(q, minsim)|
       else
         && |hits| == nsim
         && (forall i, j :: 0 <= i < j < |hits| ==> hits[i].key >= hits[j].key)
         && (forall k, i ::
               k in Similar(q, minsim) && 0 <= i < |hits| && (forall j :: 0 <= j < |hits| ==> hits[j].val != k) ==>
               Score(q, k, |q.qind|) <= hits[i].key)
  }

  lemma KeptIsSimilar(q: Search, minsim: int, marker: seq<int>, cand: seq<KV>, ncand: int)
    requires q.Valid()
    requires Accumulated(q.nrows, marker, cand, ncand, RowsTo(q, |q.qind|), ScoreTo(q, |q.qind|))
    ensures 0 <= ncand <= |cand| && Sound(q, minsim, Kept(cand[..ncand], minsim))
    ensures |Kept(cand[..ncand], minsim)| == |Similar(q, minsim)|
    ensures forall k :: k in Similar(q, minsim) ==> KV(Score(q, k, |q.qind|), k) in Kept(cand[..ncand], minsim)
    ensures LinkedFrom(q.nrows, marker, cand, ncand, 0)
  {
    var s := cand[..ncand];
    CandidatesAreTouched(q, marker, cand, ncand);
    hide Accumulated, Kept, Similar;
    KeptFacts(s, minsim);
    var kept := Kept(s, minsim);
    forall i | 0 <= i < |kept|
      ensures kept[i].val in Similar(q, minsim) && kept[i].key == Score(q, kept[i].val, |q.qind|)
    {
      assert kept[i] in s;
      InSimilar(q, minsim, kept[i].val);
    }
    forall k | k in Similar(q, minsim)
      ensures KV(Score(q, k, |q.qind|), k) in kept
    {
      InSimilar(q, minsim, k);
    }
    SameNumber(q, minsim, kept);
  }

  lemma InSimilar(q: Search, minsim: int, k: int)
    requires q.Valid()
    ensures k in Similar(q, minsim) <==> 0 <= k < q.nrows && Touched(q, k, |q.qind|) && Score(q, k, |q.qind|) >= minsim
  {
  }

  lemma CandidatesAreTouched(q: Search, marker: seq<int>, cand: seq<KV>, ncand: int)
    requires q.Valid()
    requires Accumulated(q.nrows, marker, cand, ncand, RowsTo(q, |q.qind|), ScoreTo(q, |q.qind|))
    ensures 0 <= ncand <= |cand| && LinkedFrom(q.nrows, marker, cand, ncand, 0)
    ensures forall i, j :: 0 <= i < j < |cand[..ncand]| ==> cand[..ncand][i].val != cand[..ncand][j].val
    ensures forall x :: x in cand[..ncand] ==>
      0 <= x.val < q.nrows && Touched(q, x.val, |q.qind|) && x.key == Score(q, x.val, |q.qind|)
    ensures forall k :: 0 <= k < q.nrows && Touched(q, k, |q.qind|) ==> KV(Score(q, k, |q.qind|), k) in cand[..ncand]
  {
    var s := cand[..ncand];
    assert forall c :: 0 <= c < ncand ==> s[c] == cand[c];
    hide Touched, Score;
    forall x | x in s
      ensures 0 <= x.val < q.nrows && Touched(q, x.val, |q.qind|) && x.key == Score(q, x.val, |q.qind|)
    {
      var c :| 0 <= c < ncand && s[c] == x;
      assert marker[cand[c].val] == c;
      assert cand[c].key == ScoreTo(q, |q.qind|)(cand[c].val);
    }
    forall k | 0 <= k < q.nrows && Touched(q, k, |q.qind|)
      ensures KV(Score(q, k, |q.qind|), k) in s
    {
      assert k in RowsTo(q, |q.qind|);
      assert cand[marker[k]].key == ScoreTo(q, |q.qind|)(k);
      assert s[marker[k]] == KV(Score(q, k, |q.qind|), k);
    }
  }

  lemma SameNumber(q: Search, minsim: int, kept: seq<KV>)
    requires q.Valid() && Sound(q, minsim, kept)
    requires forall k :: k in Similar(q, minsim) ==> KV(Score(q, k, |q.qind|), k) in kept
    ensures |kept| == |Similar(q, minsim)|
  {
    hide Similar, Score;
    var vals := seq(|kept|, i requires 0 <= i < |kept| => kept[i].val);
    DistinctCount(vals);
    forall k | k in Similar(q, minsim)
      ensures k in vals
    {
      var i :| 0 <= i < |kept| && kept[i] == KV(Score(q, k, |q.qind|), k);
      assert vals[i] == k;
    }
    assert (set v | v in vals) == Similar(q, minsim);
  }

  /** gk_fkvsortd on the first n elements. */
  method SortDown(cand: array<KV>, n: int, bits: nat)
    requires 0 <= n <= cand.Length < Pow2(bits)
    modifies cand
    ensures multiset(cand[..n]) == multiset(old(cand[..n])) && cand[n..] == old(cand[n..])
    ensures forall x, y :: 0 <= x < y < n ==> cand[x].key >= cand[y].key
  {
    hide QSort.StrictWeakOrder;
    var lt := (x: KV, y: KV) => x.key > y.key;
    DownOrder(lt);
    var a := new KV[n](k requires 0 <= k < n reads cand => cand[k]);
    assert a[..] == cand[..n];
    QSort.QSort(a, lt, bits);
    ghost var sorted := a[..];
    for k := 0 to n
      invariant a[..] == sorted && cand[n..] == old(cand[n..]) && forall l :: 0 <= l < k ==> cand[l] == a[l]
    {
      cand[k] := a[k];
    }
    assert cand[..n] == a[..];
    forall x, y | 0 <= x < y < n
      ensures cand[x].key >= cand[y].key
    {
      assert !QSort.Less(lt, a[y], a[x]);
    }
  }

  lemma DownOrder(lt: (KV, KV) -> bool)
    requires forall x, y :: lt(x, y) == (x.key > y.key)
    ensures QSort.StrictWeakOrder(lt)
  {
  }

  /** gk_csr_GetSimilarRows for GK_CSR_DOTP: fills hits and returns their number. */
  method GetSimilarRows(q: Search, nsim: int, minsim: int, hits: array<KV>, marker: array<int>, cand: array<KV>,
                        bits: nat)
    returns (n: int)
    requires q.Valid() && -1 <= nsim && q.nrows < Pow2(bits)
    requires marker.Length == cand.Length == q.nrows && (forall k :: 0 <= k < q.nrows ==> marker[k] == -1)
    requires hits != cand && (q.nrows <= hits.Length || (0 <= nsim <= hits.Length))
    modifies hits, marker, cand
    ensures forall k :: 0 <= k < q.nrows ==> marker[k] == -1
    ensures 0 <= n <= hits.Length && Answer(q, nsim, minsim, hits[..n])
    ensures forall i :: n <= i < hits.Length ==> hits[i] == old(hits[i])
  {
    if |q.qind| == 0 {
      EmptyQuery(q, nsim, minsim);
      assert hits[..0] == [];
      return 0;
    }
    hide Accumulated, LinkedFrom, Kept, Similar, Sound, RowsTo, ScoreTo, Answer, Score, Touched, In;
    var ncand := Accumulate(q, marker, cand);
    KeptIsSimilar(q, minsim, marker[..], cand[..], ncand);
    ncand := Prune(q.nrows, marker, cand, ncand, minsim);
    ghost var kept := cand[..ncand];
    if nsim == -1 || nsim >= ncand {
      n := ncand;
      AllAnswer(q, nsim, minsim, kept);
    } else {
      n := nsim;
      SelectBest(q, nsim, minsim, cand, ncand, bits);
    }
    CopyHits(n, cand, hits);
  }

  /** Selection and sorting of the pruned candidates. */
  method SelectBest(q: Search, nsim: int, minsim: int, cand: array<KV>, ncand: int, bits: nat)
    requires q.Valid() && 0 <= nsim < ncand <= cand.Length < Pow2(bits)
    requires Sound(q, minsim, cand[..ncand]) && ncand == |Similar(q, minsim)|
    requires forall k :: k in Similar(q, minsim) ==> KV(Score(q, k, |q.qind|), k) in cand[..ncand]
    modifies cand
    ensures Answer(q, nsim, minsim, cand[..nsim])
  {
    hide Similar, Sound, Answer, Score;
    ghost var kept := cand[..ncand];
    var count := Select.Select(true, ncand, nsim, cand);
    ghost var chosen := cand[..ncand];
    assert chosen[..nsim] == cand[..nsim] && chosen[nsim..] == cand[nsim..][..ncand - nsim];
    SortDown(cand, nsim, bits);
    assert cand[..ncand][..nsim] == cand[..nsim] && cand[..ncand][nsim..] == cand[nsim..][..ncand - nsim];
    SortedPart(chosen, cand[..ncand], nsim);
    BestAnswer(q, nsim, minsim, kept, chosen, cand[..ncand]);
  }

  /** gk_fkvcopy. */
  method CopyHits(n: int, cand: array<KV>, hits: array<KV>)
    requires hits != cand && 0 <= n <= cand.Length && n <= hits.Length
    modifies hits
    ensures hits[..n] == cand[..n] && forall i :: n <= i < hits.Length ==> hits[i] == old(hits[i])
  {
    for i := 0 to n
      invariant hits[..i] == cand[..i] && forall k :: n <= k < hits.Length ==> hits[k] == old(hits[k])
    {
      hits[i] := cand[i];
    }
  }

  lemma EmptyQuery(q: Search, nsim: int, minsim: int)
    requires q.Valid() && |q.qind| == 0 && -1 <= nsim
    ensures Answer(q, nsim, minsim, [])
  {
    assert Similar(q, minsim) == {};
  }

  lemma AllAnswer(q: Search, nsim: int, minsim: int, kept: seq<KV>)
    requires q.Valid() && Sound(q, minsim, kept) && |kept| == |Similar(q, minsim)| && (nsim == -1 || nsim >= |kept|)
    ensures Answer(q, nsim, minsim, kept)
  {
  }

  /** Sorting the front changes neither the front as a bag nor the rest. */
  lemma SortedPart(chosen: seq<KV>, sorted: seq<KV>, n: int)
    requires 0 <= n <= |chosen| == |sorted| && multiset(sorted[..n]) == multiset(chosen[..n])
             && sorted[n..] == chosen[n..]
    ensures multiset(sorted) == multiset(chosen)
    ensures forall x :: x in sorted[..n] <==> x in chosen[..n]
  {
    assert sorted == sorted[..n] + sorted[n..] && chosen == chosen[..n] + chosen[n..];
    forall x
      ensures x in sorted[..n] <==> x in chosen[..n]
    {
      assert x in sorted[..n] <==> x in multiset(sorted[..n]);
      assert x in chosen[..n] <==> x in multiset(chosen[..n]);
    }
  }

  lemma BestAnswer(q: Search, nsim: int, minsim: int, kept: seq<KV>, chosen: seq<KV>, sorted: seq<KV>)
    requires q.Valid() && Sound(q, minsim, kept) && |kept| == |Similar(q, minsim)|
    requires forall k :: k in Similar(q, minsim) ==> KV(Score(q, k, |q.qind|), k) in kept
    requires 0 <= nsim < |kept| == |chosen| == |sorted|
    requires multiset(kept) == multiset(chosen) == multiset(sorted) && Select.Selected(true, chosen, nsim)
    requires sorted[nsim..] == chosen[nsim..] && forall x :: x in sorted[..nsim] <==> x in chosen[..nsim]
    requires forall x, y :: 0 <= x < y < nsim ==> sorted[x].key >= sorted[y].key
    ensures Answer(q, nsim, minsim, sorted[..nsim])
  {
    hide Similar, Score, Select.Selected;
    var hits := sorted[..nsim];
    BagIsSound(q, minsim, kept, sorted);
    assert Sound(q, minsim, hits) by {
      assert forall i :: 0 <= i < nsim ==> hits[i] == sorted[i];
    }
    forall k, i | k in Similar(q, minsim) && 0 <= i < nsim && (forall j :: 0 <= j < nsim ==> hits[j].val != k)
      ensures Score(q, k, |q.qind|) <= hits[i].key
    {
      var x := KV(Score(q, k, |q.qind|), k);
      BestOutside(kept, chosen, sorted, nsim, x, i);
    }
  }

  /** A bag of different rows stays one in any order. */
  lemma BagIsSound(q: Search, minsim: int, kept: seq<KV>, sorted: seq<KV>)
    requires q.Valid() && Sound(q, minsim, kept) && multiset(kept) == multiset(sorted)
    ensures Sound(q, minsim, sorted)
  {
    forall i | 0 <= i < |sorted|
      ensures sorted[i].val in Similar(q, minsim) && sorted[i].key == Score(q, sorted[i].val, |q.qind|)
    {
      assert sorted[i] in multiset(sorted);
      assert sorted[i] in kept;
    }
    forall i, j | 0 <= i < j < |sorted|
      ensures sorted[i].val != sorted[j].val
    {
      OtherVals(kept, sorted, i, j);
    }
  }

  lemma OtherVals(kept: seq<KV>, sorted: seq<KV>, i: int, j: int)
    requires multiset(kept) == multiset(sorted) && 0 <= i < j < |sorted|
    requires forall a, b :: 0 <= a < b < |kept| ==> kept[a].val != kept[b].val
    ensures sorted[i].val != sorted[j].val
  {
    PermutedOnceEach(kept, sorted, i, j);
    var a := StandsIn(sorted, kept, i);
    var b := StandsIn(sorted, kept, j);
  }

  /** What was not chosen is no better than any choice. */
  lemma BestOutside(kept: seq<KV>, chosen: seq<KV>, sorted: seq<KV>, n: int, x: KV, i: int)
    requires 0 <= n < |chosen| == |sorted| && multiset(kept) == multiset(chosen) && x in kept && 0 <= i < n
    requires Select.Selected(true, chosen, n) && forall y :: y in sorted[..n] <==> y in chosen[..n]
    requires forall j :: 0 <= j < n ==> sorted[j].val != x.val
    ensures x.key <= sorted[i].key
  {
    assert x in multiset(chosen);
    var b :| 0 <= b < |chosen| && chosen[b] == x;
    assert sorted[..n][i] in chosen[..n];
    var a :| 0 <= a < n && chosen[a] == sorted[i];
    assert forall y :: y in sorted[..n] ==> y.val != x.val;
    OutsidePrefix(chosen, n, x, b);
    assert Select.AtLeast(true, chosen[a], chosen[b]);
  }

  lemma OutsidePrefix(s: seq<KV>, n: int, x: KV, b: int)
    requires 0 <= n <= |s| && x !in s[..n] && 0 <= b < |s| && s[b] == x
    ensures n <= b
  {
    forall k | 0 <= k < n
      ensures s[k] != x
    {
      assert s[..n][k] == s[k];
    }
  }

  // ----- The row view -----

  /** The total weight of column c in the first t query terms. */
  ghost function QueryWeight(q: Search, c: int, t: int): int
    requires q.Valid() && t <= |q.qind|
    decreases t
  {
    if t <= 0 then 0 else QueryWeight(q, c, t - 1) + if q.qind[t - 1] == c then q.qval[t - 1] else 0
  }

  /** The dot product of a stretch of a row with the query. */
  ghost function Dot(q: Search, ind: seq<int>, val: seq<int>, lo: int, hi: int, t: int): int
    requires q.Valid() && t <= |q.qind| && 0 <= lo && hi <= |ind| == |val|
    decreases hi - lo
  {
    if hi <= lo then 0 else Dot(q, ind, val, lo, hi - 1, t) + val[hi - 1] * QueryWeight(q, ind[hi - 1], t)
  }

  ghost function Weighted(s: seq<int>, w: int): int
  {
    if s == [] then 0 else Weighted(s[..|s| - 1], w) + Product(s[|s| - 1], w)
  }

  lemma WeightedAppend(s: seq<int>, x: int, w: int)
    ensures Weighted(s + [x], w) == Weighted(s, w) + Product(x, w) && Weighted(s + [], w) == Weighted(s, w)
  {
    assert (s + [x])[..|s|] == s && s + [] == s;
  }

  lemma WeightedNothing(w: int)
    ensures Weighted([], w) == 0
  {
  }

  lemma {:induction false} PartIsWeighted(q: Search, k: int, lo: int, hi: int, w: int)
    requires q.Valid() && 0 <= lo && hi <= |q.colind|
    ensures Part(q, k, lo, hi, w) == Weighted(Pick(q.colind, q.colval, lo, hi, k), w)
    decreases hi - lo
  {
    hide Product, Weighted;
    WeightedNothing(w);
    if lo < hi {
      PartIsWeighted(q, k, lo, hi - 1, w);
      WeightedAppend(Pick(q.colind, q.colval, lo, hi - 1, k), q.colval[hi - 1], w);
    }
  }

  lemma {:induction false} DotOneTerm(q: Search, ind: seq<int>, val: seq<int>, lo: int, hi: int, t: int)
    requires q.Valid() && 0 < t <= |q.qind| && 0 <= lo && hi <= |ind| == |val|
    ensures Dot(q, ind, val, lo, hi, t) ==
      Dot(q, ind, val, lo, hi, t - 1) + Weighted(Pick(ind, val, lo, hi, q.qind[t - 1]), q.qval[t - 1])
    decreases hi - lo
  {
    hide Product, Weighted;
    WeightedNothing(q.qval[t - 1]);
    if lo < hi {
      DotOneTerm(q, ind, val, lo, hi - 1, t);
      WeightedAppend(Pick(ind, val, lo, hi - 1, q.qind[t - 1]), val[hi - 1], q.qval[t - 1]);
      Distribute(val[hi - 1], QueryWeight(q, ind[hi - 1], t - 1), q.qval[t - 1]);
    }
  }

  lemma Distribute(a: int, b: int, c: int)
    ensures a * (b + c) == a * b + Product(a, c)
  {
  }

  lemma {:induction false} DotNoTerm(q: Search, ind: seq<int>, val: seq<int>, lo: int, hi: int)
    requires q.Valid() && 0 <= lo && hi <= |ind| == |val|
    ensures Dot(q, ind, val, lo, hi, 0) == 0
    decreases hi - lo
  {
    if lo < hi {
      DotNoTerm(q, ind, val, lo, hi - 1);
    }
  }

  /** If the columns are the index of rows, the score of a row is its dot product with the query. */
  lemma {:induction false} ScoreIsDot(q: Search, ptr: seq<int>, ind: seq<int>, val: seq<int>, k: int, t: int)
    requires q.Valid() && ValidCsr(q.nrows, q.ncols, ptr, ind)
             && IsIndex(q.nrows, q.ncols, ptr, ind, q.colptr, q.colind)
    requires |val| == |ind| && ValuesUpTo(ind, val, q.colval, |ind|) && 0 <= k < q.nrows && 0 <= t <= |q.qind|
    ensures 0 <= ptr[k] <= ptr[k + 1] <= |ind|
    ensures Score(q, k, t) == Dot(q, ind, val, ptr[k], ptr[k + 1], t)
    decreases t
  {
    if t == 0 {
      DotNoTerm(q, ind, val, ptr[k], ptr[k + 1]);
    } else {
      ScoreIsDot(q, ptr, ind, val, k, t - 1);
      var c := q.qind[t - 1];
      PartIsWeighted(q, k, q.Begin(t - 1), q.End(t - 1), q.qval[t - 1]);
      DotOneTerm(q, ind, val, ptr[k], ptr[k + 1], t);
      if c < q.ncols {
        ColumnPicksRow(q.nrows, q.ncols, ptr, ind, val, q.colptr, q.colind, q.colval, c, k);
      } else {
        SymmetryCheck.NothingPicked(ind, val, ptr[k], ptr[k + 1], c);
      }
    }
  }

  /** Row k has an entry in a column of one of the first t query terms. */
  ghost predicate Shares(q: Search, ind: seq<int>, lo: int, hi: int, t: int)
    requires t <= |q.qind| && 0 <= lo && hi <= |ind|
  {
    exists s, e :: 0 <= s < t && lo <= e < hi && ind[e] == q.qind[s]
  }

  lemma PickShows(ind: seq<int>, val: seq<int>, lo: int, hi: int, c: int)
    requires 0 <= lo <= hi <= |ind| && hi <= |val|
    ensures |Pick(ind, val, lo, hi, c)| > 0 <==> exists e :: lo <= e < hi && ind[e] == c
  {
    PositionsFacts(ind, lo, hi, c);
    if e :| lo <= e < hi && ind[e] == c {
      var x := PositionsAll(ind, lo, hi, c, e);
    }
    if |Pick(ind, val, lo, hi, c)| > 0 {
      var e := Positions(ind, lo, hi, c)[0];
      assert lo <= e < hi && ind[e] == c;
    }
  }

  /** The touched rows are those that share a column with the query. */
  lemma TouchedIsShared(q: Search, ptr: seq<int>, ind: seq<int>, val: seq<int>, k: int, t: int)
    requires q.Valid() && ValidCsr(q.nrows, q.ncols, ptr, ind)
             && IsIndex(q.nrows, q.ncols, ptr, ind, q.colptr, q.colind)
    requires |val| == |ind| && ValuesUpTo(ind, val, q.colval, |ind|) && 0 <= k < q.nrows && 0 <= t <= |q.qind|
    ensures 0 <= ptr[k] <= ptr[k + 1] <= |ind|
    ensures Touched(q, k, t) <==> Shares(q, ind, ptr[k], ptr[k + 1], t)
  {
    var lo, hi := ptr[k], ptr[k + 1];
    forall s | 0 <= s < t
      ensures In(q, k, q.Begin(s), q.End(s)) <==> exists e :: lo <= e < hi && ind[e] == q.qind[s]
    {
      OneShared(q, ptr, ind, val, k, s);
    }
  }

  lemma OneShared(q: Search, ptr: seq<int>, ind: seq<int>, val: seq<int>, k: int, s: int)
    requires q.Valid() && ValidCsr(q.nrows, q.ncols, ptr, ind)
             && IsIndex(q.nrows, q.ncols, ptr, ind, q.colptr, q.colind)
    requires |val| == |ind| && ValuesUpTo(ind, val, q.colval, |ind|) && 0 <= k < q.nrows && 0 <= s < |q.qind|
    ensures 0 <= ptr[k] <= ptr[k + 1] <= |ind|
    ensures In(q, k, q.Begin(s), q.End(s)) <==> exists e :: ptr[k] <= e < ptr[k + 1] && ind[e] == q.qind[s]
  {
    var c := q.qind[s];
    if c < q.ncols {
      ColumnPicksRow(q.nrows, q.ncols, ptr, ind, val, q.colptr, q.colind, q.colval, c, k);
      PickShows(q.colind, q.colval, q.colptr[c], q.colptr[c + 1], k);
      PickShows(ind, val, ptr[k], ptr[k + 1], c);
    }
  }
}
