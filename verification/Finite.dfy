/** Small facts about finite sets of vertices, nodes and slots. */
module Finite {

  /** The set {0, ..., n-1}. */
  ghost function Below(n: nat): (s: set<int>)
    ensures forall v :: v in s <==> 0 <= v < n
    ensures |s| == n
  {
    if n == 0 then {} else Below(n - 1) + {n - 1}
  }

  lemma {:induction false} CardinalityMonotone<T>(s: set<T>, t: set<T>)
    requires s <= t
    ensures |s| <= |t|
  {
    if s != {} {
      var x :| x in s;
      CardinalityMonotone(s - {x}, t - {x});
    }
  }

  /** Distinct elements, counted. */
  lemma {:induction false} DistinctCount<T>(o: seq<T>)
    requires forall i, j :: 0 <= i < j < |o| ==> o[i] != o[j]
    ensures |set v | v in o| == |o|
  {
    if o != [] {
      var n := |o| - 1;
      DistinctCount(o[..n]);
      assert o == o[..n] + [o[n]];
      assert (set v | v in o) == (set v | v in o[..n]) + {o[n]};
    }
  }

  function Pow2(n: nat): (p: nat)
    ensures p > 0
  {
    if n == 0 then 1 else 2 * Pow2(n - 1)
  }

  lemma {:induction false} Pow2Grows(m: nat, n: nat)
    requires m <= n
    ensures Pow2(m) <= Pow2(n)
  {
    if m < n {
      Pow2Grows(m, n - 1);
    }
  }

  lemma SomeElement<T>(s: set<T>) returns (x: T)
    requires s != {}
    ensures x in s
  {
    x :| x in s;
  }
}
