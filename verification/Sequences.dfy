/** Sums, slices and bags of sequences. */
module Sequences {

  ghost function Sum(s: seq<int>): int
  {
    if s == [] then 0 else Sum(s[..|s| - 1]) + s[|s| - 1]
  }

  lemma SumAppend(s: seq<int>, x: int)
    ensures Sum(s + [x]) == Sum(s) + x
  {
    assert (s + [x])[..|s|] == s;
  }

  lemma SumPrefix(s: seq<int>, n: int)
    requires 0 <= n < |s|
    ensures Sum(s[..n + 1]) == Sum(s[..n]) + s[n]
  {
    assert s[..n + 1][..n] == s[..n];
  }

  lemma {:induction false} SumConcat(s: seq<int>, t: seq<int>)
    ensures Sum(s + t) == Sum(s) + Sum(t)
    decreases |t|
  {
    if t == [] {
      assert s + t == s;
    } else {
      assert (s + t)[..|s + t| - 1] == s + t[..|t| - 1];
      SumConcat(s, t[..|t| - 1]);
    }
  }

  /** A stretch without its last element. */
  lemma SliceFront<T>(s: seq<T>, lo: int, hi: int)
    requires 0 <= lo < hi <= |s|
    ensures s[lo..hi] == s[lo..hi - 1] + [s[hi - 1]]
    ensures s[lo..hi][..hi - 1 - lo] == s[lo..hi - 1] && s[lo..hi][hi - 1 - lo] == s[hi - 1]
  {
  }

  /** Equal stretches have equal fronts and last elements. */
  lemma FrontEqual<T>(s: seq<T>, lo: int, hi: int, s': seq<T>, lo': int, hi': int)
    requires 0 <= lo < hi <= |s| && 0 <= lo' < hi' <= |s'| && s[lo..hi] == s'[lo'..hi']
    ensures hi - lo == hi' - lo' && s[lo..hi - 1] == s'[lo'..hi' - 1] && s[hi - 1] == s'[hi' - 1]
  {
    assert |s[lo..hi]| == |s'[lo'..hi']|;
    SliceFront(s, lo, hi);
    SliceFront(s', lo', hi');
  }

  lemma Associative<T>(a: seq<T>, b: seq<T>, c: seq<T>)
    ensures a + b + c == a + (b + c)
  {
  }

  /** Taking out one element takes it out of the bag. */
  lemma TakeOut<T>(s: seq<T>, j: int)
    requires 0 <= j < |s|
    ensures s == s[..j] + [s[j]] + s[j + 1..]
    ensures multiset(s[..j] + s[j + 1..]) == multiset(s) - multiset{s[j]}
  {
    assert s == s[..j] + [s[j]] + s[j + 1..];
  }

  /** An element of a bag stands somewhere in the sequence. */
  lemma StandsIn<T>(s: seq<T>, t: seq<T>, i: int) returns (j: int)
    requires multiset(s) == multiset(t) && 0 <= i < |s|
    ensures 0 <= j < |t| && t[j] == s[i]
  {
    assert s[i] in multiset(t);
    j :| 0 <= j < |t| && t[j] == s[i];
  }

  lemma {:induction false} OnceEach<T>(s: seq<T>, x: T)
    requires forall i, j :: 0 <= i < j < |s| ==> s[i] != s[j]
    ensures multiset(s)[x] <= 1
  {
    if s != [] {
      var n := |s| - 1;
      OnceEach(s[..n], x);
      assert s == s[..n] + [s[n]];
      assert s[n] !in s[..n];
    }
  }

  /** Different elements stay different in any order. */
  lemma PermutedOnceEach<T>(s: seq<T>, t: seq<T>, i: int, j: int)
    requires multiset(s) == multiset(t) && 0 <= i < j < |t|
    requires forall a, b :: 0 <= a < b < |s| ==> s[a] != s[b]
    ensures t[i] != t[j]
  {
    OnceEach(s, t[i]);
    assert t == t[..j] + t[j..];
    assert t[i] in t[..j] && t[j] in t[j..];
    assert multiset(t) == multiset(t[..j]) + multiset(t[j..]);
  }
}
