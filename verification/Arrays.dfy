/** Array set-up shared by the graph routines. */
module Arrays {

  /** gk_i32smalloc: a new array with one value everywhere. */
  method Filled(n: nat, x: int) returns (a: array<int>)
    ensures fresh(a) && a[..] == seq(n, _ => x)
  {
    a := new int[n](_ => x);
  }

  function Fronted(n: nat, v: int): seq<int>
  {
    seq(n, k => if k == 0 then v else if k == v then 0 else k)
  }

  /** The list 0, 1, ..., n-1 with v and 0 exchanged, together with its inverse, which is the
      same list: the common first step of the BFS and the best-first ordering. */
  method FrontFirst(n: nat, v: int) returns (list: array<int>, pos: array<int>)
    requires 0 <= v < n
    ensures fresh(list) && fresh(pos) && list != pos
    ensures list[..] == pos[..] == Fronted(n, v)
  {
    pos := new int[n](k => k);
    list := new int[n](k => k);
    list[0] := v;
    pos[0] := v;
    list[v] := 0;
    pos[v] := 0;
  }

  /** Two sequences are permutations of their indices, inverse to each other. */
  ghost predicate Inverse(perm: seq<int>, order: seq<int>)
  {
    && |perm| == |order|
    && (forall u :: 0 <= u < |perm| ==> 0 <= perm[u] < |order| && order[perm[u]] == u)
    && (forall k :: 0 <= k < |order| ==> 0 <= order[k] < |perm| && perm[order[k]] == k)
  }

  /** Writes the inverse of one array into another. */
  method InvertInto(n: int, ghost order: seq<int>, perm: array<int>, iperm: array<int>)
    requires perm != iperm && perm.Length == iperm.Length == n == |order| && Inverse(perm[..], order)
    modifies iperm
    ensures iperm[..] == order
  {
    for i := 0 to n
      invariant forall u :: 0 <= u < i ==> iperm[perm[u]] == u
    {
      iperm[perm[i]] := i;
    }
    forall k | 0 <= k < n
      ensures iperm[k] == order[k]
    {
      assert iperm[perm[order[k]]] == order[k];
    }
  }
}
