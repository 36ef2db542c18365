/** Vocabulary shared by every graph of the model: vertex lookup by a
    backward scan, duplicate-free sequences, and the set of positions
    [0, n). */
module Common {

  /** The only error the graphs raise: a vertex position outside
      [0, vertexSize). */
  datatype Error = IndexOutOfBounds

  datatype Result<T> = Success(value: T) | Failure(error: Error)

  /** The positions 0 .. n-1. */
  function Range(n: nat): (r: set<nat>)
    ensures forall k: nat :: k in r <==> k < n
  {
    if n == 0 then {} else Range(n - 1) + {n - 1}
  }

  /** The elements of a sequence, as a set. */
  function Elems(s: seq<nat>): set<nat>
  {
    set x | x in s
  }

  predicate NoDup(s: seq<nat>)
  {
    forall i, j :: 0 <= i < j < |s| ==> s[i] != s[j]
  }

  lemma NoDupConcat(a: seq<nat>, b: seq<nat>)
    requires NoDup(a) && NoDup(b) && Elems(a) !! Elems(b)
    ensures NoDup(a + b)
  {
    forall i, j | 0 <= i < j < |a + b|
      ensures (a + b)[i] != (a + b)[j]
    {
      if i < |a| && j >= |a| {
        assert (a + b)[i] in Elems(a) && (a + b)[j] in Elems(b);
      }
    }
  }

  /** Every element is a valid position below n. */
  predicate Below(s: seq<nat>, n: nat)
  {
    forall k :: 0 <= k < |s| ==> s[k] < n
  }

  /** Adjacency lists whose every entry is a position of the graph. */
  predicate WellFormed(adj: seq<seq<nat>>)
  {
    forall v, k :: 0 <= v < |adj| && 0 <= k < |adj[v]| ==> adj[v][k] < |adj|
  }

  /** The largest position whose value is x, or -1 when x does not occur:
      the answer of the backward scan every graph uses to resolve an edge
      endpoint. */
  function LastIndex<T(==)>(vs: seq<T>, x: T): (r: int)
    ensures -1 <= r < |vs|
    ensures r == -1 <==> x !in vs
    ensures r >= 0 ==> vs[r] == x && forall j :: r < j < |vs| ==> vs[j] != x
  {
    if vs == [] then -1
    else if vs[|vs| - 1] == x then |vs| - 1
    else LastIndex(vs[..|vs| - 1], x)
  }

  /** The scan itself: from the last position down to 0, stop at the first
      match. */
  method IndexOf<T(==)>(vs: seq<T>, x: T) returns (r: int)
    ensures r == LastIndex(vs, x)
  {
    var i := |vs| - 1;
    while i >= 0
      invariant -1 <= i < |vs|
      invariant forall j :: i < j < |vs| ==> vs[j] != x
    {
      if vs[i] == x {
        return i;
      }
      i := i - 1;
    }
    return -1;
  }

  /** The elements of a sequence without duplicates are as many as its
      length. */
  lemma {:induction false} NoDupCard(s: seq<nat>)
    requires NoDup(s)
    ensures |Elems(s)| == |s|
  {
    if s != [] {
      var t := s[..|s| - 1];
      assert NoDup(t);
      NoDupCard(t);
      assert Elems(s) == Elems(t) + {s[|s| - 1]};
      assert s[|s| - 1] !in Elems(t);
    }
  }

  lemma {:induction false} RangeCard(n: nat)
    ensures |Range(n)| == n
  {
    if n > 0 {
      RangeCard(n - 1);
    }
  }

  lemma SubsetCard<T>(a: set<T>, b: set<T>)
    requires a <= b
    ensures |a| <= |b|
  {
    assert b == a + (b - a);
  }

  /** A duplicate-free sequence of positions below n is no longer than n:
      the reason a queue of n slots never overflows. */
  lemma NoDupBelowBound(s: seq<nat>, n: nat)
    requires NoDup(s) && Below(s, n)
    ensures |s| <= n
  {
    NoDupCard(s);
    RangeCard(n);
    SubsetCard(Elems(s), Range(n));
  }

  /** A set of positions below n has at most n elements. */
  lemma SetBelowBound(a: set<nat>, n: nat)
    requires forall x :: x in a ==> x < n
    ensures |a| <= n
  {
    RangeCard(n);
    SubsetCard(a, Range(n));
  }
}
