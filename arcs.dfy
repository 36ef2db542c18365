/** What construction makes of an edge list: endpoints resolved to
    positions, unresolvable edges dropped, and the adjacency lists that
    tail-appending produces, for directed and undirected graphs; and the
    edge reversal (transpose) of a directed graph. */
module Arcs {
  import opened Common

  /** An edge given by its endpoint values. */
  type Edge<T> = (T, T)

  /** An edge whose endpoints were both found, as (source, destination)
      positions. */
  type Arc = (nat, nat)

  predicate ArcsBelow(arcs: seq<Arc>, n: nat)
  {
    forall k :: 0 <= k < |arcs| ==> arcs[k].0 < n && arcs[k].1 < n
  }

  /** The arcs construction keeps, in edge order: each endpoint is looked
      up by the backward scan and an edge with an endpoint not found is
      skipped. */
  function Resolved<T(==)>(vexs: seq<T>, edges: seq<Edge<T>>): (arcs: seq<Arc>)
    ensures |arcs| <= |edges|
    ensures ArcsBelow(arcs, |vexs|)
  {
    if edges == [] then []
    else
      var e := edges[|edges| - 1];
      var sp, ep := LastIndex(vexs, e.0), LastIndex(vexs, e.1);
      Resolved(vexs, edges[..|edges| - 1]) + (if sp == -1 || ep == -1 then [] else [(sp as nat, ep as nat)])
  }

  /** An edge naming a value that is not a vertex leaves the arcs as they
      were. */
  lemma UnresolvedSkipped<T>(vexs: seq<T>, edges: seq<Edge<T>>, e: Edge<T>)
    requires e.0 !in vexs || e.1 !in vexs
    ensures Resolved(vexs, edges + [e]) == Resolved(vexs, edges)
  {
    assert (edges + [e])[..|edges|] == edges;
  }

  /** A resolved edge adds exactly one arc, at the end, binding each
      endpoint to the last vertex holding that value. */
  lemma ResolvedAppends<T>(vexs: seq<T>, edges: seq<Edge<T>>, e: Edge<T>)
    requires e.0 in vexs && e.1 in vexs
    ensures var arcs := Resolved(vexs, edges + [e]);
      && arcs == Resolved(vexs, edges) + [arcs[|arcs| - 1]]
      && vexs[arcs[|arcs| - 1].0] == e.0 && vexs[arcs[|arcs| - 1].1] == e.1
      && (forall j :: arcs[|arcs| - 1].0 < j < |vexs| ==> vexs[j] != e.0)
      && (forall j :: arcs[|arcs| - 1].1 < j < |vexs| ==> vexs[j] != e.1)
  {
    assert (edges + [e])[..|edges|] == edges;
  }

  /** Resolving one more edge appends at most one arc, the pair of
      positions its endpoints resolve to. */
  lemma ResolvedStep<T>(vexs: seq<T>, edges: seq<Edge<T>>, i: nat)
    requires i < |edges|
    ensures var sp, ep := LastIndex(vexs, edges[i].0), LastIndex(vexs, edges[i].1);
      Resolved(vexs, edges[..i + 1]) ==
        Resolved(vexs, edges[..i]) + (if sp == -1 || ep == -1 then [] else [(sp as nat, ep as nat)])
  {
    assert edges[..i + 1][..i] == edges[..i];
  }

  // ---------------------------------------------------------------------
  // Directed adjacency lists

  /** The destinations of the arcs leaving v, in arc order, duplicates
      kept: what tail-appending each destination to v's list builds. */
  function OutList(arcs: seq<Arc>, v: nat): seq<nat>
  {
    if arcs == [] then []
    else
      var a := arcs[|arcs| - 1];
      OutList(arcs[..|arcs| - 1], v) + (if a.0 == v then [a.1] else [])
  }

  /** The lists of an n-vertex graph built from the given arcs. */
  function OutLists(arcs: seq<Arc>, n: nat): (adj: seq<seq<nat>>)
    ensures |adj| == n
  {
    seq(n, v requires 0 <= v < n => OutList(arcs, v))
  }

  function DirectedLists<T(==)>(vexs: seq<T>, edges: seq<Edge<T>>): (adj: seq<seq<nat>>)
  {
    OutLists(Resolved(vexs, edges), |vexs|)
  }

  /** Destination w occurs in v's list exactly as often as the arc (v, w)
      occurs among the resolved edges. */
  lemma {:induction false} OutListCount(arcs: seq<Arc>, v: nat, w: nat)
    ensures multiset(OutList(arcs, v))[w] == multiset(arcs)[(v, w)]
  {
    if arcs != [] {
      var init := arcs[..|arcs| - 1];
      OutListCount(init, v, w);
      assert arcs == init + [arcs[|arcs| - 1]];
    }
  }

  lemma {:induction false} OutListBelow(arcs: seq<Arc>, v: nat, n: nat)
    requires ArcsBelow(arcs, n)
    ensures Below(OutList(arcs, v), n)
  {
    if arcs != [] {
      OutListBelow(arcs[..|arcs| - 1], v, n);
    }
  }

  /** Directed construction: every list holds only positions of the graph,
      and the number of times w occurs in v's list is the number of
      resolved edges from v to w. */
  lemma DirectedListsSpec<T>(vexs: seq<T>, edges: seq<Edge<T>>)
    ensures var adj := DirectedLists(vexs, edges);
      && |adj| == |vexs|
      && WellFormed(adj)
      && forall v, w :: 0 <= v < |vexs| ==>
           multiset(adj[v])[w] == multiset(Resolved(vexs, edges))[(v, w)]
  {
    var arcs := Resolved(vexs, edges);
    var adj := DirectedLists(vexs, edges);
    forall v | 0 <= v < |vexs|
      ensures Below(adj[v], |vexs|)
    {
      OutListBelow(arcs, v, |vexs|);
    }
    forall v, w | 0 <= v < |vexs|
      ensures multiset(adj[v])[w] == multiset(arcs)[(v, w)]
    {
      OutListCount(arcs, v, w);
    }
  }

  /** One more arc (s, e): e is appended to s's list, no other list
      changes. */
  lemma OutListsAppend(arcs: seq<Arc>, a: Arc, n: nat)
    requires a.0 < n
    ensures OutLists(arcs + [a], n) == OutLists(arcs, n)[a.0 := OutLists(arcs, n)[a.0] + [a.1]]
  {
    assert (arcs + [a])[..|arcs|] == arcs;
    var after := OutLists(arcs + [a], n);
    forall v | 0 <= v < n
      ensures after[v] == OutLists(arcs, n)[a.0 := OutLists(arcs, n)[a.0] + [a.1]][v]
    {
      assert after[v] == OutList(arcs + [a], v);
    }
  }

  // ---------------------------------------------------------------------
  // Undirected adjacency lists

  /** For each arc (s, e) in order: e is appended to s's list, then s to
      e's list; a self-loop therefore appends s to its own list twice. */
  function IncidentList(arcs: seq<Arc>, v: nat): seq<nat>
  {
    if arcs == [] then []
    else
      var a := arcs[|arcs| - 1];
      IncidentList(arcs[..|arcs| - 1], v)
        + (if a.0 == v then [a.1] else [])
        + (if a.1 == v then [a.0] else [])
  }

  function IncidentLists(arcs: seq<Arc>, n: nat): (adj: seq<seq<nat>>)
    ensures |adj| == n
  {
    seq(n, v requires 0 <= v < n => IncidentList(arcs, v))
  }

  function UndirectedLists<T(==)>(vexs: seq<T>, edges: seq<Edge<T>>): (adj: seq<seq<nat>>)
  {
    IncidentLists(Resolved(vexs, edges), |vexs|)
  }

  /** w occurs in v's list once for every arc (v, w) and once for every arc
      (w, v); for a self-loop both terms count the same arc. */
  lemma {:induction false} IncidentListCount(arcs: seq<Arc>, v: nat, w: nat)
    ensures multiset(IncidentList(arcs, v))[w] == multiset(arcs)[(v, w)] + multiset(arcs)[(w, v)]
  {
    if arcs != [] {
      var init := arcs[..|arcs| - 1];
      IncidentListCount(init, v, w);
      assert arcs == init + [arcs[|arcs| - 1]];
    }
  }

  lemma {:induction false} IncidentListBelow(arcs: seq<Arc>, v: nat, n: nat)
    requires ArcsBelow(arcs, n)
    ensures Below(IncidentList(arcs, v), n)
  {
    if arcs != [] {
      IncidentListBelow(arcs[..|arcs| - 1], v, n);
    }
  }

  /** Undirected adjacency is symmetric as multisets: w occurs in v's list
      as often as v occurs in w's. */
  lemma IncidentSymmetric(arcs: seq<Arc>, v: nat, w: nat)
    ensures multiset(IncidentList(arcs, v))[w] == multiset(IncidentList(arcs, w))[v]
  {
    IncidentListCount(arcs, v, w);
    IncidentListCount(arcs, w, v);
  }

  /** Symmetric lists: the adjacency relation read off the lists is
      symmetric. */
  predicate Symmetric(adj: seq<seq<nat>>)
  {
    forall v, w :: 0 <= v < |adj| && 0 <= w < |adj| ==> (w in adj[v] <==> v in adj[w])
  }

  /** Undirected construction: lists hold only positions of the graph, w
      occurs in v's list once per resolved edge joining them (either
      orientation), and the adjacency is symmetric. */
  lemma UndirectedListsSpec<T>(vexs: seq<T>, edges: seq<Edge<T>>)
    ensures var adj := UndirectedLists(vexs, edges);
      var arcs := Resolved(vexs, edges);
      && |adj| == |vexs|
      && WellFormed(adj)
      && Symmetric(adj)
      && forall v, w :: 0 <= v < |vexs| ==>
           multiset(adj[v])[w] == multiset(arcs)[(v, w)] + multiset(arcs)[(w, v)]
  {
    var arcs := Resolved(vexs, edges);
    var adj := UndirectedLists(vexs, edges);
    forall v | 0 <= v < |vexs|
      ensures Below(adj[v], |vexs|)
    {
      IncidentListBelow(arcs, v, |vexs|);
    }
    forall v, w | 0 <= v < |vexs|
      ensures multiset(adj[v])[w] == multiset(arcs)[(v, w)] + multiset(arcs)[(w, v)]
    {
      IncidentListCount(arcs, v, w);
    }
    forall v, w | 0 <= v < |adj| && 0 <= w < |adj|
      ensures w in adj[v] <==> v in adj[w]
    {
      IncidentSymmetric(arcs, v, w);
    }
  }

  /** One more arc (s, e): e is appended to s's list, then s to e's
      list, no other list changes. */
  lemma IncidentListsAppend(arcs: seq<Arc>, a: Arc, n: nat)
    requires a.0 < n && a.1 < n
    ensures var before := IncidentLists(arcs, n);
      var mid := before[a.0 := before[a.0] + [a.1]];
      IncidentLists(arcs + [a], n) == mid[a.1 := mid[a.1] + [a.0]]
  {
    assert (arcs + [a])[..|arcs|] == arcs;
    var before := IncidentLists(arcs, n);
    var mid := before[a.0 := before[a.0] + [a.1]];
    var after := IncidentLists(arcs + [a], n);
    forall v | 0 <= v < n
      ensures after[v] == mid[a.1 := mid[a.1] + [a.0]][v]
    {
      assert after[v] == IncidentList(arcs + [a], v);
      assert before[v] == IncidentList(arcs, v);
    }
  }

  /** A self-loop edge on a vertex appends that vertex twice to its own
      list. */
  lemma SelfLoopTwice(arcs: seq<Arc>, v: nat)
    ensures IncidentList(arcs + [(v, v)], v) == IncidentList(arcs, v) + [v, v]
  {
    assert (arcs + [(v, v)])[..|arcs|] == arcs;
  }

  // ---------------------------------------------------------------------
  // Edge reversal

  function Repeat(x: nat, c: nat): (r: seq<nat>)
    ensures |r| == c && forall k :: 0 <= k < c ==> r[k] == x
  {
    seq(c, _ => x)
  }

  /** The list reversal builds for j after scanning sources 0 .. k-1: each
      source i appears once per occurrence of j in i's list, sources in
      ascending order. */
  function Sources(adj: seq<seq<nat>>, j: nat, k: nat): seq<nat>
    requires k <= |adj|
  {
    if k == 0 then [] else Sources(adj, j, k - 1) + Repeat(k - 1, multiset(adj[k - 1])[j])
  }

  /** The reversed graph: same positions, every arc i -> j turned into
      j -> i. */
  function Transposed(adj: seq<seq<nat>>): (t: seq<seq<nat>>)
    ensures |t| == |adj|
  {
    seq(|adj|, j requires 0 <= j < |adj| => Sources(adj, j, |adj|))
  }

  lemma {:induction false} SourcesCount(adj: seq<seq<nat>>, j: nat, k: nat, i: nat)
    requires k <= |adj|
    ensures multiset(Sources(adj, j, k))[i] == if i < k then multiset(adj[i])[j] else 0
  {
    if k > 0 {
      SourcesCount(adj, j, k - 1, i);
      RepeatCount(k - 1, multiset(adj[k - 1])[j], i);
    }
  }

  lemma {:induction false} RepeatCount(x: nat, c: nat, i: nat)
    ensures multiset(Repeat(x, c))[i] == if i == x then c else 0
  {
    if c > 0 {
      RepeatCount(x, c - 1, i);
      assert Repeat(x, c) == Repeat(x, c - 1) + [x];
    }
  }

  lemma {:induction false} SourcesBelow(adj: seq<seq<nat>>, j: nat, k: nat)
    requires k <= |adj|
    ensures Below(Sources(adj, j, k), k)
  {
    if k > 0 {
      SourcesBelow(adj, j, k - 1);
    }
  }

  /** The transpose is again well formed, and the arc j -> i occurs in it
      exactly as often as i -> j occurs in the graph. */
  lemma TransposedSpec(adj: seq<seq<nat>>)
    ensures WellFormed(Transposed(adj))
    ensures forall i, j :: 0 <= i < |adj| && 0 <= j < |adj| ==>
      multiset(Transposed(adj)[j])[i] == multiset(adj[i])[j]
  {
    forall j | 0 <= j < |adj|
      ensures Below(Transposed(adj)[j], |adj|)
    {
      SourcesBelow(adj, j, |adj|);
    }
    forall i, j | 0 <= i < |adj| && 0 <= j < |adj|
      ensures multiset(Transposed(adj)[j])[i] == multiset(adj[i])[j]
    {
      SourcesCount(adj, j, |adj|, i);
    }
  }

  /** Reversing twice gives back every list up to order: the same
      destinations with the same multiplicities. */
  lemma TransposeTwice(adj: seq<seq<nat>>)
    requires WellFormed(adj)
    ensures |Transposed(Transposed(adj))| == |adj|
    ensures forall i :: 0 <= i < |adj| ==> multiset(Transposed(Transposed(adj))[i]) == multiset(adj[i])
  {
    var t := Transposed(adj);
    var tt := Transposed(t);
    TransposedSpec(adj);
    TransposedSpec(t);
    forall i | 0 <= i < |adj|
      ensures multiset(tt[i]) == multiset(adj[i])
    {
      forall j: nat
        ensures multiset(tt[i])[j] == multiset(adj[i])[j]
      {
        if j < |adj| {
          assert multiset(tt[i])[j] == multiset(t[j])[i];
        } else {
          NotBelowCount(tt[i], |adj|, j);
          NotBelowCount(adj[i], |adj|, j);
        }
      }
    }
  }

  /** Helper (a rewrite step for the solver): a value at or above the
      bound does not occur. */
  lemma NotBelowCount(s: seq<nat>, n: nat, j: nat)
    requires Below(s, n) && j >= n
    ensures multiset(s)[j] == 0
  {
  }

  /** Each reversed list is in ascending order of source position. */
  lemma {:induction false} SourcesSorted(adj: seq<seq<nat>>, j: nat, k: nat)
    requires k <= |adj|
    ensures forall a, b :: 0 <= a < b < |Sources(adj, j, k)| ==> Sources(adj, j, k)[a] <= Sources(adj, j, k)[b]
  {
    if k > 0 {
      SourcesSorted(adj, j, k - 1);
      SourcesBelow(adj, j, k - 1);
    }
  }
}
