/** What a "no cycle" answer says about an undirected graph. When the
    corrected cycle search reports nothing, every list entry it scans is
    either a tree edge of the search or the way back to the parent, and each
    tree edge is listed exactly once at each end. So the lists hold exactly
    two entries per tree edge: the graph has as many edges as vertices less
    the number of search trees, which is the edge count of a forest. A graph
    with at least as many edges as vertices is therefore reported cyclic. */
module Forests {
  import opened Common
  import opened Arcs
  import opened Traversal
  import opened Cycles

  /** Undirected lists: w occurs in v's list as often as v occurs in w's. */
  ghost predicate Undirected(adj: seq<seq<nat>>)
  {
    forall v, w :: 0 <= v < |adj| && 0 <= w < |adj| ==> multiset(adj[v])[w] == multiset(adj[w])[v]
  }

  /** The total length of the lists of the vertices xs. */
  function Lengths(adj: seq<seq<nat>>, xs: seq<nat>): nat
    requires Below(xs, |adj|)
  {
    if xs == [] then 0 else |adj[xs[0]]| + Lengths(adj, xs[1..])
  }

  /** The total length of the lists of the vertices 0 .. k-1. */
  function ListTotal(adj: seq<seq<nat>>, k: nat): nat
    requires k <= |adj|
  {
    if k == 0 then 0 else ListTotal(adj, k - 1) + |adj[k - 1]|
  }

  /** How often the parent u occurs in ns; no vertex (-1) never does. */
  function ParentCount(ns: seq<nat>, u: int): nat
  {
    if u < 0 then 0 else multiset(ns)[u as nat]
  }

  /** Helper: the length total of a concatenation. */
  lemma {:induction false} LengthsConcat(adj: seq<seq<nat>>, a: seq<nat>, b: seq<nat>)
    requires Below(a, |adj|) && Below(b, |adj|)
    ensures Below(a + b, |adj|) && Lengths(adj, a + b) == Lengths(adj, a) + Lengths(adj, b)
  {
    if a != [] {
      assert (a + b)[0] == a[0] && (a + b)[1..] == a[1..] + b;
      LengthsConcat(adj, a[1..], b);
    } else {
      assert a + b == b;
    }
  }

  /** Helper: dropping the entry at j from a duplicate-free sequence
      drops exactly that value. */
  lemma DropAt(xs: seq<nat>, j: nat)
    requires NoDup(xs) && j < |xs|
    ensures var rest := xs[..j] + xs[j + 1..];
      NoDup(rest) && Elems(rest) == Elems(xs) - {xs[j]}
  {
    var rest := xs[..j] + xs[j + 1..];
    forall a, b | 0 <= a < b < |rest|
      ensures rest[a] != rest[b]
    {
      var a' := if a < j then a else a + 1;
      var b' := if b < j then b else b + 1;
      assert rest[a] == xs[a'] && rest[b] == xs[b'];
    }
    forall x | x in Elems(rest)
      ensures x in Elems(xs) - {xs[j]}
    {
      var i :| 0 <= i < |rest| && rest[i] == x;
      var i' := if i < j then i else i + 1;
      assert rest[i] == xs[i'] && xs[i'] in Elems(xs) && i' != j;
    }
    forall x | x in Elems(xs) - {xs[j]}
      ensures x in Elems(rest)
    {
      var i :| 0 <= i < |xs| && xs[i] == x;
      if i < j {
        assert rest[i] == x;
      } else {
        assert rest[i - 1] == x;
      }
    }
  }

  /** Helper: listing every vertex below k once, in any order, gives the
      same total as counting the lists in position order. */
  lemma {:induction false} LengthsOfAll(adj: seq<seq<nat>>, xs: seq<nat>, k: nat)
    requires k <= |adj| && NoDup(xs) && Elems(xs) == Range(k)
    ensures Below(xs, |adj|) && Lengths(adj, xs) == ListTotal(adj, k)
    decreases k
  {
    assert Below(xs, |adj|) by {
      forall j | 0 <= j < |xs|
        ensures xs[j] < |adj|
      {
        assert xs[j] in Elems(xs);
      }
    }
    if k > 0 {
      assert k - 1 in Elems(xs);
      var j :| 0 <= j < |xs| && xs[j] == k - 1;
      var rest := xs[..j] + xs[j + 1..];
      DropAt(xs, j);
      assert Elems(rest) == Range(k - 1);
      LengthsOfAll(adj, rest, k - 1);
      LengthsDrop(adj, xs, j);
    } else {
      NoDupCard(xs);
    }
  }

  /** Helper: the total with the entry at j left out. */
  lemma LengthsDrop(adj: seq<seq<nat>>, xs: seq<nat>, j: nat)
    requires Below(xs, |adj|) && j < |xs|
    ensures Below(xs[..j] + xs[j + 1..], |adj|)
    ensures Lengths(adj, xs) == |adj[xs[j]]| + Lengths(adj, xs[..j] + xs[j + 1..])
  {
    assert xs == (xs[..j] + [xs[j]]) + xs[j + 1..];
    LengthsConcat(adj, xs[..j] + [xs[j]], xs[j + 1..]);
    LengthsConcat(adj, xs[..j], [xs[j]]);
    LengthsConcat(adj, xs[..j], xs[j + 1..]);
    assert Lengths(adj, [xs[j]]) == |adj[xs[j]]| by {
      assert [xs[j]][1..] == [];
    }
  }

  // ---------------------------------------------------------------------
  // Counting list entries along the cycle search

  /** The search from v (unmarked) reached from u: when it reports no
      cycle it marks what the plain depth-first visit marks, and the lists
      of those vertices hold two entries per tree edge below v plus v's
      entries for u. */
  lemma {:induction false} VisitCount(adj: seq<seq<nat>>, vs: set<nat>, v: nat, u: int)
    requires WellFormed(adj) && Undirected(adj) && v < |adj| && v !in vs
    requires u == -1 || (0 <= u < |adj| && u in vs)
    ensures var r := CycleVisit(adj, vs, v, u);
      var w := Visit(adj, vs, v);
      !r.found ==> r.visited == w.visited && Lengths(adj, w.pre) + 2 == 2 * |w.pre| + ParentCount(adj[v], u)
    decreases Unvisited(|adj|, vs), 0
  {
    ScanCount(adj, vs + {v}, v, u, [], adj[v]);
    var s := VisitAll(adj, vs + {v}, adj[v]);
    assert ([v] + s.pre)[1..] == s.pre;
  }

  /** The scan of the part ns of v's list that follows the entries done
      (all of them marked): when no cycle is reported, it marks what the
      plain loop marks, every entry of ns marked beforehand is the parent,
      and the lists of the newly marked vertices together with ns hold two
      entries per newly marked vertex plus the parent entries of ns. */
  lemma {:induction false} ScanCount(adj: seq<seq<nat>>, vs: set<nat>, v: nat, u: int, done: seq<nat>, ns: seq<nat>)
    requires WellFormed(adj) && Undirected(adj) && v < |adj| && v in vs && Below(ns, |adj|)
    requires u == -1 || (0 <= u < |adj| && u in vs)
    requires adj[v] == done + ns && Elems(done) <= vs
    ensures var r := CycleScan(adj, vs, v, u, ns);
      var w := VisitAll(adj, vs, ns);
      !r.found ==>
        && r.visited == w.visited
        && Lengths(adj, w.pre) + |ns| == 2 * |w.pre| + ParentCount(ns, u)
        && forall y :: y in ns && y in vs ==> y == u
    decreases Unvisited(|adj|, vs), 1, |ns|, 1
  {
    if ns != [] {
      var x := ns[0];
      var rest := ns[1..];
      if x !in vs {
        ChildCount(adj, vs, v, u, done, ns);
      } else if x == u {
        assert ns == [x] + rest;
        assert adj[v] == (done + [x]) + rest;
        ScanCount(adj, vs, v, u, done + [x], rest);
      }
    }
  }

  /** Helper: an entry x of v's list that occurs neither before nor
      after its place there occurs in v's list once, so v occurs in x's
      list once. */
  lemma ChildOnce(adj: seq<seq<nat>>, v: nat, x: nat, done: seq<nat>, rest: seq<nat>)
    requires Undirected(adj) && v < |adj| && x < |adj|
    requires adj[v] == done + ([x] + rest) && x !in done && x !in rest
    ensures ParentCount(adj[x], v) == 1
  {
    assert multiset(adj[v]) == multiset(done) + multiset([x]) + multiset(rest);
  }

  /** The scan step at an unmarked entry x: the search below x reports
      nothing only if x occurs nowhere else in v's list, so its list names v
      exactly once. */
  lemma {:induction false} ChildCount(adj: seq<seq<nat>>, vs: set<nat>, v: nat, u: int, done: seq<nat>, ns: seq<nat>)
    requires WellFormed(adj) && Undirected(adj) && v < |adj| && v in vs && Below(ns, |adj|)
    requires u == -1 || (0 <= u < |adj| && u in vs)
    requires adj[v] == done + ns && Elems(done) <= vs
    requires ns != [] && ns[0] !in vs
    ensures var r := CycleScan(adj, vs, v, u, ns);
      var w := VisitAll(adj, vs, ns);
      !r.found ==>
        && r.visited == w.visited
        && Lengths(adj, w.pre) + |ns| == 2 * |w.pre| + ParentCount(ns, u)
        && forall y :: y in ns && y in vs ==> y == u
    decreases Unvisited(|adj|, vs), 1, |ns|, 0
  {
    var x := ns[0];
    var rest := ns[1..];
    assert ns == [x] + rest;
    var a := CycleVisit(adj, vs, x, v);
    var va := Visit(adj, vs, x);
    assert x in Unvisited(|adj|, vs) - Unvisited(|adj|, a.visited);
    VisitCount(adj, vs, x, v);
    var b := CycleScan(adj, a.visited, v, u, rest);
    assert CycleScan(adj, vs, v, u, ns) == Probe(b.visited, a.found || b.found);
    if !a.found && !b.found {
      assert adj[v] == (done + [x]) + rest;
      ScanCount(adj, a.visited, v, u, done + [x], rest);
      var vb := VisitAll(adj, va.visited, rest);
      assert VisitAll(adj, vs, ns) == Walk(vb.visited, va.pre + vb.pre, va.post + vb.post);
      ChildOnce(adj, v, x, done, rest);
      assert ParentCount(ns, u) == ParentCount(rest, u) by {
        if u >= 0 {
          assert multiset(ns) == multiset([x]) + multiset(rest);
        }
      }
      LengthsConcat(adj, va.pre, vb.pre);
    }
  }

  /** The outer loop of the corrected search: when no cycle is reported,
      the lists of the vertices it marks hold two entries per marked vertex
      less two per search tree. */
  lemma {:induction false} RootsCount(adj: seq<seq<nat>>, vs: set<nat>, i: nat)
    requires WellFormed(adj) && Undirected(adj) && i <= |adj|
    ensures var r := CycleRoots(adj, vs, i, false);
      var w := Roots(adj, vs, i);
      !r.found ==> r.visited == w.visited && Lengths(adj, w.pre) + 2 * Trees(adj, vs, i) == 2 * |w.pre|
    decreases |adj| - i
  {
    if i < |adj| {
      if i in vs {
        RootsCount(adj, vs, i + 1);
      } else {
        var a := CycleVisit(adj, vs, i, -1);
        var va := Visit(adj, vs, i);
        VisitCount(adj, vs, i, -1);
        var b := CycleRoots(adj, a.visited, i + 1, false);
        if !a.found && !b.found {
          RootsCount(adj, a.visited, i + 1);
          LengthsConcat(adj, va.pre, Roots(adj, va.visited, i + 1).pre);
        }
      }
    }
  }

  /** A graph of undirected lists that the corrected search finds acyclic
      is a forest: its lists hold two entries per vertex less two per
      search tree. */
  lemma AcyclicCount(adj: seq<seq<nat>>)
    requires WellFormed(adj) && Undirected(adj)
    ensures !Cyclic(adj) ==> ListTotal(adj, |adj|) + 2 * Trees(adj, {}, 0) == 2 * |adj|
  {
    RootsCount(adj, {}, 0);
    DfsOrderSpec(adj);
    LengthsOfAll(adj, DfsOrder(adj), |adj|);
  }

  // ---------------------------------------------------------------------
  // Edges of a graph built from an edge list

  /** Helper: one list grows by s entries, the total grows by s. */
  lemma {:induction false} ListTotalUpdate(adj: seq<seq<nat>>, x: nat, s: seq<nat>, k: nat)
    requires x < k <= |adj|
    ensures ListTotal(adj[x := s], k) + |adj[x]| == ListTotal(adj, k) + |s|
  {
    if x < k - 1 {
      ListTotalUpdate(adj, x, s, k - 1);
    } else {
      assert adj[x := s][..k - 1] == adj[..k - 1];
      ListTotalPrefix(adj, adj[x := s], k - 1);
    }
  }

  /** Helper: the total of the first k lists depends on those lists only. */
  lemma {:induction false} ListTotalPrefix(a: seq<seq<nat>>, b: seq<seq<nat>>, k: nat)
    requires k <= |a| && k <= |b| && a[..k] == b[..k]
    ensures ListTotal(a, k) == ListTotal(b, k)
  {
    if k > 0 {
      assert a[k - 1] == a[..k][k - 1] == b[..k][k - 1] == b[k - 1];
      assert a[..k - 1] == a[..k][..k - 1] && b[..k - 1] == b[..k][..k - 1];
      ListTotalPrefix(a, b, k - 1);
    }
  }

  /** Every arc adds one entry to the list of each endpoint (two to a
      self-loop's vertex), so the lists hold two entries per arc. */
  lemma {:induction false} IncidentTotal(arcs: seq<Arc>, n: nat)
    requires ArcsBelow(arcs, n)
    ensures ListTotal(IncidentLists(arcs, n), n) == 2 * |arcs|
  {
    if arcs == [] {
      ZeroTotal(IncidentLists(arcs, n), n);
    } else {
      var init := arcs[..|arcs| - 1];
      var a := arcs[|arcs| - 1];
      assert arcs == init + [a];
      assert ArcsBelow(init, n);
      IncidentTotal(init, n);
      IncidentListsAppend(init, a, n);
      var before := IncidentLists(init, n);
      var mid := before[a.0 := before[a.0] + [a.1]];
      ListTotalUpdate(before, a.0, before[a.0] + [a.1], n);
      ListTotalUpdate(mid, a.1, mid[a.1] + [a.0], n);
    }
  }

  /** Helper: lists that are all empty total nothing. */
  lemma {:induction false} ZeroTotal(adj: seq<seq<nat>>, k: nat)
    requires k <= |adj| && forall x :: 0 <= x < k ==> adj[x] == []
    ensures ListTotal(adj, k) == 0
  {
    if k > 0 {
      ZeroTotal(adj, k - 1);
    }
  }

  /** The undirected graph built from vexs and edges, when its cycle search
      reports nothing, has exactly as many resolved edges as vertices less
      search trees; so a graph with at least as many resolved edges as
      vertices is reported cyclic. */
  lemma ForestEdges<T>(vexs: seq<T>, edges: seq<Edge<T>>)
    ensures var adj := UndirectedLists(vexs, edges);
      && WellFormed(adj) && |adj| == |vexs|
      && (!Cyclic(adj) ==> |Resolved(vexs, edges)| + Trees(adj, {}, 0) == |vexs|)
    ensures |vexs| > 0 && |Resolved(vexs, edges)| >= |vexs| ==> Cyclic(UndirectedLists(vexs, edges))
  {
    var adj := UndirectedLists(vexs, edges);
    var arcs := Resolved(vexs, edges);
    UndirectedListsSpec(vexs, edges);
    assert Undirected(adj);
    AcyclicCount(adj);
    IncidentTotal(arcs, |vexs|);
    if |vexs| > 0 {
      assert Trees(adj, {}, 0) > 0;
    }
  }
}
