/** Cycle detection in an undirected graph by depth-first search with a
    parent: scanning the list of v, reached from u, an unmarked neighbour is
    searched with v as its parent, and a marked neighbour other than u
    reports a cycle and ends the scan of v's list (the searches that called
    this one go on scanning theirs). */
module Cycles {
  import opened Common
  import opened Traversal

  /** The outcome of a cycle search: the marked set afterwards, and whether
      a cycle was reported. */
  datatype Probe = Probe(visited: set<nat>, found: bool)

  /** The search from v, reached from u (u may be -1, meaning no parent). */
  function CycleVisit(adj: seq<seq<nat>>, vs: set<nat>, v: nat, u: int): (r: Probe)
    requires WellFormed(adj) && v < |adj| && v !in vs
    ensures vs + {v} <= r.visited
    decreases Unvisited(|adj|, vs), 0
  {
    CycleScan(adj, vs + {v}, v, u, adj[v])
  }

  /** The scan of v's list ns, reached from u. */
  function CycleScan(adj: seq<seq<nat>>, vs: set<nat>, v: nat, u: int, ns: seq<nat>): (r: Probe)
    requires WellFormed(adj) && Below(ns, |adj|)
    ensures vs <= r.visited
    decreases Unvisited(|adj|, vs), 1, |ns|
  {
    if ns == [] then Probe(vs, false)
    else if ns[0] !in vs then
      var a := CycleVisit(adj, vs, ns[0], v);
      assert ns[0] in Unvisited(|adj|, vs) - Unvisited(|adj|, a.visited);
      var b := CycleScan(adj, a.visited, v, u, ns[1..]);
      Probe(b.visited, a.found || b.found)
    else if ns[0] != u then Probe(vs, true)
    else CycleScan(adj, vs, v, u, ns[1..])
  }

  /** The scan of v's list, resumed at its k-th entry. */
  lemma CycleScanStep(adj: seq<seq<nat>>, vs: set<nat>, v: nat, u: int, ns: seq<nat>, k: nat)
    requires WellFormed(adj) && Below(ns, |adj|) && k < |ns|
    ensures Below(ns[k + 1..], |adj|) && Below(ns[k..], |adj|)
    ensures CycleScan(adj, vs, v, u, ns[k..]) ==
      if ns[k] !in vs then
        var a := CycleVisit(adj, vs, ns[k], v);
        var b := CycleScan(adj, a.visited, v, u, ns[k + 1..]);
        Probe(b.visited, a.found || b.found)
      else if ns[k] != u then Probe(vs, true)
      else CycleScan(adj, vs, v, u, ns[k + 1..])
  {
    assert ns[k..][0] == ns[k] && ns[k..][1..] == ns[k + 1..];
  }

  /** The parent given to a root: the root itself in the search as
      written, no vertex (-1) in the corrected one. */
  function RootParent(i: nat, asWritten: bool): int
  {
    if asWritten then i else -1
  }

  /** The outer loop: a search from every position from i upwards that is
      still unmarked. */
  function CycleRoots(adj: seq<seq<nat>>, vs: set<nat>, i: nat, asWritten: bool): (r: Probe)
    requires WellFormed(adj) && i <= |adj|
    ensures vs <= r.visited
    ensures forall k :: i <= k < |adj| ==> k in r.visited
    decreases |adj| - i
  {
    if i == |adj| then Probe(vs, false)
    else if i in vs then CycleRoots(adj, vs, i + 1, asWritten)
    else
      var a := CycleVisit(adj, vs, i, RootParent(i, asWritten));
      var b := CycleRoots(adj, a.visited, i + 1, asWritten);
      Probe(b.visited, a.found || b.found)
  }

  /** The answer of the search as written, where every root is its own
      parent: false without edges, and the same as the corrected answer on
      every graph without self-loops (the defect is confined to a
      self-loop at a root). */
  function HasCycleAsWritten(adj: seq<seq<nat>>): (r: bool)
    requires WellFormed(adj)
    ensures (forall x :: 0 <= x < |adj| ==> adj[x] == []) ==> !r
    ensures (forall x :: 0 <= x < |adj| ==> x !in adj[x]) ==> r == Cyclic(adj)
  {
    NoArcsRoots(adj, {}, 0, true);
    RootsAgree(adj, {}, 0);
    CycleRoots(adj, {}, 0, true).found
  }

  /** The answer of the corrected search, where a root has no parent:
      false without edges, and true whenever a vertex is listed in its own
      list (a self-loop is a cycle). */
  function Cyclic(adj: seq<seq<nat>>): (r: bool)
    requires WellFormed(adj)
    ensures (forall x :: 0 <= x < |adj| ==> adj[x] == []) ==> !r
    ensures (exists x :: 0 <= x < |adj| && x in adj[x]) ==> r
  {
    NoArcsRoots(adj, {}, 0, false);
    RootsNoSelfLoop(adj, {}, 0);
    CycleRoots(adj, {}, 0, false).found
  }

  // ---------------------------------------------------------------------
  // A graph without arcs has no cycle

  /** With every list empty, each search marks its root alone and reports
      nothing, in either version. */
  lemma {:induction false} NoArcsRoots(adj: seq<seq<nat>>, vs: set<nat>, i: nat, asWritten: bool)
    requires WellFormed(adj) && i <= |adj|
    ensures (forall x :: 0 <= x < |adj| ==> adj[x] == []) ==> !CycleRoots(adj, vs, i, asWritten).found
    decreases |adj| - i
  {
    if i < |adj| && forall x :: 0 <= x < |adj| ==> adj[x] == [] {
      if i in vs {
        NoArcsRoots(adj, vs, i + 1, asWritten);
      } else {
        var a := CycleVisit(adj, vs, i, RootParent(i, asWritten));
        assert adj[i] == [];
        assert a == CycleScan(adj, vs + {i}, i, RootParent(i, asWritten), []);
        NoArcsRoots(adj, a.visited, i + 1, asWritten);
      }
    }
  }

  // ---------------------------------------------------------------------
  // The corrected search reports every self-loop

  /** A search from v whose parent is not v itself either reports a cycle
      or leaves every vertex it marks without a self-loop. */
  lemma {:induction false} VisitNoSelfLoop(adj: seq<seq<nat>>, vs: set<nat>, v: nat, u: int)
    requires WellFormed(adj) && v < |adj| && v !in vs && v != u
    ensures var r := CycleVisit(adj, vs, v, u);
      !r.found ==> forall x :: 0 <= x < |adj| && x in r.visited - vs ==> x !in adj[x]
    decreases Unvisited(|adj|, vs), 0
  {
    ScanNoSelfLoop(adj, vs + {v}, v, u, adj[v]);
  }

  /** The scan of v's list, v marked and not its own parent: when no cycle
      is reported, v does not occur in the scanned list, and no vertex the
      scan marks has a self-loop. */
  lemma {:induction false} ScanNoSelfLoop(adj: seq<seq<nat>>, vs: set<nat>, v: nat, u: int, ns: seq<nat>)
    requires WellFormed(adj) && Below(ns, |adj|) && v in vs && v != u
    ensures var r := CycleScan(adj, vs, v, u, ns);
      !r.found ==> v !in ns && forall x :: 0 <= x < |adj| && x in r.visited - vs ==> x !in adj[x]
    decreases Unvisited(|adj|, vs), 1, |ns|
  {
    if ns != [] {
      if ns[0] !in vs {
        var a := CycleVisit(adj, vs, ns[0], v);
        assert ns[0] in Unvisited(|adj|, vs) - Unvisited(|adj|, a.visited);
        VisitNoSelfLoop(adj, vs, ns[0], v);
        ScanNoSelfLoop(adj, a.visited, v, u, ns[1..]);
        assert ns == [ns[0]] + ns[1..];
      } else if ns[0] == u {
        ScanNoSelfLoop(adj, vs, v, u, ns[1..]);
        assert ns == [ns[0]] + ns[1..];
      }
    }
  }

  lemma {:induction false} RootsNoSelfLoop(adj: seq<seq<nat>>, vs: set<nat>, i: nat)
    requires WellFormed(adj) && i <= |adj|
    ensures var r := CycleRoots(adj, vs, i, false);
      !r.found ==> forall x :: 0 <= x < |adj| && x in r.visited - vs ==> x !in adj[x]
    decreases |adj| - i
  {
    if i < |adj| {
      if i in vs {
        RootsNoSelfLoop(adj, vs, i + 1);
      } else {
        var a := CycleVisit(adj, vs, i, -1);
        VisitNoSelfLoop(adj, vs, i, -1);
        RootsNoSelfLoop(adj, a.visited, i + 1);
      }
    }
  }

  // ---------------------------------------------------------------------
  // The search as written

  /** Below its roots the two searches coincide: the parent handed to a
      scan matters only where the list names it. */
  lemma {:induction false} ScanParentIrrelevant(adj: seq<seq<nat>>, vs: set<nat>, v: nat, u1: int, u2: int, ns: seq<nat>)
    requires WellFormed(adj) && Below(ns, |adj|)
    requires forall k :: 0 <= k < |ns| ==> ns[k] != u1 && ns[k] != u2
    ensures CycleScan(adj, vs, v, u1, ns) == CycleScan(adj, vs, v, u2, ns)
    decreases |ns|
  {
    if ns != [] {
      if ns[0] !in vs {
        var a := CycleVisit(adj, vs, ns[0], v);
        ScanParentIrrelevant(adj, a.visited, v, u1, u2, ns[1..]);
      } else {
        ScanParentIrrelevant(adj, vs, v, u1, u2, ns[1..]);
      }
    }
  }

  lemma {:induction false} RootsAgree(adj: seq<seq<nat>>, vs: set<nat>, i: nat)
    requires WellFormed(adj) && i <= |adj|
    ensures (forall x :: 0 <= x < |adj| ==> x !in adj[x]) ==>
      CycleRoots(adj, vs, i, true) == CycleRoots(adj, vs, i, false)
    decreases |adj| - i
  {
    if i < |adj| && forall x :: 0 <= x < |adj| ==> x !in adj[x] {
      if i in vs {
        RootsAgree(adj, vs, i + 1);
      } else {
        ScanParentIrrelevant(adj, vs + {i}, i, i, -1, adj[i]);
        var a := CycleVisit(adj, vs, i, i);
        RootsAgree(adj, a.visited, i + 1);
      }
    }
  }

  /** A single vertex with a self-loop: its list names it twice. The search
      as written marks the root, finds it marked in its own list and takes
      it for the parent, so no cycle is reported; the corrected search
      reports it. */
  lemma RootSelfLoopMissed()
    ensures WellFormed([[0, 0]])
    ensures !HasCycleAsWritten([[0, 0]]) && Cyclic([[0, 0]])
  {
    var adj: seq<seq<nat>> := [[0, 0]];
    assert [0, 0][1..] == [0] && [0][1..] == [];
    assert adj[0] == [0, 0];
    assert CycleScan(adj, {0}, 0, 0, [0]) == Probe({0}, false);
    assert {} + {0} == {0};
    assert CycleScan(adj, {0}, 0, 0, [0, 0]) == Probe({0}, false);
    assert CycleVisit(adj, {}, 0, 0) == Probe({0}, false);
    assert CycleVisit(adj, {}, 0, -1) == Probe({0}, true);
  }
}
