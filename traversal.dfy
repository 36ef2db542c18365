/** The traversals every graph of the model runs, as functions of the
    adjacency lists: recursive depth-first search (with its visiting order
    and its finishing order) and queue-based breadth-first search, each
    over one root or over all vertices, restarting from the lowest
    unvisited position. A vertex's neighbours are taken in list order. */
module Traversal {
  import opened Common

  /** The outcome of a depth-first walk: the marked set afterwards, the
      newly marked vertices in the order they were marked (pre-order), and
      the same vertices in the order their visits returned (post-order). */
  datatype Walk = Walk(visited: set<nat>, pre: seq<nat>, post: seq<nat>)

  function Unvisited(n: nat, vs: set<nat>): set<nat>
  {
    Range(n) - vs
  }

  /** The walk a recursive visit of v produces: mark v, then visit every
      neighbour still unmarked, in list order; v finishes last. */
  function Visit(adj: seq<seq<nat>>, vs: set<nat>, v: nat): (w: Walk)
    requires WellFormed(adj) && v < |adj| && v !in vs
    ensures w.visited == vs + Elems(w.pre)
    ensures NoDup(w.pre) && Elems(w.pre) !! vs && Below(w.pre, |adj|)
    ensures |w.pre| > 0 && w.pre[0] == v
    ensures NoDup(w.post) && Elems(w.post) == Elems(w.pre) && |w.post| == |w.pre|
    ensures w.post[|w.post| - 1] == v
    decreases Unvisited(|adj|, vs), 0
  {
    var r := VisitAll(adj, vs + {v}, adj[v]);
    NoDupConcat([v], r.pre);
    NoDupConcat(r.post, [v]);
    Walk(r.visited, [v] + r.pre, r.post + [v])
  }

  /** The loop over a neighbour list ns: each neighbour still unmarked is
      visited, in order. */
  function VisitAll(adj: seq<seq<nat>>, vs: set<nat>, ns: seq<nat>): (w: Walk)
    requires WellFormed(adj) && Below(ns, |adj|)
    ensures w.visited == vs + Elems(w.pre)
    ensures NoDup(w.pre) && Elems(w.pre) !! vs && Below(w.pre, |adj|)
    ensures NoDup(w.post) && Elems(w.post) == Elems(w.pre) && |w.post| == |w.pre|
    ensures Elems(ns) <= w.visited
    decreases Unvisited(|adj|, vs), 1, |ns|
  {
    if ns == [] then Walk(vs, [], [])
    else if ns[0] in vs then VisitAll(adj, vs, ns[1..])
    else
      var a := Visit(adj, vs, ns[0]);
      assert ns[0] in Unvisited(|adj|, vs) - Unvisited(|adj|, a.visited);
      var b := VisitAll(adj, a.visited, ns[1..]);
      NoDupConcat(a.pre, b.pre);
      NoDupConcat(a.post, b.post);
      Walk(b.visited, a.pre + b.pre, a.post + b.post)
  }

  /** The loop over a neighbour list, resumed at its k-th entry. */
  lemma VisitAllStep(adj: seq<seq<nat>>, vs: set<nat>, ns: seq<nat>, k: nat)
    requires WellFormed(adj) && Below(ns, |adj|) && k < |ns|
    ensures Below(ns[k + 1..], |adj|) && Below(ns[k..], |adj|)
    ensures VisitAll(adj, vs, ns[k..]) ==
      if ns[k] in vs then VisitAll(adj, vs, ns[k + 1..])
      else
        var a := Visit(adj, vs, ns[k]);
        var b := VisitAll(adj, a.visited, ns[k + 1..]);
        Walk(b.visited, a.pre + b.pre, a.post + b.post)
  {
    assert ns[k..][0] == ns[k] && ns[k..][1..] == ns[k + 1..];
  }

  /** The outer loop of a traversal of all vertices: every position from i
      upwards that is still unmarked becomes the root of a new walk. */
  function Roots(adj: seq<seq<nat>>, vs: set<nat>, i: nat): (w: Walk)
    requires WellFormed(adj) && i <= |adj|
    ensures w.visited == vs + Elems(w.pre)
    ensures NoDup(w.pre) && Elems(w.pre) !! vs && Below(w.pre, |adj|)
    ensures NoDup(w.post) && Elems(w.post) == Elems(w.pre) && |w.post| == |w.pre|
    ensures forall k :: i <= k < |adj| ==> k in w.visited
    decreases |adj| - i
  {
    if i == |adj| then Walk(vs, [], [])
    else if i in vs then Roots(adj, vs, i + 1)
    else
      var a := Visit(adj, vs, i);
      var b := Roots(adj, a.visited, i + 1);
      NoDupConcat(a.pre, b.pre);
      NoDupConcat(a.post, b.post);
      Walk(b.visited, a.pre + b.pre, a.post + b.post)
  }

  /** The outer loop resumed at position i: a marked i is passed over, an
      unmarked one roots a walk. */
  lemma RootsStep(adj: seq<seq<nat>>, vs: set<nat>, i: nat)
    requires WellFormed(adj) && i < |adj|
    ensures i in vs ==> Roots(adj, vs, i) == Roots(adj, vs, i + 1)
    ensures i !in vs ==>
      Roots(adj, vs, i).pre == Visit(adj, vs, i).pre + Roots(adj, Visit(adj, vs, i).visited, i + 1).pre
    ensures i !in vs ==>
      Roots(adj, vs, i).post == Visit(adj, vs, i).post + Roots(adj, Visit(adj, vs, i).visited, i + 1).post
  {
  }

  /** The number of walks the outer loop starts from position i on: one
      for every position still unmarked when the loop reaches it, so at
      most one per remaining position, and at least one when position i is
      unmarked. */
  function Trees(adj: seq<seq<nat>>, vs: set<nat>, i: nat): (t: nat)
    requires WellFormed(adj) && i <= |adj|
    ensures t <= |adj| - i
    ensures i < |adj| && i !in vs ==> t > 0
    decreases |adj| - i
  {
    if i == |adj| then 0
    else if i in vs then Trees(adj, vs, i + 1)
    else 1 + Trees(adj, Visit(adj, vs, i).visited, i + 1)
  }

  /** Depth-first order over all vertices. */
  function DfsOrder(adj: seq<seq<nat>>): seq<nat>
    requires WellFormed(adj)
  {
    Roots(adj, {}, 0).pre
  }

  /** Finishing order over all vertices. */
  function PostOrder(adj: seq<seq<nat>>): seq<nat>
    requires WellFormed(adj)
  {
    Roots(adj, {}, 0).post
  }

  /** A sequence listing every position of an n-vertex graph exactly once. */
  predicate EachOnce(s: seq<nat>, n: nat)
  {
    NoDup(s) && Below(s, n) && Elems(s) == Range(n) && |s| == n
  }

  /** The depth-first traversal lists every vertex exactly once, starting
      with vertex 0; so does its finishing order. */
  lemma DfsOrderSpec(adj: seq<seq<nat>>)
    requires WellFormed(adj)
    ensures EachOnce(DfsOrder(adj), |adj|) && EachOnce(PostOrder(adj), |adj|)
    ensures |adj| > 0 ==> DfsOrder(adj)[0] == 0
  {
    var w := Roots(adj, {}, 0);
    assert Elems(w.pre) == Range(|adj|);
    NoDupCard(w.pre);
    RangeCard(|adj|);
    assert Below(w.post, |adj|) by {
      forall k | 0 <= k < |w.post|
        ensures w.post[k] < |adj|
      {
        assert w.post[k] in Elems(w.pre);
      }
    }
  }

  // ---------------------------------------------------------------------
  // Breadth-first search

  /** The marked set and the queue array's contents (slots 0 .. rear-1). */
  datatype Sweep = Sweep(visited: set<nat>, queue: seq<nat>)

  /** Marks and queue agree: the queue holds each marked vertex once. */
  predicate Consistent(n: nat, vs: set<nat>, q: seq<nat>)
  {
    vs == Elems(q) && NoDup(q) && Below(q, n)
  }

  /** Scanning a dequeued vertex's list: each neighbour still unmarked is
      marked and enqueued at once (marking happens at enqueue time). */
  function Scan(n: nat, vs: set<nat>, q: seq<nat>, ns: seq<nat>): (s: Sweep)
    requires Below(ns, n)
    ensures vs <= s.visited && |q| <= |s.queue| && s.queue[..|q|] == q
    ensures |s.queue| == |q| ==> s.visited == vs
    ensures |s.queue| > |q| ==> s.queue[|q|] in s.visited - vs && s.queue[|q|] < n
    ensures Below(q, n) ==> Below(s.queue, n)
    ensures Consistent(n, vs, q) ==> Consistent(n, s.visited, s.queue)
    decreases |ns|
  {
    if ns == [] then Sweep(vs, q)
    else if ns[0] in vs then Scan(n, vs, q, ns[1..])
    else
      var s := Scan(n, vs + {ns[0]}, q + [ns[0]], ns[1..]);
      assert s.queue[..|q| + 1][..|q|] == s.queue[..|q|];
      assert Consistent(n, vs, q) ==> Consistent(n, vs + {ns[0]}, q + [ns[0]]) by {
        if Consistent(n, vs, q) {
          NoDupConcat(q, [ns[0]]);
        }
      }
      s
  }

  /** The scan of a neighbour list, resumed at its k-th entry. */
  lemma ScanStep(n: nat, vs: set<nat>, q: seq<nat>, ns: seq<nat>, k: nat)
    requires Below(ns, n) && k < |ns|
    ensures Below(ns[k + 1..], n) && Below(ns[k..], n)
    ensures Scan(n, vs, q, ns[k..]) ==
      if ns[k] in vs then Scan(n, vs, q, ns[k + 1..])
      else Scan(n, vs + {ns[k]}, q + [ns[k]], ns[k + 1..])
  {
    assert ns[k..][0] == ns[k] && ns[k..][1..] == ns[k + 1..];
  }

  /** The inner while loop: dequeue from head until the queue is empty. */
  function Drain(adj: seq<seq<nat>>, vs: set<nat>, q: seq<nat>, head: nat): (s: Sweep)
    requires WellFormed(adj) && head <= |q| && Below(q, |adj|)
    ensures vs <= s.visited && |q| <= |s.queue| && s.queue[..|q|] == q
    ensures Below(s.queue, |adj|)
    ensures Consistent(|adj|, vs, q) ==> Consistent(|adj|, s.visited, s.queue)
    decreases Unvisited(|adj|, vs), |q| - head
  {
    if head == |q| then Sweep(vs, q)
    else
      var s := Scan(|adj|, vs, q, adj[q[head]]);
      assert |s.queue| == |q| ==> s.queue == s.queue[..|q|];
      assert |s.queue| > |q| ==> s.queue[|q|] in Unvisited(|adj|, vs) - Unvisited(|adj|, s.visited);
      var d := Drain(adj, s.visited, s.queue, head + 1);
      assert d.queue[..|s.queue|][..|q|] == d.queue[..|q|];
      d
  }

  /** The outer for loop: an unmarked position i is marked and enqueued,
      then the queue is drained. */
  function BfsRoots(adj: seq<seq<nat>>, vs: set<nat>, q: seq<nat>, i: nat): (s: Sweep)
    requires WellFormed(adj) && i <= |adj| && Below(q, |adj|)
    ensures vs <= s.visited && |q| <= |s.queue| && s.queue[..|q|] == q
    ensures Below(s.queue, |adj|)
    ensures Consistent(|adj|, vs, q) ==> Consistent(|adj|, s.visited, s.queue)
    ensures forall k :: i <= k < |adj| ==> k in s.visited
    decreases |adj| - i
  {
    if i == |adj| then Sweep(vs, q)
    else
      var vs1, q1 := if i in vs then vs else vs + {i}, if i in vs then q else q + [i];
      assert Consistent(|adj|, vs, q) ==> Consistent(|adj|, vs1, q1) by {
        if Consistent(|adj|, vs, q) && i !in vs {
          NoDupConcat(q, [i]);
        }
      }
      var d := Drain(adj, vs1, q1, |q|);
      var s := BfsRoots(adj, d.visited, d.queue, i + 1);
      assert s.queue[..|d.queue|][..|q1|][..|q|] == s.queue[..|q|];
      s
  }

  /** The outer loop resumed at position i with an empty stretch of queue
      ahead: i is enqueued when unmarked, then the queue is drained. */
  lemma BfsRootsStep(adj: seq<seq<nat>>, vs: set<nat>, q: seq<nat>, i: nat)
    requires WellFormed(adj) && i < |adj| && Below(q, |adj|)
    ensures var vs1 := if i in vs then vs else vs + {i};
      var q1 := if i in vs then q else q + [i];
      Below(q1, |adj|) && |q| <= |q1| &&
      var d := Drain(adj, vs1, q1, |q|);
      BfsRoots(adj, vs, q, i) == BfsRoots(adj, d.visited, d.queue, i + 1)
  {
  }

  /** Breadth-first order over all vertices: the final queue contents,
      which are also the vertices in the order they were emitted. */
  function BfsOrder(adj: seq<seq<nat>>): seq<nat>
    requires WellFormed(adj)
  {
    BfsRoots(adj, {}, [], 0).queue
  }

  /** The breadth-first traversal lists every vertex exactly once, starting
      with vertex 0; in particular the queue never holds more than n
      vertices, so an array of n slots never overflows. */
  lemma BfsOrderSpec(adj: seq<seq<nat>>)
    requires WellFormed(adj)
    ensures EachOnce(BfsOrder(adj), |adj|)
    ensures |adj| > 0 ==> BfsOrder(adj)[0] == 0
  {
    var s := BfsRoots(adj, {}, [], 0);
    assert Consistent(|adj|, {}, []);
    assert Elems(s.queue) == Range(|adj|);
    NoDupCard(s.queue);
    RangeCard(|adj|);
    if |adj| > 0 {
      BfsStartsAtZero(adj);
    }
  }

  lemma BfsStartsAtZero(adj: seq<seq<nat>>)
    requires WellFormed(adj) && |adj| > 0
    ensures |BfsOrder(adj)| > 0 && BfsOrder(adj)[0] == 0
  {
    var vs0: set<nat>, q0: seq<nat> := {}, [];
    var d := Drain(adj, vs0 + {0}, q0 + [0], |q0|);
    assert d.queue[..1] == [0];
    var r := BfsRoots(adj, d.visited, d.queue, 1);
    assert BfsRoots(adj, vs0, q0, 0) == r;
    assert r.queue[..|d.queue|][..1] == r.queue[..1];
  }

  // ---------------------------------------------------------------------
  // Reachability

  ghost predicate Path(adj: seq<seq<nat>>, p: seq<nat>)
  {
    forall k :: 0 <= k < |p| - 1 ==> p[k] < |adj| && p[k + 1] in adj[p[k]]
  }

  /** x can be reached from u by following arcs (u reaches itself). */
  ghost predicate Reach(adj: seq<seq<nat>>, u: nat, x: nat)
  {
    exists p :: |p| > 0 && p[0] == u && p[|p| - 1] == x && Path(adj, p)
  }

  lemma ReachRefl(adj: seq<seq<nat>>, u: nat)
    ensures Reach(adj, u, u)
  {
    assert Path(adj, [u]);
  }

  lemma ReachStep(adj: seq<seq<nat>>, u: nat, y: nat, x: nat)
    requires u < |adj| && y in adj[u] && Reach(adj, y, x)
    ensures Reach(adj, u, x)
  {
    var p :| |p| > 0 && p[0] == y && p[|p| - 1] == x && Path(adj, p);
    assert Path(adj, [u] + p);
  }

  lemma ReachTrans(adj: seq<seq<nat>>, u: nat, y: nat, x: nat)
    requires Reach(adj, u, y) && Reach(adj, y, x)
    ensures Reach(adj, u, x)
  {
    var p :| |p| > 0 && p[0] == u && p[|p| - 1] == y && Path(adj, p);
    var q :| |q| > 0 && q[0] == y && q[|q| - 1] == x && Path(adj, q);
    var r := p + q[1..];
    assert Path(adj, r) by {
      forall k | 0 <= k < |r| - 1
        ensures r[k] < |adj| && r[k + 1] in adj[r[k]]
      {
        if k < |p| - 1 {
          assert r[k] == p[k] && r[k + 1] == p[k + 1];
        } else {
          assert r[k] == q[k - |p| + 1] && r[k + 1] == q[k - |p| + 2];
        }
      }
    }
  }

  /** A marked set from which no arc leads out. */
  ghost predicate Closed(adj: seq<seq<nat>>, vs: set<nat>)
  {
    forall x, y {:trigger y in adj[x]} :: x in vs && x < |adj| && y in adj[x] ==> y in vs
  }

  /** Every vertex marked after vs (in ws) has all its neighbours marked. */
  ghost predicate Finished(adj: seq<seq<nat>>, vs: set<nat>, ws: set<nat>)
  {
    forall x, y {:trigger y in adj[x]} :: x in ws - vs && x < |adj| && y in adj[x] ==> y in ws
  }

  /** Nothing outside a closed set is reachable from inside it. */
  lemma {:induction false} ClosedReach(adj: seq<seq<nat>>, vs: set<nat>, u: nat, x: nat)
    requires Closed(adj, vs) && u in vs && Reach(adj, u, x)
    ensures x in vs
  {
    var p :| |p| > 0 && p[0] == u && p[|p| - 1] == x && Path(adj, p);
    var k := 0;
    while k < |p| - 1
      invariant 0 <= k < |p| && p[k] in vs
    {
      k := k + 1;
    }
  }

  /** When a visit returns, every vertex it marked has all its neighbours
      marked. */
  lemma {:induction false} VisitFinished(adj: seq<seq<nat>>, vs: set<nat>, v: nat)
    requires WellFormed(adj) && v < |adj| && v !in vs
    ensures Finished(adj, vs, Visit(adj, vs, v).visited)
    decreases Unvisited(|adj|, vs), 0
  {
    VisitAllFinished(adj, vs + {v}, adj[v]);
  }

  lemma {:induction false} VisitAllFinished(adj: seq<seq<nat>>, vs: set<nat>, ns: seq<nat>)
    requires WellFormed(adj) && Below(ns, |adj|)
    ensures Finished(adj, vs, VisitAll(adj, vs, ns).visited)
    decreases Unvisited(|adj|, vs), 1, |ns|
  {
    if ns == [] {
    } else if ns[0] in vs {
      VisitAllFinished(adj, vs, ns[1..]);
    } else {
      var a := Visit(adj, vs, ns[0]);
      assert ns[0] in Unvisited(|adj|, vs) - Unvisited(|adj|, a.visited);
      VisitFinished(adj, vs, ns[0]);
      VisitAllFinished(adj, a.visited, ns[1..]);
    }
  }

  /** A visit started from a closed marked set ends with a closed one. */
  lemma VisitKeepsClosed(adj: seq<seq<nat>>, vs: set<nat>, v: nat)
    requires WellFormed(adj) && v < |adj| && v !in vs && Closed(adj, vs)
    ensures Closed(adj, Visit(adj, vs, v).visited)
  {
    VisitFinished(adj, vs, v);
  }

  /** Every vertex a visit of v marks is reachable from v. */
  lemma {:induction false} VisitReach(adj: seq<seq<nat>>, vs: set<nat>, v: nat)
    requires WellFormed(adj) && v < |adj| && v !in vs
    ensures forall x :: x in Elems(Visit(adj, vs, v).pre) ==> Reach(adj, v, x)
    decreases Unvisited(|adj|, vs), 0
  {
    var r := VisitAll(adj, vs + {v}, adj[v]);
    VisitAllReach(adj, vs + {v}, adj[v]);
    ReachRefl(adj, v);
    forall x | x in Elems(r.pre)
      ensures Reach(adj, v, x)
    {
      var k :| 0 <= k < |adj[v]| && Reach(adj, adj[v][k], x);
      ReachStep(adj, v, adj[v][k], x);
    }
  }

  lemma {:induction false} VisitAllReach(adj: seq<seq<nat>>, vs: set<nat>, ns: seq<nat>)
    requires WellFormed(adj) && Below(ns, |adj|)
    ensures forall x :: x in Elems(VisitAll(adj, vs, ns).pre) ==>
      exists k :: 0 <= k < |ns| && Reach(adj, ns[k], x)
    decreases Unvisited(|adj|, vs), 1, |ns|
  {
    if ns == [] {
    } else if ns[0] in vs {
      VisitAllReach(adj, vs, ns[1..]);
      assert VisitAll(adj, vs, ns) == VisitAll(adj, vs, ns[1..]);
      forall x | x in Elems(VisitAll(adj, vs, ns).pre)
        ensures exists k :: 0 <= k < |ns| && Reach(adj, ns[k], x)
      {
        var k :| 0 <= k < |ns[1..]| && Reach(adj, ns[1..][k], x);
        assert ns[k + 1] == ns[1..][k];
      }
    } else {
      var a := Visit(adj, vs, ns[0]);
      assert ns[0] in Unvisited(|adj|, vs) - Unvisited(|adj|, a.visited);
      VisitReach(adj, vs, ns[0]);
      VisitAllReach(adj, a.visited, ns[1..]);
      var b := VisitAll(adj, a.visited, ns[1..]);
      assert VisitAll(adj, vs, ns).pre == a.pre + b.pre;
      forall x | x in Elems(VisitAll(adj, vs, ns).pre)
        ensures exists k :: 0 <= k < |ns| && Reach(adj, ns[k], x)
      {
        if x in Elems(a.pre) {
          assert Reach(adj, ns[0], x);
        } else {
          assert x in Elems(b.pre);
          var k :| 0 <= k < |ns[1..]| && Reach(adj, ns[1..][k], x);
          assert ns[k + 1] == ns[1..][k];
        }
      }
    }
  }
}
