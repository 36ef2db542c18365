/** Component labelling by repeated depth-first visits: each visit from a
    still unmarked root gives every vertex it newly marks the next label.
    Both the strongly connected components of a directed graph and the
    connected components of an undirected one are computed this way. */
module Labelling {
  import opened Common
  import opened Traversal

  /** The labels after every vertex of xs receives label c. */
  function Assign(ids: seq<int>, xs: set<nat>, c: int): (r: seq<int>)
    ensures |r| == |ids|
    ensures forall k :: 0 <= k < |ids| ==> r[k] == if k in xs then c else ids[k]
  {
    seq(|ids|, k requires 0 <= k < |ids| => if k in xs then c else ids[k])
  }

  /** Labelling two sets one after the other with the same label is
      labelling their union. */
  lemma AssignTwice(ids: seq<int>, xs: set<nat>, ys: set<nat>, c: int)
    ensures Assign(Assign(ids, xs, c), ys, c) == Assign(ids, xs + ys, c)
  {
  }

  /** What holds between two trees of the labelling loop, for the marked
      set vs, the labels ids, the number of trees count and their roots:
      vs is closed under arcs, every marked vertex carries a label below
      count and is reachable from the root of its tree, every tree's root
      carries its own label, and mutually reachable marked vertices carry
      the same label. */
  ghost predicate Labelled(adj: seq<seq<nat>>, vs: set<nat>, ids: seq<int>, count: nat, roots: seq<nat>)
  {
    && |ids| == |adj| && |roots| == count
    && Closed(adj, vs)
    && (forall x :: x in vs ==> x < |adj| && 0 <= ids[x] < count)
    && (forall x {:trigger Reach(adj, roots[ids[x]], x)} :: x in vs ==> Reach(adj, roots[ids[x]], x))
    && (forall c :: 0 <= c < count ==> roots[c] in vs && roots[c] < |adj| && ids[roots[c]] == c)
    && (forall x, y {:trigger Reach(adj, x, y), Reach(adj, y, x)} ::
          x in vs && y in vs && Reach(adj, x, y) && Reach(adj, y, x) ==> ids[x] == ids[y])
  }

  lemma LabelledStart(adj: seq<seq<nat>>, ids: seq<int>)
    requires |ids| == |adj|
    ensures Labelled(adj, {}, ids, 0, [])
  {
  }

  /** One more tree: visiting an unmarked root v and giving every vertex
      the visit marks the next label keeps the labelling invariant. Two
      mutually reachable vertices cannot end in different trees whatever
      the order of the roots, because the marked set is closed when a tree
      starts. */
  lemma LabelledStep(adj: seq<seq<nat>>, vs: set<nat>, ids: seq<int>, count: nat, roots: seq<nat>, v: nat)
    requires WellFormed(adj) && v < |adj| && v !in vs
    requires Labelled(adj, vs, ids, count, roots)
    ensures var w := Visit(adj, vs, v);
      Labelled(adj, w.visited, Assign(ids, w.visited - vs, count), count + 1, roots + [v])
  {
    var w := Visit(adj, vs, v);
    var ids' := Assign(ids, w.visited - vs, count);
    var roots' := roots + [v];
    VisitKeepsClosed(adj, vs, v);
    VisitReach(adj, vs, v);
    forall x | x in w.visited
      ensures x < |adj| && 0 <= ids'[x] < count + 1 && Reach(adj, roots'[ids'[x]], x)
    {
      if x in vs {
        assert roots'[ids'[x]] == roots[ids[x]];
      } else {
        assert x in Elems(w.pre);
      }
    }
    forall x, y | x in w.visited && y in w.visited && Reach(adj, x, y) && Reach(adj, y, x)
      ensures ids'[x] == ids'[y]
    {
      if x in vs && y !in vs {
        ClosedReach(adj, vs, x, y);
      } else if x !in vs && y in vs {
        ClosedReach(adj, vs, y, x);
      }
    }
  }

  /** The roots are distinct marked vertices, so there are at most as many
      trees as vertices; a non-empty marked set has at least one tree. */
  lemma LabelledCount(adj: seq<seq<nat>>, vs: set<nat>, ids: seq<int>, count: nat, roots: seq<nat>)
    requires Labelled(adj, vs, ids, count, roots)
    ensures NoDup(roots) && count <= |adj|
    ensures vs != {} ==> count >= 1
  {
    assert NoDup(roots) by {
      forall a, b | 0 <= a < b < |roots|
        ensures roots[a] != roots[b]
      {
        assert ids[roots[a]] == a && ids[roots[b]] == b;
      }
    }
    NoDupBelowBound(roots, |adj|);
    if vs != {} {
      var x :| x in vs;
      assert 0 <= ids[x] < count;
    }
  }

  /** The roots of two different trees are never mutually reachable, so
      each tree stands for its own class of mutual reachability and there
      are at most as many trees as classes; when every two marked vertices
      are mutually reachable there is exactly one tree. */
  lemma LabelledRootsApart(adj: seq<seq<nat>>, vs: set<nat>, ids: seq<int>, count: nat, roots: seq<nat>)
    requires Labelled(adj, vs, ids, count, roots)
    ensures forall a, b :: 0 <= a < b < count ==> !(Reach(adj, roots[a], roots[b]) && Reach(adj, roots[b], roots[a]))
    ensures vs != {} && (forall x, y :: x in vs && y in vs ==> Reach(adj, x, y)) ==> count == 1
  {
    forall a, b | 0 <= a < b < count
      ensures !(Reach(adj, roots[a], roots[b]) && Reach(adj, roots[b], roots[a]))
    {
      assert ids[roots[a]] == a && ids[roots[b]] == b;
    }
    if vs != {} && (forall x, y :: x in vs && y in vs ==> Reach(adj, x, y)) {
      LabelledCount(adj, vs, ids, count, roots);
      var last := count - 1;
      assert Reach(adj, roots[0], roots[last]) && Reach(adj, roots[last], roots[0]);
    }
  }

  /** Read off a labelled state: every vertex mutually reachable with a
      marked v carries v's label, and every vertex carrying v's label is
      reachable from the root of v's tree. */
  lemma LabelClass(adj: seq<seq<nat>>, vs: set<nat>, ids: seq<int>, count: nat, roots: seq<nat>, v: nat)
    requires Labelled(adj, vs, ids, count, roots) && v in vs
    ensures 0 <= ids[v] < count
    ensures forall i :: i in vs && Reach(adj, v, i) && Reach(adj, i, v) ==> ids[i] == ids[v]
    ensures forall i :: i in vs && ids[i] == ids[v] ==> Reach(adj, roots[ids[v]], i)
  {
  }
}
