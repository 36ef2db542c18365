/** Connected components of an undirected graph: a labelling depth-first
    search from every position still unmarked, in ascending order; one
    search is one component. */
module Components {
  import opened Common
  import opened Arcs
  import opened Traversal
  import opened AdjacencyLists
  import opened Labelling
  import opened UndirectedGraphs

  /** In symmetric lists every path can be walked backwards. */
  lemma ReachBack(adj: seq<seq<nat>>, u: nat, x: nat)
    requires WellFormed(adj) && Symmetric(adj) && Reach(adj, u, x)
    ensures Reach(adj, x, u)
  {
    var p :| |p| > 0 && p[0] == u && p[|p| - 1] == x && Path(adj, p);
    var q := seq(|p|, k requires 0 <= k < |p| => p[|p| - 1 - k]);
    assert Path(adj, q) by {
      forall k | 0 <= k < |q| - 1
        ensures q[k] < |adj| && q[k + 1] in adj[q[k]]
      {
        var j := |p| - 2 - k;
        assert q[k] == p[j + 1] && q[k + 1] == p[j];
        assert p[j + 1] in adj[p[j]];
      }
    }
  }

  /** Without arcs a vertex reaches only itself. */
  lemma NoArcsReach(adj: seq<seq<nat>>, u: nat, x: nat)
    requires forall v :: 0 <= v < |adj| ==> adj[v] == []
    requires Reach(adj, u, x)
    ensures u == x
  {
    ClosedReach(adj, {u}, u, x);
  }

  /** Once every vertex is labelled, two vertices of symmetric lists carry
      the same label exactly when one reaches the other. */
  lemma LabelIffReach(adj: seq<seq<nat>>, ids: seq<int>, count: nat, roots: seq<nat>, v: nat, w: nat)
    requires WellFormed(adj) && Symmetric(adj) && v < |adj| && w < |adj|
    requires Labelled(adj, Range(|adj|), ids, count, roots)
    ensures ids[v] == ids[w] <==> Reach(adj, v, w)
  {
    if ids[v] == ids[w] {
      var r := roots[ids[v]];
      ReachBack(adj, r, v);
      ReachTrans(adj, v, r, w);
    }
    if Reach(adj, v, w) {
      ReachBack(adj, v, w);
    }
  }

  class ConnectedComponent<T(==)> {
    /** Whether each position has been marked. */
    const visited: array<bool>
    /** The component label of each position. */
    const ids: array<int>
    /** The number of components found so far. */
    var count: nat
    /** The adjacency lists of the graph the components were computed for. */
    ghost const adj: seq<seq<nat>>
    /** The position each component's search started from. */
    ghost var roots: seq<nat>

    /** Every position is marked and labelled; labels are shared exactly by
        vertices joined by a path. */
    ghost predicate Valid()
      reads this, visited, ids
    {
      && visited.Length == ids.Length == |adj|
      && WellFormed(adj) && Symmetric(adj)
      && Marked(visited[..]) == Range(|adj|)
      && Labelled(adj, Range(|adj|), ids[..], count, roots)
      && count == Trees(adj, {}, 0)
    }

    /** One search from every position still unmarked, lowest first; each
        search labels a new component. */
    constructor (graph: UndirectedGraph<T>)
      requires graph.Valid()
      ensures Valid() && adj == graph.adj[..] && fresh(visited) && fresh(ids)
    {
      var n := graph.VertexSize();
      visited := new bool[n](_ => false);
      ids := new int[n](_ => 0);
      count := 0;
      adj := graph.adj[..];
      roots := [];
      new;
      MarkedNone(n);
      assert visited[..] == seq(n, _ => false);
      LabelledStart(adj, ids[..]);
      LabelAll(graph);
    }

    /** Construction has passed positions 0 .. i-1: each is marked, the
        marked set is labelled, and every search tree so far has its own
        label. */
    ghost predicate Built(i: nat)
      reads this, visited, ids
    {
      && visited.Length == ids.Length == |adj| && i <= |adj| && WellFormed(adj)
      && Labelled(adj, Marked(visited[..]), ids[..], count, roots)
      && (forall j :: 0 <= j < i ==> j in Marked(visited[..]))
      && count + Trees(adj, Marked(visited[..]), i) == Trees(adj, {}, 0)
    }

    /** The construction loop: a search from every position still
        unmarked, lowest first; one component per search. */
    method LabelAll(graph: UndirectedGraph<T>)
      requires graph.Valid() && graph.adj[..] == adj && Built(0)
      modifies this`count, this`roots, visited, ids
      ensures Marked(visited[..]) == Range(|adj|)
      ensures Labelled(adj, Range(|adj|), ids[..], count, roots) && count == Trees(adj, {}, 0)
    {
      for i := 0 to visited.Length
        invariant Built(i)
      {
        Turn(graph, i);
      }
      assert Marked(visited[..]) == Range(|adj|);
    }

    /** One turn of the construction loop: an unmarked i roots a new
        component, a marked one is passed over. */
    method Turn(graph: UndirectedGraph<T>, i: nat)
      requires graph.Valid() && graph.adj[..] == adj && i < |adj| && Built(i)
      modifies this`count, this`roots, visited, ids
      ensures Built(i + 1)
    {
      if !visited[i] {
        StartAt(graph, i);
      } else {
        assert i in Marked(visited[..]);
      }
    }

    /** One step of construction: the search from the unmarked v labels
        a new component, keeping the labelling invariant. */
    method StartAt(graph: UndirectedGraph<T>, v: nat)
      requires graph.Valid() && graph.adj[..] == adj
      requires visited.Length == ids.Length == |adj| && v < |adj| && !visited[v]
      requires Labelled(adj, Marked(visited[..]), ids[..], count, roots)
      modifies this`count, this`roots, visited, ids
      ensures Labelled(adj, Marked(visited[..]), ids[..], count, roots)
      ensures old(Marked(visited[..])) <= Marked(visited[..]) && v in Marked(visited[..])
      ensures count + Trees(adj, Marked(visited[..]), v + 1) == old(count) + Trees(adj, old(Marked(visited[..])), v)
    {
      ghost var vs := Marked(visited[..]);
      ghost var w := Visit(adj, vs, v);
      LabelledStep(adj, vs, ids[..], count, roots, v);
      Dfs(graph, v);
      assert Marked(visited[..]) == w.visited && vs <= w.visited;
      count := count + 1;
      roots := roots + [v];
    }

    /** The labelling search: mark v, give it the current label, then
        search from each unmarked neighbour. */
    method Dfs(graph: UndirectedGraph<T>, v: nat)
      requires graph.Valid() && graph.adj[..] == adj
      requires visited.Length == ids.Length == |adj| && v < |adj| && !visited[v]
      modifies visited, ids
      ensures var w := Visit(adj, old(Marked(visited[..])), v);
        && Marked(visited[..]) == w.visited
        && ids[..] == Assign(old(ids[..]), w.visited - old(Marked(visited[..])), count)
      decreases Unvisited(|adj|, Marked(visited[..])), 0
    {
      ghost var vs0 := Marked(visited[..]);
      ghost var ids0 := ids[..];
      MarkedSet(visited[..], v);
      visited[v] := true;
      ids[v] := count;
      assert ids[..] == Assign(ids0, {v}, count);
      var res := graph.AdjacentVertexIndexes(v);
      var ws := res.value;
      DfsEach(graph, ws);
      AssignTwice(ids0, {v}, Marked(visited[..]) - (vs0 + {v}), count);
      assert Marked(visited[..]) - vs0 == {v} + (Marked(visited[..]) - (vs0 + {v}));
    }

    /** The for-each loop of the labelling search over one neighbour
        list. */
    method DfsEach(graph: UndirectedGraph<T>, ws: seq<nat>)
      requires graph.Valid() && graph.adj[..] == adj
      requires visited.Length == ids.Length == |adj| && Below(ws, |adj|)
      modifies visited, ids
      ensures var r := VisitAll(adj, old(Marked(visited[..])), ws);
        && Marked(visited[..]) == r.visited
        && ids[..] == Assign(old(ids[..]), r.visited - old(Marked(visited[..])), count)
      decreases Unvisited(|adj|, Marked(visited[..])), 1
    {
      ghost var vs0 := Marked(visited[..]);
      ghost var ids0 := ids[..];
      ghost var R := VisitAll(adj, vs0, ws);
      ghost var cur := vs0;
      var k := 0;
      while k < |ws|
        invariant 0 <= k <= |ws|
        invariant Marked(visited[..]) == cur && vs0 <= cur
        invariant VisitAll(adj, cur, ws[k..]).visited == R.visited
        invariant ids[..] == Assign(ids0, cur - vs0, count)
      {
        var w := ws[k];
        VisitAllStep(adj, cur, ws, k);
        if !visited[w] {
          assert w !in cur;
          ghost var a := Visit(adj, cur, w);
          Dfs(graph, w);
          AssignTwice(ids0, cur - vs0, a.visited - cur, count);
          assert (cur - vs0) + (a.visited - cur) == a.visited - vs0;
          cur := a.visited;
        } else {
          assert w in cur;
        }
        k := k + 1;
      }
      assert ws[k..] == [];
      assert VisitAll(adj, cur, ws[k..]) == Walk(cur, [], []);
    }

    /** The label of v: below the number of components, and shared exactly
        with the vertices v reaches; an out-of-bounds error exactly when v
        is outside [0, vertexSize). */
    function Id(v: int): (r: Result<int>)
      reads this, visited, ids
      requires Valid()
      ensures r.Failure? <==> v < 0 || v >= ids.Length
      ensures r.Success? ==> 0 <= v < ids.Length && 0 <= r.value < count
      ensures r.Success? ==>
        0 <= v < ids.Length && forall w :: 0 <= w < ids.Length ==> (ids[w] == r.value <==> Reach(adj, v, w))
    {
      if v < 0 || v >= ids.Length then Failure(IndexOutOfBounds)
      else
      assert v in Range(|adj|);
      assert forall w :: 0 <= w < ids.Length ==> (ids[w] == ids[v] <==> Reach(adj, v, w)) by {
        forall w | 0 <= w < ids.Length
          ensures ids[w] == ids[v] <==> Reach(adj, v, w)
        {
          LabelIffReach(adj, ids[..], count, roots, v, w);
        }
      }
      Success(ids[v])
    }

    /** Whether v and w lie in one component: exactly when a path joins
        them; in particular when an edge does. An out-of-bounds error
        exactly when v or w is outside [0, vertexSize). */
    function Connected(v: int, w: int): (r: Result<bool>)
      reads this, visited, ids
      requires Valid()
      ensures r.Failure? <==> v < 0 || v >= ids.Length || w < 0 || w >= ids.Length
      ensures r.Success? ==> 0 <= v < ids.Length && 0 <= w < ids.Length && (r.value <==> Reach(adj, v, w))
      ensures r.Success? ==> 0 <= v < ids.Length && 0 <= w < ids.Length && (w in adj[v] ==> r.value)
    {
      match Id(v)
      case Failure(e) => Failure(e)
      case Success(a) =>
        match Id(w)
        case Failure(e) => Failure(e)
        case Success(b) =>
          LabelIffReach(adj, ids[..], count, roots, v, w);
          assert w in adj[v] ==> Reach(adj, v, w) by {
            if w in adj[v] {
              ReachRefl(adj, w);
              ReachStep(adj, v, w, w);
            }
          }
          Success(a == b)
    }

    /** The number of components: at least one and at most vertexSize in a
        non-empty graph, and vertexSize when there are no edges; it is the
        number of depth-first search trees over the graph. */
    function Count(): (c: nat)
      reads this, visited, ids
      requires Valid()
      ensures c <= |adj| && (|adj| > 0 ==> c >= 1)
      ensures c == Trees(adj, {}, 0)
      ensures (forall v :: 0 <= v < |adj| ==> adj[v] == []) ==> c == |adj|
    {
      LabelledCount(adj, Range(|adj|), ids[..], count, roots);
      assert |adj| > 0 ==> 0 in Range(|adj|);
      NoArcsCount(adj, ids[..], count, roots);
      count
    }

    /** Whether the graph is connected: exactly when it has a vertex and
        every vertex reaches every other. */
    function IsAConnectedGraph(): (r: bool)
      reads this, visited, ids
      requires Valid()
      ensures r <==> |adj| > 0 && forall v, w :: 0 <= v < |adj| && 0 <= w < |adj| ==> Reach(adj, v, w)
    {
      OneLabelIffConnected(adj, ids[..], count, roots);
      Count() == 1
    }
  }

  /** Without arcs every vertex is the root of its own component. */
  lemma NoArcsCount(adj: seq<seq<nat>>, ids: seq<int>, count: nat, roots: seq<nat>)
    requires Labelled(adj, Range(|adj|), ids, count, roots)
    ensures (forall v :: 0 <= v < |adj| ==> adj[v] == []) ==> count == |adj|
  {
    if forall v :: 0 <= v < |adj| ==> adj[v] == [] {
      assert Range(|adj|) <= Elems(roots) by {
        forall x | x in Range(|adj|)
          ensures x in Elems(roots)
        {
          NoArcsReach(adj, roots[ids[x]], x);
        }
      }
      LabelledCount(adj, Range(|adj|), ids, count, roots);
      NoDupCard(roots);
      SubsetCard(Range(|adj|), Elems(roots));
      RangeCard(|adj|);
    }
  }

  /** Once every vertex of symmetric lists is labelled, there is exactly
      one label when the graph is non-empty and every vertex reaches every
      other. */
  lemma OneLabelIffConnected(adj: seq<seq<nat>>, ids: seq<int>, count: nat, roots: seq<nat>)
    requires WellFormed(adj) && Symmetric(adj)
    requires Labelled(adj, Range(|adj|), ids, count, roots)
    ensures count == 1 <==> |adj| > 0 && forall v, w :: 0 <= v < |adj| && 0 <= w < |adj| ==> Reach(adj, v, w)
  {
    LabelledCount(adj, Range(|adj|), ids, count, roots);
    if |adj| > 0 {
      assert 0 in Range(|adj|);
    }
    if count == 1 {
      forall v, w | 0 <= v < |adj| && 0 <= w < |adj|
        ensures Reach(adj, v, w)
      {
        assert v in Range(|adj|) && w in Range(|adj|);
        LabelIffReach(adj, ids, count, roots, v, w);
      }
    } else if count >= 2 {
      LabelIffReach(adj, ids, count, roots, roots[0], roots[1]);
    }
  }
}
