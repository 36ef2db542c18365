/** Kosaraju's strongly connected components: reverse the graph, take the
    reverse post-order of a depth-first traversal of the reverse graph as
    a stack, then pop it and run a labelling depth-first search on the
    original graph from every popped vertex not yet marked. */
module StrongComponents {
  import opened Common
  import opened Arcs
  import opened Traversal
  import opened AdjacencyLists
  import opened Labelling
  import opened DirectedGraphs

  function Rev(s: seq<nat>): (r: seq<nat>)
    ensures |r| == |s| && forall k :: 0 <= k < |s| ==> r[k] == s[|s| - 1 - k]
  {
    seq(|s|, k requires 0 <= k < |s| => s[|s| - 1 - k])
  }

  /** Helper (a rewrite step for the solver): reversing a concatenation
      reverses and swaps its parts. */
  lemma RevConcat(a: seq<nat>, b: seq<nat>)
    ensures Rev(a + b) == Rev(b) + Rev(a)
  {
  }

  /** The pop order of the stack: the reverse post-order of the reversed
      graph. */
  function PopOrder(adj: seq<seq<nat>>): seq<nat>
    requires WellFormed(adj)
  {
    TransposedSpec(adj);
    Rev(PostOrder(Transposed(adj)))
  }

  /** Every vertex is popped exactly once. */
  lemma PopOrderSpec(adj: seq<seq<nat>>)
    requires WellFormed(adj)
    ensures EachOnce(PopOrder(adj), |adj|)
  {
    TransposedSpec(adj);
    var post := PostOrder(Transposed(adj));
    DfsOrderSpec(Transposed(adj));
    var r := Rev(post);
    assert Elems(r) == Elems(post) by {
      forall x | x in Elems(post)
        ensures x in Elems(r)
      {
        var k :| 0 <= k < |post| && post[k] == x;
        assert r[|post| - 1 - k] == x;
      }
    }
    assert NoDup(r) by {
      forall i, j | 0 <= i < j < |r|
        ensures r[i] != r[j]
      {
        assert r[i] == post[|post| - 1 - i] && r[j] == post[|post| - 1 - j];
      }
    }
  }

  /** Once every vertex of the stack has been popped and marked, every
      position is marked. */
  lemma AllPopped(stack: seq<nat>, vs: set<nat>, n: nat)
    requires EachOnce(stack, n)
    requires forall j :: 0 <= j < |stack| ==> stack[j] in vs
    requires forall x :: x in vs ==> x < n
    ensures vs == Range(n)
  {
    forall x | x in Range(n)
      ensures x in vs
    {
      assert x in Elems(stack);
    }
  }

  class StronglyConnectedComponent<T(==)> {
    const graph: DirectedGraph<T>
    /** mVisited: whether the labelling search has marked a vertex. */
    const visited: array<bool>
    /** mIds: the component label of every vertex. */
    const ids: array<int>
    /** mCount: the number of components. */
    var count: nat
    /** The vertex each labelling search started from, label by label. */
    ghost var roots: seq<nat>

    ghost predicate Valid()
      reads this, graph, graph.adj, visited, ids
    {
      && graph.Valid()
      && visited.Length == ids.Length == graph.adj.Length
      && Marked(visited[..]) == Range(visited.Length)
      && Labelled(graph.adj[..], Range(visited.Length), ids[..], count, roots)
    }

    /** Marks v and every vertex reachable from it through unmarked
        vertices, then pushes v once all its neighbours have been
        explored: the stack grows by the reverse of the visit's finishing
        order. A vertex already marked changes nothing. */
    static method DfsForReversePostOrder(g: DirectedGraph<T>, visited: array<bool>, stack: seq<nat>, v: nat)
      returns (stack': seq<nat>)
      requires g.Valid() && visited.Length == g.adj.Length && v < visited.Length
      modifies visited
      ensures old(visited[v]) ==> visited[..] == old(visited[..]) && stack' == stack
      ensures !old(visited[v]) ==> var w := Visit(g.adj[..], old(Marked(visited[..])), v);
        Marked(visited[..]) == w.visited && stack' == Rev(w.post) + stack
      decreases Unvisited(visited.Length, Marked(visited[..])), 1
    {
      stack' := stack;
      if !visited[v] {
        ghost var vs0 := Marked(visited[..]);
        MarkedSet(visited[..], v);
        visited[v] := true;
        var res := g.AdjacentVertexIndexes(v);
        var ws := res.value;
        stack' := PushEach(g, visited, ws, stack);
        ghost var r := VisitAll(g.adj[..], vs0 + {v}, ws);
        RevConcat(r.post, [v]);
        stack' := [v] + stack';
      }
    }

    /** The for-each loop of the search above over one neighbour list. */
    static method PushEach(g: DirectedGraph<T>, visited: array<bool>, ws: seq<nat>, stack: seq<nat>)
      returns (stack': seq<nat>)
      requires g.Valid() && visited.Length == g.adj.Length && Below(ws, visited.Length)
      modifies visited
      ensures var r := VisitAll(g.adj[..], old(Marked(visited[..])), ws);
        Marked(visited[..]) == r.visited && stack' == Rev(r.post) + stack
      decreases Unvisited(visited.Length, Marked(visited[..])), 3
    {
      ghost var A := g.adj[..];
      ghost var R := VisitAll(A, Marked(visited[..]), ws);
      stack' := stack;
      var k := 0;
      while k < |ws|
        invariant 0 <= k <= |ws|
        invariant old(Marked(visited[..])) <= Marked(visited[..])
        invariant VisitAll(A, Marked(visited[..]), ws[k..]).visited == R.visited
        invariant Rev(VisitAll(A, Marked(visited[..]), ws[k..]).post) + stack' == Rev(R.post) + stack
      {
        stack' := PushEntry(g, A, visited, ws, k, stack');
        k := k + 1;
      }
      assert ws[k..] == [];
      assert VisitAll(A, Marked(visited[..]), ws[k..]) == Walk(Marked(visited[..]), [], []);
    }

    /** One turn of the for-each loop at entry k: search from it; what is
        left of the loop is unchanged. */
    static method PushEntry(g: DirectedGraph<T>, ghost A: seq<seq<nat>>, visited: array<bool>, ws: seq<nat>, k: nat,
                            stack: seq<nat>)
      returns (stack': seq<nat>)
      requires g.Valid() && A == g.adj[..] && visited.Length == |A| && Below(ws, |A|) && k < |ws|
      modifies visited
      ensures Below(ws[k + 1..], |A|) && Below(ws[k..], |A|)
      ensures var vs, vs' := Marked(old(visited[..])), Marked(visited[..]);
        && vs <= vs'
        && VisitAll(A, vs', ws[k + 1..]).visited == VisitAll(A, vs, ws[k..]).visited
        && Rev(VisitAll(A, vs', ws[k + 1..]).post) + stack' == Rev(VisitAll(A, vs, ws[k..]).post) + stack
      decreases Unvisited(visited.Length, Marked(visited[..])), 2
    {
      ghost var cur := Marked(visited[..]);
      VisitAllStep(A, cur, ws, k);
      stack' := DfsForReversePostOrder(g, visited, stack, ws[k]);
      if ws[k] !in cur {
        ghost var a := Visit(A, cur, ws[k]);
        ghost var b := VisitAll(A, a.visited, ws[k + 1..]);
        RevConcat(a.post, b.post);
        SeqAssoc(Rev(b.post), Rev(a.post), stack);
      }
    }

    /** The stack after a search from every position in ascending order:
        popping it yields the reverse of the traversal's finishing order. */
    static method ReversePostOrder(g: DirectedGraph<T>) returns (stack: seq<nat>)
      requires g.Valid()
      ensures stack == Rev(PostOrder(g.adj[..]))
    {
      ghost var A := g.adj[..];
      var n := g.VertexSize();
      var visited := NoMarks(n);
      ghost var R := Roots(A, {}, 0);
      stack := [];
      for i := 0 to n
        invariant Rev(Roots(A, Marked(visited[..]), i).post) + stack == Rev(R.post)
      {
        stack := PushRoot(g, A, visited, i, stack);
      }
      assert Roots(A, Marked(visited[..]), n).post == [];
      assert stack == Rev(R.post) && A == g.adj[..];
    }

    /** One turn of the outer loop at position i: a search from i when it
        is unmarked; the searches still to come are unchanged. */
    static method PushRoot(g: DirectedGraph<T>, ghost A: seq<seq<nat>>, visited: array<bool>, i: nat, stack: seq<nat>)
      returns (stack': seq<nat>)
      requires g.Valid() && A == g.adj[..] && visited.Length == |A| && i < |A|
      modifies visited
      ensures Rev(Roots(A, Marked(visited[..]), i + 1).post) + stack' == Rev(Roots(A, Marked(old(visited[..])), i).post) + stack
    {
      ghost var cur := Marked(visited[..]);
      RootsStep(A, cur, i);
      stack' := DfsForReversePostOrder(g, visited, stack, i);
      if i !in cur {
        ghost var a := Visit(A, cur, i);
        ghost var b := Roots(A, a.visited, i + 1);
        RevConcat(a.post, b.post);
        SeqAssoc(Rev(b.post), Rev(a.post), stack);
      }
    }

    /** The labelling search: a vertex not yet marked is marked and given
        the current label, then the search continues from each of its
        neighbours; a vertex already marked changes nothing. */
    method Dfs(v: nat)
      requires graph.Valid() && visited.Length == ids.Length == graph.adj.Length && v < visited.Length
      modifies visited, ids
      ensures old(visited[v]) ==> visited[..] == old(visited[..]) && ids[..] == old(ids[..])
      ensures !old(visited[v]) ==> var w := Visit(graph.adj[..], old(Marked(visited[..])), v);
        && Marked(visited[..]) == w.visited
        && ids[..] == Assign(old(ids[..]), w.visited - old(Marked(visited[..])), count)
      decreases Unvisited(visited.Length, Marked(visited[..])), 1
    {
      if !visited[v] {
        ghost var vs0 := Marked(visited[..]);
        ghost var ids0 := ids[..];
        MarkedSet(visited[..], v);
        visited[v] := true;
        ids[v] := count;
        assert ids[..] == Assign(ids0, {v}, count);
        var res := graph.AdjacentVertexIndexes(v);
        var ws := res.value;
        DfsEach(ws);
        AssignTwice(ids0, {v}, Marked(visited[..]) - (vs0 + {v}), count);
        assert Marked(visited[..]) - vs0 == {v} + (Marked(visited[..]) - (vs0 + {v}));
      }
    }

    /** The for-each loop of the labelling search over one neighbour
        list. */
    method DfsEach(ws: seq<nat>)
      requires graph.Valid() && visited.Length == ids.Length == graph.adj.Length && Below(ws, visited.Length)
      modifies visited, ids
      ensures var r := VisitAll(graph.adj[..], old(Marked(visited[..])), ws);
        && Marked(visited[..]) == r.visited
        && ids[..] == Assign(old(ids[..]), r.visited - old(Marked(visited[..])), count)
      decreases Unvisited(visited.Length, Marked(visited[..])), 3
    {
      ghost var A := graph.adj[..];
      ghost var vs0 := Marked(visited[..]);
      ghost var ids0 := ids[..];
      ghost var R := VisitAll(A, vs0, ws);
      assert ids[..] == Assign(ids0, vs0 - vs0, count);
      var k := 0;
      while k < |ws|
        invariant 0 <= k <= |ws|
        invariant vs0 <= Marked(visited[..])
        invariant VisitAll(A, Marked(visited[..]), ws[k..]).visited == R.visited
        invariant ids[..] == Assign(ids0, Marked(visited[..]) - vs0, count)
      {
        LabelEntry(A, ws, k, vs0, ids0);
        k := k + 1;
      }
      assert ws[k..] == [];
      assert VisitAll(A, Marked(visited[..]), ws[k..]) == Walk(Marked(visited[..]), [], []);
    }

    /** One turn of the labelling loop at entry k: search from it, giving
        what the search marks the current label; what is left of the loop
        is unchanged. */
    method LabelEntry(ghost A: seq<seq<nat>>, ws: seq<nat>, k: nat, ghost vs0: set<nat>, ghost ids0: seq<int>)
      requires graph.Valid() && A == graph.adj[..] && visited.Length == ids.Length == |A|
      requires Below(ws, |A|) && k < |ws|
      requires vs0 <= Marked(visited[..]) && ids[..] == Assign(ids0, Marked(visited[..]) - vs0, count)
      modifies visited, ids
      ensures Below(ws[k + 1..], |A|) && Below(ws[k..], |A|)
      ensures var vs, vs' := Marked(old(visited[..])), Marked(visited[..]);
        && vs <= vs'
        && VisitAll(A, vs', ws[k + 1..]).visited == VisitAll(A, vs, ws[k..]).visited
        && ids[..] == Assign(ids0, vs' - vs0, count)
      decreases Unvisited(visited.Length, Marked(visited[..])), 2
    {
      ghost var cur := Marked(visited[..]);
      VisitAllStep(A, cur, ws, k);
      Dfs(ws[k]);
      if ws[k] !in cur {
        ghost var a := Visit(A, cur, ws[k]);
        AssignTwice(ids0, cur - vs0, a.visited - cur, count);
        assert (cur - vs0) + (a.visited - cur) == a.visited - vs0;
      }
    }

    /** Construction: reverse the graph, compute the reverse post-order of
        the reverse graph as a stack, then pop every vertex and start a new
        component at each one still unmarked. Afterwards every vertex is
        marked and the labelling invariant holds. */
    constructor (graph: DirectedGraph<T>)
      requires graph.Valid()
      ensures Valid() && this.graph == graph && fresh(visited) && fresh(ids)
    {
      this.graph := graph;
      var n := graph.VertexSize();
      visited := new bool[n](_ => false);
      ids := new int[n](_ => 0);
      count := 0;
      roots := [];
      new;
      ghost var A := graph.adj[..];
      MarkedNone(n);
      assert visited[..] == seq(n, _ => false);
      LabelledStart(A, ids[..]);
      var reversed := graph.Reverse();
      var stack := ReversePostOrder(reversed);
      assert stack == PopOrder(A);
      PopOrderSpec(A);
      LabelInPopOrder(A, stack);
    }

    /** The pop loop of construction: every popped vertex still unmarked
        starts a new component. The stack holds every vertex, so once it is
        empty every vertex is marked. */
    method LabelInPopOrder(ghost A: seq<seq<nat>>, stack: seq<nat>)
      requires graph.Valid() && A == graph.adj[..] && visited.Length == ids.Length == |A|
      requires EachOnce(stack, |A|)
      requires Labelled(A, Marked(visited[..]), ids[..], count, roots)
      modifies this`count, this`roots, visited, ids
      ensures Valid()
    {
      var rest := stack;
      ghost var k := 0;
      while rest != []
        invariant 0 <= k <= |stack| && rest == stack[k..]
        invariant Labelled(A, Marked(visited[..]), ids[..], count, roots)
        invariant forall j :: 0 <= j < k ==> stack[j] in Marked(visited[..])
        decreases |rest|
      {
        var v := rest[0];
        rest := rest[1..];
        assert v == stack[k];
        StartAt(A, v);
        k := k + 1;
      }
      AllPopped(stack, Marked(visited[..]), |A|);
    }

    /** A popped vertex still unmarked starts a new component. */
    method StartAt(ghost A: seq<seq<nat>>, v: nat)
      requires graph.Valid() && A == graph.adj[..] && visited.Length == ids.Length == |A|
      requires v < visited.Length
      requires Labelled(A, Marked(visited[..]), ids[..], count, roots)
      modifies this`count, this`roots, visited, ids
      ensures Labelled(A, Marked(visited[..]), ids[..], count, roots)
      ensures old(Marked(visited[..])) <= Marked(visited[..]) && v in Marked(visited[..])
    {
      ghost var vs := Marked(visited[..]);
      if !visited[v] {
        ghost var ids0, c0, roots0 := ids[..], count, roots;
        ghost var w := Visit(A, vs, v);
        LabelledStep(A, vs, ids0, c0, roots0, v);
        Dfs(v);
        assert Marked(visited[..]) == w.visited && vs <= w.visited;
        assert ids[..] == Assign(ids0, w.visited - vs, c0);
        count := count + 1;
        roots := roots + [v];
      }
    }

    /** The number of components: at least one and at most vertexSize for
        a non-empty graph; no two components' roots are mutually reachable,
        so there are at most as many components as classes of mutual
        reachability, and exactly one when the graph is strongly
        connected. */
    function Count(): (c: nat)
      reads this, graph, graph.adj, visited, ids
      requires Valid()
      ensures c <= visited.Length && (visited.Length > 0 ==> c >= 1)
      ensures c == |roots| && forall a, b :: 0 <= a < b < c ==>
        !(Reach(graph.adj[..], roots[a], roots[b]) && Reach(graph.adj[..], roots[b], roots[a]))
      ensures visited.Length > 0 && (forall x, y :: 0 <= x < visited.Length && 0 <= y < visited.Length ==> Reach(graph.adj[..], x, y))
        ==> c == 1
    {
      LabelledCount(graph.adj[..], Range(visited.Length), ids[..], count, roots);
      LabelledRootsApart(graph.adj[..], Range(visited.Length), ids[..], count, roots);
      assert visited.Length > 0 ==> 0 in Range(visited.Length);
      count
    }

    /** The positions sharing v's label, in ascending order. They include
        v and every vertex mutually reachable with v, and each of them is
        reachable from the root of v's component. */
    method AllConnected(v: int) returns (r: Result<seq<nat>>)
      requires Valid()
      ensures r.Failure? <==> v < 0 || v >= ids.Length
      ensures r.Success? ==> 0 <= v < ids.Length && var s := r.value;
        && (forall i: nat :: i in s <==> i < ids.Length && ids[i] == ids[v])
        && (forall a, b :: 0 <= a < b < |s| ==> s[a] < s[b])
        && v in s
        && (forall i :: 0 <= i < ids.Length && Reach(graph.adj[..], v, i) && Reach(graph.adj[..], i, v) ==> i in s)
        && 0 <= ids[v] < |roots| && (forall i :: i in s ==> Reach(graph.adj[..], roots[ids[v]], i))
    {
      if v < 0 || v >= ids.Length {
        return Failure(IndexOutOfBounds);
      }
      LabelClass(graph.adj[..], Range(ids.Length), ids[..], count, roots, v);
      var id := ids[v];
      var list: seq<nat> := [];
      for i := 0 to ids.Length
        invariant forall x: nat :: x in list <==> x < i && ids[x] == id
        invariant forall a, b :: 0 <= a < b < |list| ==> list[a] < list[b]
        invariant forall a :: 0 <= a < |list| ==> list[a] < i
      {
        if ids[i] == id {
          list := list + [i];
        }
      }
      assert v in Range(ids.Length);
      r := Success(list);
    }
  }
}
