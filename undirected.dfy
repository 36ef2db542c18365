/** The generic undirected graph over adjacency lists: every edge is stored
    twice, once in the chain of each endpoint. */
module UndirectedGraphs {
  import opened Common
  import opened Arcs
  import opened Traversal
  import opened AdjacencyLists
  import opened Cycles
  import opened DirectedGraphs

  class UndirectedGraph<T(==)> {
    /** The vertex values, position by position. */
    const vexs: seq<T>
    /** The edge chain of every vertex, as positions of the other endpoint
        in chain order. */
    const adj: array<seq<nat>>

    ghost predicate Valid()
      reads this, adj
    {
      adj.Length == |vexs| && WellFormed(adj[..]) && Symmetric(adj[..])
    }

    /** Construction keeps the vertex values in order; every edge whose
        endpoints both resolve appends the end position to the start's
        chain, then the start position to the end's chain. */
    constructor (vexs: seq<T>, edges: seq<Edge<T>>)
      ensures Valid() && fresh(adj)
      ensures this.vexs == vexs && adj[..] == UndirectedLists(vexs, edges)
    {
      this.vexs := vexs;
      var lists := BuildUndirected(vexs, edges);
      UndirectedListsSpec(vexs, edges);
      adj := lists;
    }

    /** The largest position holding item, or -1 when none does. */
    method Index(item: T) returns (r: int)
      ensures -1 <= r < |vexs|
      ensures r == -1 <==> item !in vexs
      ensures r >= 0 ==> vexs[r] == item && forall j :: r < j < |vexs| ==> vexs[j] != item
    {
      r := IndexOf(vexs, item);
    }

    function VertexSize(): (n: nat)
      reads this, adj
      requires Valid()
      ensures n == |vexs| == adj.Length
    {
      adj.Length
    }

    /** v's chain copied out in chain order; an out-of-bounds error
        exactly when v is outside [0, vertexSize). */
    method AdjacentVertexIndexes(v: int) returns (r: Result<seq<nat>>)
      requires Valid()
      ensures r.Failure? <==> v < 0 || v >= |vexs|
      ensures r.Success? ==> 0 <= v < |vexs| && r.value == adj[v] && Below(r.value, |vexs|)
      ensures r.Success? ==> 0 <= v < |vexs| && forall w :: 0 <= w < |vexs| ==> (w in r.value <==> v in adj[w])
    {
      if v < 0 || v >= adj.Length {
        return Failure(IndexOutOfBounds);
      }
      var chain := adj[v];
      var ret := [];
      for i := 0 to |chain|
        invariant ret == chain[..i]
      {
        ret := ret + [chain[i]];
      }
      assert chain[..|chain|] == chain;
      r := Success(ret);
    }

    /** Depth-first traversal over all vertices; every vertex appears
        exactly once. */
    method Dfs() returns (r: seq<T>)
      requires Valid()
      ensures EachOnce(DfsOrder(adj[..]), |vexs|)
      ensures r == Infos(vexs, DfsOrder(adj[..]))
    {
      var order := DfsAll(adj);
      DfsOrderSpec(adj[..]);
      r := Infos(vexs, order);
    }

    /** Breadth-first traversal over all vertices; every vertex appears
        exactly once. */
    method Bfs() returns (r: seq<T>)
      requires Valid()
      ensures EachOnce(BfsOrder(adj[..]), |vexs|)
      ensures r == Infos(vexs, BfsOrder(adj[..]))
    {
      var order := BfsAll(adj);
      BfsOrderSpec(adj[..]);
      r := Infos(vexs, order);
    }

    /** Whether the graph has a cycle: a search with parents from every
        unmarked position, in ascending order. A root is given no parent
        (see RootSelfLoopMissed for the search that makes it its own
        parent). The answer is false without edges and true with a
        self-loop. */
    method HasCycle() returns (r: bool)
      requires Valid()
      ensures r == Cyclic(adj[..])
      ensures (forall x :: 0 <= x < |vexs| ==> adj[x] == []) ==> !r
      ensures (exists x :: 0 <= x < |vexs| && x in adj[x]) ==> r
    {
      ghost var A := adj[..];
      var n := adj.Length;
      var visited := NoMarks(n);
      r := false;
      for i := 0 to n
        invariant (r || CycleRoots(A, Marked(visited[..]), i, false).found) == Cyclic(A)
      {
        ghost var cur := Marked(visited[..]);
        if !visited[i] {
          ghost var a := CycleVisit(A, cur, i, -1);
          var f := DfsForCycle(visited, i, -1);
          assert Marked(visited[..]) == a.visited;
          r := r || f;
        } else {
          assert i in cur;
        }
      }
    }

    /** The search from v, reached from u: mark v, then scan its chain.
        Reports whether this search, or one it started, saw a cycle. */
    method DfsForCycle(visited: array<bool>, v: nat, u: int) returns (found: bool)
      requires Valid() && visited.Length == adj.Length && v < adj.Length && !visited[v]
      modifies visited
      ensures var r := CycleVisit(adj[..], Marked(old(visited[..])), v, u);
        Marked(visited[..]) == r.visited && found == r.found
      decreases Unvisited(adj.Length, Marked(visited[..])), 0
    {
      MarkedSet(visited[..], v);
      visited[v] := true;
      found := ScanForCycle(visited, v, u, adj[v]);
    }

    /** The chain loop of the search from v: an unmarked neighbour is
        searched with v as its parent, a marked one other than u ends the
        loop with a cycle. */
    method ScanForCycle(visited: array<bool>, v: nat, u: int, ns: seq<nat>) returns (found: bool)
      requires Valid() && visited.Length == adj.Length && Below(ns, adj.Length)
      modifies visited
      ensures var r := CycleScan(adj[..], Marked(old(visited[..])), v, u, ns);
        Marked(visited[..]) == r.visited && found == r.found
      decreases Unvisited(adj.Length, Marked(visited[..])), 1
    {
      ghost var A := adj[..];
      ghost var R := CycleScan(A, Marked(visited[..]), v, u, ns);
      ghost var cur := Marked(visited[..]);
      found := false;
      var k := 0;
      while k < |ns|
        invariant 0 <= k <= |ns|
        invariant Marked(visited[..]) == cur && old(Marked(visited[..])) <= cur
        invariant CycleScan(A, cur, v, u, ns[k..]).visited == R.visited
        invariant (found || CycleScan(A, cur, v, u, ns[k..]).found) == R.found
        decreases |ns| - k
      {
        var w := ns[k];
        CycleScanStep(A, cur, v, u, ns, k);
        if !visited[w] {
          assert w !in cur;
          ghost var a := CycleVisit(A, cur, w, v);
          var f := DfsForCycle(visited, w, v);
          found := found || f;
          cur := a.visited;
        } else if w != u {
          assert w in cur;
          found := true;
          return;
        } else {
          assert w in cur;
        }
        k := k + 1;
      }
      assert ns[k..] == [];
    }
  }
}
