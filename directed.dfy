/** The generic directed graph over adjacency lists: vertex values in an
    array, one edge chain per vertex holding destination positions. */
module DirectedGraphs {
  import opened Common
  import opened Arcs
  import opened Traversal
  import opened AdjacencyLists

  /** The vertex values listed in the given order of positions. */
  function Infos<T>(vexs: seq<T>, order: seq<nat>): (r: seq<T>)
    requires Below(order, |vexs|)
    ensures |r| == |order| && forall k :: 0 <= k < |order| ==> r[k] == vexs[order[k]]
  {
    seq(|order|, k requires 0 <= k < |order| => vexs[order[k]])
  }

  class DirectedGraph<T(==)> {
    /** The vertex values, position by position. */
    const vexs: seq<T>
    /** The edge chain of every vertex, as destination positions in chain
        order. */
    const adj: array<seq<nat>>

    ghost predicate Valid()
      reads this, adj
    {
      adj.Length == |vexs| && WellFormed(adj[..])
    }

    /** Construction keeps the vertex values in order; every edge whose
        endpoints both resolve appends its destination at the tail of its
        source's chain, and the others are skipped. */
    constructor (vexs: seq<T>, edges: seq<Edge<T>>)
      ensures Valid() && fresh(adj)
      ensures this.vexs == vexs && adj[..] == DirectedLists(vexs, edges)
    {
      this.vexs := vexs;
      var lists := BuildDirected(vexs, edges);
      DirectedListsSpec(vexs, edges);
      adj := lists;
    }

    /** The private constructor used by reversal: a new vertex array
        holding the given vertices. */
    constructor FromLists(vexs: seq<T>, lists: array<seq<nat>>)
      requires lists.Length == |vexs| && WellFormed(lists[..])
      ensures Valid() && fresh(adj)
      ensures this.vexs == vexs && adj[..] == lists[..]
    {
      this.vexs := vexs;
      var copy := new seq<nat>[lists.Length](_ => []);
      for i := 0 to lists.Length
        invariant forall k :: 0 <= k < i ==> copy[k] == lists[k]
      {
        copy[i] := lists[i];
      }
      adj := copy;
    }

    function VertexSize(): (n: nat)
      reads this, adj
      requires Valid()
      ensures n == |vexs| == adj.Length
    {
      adj.Length
    }

    /** The largest position holding item, or -1 when none does. */
    method Index(item: T) returns (r: int)
      ensures -1 <= r < |vexs|
      ensures r == -1 <==> item !in vexs
      ensures r >= 0 ==> vexs[r] == item && forall j :: r < j < |vexs| ==> vexs[j] != item
    {
      r := IndexOf(vexs, item);
    }

    /** The value at position v, or an out-of-bounds error exactly when v
        is outside [0, vertexSize). */
    function VertexInfo(v: int): (r: Result<T>)
      reads this
      ensures r.Failure? <==> v < 0 || v >= |vexs|
      ensures r.Success? ==> r.value == vexs[v]
    {
      if v < 0 || v > |vexs| - 1 then Failure(IndexOutOfBounds) else Success(vexs[v])
    }

    /** v's chain copied out in chain order: positions of the graph, one
        entry per stored edge leaving v; an out-of-bounds error exactly when
        v is outside [0, vertexSize), where the vertex array is indexed. */
    method AdjacentVertexIndexes(v: int) returns (r: Result<seq<nat>>)
      requires Valid()
      ensures r.Failure? <==> v < 0 || v >= |vexs|
      ensures r.Success? ==> 0 <= v < |vexs| && r.value == adj[v] && Below(r.value, |vexs|)
    {
      if v < 0 || v >= adj.Length {
        return Failure(IndexOutOfBounds);
      }
      var chain := adj[v];
      var ret := [];
      for i := 0 to |chain|
        invariant ret == chain[..i]
      {
        ret := ret + [chain[i]];
      }
      assert chain[..|chain|] == chain;
      r := Success(ret);
    }

    /** Depth-first traversal over all vertices: the values in the order
        the recursive visits mark them, restarting from the lowest unmarked
        position; every vertex appears exactly once. */
    method Dfs() returns (r: seq<T>)
      requires Valid()
      ensures EachOnce(DfsOrder(adj[..]), |vexs|)
      ensures r == Infos(vexs, DfsOrder(adj[..]))
    {
      var order := DfsAll(adj);
      DfsOrderSpec(adj[..]);
      r := Infos(vexs, order);
    }

    /** Breadth-first traversal over all vertices with a queue array of
        vertexSize slots: every vertex appears exactly once. */
    method Bfs() returns (r: seq<T>)
      requires Valid()
      ensures EachOnce(BfsOrder(adj[..]), |vexs|)
      ensures r == Infos(vexs, BfsOrder(adj[..]))
    {
      var order := BfsAll(adj);
      BfsOrderSpec(adj[..]);
      r := Infos(vexs, order);
    }

    /** The reverse graph: same vertex values, every stored edge i -> j
        turned into j -> i, with j's new chain listing its sources in
        ascending order. */
    method Reverse() returns (g: DirectedGraph<T>)
      requires Valid()
      ensures fresh(g) && fresh(g.adj) && g.Valid()
      ensures g.vexs == vexs && g.adj[..] == Transposed(adj[..])
    {
      var lists := ReverseLists(adj);
      TransposedSpec(adj[..]);
      g := new DirectedGraph.FromLists(vexs, lists);
    }
  }
}
