/** The character-valued adjacency-list graphs: the same construction,
    lookup and traversals as the generic graphs, over `char` vertices; the
    traversals' printed vertex sequences are returned. */
module ListGraphs {
  import opened Common
  import opened Arcs
  import opened Traversal
  import opened AdjacencyLists
  import opened DirectedGraphs

  class ListDirectedGraph {
    const vexs: seq<char>
    const adj: array<seq<nat>>

    ghost predicate Valid()
      reads this, adj
    {
      adj.Length == |vexs| && WellFormed(adj[..])
    }

    /** Vertex values kept in order; each edge with both endpoints found
        appends its end position to its start's chain, the others are
        skipped. */
    constructor (vexs: seq<char>, edges: seq<Edge<char>>)
      ensures Valid() && fresh(adj)
      ensures this.vexs == vexs && adj[..] == DirectedLists(vexs, edges)
    {
      this.vexs := vexs;
      var lists := BuildDirected(vexs, edges);
      DirectedListsSpec(vexs, edges);
      adj := lists;
    }

    /** The largest position holding ch, or -1. */
    method Index(ch: char) returns (r: int)
      ensures -1 <= r < |vexs|
      ensures r == -1 <==> ch !in vexs
      ensures r >= 0 ==> vexs[r] == ch && forall j :: r < j < |vexs| ==> vexs[j] != ch
    {
      r := IndexOf(vexs, ch);
    }

    /** The characters printed by the depth-first traversal: every vertex
        once, in visiting order. */
    method Dfs() returns (r: seq<char>)
      requires Valid()
      ensures EachOnce(DfsOrder(adj[..]), |vexs|)
      ensures r == Infos(vexs, DfsOrder(adj[..]))
    {
      var order := DfsAll(adj);
      DfsOrderSpec(adj[..]);
      r := Infos(vexs, order);
    }

    /** The characters printed by the breadth-first traversal: every vertex
        once, in enqueueing order. */
    method Bfs() returns (r: seq<char>)
      requires Valid()
      ensures EachOnce(BfsOrder(adj[..]), |vexs|)
      ensures r == Infos(vexs, BfsOrder(adj[..]))
    {
      var order := BfsAll(adj);
      BfsOrderSpec(adj[..]);
      r := Infos(vexs, order);
    }
  }

  class ListUndirectedGraph {
    const vexs: seq<char>
    const adj: array<seq<nat>>

    ghost predicate Valid()
      reads this, adj
    {
      adj.Length == |vexs| && WellFormed(adj[..]) && Symmetric(adj[..])
    }

    /** Vertex values kept in order; each edge with both endpoints found
        appends the end position to the start's chain, then the start
        position to the end's chain; the others are skipped. */
    constructor (vexs: seq<char>, edges: seq<Edge<char>>)
      ensures Valid() && fresh(adj)
      ensures this.vexs == vexs && adj[..] == UndirectedLists(vexs, edges)
    {
      this.vexs := vexs;
      var lists := BuildUndirected(vexs, edges);
      UndirectedListsSpec(vexs, edges);
      adj := lists;
    }

    /** The largest position holding ch, or -1. */
    method Index(ch: char) returns (r: int)
      ensures -1 <= r < |vexs|
      ensures r == -1 <==> ch !in vexs
      ensures r >= 0 ==> vexs[r] == ch && forall j :: r < j < |vexs| ==> vexs[j] != ch
    {
      r := IndexOf(vexs, ch);
    }
  }
}
