/** The character-valued adjacency-matrix graphs: the matrix holds 1 at
    (sp, ep) for every edge whose endpoints both resolve (and at (ep, sp)
    too for the undirected graph), 0 elsewhere; the depth-first traversal
    scans rows for neighbours. */
module MatrixGraphs {
  import opened Common
  import opened Arcs
  import opened Traversal
  import opened AdjacencyLists
  import opened Rows
  import opened DirectedGraphs
  import opened MatrixScans

  /** The matrix holds 1 exactly at the pairs some arc runs between,
      in its own direction. */
  ghost predicate HoldsArcs(m: array2<int>, arcs: seq<Arc>)
    reads m
  {
    forall i, j :: 0 <= i < m.Length0 && 0 <= j < m.Length1 ==> m[i, j] == DirectedEntry(arcs, i, j)
  }

  /** The matrix holds 1 exactly at the pairs some arc joins, in either
      direction. */
  ghost predicate HoldsEdges(m: array2<int>, arcs: seq<Arc>)
    reads m
  {
    forall i, j :: 0 <= i < m.Length0 && 0 <= j < m.Length1 ==> m[i, j] == UndirectedEntry(arcs, i, j)
  }

  /** A resolved edge of the directed graph: entry (sp, ep) becomes 1, so
      the matrix now holds the arcs seen so far plus this one. */
  method SetArc(m: array2<int>, ghost arcs: seq<Arc>, sp: nat, ep: nat)
    requires sp < m.Length0 && ep < m.Length1 && HoldsArcs(m, arcs)
    modifies m
    ensures HoldsArcs(m, arcs + [(sp, ep)])
  {
    m[sp, ep] := 1;
    forall i, j | 0 <= i < m.Length0 && 0 <= j < m.Length1
      ensures m[i, j] == DirectedEntry(arcs + [(sp, ep)], i, j)
    {
      EntryAppend(arcs, (sp, ep), i, j);
    }
  }

  /** A resolved edge of the undirected graph: entries (sp, ep) and
      (ep, sp) both become 1, so the matrix now holds the edges seen so far
      plus this one. */
  method SetEdge(m: array2<int>, ghost arcs: seq<Arc>, sp: nat, ep: nat)
    requires m.Length0 == m.Length1 && sp < m.Length0 && ep < m.Length0 && HoldsEdges(m, arcs)
    modifies m
    ensures HoldsEdges(m, arcs + [(sp, ep)])
  {
    m[sp, ep] := 1;
    m[ep, sp] := 1;
    forall i, j | 0 <= i < m.Length0 && 0 <= j < m.Length1
      ensures m[i, j] == UndirectedEntry(arcs + [(sp, ep)], i, j)
    {
      EntryAppend(arcs, (sp, ep), i, j);
    }
  }

  class MatrixDirectedGraph {
    const vexs: seq<char>
    const matrix: array2<int>
    /** The resolved edges the matrix was built from. */
    ghost const arcs: seq<Arc>

    ghost predicate Valid()
      reads this, matrix
    {
      && matrix.Length0 == |vexs| && matrix.Length1 == |vexs|
      && ArcsBelow(arcs, |vexs|)
      && HoldsArcs(matrix, arcs)
    }

    /** Vertex values kept in order; the matrix starts all 0 and every edge
        whose endpoints both resolve sets its entry to 1. */
    constructor (vexs: seq<char>, edges: seq<Edge<char>>)
      ensures Valid() && fresh(matrix)
      ensures this.vexs == vexs && arcs == Resolved(vexs, edges)
    {
      var n := |vexs|;
      this.vexs := vexs;
      matrix := new int[n, n]((_, _) => 0);
      arcs := Resolved(vexs, edges);
      new;
      FillMatrix(edges);
    }

    /** The edge loop of construction: every edge whose endpoints both
        resolve sets its entry to 1, the others are skipped. */
    method FillMatrix(edges: seq<Edge<char>>)
      requires matrix.Length0 == matrix.Length1 == |vexs| && HoldsArcs(matrix, [])
      modifies matrix
      ensures HoldsArcs(matrix, Resolved(vexs, edges))
    {
      assert edges[..0] == [];
      for k := 0 to |edges|
        invariant HoldsArcs(matrix, Resolved(vexs, edges[..k]))
      {
        var sp := Index(edges[k].0);
        var ep := Index(edges[k].1);
        ResolvedStep(vexs, edges, k);
        if sp != -1 && ep != -1 {
          SetArc(matrix, Resolved(vexs, edges[..k]), sp, ep);
        } else {
          assert Resolved(vexs, edges[..k + 1]) == Resolved(vexs, edges[..k]);
        }
      }
      assert edges[..|edges|] == edges;
    }

    /** The largest position holding ch, or -1. */
    method Index(ch: char) returns (r: int)
      ensures r == LastIndex(vexs, ch)
      ensures -1 <= r < |vexs|
      ensures r == -1 <==> ch !in vexs
      ensures r >= 0 ==> vexs[r] == ch && forall j :: r < j < |vexs| ==> vexs[j] != ch
    {
      r := IndexOf(vexs, ch);
    }

    /** The lists the row scans walk: v's list holds w exactly when some
        resolved edge runs from v to w, once. */
    lemma NeighbourLists()
      requires Valid()
      ensures var adj := ListsOf(matrix);
        && |adj| == |vexs| && WellFormed(adj)
        && (forall v :: 0 <= v < |vexs| ==> NoDup(adj[v]))
        && (forall v, w :: 0 <= v < |vexs| && 0 <= w < |vexs| ==> (w in adj[v] <==> (v, w) in arcs))
    {
      ListsOfSpec(matrix);
    }

    /** The matrix graph and the list graph built from the same edges have
        the same neighbours (the lists may repeat them and order them
        differently). */
    lemma SameNeighboursAsLists(edges: seq<Edge<char>>)
      requires Valid() && arcs == Resolved(vexs, edges)
      ensures forall v, w :: 0 <= v < |vexs| && 0 <= w < |vexs| ==>
        (w in ListsOf(matrix)[v] <==> w in DirectedLists(vexs, edges)[v])
    {
      NeighbourLists();
      DirectedListsSpec(vexs, edges);
      forall v, w | 0 <= v < |vexs| && 0 <= w < |vexs|
        ensures w in DirectedLists(vexs, edges)[v] <==> (v, w) in arcs
      {
        assert multiset(DirectedLists(vexs, edges)[v])[w] == multiset(arcs)[(v, w)];
      }
    }

    /** The characters printed by the depth-first traversal: every vertex
        once, a visit from each unmarked position in ascending order, and
        within a visit the neighbours in ascending order. */
    method Dfs() returns (r: seq<char>)
      requires Valid()
      ensures EachOnce(DfsOrder(ListsOf(matrix)), |vexs|)
      ensures r == Infos(vexs, DfsOrder(ListsOf(matrix)))
    {
      var order := MatrixDfsAll(matrix);
      DfsOrderSpec(ListsOf(matrix));
      r := Infos(vexs, order);
    }
  }

  class MatrixUndirectedGraph {
    const vexs: seq<char>
    const matrix: array2<int>
    /** The resolved edges the matrix was built from. */
    ghost const arcs: seq<Arc>

    ghost predicate Valid()
      reads this, matrix
    {
      && matrix.Length0 == |vexs| && matrix.Length1 == |vexs|
      && ArcsBelow(arcs, |vexs|)
      && HoldsEdges(matrix, arcs)
    }

    /** Vertex values kept in order; the matrix starts all 0 and every edge
        whose endpoints both resolve sets both its entries to 1. */
    constructor (vexs: seq<char>, edges: seq<Edge<char>>)
      ensures Valid() && fresh(matrix)
      ensures this.vexs == vexs && arcs == Resolved(vexs, edges)
    {
      var n := |vexs|;
      this.vexs := vexs;
      matrix := new int[n, n]((_, _) => 0);
      arcs := Resolved(vexs, edges);
      new;
      FillMatrix(edges);
    }

    /** The edge loop of construction: every edge whose endpoints both
        resolve sets both its entries to 1, the others are skipped. */
    method FillMatrix(edges: seq<Edge<char>>)
      requires matrix.Length0 == matrix.Length1 == |vexs| && HoldsEdges(matrix, [])
      modifies matrix
      ensures HoldsEdges(matrix, Resolved(vexs, edges))
    {
      assert edges[..0] == [];
      for k := 0 to |edges|
        invariant HoldsEdges(matrix, Resolved(vexs, edges[..k]))
      {
        var sp := Index(edges[k].0);
        var ep := Index(edges[k].1);
        ResolvedStep(vexs, edges, k);
        if sp != -1 && ep != -1 {
          SetEdge(matrix, Resolved(vexs, edges[..k]), sp, ep);
        } else {
          assert Resolved(vexs, edges[..k + 1]) == Resolved(vexs, edges[..k]);
        }
      }
      assert edges[..|edges|] == edges;
    }

    /** The largest position holding ch, or -1. */
    method Index(ch: char) returns (r: int)
      ensures r == LastIndex(vexs, ch)
      ensures -1 <= r < |vexs|
      ensures r == -1 <==> ch !in vexs
      ensures r >= 0 ==> vexs[r] == ch && forall j :: r < j < |vexs| ==> vexs[j] != ch
    {
      r := IndexOf(vexs, ch);
    }

    /** The lists the row scans walk: v's list holds w exactly when some
        resolved edge joins v and w, once; the adjacency is symmetric. */
    lemma NeighbourLists()
      requires Valid()
      ensures var adj := ListsOf(matrix);
        && |adj| == |vexs| && WellFormed(adj) && Symmetric(adj)
        && (forall v :: 0 <= v < |vexs| ==> NoDup(adj[v]))
        && (forall v, w :: 0 <= v < |vexs| && 0 <= w < |vexs| ==>
              (w in adj[v] <==> (v, w) in arcs || (w, v) in arcs))
    {
      ListsOfSpec(matrix);
      var adj := ListsOf(matrix);
      forall v, w | 0 <= v < |vexs| && 0 <= w < |vexs|
        ensures w in adj[v] <==> v in adj[w]
      {
        assert w in adj[v] <==> matrix[v, w] == 1;
        assert v in adj[w] <==> matrix[w, v] == 1;
      }
    }

    /** The matrix graph and the list graph built from the same edges have
        the same neighbours (the lists may repeat them and order them
        differently). */
    lemma SameNeighboursAsLists(edges: seq<Edge<char>>)
      requires Valid() && arcs == Resolved(vexs, edges)
      ensures forall v, w :: 0 <= v < |vexs| && 0 <= w < |vexs| ==>
        (w in ListsOf(matrix)[v] <==> w in UndirectedLists(vexs, edges)[v])
    {
      NeighbourLists();
      UndirectedListsSpec(vexs, edges);
      forall v, w | 0 <= v < |vexs| && 0 <= w < |vexs|
        ensures w in UndirectedLists(vexs, edges)[v] <==> (v, w) in arcs || (w, v) in arcs
      {
        assert multiset(UndirectedLists(vexs, edges)[v])[w] == multiset(arcs)[(v, w)] + multiset(arcs)[(w, v)];
      }
    }

    /** The characters printed by the depth-first traversal: every vertex
        once, a visit from each unmarked position in ascending order, and
        within a visit the neighbours in ascending order. */
    method Dfs() returns (r: seq<char>)
      requires Valid()
      ensures EachOnce(DfsOrder(ListsOf(matrix)), |vexs|)
      ensures r == Infos(vexs, DfsOrder(ListsOf(matrix)))
    {
      var order := MatrixDfsAll(matrix);
      DfsOrderSpec(ListsOf(matrix));
      r := Infos(vexs, order);
    }
  }
}
