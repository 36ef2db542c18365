/** Adjacency matrices in place: a vLen x vLen array of 0/1 entries,
    neighbour iteration by scanning a row, and the depth-first traversal
    that takes neighbours in ascending order. Both matrix graphs share
    these. */
module MatrixScans {
  import opened Common
  import opened Arcs
  import opened Traversal
  import opened AdjacencyLists
  import opened Rows
  import opened DirectedGraphs

  /** Row v of the matrix as a value. */
  ghost function RowOf(m: array2<int>, v: nat): (row: seq<int>)
    reads m
    requires v < m.Length0
    ensures |row| == m.Length1
  {
    seq(m.Length1, j requires 0 <= j < m.Length1 reads m => m[v, j])
  }

  /** Helper (a rewrite step for the solver): the row value holds the
      matrix entries. */
  lemma RowOfSpec(m: array2<int>, v: nat)
    requires v < m.Length0
    ensures forall j :: 0 <= j < m.Length1 ==> RowOf(m, v)[j] == m[v, j]
  {
  }

  /** The neighbour lists the traversal follows: each row's columns
      holding 1, ascending. */
  ghost function ListsOf(m: array2<int>): (adj: seq<seq<nat>>)
    reads m
    requires m.Length0 == m.Length1
    ensures |adj| == m.Length0 && WellFormed(adj)
  {
    seq(m.Length0, v requires 0 <= v < m.Length0 reads m => Ones(RowOf(m, v), 0))
  }

  /** Helper (a rewrite step for the solver): v's list is read off row
      v. */
  lemma ListsOfRow(m: array2<int>, v: nat)
    requires m.Length0 == m.Length1 && v < m.Length0
    ensures ListsOf(m)[v] == Ones(RowOf(m, v), 0)
  {
  }

  /** The lists read off a square matrix: v's list holds exactly the
      columns whose entry in row v is 1, each once, in ascending order. */
  lemma ListsOfSpec(m: array2<int>)
    requires m.Length0 == m.Length1
    ensures forall v :: 0 <= v < m.Length0 ==> NoDup(ListsOf(m)[v])
    ensures forall v, a, b :: 0 <= v < m.Length0 && 0 <= a < b < |ListsOf(m)[v]| ==> ListsOf(m)[v][a] < ListsOf(m)[v][b]
    ensures forall v, w :: 0 <= v < m.Length0 && 0 <= w < m.Length0 ==> (w in ListsOf(m)[v] <==> m[v, w] == 1)
  {
    forall v | 0 <= v < m.Length0
      ensures NoDup(ListsOf(m)[v])
      ensures forall a, b :: 0 <= a < b < |ListsOf(m)[v]| ==> ListsOf(m)[v][a] < ListsOf(m)[v][b]
      ensures forall w :: 0 <= w < m.Length0 ==> (w in ListsOf(m)[v] <==> m[v, w] == 1)
    {
      ListsOfRow(m, v);
      RowOfSpec(m, v);
      OnesSpec(RowOf(m, v), 0);
    }
  }

  /** The first neighbour of v: the least column whose entry in row v is
      1, or -1 when there is none or v is not a position. */
  method FirstVertex(m: array2<int>, v: int) returns (r: int)
    requires m.Length0 == m.Length1
    ensures v < 0 || v >= m.Length0 ==> r == -1
    ensures 0 <= v < m.Length0 ==> r == Following(RowOf(m, v), 0)
  {
    var n := m.Length0;
    if v < 0 || v > n - 1 {
      return -1;
    }
    RowOfSpec(m, v);
    for i := 0 to n
      invariant forall j :: 0 <= j < i ==> m[v, j] != 1
    {
      if m[v, i] == 1 {
        return i;
      }
    }
    return -1;
  }

  /** The neighbour of v after w: the least column above w whose entry in
      row v is 1, or -1 when there is none or v or w is not a position. */
  method NextVertex(m: array2<int>, v: int, w: int) returns (r: int)
    requires m.Length0 == m.Length1
    ensures v < 0 || v >= m.Length0 || w < 0 || w >= m.Length0 ==> r == -1
    ensures 0 <= v < m.Length0 && 0 <= w < m.Length0 ==> r == Following(RowOf(m, v), w + 1)
  {
    var n := m.Length0;
    if v < 0 || v > n - 1 {
      return -1;
    }
    if w < 0 || w > n - 1 {
      return -1;
    }
    RowOfSpec(m, v);
    for i := w + 1 to n
      invariant forall j :: w + 1 <= j < i ==> m[v, j] != 1
    {
      if m[v, i] == 1 {
        return i;
      }
    }
    return -1;
  }

  /** The neighbour loop over a row, resumed at the next column holding
      1 from lo on. */
  lemma RowStep(A: seq<seq<nat>>, row: seq<int>, lo: nat, cur: set<nat>, w: nat)
    requires WellFormed(A) && Below(Ones(row, lo), |A|) && w == Following(row, lo)
    ensures w < |A| && Below(Ones(row, w + 1), |A|) && |Ones(row, lo)| == |Ones(row, w + 1)| + 1
    ensures w in cur ==> VisitAll(A, cur, Ones(row, lo)) == VisitAll(A, cur, Ones(row, w + 1))
    ensures w !in cur ==>
      var a := Visit(A, cur, w);
      var b := VisitAll(A, a.visited, Ones(row, w + 1));
      VisitAll(A, cur, Ones(row, lo)) == Walk(b.visited, a.pre + b.pre, a.post + b.post)
  {
    OnesHead(row, lo);
    var ns := Ones(row, lo);
    assert ns == [w] + Ones(row, w + 1);
    assert ns[0] == w && ns[1..] == Ones(row, w + 1);
  }

  /** The recursive visit of i: mark it, record it, then visit every
      unmarked neighbour in ascending order. */
  method MatrixDfsFrom(m: array2<int>, visited: array<bool>, i: nat, order: seq<nat>) returns (order': seq<nat>)
    requires m.Length0 == m.Length1 == visited.Length && i < visited.Length && !visited[i]
    modifies visited
    ensures var w := Visit(ListsOf(m), Marked(old(visited[..])), i);
      Marked(visited[..]) == w.visited && order' == order + w.pre
    decreases Unvisited(visited.Length, Marked(visited[..])), 0
  {
    MarkedSet(visited[..], i);
    visited[i] := true;
    order' := MatrixDfsRow(m, visited, i, order + [i]);
  }

  /** One neighbour w of the loop: visited recursively when unmarked,
      passed over when marked. */
  method MatrixDfsNeighbour(m: array2<int>, visited: array<bool>, w: nat, order: seq<nat>) returns (order': seq<nat>)
    requires m.Length0 == m.Length1 == visited.Length && w < visited.Length
    modifies visited
    ensures var vs := Marked(old(visited[..]));
      if w in vs then visited[..] == old(visited[..]) && order' == order
      else var a := Visit(ListsOf(m), vs, w);
        Marked(visited[..]) == a.visited && order' == order + a.pre
    decreases Unvisited(visited.Length, Marked(visited[..])), 1
  {
    if !visited[w] {
      order' := MatrixDfsFrom(m, visited, w, order);
    } else {
      order' := order;
    }
  }

  /** The neighbour loop of the visit of v: w runs over v's neighbours via
      FirstVertex and NextVertex. */
  method MatrixDfsRow(m: array2<int>, visited: array<bool>, v: nat, order: seq<nat>) returns (order': seq<nat>)
    requires m.Length0 == m.Length1 == visited.Length && v < visited.Length
    modifies visited
    ensures var r := VisitAll(ListsOf(m), Marked(old(visited[..])), ListsOf(m)[v]);
      Marked(visited[..]) == r.visited && order' == order + r.pre
    decreases Unvisited(visited.Length, Marked(visited[..])), 3
  {
    ghost var A := ListsOf(m);
    ghost var row := RowOf(m, v);
    ListsOfRow(m, v);
    ghost var R := VisitAll(A, Marked(visited[..]), A[v]);
    ghost var lo: nat := 0;
    order' := order;
    var w := FirstVertex(m, v);
    while w >= 0
      invariant w == Following(row, lo) && old(Marked(visited[..])) <= Marked(visited[..])
      invariant RowRest(A, row, lo, Marked(visited[..]), order', order, R)
      decreases |Ones(row, lo)|
    {
      order' := RowTurn(m, A, row, visited, w, lo, order', order, R);
      lo := w + 1;
      w := NextVertex(m, v, w);
    }
    RowDone(A, row, lo, Marked(visited[..]), order', order, R);
  }

  /** Helper: the neighbour loop ends with the visit complete. */
  lemma RowDone(A: seq<seq<nat>>, row: seq<int>, lo: nat, vs: set<nat>, done: seq<nat>, start: seq<nat>, R: Walk)
    requires Following(row, lo) == -1 && RowRest(A, row, lo, vs, done, start, R)
    ensures vs == R.visited && done == start + R.pre
  {
    OnesEmpty(row, lo);
    assert VisitAll(A, vs, Ones(row, lo)) == Walk(vs, [], []);
  }

  /** The state of the neighbour loop: what is left of it, from column lo
      on, run from marks vs after the order done, completes the visit R
      that began after the order start. */
  ghost predicate RowRest(A: seq<seq<nat>>, row: seq<int>, lo: nat, vs: set<nat>, done: seq<nat>,
                          start: seq<nat>, R: Walk)
  {
    && WellFormed(A) && Below(Ones(row, lo), |A|)
    && var r := VisitAll(A, vs, Ones(row, lo));
    r.visited == R.visited && done + r.pre == start + R.pre
  }

  /** One turn of the neighbour loop at neighbour w: visit w when it is
      unmarked; the rest of the loop, from the column after w on, still
      completes the same visit with the same order. */
  method RowTurn(m: array2<int>, ghost A: seq<seq<nat>>, ghost row: seq<int>, visited: array<bool>,
                 w: nat, ghost lo: nat, order: seq<nat>, ghost start: seq<nat>, ghost R: Walk)
    returns (order': seq<nat>)
    requires m.Length0 == m.Length1 == visited.Length && A == ListsOf(m)
    requires w == Following(row, lo) && RowRest(A, row, lo, Marked(visited[..]), order, start, R)
    modifies visited
    ensures |Ones(row, w + 1)| < |Ones(row, lo)| && old(Marked(visited[..])) <= Marked(visited[..])
    ensures RowRest(A, row, w + 1, Marked(visited[..]), order', start, R)
    decreases Unvisited(visited.Length, Marked(visited[..])), 2
  {
    ghost var cur := Marked(visited[..]);
    RowStep(A, row, lo, cur, w);
    order' := MatrixDfsNeighbour(m, visited, w, order);
    if w !in cur {
      ghost var a := Visit(A, cur, w);
      SeqAssoc(order, a.pre, VisitAll(A, a.visited, Ones(row, w + 1)).pre);
    }
  }

  /** The traversal of all vertices: a visit from every unmarked position,
      lowest first. */
  method MatrixDfsAll(m: array2<int>) returns (order: seq<nat>)
    requires m.Length0 == m.Length1
    ensures order == DfsOrder(ListsOf(m))
  {
    ghost var A := ListsOf(m);
    var n := m.Length0;
    var visited := NoMarks(n);
    order := [];
    for i := 0 to n
      invariant order + Roots(A, Marked(visited[..]), i).pre == Roots(A, {}, 0).pre
    {
      order := MatrixDfsRoot(m, A, visited, i, order);
    }
    assert Roots(A, Marked(visited[..]), n).pre == [];
  }

  /** One turn of the outer loop at position i: a visit from i when it is
      unmarked; the visits still to come are unchanged. */
  method MatrixDfsRoot(m: array2<int>, ghost A: seq<seq<nat>>, visited: array<bool>, i: nat, order: seq<nat>)
    returns (order': seq<nat>)
    requires m.Length0 == m.Length1 == visited.Length && i < visited.Length && A == ListsOf(m)
    modifies visited
    ensures order' + Roots(A, Marked(visited[..]), i + 1).pre == order + Roots(A, Marked(old(visited[..])), i).pre
  {
    ghost var cur := Marked(visited[..]);
    RootsStep(A, cur, i);
    if !visited[i] {
      ghost var a := Visit(A, cur, i);
      order' := MatrixDfsFrom(m, visited, i, order);
      SeqAssoc(order, a.pre, Roots(A, a.visited, i + 1).pre);
    } else {
      order' := order;
    }
  }
}
