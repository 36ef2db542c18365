/** The procedures the adjacency-list graphs share, over an array holding
    one list of neighbour positions per vertex (the linked edge chains of
    the source): construction by tail-appending, recursive depth-first
    search, array-queue breadth-first search, and edge reversal. Each is
    proved against the specification functions of Arcs and Traversal. */
module AdjacencyLists {
  import opened Common
  import opened Arcs
  import opened Traversal

  /** The positions a visited-flag array has marked. */
  ghost function Marked(s: seq<bool>): set<nat>
  {
    set k: nat | k < |s| && s[k]
  }

  /** Helper (a rewrite step for the solver): raising flag i marks i. */
  lemma MarkedSet(s: seq<bool>, i: nat)
    requires i < |s|
    ensures Marked(s[i := true]) == Marked(s) + {i}
  {
  }

  /** Helper (a rewrite step for the solver): all flags down marks
      nothing. */
  lemma MarkedNone(n: nat)
    ensures Marked(seq(n, _ => false)) == {}
  {
  }

  /** A new flag array with every flag down. */
  method NoMarks(n: nat) returns (visited: array<bool>)
    ensures fresh(visited) && visited.Length == n && Marked(visited[..]) == {}
  {
    visited := new bool[n](_ => false);
    MarkedNone(n);
    assert visited[..] == seq(n, _ => false);
  }

  /** Helper (a rewrite step for the solver): concatenation is
      associative. */
  lemma SeqAssoc(a: seq<nat>, b: seq<nat>, c: seq<nat>)
    ensures (a + b) + c == a + (b + c)
  {
  }

  /** Links x at the tail of vertex v's edge chain. */
  method LinkLast(lists: array<seq<nat>>, v: nat, x: nat)
    requires v < lists.Length
    modifies lists
    ensures lists[..] == old(lists[..])[v := old(lists[v]) + [x]]
  {
    lists[v] := lists[v] + [x];
  }

  /** Directed construction: an edge with an unresolved endpoint is skipped,
      every other edge links its destination at the tail of its source's
      chain. */
  method BuildDirected<T(==)>(vexs: seq<T>, edges: seq<Edge<T>>) returns (lists: array<seq<nat>>)
    ensures fresh(lists) && lists[..] == DirectedLists(vexs, edges)
  {
    lists := new seq<nat>[|vexs|](_ => []);
    for i := 0 to |edges|
      invariant lists.Length == |vexs|
      invariant lists[..] == DirectedLists(vexs, edges[..i])
    {
      ResolvedStep(vexs, edges, i);
      var sp := IndexOf(vexs, edges[i].0);
      var ep := IndexOf(vexs, edges[i].1);
      if sp == -1 || ep == -1 {
        assert Resolved(vexs, edges[..i + 1]) == Resolved(vexs, edges[..i]);
        continue;
      }
      OutListsAppend(Resolved(vexs, edges[..i]), (sp, ep), |vexs|);
      assert Resolved(vexs, edges[..i + 1]) == Resolved(vexs, edges[..i]) + [(sp as nat, ep as nat)];
      LinkLast(lists, sp, ep);
      assert lists[..] == OutLists(Resolved(vexs, edges[..i + 1]), |vexs|);
    }
    assert edges[..|edges|] == edges;
  }

  /** Undirected construction: each resolved edge links its destination at
      the tail of its source's chain, then its source at the tail of its
      destination's chain. */
  method BuildUndirected<T(==)>(vexs: seq<T>, edges: seq<Edge<T>>) returns (lists: array<seq<nat>>)
    ensures fresh(lists) && lists[..] == UndirectedLists(vexs, edges)
  {
    lists := new seq<nat>[|vexs|](_ => []);
    for i := 0 to |edges|
      invariant lists.Length == |vexs|
      invariant lists[..] == UndirectedLists(vexs, edges[..i])
    {
      ResolvedStep(vexs, edges, i);
      var sp := IndexOf(vexs, edges[i].0);
      var ep := IndexOf(vexs, edges[i].1);
      if sp == -1 || ep == -1 {
        assert Resolved(vexs, edges[..i + 1]) == Resolved(vexs, edges[..i]);
        continue;
      }
      IncidentListsAppend(Resolved(vexs, edges[..i]), (sp, ep), |vexs|);
      assert Resolved(vexs, edges[..i + 1]) == Resolved(vexs, edges[..i]) + [(sp as nat, ep as nat)];
      LinkLast(lists, sp, ep);
      LinkLast(lists, ep, sp);
      assert lists[..] == IncidentLists(Resolved(vexs, edges[..i + 1]), |vexs|);
    }
    assert edges[..|edges|] == edges;
  }

  /** The recursive visit: mark i, record it, then visit each unmarked
      neighbour in chain order. The recorded order and the marks it leaves
      are those of the specification's visit. */
  method DfsFrom(adj: array<seq<nat>>, visited: array<bool>, i: nat, order: seq<nat>) returns (order': seq<nat>)
    requires WellFormed(adj[..]) && visited.Length == adj.Length && i < adj.Length && !visited[i]
    modifies visited
    ensures var w := Visit(adj[..], Marked(old(visited[..])), i);
      Marked(visited[..]) == w.visited && order' == order + w.pre
    decreases Unvisited(adj.Length, Marked(visited[..])), 0
  {
    MarkedSet(visited[..], i);
    visited[i] := true;
    order' := DfsNeighbours(adj, visited, adj[i], order + [i]);
  }

  /** The loop of a visit over one edge chain: each entry still unmarked
      is visited recursively, in chain order. */
  method DfsNeighbours(adj: array<seq<nat>>, visited: array<bool>, ns: seq<nat>, order: seq<nat>)
    returns (order': seq<nat>)
    requires WellFormed(adj[..]) && visited.Length == adj.Length && Below(ns, adj.Length)
    modifies visited
    ensures var w := VisitAll(adj[..], Marked(old(visited[..])), ns);
      Marked(visited[..]) == w.visited && order' == order + w.pre
    decreases Unvisited(adj.Length, Marked(visited[..])), 2
  {
    ghost var A := adj[..];
    ghost var R := VisitAll(A, Marked(visited[..]), ns);
    order' := order;
    var k := 0;
    while k < |ns|
      invariant 0 <= k <= |ns|
      invariant old(Marked(visited[..])) <= Marked(visited[..])
      invariant VisitAll(A, Marked(visited[..]), ns[k..]).visited == R.visited
      invariant order' + VisitAll(A, Marked(visited[..]), ns[k..]).pre == order + R.pre
    {
      order' := DfsEntry(adj, A, visited, ns, k, order');
      k := k + 1;
    }
    assert ns[k..] == [];
    assert VisitAll(A, Marked(visited[..]), ns[k..]) == Walk(Marked(visited[..]), [], []);
  }

  /** One turn of the chain loop at entry k: visit it when it is unmarked;
      what is left of the loop is unchanged. */
  method DfsEntry(adj: array<seq<nat>>, ghost A: seq<seq<nat>>, visited: array<bool>, ns: seq<nat>, k: nat,
                  order: seq<nat>)
    returns (order': seq<nat>)
    requires A == adj[..] && WellFormed(A) && visited.Length == |A| && Below(ns, |A|) && k < |ns|
    modifies visited
    ensures Below(ns[k + 1..], |A|) && Below(ns[k..], |A|)
    ensures var vs, vs' := Marked(old(visited[..])), Marked(visited[..]);
      && vs <= vs'
      && VisitAll(A, vs', ns[k + 1..]).visited == VisitAll(A, vs, ns[k..]).visited
      && order' + VisitAll(A, vs', ns[k + 1..]).pre == order + VisitAll(A, vs, ns[k..]).pre
    decreases Unvisited(visited.Length, Marked(visited[..])), 1
  {
    ghost var cur := Marked(visited[..]);
    VisitAllStep(A, cur, ns, k);
    var x := ns[k];
    if !visited[x] {
      ghost var a := Visit(A, cur, x);
      order' := DfsFrom(adj, visited, x, order);
      SeqAssoc(order, a.pre, VisitAll(A, a.visited, ns[k + 1..]).pre);
    } else {
      order' := order;
    }
  }

  /** Depth-first traversal of all vertices: restart from every unmarked
      position in ascending order. */
  method DfsAll(adj: array<seq<nat>>) returns (order: seq<nat>)
    requires WellFormed(adj[..])
    ensures order == DfsOrder(adj[..])
  {
    ghost var A := adj[..];
    var n := adj.Length;
    var visited := NoMarks(n);
    order := [];
    ghost var R := Roots(A, {}, 0);
    for i := 0 to n
      invariant visited.Length == n
      invariant order + Roots(A, Marked(visited[..]), i).pre == R.pre
    {
      order := DfsRoot(adj, A, visited, i, order);
    }
  }

  /** One turn of the outer loop: an unmarked i roots a visit, a marked one
      is passed over; what is left of the loop is unchanged. */
  method DfsRoot(adj: array<seq<nat>>, ghost A: seq<seq<nat>>, visited: array<bool>, i: nat, order: seq<nat>)
    returns (order': seq<nat>)
    requires A == adj[..] && WellFormed(A) && visited.Length == |A| && i < |A|
    modifies visited
    ensures order' + Roots(A, Marked(visited[..]), i + 1).pre == order + Roots(A, Marked(old(visited[..])), i).pre
  {
    ghost var cur := Marked(visited[..]);
    RootsStep(A, cur, i);
    if !visited[i] {
      ghost var a := Visit(A, cur, i);
      order' := DfsFrom(adj, visited, i, order);
      SeqAssoc(order, a.pre, Roots(A, a.visited, i + 1).pre);
    } else {
      assert i in cur;
      order' := order;
    }
  }

  /** The chain scan of one dequeued vertex: each entry still unmarked is
      marked, emitted and stored at the queue's rear. */
  method ScanChain(visited: array<bool>, queue: array<nat>, ns: seq<nat>, order: seq<nat>, rear: nat)
    returns (order': seq<nat>, rear': nat)
    requires visited.Length == queue.Length && Below(ns, visited.Length)
    requires rear == |order| <= queue.Length && queue[..rear] == order
    requires Consistent(visited.Length, Marked(visited[..]), order)
    modifies visited, queue
    ensures var s := Scan(visited.Length, old(Marked(visited[..])), order, ns);
      Marked(visited[..]) == s.visited && order' == s.queue
    ensures rear' == |order'| <= queue.Length && queue[..rear'] == order'
  {
    ghost var n := visited.Length;
    ghost var S := Scan(n, Marked(visited[..]), order, ns);
    order', rear' := order, rear;
    var k := 0;
    while k < |ns|
      invariant 0 <= k <= |ns|
      invariant rear' == |order'| <= n && queue[..rear'] == order'
      invariant Consistent(n, Marked(visited[..]), order')
      invariant Scan(n, Marked(visited[..]), order', ns[k..]) == S
    {
      ScanStep(n, Marked(visited[..]), order', ns, k);
      order', rear' := Enqueue(visited, queue, ns[k], order', rear');
      k := k + 1;
    }
    assert ns[k..] == [];
  }

  /** The inner while loop: dequeue from head and scan the dequeued
      vertex's chain until head meets rear. */
  method DrainQueue(adj: array<seq<nat>>, visited: array<bool>, queue: array<nat>,
                    head: nat, order: seq<nat>, rear: nat)
    returns (order': seq<nat>, rear': nat)
    requires WellFormed(adj[..]) && visited.Length == queue.Length == adj.Length
    requires head <= rear == |order| <= queue.Length && queue[..rear] == order
    requires Consistent(adj.Length, Marked(visited[..]), order)
    modifies visited, queue
    ensures var d := Drain(adj[..], old(Marked(visited[..])), order, head);
      Marked(visited[..]) == d.visited && order' == d.queue
    ensures rear' == |order'| <= queue.Length && queue[..rear'] == order'
  {
    ghost var A := adj[..];
    ghost var n := adj.Length;
    ghost var D := Drain(A, Marked(visited[..]), order, head);
    var h: nat := head;
    order', rear' := order, rear;
    while h != rear'
      invariant h <= rear' == |order'| <= n && queue[..rear'] == order'
      invariant Consistent(n, Marked(visited[..]), order')
      invariant Drain(A, Marked(visited[..]), order', h) == D
      decreases Unvisited(n, Marked(visited[..])), rear' - h
    {
      h, order', rear' := Dequeue(adj, A, visited, queue, h, order', rear');
    }
  }

  /** One turn of the draining loop: take the vertex at the head and scan
      its chain; what is left of the drain is unchanged. */
  method Dequeue(adj: array<seq<nat>>, ghost A: seq<seq<nat>>, visited: array<bool>, queue: array<nat>,
                 h: nat, order: seq<nat>, rear: nat)
    returns (h': nat, order': seq<nat>, rear': nat)
    requires A == adj[..] && WellFormed(A) && visited.Length == queue.Length == |A|
    requires h < rear == |order| <= queue.Length && queue[..rear] == order
    requires Consistent(|A|, Marked(visited[..]), order)
    modifies visited, queue
    ensures h' == h + 1 && h' <= rear' == |order'| <= queue.Length && queue[..rear'] == order'
    ensures Consistent(|A|, Marked(visited[..]), order')
    ensures Drain(A, Marked(visited[..]), order', h') == Drain(A, Marked(old(visited[..])), order, h)
    ensures var vs, vs' := Marked(old(visited[..])), Marked(visited[..]);
      (vs' == vs && order' == order) || Unvisited(|A|, vs') < Unvisited(|A|, vs)
  {
    ghost var n := |A|;
    ghost var cur := Marked(visited[..]);
    var j := queue[h];
    assert j == order[h] && j < n;
    assert Below(adj[j], n) by {
      assert adj[j] == A[j];
    }
    ghost var S := Scan(n, cur, order, A[j]);
    assert Drain(A, cur, order, h) == Drain(A, S.visited, S.queue, h + 1);
    assert |S.queue| == |order| ==> S.queue == S.queue[..|order|];
    assert |S.queue| > |order| ==> S.queue[|order|] in Unvisited(n, cur) - Unvisited(n, S.visited);
    h' := h + 1;
    order', rear' := ScanChain(visited, queue, adj[j], order, rear);
  }

  /** Breadth-first traversal of all vertices over a queue array of n
      slots: head and rear never pass n, and what has been emitted is
      exactly the queue's contents. */
  method BfsAll(adj: array<seq<nat>>) returns (order: seq<nat>)
    requires WellFormed(adj[..])
    ensures order == BfsOrder(adj[..])
  {
    ghost var A := adj[..];
    var n := adj.Length;
    var head, rear := 0, 0;
    var queue := new nat[n];
    var visited := NoMarks(n);
    order := [];
    ghost var R := BfsRoots(A, {}, [], 0);
    for i := 0 to n
      invariant visited.Length == n && queue.Length == n
      invariant head == rear == |order| <= n && queue[..rear] == order
      invariant Consistent(n, Marked(visited[..]), order)
      invariant BfsRoots(A, Marked(visited[..]), order, i) == R
    {
      head, order, rear := BfsRoot(adj, A, visited, queue, i, head, order, rear);
    }
    assert BfsRoots(A, Marked(visited[..]), order, n).queue == order;
  }

  /** Position i of the outer loop: marked and enqueued when still
      unmarked. */
  method Enqueue(visited: array<bool>, queue: array<nat>, i: nat, order: seq<nat>, rear: nat)
    returns (order': seq<nat>, rear': nat)
    requires visited.Length == queue.Length && i < visited.Length
    requires rear == |order| <= queue.Length && queue[..rear] == order
    requires Consistent(visited.Length, Marked(visited[..]), order)
    modifies visited, queue
    ensures var vs := Marked(old(visited[..]));
      && Marked(visited[..]) == (if i in vs then vs else vs + {i})
      && order' == (if i in vs then order else order + [i])
    ensures rear' == |order'| <= queue.Length && queue[..rear'] == order'
    ensures Consistent(visited.Length, Marked(visited[..]), order')
  {
    order', rear' := order, rear;
    if !visited[i] {
      NoDupConcat(order, [i]);
      NoDupBelowBound(order + [i], visited.Length);
      MarkedSet(visited[..], i);
      visited[i] := true;
      order' := order + [i];
      queue[rear] := i;
      rear' := rear + 1;
    }
  }

  /** One turn of the outer loop: enqueue i when unmarked, then drain the
      queue; what is left of the loop is unchanged. */
  method BfsRoot(adj: array<seq<nat>>, ghost A: seq<seq<nat>>, visited: array<bool>, queue: array<nat>,
                 i: nat, head: nat, order: seq<nat>, rear: nat)
    returns (head': nat, order': seq<nat>, rear': nat)
    requires A == adj[..] && WellFormed(A) && visited.Length == queue.Length == |A| && i < |A|
    requires head == rear == |order| <= queue.Length && queue[..rear] == order
    requires Consistent(|A|, Marked(visited[..]), order)
    modifies visited, queue
    ensures head' == rear' == |order'| <= queue.Length && queue[..rear'] == order'
    ensures Consistent(|A|, Marked(visited[..]), order')
    ensures BfsRoots(A, Marked(visited[..]), order', i + 1) == BfsRoots(A, Marked(old(visited[..])), order, i)
  {
    ghost var vs := Marked(visited[..]);
    BfsRootsStep(A, vs, order, i);
    ghost var vs1 := if i in vs then vs else vs + {i};
    ghost var q1 := if i in vs then order else order + [i];
    ghost var d := Drain(A, vs1, q1, |order|);
    order', rear' := Enqueue(visited, queue, i, order, rear);
    assert Marked(visited[..]) == vs1 && order' == q1;
    order', rear' := DrainQueue(adj, visited, queue, head, order', rear');
    assert Marked(visited[..]) == d.visited && order' == d.queue;
    head' := rear';
  }

  /** The inner loop of edge reversal over source i's chain ns: i is
      linked at the tail of the new chain of every entry, once per
      occurrence. */
  method LinkSource(rev: array<seq<nat>>, ns: seq<nat>, i: nat)
    requires Below(ns, rev.Length)
    modifies rev
    ensures forall j :: 0 <= j < rev.Length ==> rev[j] == old(rev[j]) + Repeat(i, multiset(ns)[j])
  {
    var k := 0;
    while k < |ns|
      invariant 0 <= k <= |ns|
      invariant forall j :: 0 <= j < rev.Length ==> rev[j] == old(rev[j]) + Repeat(i, multiset(ns[..k])[j])
    {
      var w := ns[k];
      assert ns[..k + 1] == ns[..k] + [w];
      forall j | 0 <= j < rev.Length
        ensures Repeat(i, multiset(ns[..k + 1])[j]) ==
          Repeat(i, multiset(ns[..k])[j]) + (if j == w then [i] else [])
      {
      }
      LinkLast(rev, w, i);
      k := k + 1;
    }
    assert ns[..|ns|] == ns;
  }

  /** Edge reversal: for every source i in ascending order and every entry
      j of i's chain, i is linked at the tail of j's new chain. */
  method ReverseLists(adj: array<seq<nat>>) returns (rev: array<seq<nat>>)
    requires WellFormed(adj[..])
    ensures fresh(rev) && rev[..] == Transposed(adj[..])
  {
    ghost var A := adj[..];
    var n := adj.Length;
    rev := new seq<nat>[n](_ => []);
    for i := 0 to n
      invariant rev.Length == n
      invariant forall j :: 0 <= j < n ==> rev[j] == Sources(A, j, i)
    {
      assert Below(adj[i], n) by {
        assert adj[i] == A[i];
      }
      LinkSource(rev, adj[i], i);
    }
  }
}
