/** Adjacency matrices as values: the entry for a pair of positions, the
    neighbours a row lists (the columns holding 1, ascending), and the next
    such column from a given one on. */
module Rows {
  import opened Common
  import opened Arcs

  /** The directed matrix entry: 1 exactly when some resolved edge runs
      from i to j. */
  function DirectedEntry(arcs: seq<Arc>, i: nat, j: nat): int
  {
    if (i, j) in arcs then 1 else 0
  }

  /** The undirected matrix entry: 1 exactly when some resolved edge joins
      i and j, in either orientation. */
  function UndirectedEntry(arcs: seq<Arc>, i: nat, j: nat): int
  {
    if (i, j) in arcs || (j, i) in arcs then 1 else 0
  }

  /** Adding an edge sets its entry (both entries for an undirected graph)
      and leaves every other entry as it was; adding an edge again changes
      nothing. */
  lemma EntryAppend(arcs: seq<Arc>, a: Arc, i: nat, j: nat)
    ensures DirectedEntry(arcs + [a], i, j) == if (i, j) == a then 1 else DirectedEntry(arcs, i, j)
    ensures UndirectedEntry(arcs + [a], i, j) ==
      if (i, j) == a || (j, i) == a then 1 else UndirectedEntry(arcs, i, j)
    ensures a in arcs ==> DirectedEntry(arcs + [a], i, j) == DirectedEntry(arcs, i, j)
    ensures a in arcs ==> UndirectedEntry(arcs + [a], i, j) == UndirectedEntry(arcs, i, j)
  {
    assert forall b :: b in arcs + [a] <==> b in arcs || b == a;
  }

  /** The columns from `from` on whose entry in row is 1, ascending. */
  function Ones(row: seq<int>, from: nat): (r: seq<nat>)
    ensures forall k :: 0 <= k < |r| ==> from <= r[k] < |row|
    decreases |row| - from
  {
    if from >= |row| then []
    else if row[from] == 1 then [from] + Ones(row, from + 1)
    else Ones(row, from + 1)
  }

  /** Ones lists exactly the columns holding 1, strictly ascending. */
  lemma {:induction false} OnesSpec(row: seq<int>, from: nat)
    ensures forall k :: 0 <= k < |Ones(row, from)| ==> row[Ones(row, from)[k]] == 1
    ensures forall j :: from <= j < |row| && row[j] == 1 ==> j in Ones(row, from)
    ensures forall a, b :: 0 <= a < b < |Ones(row, from)| ==> Ones(row, from)[a] < Ones(row, from)[b]
    decreases |row| - from
  {
    if from < |row| {
      OnesSpec(row, from + 1);
    }
  }

  /** The least column from `from` on whose entry is 1, or -1 when there is
      none: the answer of the neighbour scans. */
  function Following(row: seq<int>, from: nat): (r: int)
    ensures -1 <= r < |row|
    ensures r >= 0 ==> from <= r && row[r] == 1 && forall j :: from <= j < r ==> row[j] != 1
    ensures r == -1 <==> forall j :: from <= j < |row| ==> row[j] != 1
  {
    OnesSpec(row, from);
    var o := Ones(row, from);
    if o == [] then -1 else o[0]
  }

  /** The ascending neighbour list starts at the next column holding 1 and
      goes on from the column after it: the step of the iteration
      w = first(v); w >= 0; w = next(v, w). */
  lemma {:induction false} OnesHead(row: seq<int>, from: nat)
    requires Following(row, from) >= 0
    ensures Ones(row, from) == [Following(row, from) as nat] + Ones(row, Following(row, from) as nat + 1)
    decreases |row| - from
  {
    assert from < |row|;
    OnesSpec(row, from);
    if row[from] != 1 {
      assert Ones(row, from) == Ones(row, from + 1);
      assert Following(row, from) == Following(row, from + 1);
      OnesHead(row, from + 1);
    } else {
      assert Following(row, from) == from;
    }
  }

  lemma OnesEmpty(row: seq<int>, from: nat)
    requires Following(row, from) == -1
    ensures Ones(row, from) == []
  {
    OnesSpec(row, from);
  }
}
