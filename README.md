# Graphs over adjacency lists and adjacency matrices

This project models six small in-memory graph classes and proves properties of the model. Two of them are generic: `DirectedGraph<T>` and `UndirectedGraph<T>`. Four are character-valued: `ListDirectedGraph`, `ListUndirectedGraph`, `MatrixDirectedGraph` and `MatrixUndirectedGraph`. It also covers the two analyses nested in the generic classes: Kosaraju's strongly connected components (`StronglyConnectedComponent`) and connected components (`ConnectedComponent`). Finally, it models the parent-tracking cycle test of the undirected graph.

Every graph is built from a vertex array and a list of edges given as pairs of vertex values. An endpoint is looked up by a backward scan, so it resolves to the last position holding that value. An edge with an endpoint not found is skipped.

List graphs keep one linked edge chain per vertex and append each new edge at its tail. An undirected graph appends twice, once in each endpoint's chain. Here a chain is a `seq<nat>` of neighbour positions, and the chains live in an `array<seq<nat>>` that construction fills in place.

Matrix graphs keep a `vLen x vLen` `array2<int>` of 0/1 entries and find neighbours by scanning a row.

The traversals are these:
- Every graph except `ListUndirectedGraph` has a recursive depth-first search over every vertex. It restarts from the lowest unmarked position and uses a shared `visited` array.
- `DirectedGraph`, `UndirectedGraph` and `ListDirectedGraph` also have a breadth-first search with an array queue of `vLen` slots and `head`/`rear` indices.
- `ListUndirectedGraph` has no traversal at all.

What the traversals print is returned as a sequence.

The model is layered as follows:

- **Specification functions.** The pure modules `Common`, `Arcs`, `Rows`, `Traversal`, `Cycles`, `Forests` and `Labelling` define what each operation computes:
  - the resolved edges;
  - the lists tail-appending builds;
  - the transpose;
  - the matrix entries and row scans;
  - the depth-first walk with its visiting and finishing orders;
  - the breadth-first sweep;
  - reachability;
  - the cycle search, and the edge count of a graph it finds acyclic;
  - the component labelling invariant.
- **Imperative code.** The modules `AdjacencyLists` and `MatrixScans` hold the loops and recursions over arrays that all the graphs share, each proved equal to its specification function.
- **Classes.** Each class of the source is a class here, with its fields, `modifies` clauses on its methods, and `reads` clauses on its functions.

## Model

| member | source | states |
|---|---|---|
| Common.LastIndex | com/tuhailong/graph/DirectedGraph.java:90-97 | the backward scan's answer: the largest position holding the value, or -1 exactly when the value does not occur |
| Common.IndexOf | com/tuhailong/graph/DirectedGraph.java:90-97 | the loop from the last position down to 0 returns the largest matching position, or -1 |
| Arcs.Resolved | com/tuhailong/graph/DirectedGraph.java:47-55 | the arcs construction keeps, in edge order: at most one per edge, every endpoint a vertex position |
| Arcs.UnresolvedSkipped | com/tuhailong/graph/ListUndirectedGraph.java:44-49 | an edge naming a value that is not a vertex leaves the resolved arcs unchanged |
| Arcs.ResolvedAppends | com/tuhailong/graph/DirectedGraph.java:47-55 | a resolvable edge appends exactly one arc, whose endpoints are the last positions holding the edge's values |
| Arcs.ResolvedStep | com/tuhailong/graph/DirectedGraph.java:47-55 | resolving one more edge appends at most one arc, the pair of positions its endpoints resolve to |
| Arcs.OutListCount | com/tuhailong/graph/DirectedGraph.java:56-64 | w occurs in v's directed list exactly as often as the arc (v, w) occurs among the resolved edges (duplicates kept) |
| Arcs.OutListBelow | com/tuhailong/graph/DirectedGraph.java:56-64 | a directed list holds only vertex positions |
| Arcs.DirectedListsSpec | com/tuhailong/graph/DirectedGraph.java:33-65 | directed construction: one list per vertex, positions only, and each destination's multiplicity equals its arc count |
| Arcs.OutListsAppend | com/tuhailong/graph/DirectedGraph.java:79-85 | one more arc (s, e) appends e at the tail of s's list and changes no other list |
| Arcs.IncidentListCount | com/tuhailong/graph/UndirectedGrap.java:44-71 | w occurs in v's undirected list once per arc (v, w) plus once per arc (w, v) |
| Arcs.IncidentListBelow | com/tuhailong/graph/UndirectedGrap.java:44-71 | an undirected list holds only vertex positions |
| Arcs.IncidentSymmetric | com/tuhailong/graph/ListUndirectedGraph.java:42-70 | undirected adjacency is symmetric as multisets: w occurs in v's list as often as v in w's |
| Arcs.UndirectedListsSpec | com/tuhailong/graph/UndirectedGrap.java:29-72 | undirected construction: positions only, multiplicities as above, and symmetric adjacency |
| Arcs.IncidentListsAppend | com/tuhailong/graph/ListUndirectedGraph.java:50-68 | one more arc (s, e) appends e to s's list, then s to e's list, and changes no other list |
| Arcs.SelfLoopTwice | com/tuhailong/graph/ListUndirectedGraph.java:50-68 | a self-loop edge appends its vertex twice to its own list |
| Arcs.Transposed | com/tuhailong/graph/DirectedGraph.java:231-260 | the reverse graph has one list per vertex |
| Arcs.SourcesCount | com/tuhailong/graph/DirectedGraph.java:244-257 | after scanning sources 0..k-1, i occurs in j's new list as often as j occurs in i's list when i < k, otherwise never |
| Arcs.SourcesBelow | com/tuhailong/graph/DirectedGraph.java:244-257 | the reverse graph's lists hold only scanned source positions |
| Arcs.TransposedSpec | com/tuhailong/graph/DirectedGraph.java:231-260 | the reverse graph is well formed and turns every stored arc i -> j into j -> i with the same multiplicity |
| Arcs.TransposeTwice | com/tuhailong/graph/DirectedGraph.java:231-260 | reversing twice gives every list back up to order: the same destinations with the same multiplicities |
| Arcs.SourcesSorted | com/tuhailong/graph/DirectedGraph.java:244-257 | each reversed list lists its sources in ascending order |
| AdjacencyLists.LinkLast | com/tuhailong/graph/DirectedGraph.java:79-85 | the new node becomes the tail of v's chain, other chains unchanged |
| AdjacencyLists.BuildDirected | com/tuhailong/graph/DirectedGraph.java:33-65 | the construction loop leaves exactly the directed lists of the resolved edges |
| AdjacencyLists.BuildUndirected | com/tuhailong/graph/UndirectedGrap.java:29-72 | the construction loop leaves exactly the undirected lists of the resolved edges |
| AdjacencyLists.DfsFrom | com/tuhailong/graph/DirectedGraph.java:102-113 | the recursive visit of i marks and records exactly what the depth-first walk from i marks, in its order |
| AdjacencyLists.DfsNeighbours | com/tuhailong/graph/DirectedGraph.java:106-112 | the chain loop of a visit marks and records exactly what the walk over that chain does |
| AdjacencyLists.DfsEntry | com/tuhailong/graph/DirectedGraph.java:108-111 | one turn of the chain loop: the walk over the rest of the chain ends where the walk from this entry did, and the recorded order plus what is still to be recorded is unchanged |
| AdjacencyLists.DfsAll | com/tuhailong/graph/DirectedGraph.java:119-133 | the traversal returns the depth-first order of the lists |
| AdjacencyLists.NoMarks | com/tuhailong/graph/DirectedGraph.java:123 | a fresh array of vLen flags, none of them marked |
| AdjacencyLists.DfsRoot | com/tuhailong/graph/DirectedGraph.java:126-128 | one turn of the outer loop: the recorded order plus the order the remaining positions will record is unchanged |
| AdjacencyLists.ScanChain | com/tuhailong/graph/DirectedGraph.java:161-170 | scanning a dequeued vertex's chain enqueues and marks exactly the unmarked neighbours, in order, the queue staying within its array |
| AdjacencyLists.DrainQueue | com/tuhailong/graph/DirectedGraph.java:157-171 | the inner loop dequeues until head meets rear, with head <= rear <= vLen throughout, and ends in the specified sweep |
| AdjacencyLists.BfsAll | com/tuhailong/graph/DirectedGraph.java:139-176 | the traversal returns the breadth-first order of the lists |
| AdjacencyLists.Enqueue | com/tuhailong/graph/DirectedGraph.java:151-156 | an unmarked i is marked and appended to the queue, a marked one changes nothing; the queue stays within its array and holds each marked vertex once |
| AdjacencyLists.Dequeue | com/tuhailong/graph/DirectedGraph.java:158-170 | one dequeue and chain scan: the sweep still to come is unchanged, and either nothing new is marked or fewer vertices stay unmarked |
| AdjacencyLists.BfsRoot | com/tuhailong/graph/DirectedGraph.java:151-171 | one turn of the outer loop: the queue is drained, and the sweep of the remaining positions is unchanged |
| AdjacencyLists.LinkSource | com/tuhailong/graph/DirectedGraph.java:245-256 | walking i's chain appends i to the new list of each destination, once per occurrence |
| AdjacencyLists.ReverseLists | com/tuhailong/graph/DirectedGraph.java:231-260 | the reversal loops build exactly the transposed lists |
| Traversal.Visit | com/tuhailong/graph/DirectedGraph.java:102-113 | a visit marks v first and then only unmarked positions, each once, and finishes v last |
| Traversal.VisitAll | com/tuhailong/graph/DirectedGraph.java:106-112 | the loop over a chain marks each unmarked position once, and every chain entry ends up marked |
| Traversal.VisitAllStep | com/tuhailong/graph/DirectedGraph.java:106-112 | the chain loop resumed at entry k skips a marked entry and otherwise visits it, then goes on |
| Traversal.Roots | com/tuhailong/graph/DirectedGraph.java:124-128 | the outer loop marks every position from i on, each once |
| Traversal.RootsStep | com/tuhailong/graph/DirectedGraph.java:125-129 | a marked i is passed over; the walk from an unmarked i comes first, in both visiting and finishing order |
| Traversal.Trees | com/tuhailong/graph/UndirectedGrap.java:271-277 | the number of searches the outer loop starts from position i on: at most one per remaining position, at least one when i is unmarked |
| Traversal.DfsOrderSpec | com/tuhailong/graph/DirectedGraph.java:119-133 | depth-first order lists every vertex exactly once, starting with vertex 0; so does the finishing order |
| Traversal.Scan | com/tuhailong/graph/DirectedGraph.java:161-170 | scanning a chain only appends to the queue, appends only newly marked positions, and keeps queue and marks consistent |
| Traversal.ScanStep | com/tuhailong/graph/DirectedGraph.java:161-170 | the chain scan resumed at entry k enqueues that entry exactly when it is unmarked |
| Traversal.Drain | com/tuhailong/graph/DirectedGraph.java:157-171 | draining the queue only appends to it and keeps queue and marks consistent |
| Traversal.BfsRoots | com/tuhailong/graph/DirectedGraph.java:150-172 | the outer loop marks and enqueues every position from i on, each once |
| Traversal.BfsRootsStep | com/tuhailong/graph/DirectedGraph.java:150-171 | position i is enqueued when unmarked and the queue drained before position i + 1 |
| Traversal.BfsOrderSpec | com/tuhailong/graph/DirectedGraph.java:139-176 | breadth-first order lists every vertex exactly once, starting with vertex 0 |
| Traversal.BfsStartsAtZero | com/tuhailong/graph/DirectedGraph.java:150-156 | a non-empty graph's breadth-first order starts with vertex 0 |
| Traversal.ReachStep | com/tuhailong/graph/DirectedGraph.java:106-112 | following an arc then a path is a path |
| Traversal.ReachTrans | com/tuhailong/graph/DirectedGraph.java:302-310 | reachability is transitive |
| Traversal.ClosedReach | com/tuhailong/graph/DirectedGraph.java:302-310 | nothing outside a marked set closed under arcs is reachable from inside it |
| Traversal.VisitFinished | com/tuhailong/graph/DirectedGraph.java:322-331 | when a visit returns, every vertex it marked has all its neighbours marked |
| Traversal.VisitAllFinished | com/tuhailong/graph/DirectedGraph.java:322-331 | the same for the loop over a chain |
| Traversal.VisitKeepsClosed | com/tuhailong/graph/DirectedGraph.java:302-310 | a visit started from a closed marked set ends with a closed one |
| Traversal.VisitReach | com/tuhailong/graph/DirectedGraph.java:302-310 | every vertex a visit of v marks is reachable from v |
| Traversal.VisitAllReach | com/tuhailong/graph/DirectedGraph.java:302-310 | every vertex the loop over a chain marks is reachable from some entry of the chain |
| DirectedGraphs.Infos | com/tuhailong/graph/DirectedGraph.java:102-104 | the values listed are the vertex values at the positions visited, in order |
| DirectedGraphs.DirectedGraph.constructor | com/tuhailong/graph/DirectedGraph.java:33-65 | vertex values kept in order, chains equal to the directed lists of the resolved edges |
| DirectedGraphs.DirectedGraph.FromLists | com/tuhailong/graph/DirectedGraph.java:68-74 | the private constructor holds a fresh copy of the given vertices |
| DirectedGraphs.DirectedGraph.VertexSize | com/tuhailong/graph/DirectedGraph.java:195-197 | the vertex count equals the number of vertex values given |
| DirectedGraphs.DirectedGraph.Index | com/tuhailong/graph/DirectedGraph.java:90-97 | the largest position holding the item, or -1 exactly when none does |
| DirectedGraphs.DirectedGraph.VertexInfo | com/tuhailong/graph/DirectedGraph.java:202-207 | an out-of-bounds error exactly when v is outside [0, vertexSize), otherwise the value at v |
| DirectedGraphs.DirectedGraph.AdjacentVertexIndexes | com/tuhailong/graph/DirectedGraph.java:212-226 | v's chain in chain order, duplicates kept, positions only; an out-of-bounds error exactly when v is outside [0, vertexSize) |
| DirectedGraphs.DirectedGraph.Dfs | com/tuhailong/graph/DirectedGraph.java:119-133 | the values in depth-first order; every vertex exactly once |
| DirectedGraphs.DirectedGraph.Bfs | com/tuhailong/graph/DirectedGraph.java:139-176 | the values in breadth-first order; every vertex exactly once |
| DirectedGraphs.DirectedGraph.Reverse | com/tuhailong/graph/DirectedGraph.java:231-260 | a fresh graph, same vertex values, chains the transpose of this graph's |
| StrongComponents.Rev | com/tuhailong/graph/DirectedGraph.java:322-331 | pushing onto the stack front reverses the finishing order |
| StrongComponents.PopOrderSpec | com/tuhailong/graph/DirectedGraph.java:312-331 | the stack holds every vertex exactly once |
| StrongComponents.StronglyConnectedComponent.DfsForReversePostOrder | com/tuhailong/graph/DirectedGraph.java:322-331 | a marked v changes nothing; otherwise v is pushed after every vertex its visit marks, i.e. in finishing order |
| StrongComponents.StronglyConnectedComponent.PushEach | com/tuhailong/graph/DirectedGraph.java:326-328 | the for-each loop pushes the finishing order of the walk over the chain |
| StrongComponents.StronglyConnectedComponent.PushEntry | com/tuhailong/graph/DirectedGraph.java:326-328 | one turn of the for-each loop: the stack plus what the rest of the chain will push is unchanged |
| StrongComponents.StronglyConnectedComponent.ReversePostOrder | com/tuhailong/graph/DirectedGraph.java:312-320 | the stack, top first, is the reverse of the finishing order of a traversal of all vertices |
| StrongComponents.StronglyConnectedComponent.PushRoot | com/tuhailong/graph/DirectedGraph.java:316-318 | one turn of the outer loop: the stack plus what the remaining positions will push is unchanged |
| StrongComponents.StronglyConnectedComponent.Dfs | com/tuhailong/graph/DirectedGraph.java:302-310 | a marked v changes nothing; otherwise exactly the vertices the walk marks get the current label |
| StrongComponents.StronglyConnectedComponent.DfsEach | com/tuhailong/graph/DirectedGraph.java:306-308 | the for-each loop labels exactly what the walk over the chain marks |
| StrongComponents.StronglyConnectedComponent.LabelEntry | com/tuhailong/graph/DirectedGraph.java:306-308 | one turn of the for-each loop: the labels stay those of everything marked since the loop began |
| StrongComponents.StronglyConnectedComponent.constructor | com/tuhailong/graph/DirectedGraph.java:281-300 | every vertex is labelled; labels are below count; mutually reachable vertices share a label; each vertex is reachable from its component's root |
| StrongComponents.StronglyConnectedComponent.LabelInPopOrder | com/tuhailong/graph/DirectedGraph.java:293-299 | popping the whole stack keeps the labelling invariant and marks every vertex |
| StrongComponents.AllPopped | com/tuhailong/graph/DirectedGraph.java:293-299 | once every vertex of the stack is popped and marked, every position is marked |
| StrongComponents.StronglyConnectedComponent.StartAt | com/tuhailong/graph/DirectedGraph.java:294-298 | a popped vertex not yet marked roots a new component; the labelling invariant is kept |
| StrongComponents.StronglyConnectedComponent.Count | com/tuhailong/graph/DirectedGraph.java:336-338 | 1 <= count <= vertexSize for a non-empty graph; the roots of two different components are never mutually reachable, so a strongly connected graph has exactly one component |
| StrongComponents.StronglyConnectedComponent.AllConnected | com/tuhailong/graph/DirectedGraph.java:343-358 | exactly the positions with v's id, ascending, including v and every vertex mutually reachable with v; all reachable from the component's root; an out-of-bounds error exactly when v is outside [0, vertexSize) |
| Labelling.Assign | com/tuhailong/graph/DirectedGraph.java:305 | the labels after a set of vertices receives label c |
| Labelling.AssignTwice | com/tuhailong/graph/UndirectedGrap.java:282-283 | labelling two sets with one label is labelling their union |
| Labelling.LabelledStart | com/tuhailong/graph/UndirectedGrap.java:267-270 | nothing marked and no components satisfies the labelling invariant |
| Labelling.LabelledStep | com/tuhailong/graph/UndirectedGrap.java:271-276 | a visit from an unmarked root labelling what it marks with the next id keeps the invariant, whatever the order of roots |
| Labelling.LabelledCount | com/tuhailong/graph/UndirectedGrap.java:309-311 | the component roots are distinct, so count <= vertexSize; a non-empty marked set has count >= 1 |
| Labelling.LabelledRootsApart | com/tuhailong/graph/DirectedGraph.java:293-299 | the roots of two different trees of the labelling are never mutually reachable; when all marked vertices are mutually reachable there is one tree |
| Labelling.LabelClass | com/tuhailong/graph/DirectedGraph.java:343-358 | v's label is below count, is shared by everything mutually reachable with v, and only by vertices reachable from v's root |
| Cycles.CycleVisit | com/tuhailong/graph/UndirectedGrap.java:195-210 | the search from v marks v and keeps what was marked |
| Cycles.CycleScan | com/tuhailong/graph/UndirectedGrap.java:200-209 | the chain loop only adds marks |
| Cycles.CycleScanStep | com/tuhailong/graph/UndirectedGrap.java:200-209 | entry k: unmarked is searched with v as parent; marked and not the parent reports a cycle and stops the loop; the parent is passed over |
| Cycles.CycleRoots | com/tuhailong/graph/UndirectedGrap.java:182-189 | the outer loop marks every position from i on |
| Cycles.HasCycleAsWritten | com/tuhailong/graph/UndirectedGrap.java:179-192 | the search as written (each root its own parent): false without edges, and equal to the corrected answer on every graph without self-loops |
| Cycles.Cyclic | com/tuhailong/graph/UndirectedGrap.java:179-192 | the corrected search (a root has no parent): false without edges, true whenever a vertex is listed in its own list |
| Cycles.NoArcsRoots | com/tuhailong/graph/UndirectedGrap.java:182-189 | with every chain empty the outer loop reports nothing |
| Cycles.VisitNoSelfLoop | com/tuhailong/graph/UndirectedGrap.java:195-210 | a search not reporting a cycle marks no vertex with a self-loop |
| Cycles.ScanNoSelfLoop | com/tuhailong/graph/UndirectedGrap.java:200-209 | a chain scan not reporting a cycle does not contain its own vertex and marks no self-loop vertex |
| Cycles.RootsNoSelfLoop | com/tuhailong/graph/UndirectedGrap.java:182-189 | corrected outer loop: if nothing is reported, no marked vertex has a self-loop |
| Cycles.ScanParentIrrelevant | com/tuhailong/graph/UndirectedGrap.java:204-206 | the parent only matters where the chain names it |
| Cycles.RootsAgree | com/tuhailong/graph/UndirectedGrap.java:182-189 | without self-loops the search as written and the corrected one run identically |
| Cycles.RootSelfLoopMissed | com/tuhailong/graph/UndirectedGrap.java:186-187 | the one-vertex graph with a self-loop: the search as written answers false, the corrected one true |
| Forests.VisitCount | com/tuhailong/graph/UndirectedGrap.java:195-210 | a search from v reporting nothing marks what the plain depth-first visit marks, and those vertices' lists hold two entries per vertex, less two, plus v's entries for its parent |
| Forests.ScanCount | com/tuhailong/graph/UndirectedGrap.java:200-209 | a chain scan reporting nothing marks what the plain chain loop marks, every entry already marked is the parent, and the lists of what it marks plus the scanned entries hold two entries per marked vertex plus the parent entries |
| Forests.ChildCount | com/tuhailong/graph/UndirectedGrap.java:203-204 | an unmarked entry searched with v as parent, when nothing is reported, occurs once in v's chain, so v occurs once in its chain |
| Forests.RootsCount | com/tuhailong/graph/UndirectedGrap.java:182-189 | the corrected outer loop reporting nothing: the lists of what it marks hold two entries per marked vertex less two per search tree |
| Forests.AcyclicCount | com/tuhailong/graph/UndirectedGrap.java:179-192 | symmetric lists found acyclic hold in total 2 x (vertices - search trees) entries |
| Forests.IncidentTotal | com/tuhailong/graph/UndirectedGrap.java:44-71 | undirected construction stores two chain entries per resolved edge |
| Forests.ForestEdges | com/tuhailong/graph/UndirectedGrap.java:179-192 | an undirected graph the corrected search finds acyclic has exactly vertices - search trees resolved edges (a forest's edge count; the trees are its connected components, see ConnectedComponent.Count); a non-empty graph with at least as many resolved edges as vertices is reported cyclic |
| UndirectedGraphs.UndirectedGraph.constructor | com/tuhailong/graph/UndirectedGrap.java:29-72 | vertex values kept in order, chains equal to the undirected lists of the resolved edges, adjacency symmetric |
| UndirectedGraphs.UndirectedGraph.Index | com/tuhailong/graph/UndirectedGrap.java:88-95 | the largest position holding the item, or -1 exactly when none does |
| UndirectedGraphs.UndirectedGraph.VertexSize | com/tuhailong/graph/UndirectedGrap.java:216-218 | the vertex count equals the number of vertex values given |
| UndirectedGraphs.UndirectedGraph.AdjacentVertexIndexes | com/tuhailong/graph/UndirectedGrap.java:223-237 | v's chain in order; w is listed by v exactly when v is listed by w; an out-of-bounds error exactly when v is outside [0, vertexSize) |
| UndirectedGraphs.UndirectedGraph.Dfs | com/tuhailong/graph/UndirectedGrap.java:100-131 | the values in depth-first order; every vertex exactly once |
| UndirectedGraphs.UndirectedGraph.Bfs | com/tuhailong/graph/UndirectedGrap.java:137-174 | the values in breadth-first order, marking at enqueue time; every vertex exactly once |
| UndirectedGraphs.UndirectedGraph.HasCycle | com/tuhailong/graph/UndirectedGrap.java:179-192 | the corrected search's answer (Cycles.Cyclic of the chains): false without edges, true with any self-loop |
| UndirectedGraphs.UndirectedGraph.DfsForCycle | com/tuhailong/graph/UndirectedGrap.java:195-210 | marks and reports exactly as the specified search from v with parent u |
| UndirectedGraphs.UndirectedGraph.ScanForCycle | com/tuhailong/graph/UndirectedGrap.java:200-209 | the chain loop, leaving at the first marked non-parent neighbour, marks and reports as specified |
| Components.ReachBack | com/tuhailong/graph/UndirectedGrap.java:44-71 | in symmetric lists every path can be walked backwards |
| Components.NoArcsReach | com/tuhailong/graph/UndirectedGrap.java:280-290 | without edges a vertex reaches only itself |
| Components.LabelIffReach | com/tuhailong/graph/UndirectedGrap.java:302-304 | in a labelled symmetric graph two vertices share a label exactly when one reaches the other |
| Components.ConnectedComponent.constructor | com/tuhailong/graph/UndirectedGrap.java:266-278 | every vertex is marked and labelled, the labelling invariant holds, and count is the number of search trees |
| Components.ConnectedComponent.LabelAll | com/tuhailong/graph/UndirectedGrap.java:270-277 | the loop over all positions marks every vertex, keeps the labelling invariant, and counts one component per search tree |
| Components.ConnectedComponent.Turn | com/tuhailong/graph/UndirectedGrap.java:271-276 | one turn of that loop: position i ends marked, and count plus the trees still to come is unchanged |
| Components.ConnectedComponent.StartAt | com/tuhailong/graph/UndirectedGrap.java:272-276 | an unmarked position roots a new component; the labelling invariant is kept |
| Components.ConnectedComponent.Dfs | com/tuhailong/graph/UndirectedGrap.java:280-290 | exactly the vertices the walk from v marks get the current label |
| Components.ConnectedComponent.DfsEach | com/tuhailong/graph/UndirectedGrap.java:285-289 | the for-each loop labels exactly what the walk over the chain marks |
| Components.ConnectedComponent.Id | com/tuhailong/graph/UndirectedGrap.java:295-297 | an id in [0, count), shared exactly with the vertices v reaches; an out-of-bounds error (the array access failing) exactly when v is outside [0, vertexSize) |
| Components.ConnectedComponent.Connected | com/tuhailong/graph/UndirectedGrap.java:302-304 | equal ids exactly when a path joins v and w; in particular when an edge does; an out-of-bounds error exactly when v or w is outside [0, vertexSize) |
| Components.ConnectedComponent.Count | com/tuhailong/graph/UndirectedGrap.java:309-311 | 1 <= count <= vertexSize for a non-empty graph, count == vertexSize without edges, and count is the number of depth-first search trees over the graph |
| Components.ConnectedComponent.IsAConnectedGraph | com/tuhailong/graph/UndirectedGrap.java:316-318 | count == 1 exactly when the graph is non-empty and every vertex reaches every other |
| Components.NoArcsCount | com/tuhailong/graph/UndirectedGrap.java:266-278 | without edges every vertex is its own component |
| Components.OneLabelIffConnected | com/tuhailong/graph/UndirectedGrap.java:316-318 | one label exactly when the graph is non-empty and connected |
| ListGraphs.ListDirectedGraph.constructor | com/tuhailong/graph/ListDirectedGraph.java:27-59 | vertex values kept in order, chains equal to the directed lists of the resolved edges |
| ListGraphs.ListDirectedGraph.Index | com/tuhailong/graph/ListDirectedGraph.java:75-82 | the largest position holding ch, or -1 exactly when none does |
| ListGraphs.ListDirectedGraph.Dfs | com/tuhailong/graph/ListDirectedGraph.java:87-114 | the printed characters: depth-first order, every vertex exactly once |
| ListGraphs.ListDirectedGraph.Bfs | com/tuhailong/graph/ListDirectedGraph.java:119-154 | the printed characters: breadth-first order, every vertex exactly once |
| ListGraphs.ListUndirectedGraph.constructor | com/tuhailong/graph/ListUndirectedGraph.java:28-70 | vertex values kept in order, chains equal to the undirected lists of the resolved edges, adjacency symmetric |
| ListGraphs.ListUndirectedGraph.Index | com/tuhailong/graph/ListUndirectedGraph.java:86-93 | the largest position holding ch, or -1 exactly when none does |
| Rows.EntryAppend | com/tuhailong/graph/MatrixUndirectedGraph.java:28-39 | adding an edge sets its entry (both entries when undirected) and no other; adding it again changes nothing |
| Rows.Ones | com/tuhailong/graph/MatrixDirectedGraph.java:96 | the neighbours a row scan produces are columns of the row |
| Rows.OnesSpec | com/tuhailong/graph/MatrixDirectedGraph.java:96 | the row scan produces exactly the columns holding 1, strictly ascending |
| Rows.Following | com/tuhailong/graph/MatrixDirectedGraph.java:62-67 | the least column from `from` on holding 1, or -1 exactly when none does |
| Rows.OnesHead | com/tuhailong/graph/MatrixDirectedGraph.java:96 | the neighbours from a column on are the next column holding 1 followed by those after it |
| Rows.OnesEmpty | com/tuhailong/graph/MatrixDirectedGraph.java:96 | no next column means no neighbours left |
| MatrixScans.RowOf | com/tuhailong/graph/MatrixDirectedGraph.java:62-66 | row v as a value, of length vLen |
| MatrixScans.ListsOf | com/tuhailong/graph/MatrixDirectedGraph.java:96 | the neighbour lists the matrix traversal follows are well formed |
| MatrixScans.ListsOfSpec | com/tuhailong/graph/MatrixDirectedGraph.java:96 | v's list holds exactly the columns where row v holds 1, once each, ascending |
| MatrixScans.FirstVertex | com/tuhailong/graph/MatrixDirectedGraph.java:57-68 | -1 for v out of range, otherwise the least column of row v holding 1, or -1 |
| MatrixScans.NextVertex | com/tuhailong/graph/MatrixDirectedGraph.java:73-87 | -1 for v or w out of range, otherwise the least column above w holding 1, or -1 |
| MatrixScans.RowStep | com/tuhailong/graph/MatrixDirectedGraph.java:96-100 | one turn of the neighbour loop: a marked w is skipped, an unmarked one visited, then the loop resumes after w |
| MatrixScans.MatrixDfsFrom | com/tuhailong/graph/MatrixDirectedGraph.java:92-101 | the recursive visit of i marks and records exactly the depth-first walk from i over the row lists |
| MatrixScans.MatrixDfsNeighbour | com/tuhailong/graph/MatrixDirectedGraph.java:97-99 | a marked neighbour changes nothing; an unmarked one is visited |
| MatrixScans.MatrixDfsRow | com/tuhailong/graph/MatrixDirectedGraph.java:96-100 | the firstVertex/nextVertex loop marks and records exactly the walk over v's ascending neighbours |
| MatrixScans.RowTurn | com/tuhailong/graph/MatrixDirectedGraph.java:97-99 | one turn of the firstVertex/nextVertex loop keeps its state (`RowRest`): the walk over the columns after w ends with the same marks as the walk from the turn's start, and the recorded order plus what is still to be recorded is unchanged |
| MatrixScans.MatrixDfsAll | com/tuhailong/graph/MatrixDirectedGraph.java:106-120 | the traversal returns the depth-first order of the row lists |
| MatrixScans.MatrixDfsRoot | com/tuhailong/graph/MatrixDirectedGraph.java:114-118 | one turn of the outer loop: the recorded order plus what the remaining positions will record is unchanged |
| MatrixGraphs.MatrixDirectedGraph.constructor | com/tuhailong/graph/MatrixDirectedGraph.java:14-40 | vertex values kept in order; entry (i, j) is 1 exactly when some resolved edge runs from i to j, else 0 |
| MatrixGraphs.MatrixDirectedGraph.FillMatrix | com/tuhailong/graph/MatrixDirectedGraph.java:28-39 | the edge loop leaves 1 exactly at the entries of the resolved edges |
| MatrixGraphs.SetArc | com/tuhailong/graph/MatrixDirectedGraph.java:38 | setting entry (sp, ep) records one more arc and leaves every other entry |
| MatrixGraphs.MatrixDirectedGraph.Index | com/tuhailong/graph/MatrixDirectedGraph.java:45-52 | the largest position holding ch, or -1 exactly when none does |
| MatrixGraphs.MatrixDirectedGraph.NeighbourLists | com/tuhailong/graph/MatrixDirectedGraph.java:27-39 | the traversal's lists: w listed by v once exactly when some resolved edge runs from v to w |
| MatrixGraphs.MatrixDirectedGraph.SameNeighboursAsLists | com/tuhailong/graph/MatrixDirectedGraph.java:14-40 | built from the same edges, the matrix graph and the list graph have the same neighbours |
| MatrixGraphs.MatrixDirectedGraph.Dfs | com/tuhailong/graph/MatrixDirectedGraph.java:106-120 | the printed characters: depth-first order over ascending neighbours, every vertex exactly once |
| MatrixGraphs.MatrixUndirectedGraph.constructor | com/tuhailong/graph/MatrixUndirectedGraph.java:14-40 | vertex values kept in order; entry (i, j) is 1 exactly when some resolved edge joins i and j in either orientation, else 0 |
| MatrixGraphs.MatrixUndirectedGraph.FillMatrix | com/tuhailong/graph/MatrixUndirectedGraph.java:28-39 | the edge loop leaves 1 exactly at both entries of every resolved edge |
| MatrixGraphs.SetEdge | com/tuhailong/graph/MatrixUndirectedGraph.java:37-38 | setting entries (sp, ep) and (ep, sp) records one more edge and leaves every other entry |
| MatrixGraphs.MatrixUndirectedGraph.Index | com/tuhailong/graph/MatrixUndirectedGraph.java:45-52 | the largest position holding ch, or -1 exactly when none does |
| MatrixGraphs.MatrixUndirectedGraph.NeighbourLists | com/tuhailong/graph/MatrixUndirectedGraph.java:27-39 | the traversal's lists: w listed by v once exactly when some resolved edge joins them; symmetric |
| MatrixGraphs.MatrixUndirectedGraph.SameNeighboursAsLists | com/tuhailong/graph/MatrixUndirectedGraph.java:14-40 | built from the same edges, the matrix graph and the list graph have the same neighbours |
| MatrixGraphs.MatrixUndirectedGraph.Dfs | com/tuhailong/graph/MatrixUndirectedGraph.java:104-118 | the printed characters: depth-first order over ascending neighbours, every vertex exactly once |

## Left out

- The `dump` methods, the `main` demos and every `System.out` call are left out. Traversals return what they print.
- The expected outputs in the `main` comments are not proved: the sample lists, the matrices, the DFS/BFS orders, the SCC count 4 and the connected-component results. Evaluating the traversal functions on a concrete 7-vertex graph goes beyond the solver budget the project is verified within.
- Linked `EdgeNode`/`AdjacentNode` objects with `nextEdge` pointers are not modelled. A chain is a `seq<nat>` and `linkLast` appends at its tail, so no aliasing between nodes is modelled.
- Java compares generic values by reference (`item == mVertexes[i].info`). The model uses value equality on a `T(==)` type.
- Generic-array casts, `toArray`, and the `ArrayList`/`LinkedList` plumbing are not modelled. The reverse-post-order stack is a `seq<nat>` whose front is the top.
- `hasCycle` keeps its flag in a one-element array. Here the flag is a returned boolean.
- The `break` in `dfsForCycle` leaves the chain loop. Since nothing follows that loop, the model returns from the method instead.
- Recursion depth and stack overflow are not modelled.
- Loop bodies and recursive helpers are split into separate methods so that each proof stays small. These are `DfsNeighbours`, `DfsEntry`, `DfsRoot`, `ScanChain`, `DrainQueue`, `Dequeue`, `Enqueue`, `BfsRoot`, `LinkSource`, `PushEach`, `PushEntry`, `PushRoot`, `DfsEach`, `LabelEntry`, `StartAt`, `LabelAll`, `Turn`, `LabelInPopOrder`, `MatrixDfsNeighbour`, `MatrixDfsRow`, `RowTurn`, `MatrixDfsRoot`, `FillMatrix`, `SetArc` and `SetEdge`. Each one is a loop, a loop body or a block of the cited method, not an operation of its own.
- The edge-count sum after `reverse` is stated per vertex pair rather than as a total. `Arcs.TransposedSpec` gives equal multiplicities for every pair, which implies the total, but the sum itself is not written out.
- StrongComponents.StronglyConnectedComponent.constructor: proves half of Kosaraju's correctness. Mutually reachable vertices share an id, and each vertex with a given id is reachable from that component's root. The converse is not proved: that vertices with the same id are mutually reachable. It needs the finishing-order argument of the white-path theorem over the reverse graph.
- StrongComponents.StronglyConnectedComponent.AllConnected: its result contains every vertex mutually reachable with `v`. For the same reason as above, it is not proved to contain only those.
- UndirectedGraphs.UndirectedGraph.HasCycle: one direction of "decides whether the graph has a cycle" is proved. After a false answer the graph has exactly vertices - components edges: `Forests.ForestEdges` gives resolved edges = vertices - search trees, and `ConnectedComponent.Count` equals the number of search trees. That is the edge count of a forest, and by the classical count a graph with a cycle (parallel edges included) has more edges. So every graph with a cycle is reported, and so is every graph with at least as many edges as vertices. The classical count itself is not proved in Dafny. The other direction is not proved: that a true answer always comes from a real cycle, i.e. that a forest is never reported. That needs the tree-and-back-edge argument of depth-first search. When the scan at x meets a marked y other than its parent, y is either an ancestor of x still being searched, or a child of x met again through a parallel edge. Either way, tree edges from y down to x close a cycle with the edge x-y. The model's search carries no ancestor chain from which that path could be read off.
- StrongComponents.StronglyConnectedComponent.Count: states the bounds `1 <= count <= vertexSize`. It also states that the roots of different components are never mutually reachable, so count is at most the number of mutual-reachability classes, and it is 1 for a strongly connected graph. Equality with the number of classes is not proved, because it depends on the converse above.

## Findings

| source | as written | input that shows it | evidently intended | confidence | as-written member | corrected member |
|---|---|---|---|---|---|---|
| com/tuhailong/graph/UndirectedGrap.java:186-187 | each depth-first root is passed as its own parent (`dfsForCycle(visited, i, i, hasCycle)`), so a self-loop at a root is taken for the edge back to the parent | one vertex with a self-loop edge (A, A): its chain is [0, 0], and `hasCycle` returns false | a root has no parent (-1), so any marked neighbour of the root is a cycle, and the self-loop is reported | not executed | Cycles.RootSelfLoopMissed | UndirectedGraphs.UndirectedGraph.HasCycle |
