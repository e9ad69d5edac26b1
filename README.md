# Directed graph with an adjacency list and an adjacency matrix

This project models the `Graph` class of `GraphsDFS/dfs.cpp` in Dafny and proves properties of the model.
The class represents a directed graph in two redundant forms:

- a singly linked list of vertices, in insertion order. Each vertex has a unique `int` value, a `visited` flag and a singly linked list of outgoing edges;
- a dense `adjMatrix`, indexed by each vertex's position in the vertex list.

The class offers these operations:

- `insertVertex`, `deleteVertex`, `insertEdge` and `deleteEdge`;
- the lookups `isEmpty`, `findVertex`, `findVertexIndex` and `AdjacentVertex`;
- `updateAdjMatrixOnDeletion`, which removes one row and one column of the matrix;
- an iterative `DFS` with an explicit stack, followed by `resetVisited`;
- two display routines.

The model has five modules:

- `Seqs` (`seqs.dfy`): sequence operations that stand in for the linked lists. These are the position of a value, unlinking the first occurrence of a value, and erasing a position.
- `Matrix` (`matrix.dfy`): the square matrix. Growing it adds a zero row and a zero column; the other operation erases a row and a column.
- `GraphSpec` (`graph_spec.dfy`): the whole state as a value, `Snapshot(verts, edges, mat)`. It defines:
  - the invariant `Wf`: lists and matrix have matching sizes, vertex values are distinct, every edge leads to a vertex, the matrix is `vertexCount x vertexCount`, and every cell is 0 or 1 with each 1 backed by an edge;
  - the stronger agreement `Synced`: a cell is 1 exactly when the edge list has that edge;
  - one transition function per mutating operation, returning the new state and a `Status` (`Ok`, `AlreadyExists`, `Empty` or `NotFound(...)`);
  - the round-trip lemmas between the operations.
- `Traversal` (`traversal.dfy`): the DFS loop as a function of the graph, stack and visited set, with proofs of what it emits. It emits the start first and each vertex at most once, and it emits exactly the vertices reachable from the start. A worked example gives `1 3 2`.
- `GraphEngine` (`graph.dfy`): the class `Graph`. It has the fields `verts`, `edges`, `visited`, `mat` and `vertexCount`, and methods that update them in place. The source's list walks appear as `while` loops. Each mutating method is proved to perform exactly the `GraphSpec` transition and to keep the invariant. `DFS` runs the source's stack loop and is proved to return `DfsOrder`. It leaves the graph unchanged with every flag cleared.

Pointers are replaced by values. A vertex is identified by its value, which is unique, or by its position in the list. An edge is the value of its destination vertex. The DFS stack holds vertex values.

## Model

| member | source | states |
|---|---|---|
| Seqs.IndexOf | GraphsDFS/dfs.cpp:327-338 | the position found by walking the list: -1 exactly when the value is absent, otherwise a position holding it |
| Seqs.IndexOfFirst | GraphsDFS/dfs.cpp:327-338 | no occurrence of the value comes before the position the walk returns |
| Seqs.FirstOccurrence | GraphsDFS/dfs.cpp:223-232 | a position holding the value with no earlier occurrence is the position the walk returns |
| Seqs.IndexOfDistinct | GraphsDFS/dfs.cpp:47-51 | with unique values, the walk for the value at position t returns t |
| Seqs.RemoveFirst | GraphsDFS/dfs.cpp:172-187 | unlinking the first match shortens the list by one if the value occurs and leaves it unchanged if not |
| Seqs.RemoveFirstCounts | GraphsDFS/dfs.cpp:172-187 | unlinking takes exactly one copy of the value out of the list's multiset |
| Seqs.RemoveFirstSplits | GraphsDFS/dfs.cpp:172-187 | unlinking removes exactly the element at the first match's position and keeps the order of the rest |
| Seqs.RemoveFirstMembers | GraphsDFS/dfs.cpp:172-187 | unlinking keeps every other value and adds none; a value that occurred at most once is gone |
| Seqs.RemoveFirstAppended | GraphsDFS/dfs.cpp:137-151 | appending an absent value and unlinking it gives the list back |
| Seqs.EraseAt | GraphsDFS/dfs.cpp:110-116 | unlinking position k shortens the list by one; element x of the result is element x, or x+1 past k, of the original |
| Seqs.EraseAtMembers | GraphsDFS/dfs.cpp:110-116 | erasing from a list of unique values keeps it unique and keeps exactly the other values |
| Matrix.Grow | GraphsDFS/dfs.cpp:70-73 | the n x n matrix becomes (n+1) x (n+1); old cells are unchanged and new cells are 0 |
| Matrix.EraseRowCol | GraphsDFS/dfs.cpp:340-345 | the n x n matrix becomes (n-1) x (n-1), and each cell is the old cell with row and column shifted past k |
| Matrix.EraseRowColIgnoresErased | GraphsDFS/dfs.cpp:340-345 | cells in row or column k do not affect the erased matrix |
| Matrix.EraseGrown | GraphsDFS/dfs.cpp:70-73 | erasing the last row and column of a grown matrix gives the matrix back |
| GraphSpec.EmptyGraph | GraphsDFS/dfs.cpp:45 | the initial graph satisfies the invariant and the agreement, and has no vertex |
| GraphSpec.Targets | GraphsDFS/dfs.cpp:197-217 | every destination in a vertex's edge list is a vertex of the graph |
| GraphSpec.DropEdgesTo | GraphsDFS/dfs.cpp:104-108 | the cascade of deleteVertex: each edge list loses exactly one copy of the deleted value if it has one, and a list that held at most one edge to it holds none afterwards |
| GraphSpec.AddVertex | GraphsDFS/dfs.cpp:47-77 | a value already present changes nothing (AlreadyExists). A new value is appended at position vertexCount with an empty edge list; the matrix grows with zero cells and old cells kept. The invariant and the agreement are preserved |
| GraphSpec.AddVertexKeepsInvariants | GraphsDFS/dfs.cpp:59-74 | the grown state is well formed, keeps the agreement, and places the new value at the old vertexCount |
| GraphSpec.AddEdge | GraphsDFS/dfs.cpp:124-154 | a missing source (checked first) or destination changes nothing. Otherwise the destination is appended to the source's list, that cell becomes 1, and every other list and cell is unchanged, duplicates included. The invariant and the agreement are preserved |
| GraphSpec.AddEdgeKeepsInvariants | GraphsDFS/dfs.cpp:137-151 | appending an edge and setting its cell keeps the invariant and the agreement |
| GraphSpec.RemoveEdge | GraphsDFS/dfs.cpp:156-195 | an empty graph, a missing source or no such edge changes nothing, each with its status. Otherwise exactly the first matching edge is unlinked, that cell becomes 0, and nothing else changes. The invariant is kept; the agreement is kept when the list held the edge at most once |
| GraphSpec.RemoveEdgeKeepsInvariants | GraphsDFS/dfs.cpp:172-192 | unlinking the first matching edge and zeroing its cell keeps the invariant, and keeps the agreement without duplicate edges |
| GraphSpec.RemoveVertex | GraphsDFS/dfs.cpp:79-122 | an empty graph or a missing value changes nothing. Otherwise the value is gone, the other vertices keep their order and shift down past it, and each remaining list has lost its first edge to it and holds no edge to it. The matrix loses that row and column. The invariant and the agreement are preserved |
| GraphSpec.RemoveVertexKeepsInvariants | GraphsDFS/dfs.cpp:104-119 | the state after the cascade, the unlinking and the matrix erasure is well formed, has none of the value's edges, and keeps the agreement |
| GraphSpec.RemoveVertexUndoesAddVertex | GraphsDFS/dfs.cpp:47-122 | inserting a new vertex and deleting it restores the graph exactly |
| GraphSpec.RemoveEdgeUndoesAddEdge | GraphsDFS/dfs.cpp:124-195 | inserting an edge that was absent and deleting it restores the graph exactly |
| GraphSpec.AddEdgeTwice | GraphsDFS/dfs.cpp:137-151 | inserting the same edge twice gives the same matrix as once, but the list holds two copies |
| GraphSpec.DeleteVertexWithSelfLoops | GraphsDFS/dfs.cpp:104-116 | a vertex whose own list holds two self-loops is accepted and deleted, leaving the empty graph |
| Traversal.Unvisited | GraphsDFS/dfs.cpp:258-264 | the inner loop pushes exactly the destinations not yet visited |
| Traversal.UnvisitedSnoc | GraphsDFS/dfs.cpp:258-264 | scanning one more edge pushes its destination exactly when that destination is unvisited |
| Traversal.DfsLoop | GraphsDFS/dfs.cpp:246-266 | the stack loop terminates, and emits only vertices not yet visited, each at most once |
| Traversal.DfsLoopSkips | GraphsDFS/dfs.cpp:250-254 | popping a visited vertex emits nothing and leaves the rest of the traversal unchanged |
| Traversal.DfsLoopVisits | GraphsDFS/dfs.cpp:250-263 | popping an unvisited vertex emits it next, shrinks the unvisited set, and pushes its unvisited successors |
| Traversal.DfsOrder | GraphsDFS/dfs.cpp:246-266 | DFS(start) emits start first, emits each vertex at most once, and emits a vertex exactly when it is reachable from start |
| Traversal.ReachableFromItself | GraphsDFS/dfs.cpp:246 | the start vertex is reachable from itself |
| Traversal.ReachableStep | GraphsDFS/dfs.cpp:258-264 | the successors of a reachable vertex are reachable |
| Traversal.ClosedHoldsReachable | GraphsDFS/dfs.cpp:246-266 | a set holding the start and closed under edges holds every reachable vertex |
| Traversal.PathStaysIn | GraphsDFS/dfs.cpp:246-266 | a walk from inside a set closed under edges stays inside it |
| Traversal.LoopSound | GraphsDFS/dfs.cpp:246-266 | when every stacked vertex is reachable, every emitted vertex is reachable |
| Traversal.LoopComplete | GraphsDFS/dfs.cpp:246-266 | when the loop ends, every stacked vertex and every successor of a visited vertex was visited or emitted |
| Traversal.FrontierAfterVisit | GraphsDFS/dfs.cpp:250-263 | after one visit, every successor of a visited vertex is still visited or on the stack |
| Traversal.ExampleGrown | GraphsDFS/dfs.cpp:70-73 | growing the 0 x 0, 1 x 1 and 2 x 2 zero matrices gives the next zero matrix |
| Traversal.ExampleConnected | GraphsDFS/dfs.cpp:137-151 | appending each example edge to its source's list and setting its cell gives the next stage's lists and matrix |
| Traversal.ExampleInsert1 | GraphsDFS/dfs.cpp:47-77 | insertVertex(1) on the empty graph gives one vertex with an empty list and a 1 x 1 zero matrix |
| Traversal.ExampleInsert2 | GraphsDFS/dfs.cpp:47-77 | then insertVertex(2) appends it, with a 2 x 2 zero matrix |
| Traversal.ExampleInsert3 | GraphsDFS/dfs.cpp:47-77 | then insertVertex(3) appends it, with a 3 x 3 zero matrix |
| GraphSpec.AddEdgeAt | GraphsDFS/dfs.cpp:137-151 | once both lookups succeed, insertEdge appends the destination to the source's list and sets exactly that cell |
| Traversal.ExampleConnect12 | GraphsDFS/dfs.cpp:124-154 | then insertEdge(1, 2) gives list [2] for vertex 1 and sets cell (0, 1) |
| Traversal.ExampleConnect13 | GraphsDFS/dfs.cpp:124-154 | then insertEdge(1, 3) gives list [2, 3] for vertex 1 and sets cell (0, 2) |
| Traversal.ExampleConnect23 | GraphsDFS/dfs.cpp:124-154 | then insertEdge(2, 3) gives list [3] for vertex 2 and sets cell (1, 2), which is the example graph |
| Traversal.ExampleBuilt | GraphsDFS/dfs.cpp:47-154 | the six insertions applied to the empty graph all succeed and produce the example graph |
| Traversal.ExampleShape | GraphsDFS/dfs.cpp:124-154 | the graph with vertices 1, 2, 3 and edges 1->2, 1->3, 2->3 is well formed, with these edge lists |
| Traversal.ExampleSynced | GraphsDFS/dfs.cpp:124-154 | in that graph the matrix and the lists agree |
| Traversal.ExampleVisit1 | GraphsDFS/dfs.cpp:246-263 | popping 1 emits it and pushes 2, then 3 |
| Traversal.ExampleVisit3 | GraphsDFS/dfs.cpp:246-263 | next, popping 3 emits it and pushes nothing |
| Traversal.ExampleVisit2 | GraphsDFS/dfs.cpp:246-263 | finally, popping 2 emits it and pushes nothing, because 3 is visited |
| Traversal.DfsExample | GraphsDFS/dfs.cpp:234-270 | DFS(1) on that graph emits 1 3 2 |
| GraphEngine.Graph.constructor | GraphsDFS/dfs.cpp:45 | a new graph is empty, valid and has vertexCount 0 |
| GraphEngine.Graph.IsEmpty | GraphsDFS/dfs.cpp:219-221 | true exactly when vertexCount is 0, that is, when the graph is the empty graph |
| GraphEngine.Graph.FindVertex | GraphsDFS/dfs.cpp:223-232 | finds a vertex exactly when the value is present; what it finds holds the value and is the first position findVertexIndex returns |
| GraphEngine.Graph.FindVertexIndex | GraphsDFS/dfs.cpp:327-338 | -1 exactly when no vertex has the value; otherwise the 0-based position of the first vertex with it, which under the object invariant is the only one |
| GraphEngine.Graph.InsertVertex | GraphsDFS/dfs.cpp:47-77 | the new state and status are those of AddVertex, and the object invariant is kept |
| GraphEngine.Graph.InsertEdge | GraphsDFS/dfs.cpp:124-154 | the new state and status are those of AddEdge, and the object invariant is kept |
| GraphEngine.Graph.DeleteEdge | GraphsDFS/dfs.cpp:156-195 | the new state and status are those of RemoveEdge, and the object invariant is kept |
| GraphEngine.Graph.DeleteVertex | GraphsDFS/dfs.cpp:79-122 | the new state and status are those of RemoveVertex, and the object invariant is kept |
| GraphEngine.Graph.RemoveFoundVertex | GraphsDFS/dfs.cpp:104-119 | once the vertex is found, the cascade followed by the unlinking yields RemoveVertex's state |
| GraphEngine.Graph.DeleteEdgesTo | GraphsDFS/dfs.cpp:104-108 | after calling deleteEdge(vertex, value) for every vertex in list order, each list has lost its first edge to the value, the value's whole matrix column is 0, and the vertices and all cells outside that column are unchanged |
| GraphEngine.Graph.UnlinkVertex | GraphsDFS/dfs.cpp:110-119 | vertex list, edge lists and flags lose position k, the matrix loses row and column k, and vertexCount drops by one |
| GraphEngine.Graph.UpdateAdjMatrixOnDeletion | GraphsDFS/dfs.cpp:340-345 | the matrix becomes that matrix with row and column `index` erased |
| GraphEngine.Graph.AdjacentVertex | GraphsDFS/dfs.cpp:197-217 | when the graph is empty or the value is missing, reports that and lists nothing. Otherwise it lists the vertex's edge list in order; every listed value is a vertex, and under the agreement the list matches the vertex's matrix row |
| GraphEngine.Graph.DFS | GraphsDFS/dfs.cpp:234-270 | on an empty graph or a missing start, reports that and emits nothing; otherwise it emits exactly DfsOrder. The graph is unchanged and every visited flag is false afterwards |
| GraphEngine.Graph.DfsTwice | GraphsDFS/dfs.cpp:234-278 | two DFS runs from the same start emit the same order |
| GraphEngine.Graph.PushUnvisited | GraphsDFS/dfs.cpp:258-264 | the edge walk pushes exactly the unvisited destinations, in edge-list order |
| GraphEngine.Graph.ResetVisited | GraphsDFS/dfs.cpp:272-278 | every visited flag is false afterwards |
| GraphEngine.Graph.DisplayGraph | GraphsDFS/dfs.cpp:280-298 | one line per vertex in list order, with its destinations in edge-list order; every listed destination is itself a listed vertex |
| GraphEngine.Graph.DisplayAdjMatrix | GraphsDFS/dfs.cpp:300-325 | one row per vertex in list order, labelled with its value and holding that vertex's matrix row: vertexCount cells, each 0 or 1 |
| GraphEngine.Graph.DisplaysAgree | GraphsDFS/dfs.cpp:280-325 | under the agreement, a 1 in row k of the matrix display marks exactly the destinations in line k of the list display |
| GraphEngine.RemoveEdgeFound | GraphsDFS/dfs.cpp:172-192 | when the search stops at the first match k, deleting the element at k and zeroing the cell is RemoveEdge |
| GraphEngine.CascadeStep | GraphsDFS/dfs.cpp:104-108 | one deleteEdge call of the cascade extends the cascade invariant by one vertex |
| GraphEngine.CascadeExtends | GraphsDFS/dfs.cpp:104-108 | one list losing its first edge to the value, with only that value's column touched, extends the cascade invariant |
| GraphEngine.RemoveVertexAfterCascade | GraphsDFS/dfs.cpp:104-119 | once the cascade has passed every vertex, unlinking the vertex and erasing its row and column is RemoveVertex |
| GraphEngine.MarkVisited | GraphsDFS/dfs.cpp:252 | setting the flag at position p adds exactly that vertex's value to the visited set |

## Left out

- `main` and `getValidInt` (GraphsDFS/dfs.cpp:351-459) are not part of this model. They are the interactive menu and its input re-prompting.
- `clearScreen` (GraphsDFS/dfs.cpp:347-349) is not part of this model. It is a shell call.
- Console output is not modelled. Each operation instead returns a `Status`, and `DFS`, `AdjacentVertex` and the two displays return the sequences they would print. Display formatting, and the "Graph is empty" text of the displays, are not modelled.
- Linked-list nodes, `new` and `delete` are not modelled, and neither is the edge list of a deleted vertex, which the source leaks. Vertices are identified by value or position, and edges by destination value.
- The tail walks of `insertVertex` and `insertEdge` (GraphsDFS/dfs.cpp:63-67, 142-146) are modelled as sequence appends, not as loops.
- GraphEngine.Graph.DeleteVertex: requires that the list of every other vertex holds at most one edge to the deleted vertex. With such a duplicate the source's cascade (GraphsDFS/dfs.cpp:104-108) removes only one of them, so a surviving list keeps an edge to the freed vertex. deleteVertex itself completes; the undefined behaviour comes when a later call dereferences that edge (deleteEdge at GraphsDFS/dfs.cpp:172, DFS at GraphsDFS/dfs.cpp:260, displayGraph at GraphsDFS/dfs.cpp:292). The model cannot represent such an edge, since its invariant requires every edge to lead to a vertex of the graph. The deleted vertex's own list may hold several self-loops, since it is discarded (GraphsDFS/dfs.cpp:116).
- GraphSpec.RemoveVertex: carries the same requirement as GraphEngine.Graph.DeleteVertex, for the same reason.
- GraphEngine.Graph.DeleteVertex: the second walk (GraphsDFS/dfs.cpp:94-102) is modelled as a loop that is proved to stop where `findVertexIndex` stopped. Its "not found" branch is unreachable, so it is not a separate branch of the model.
- GraphSpec.RemoveEdge: promises the two-way list/matrix agreement only when the source's list holds the edge at most once. The source zeroes the cell even when a second copy stays in the list (GraphsDFS/dfs.cpp:137-151, 172-192). The weaker invariant, that every 1-cell is backed by an edge, holds in every case.
- Vertex values and `vertexCount` are unbounded integers. The source's 32-bit `int` overflow is not modelled, because it needs more than 2^31 vertices.
