# Graph assignment: directed and undirected graphs

This project models the two graph classes of a data-structures course assignment:

- `DirectedGraph` (`d_graph.py`) is a directed, positively weighted graph. It is stored as an adjacency matrix `adj_matrix` with a vertex count `v_count`. Vertices are the integers `0 .. v_count-1`, and a zero cell means there is no edge.
- `UndirectedGraph` (`ud_graph.py`) is an unweighted, undirected graph. It is stored as a dictionary `adj_list` that maps each vertex label to its list of neighbours.

Both classes mutate their storage in place. Each becomes a Dafny `class` with the same fields:

- `DGraph.DirectedGraph` has `vCount` and `adj: seq<seq<int>>`.
- `UdGraph.UndirectedGraph` has `adjList: map<int, seq<int>>` and `keys`, the insertion order of the dictionary.

Every method is proved against a value-level specification module:

- `MatrixGraph` for the matrix.
- `ListGraph` for the adjacency lists.

Each of these defines the operations as functions, along with walks, reachability, cycles and walk weights. It also proves the properties the methods rely on.

`Common` holds shared helpers:

- an `Option`;
- duplicate-free sequences and pigeonhole counting;
- Python's `list.remove`;
- the ascending sort that the traversals apply to neighbour lists.

The model proves the following:

- **Mutators.** Every mutating method leaves exactly the graph its specification function describes, and it keeps the representation invariant `Valid()`:
  - matrix: square, zero diagonal, no negative weights;
  - lists: each edge listed at both ends, no loops, no duplicate neighbours, every neighbour a vertex.
- **Searches.**
  - `dfs` and `bfs` list the start first, never list a vertex twice, and list only vertices reachable from the start without going on from the end vertex.
  - When no end vertex is given, or it cannot be reached, they list every vertex reachable from the start.
  - Directed `dfs` lists exactly those vertices even when the end vertex is reached, because only the call for the end vertex stops.
  - Directed `bfs`, undirected `dfs` and undirected `bfs` stop once they reach the end vertex. Undirected searches then list it last, and directed `bfs` never lists it. Which other vertices come before that stop is not stated.
- **Cycle detection.** Both `has_cycle` methods answer exactly whether the graph contains a cycle:
  - directed: a closed walk;
  - undirected: a simple cycle of at least three vertices.
- **Connected components.** `count_connected_components` returns the number of connected components.
- **Shortest paths.** `dijkstra` runs a FIFO worklist rather than a priority queue. It still returns, for every vertex, the weight of a lightest walk from the source, and "infinite" (`None`) exactly for the unreachable vertices.
- **Edge listing.** Each `get_edges` lists each edge exactly once.

The `for x in lst` loops in `count_connected_components` and `has_cycle` remove entries from the list they iterate over. They are modelled as Python's list iterator behaves: by position over the shrinking list, so the entry after a removed one is skipped in that pass.

Labels of the undirected graph are modelled as `int`: the code only compares labels for equality and sorts them, and any total order serves for that.

## Model

| member | source | states |
|---|---|---|
| `Common.RemoveFirst` | ud_graph.py:93-94 | `list.remove(x)` drops one entry. Everything else stays. A duplicate-free list loses `x` entirely. |
| `Common.RemoveFirstSplit` | ud_graph.py:93-94 | `list.remove(x)` keeps the order of the other entries: the result is the list cut around the first occurrence of `x`. |
| `Common.Discard` | ud_graph.py:107-108 | `remove` guarded by `in` leaves a list without `x` unchanged. It keeps every other entry and removes `x` from a duplicate-free list. |
| `Common.Sort` | ud_graph.py:192 | `list.sort()` yields an ascending permutation of its input, as a multiset. |
| `Common.Insert` | ud_graph.py:192 | Inserting into a sorted list keeps it sorted and adds exactly one copy of the element. |
| `Common.ReverseSortMembers` | ud_graph.py:191-197 | Sorting and then reversing the neighbours pushed by `dfs` keeps exactly the same vertices. |
| `Common.SortMembers` | ud_graph.py:229-233 | The sorted neighbours queued by `bfs` are exactly the neighbours. |
| `Common.Reverse` | ud_graph.py:193 | `list.reverse()` puts entry `i` at position `len-1-i`. |
| `Common.RemoveAt` | d_graph.py:272-274 | `list.pop(i)` removes exactly the `i`-th entry and shifts the rest. |
| `MatrixGraph.Zeros` | d_graph.py:31-32 | The `n`-vertex matrix is `n` by `n` and all zero. |
| `MatrixGraph.WithVertex` | d_graph.py:59-73 | `add_vertex` keeps all old cells and adds a zero row and a zero column. |
| `MatrixGraph.WithVertexOfZeros` | d_graph.py:31-32 | Adding a vertex to the empty `n`-vertex matrix gives the empty `n+1`-vertex matrix. |
| `MatrixGraph.WithEdge` | d_graph.py:75-88 | The effect of `add_edge`: overwrite `[src][dst]` with the weight when the weight is positive, both ends are in range and `src != dst`. The matrix stays square, with a zero diagonal and no negative cell. |
| `MatrixGraph.WithoutEdge` | d_graph.py:90-99 | The effect of `remove_edge`: zero `[src][dst]` when both ends are in range. The matrix stays well formed. |
| `MatrixGraph.WithEdgeCells` | d_graph.py:79-88 | `add_edge` changes only cell `[src][dst]`, and only when the weight is positive, both ends are in range and `src != dst`. Otherwise nothing changes. |
| `MatrixGraph.AddedEdgeIsPath` | d_graph.py:75-88 | After an accepted `add_edge`, `[src, dst]` is a valid path with that weight. |
| `MatrixGraph.WithoutEdgeCells` | d_graph.py:94-99 | `remove_edge` zeroes exactly `[src][dst]` when both are in range. Afterwards the edge is gone. |
| `MatrixGraph.MaxEndpoint` | d_graph.py:28-30 | The constructor's `max` loop bounds every endpoint from above and is attained, or is 0. |
| `MatrixGraph.MaxEndpointStep` | d_graph.py:29-30 | One iteration of the `max` loop extends the maximum by one edge. |
| `MatrixGraph.ApplyEdges` | d_graph.py:33-34 | The constructor's loop of `add_edge` calls over the start edges, in order. The matrix keeps its size and stays well formed. |
| `MatrixGraph.ApplyEdgesStep` | d_graph.py:33-34 | One iteration of the constructor's `add_edge` loop. |
| `MatrixGraph.LastWeight` | d_graph.py:33-34 | The weight the edge list leaves on a pair is the last positive weight listed for it, or 0. |
| `MatrixGraph.ApplyEdgesCell` | d_graph.py:33-34 | After adding a list of edges, each off-diagonal cell holds the last positive weight listed for it, or its old value. |
| `MatrixGraph.BuiltFromEdges` | d_graph.py:27-34 | The matrix built from an edge list holds exactly the last positive weight for each pair, and it is large enough for every non-negative endpoint. |
| `MatrixGraph.ReachableAvoidingStep` | d_graph.py:178-182 | Following an edge out of a vertex other than the end vertex extends reachability. |
| `MatrixGraph.ReachableWithoutEnd` | d_graph.py:193-239 | When the end vertex is unreachable, a walk avoiding it exists to every reachable vertex. |
| `MatrixGraph.ClosedContainsReachable` | d_graph.py:159-191 | A vertex list closed under out-edges (except at the end vertex) that contains the start contains every vertex reachable without going on from the end. |
| `MatrixGraph.CycleFromSuccessors` | d_graph.py:260-262 | If every remaining vertex has an out-edge to a remaining vertex, the graph has a cycle. |
| `MatrixGraph.AcyclicFromSinksFirst` | d_graph.py:270-280 | If the vertices can be removed one by one, each with no out-edge to the vertices left, there is no cycle. |
| `MatrixGraph.SinksFirstExtend` | d_graph.py:271-274 | Removing a vertex with no out-edges left extends that removal order. |
| `MatrixGraph.RelaxedIsShortest` | d_graph.py:282-307 | A distance table that is closed under edge relaxation, has 0 at the source and has finite entries that are walk weights is exactly the shortest-walk weights. It is finite exactly for reachable vertices. |
| `MatrixGraph.SimpleWalkWeight` | d_graph.py:294-305 | A walk with no repeated vertex weighs at most `v_count` times the heaviest edge. This bounds the distances `dijkstra` can still improve. |
| `MatrixGraph.PrefixWeighsLess` | d_graph.py:299-304 | With positive weights, a proper prefix of a walk is strictly lighter. |
| `MatrixGraph.AppendWeight` | d_graph.py:304 | Extending a walk by an edge adds that edge's weight. |
| `MatrixGraph.ValidPath` | d_graph.py:131-157 | The intended meaning of `is_valid_path`: every vertex is in `0 .. v_count-1` and each consecutive pair is an edge. The empty path is valid. |
| `MatrixGraph.PyIndex` | d_graph.py:153 | Python list indexing: defined exactly for `-n <= i < n`. A negative index counts from the end. |
| `MatrixGraph.PyCell` | d_graph.py:153 | `adj_matrix[u][v]` with Python indexing: an `IndexError` exactly when `u` or `v` is outside `[-n, n)`, and the cell itself for indices in range. |
| `MatrixGraph.ScanAsWritten` | d_graph.py:148-157 | The `while` loop of `is_valid_path` as written never rejects consecutive vertices joined by an edge. It raises `IndexError` only at a vertex outside `[-n, n)`. |
| `MatrixGraph.IsValidPathAsWritten` | d_graph.py:131-157 | `is_valid_path` as written accepts every valid path. It raises `IndexError` only when some vertex is outside `[-n, n)`. |
| `MatrixGraph.AsWrittenAcceptsNegativeIndex` | d_graph.py:148-155 | On the 2-vertex graph with edge 1→0, `is_valid_path([-1, 0])` as written answers True, although -1 is no vertex. |
| `MatrixGraph.AsWrittenAgreesInRange` | d_graph.py:131-157 | For paths whose vertices are all in range, `is_valid_path` as written agrees with the intended meaning. |
| `DGraph.DirectedGraph.constructor` | d_graph.py:17-24 | Without start edges, the graph has no vertices. |
| `DGraph.DirectedGraph.FromEdges` | d_graph.py:17-34 | With start edges, there are `max endpoint + 1` vertices, and the matrix is the zero matrix with every edge added in order. |
| `DGraph.DirectedGraph.AddEach` | d_graph.py:33-34 | The constructor's loop of `add_edge` calls leaves the matrix with every edge applied in order. |
| `DGraph.DirectedGraph.AddVertex` | d_graph.py:59-73 | Adds one vertex, returns the new count, and leaves the matrix `WithVertex` of the old one. |
| `DGraph.DirectedGraph.AddEdge` | d_graph.py:75-88 | The new matrix is `WithEdge` of the old one. |
| `DGraph.DirectedGraph.RemoveEdge` | d_graph.py:90-99 | The new matrix is `WithoutEdge` of the old one. |
| `DGraph.DirectedGraph.GetVertices` | d_graph.py:101-111 | Returns `0, 1, ..., v_count-1`. |
| `DGraph.DirectedGraph.GetEdges` | d_graph.py:113-129 | Lists exactly the nonzero cells as `(src, dst, weight)`, in row-major order. |
| `DGraph.DirectedGraph.IsValidPath` | d_graph.py:131-157 | The corrected `is_valid_path` answers True exactly when every vertex is in range and consecutive vertices are joined by edges. |
| `DGraph.DirectedGraph.Dfs` | d_graph.py:159-191 | Returns `[]` when the start is the end vertex or out of range. Otherwise it lists the start first, with no repeats, exactly the vertices reachable without going on from the end vertex. |
| `DGraph.DfsDone` | d_graph.py:185-191 | When every call of `dfs_rec` has returned, the stack is exactly the set of vertices reachable from the start that avoid the end. |
| `DGraph.DfsDescend` | d_graph.py:178-182 | Descending into an unlisted neighbour keeps the recursion state: listed vertices, active calls and scanned columns. |
| `DGraph.DfsReturn` | d_graph.py:178-183 | Returning from a call whose row is done keeps the recursion state. All of that vertex's successors are listed. |
| `DGraph.DirectedGraph.Bfs` | d_graph.py:193-239 | Returns `[]` for a start out of range or equal to the end vertex. The start comes first, with no repeats, and the end vertex is never listed. Only vertices reachable without going on from the end are listed. When the end is absent or unreachable, every reachable vertex is listed. |
| `DGraph.BfsStep` | d_graph.py:207-228 | One call of `bfs_rec` keeps listed and queued vertices reachable, and keeps every successor of a listed vertex listed or queued. Each call makes progress. |
| `DGraph.DirectedGraph.HasCycle` | d_graph.py:241-280 | Answers True exactly when the graph has a cycle. |
| `DGraph.StripSink` | d_graph.py:264-277 | Deleting row and column `c` of a vertex with no remaining out-edge leaves the copy of the remaining vertices, and extends the removal order. |
| `DGraph.DirectedGraph.Dijkstra` | d_graph.py:282-307 | Returns one entry per vertex, with 0 at the source. An entry is finite exactly when the vertex is reachable, and a finite entry is the shortest walk weight. |
| `DGraph.Offers` | d_graph.py:301-305 | The entries `dijkstra` queues for a vertex at distance `d`: `(x, row[x] + d)` for each nonzero cell, in column order. |
| `DGraph.OffersMembers` | d_graph.py:301-305 | The queued entries are exactly the nonzero cells of the row, each with the cell's weight added to `d`. |
| `DGraph.QueueOffers` | d_graph.py:301-305 | Appends `(x, weight + d)` for every nonzero cell of the row, in column order. |
| `DGraph.DijkstraImproveStep` | d_graph.py:299-305 | Improving a vertex's distance and queueing its offers keeps the worklist invariant and lowers the termination measure. |
| `DGraph.DijkstraDone` | d_graph.py:294-307 | When the worklist is empty, the table holds shortest distances, finite exactly for reachable vertices. |
| `ListGraph.Empty` | ud_graph.py:21 | The fresh dictionary is a well-formed graph with no vertices. |
| `ListGraph.WithVertex` | ud_graph.py:47-54 | `add_vertex` adds the label with an empty list when it is new, and changes nothing otherwise. Edges are unchanged. |
| `ListGraph.WithEdge` | ud_graph.py:56-76 | `add_edge` adds both ends as vertices and joins them, unless they are equal. No other edge changes, and the graph stays well formed. |
| `ListGraph.Joined` | ud_graph.py:75-76 | Appending each end to the other's list joins exactly that pair and keeps the graph well formed. |
| `ListGraph.WithoutEdge` | ud_graph.py:78-94 | `remove_edge` removes exactly the edge between `v` and `u`, in both directions, and keeps vertices and key order. |
| `ListGraph.WithoutVertex` | ud_graph.py:96-111 | `remove_vertex` removes `v` and exactly the edges at `v`. |
| `ListGraph.FromPairs` | ud_graph.py:16-27 | Adding the start pairs in order gives a well-formed graph. |
| `ListGraph.FromPairsEdges` | ud_graph.py:25-27 | The graph built from the start pairs has exactly the edges the pairs name, loops left out. |
| `ListGraph.FromPairsVertices` | ud_graph.py:25-27 | Its vertices are exactly the ends of pairs that are not loops. |
| `ListGraph.ReachableSymmetric` | ud_graph.py:254-257 | In an undirected graph, reachability is symmetric. |
| `ListGraph.ReachableTransitive` | ud_graph.py:254-257 | Reachability is transitive. |
| `ListGraph.SameComponent` | ud_graph.py:254-257 | Vertices joined by a walk have the same component. |
| `ListGraph.RemoveComponent` | ud_graph.py:250-260 | Removing the component found by `bfs` from the remaining vertices adds exactly one component to those already counted, and the rest still consists of whole components. |
| `ListGraph.CountInCard` | ud_graph.py:290-292 | The loop over the banned list subtracts the number of banned neighbours. |
| `ListGraph.ScoreMeaning` | ud_graph.py:289-295 | A score of at most 1 means at most one neighbour is not banned. A higher score means two different ones exist. |
| `ListGraph.PeelOrderExtend` | ud_graph.py:295-297 | Banning a vertex with at most one unbanned neighbour extends the peeling order. |
| `ListGraph.PeelOrderAcyclic` | ud_graph.py:280-303 | A graph whose vertices can all be peeled off, each with at most one unpeeled neighbour, has no cycle. |
| `ListGraph.BranchingCyclic` | ud_graph.py:282-284 | If every remaining vertex has two different neighbours among the remaining ones, the graph has a cycle. |
| `ListGraph.CycleFromBranching` | ud_graph.py:282-284 | In that situation, a duplicate-free walk can be extended until it closes a cycle of at least three vertices. |
| `UdGraph.UndirectedGraph.constructor` | ud_graph.py:16-27 | The new graph is the one obtained by adding the start pairs in order. |
| `UdGraph.UndirectedGraph.AddVertex` | ud_graph.py:47-54 | The new graph is `WithVertex` of the old one, and `Valid()` is kept. |
| `UdGraph.UndirectedGraph.AddEdge` | ud_graph.py:56-76 | The new graph is `WithEdge` of the old one, and `Valid()` is kept. |
| `UdGraph.UndirectedGraph.RemoveEdge` | ud_graph.py:78-94 | The new graph is `WithoutEdge` of the old one, and `Valid()` is kept. |
| `UdGraph.UndirectedGraph.RemoveVertex` | ud_graph.py:96-111 | The new graph is `WithoutVertex` of the old one, and `Valid()` is kept. |
| `UdGraph.DiscardedEverywhere` | ud_graph.py:106-111 | After `v` has been dropped from every list, deleting its key gives exactly the graph without `v`. |
| `UdGraph.UndirectedGraph.GetVertices` | ud_graph.py:113-122 | Returns the keys in dictionary order: each vertex exactly once. |
| `UdGraph.UndirectedGraph.GetEdges` | ud_graph.py:124-135 | Every listed pair is an edge. Every edge is listed in one direction and never in both. No pair is repeated. |
| `UdGraph.EdgesStep` | ud_graph.py:131-133 | Appending `(key, el)` when `(el, key)` is absent keeps the edge list duplicate-free and one-directional. |
| `ListGraph.ValidPath` | ud_graph.py:137-158 | The meaning of `is_valid_path`: every vertex is a key and each consecutive pair is adjacent. The empty path is valid. |
| `UdGraph.UndirectedGraph.IsValidPath` | ud_graph.py:137-158 | Answers True exactly when every vertex exists and consecutive vertices are adjacent. The empty path is valid. |
| `UdGraph.UndirectedGraph.Dfs` | ud_graph.py:160-200 | Returns `[]` for a missing start. Otherwise the start comes first, with no repeats, and only vertices reachable without passing the end are listed. If the end is reached it comes last, and otherwise every reachable vertex is listed. |
| `UdGraph.DfsStep` | ud_graph.py:176-198 | One stack pop keeps the search invariant, and the stack work measure drops. |
| `UdGraph.UndirectedGraph.Bfs` | ud_graph.py:202-236 | The same result contract as `Dfs`. |
| `UdGraph.BfsStep` | ud_graph.py:218-234 | One queue pop keeps the search invariant, and the queue work measure drops. |
| `UdGraph.SearchDone` | ud_graph.py:176-200 | An emptied worklist leaves exactly the reachable vertices listed. |
| `UdGraph.UndirectedGraph.CountConnectedComponents` | ud_graph.py:238-262 | Returns the number of connected components. |
| `UdGraph.Shrinks` | ud_graph.py:249-260 | Each `bfs` round removes at least its start vertex, so the vertex list shrinks. |
| `UdGraph.UndirectedGraph.HasCycle` | ud_graph.py:264-303 | Answers True exactly when the graph has a simple cycle of at least three vertices. |
| `UdGraph.PassStep` | ud_graph.py:288-301 | One iteration of the inner pass either bans a vertex with at most one unbanned neighbour, or records a vertex with two in `new_list`. |
| `UdGraph.PassDone` | ud_graph.py:282-288 | A pass that removes nothing puts every remaining vertex into `new_list`, so the next test of `new_list` answers True. |
| `UdGraph.PeelStep` | ud_graph.py:295-297 | Banning a vertex keeps the split of the vertices into remaining and banned, and keeps the peeling order. |

## Left out

- Vertex labels of `UndirectedGraph` are `int` rather than `str`. Only equality and the order used by `sort` matter, and integers have both.
- `__str__` of both classes and the demonstration code under `__main__` are printing only and are not modelled.
- `DGraph.DirectedGraph.Dfs`: an out-of-range start makes the source raise `IndexError`, or wrap around for a negative index. The model returns `[]` instead.
- `DGraph.DirectedGraph.Dijkstra` requires `0 <= src < v_count`. Outside that range the source raises `IndexError`, or wraps around for a negative index. Infinity (`float('inf')`) is modelled as `None`.
- `DGraph.DirectedGraph.Bfs`: when the end vertex is reachable, the contract states only that listed vertices are reachable without going on from it and that the end itself is never listed. It does not say which other vertices the early stop leaves out.
- `UdGraph.UndirectedGraph.Dfs` and `UdGraph.UndirectedGraph.Bfs`: when the end vertex is reached, the contracts state that it comes last and that every listed vertex is reachable without passing it, not which vertices the early stop leaves out. In every case they do not state the alphabetical visiting order the sort imposes. The sort is modelled, and lemmas prove it keeps the same neighbours.
- `DGraph.DirectedGraph.Dfs` and `DGraph.DirectedGraph.Bfs` do not state the order of the listed vertices. The recursion of `dfs_rec` and `bfs_rec` is modelled as loops over an explicit stack of frames and a queue.
- `DGraph.DirectedGraph.HasCycle`: the deep copy of the matrix is a value copy in the model. Copy and original cannot alias.
- `UdGraph.UndirectedGraph.CountConnectedComponents`: the final `if vertex in vertex_list: vertex_list.remove(vertex)` can never find `vertex`, because `bfs` lists its own start. The model asserts this instead of modelling the dead removal.

## Findings

| source | as written | input that shows it | evidently intended | confidence | as-written member | corrected member |
|---|---|---|---|---|---|---|
| d_graph.py:149-152 | The range tests are chained comparisons `len(adj) <= p < 0`, which are never true, so an out-of-range vertex is never rejected. A negative vertex indexes from the end of the matrix. | 2-vertex graph with the single edge 1→0: `is_valid_path([-1, 0])` returns True. | Reject any vertex outside `0 .. v_count-1`, as the one-vertex case at lines 141-145 does. | not executed | `MatrixGraph.AsWrittenAcceptsNegativeIndex` | `DGraph.DirectedGraph.IsValidPath` |
