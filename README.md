# A verified model of a small directed-graph class

The program models `Graph`, a directed graph kept as a dictionary from
each vertex label to the set of its out-neighbours. It can register a
vertex, add an edge between two registered vertices and list the
neighbours of a vertex. It offers six ways of walking the graph from a start vertex:

- `bft` and `dft` print every reachable vertex once. They use a queue and a stack of vertices.
- `dft_recursive` does the same by recursion over one shared visited set.
- `bfs` and `dfs` look for a path to a destination. They use a queue and a stack of paths.
- `dfs_recursive` looks for a path by recursion, extending one path list.

The Dafny project has five modules:

- `Walks` (`walks.dfy`) defines edges, walks, reachability and shortest walks. It proves the general facts the traversals rest on: a walk that leaves a set crosses its boundary along an edge, a set closed under edges holds everything reachable from its members, and reachability is transitive.
- `Frontier` (`frontier.dfy`) holds the loop states of the traversals and searches as predicates. It also holds one lemma per step of each loop, showing that the step keeps its state.
  - For `bfs`, the state also records that the queued paths are sorted by length and differ by at most one vertex. From that it proves that the first path to reach the destination is a shortest walk.
- `Graphs` (`graph.dfy`) is the class itself. `Graph<V>` has the field `vertices: map<V, set<V>>` and the class invariant that every neighbour is itself registered. Its methods mirror the source's:
  - `AddVertex` and `AddEdge` change the map in place.
  - `Bft`, `Dft`, `Bfs` and `Dfs` are `while` loops over a sequence used as a queue or stack.
  - `DftRecursive` calls the recursive method `Visit`, which threads the visited set through the recursion.
  - What the traversals print is returned as the sequence of emitted vertices.
- `PathSearch` (`path_search.dfy`) models `dfs_recursive`. It takes the running path as a value and is written as a pure function of the adjacency map. It comes in two forms:
  - `DfsRecursive` follows the code as written.
  - `DfsExhaustive` and `DfsPath` are the search the code evidently intends.
- `Demo` (`demo.dfy`) builds the graph that the module's demonstration block builds, through the class's own methods. It derives from the contracts alone that `bfs(1, 6)` is `[1, 2, 4, 6]`, that `dfs(1, 6)` finds a path, and that each traversal from 1 emits all seven vertices. It also shows that `dfs_recursive(1, 6)` returns `[1, 2, 3, 5]` when the neighbours of 2 yield 3 first.

A Python set has no defined iteration order. The looping methods therefore take a neighbour set's elements in an order the verifier does not know; `Enumerate` picks it. The recursive path search takes the order as a parameter `order`, where `order[u]` lists the neighbours of `u`. Every property is proved for every order.

Where the code of `dfs_recursive` and `add_edge` does less than their comments and docstrings say, the model follows the code:

- The comment at `projects/graph/graph.py:184` says the loop exhausts all neighbours. The `return` at line 189 sits inside the loop, so only the first neighbour the set yields is looked at. If it is not yet on the path, the search goes on from it. If it is already on the path, the path comes back at once. `DfsRecursive` does the same.
- A vertex that is not the destination and has no neighbours never enters the loop at lines 185-189. The function then ends without a `return` statement and gives `None`. `DfsRecursive` gives `Ok(None)` there.
- `add_edge` (lines 20-24) raises `IndexError` unless both endpoints are already vertices. No other code adds neighbours, so every neighbour is itself a key of `vertices`. The model keeps this as the class invariant `Valid()`.

## Model

| member | source | states |
|---|---|---|
| `Graphs.Graph.constructor` | projects/graph/graph.py:8-10 | a new graph has no vertices and satisfies the class invariant |
| `Graphs.Graph.AddVertex` | projects/graph/graph.py:12-14 | the label is registered with an empty neighbour set; if it was already registered, its outgoing edges are discarded; every other entry is unchanged; the invariant is kept |
| `Graphs.Graph.AddEdge` | projects/graph/graph.py:16-24 | succeeds exactly when both labels are registered; on success only the neighbour set of v1 changes, and it gains v2; on failure nothing changes; adding an existing edge changes nothing; the invariant is kept |
| `Graphs.Graph.GetNeighbors` | projects/graph/graph.py:26-28 | fails exactly for an unregistered label; otherwise it returns exactly the out-neighbours of the label |
| `Graphs.Enumerate` | projects/graph/graph.py:52 | iterating over a set visits each of its elements exactly once, in some order |
| `Graphs.Graph.Bft` | projects/graph/graph.py:30-53 | fails exactly for an unregistered start; otherwise emits start first, emits no vertex twice, and emits exactly the vertices reachable from start |
| `Graphs.Graph.Dft` | projects/graph/graph.py:57-76 | the same as Bft, with the stack in place of the queue |
| `Graphs.Graph.Bfs` | projects/graph/graph.py:78-114 | returns [start] when start equals dest; fails only for an unregistered start different from dest; gives None exactly when dest is unreachable; otherwise gives a shortest walk from start to dest with no repeated vertex |
| `Graphs.Graph.Dfs` | projects/graph/graph.py:117-153 | the same as Bfs, except that the walk found need not be a shortest one |
| `Graphs.Graph.DftRecursive` | projects/graph/graph.py:156-168 | fails exactly for an unregistered start; otherwise emits start first, emits no vertex twice, and emits exactly the vertices reachable from start |
| `Graphs.Graph.Visit` | projects/graph/graph.py:161-168 | one call marks and emits v after the earlier output; everything it newly visits is reachable from v; afterwards, only vertices whose calls are still running further up can have unvisited neighbours |
| `Graphs.Graph.VisitNeighbour` | projects/graph/graph.py:166-168 | one round of the loop over v's neighbours: afterwards the neighbour is visited, and the call for v has still visited only what v reaches |
| `Walks.AddVertexKeepsRegistered` | projects/graph/graph.py:12-14 | registering a label with no neighbours keeps every neighbour registered |
| `Walks.AddEdgeKeepsRegistered` | projects/graph/graph.py:20-22 | adding an edge between registered labels keeps every neighbour registered |
| `Walks.ReachableRegistered` | projects/graph/graph.py:26-28 | under the invariant, every vertex reachable from start, other than start itself, is registered, so asking for its neighbours cannot fail |
| `Walks.Crossing` | projects/graph/graph.py:42-53 | a walk that starts inside a set of vertices and ends outside it has an edge from inside to outside |
| `Walks.ClosedContainsReachable` | projects/graph/graph.py:42-53 | a set that contains start and that no edge leaves contains everything reachable from start |
| `Walks.ReachableTrans` | projects/graph/graph.py:166-168 | reachability is transitive |
| `Walks.CountedNoDuplicates` | projects/graph/graph.py:161-164 | an output with as many entries as the visited set has elements, listing exactly those elements, has no duplicates |
| `Frontier.TraversalInit` | projects/graph/graph.py:36-40 | the state with only start in the queue and nothing visited satisfies the traversal invariant |
| `Frontier.TraversalSkip` | projects/graph/graph.py:44-46 | dropping an already visited vertex from the frontier keeps the invariant |
| `Frontier.TraversalVisit` | projects/graph/graph.py:46-53 | visiting and emitting a new vertex and adding all of its neighbours to the frontier keeps the invariant |
| `Frontier.TraversalDone` | projects/graph/graph.py:42-53 | when the frontier is empty, the output starts with start, has no duplicates, and holds exactly the reachable vertices |
| `Frontier.ExploreEnter` | projects/graph/graph.py:161-164 | marking and emitting v at the start of its call keeps the recursive invariant, with v's call running |
| `Frontier.ExploreStep` | projects/graph/graph.py:166-168 | the recursive call for a new neighbour w leaves the call for v having visited only what v reaches |
| `Frontier.ExploreLeave` | projects/graph/graph.py:166-168 | once every neighbour of v is visited, v's call can end without leaving an edge to an unvisited vertex |
| `Frontier.RecursiveDone` | projects/graph/graph.py:156-168 | the outermost call emits start first, no vertex twice, and exactly the reachable vertices |
| `Frontier.SearchInit` | projects/graph/graph.py:85-90 | the state with the single path [start] pending and nothing visited satisfies the search invariant |
| `Frontier.SearchSkip` | projects/graph/graph.py:94-98 | dropping a path whose last vertex is already visited keeps the search invariant |
| `Frontier.PendingIsSimple` | projects/graph/graph.py:94-98 | a pending path is a walk from start with no repeated vertex |
| `Frontier.SearchExpand` | projects/graph/graph.py:103-111 | visiting the last vertex of a path and adding its extension by every neighbour keeps the search invariant |
| `Frontier.SearchFound` | projects/graph/graph.py:99-102 | a pending path that ends at dest is a walk from start to dest without repeated vertices |
| `Frontier.SearchExhausted` | projects/graph/graph.py:113-114 | when no path is pending, dest is unreachable from start |
| `Frontier.HeadIsShortest` | projects/graph/graph.py:92-102 | in the layered breadth-first state, the path at the head of the queue is a shortest walk to its last vertex |
| `Frontier.LayeredInit` | projects/graph/graph.py:85-90 | the initial queue of bfs is layered |
| `Frontier.LayeredSkip` | projects/graph/graph.py:94-98 | dropping the head of the queue keeps it layered |
| `Frontier.LengthsExpand` | projects/graph/graph.py:105-111 | appending one-vertex-longer paths behind the rest of a length-sorted queue keeps it sorted, with lengths within one of each other |
| `Frontier.LayeredExpand` | projects/graph/graph.py:103-111 | visiting the head's last vertex and enqueueing its extensions keeps the queue layered |
| `PathSearch.DfsRecursive` | projects/graph/graph.py:171-189 | returns path + [start] when start equals dest; fails exactly for an unregistered start different from dest; gives None at a vertex without neighbours; any path it returns extends path + [start] by a walk of vertices new to it, and ends at dest or stops where the first neighbour tried is already on the path |
| `PathSearch.ExtendsStepBack` | projects/graph/graph.py:185-188 | the result of a search from a new neighbour of start is also a valid result of the search from start |
| `PathSearch.MissesReachable` | projects/graph/graph.py:185-189 | on the graph 1 -> {2, 3}, when 2 is tried first, the search from 1 to 3 as written returns None, although 3 is reachable |
| `PathSearch.ReturnsPathMissingDest` | projects/graph/graph.py:185-189 | on the graph 1 <-> 2 with 3 cut off, the search from 1 to 3 as written returns [1, 2], which does not end at 3 |
| `PathSearch.DfsExhaustive` | projects/graph/graph.py:171-189 | the search as intended: any path it returns extends path + [start] by a walk to dest of vertices new to it |
| `PathSearch.TryNeighbours` | projects/graph/graph.py:185-188 | the loop over all neighbours, in order: any path it returns extends the current path by a walk to dest |
| `PathSearch.LastVisit` | projects/graph/graph.py:185-188 | a walk that visits s before its end leaves s for the last time along an edge, and never returns to s |
| `PathSearch.ExhaustiveComplete` | projects/graph/graph.py:171-189 | if some walk from start to dest avoids every vertex of the path, the intended search finds a path |
| `PathSearch.TryComplete` | projects/graph/graph.py:185-188 | the loop over the neighbours finds a path whenever one of them begins a walk to dest that avoids the path |
| `PathSearch.DfsPath` | projects/graph/graph.py:171-189 | from an empty path: fails exactly for an unregistered start different from dest; gives None exactly when dest is unreachable; otherwise gives a walk from start to dest with no repeated vertex |
| `PathSearch.ExhaustiveFindsFork` | projects/graph/graph.py:185-189 | on the graph where the code as written misses vertex 3, the intended search returns [1, 3] |
| `PathSearch.ExhaustiveRejectsLoop` | projects/graph/graph.py:185-189 | on the graph where the code as written returns [1, 2], the intended search reports that 3 is unreachable |
| `Demo.BuildDemo` | projects/graph/graph.py:193-211 | the seven add_vertex and ten add_edge calls of the demonstration all succeed and give the graph 1: {2}, 2: {3, 4}, 3: {5}, 4: {6, 7}, 5: {3}, 6: {3}, 7: {1, 6} |
| `Demo.OnlyShortWalkToSix` | projects/graph/graph.py:249-252 | on the demonstration graph, [1, 2, 4, 6] is the only walk from 1 to 6 with at most four vertices |
| `Demo.AllReachableFromOne` | projects/graph/graph.py:220-247 | on the demonstration graph, exactly the vertices 1 to 7 are reachable from 1 |
| `Demo.DemoBfs` | projects/graph/graph.py:249-252 | bfs(1, 6) on the demonstration graph returns [1, 2, 4, 6] |
| `Demo.DemoDfs` | projects/graph/graph.py:254-259 | dfs(1, 6) on the demonstration graph returns a walk from 1 to 6 with no repeated vertex |
| `Demo.DemoTraversals` | projects/graph/graph.py:220-247 | bft, dft and dft_recursive from 1 each emit seven vertices, beginning with 1, and each emits exactly the vertices 1 to 7 |
| `Demo.DemoDfsRecursiveMissesSix` | projects/graph/graph.py:261 | dfs_recursive(1, 6) on the demonstration graph, when 3 is yielded before 4 among the neighbours of 2, returns [1, 2, 3, 5], which does not end at 6 although 6 is reachable from 1 |

## Left out

- Printing: `bft`, `dft` and `dft_recursive` print each vertex. The model returns the sequence of emitted vertices instead.
- Output before a failure: for an unregistered start, `bft` and `dft` print the start and then fail in `get_neighbors`. `dft_recursive` does the same. The model fails at once with `UnknownVertex` and emits nothing.
- Exceptions: the `IndexError` of `add_edge` is modelled as the result `false`. The `KeyError` of `get_neighbors` is modelled as the result `UnknownVertex`.
- Queue and stack: the `Queue` and `Stack` helper classes are not part of this model. They are modelled as sequences without a capacity limit.
- Neighbour order: a set's iteration order is not modelled. Every result is proved for every order. The demonstration's lists of valid output orders are not checked one by one.
- The default `path=[]` of `dfs_recursive`: Python creates this list once and shares it between calls. Calls that rely on the default therefore start from what earlier calls left in it. `path += [...]` also extends the caller's own list in place. The model passes the path as a value, which gives the same result within one call because the search never backtracks, but it does not capture the leftovers between calls.
- Aliasing: `get_neighbors` returns the graph's own set object, so a caller could change the graph through it. The model returns a value.
- `dft_recursive`'s optional `visited` argument: the model always starts from an empty visited set. That is the only way the source calls it from outside.
- Graphs.Graph.Bft: the contract states which vertices are emitted, not that they come out level by level.
- Graphs.Graph.Dft: the contract does not state the depth-first order of the output.
- Graphs.Graph.DftRecursive: the contract does not state the depth-first order of the output.
- Graphs.Graph.DftRecursive: the model has no recursion limit. `dft_recursive` makes one nested call per newly visited vertex, so from the head of a chain of about 1000 vertices CPython raises `RecursionError`. `DftRecursive` returns all of them there, so its "fails exactly for an unregistered start" holds only below that depth.
- PathSearch.DfsRecursive: the contract does not say which neighbour is tried; `MissesReachable` and `ReturnsPathMissingDest` show the effect of trying only the first.
- PathSearch.DfsRecursive: the model has no recursion limit. `dfs_recursive` makes one nested call per vertex added to the path, so a path of about 1000 vertices makes CPython raise `RecursionError`. `DfsRecursive` returns a result there, so its "fails exactly for an unregistered start" holds only below that depth.

## Findings

| source | as written | input that shows it | evidently intended | confidence | as-written member | corrected member |
|---|---|---|---|---|---|---|
| projects/graph/graph.py:185-189 | `return path` sits inside the `for` loop, so only the first neighbour is ever searched. A `None` from that branch is returned as the overall result, and a first neighbour already on the path returns a path that does not end at the destination. | the graph 1 -> {2, 3} with 2 tried first, searching from 1 to 3, gives `None`; the graph 1 <-> 2 with 3 unreachable, searching from 1 to 3, gives `[1, 2]`; the demonstration's own call `dfs_recursive(1, 6)`, with 3 yielded before 4, gives `[1, 2, 3, 5]` | try the neighbours in turn, return the first path that reaches the destination, and return `None` only when every neighbour fails | high (derived by proof, not executed) | `PathSearch.DfsRecursive`, with `PathSearch.MissesReachable`, `PathSearch.ReturnsPathMissingDest` and `Demo.DemoDfsRecursiveMissesSix` | `PathSearch.DfsPath` (through `PathSearch.DfsExhaustive` and `PathSearch.TryNeighbours`), with `PathSearch.ExhaustiveComplete` |
