# Articulation points of artPts.py, modelled in Dafny

artPts.py finds the articulation points (cut vertices) of an undirected graph. A
builder turns a node count and an edge list into adjacency lists, storing every
edge in both directions and a self-loop once. A recursive depth-first search,
`dfsArt`, then gives each node a discovery id and a low-link value. The driver
`findArt` starts a search from every node still unvisited, in node order. A non-root
node is marked when a tree child `to` returns with `ids[at] <= low[to]`. After each
tree, the root's mark is overridden with "more than one tree edge left the root".
In digraph mode the reverse entry of each tree edge is removed just before the
search descends along it.

The project has five modules:

- `Graph` (graph.dfy) holds `gen_graph` and `gen_graphOBE`. They are methods over
  an `array<seq<int>>` with the source's two loops and its one loop. They are proved
  equal to the functions `Adjacency` and `Interleaved`. A lookup of a missing
  dictionary key becomes `KeyError(key)`, with the exact key each builder trips over
  first.
- `DfsModel` (dfs_model.dfy) is a value-level model. A `State` holds the globals `g`,
  `visited`, `ids`, `low` and `isArt`, plus the two counters `id` and
  `outEdgeCount`. `Visit` is `dfsArt`, `Scan` is its `for` loop and `Drive` is
  `findArt`'s loop. The state also carries bookkeeping the program does not store
  but its correctness is stated in: each node's DFS-tree children, the visit order
  and the tree roots. The lemmas prove:
  - the discovery order;
  - the low-link equations;
  - the non-root and root rules;
  - the order of the roots;
  - that `list.remove` always finds its entry.
- `ArtPoints` (art_points.dfy) is the program as it runs. The class `ArtFinder`
  holds the globals as arrays. The methods `DfsArt` and `FindArt` update those
  arrays in place. Each method is proved to leave the arrays as the model function
  of the old state says, so everything proved in `DfsModel` holds of the arrays.
- `Removals` (removals.dfy) says what digraph mode removes. Each node that is not
  a tree root has exactly one tree parent and has lost exactly one occurrence of
  it. A root has no tree parent and keeps its list.
- `TestGraphs` (test_graphs.dfy) proves what `gen_graph` and `findArt`, in both
  modes, give on test graph 7 (the line 0-1-2-3). It also proves what both
  builders give on one out-of-range edge list.

Integers are unbounded, as Python's are. Node numbers and ids never come near any
bound, so no wrap-around is modelled.

## Model

| member | source | states |
|---|---|---|
| Graph.GenGraph | artPts.py:260-287 | The build succeeds exactly when every endpoint is a node. The lists are then the forward entries in edge order followed by the reverse entries, with a self-loop stored once. Otherwise the `KeyError` carries the first bad source, or, when all sources are nodes, the first bad target. |
| Graph.AddForwardEntries | artPts.py:275-278 | The first loop either stops at the first edge whose source is not a node, or leaves every node's list equal to its forward entries. |
| Graph.AddReverseEntries | artPts.py:279-286 | The second loop skips self-loops. It either stops at the first edge whose target is not a node, or leaves every list as its forward entries followed by its reverse entries. |
| Graph.GenGraphOBE | artPts.py:234-258 | It succeeds exactly when every endpoint is a node, and then gives each node its interleaved list. Otherwise the `KeyError` carries the first missing key, with each edge's source looked up before its target and before the next edge. |
| Graph.AdjacencyNodes | artPts.py:268-286 | Every node 0..n-1 gets a list (none when n <= 0), and every entry is a node. |
| Graph.AdjacencyMembership | artPts.py:274-286 | v is in u's list if and only if some edge is (u, v) or (v, u). |
| Graph.AdjacencyCountSymmetric | artPts.py:274-286 | v occurs in u's list as often as u occurs in v's list. |
| Graph.AdjacencySymmetric | artPts.py:274-286 | The adjacency is symmetric as multisets. Digraph mode relies on this. |
| Graph.AdjacencyTotalLength | artPts.py:273-286 | The lists hold 2·|edges| − #self-loops entries in all. |
| Graph.InterleavedSameNeighbours | artPts.py:249-257 | Each gen_graphOBE list holds the same entries as gen_graph's, only in another order. |
| DfsModel.RemoveFirst | artPts.py:309 | `list.remove` deletes the first occurrence of the entry and keeps the other entries in their order, so exactly one occurrence is gone. |
| DfsModel.IndexOf | artPts.py:309 | The position `list.remove` deletes is the first occurrence. |
| DfsModel.DescentPre | artPts.py:300-314 | Before a descent in digraph mode, `at` is in `g[to]`, so `remove` raises no ValueError. The state handed to the recursive call is a valid entry state. |
| DfsModel.Enter | artPts.py:293-297 | Defines dfsArt's entry: `at` visited, the counter moved on, and `ids[at]` and `low[at]` set to it. `EnterPre` and `EnteredValid` prove that it keeps the state valid and that one node fewer is unvisited; `MarkEntered` is proved to compute it. |
| DfsModel.Descend | artPts.py:300-312 | Defines the step before a descent: `outEdgeCount` counts the edge at the root, and in digraph mode `g[to]` loses its first `at`. `DescentPre` proves the removal always finds its entry; `FollowTreeEdge` is proved to compute it. |
| DfsModel.Return | artPts.py:316-331 | Defines the call back: `low[at] = min(low[at], low[to])`, `at` marked when `ids[at] <= low[to]`, and `to` recorded as `at`'s tree child. `ReturnPre` and `ReturnPost` prove its effect on the scan; `CallBack` is proved to compute it. |
| DfsModel.BackEdge | artPts.py:332-338 | Defines a visited neighbour's step: `low[at] = min(low[at], ids[to])`. `BackEdgePre` and `BackEdgePost` prove that it keeps the scan's invariants; `LinkToVisited` is proved to compute it. |
| DfsModel.Visit | artPts.py:291-339 | After `dfsArt(root, at)`, `at` is visited with id = old counter + 1 and is first among the newly visited nodes. Nodes visited before keep their list, id, low value, mark and children. Lists only lose entries, and in undirected mode none changes. Digraph mode keeps the mirrored invariant `remove` needs. |
| DfsModel.Scan | artPts.py:299-338 | The loop over `at`'s list keeps `g[at]` and `ids[at]` unchanged. Every other visited node is left as it was. |
| DfsModel.TreeEdgeStep | artPts.py:300-331 | One tree edge, with its descent and call back, keeps the scan's postcondition. |
| DfsModel.VisitCorrect | artPts.py:291-339 | Every node `dfsArt` discovers ends settled with an id above the old counter. Its low value is the minimum over its own id, its neighbours' ids and its tree children's low values, and its mark is "some tree child c has ids[x] <= low[c]". At the root, `outEdgeCount` grows by exactly the root's number of tree children. |
| DfsModel.ScanCorrect | artPts.py:299-338 | The loop settles `at`. It never lowers a mark and never raises `low[at]`, and it counts at the root exactly the tree children it adds. |
| DfsModel.MinLinkBound | artPts.py:317-338 | The low-link value is at most the node's id and at most every contribution from its list. |
| DfsModel.MinLinkAttained | artPts.py:317-338 | The low-link value is the node's id or one of the contributions. |
| DfsModel.Init | artPts.py:455-463 | The starting storage is valid: nothing visited or marked, ids and low -1, `outEdgeCount` 0 (line 455), and the counter -1 as `findArt` sets it (line 342). |
| DfsModel.StartTree | artPts.py:347-350 | Defines the state handed to `dfsArt` for a new tree: `outEdgeCount` reset to 0 and `i` recorded as a root. `StartTreePre` proves it a valid entry state; `SearchTree` is proved to compute it. |
| DfsModel.MarkRoot | artPts.py:352-357 | Defines the override after each tree: `isArt[i]` becomes `outEdgeCount > 1`. `MarkRootPre` and `MarkRootPost` prove that it keeps the driver's invariant; `MarkTreeRoot` is proved to compute it. |
| DfsModel.Drive | artPts.py:345-358 | `findArt`'s loop visits every node. Lists only lose entries, and in undirected mode none changes. |
| DfsModel.DriveCorrect | artPts.py:345-358 | The loop keeps the driver's invariant to the end: every node settled; roots marked by the root rule, other nodes by the non-root rule; roots increasing from 0, each the lowest unvisited node when its tree starts. |
| DfsModel.DriveIdle | artPts.py:345-346 | Once every node from i on is visited, the rest of the loop changes nothing. |
| DfsModel.FindArtModel | artPts.py:341-358 | The result is valid, every node is visited, and each list is a sub-multiset of the input (equal to it in undirected mode). `Removals.FindArtRemovals` says exactly what is removed. |
| DfsModel.FindArtIds | artPts.py:293-297 | With the counter starting at -1 (line 342) and never reset, `ids` is a permutation of 0..n-1 recording the visit order, and the last id is n-1. |
| DfsModel.FindArtLow | artPts.py:317-338 | low[v] <= ids[v], and low[v] is the minimum over v's list of neighbour ids and tree-child low values. |
| DfsModel.FindArtMarks | artPts.py:323-357 | A root is marked if and only if it has more than one tree child. Any other node is marked if and only if some tree child c has ids[v] <= low[c]. |
| DfsModel.FindArtRoots | artPts.py:345-350 | The roots increase from node 0, and every node below a root was visited before it. |
| DfsModel.IsolatedNode | artPts.py:353-357 | A node without neighbours ends with low == ids and is not an articulation point. |
| DfsModel.SelfLoopNoEffect | artPts.py:332-338 | Adding a self-loop to a node's list leaves its low-link minimum unchanged. |
| DfsModel.SelfLoopScan | artPts.py:293-338 | A self-loop entry is always seen as visited, and its back-edge update leaves the state unchanged. |
| Removals.NoParentYet | artPts.py:300-331 | A node not yet visited is nobody's tree child. |
| Removals.ParentsAfterReturn | artPts.py:316-331 | The call back from `to` makes `at` a tree parent of `to` and of no other node. |
| Removals.ChildParents | artPts.py:307-331 | After `g[to].remove(at)`, the descent and the call back, `at` is `to`'s one tree parent, and `to`'s list has lost one occurrence of `at` in digraph mode and nothing in undirected mode. |
| Removals.ParentsTrans | artPts.py:299-338 | Two stretches of the scan that each leave every newly discovered node with one parent and one removed entry do so together. |
| Removals.VisitParents | artPts.py:291-339 | Every node `dfsArt(root, at)` discovers below `at` gains exactly one tree parent and, in digraph mode, loses one occurrence of it from its list. `at` and every node it does not discover keep their list and their tree parents. |
| Removals.ScanParents | artPts.py:299-338 | The same for the `for` loop over `at`'s list from the k-th entry on. |
| Removals.TreeEdgeParents | artPts.py:300-331 | The same for one tree edge followed by the rest of the loop. |
| Removals.TreeParentsInv | artPts.py:346-357 | One tree of `findArt` makes its start node a root with no tree parent and its own list, and gives every other node it discovers one parent and one removed entry. |
| Removals.ParentsStep | artPts.py:345-357 | One turn of `findArt`'s loop keeps that invariant. |
| Removals.DriveParents | artPts.py:345-358 | The whole loop keeps it to the end. |
| Removals.FindArtRemovals | artPts.py:307-314 | When `findArt` is done, a tree root has no tree parent and its list as built. Every other node has exactly one tree parent p; its list is the original less one occurrence of p in digraph mode, and the original in undirected mode. |
| ArtPoints.ArtFinder.constructor | artPts.py:451-463 | Fresh arrays holding the model's initial state for the graph. |
| ArtPoints.ArtFinder.DfsArt | artPts.py:291-339 | The arrays and counters afterwards are `Visit` of the state before. |
| ArtPoints.ArtFinder.MarkEntered | artPts.py:293-297 | `visited[at]`, the counter, `low[at]` and `ids[at]` become `Enter` of the old state. |
| ArtPoints.ArtFinder.ScanList | artPts.py:299-338 | The `for` loop over the list snapshot leaves `Scan` of the state on entry. |
| ArtPoints.ArtFinder.ScanNeighbour | artPts.py:300-338 | One iteration advances the scan by exactly one entry. |
| ArtPoints.ArtFinder.FollowTreeEdge | artPts.py:300-331 | Count, remove, descend, call back: the new state is `Return(Visit(Descend(old)))`. |
| ArtPoints.ArtFinder.RemoveReverse | artPts.py:307-309 | `g[to]` loses its first `at`, and nothing else changes. |
| ArtPoints.ArtFinder.CallBack | artPts.py:316-331 | The two ifs and the min give `Return` of the old state. |
| ArtPoints.ArtFinder.LinkToVisited | artPts.py:332-338 | `low[at] = min(low[at], ids[to])`, as `BackEdge`. |
| ArtPoints.ArtFinder.FindArt | artPts.py:341-358 | The arrays end as `FindArtModel` of the input graph, so the `FindArt*` lemmas hold of them. |
| ArtPoints.ArtFinder.VisitFrom | artPts.py:345-358 | One turn of `findArt`'s loop advances `Drive` by one node. |
| ArtPoints.ArtFinder.SearchTree | artPts.py:346-357 | A tree from an unvisited node: `outEdgeCount` reset, the DFS, then the override. |
| ArtPoints.ArtFinder.MarkTreeRoot | artPts.py:352-357 | `isArt[i] = outEdgeCount > 1`, whatever was there before. |
| TestGraphs.LineBuilt | artPts.py:159-163 | gen_graph turns test graph 7 into [[1], [2, 0], [3, 1], [2]], which is well formed and symmetric. |
| TestGraphs.BuildLine | artPts.py:159-163 | The method GenGraph returns that adjacency. |
| TestGraphs.LineArticulationPoints | artPts.py:159-163 | In undirected mode the line yields isArt = [false, true, true, false], ids = [0, 1, 2, 3] and low = [0, 0, 1, 2]: the inner nodes, as the doc-comment (lines 19-22) says. |
| TestGraphs.DigraphArticulationPoints | artPts.py:159-163 | In digraph mode the same marks and ids result, with low = [0, 1, 2, 3]. The adjacency ends as the DFS tree. |
| TestGraphs.BadTwoPassKey | artPts.py:274-286 | For edges (0, 5), (7, 1) on three nodes, gen_graph can only fail on key 7. |
| TestGraphs.BadInterleavedKey | artPts.py:248-257 | gen_graphOBE can only fail on key 5 for the same edges. |
| TestGraphs.BuildBadTwoPass | artPts.py:260-287 | GenGraph returns `KeyError(7)` on them. |
| TestGraphs.BuildBadInterleaved | artPts.py:234-258 | GenGraphOBE returns `KeyError(5)` on them. |

## Left out

- The top-level script: choosing the mode with `input()` and its retry loop, the test tables indexed by graph number, printing the results, and the networkx and matplotlib drawing. These are console I/O and foreign libraries. The builders take `n` and the edge list directly, and the mode is the boolean `convertToDigraph`.
- `pause` and every `print` inside `dfsArt` and `findArt`: console I/O with no effect on the results.
- ArtPoints.ArtFinder.FindArt: requires `convertToDigraph ==> Symmetric(g)` and a well-formed `g`. The source does not check these. On other input it may raise ValueError, IndexError or KeyError, or silently index from the end of a list. A negative entry indexes a Python list from the end. `g[to]` on a dictionary raises KeyError for a missing key. A non-symmetric adjacency need not raise at all: `[[1, 1], [0]]` raises nothing. The model proves that none of this happens for what the builder produces, and does not model any of it for arbitrary adjacencies.
- ArtPoints.ArtFinder.DfsArt: `dfsArt` recurses once per tree edge (line 314). CPython's default recursion limit of about 1000 frames raises RecursionError on a DFS tree about 1000 deep. The model's `Visit` and `DfsArt` terminate on every input, and this limit is not modelled.
- DfsModel.RemoveFirst: requires the entry to be present rather than modelling ValueError. Every call is proved to meet this.
- Parallel edges in digraph mode: `remove` deletes only the first occurrence. The model handles this as the source does, but proves no property specific to it.
- Equivalence of the two modes: the source does not promise it.
- DfsModel.FindArtMarks: states the marks by the source's own rules (root rule and `ids[v] <= low[c]`). It does not prove that they are exactly the graph-theoretic cut vertices.
- DfsModel.SelfLoopScan: proves that a self-loop entry is a no-op where the scan meets it. It does not prove that removing a self-loop from the edge list leaves every mark unchanged.
- The tree children, visit order and roots are ghost bookkeeping in `ArtFinder` and fields of `State`. The program does not store them.
- The program iterates `g[at]` while digraph mode may change other lists. The model iterates a snapshot `nbrs` and proves `g[at] == nbrs` throughout, so the two agree.
