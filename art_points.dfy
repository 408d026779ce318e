/** The articulation-point search of artPts.py as the program runs it: the module
    globals g, visited, ids, low and isArt become the arrays of an ArtFinder, the
    mode flag a constant, and dfsArt and findArt methods that update the arrays in
    place. Each method is proved to leave the arrays as the value-level model in
    DfsModel says, so everything proved there holds of the arrays. */
module ArtPoints {
  import opened Graph
  import opened DfsModel

  class ArtFinder {
    const g: array<seq<int>>
    const visited: array<bool>
    const ids: array<int>
    const low: array<int>
    const isArt: array<bool>
    /** The answer "y" to the script's question: remove the reverse entry of each
        tree edge before descending. */
    const convertToDigraph: bool
    /** What the proofs are stated in and the program does not store: the DFS-tree
        children of each node, the visit order and the roots of the trees. */
    ghost var children: seq<seq<int>>
    ghost var order: seq<int>
    ghost var roots: seq<int>

    /** The arrays of the same type are different arrays, and all have one length. */
    ghost predicate Distinct()
    {
      ids != low && visited != isArt &&
      visited.Length == g.Length && ids.Length == g.Length && low.Length == g.Length &&
      isArt.Length == g.Length
    }

    /** The arrays, the two counters dfsArt threads through and the bookkeeping, as a
        model state. */
    ghost function Snap(id: int, outEdgeCount: int): State
      reads this, g, visited, ids, low, isArt
    {
      State(g[..], visited[..], ids[..], low[..], isArt[..], id, outEdgeCount, children, order, roots)
    }

    /** The arrays and the bookkeeping hold what the model state r says. */
    ghost predicate Shows(r: State)
      reads this, g, visited, ids, low, isArt
    {
      g[..] == r.g && visited[..] == r.visited && ids[..] == r.ids && low[..] == r.low &&
      isArt[..] == r.isArt && children == r.children && order == r.order && roots == r.roots
    }

    /** The storage the script sets up for one graph: every node unvisited, unmarked,
        with id and low value -1. */
    constructor (adjacency: seq<seq<int>>, digraph: bool)
      requires WellFormed(adjacency)
      ensures Distinct() && convertToDigraph == digraph
      ensures Snap(-1, 0) == Init(adjacency)
      ensures fresh(g) && fresh(visited) && fresh(ids) && fresh(low) && fresh(isArt)
    {
      var n := |adjacency|;
      g := new seq<int>[n](u requires 0 <= u < n => adjacency[u]);
      visited := new bool[n](_ => false);
      ids := new int[n](_ => -1);
      low := new int[n](_ => -1);
      isArt := new bool[n](_ => false);
      convertToDigraph := digraph;
      children := seq(n, _ => []);
      order := [];
      roots := [];
    }

    /** dfsArt(root, at, id, outEdgeCount): mark at, give it the next id as its id and
        low value, then walk its list, descending along unvisited neighbours and
        taking the id of visited ones. */
    method DfsArt(root: int, at: int, id: int, outEdgeCount: int) returns (id': int, outEdgeCount': int)
      requires Distinct() && VisitPre(Snap(id, outEdgeCount), convertToDigraph, root, at)
      modifies this, g, visited, ids, low, isArt
      ensures Snap(id', outEdgeCount') == Visit(old(Snap(id, outEdgeCount)), convertToDigraph, root, at)
      decreases Unvisited(visited[..]), 0
    {
      ghost var s := Snap(id, outEdgeCount);
      VisitUnfold(s, convertToDigraph, root, at);
      id' := MarkEntered(at, id, outEdgeCount);
      assert Snap(id', outEdgeCount) == Enter(s, at);
      id', outEdgeCount' := ScanList(root, at, id', outEdgeCount);
    }

    /** dfsArt's loop over the list of at, which it has just entered. */
    method ScanList(root: int, at: int, id: int, outEdgeCount: int) returns (id': int, outEdgeCount': int)
      requires Distinct() && 0 <= at < g.Length && ScanPre(Snap(id, outEdgeCount), convertToDigraph, root, at, g[at], 0)
      modifies this, g, visited, ids, low, isArt
      ensures Snap(id', outEdgeCount') == Scan(old(Snap(id, outEdgeCount)), convertToDigraph, root, at, old(g[at]), 0)
      decreases Unvisited(visited[..]), 3
    {
      ghost var s := Snap(id, outEdgeCount);
      var nbrs := g[at];
      var k := 0;
      id', outEdgeCount' := id, outEdgeCount;
      while k < |nbrs|
        invariant ScanPre(Snap(id', outEdgeCount'), convertToDigraph, root, at, nbrs, k)
        invariant Scan(Snap(id', outEdgeCount'), convertToDigraph, root, at, nbrs, k) ==
                  Scan(s, convertToDigraph, root, at, nbrs, 0)
        invariant Unvisited(visited[..]) <= Unvisited(s.visited)
        decreases |nbrs| - k
      {
        SubsetCases(Unvisited(visited[..]), Unvisited(s.visited));
        id', outEdgeCount' := ScanNeighbour(root, at, id', outEdgeCount', nbrs, k);
        k := k + 1;
      }
      assert Scan(Snap(id', outEdgeCount'), convertToDigraph, root, at, nbrs, k) == Snap(id', outEdgeCount');
    }

    /** The body of dfsArt's loop for the k-th entry of at's list. */
    method ScanNeighbour(root: int, at: int, id: int, outEdgeCount: int, nbrs: seq<int>, k: int)
      returns (id': int, outEdgeCount': int)
      requires Distinct() && ScanPre(Snap(id, outEdgeCount), convertToDigraph, root, at, nbrs, k) && k < |nbrs|
      modifies this, g, visited, ids, low, isArt
      ensures ScanPre(Snap(id', outEdgeCount'), convertToDigraph, root, at, nbrs, k + 1)
      ensures Scan(Snap(id', outEdgeCount'), convertToDigraph, root, at, nbrs, k + 1) ==
              Scan(old(Snap(id, outEdgeCount)), convertToDigraph, root, at, nbrs, k)
      ensures Unvisited(visited[..]) <= Unvisited(old(visited[..]))
      decreases Unvisited(visited[..]), 2
    {
      var to := nbrs[k];
      ghost var t := Snap(id, outEdgeCount);
      if !visited[to] {
        ScanUnfoldTree(t, convertToDigraph, root, at, nbrs, k);
        id', outEdgeCount' := FollowTreeEdge(root, at, to, id, outEdgeCount, nbrs, k);
      } else {
        ScanUnfoldBack(t, convertToDigraph, root, at, nbrs, k);
        id', outEdgeCount' := id, outEdgeCount;
        LinkToVisited(at, to, id, outEdgeCount);
      }
    }

    /** The body of dfsArt's loop for an unvisited neighbour to: count the edge if at
        is the root, remove the reverse entry in digraph mode, descend, then call
        back. */
    method FollowTreeEdge(root: int, at: int, to: int, id: int, outEdgeCount: int, ghost nbrs: seq<int>, ghost k: int)
      returns (id': int, outEdgeCount': int)
      requires Distinct() && ScanPre(Snap(id, outEdgeCount), convertToDigraph, root, at, nbrs, k)
      requires k < |nbrs| && to == nbrs[k] && !visited[to]
      modifies this, g, visited, ids, low, isArt
      ensures (convertToDigraph ==> at in old(g[to])) &&
              VisitPre(Descend(old(Snap(id, outEdgeCount)), convertToDigraph, root, at, to), convertToDigraph, root, to) &&
              Snap(id', outEdgeCount') ==
              Return(Visit(Descend(old(Snap(id, outEdgeCount)), convertToDigraph, root, at, to), convertToDigraph, root, to), at, to)
      decreases Unvisited(visited[..]), 1
    {
      ghost var t := Snap(id, outEdgeCount);
      DescentPre(t, convertToDigraph, root, at, nbrs, k);
      id' := id;
      outEdgeCount' := outEdgeCount;
      if at == root {
        outEdgeCount' := outEdgeCount' + 1;
      }
      if convertToDigraph {
        RemoveReverse(to, at, id', outEdgeCount');
      }
      assert Snap(id', outEdgeCount') == Descend(t, convertToDigraph, root, at, to);
      id', outEdgeCount' := DfsArt(root, to, id', outEdgeCount');
      CallBack(at, to, id', outEdgeCount');
    }

    /** The entry of dfsArt: visited[at] = True, the counter moves on, and low[at] and
        ids[at] take its new value. */
    method MarkEntered(at: int, id: int, outEdgeCount: int) returns (id': int)
      requires Distinct() && Shaped(Snap(id, outEdgeCount)) && 0 <= at < g.Length
      modifies this, visited, ids, low
      ensures Snap(id', outEdgeCount) == Enter(old(Snap(id, outEdgeCount)), at)
    {
      visited[at] := true;
      id' := id + 1;
      low[at] := id';
      ids[at] := id';
      order := order + [at];
    }

    /** g[to].remove(at), in digraph mode. */
    method RemoveReverse(to: int, at: int, id: int, outEdgeCount: int)
      requires Distinct() && 0 <= to < g.Length && at in g[to]
      modifies g
      ensures Snap(id, outEdgeCount) == old(Snap(id, outEdgeCount)).(g := old(g[..])[to := RemoveFirst(old(g[to]), at)])
    {
      g[to] := RemoveFirst(g[to], at);
    }

    /** The call back from the tree child to: low[at] = min(low[at], low[to]), and at
        is marked when ids[at] < low[to] or ids[at] == low[to]. */
    method CallBack(at: int, to: int, id: int, outEdgeCount: int)
      requires Distinct() && Shaped(Snap(id, outEdgeCount)) && 0 <= at < g.Length && 0 <= to < g.Length
      modifies this, low, isArt
      ensures Snap(id, outEdgeCount) == Return(old(Snap(id, outEdgeCount)), at, to)
    {
      low[at] := Min(low[at], low[to]);
      if ids[at] < low[to] {
        isArt[at] := true;
      }
      if ids[at] == low[to] {
        isArt[at] := true;
      }
      children := children[at := children[at] + [to]];
    }

    /** A link to a visited node: low[at] = min(low[at], ids[to]). */
    method LinkToVisited(at: int, to: int, id: int, outEdgeCount: int)
      requires Distinct() && Shaped(Snap(id, outEdgeCount)) && 0 <= at < g.Length && 0 <= to < g.Length
      modifies low
      ensures Snap(id, outEdgeCount) == BackEdge(old(Snap(id, outEdgeCount)), at, to)
    {
      low[at] := Min(low[at], ids[to]);
    }

    /** findArt: a DFS from every node still unvisited, in node order, with one id
        counter for all of them; after each, the root is marked exactly when it has
        more than one tree edge. */
    method FindArt()
      requires Distinct() && WellFormed(g[..]) && (convertToDigraph ==> Symmetric(g[..]))
      requires Snap(-1, 0) == Init(g[..])
      modifies this, g, visited, ids, low, isArt
      ensures Shows(FindArtModel(old(g[..]), convertToDigraph))
    {
      ghost var g0 := g[..];
      var id := -1;
      var n := g.Length;
      var outEdgeCount := 0;
      assert DrivePre(Snap(id, outEdgeCount), convertToDigraph, 0);
      for i := 0 to n
        invariant DrivePre(Snap(id, outEdgeCount), convertToDigraph, i)
        invariant Drive(Snap(id, outEdgeCount), convertToDigraph, i) == FindArtModel(g0, convertToDigraph)
      {
        id, outEdgeCount := VisitFrom(i, id, outEdgeCount);
      }
    }

    /** The body of findArt's loop for node i: a search from i if it is unvisited. */
    method VisitFrom(i: int, id: int, outEdgeCount: int) returns (id': int, outEdgeCount': int)
      requires Distinct() && DrivePre(Snap(id, outEdgeCount), convertToDigraph, i) && i < g.Length
      modifies this, g, visited, ids, low, isArt
      ensures DrivePre(Snap(id', outEdgeCount'), convertToDigraph, i + 1)
      ensures Drive(Snap(id', outEdgeCount'), convertToDigraph, i + 1) ==
              Drive(old(Snap(id, outEdgeCount)), convertToDigraph, i)
    {
      ghost var t := Snap(id, outEdgeCount);
      DriveUnfold(t, convertToDigraph, i);
      if !visited[i] {
        id', outEdgeCount' := SearchTree(i, id, outEdgeCount);
      } else {
        id', outEdgeCount' := id, outEdgeCount;
      }
    }

    /** The body of findArt's loop for an unvisited node i: a DFS rooted at i with
        outEdgeCount reset to 0, then the override of i's mark. */
    method SearchTree(i: int, id: int, outEdgeCount: int) returns (id': int, outEdgeCount': int)
      requires Distinct() && 0 <= i < g.Length && !visited[i]
      requires VisitPre(StartTree(Snap(id, outEdgeCount), i), convertToDigraph, i, i)
      modifies this, g, visited, ids, low, isArt
      ensures Snap(id', outEdgeCount') ==
              MarkRoot(Visit(StartTree(old(Snap(id, outEdgeCount)), i), convertToDigraph, i, i), i)
    {
      ghost var t := Snap(id, outEdgeCount);
      var root := i;
      var at := i;
      outEdgeCount' := 0;
      roots := roots + [i];
      assert Snap(id, outEdgeCount') == StartTree(t, i);
      id', outEdgeCount' := DfsArt(root, at, id, outEdgeCount');
      MarkTreeRoot(i, id', outEdgeCount');
    }

    /** The override after a tree: the root is marked exactly when it has more than one
        tree edge, whatever dfsArt set. */
    method MarkTreeRoot(i: int, id: int, outEdgeCount: int)
      requires Distinct() && 0 <= i < isArt.Length
      modifies isArt
      ensures Snap(id, outEdgeCount) == MarkRoot(old(Snap(id, outEdgeCount)), i)
    {
      if outEdgeCount > 1 {
        isArt[i] := true;
      } else {
        isArt[i] := false;
      }
    }
  }

  /** A subset is a proper subset or the same set: the measure of a call that has
      visited nothing yet falls back on its second component. This is a solver hint,
      not a fact of the model: Dafny proves it unaided, and it is a lemma only so
      that the loop in ScanList stays cheap to verify. */
  lemma SubsetCases(a: set<int>, b: set<int>)
    requires a <= b
    ensures a < b || a == b
  {
  }
}
