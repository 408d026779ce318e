/** What the model gives on concrete graphs from the script's test tables: test graph
    7, the line 0 - 1 - 2 - 3, whose inner nodes are the articulation points, and an
    out-of-range edge list that shows the order in which each builder looks up keys. */
module TestGraphs {
  import opened Graph
  import opened DfsModel

  /** Test graph 7: four nodes in a line. */
  function LineEdges(): seq<Edge>
  {
    [(0, 1), (1, 2), (2, 3)]
  }

  /** The adjacency gen_graph builds for it: forward entries first, then reverse ones. */
  function LineAdjacency(): seq<seq<int>>
  {
    [[1], [2, 0], [3, 1], [2]]
  }

  lemma LineBuilt()
    ensures Adjacency(4, LineEdges()) == LineAdjacency()
    ensures WellFormed(LineAdjacency()) && Symmetric(LineAdjacency())
  {
    LineAdjacencyBuilt();
    AdjacencyNodes(4, LineEdges());
    AdjacencySymmetric(4, LineEdges());
  }

  lemma LineAdjacencyBuilt()
    ensures Adjacency(4, LineEdges()) == LineAdjacency()
  {
    LineLists();
    ListsBuilt(LineEdges(), LineAdjacency());
  }

  /** Four lists, each the forward and then the reverse entries of its node, are what
      gen_graph builds for four nodes. */
  lemma ListsBuilt(e: seq<Edge>, f: seq<seq<int>>)
    requires |f| == 4
    requires Forward(e, 0) + Reverse(e, 0) == f[0] && Forward(e, 1) + Reverse(e, 1) == f[1]
    requires Forward(e, 2) + Reverse(e, 2) == f[2] && Forward(e, 3) + Reverse(e, 3) == f[3]
    ensures Adjacency(4, e) == f
  {
    var adj := Adjacency(4, e);
    forall u | 0 <= u < 4 ensures adj[u] == f[u] {
      if u == 0 { } else if u == 1 { } else if u == 2 { } else { }
    }
  }

  /** The forward and reverse entries of each node of the line, edge by edge. */
  lemma LineLists()
    ensures var e := LineEdges();
            Forward(e, 0) == [1] && Forward(e, 1) == [2] && Forward(e, 2) == [3] && Forward(e, 3) == [] &&
            Reverse(e, 0) == [] && Reverse(e, 1) == [0] && Reverse(e, 2) == [1] && Reverse(e, 3) == [2]
  {
    var e := LineEdges();
    var p2: seq<Edge> := [(0, 1), (1, 2)];
    LineLists2();
    assert e[..2] == p2;
  }

  lemma LineLists2()
    ensures var p2: seq<Edge> := [(0, 1), (1, 2)];
            Forward(p2, 0) == [1] && Forward(p2, 1) == [2] && Forward(p2, 2) == [] && Forward(p2, 3) == [] &&
            Reverse(p2, 0) == [] && Reverse(p2, 1) == [0] && Reverse(p2, 2) == [1] && Reverse(p2, 3) == []
  {
    var p1: seq<Edge> := [(0, 1)];
    var p2: seq<Edge> := [(0, 1), (1, 2)];
    assert p1[..0] == [] && p2[..1] == p1;
    assert Forward(p1, 0) == [1] && Forward(p1, 1) == [] && Forward(p1, 2) == [] && Forward(p1, 3) == [];
    assert Reverse(p1, 0) == [] && Reverse(p1, 1) == [0] && Reverse(p1, 2) == [] && Reverse(p1, 3) == [];
  }

  /** gen_graph on test graph 7 builds the adjacency above. */
  method BuildLine() returns (r: BuildResult)
    ensures r == Built(LineAdjacency())
  {
    LineBuilt();
    r := GenGraph(4, LineEdges());
  }

  // The states of findArt on test graph 7, in the order the DFS reaches them; the
  // arguments after the graph are visited, ids, low, isArt, id, outEdgeCount, children
  // and order. The graph is a parameter of the lemmas below, so that the verifier
  // unfolds the model one step at a time instead of evaluating it on literals.
  function LineState(g: seq<seq<int>>, visited: seq<bool>, ids: seq<int>, low: seq<int>, isArt: seq<bool>,
                     id: int, outEdgeCount: int, children: seq<seq<int>>, order: seq<int>): State
  {
    State(g, visited, ids, low, isArt, id, outEdgeCount, children, order, [0])
  }

  const NoChildren: seq<seq<int>> := [[], [], [], []]
  const Unmarked: seq<bool> := [false, false, false, false]
  const AllVisited: seq<bool> := [true, true, true, true]
  const LineOrder: seq<int> := [0, 1, 2, 3]

  /** Entering node 1, 2 or 3 from its predecessor on the line. */
  function LineEntered(g: seq<seq<int>>, k: int): State
  {
    if k == 1 then
      LineState(g, [true, false, false, false], [0, -1, -1, -1], [0, -1, -1, -1], Unmarked, 0, 1, NoChildren, [0])
    else if k == 2 then
      LineState(g, [true, true, false, false], [0, 1, -1, -1], [0, 1, -1, -1], Unmarked, 1, 1, NoChildren, [0, 1])
    else
      LineState(g, [true, true, true, false], [0, 1, 2, -1], [0, 1, 2, -1], Unmarked, 2, 1, NoChildren, [0, 1, 2])
  }

  /** The state when the call for node 1, 2 or 3 returns. */
  function LineLeft(g: seq<seq<int>>, k: int): State
  {
    if k == 3 then
      LineState(g, AllVisited, LineOrder, [0, 1, 2, 2], Unmarked, 3, 1, NoChildren, LineOrder)
    else if k == 2 then
      LineState(g, AllVisited, LineOrder, [0, 1, 1, 2], [false, false, true, false], 3, 1, [[], [], [3], []], LineOrder)
    else
      LineState(g, AllVisited, LineOrder, [0, 0, 1, 2], [false, true, true, false], 3, 1, [[], [2], [3], []], LineOrder)
  }

  /** The state when the root's call returns: node 0 is marked by the non-root rule. */
  function LineRootLeft(g: seq<seq<int>>): State
  {
    LineState(g, AllVisited, LineOrder, [0, 0, 1, 2], [true, true, true, false], 3, 1, [[1], [2], [3], []], LineOrder)
  }

  /** The state findArt ends in: the override has cleared node 0's mark. */
  function LineFinal(g: seq<seq<int>>): State
  {
    LineState(g, AllVisited, LineOrder, [0, 0, 1, 2], [false, true, true, false], 3, 1, [[1], [2], [3], []], LineOrder)
  }

  /** A node whose list is empty: the call only enters it. */
  lemma NoNeighbour(s: State, digraph: bool, root: int, at: int)
    requires VisitPre(s, digraph, root, at) && s.g[at] == []
    ensures Visit(s, digraph, root, at) == Enter(s, at)
  {
    VisitUnfold(s, digraph, root, at);
  }

  /** A node whose list is one visited neighbour: the call only takes that
      neighbour's id into its low value. */
  lemma OnlyBackNeighbour(s: State, digraph: bool, root: int, at: int)
    requires VisitPre(s, digraph, root, at) && |s.g[at]| == 1 && s.visited[s.g[at][0]]
    ensures Visit(s, digraph, root, at) == BackEdge(Enter(s, at), at, s.g[at][0])
  {
    VisitUnfold(s, digraph, root, at);
    ScanUnfoldBack(Enter(s, at), digraph, root, at, s.g[at], 0);
  }

  /** The state after a call has entered at, descended to the first entry of its list
      (unvisited, and not at itself) and called back from it. */
  ghost function FirstChild(s: State, digraph: bool, root: int, at: int): (r: State)
    requires VisitPre(s, digraph, root, at) && |s.g[at]| > 0 && !s.visited[s.g[at][0]] && s.g[at][0] != at
    ensures |r.g| == |s.g|
  {
    var e := Enter(s, at);
    var to := s.g[at][0];
    assert (digraph ==> at in e.g[to]) && VisitPre(Descend(e, digraph, root, at, to), digraph, root, to) by {
      FirstDescent(s, digraph, root, at);
    }
    Return(Visit(Descend(e, digraph, root, at, to), digraph, root, to), at, to)
  }

  lemma FirstDescent(s: State, digraph: bool, root: int, at: int)
    requires VisitPre(s, digraph, root, at) && |s.g[at]| > 0 && !s.visited[s.g[at][0]] && s.g[at][0] != at
    ensures digraph ==> at in Enter(s, at).g[s.g[at][0]]
    ensures VisitPre(Descend(Enter(s, at), digraph, root, at, s.g[at][0]), digraph, root, s.g[at][0])
  {
    EnterPre(s, digraph, root, at);
    DescentPre(Enter(s, at), digraph, root, at, s.g[at], 0);
  }

  /** A node whose list is one unvisited neighbour: the call descends to it and calls
      back. */
  lemma OnlyTreeNeighbour(s: State, digraph: bool, root: int, at: int)
    requires VisitPre(s, digraph, root, at) && |s.g[at]| == 1 && !s.visited[s.g[at][0]] && s.g[at][0] != at
    ensures Visit(s, digraph, root, at) == FirstChild(s, digraph, root, at)
  {
    VisitUnfold(s, digraph, root, at);
    ScanUnfoldTree(Enter(s, at), digraph, root, at, s.g[at], 0);
  }

  /** A node whose list is an unvisited neighbour and then a second one: the call
      descends to the first, calls back, and, the second being visited by then, takes
      its id into the low value. */
  lemma TreeThenBackNeighbour(s: State, digraph: bool, root: int, at: int)
    requires VisitPre(s, digraph, root, at) && |s.g[at]| == 2 && !s.visited[s.g[at][0]] && s.g[at][0] != at
    ensures var c := FirstChild(s, digraph, root, at);
            c.visited[s.g[at][1]] ==> Visit(s, digraph, root, at) == BackEdge(c, at, s.g[at][1])
  {
    VisitUnfold(s, digraph, root, at);
    ScanUnfoldTree(Enter(s, at), digraph, root, at, s.g[at], 0);
    var c := FirstChild(s, digraph, root, at);
    if c.visited[s.g[at][1]] {
      ScanUnfoldBack(c, digraph, root, at, s.g[at], 1);
    }
  }

  /** The state right after the call for node 1 or 2 has entered it. */
  lemma Entered(g: seq<seq<int>>, k: int)
    requires k == 1 || k == 2
    ensures Enter(LineEntered(g, k), k) == LineEntered(g, k + 1).(outEdgeCount := 1)
  {
  }

  /** Node 3 sees only node 2, already visited, and takes its id as low value. */
  lemma LineVisit3(G: seq<seq<int>>)
    requires G == LineAdjacency() && VisitPre(LineEntered(G, 3), false, 0, 3)
    ensures Visit(LineEntered(G, 3), false, 0, 3) == LineLeft(G, 3)
  {
    var e := Enter(LineEntered(G, 3), 3);
    assert G[3] == [2];
    assert BackEdge(e, 3, 2).low == [0, 1, 2, 2];
    assert BackEdge(e, 3, 2) == LineLeft(G, 3);
    OnlyBackNeighbour(LineEntered(G, 3), false, 0, 3);
  }

  /** The steps of node 2's call that do not recurse, on the concrete states. */
  lemma LineStep2(G: seq<seq<int>>)
    requires G == LineAdjacency()
    ensures G[2] == [3, 1]
    ensures Descend(Enter(LineEntered(G, 2), 2), false, 0, 2, 3) == LineEntered(G, 3)
    ensures BackEdge(Return(LineLeft(G, 3), 2, 3), 2, 1) == LineLeft(G, 2)
  {
    var e := Enter(LineEntered(G, 2), 2);
    var r := Return(LineLeft(G, 3), 2, 3);
    var b := BackEdge(r, 2, 1);
    Entered(G, 2);
    assert r.children[2] == [3];
    assert r.low == [0, 1, 2, 2] && r.isArt == [false, false, true, false] && r.children == [[], [], [3], []];
    assert b.low == [0, 1, 1, 2];
    assert b == LineLeft(G, 2);
  }

  /** Node 2 descends to node 3, is marked when it returns, then sees node 1. */
  lemma LineVisit2(G: seq<seq<int>>)
    requires G == LineAdjacency() && VisitPre(LineEntered(G, 2), false, 0, 2)
    ensures Visit(LineEntered(G, 2), false, 0, 2) == LineLeft(G, 2)
  {
    LineStep2(G);
    FirstDescent(LineEntered(G, 2), false, 0, 2);
    TreeThenBackNeighbour(LineEntered(G, 2), false, 0, 2);
    LineVisit3(G);
  }

  /** The steps of node 1's call that do not recurse, on the concrete states. */
  lemma LineStep1(G: seq<seq<int>>)
    requires G == LineAdjacency()
    ensures G[1] == [2, 0]
    ensures Descend(Enter(LineEntered(G, 1), 1), false, 0, 1, 2) == LineEntered(G, 2)
    ensures BackEdge(Return(LineLeft(G, 2), 1, 2), 1, 0) == LineLeft(G, 1)
  {
    var e := Enter(LineEntered(G, 1), 1);
    var r := Return(LineLeft(G, 2), 1, 2);
    var b := BackEdge(r, 1, 0);
    Entered(G, 1);
    assert r.children[1] == [2];
    assert r.low == [0, 1, 1, 2] && r.isArt == [false, true, true, false] && r.children == [[], [2], [3], []];
    assert b.low == [0, 0, 1, 2];
    assert b == LineLeft(G, 1);
  }

  /** Node 1 descends to node 2, is marked when it returns, then sees node 0. */
  lemma LineVisit1(G: seq<seq<int>>)
    requires G == LineAdjacency() && VisitPre(LineEntered(G, 1), false, 0, 1)
    ensures Visit(LineEntered(G, 1), false, 0, 1) == LineLeft(G, 1)
  {
    LineStep1(G);
    FirstDescent(LineEntered(G, 1), false, 0, 1);
    TreeThenBackNeighbour(LineEntered(G, 1), false, 0, 1);
    LineVisit2(G);
  }

  /** The steps of the root's call that do not recurse, on the concrete states. */
  lemma LineRootStep(G: seq<seq<int>>)
    requires G == LineAdjacency()
    ensures G[0] == [1]
    ensures Descend(Enter(StartTree(Init(G), 0), 0), false, 0, 0, 1) == LineEntered(G, 1)
    ensures Return(LineLeft(G, 1), 0, 1) == LineRootLeft(G)
  {
    LineRootDescend(G);
    var r := Return(LineLeft(G, 1), 0, 1);
    assert r.children[0] == [1];
    assert r.low == [0, 0, 1, 2] && r.isArt == [true, true, true, false] && r.children == [[1], [2], [3], []];
  }

  lemma LineRootDescend(G: seq<seq<int>>)
    requires G == LineAdjacency()
    ensures Descend(Enter(StartTree(Init(G), 0), 0), false, 0, 0, 1) == LineEntered(G, 1)
  {
    RootEntered(G);
  }

  /** The state right after findArt's first call has entered node 0. */
  lemma RootEntered(g: seq<seq<int>>)
    requires WellFormed(g) && |g| == 4
    ensures Enter(StartTree(Init(g), 0), 0) ==
            LineState(g, [true, false, false, false], [0, -1, -1, -1], [0, -1, -1, -1], Unmarked, 0, 0, NoChildren, [0])
  {
    StartState(g);
  }

  /** The state findArt hands to the first tree of a graph of four nodes. */
  lemma StartState(g: seq<seq<int>>)
    requires WellFormed(g) && |g| == 4
    ensures StartTree(Init(g), 0) ==
            LineState(g, Unmarked, [-1, -1, -1, -1], [-1, -1, -1, -1], Unmarked, -1, 0, NoChildren, [])
  {
    var a := StartTree(Init(g), 0);
    assert a.visited == Unmarked && a.ids == [-1, -1, -1, -1] && a.low == [-1, -1, -1, -1];
    assert a.isArt == Unmarked && a.children == NoChildren;
  }

  /** The tree rooted at node 0 runs down the whole line. */
  lemma LineTree(G: seq<seq<int>>)
    requires G == LineAdjacency() && VisitPre(StartTree(Init(G), 0), false, 0, 0)
    ensures Visit(StartTree(Init(G), 0), false, 0, 0) == LineRootLeft(G)
  {
    LineRootStep(G);
    FirstDescent(StartTree(Init(G), 0), false, 0, 0);
    OnlyTreeNeighbour(StartTree(Init(G), 0), false, 0, 0);
    LineVisit1(G);
  }

  /** Nodes 1 to 3 are already visited when findArt's loop reaches them. */
  lemma LineDriveRest(m: State, digraph: bool)
    requires DrivePre(m, digraph, 1) && |m.g| == 4 && m.visited == AllVisited
    ensures Drive(m, digraph, 1) == m
  {
    DriveIdle(m, digraph, 1);
  }

  /** findArt's loop finds node 0 unvisited and searches the tree rooted there. */
  lemma FirstTree(g: seq<seq<int>>, digraph: bool)
    requires WellFormed(g) && (digraph ==> Symmetric(g)) && |g| > 0
    ensures VisitPre(StartTree(Init(g), 0), digraph, 0, 0)
    ensures var m := MarkRoot(Visit(StartTree(Init(g), 0), digraph, 0, 0), 0);
            DrivePre(m, digraph, 1) && Drive(Init(g), digraph, 0) == Drive(m, digraph, 1)
  {
    assert DrivePre(Init(g), digraph, 0);
    DriveUnfold(Init(g), digraph, 0);
  }

  /** The override clears node 0's mark: it has one tree child. */
  lemma LineRootOverride(G: seq<seq<int>>)
    requires G == LineAdjacency()
    ensures MarkRoot(LineRootLeft(G), 0) == LineFinal(G)
  {
    assert MarkRoot(LineRootLeft(G), 0).isArt == [false, true, true, false];
  }

  /** Undirected mode on test graph 7: findArt marks exactly nodes 1 and 2, numbers
      the nodes in line order and ends with low = [0, 0, 1, 2]. The DFS tree from 0 is
      the line itself; each inner node's only tree child has a low value equal to the
      inner node's id, and the root has one tree child. */
  lemma LineArticulationPoints(G: seq<seq<int>>)
    requires G == LineAdjacency()
    ensures WellFormed(G)
    ensures FindArtModel(G, false).isArt == [false, true, true, false]
    ensures FindArtModel(G, false).ids == [0, 1, 2, 3]
    ensures FindArtModel(G, false).low == [0, 0, 1, 2]
  {
    LineBuilt();
    FirstTree(G, false);
    LineTree(G);
    LineRootOverride(G);
    LineDriveRest(LineFinal(G), false);
  }

  /** The adjacency in digraph mode once the reverse entries of the tree edges into
      nodes 1 to k have been removed. */
  function DigraphAdjacency(g: seq<seq<int>>, k: int): seq<seq<int>>
    requires |g| == 4
  {
    if k == 1 then g[1 := [2]]
    else if k == 2 then g[1 := [2]][2 := [3]]
    else g[1 := [2]][2 := [3]][3 := []]
  }

  /** Digraph mode: the state when the call for node 1, 2 or 3 returns; the graph is
      the DFS tree by then. */
  function DigraphLeft(g: seq<seq<int>>, k: int): State
    requires |g| == 4
  {
    var tree := DigraphAdjacency(g, 3);
    var low := [0, 1, 2, 3];
    if k == 3 then
      LineState(tree, AllVisited, LineOrder, low, Unmarked, 3, 1, NoChildren, LineOrder)
    else if k == 2 then
      LineState(tree, AllVisited, LineOrder, low, [false, false, true, false], 3, 1, [[], [], [3], []], LineOrder)
    else if k == 1 then
      LineState(tree, AllVisited, LineOrder, low, [false, true, true, false], 3, 1, [[], [2], [3], []], LineOrder)
    else
      LineState(tree, AllVisited, LineOrder, low, [true, true, true, false], 3, 1, [[1], [2], [3], []], LineOrder)
  }

  /** Digraph mode: node 3's list is empty once node 2 has removed its entry. */
  lemma DigraphVisit3(G: seq<seq<int>>)
    requires G == LineAdjacency() && VisitPre(LineEntered(DigraphAdjacency(G, 3), 3), true, 0, 3)
    ensures Visit(LineEntered(DigraphAdjacency(G, 3), 3), true, 0, 3) == DigraphLeft(G, 3)
  {
    var d := LineEntered(DigraphAdjacency(G, 3), 3);
    assert d.g[3] == [];
    assert Enter(d, 3) == DigraphLeft(G, 3);
    NoNeighbour(d, true, 0, 3);
  }

  /** Digraph mode: node 1's list is its tree child alone, and descending removes 1
      from the child's list. */
  lemma DigraphDescend1(G: seq<seq<int>>)
    requires G == LineAdjacency()
    ensures LineEntered(DigraphAdjacency(G, 1), 1).g[1] == [2]
    ensures var e := Enter(LineEntered(DigraphAdjacency(G, 1), 1), 1);
            1 in e.g[2] && Descend(e, true, 0, 1, 2) == LineEntered(DigraphAdjacency(G, 2), 2)
  {
    var h := DigraphAdjacency(G, 1);
    var e := Enter(LineEntered(h, 1), 1);
    DigraphRemoval1(G);
    Entered(h, 1);
  }

  lemma DigraphRemoval1(G: seq<seq<int>>)
    requires G == LineAdjacency()
    ensures var h := DigraphAdjacency(G, 1);
            h[1] == [2] && h[2] == [3, 1] && h[2 := RemoveFirst(h[2], 1)] == DigraphAdjacency(G, 2)
  {
    var h := DigraphAdjacency(G, 1);
    RemoveSecond(3, 1);
    assert h[1] == [2] && h[2] == [3, 1];
  }

  /** Digraph mode: node 1 is marked when node 2 returns. */
  lemma DigraphReturn1(G: seq<seq<int>>)
    requires G == LineAdjacency()
    ensures Return(DigraphLeft(G, 2), 1, 2) == DigraphLeft(G, 1)
  {
    var r := Return(DigraphLeft(G, 2), 1, 2);
    assert r.children[1] == [2];
    assert r.low == [0, 1, 2, 3];
    assert r.isArt == DigraphLeft(G, 1).isArt && r.children == DigraphLeft(G, 1).children;
  }

  /** Digraph mode: node 2's list is its tree child alone, and descending removes 2
      from the child's list. */
  lemma DigraphDescend2(G: seq<seq<int>>)
    requires G == LineAdjacency()
    ensures LineEntered(DigraphAdjacency(G, 2), 2).g[2] == [3]
    ensures var e := Enter(LineEntered(DigraphAdjacency(G, 2), 2), 2);
            2 in e.g[3] && Descend(e, true, 0, 2, 3) == LineEntered(DigraphAdjacency(G, 3), 3)
  {
    var h := DigraphAdjacency(G, 2);
    var e := Enter(LineEntered(h, 2), 2);
    DigraphRemoval2(G);
    Entered(h, 2);
  }

  lemma DigraphRemoval2(G: seq<seq<int>>)
    requires G == LineAdjacency()
    ensures var h := DigraphAdjacency(G, 2);
            h[2] == [3] && h[3] == [2] && h[3 := RemoveFirst(h[3], 2)] == DigraphAdjacency(G, 3)
  {
    var h := DigraphAdjacency(G, 2);
    assert IndexOf([2], 2) == 0;
    assert h[2] == [3] && h[3] == [2];
  }

  /** Digraph mode: node 2 is marked when node 3 returns. */
  lemma DigraphReturn2(G: seq<seq<int>>)
    requires G == LineAdjacency()
    ensures Return(DigraphLeft(G, 3), 2, 3) == DigraphLeft(G, 2)
  {
    var r := Return(DigraphLeft(G, 3), 2, 3);
    assert r.children[2] == [3];
    assert r.low == [0, 1, 2, 3];
    assert r.isArt == DigraphLeft(G, 2).isArt && r.children == DigraphLeft(G, 2).children;
  }

  /** Digraph mode: node k, for k = 1, 2, descends to its only remaining neighbour and
      is marked when it returns. */
  lemma DigraphVisit(G: seq<seq<int>>, k: int)
    requires G == LineAdjacency() && (k == 1 || k == 2)
    requires VisitPre(LineEntered(DigraphAdjacency(G, k), k), true, 0, k)
    ensures Visit(LineEntered(DigraphAdjacency(G, k), k), true, 0, k) == DigraphLeft(G, k)
    decreases 3 - k
  {
    if k == 1 {
      DigraphDescend1(G);
      DigraphReturn1(G);
    } else {
      DigraphDescend2(G);
      DigraphReturn2(G);
    }
    FirstDescent(LineEntered(DigraphAdjacency(G, k), k), true, 0, k);
    OnlyTreeNeighbour(LineEntered(DigraphAdjacency(G, k), k), true, 0, k);
    if k == 1 {
      DigraphVisit(G, 2);
    } else {
      DigraphVisit3(G);
    }
  }

  /** Digraph mode: descending from the root to node 1 removes 0 from node 1's list. */
  lemma DigraphRootDescend(G: seq<seq<int>>)
    requires G == LineAdjacency()
    ensures G[0] == [1] && 0 in G[1]
    ensures Descend(Enter(StartTree(Init(G), 0), 0), true, 0, 0, 1) == LineEntered(DigraphAdjacency(G, 1), 1)
  {
    RootEntered(G);
    RootRemoval(G);
  }

  lemma RootRemoval(G: seq<seq<int>>)
    requires G == LineAdjacency()
    ensures G[0] == [1] && 0 in G[1] && G[1 := RemoveFirst(G[1], 0)] == DigraphAdjacency(G, 1)
  {
    RemoveSecond(2, 0);
    assert G[1] == [2, 0];
  }

  /** Digraph mode: the root is marked by the non-root rule when node 1 returns. */
  lemma DigraphRootReturn(G: seq<seq<int>>)
    requires G == LineAdjacency()
    ensures Return(DigraphLeft(G, 1), 0, 1) == DigraphLeft(G, 0)
  {
    var r := Return(DigraphLeft(G, 1), 0, 1);
    assert r.children[0] == [1];
    assert r.isArt == [true, true, true, false] && r.children == [[1], [2], [3], []];
  }

  lemma RemoveSecond(x: int, y: int)
    requires x != y
    ensures RemoveFirst([x, y], y) == [x]
  {
    var xs := [x, y];
    assert xs[1..] == [y];
    assert IndexOf(xs, y) == 1;
    assert xs[..1] == [x] && xs[2..] == [];
  }

  /** Digraph mode leaves the DFS tree of the line as its adjacency. */
  lemma DigraphTree(G: seq<seq<int>>)
    requires G == LineAdjacency()
    ensures DigraphAdjacency(G, 3) == [[1], [2], [3], []]
  {
  }

  /** Digraph mode: the override clears node 0's mark. */
  lemma DigraphRootOverride(G: seq<seq<int>>)
    requires G == LineAdjacency()
    ensures MarkRoot(DigraphLeft(G, 0), 0) == DigraphLeft(G, 0).(isArt := [false, true, true, false])
  {
  }

  /** Digraph mode, the script's usual one, on test graph 7: findArt marks exactly
      nodes 1 and 2 here too. Each descent removes the reverse entry, so no node sees
      its parent: every low value stays at the node's own id, and the adjacency ends
      as the DFS tree. */
  lemma DigraphArticulationPoints(G: seq<seq<int>>)
    requires G == LineAdjacency()
    ensures WellFormed(G) && Symmetric(G)
    ensures FindArtModel(G, true).isArt == [false, true, true, false]
    ensures FindArtModel(G, true).ids == [0, 1, 2, 3]
    ensures FindArtModel(G, true).low == [0, 1, 2, 3]
    ensures FindArtModel(G, true).g == [[1], [2], [3], []]
  {
    LineBuilt();
    FirstTree(G, true);
    DigraphRootDescend(G);
    DigraphRootReturn(G);
    FirstDescent(StartTree(Init(G), 0), true, 0, 0);
    OnlyTreeNeighbour(StartTree(Init(G), 0), true, 0, 0);
    DigraphVisit(G, 1);
    DigraphRootOverride(G);
    LineDriveRest(DigraphLeft(G, 0).(isArt := [false, true, true, false]), true);
    DigraphTree(G);
  }

  function BadEdges(): seq<Edge>
  {
    [(0, 5), (7, 1)]
  }

  /** The only key gen_graph can fail on for these edges is 7, the bad source of
      the second edge: the loop over sources runs before the loop over targets. */
  lemma BadTwoPassKey(key: int)
    requires MissingKey(3, BadEdges(), key)
    ensures key == 7
  {
    var e := BadEdges();
    assert !(0 <= e[1].0 < 3);
    var i :| 0 <= i < |e| && key == e[i].0 && !(0 <= key < 3) && forall j :: 0 <= j < i ==> 0 <= e[j].0 < 3;
    assert i != 0 by {
      assert 0 <= e[0].0 < 3;
    }
  }

  /** The only key gen_graphOBE can fail on for these edges is 5, the bad target of
      the first edge: each edge is stored in both directions before the next. */
  lemma BadInterleavedKey(key: int)
    requires MissingKeyInterleaved(3, BadEdges(), key)
    ensures key == 5
  {
    var e := BadEdges();
    var i :| 0 <= i < |e| &&
      (forall j :: 0 <= j < i ==> 0 <= e[j].0 < 3 && 0 <= e[j].1 < 3) &&
      (if 0 <= e[i].0 < 3 then key == e[i].1 && !(0 <= key < 3) else key == e[i].0);
    assert i != 1 by {
      assert !(0 <= e[0].1 < 3);
    }
  }

  /** gen_graph on three nodes and the edges (0, 5), (7, 1) fails on key 7. */
  method BuildBadTwoPass() returns (r: BuildResult)
    ensures r == KeyError(7)
  {
    r := GenGraph(3, BadEdges());
    assert !(0 <= BadEdges()[0].1 < 3);
    BadTwoPassKey(r.key);
  }

  /** gen_graphOBE on the same input fails on key 5 instead. */
  method BuildBadInterleaved() returns (r: BuildResult)
    ensures r == KeyError(5)
  {
    r := GenGraphOBE(3, BadEdges());
    assert !(0 <= BadEdges()[0].1 < 3);
    BadInterleavedKey(r.key);
  }
}
