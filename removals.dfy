/** What digraph mode removes from the adjacency. Each descent along a tree edge
    at -> to deletes one entry `at` from the list of `to` and then records `to` as a
    tree child of `at`. So when findArt is done, every node that is not a tree root
    has exactly one tree parent and has lost exactly one occurrence of it, and a root
    has no tree parent and keeps its list. In undirected mode the same holds with
    nothing removed. */
module Removals {
  import opened Graph
  import opened DfsModel

  /** The nodes that have v as a DFS-tree child. */
  ghost function TreeParents(s: State, v: int): set<int>
  {
    set u | 0 <= u < |s.children| && v in s.children[u]
  }

  /** p is v's one tree parent, and v's list is `before` less one occurrence of p in
      digraph mode, or `before` itself as a multiset otherwise. */
  ghost predicate ParentIs(r: State, v: int, p: int, before: seq<int>, digraph: bool)
    requires 0 <= v < |r.g|
  {
    TreeParents(r, v) == {p} &&
    multiset(r.g[v]) + (if digraph then multiset{p} else multiset{}) == multiset(before)
  }

  /** v has exactly one tree parent, and has lost that entry in digraph mode. */
  ghost predicate OneParent(r: State, v: int, before: seq<int>, digraph: bool)
    requires 0 <= v < |r.g|
  {
    exists p :: ParentIs(r, v, p, before, digraph)
  }

  /** From s to r: every node newly visited, other than at itself, has gained its one
      tree parent and lost that entry; every other node keeps its list and its tree
      parents. */
  ghost predicate ParentsGrown(s: State, r: State, digraph: bool, at: int)
    requires Shaped(s) && Shaped(r) && |r.g| == |s.g|
  {
    forall v :: 0 <= v < |s.g| ==>
      if !s.visited[v] && r.visited[v] && v != at then OneParent(r, v, s.g[v], digraph)
      else TreeParents(r, v) == TreeParents(s, v) && r.g[v] == s.g[v]
  }

  /** A node not yet visited is nobody's tree child. */
  lemma NoParentYet(s: State, v: int)
    requires Valid(s) && 0 <= v < |s.g| && !s.visited[v]
    ensures TreeParents(s, v) == {}
  {
    forall u | 0 <= u < |s.children| ensures v !in s.children[u] {
      assert forall j :: 0 <= j < |s.children[u]| ==> s.children[u][j] != v by {
        forall j | 0 <= j < |s.children[u]| ensures s.children[u][j] != v {
          assert TreeEdge(s, u, s.children[u][j]);
        }
      }
    }
  }

  /** The call back from to makes at a tree parent of to and of no other node. */
  lemma ParentsAfterReturn(s: State, at: int, to: int)
    requires Shaped(s) && 0 <= at < |s.g| && 0 <= to < |s.g|
    ensures TreeParents(Return(s, at, to), to) == TreeParents(s, to) + {at}
    ensures forall v :: v != to ==> TreeParents(Return(s, at, to), v) == TreeParents(s, v)
  {
    var t := Return(s, at, to);
    assert to in t.children[at];
    forall v | v != to ensures TreeParents(t, v) == TreeParents(s, v) {
      assert forall u :: 0 <= u < |s.children| ==> (v in t.children[u] <==> v in s.children[u]);
    }
  }

  /** Two stretches of the traversal that each keep ParentsGrown for a visited node at
      keep it together. */
  lemma ParentsTrans(a: State, b: State, c: State, digraph: bool, at: int)
    requires Shaped(a) && Shaped(b) && Shaped(c) && |b.g| == |a.g| && |c.g| == |a.g|
    requires 0 <= at < |a.g| && a.visited[at]
    requires forall v :: 0 <= v < |a.g| && a.visited[v] ==> b.visited[v]
    requires forall v :: 0 <= v < |a.g| && b.visited[v] ==> c.visited[v]
    requires ParentsGrown(a, b, digraph, at) && ParentsGrown(b, c, digraph, at)
    ensures ParentsGrown(a, c, digraph, at)
  {
    forall v | 0 <= v < |a.g|
      ensures if !a.visited[v] && c.visited[v] && v != at then OneParent(c, v, a.g[v], digraph)
              else TreeParents(c, v) == TreeParents(a, v) && c.g[v] == a.g[v]
    {
      if !a.visited[v] && b.visited[v] && v != at {
        var p :| ParentIs(b, v, p, a.g[v], digraph);
        assert ParentIs(c, v, p, a.g[v], digraph);
      }
    }
  }

  /** dfsArt(root, at): the nodes it discovers below at each gain one tree parent and
      lose that entry; at and every node it does not discover keep theirs. */
  lemma {:induction false} VisitParents(s: State, digraph: bool, root: int, at: int)
    requires VisitPre(s, digraph, root, at)
    ensures ParentsGrown(s, Visit(s, digraph, root, at), digraph, at)
    decreases Unvisited(s.visited), 0, 0
  {
    VisitUnfold(s, digraph, root, at);
    ScanParents(Enter(s, at), digraph, root, at, s.g[at], 0);
  }

  /** The for loop over at's list from the k-th entry on. */
  lemma {:induction false} ScanParents(s: State, digraph: bool, root: int, at: int, nbrs: seq<int>, k: int)
    requires ScanPre(s, digraph, root, at, nbrs, k)
    ensures ParentsGrown(s, Scan(s, digraph, root, at, nbrs, k), digraph, at)
    decreases Unvisited(s.visited), |nbrs| - k + 1, 1
  {
    if k == |nbrs| {
    } else if !s.visited[nbrs[k]] {
      TreeEdgeParents(s, digraph, root, at, nbrs, k);
    } else {
      ScanUnfoldBack(s, digraph, root, at, nbrs, k);
      ScanParents(BackEdge(s, at, nbrs[k]), digraph, root, at, nbrs, k + 1);
    }
  }

  /** A tree edge at -> to: the descent, the call back, then the rest of the loop. */
  lemma {:induction false} TreeEdgeParents(s: State, digraph: bool, root: int, at: int, nbrs: seq<int>, k: int)
    requires ScanPre(s, digraph, root, at, nbrs, k) && k < |nbrs| && !s.visited[nbrs[k]]
    ensures ParentsGrown(s, Scan(s, digraph, root, at, nbrs, k), digraph, at)
    decreases Unvisited(s.visited), |nbrs| - k + 1, 0
  {
    var to := nbrs[k];
    ScanUnfoldTree(s, digraph, root, at, nbrs, k);
    var s1 := Descend(s, digraph, root, at, to);
    var s2 := Visit(s1, digraph, root, to);
    VisitParents(s1, digraph, root, to);
    var s3 := Return(s2, at, to);
    ChildParents(s, digraph, root, at, to, s2);
    ScanParents(s3, digraph, root, at, nbrs, k + 1);
    var r := Scan(s3, digraph, root, at, nbrs, k + 1);
    ParentsTrans(s, s3, r, digraph, at);
  }

  /** After the descent into to and the call back, at is to's one tree parent and, in
      digraph mode, to's list has lost the entry `at`: list.remove took one away and
      nothing else touched to's list. */
  lemma ChildParents(s: State, digraph: bool, root: int, at: int, to: int, s2: State)
    requires Valid(s) && 0 <= at < |s.g| && s.visited[at] && 0 <= to < |s.g| && !s.visited[to]
    requires digraph ==> at in s.g[to]
    requires Valid(Descend(s, digraph, root, at, to))
    requires VisitPost(Descend(s, digraph, root, at, to), s2, digraph, to)
    requires ParentsGrown(Descend(s, digraph, root, at, to), s2, digraph, to)
    ensures Shaped(Return(s2, at, to)) && |Return(s2, at, to).g| == |s.g|
    ensures ParentsGrown(s, Return(s2, at, to), digraph, at)
  {
    var s1 := Descend(s, digraph, root, at, to);
    var s3 := Return(s2, at, to);
    NoParentYet(s, to);
    ParentsAfterReturn(s2, at, to);
    assert TreeParents(s2, to) == TreeParents(s1, to);
    assert TreeParents(s3, to) == {at};
    assert s3.g[to] == s1.g[to];
    assert ParentIs(s3, to, at, s.g[to], digraph);
    forall v | 0 <= v < |s.g|
      ensures if !s.visited[v] && s3.visited[v] && v != at then OneParent(s3, v, s.g[v], digraph)
              else TreeParents(s3, v) == TreeParents(s, v) && s3.g[v] == s.g[v]
    {
      if v != to {
        assert s1.g[v] == s.g[v];
        if !s.visited[v] && s3.visited[v] && v != at {
          var p :| ParentIs(s2, v, p, s1.g[v], digraph);
          assert ParentIs(s3, v, p, s.g[v], digraph);
        }
      }
    }
  }

  /** What findArt's loop has built before node i, against the adjacency g0 it started
      from: the roots are visited; a visited node that is not a root has one tree
      parent and has lost that entry; roots and unvisited nodes have no tree parent
      and their lists as in g0. */
  ghost predicate ParentsInv(s: State, g0: seq<seq<int>>, digraph: bool)
    requires Shaped(s)
  {
    |g0| == |s.g| &&
    (forall v :: 0 <= v < |s.g| && v in s.roots ==> s.visited[v]) &&
    forall v :: 0 <= v < |s.g| ==>
      if s.visited[v] && v !in s.roots then OneParent(s, v, g0[v], digraph)
      else TreeParents(s, v) == {} && s.g[v] == g0[v]
  }

  /** The driver's precondition and ParentsInv at node i, taken as one fact. */
  ghost predicate ParentsReady(s: State, digraph: bool, i: int, g0: seq<seq<int>>)
  {
    DrivePre(s, digraph, i) && ParentsInv(s, g0, digraph)
  }

  /** The rest of findArt's loop from node i, ending in r, keeps ParentsInv. */
  lemma {:induction false} DriveParents(s: State, digraph: bool, i: int, g0: seq<seq<int>>, r: State)
    requires ParentsReady(s, digraph, i, g0) && r == Drive(s, digraph, i)
    ensures Shaped(r) && ParentsInv(r, g0, digraph)
    decreases |s.g| - i
  {
    if i < |s.g| {
      var t := ParentsStep(s, digraph, i, g0);
      DriveParents(t, digraph, i + 1, g0, r);
    } else {
      ParentsDone(s, digraph, i, g0, r);
    }
  }

  /** Past the last node, the loop's result is the state it has. This is a solver
      hint, not a fact of the model: Dafny proves it unaided, and it is a lemma only
      so that DriveParents stays cheap to verify. */
  lemma ParentsDone(s: State, digraph: bool, i: int, g0: seq<seq<int>>, r: State)
    requires ParentsReady(s, digraph, i, g0) && i == |s.g| && r == Drive(s, digraph, i)
    ensures Shaped(r) && ParentsInv(r, g0, digraph)
  {
  }

  /** One turn of findArt's loop keeps ParentsInv, and the loop ends where it would
      from the state t it leaves. */
  lemma ParentsStep(s: State, digraph: bool, i: int, g0: seq<seq<int>>) returns (t: State)
    requires ParentsReady(s, digraph, i, g0) && i < |s.g|
    ensures ParentsReady(t, digraph, i + 1, g0) && Drive(s, digraph, i) == Drive(t, digraph, i + 1)
  {
    DriveUnfold(s, digraph, i);
    if s.visited[i] {
      t := s;
    } else {
      var s0 := StartTree(s, i);
      VisitParents(s0, digraph, i, i);
      var s1 := Visit(s0, digraph, i, i);
      TreeParentsInv(s, digraph, i, g0, s1);
      t := MarkRoot(s1, i);
    }
  }

  /** One tree of findArt, rooted at the unvisited node i, keeps ParentsInv: i becomes
      a root without a tree parent, and every other node it discovers has one. */
  lemma TreeParentsInv(s: State, digraph: bool, i: int, g0: seq<seq<int>>, s1: State)
    requires Valid(s) && 0 <= i < |s.g| && !s.visited[i] && ParentsInv(s, g0, digraph)
    requires Valid(StartTree(s, i))
    requires VisitPost(StartTree(s, i), s1, digraph, i)
    requires ParentsGrown(StartTree(s, i), s1, digraph, i)
    ensures Shaped(MarkRoot(s1, i)) && ParentsInv(MarkRoot(s1, i), g0, digraph)
  {
    var s0 := StartTree(s, i);
    var t := MarkRoot(s1, i);
    assert t.roots == s.roots + [i];
    forall v | 0 <= v < |s.g|
      ensures if t.visited[v] && v !in t.roots then OneParent(t, v, g0[v], digraph)
              else TreeParents(t, v) == {} && t.g[v] == g0[v]
    {
      if !s.visited[v] && t.visited[v] && v != i {
        assert v !in s.roots;
        var p :| ParentIs(s1, v, p, s0.g[v], digraph);
        assert ParentIs(t, v, p, g0[v], digraph);
      } else if s.visited[v] && v !in s.roots {
        var p :| ParentIs(s, v, p, g0[v], digraph);
        assert ParentIs(t, v, p, g0[v], digraph);
      }
    }
  }

  /** When findArt is done, each tree root has no tree parent and its list as the
      builder made it; every other node has exactly one tree parent p, and in digraph
      mode its list is the original one less one occurrence of p, in undirected mode
      the original one. */
  lemma FindArtRemovals(g: seq<seq<int>>, digraph: bool)
    requires WellFormed(g) && (digraph ==> Symmetric(g))
    ensures var r := FindArtModel(g, digraph);
      forall v :: 0 <= v < |g| ==>
        (v in r.roots ==> TreeParents(r, v) == {} && r.g[v] == g[v]) &&
        (v !in r.roots ==> exists p :: (TreeParents(r, v) == {p} &&
           multiset(r.g[v]) + (if digraph then multiset{p} else multiset{}) == multiset(g[v])))
  {
    var s := Init(g);
    assert DrivePre(s, digraph, 0);
    forall v | 0 <= v < |g| ensures TreeParents(s, v) == {} {
      NoParentYet(s, v);
    }
    var r := FindArtModel(g, digraph);
    DriveParents(s, digraph, 0, g, r);
    forall v | 0 <= v < |g| && v !in r.roots
      ensures exists p :: TreeParents(r, v) == {p} &&
        multiset(r.g[v]) + (if digraph then multiset{p} else multiset{}) == multiset(g[v])
    {
      var p :| ParentIs(r, v, p, g[v], digraph);
    }
  }
}
