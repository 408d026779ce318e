/** A value-level model of dfsArt and findArt in artPts.py. A State holds what the
    source keeps in its module globals (the adjacency g and the arrays visited, ids,
    low, isArt), the two counters it threads through the recursion (id and
    outEdgeCount), and three pieces of bookkeeping the source does not store but its
    correctness is stated in: the DFS-tree children of each node, the visit order and
    the roots, in the order the driver chose them. */
module DfsModel {
  import opened Graph

  datatype State = State(
    g: seq<seq<int>>,
    visited: seq<bool>,
    ids: seq<int>,
    low: seq<int>,
    isArt: seq<bool>,
    id: int,
    outEdgeCount: int,
    children: seq<seq<int>>,
    order: seq<int>,
    roots: seq<int>)

  /** Python's built-in min on two integers. */
  function Min(a: int, b: int): int
  {
    if a <= b then a else b
  }

  /** The position list.remove deletes: the first occurrence of x. */
  function IndexOf(xs: seq<int>, x: int): (i: nat)
    requires x in xs
    ensures i < |xs| && xs[i] == x && x !in xs[..i]
  {
    if xs[0] == x then 0
    else
      var j := IndexOf(xs[1..], x);
      assert xs[..j + 1] == [xs[0]] + xs[1..][..j];
      j + 1
  }

  /** list.remove(x): the list without its first occurrence of x, the other entries
      in their order. The source raises ValueError when x is absent; here that is a
      precondition, which the traversal is proved to meet. */
  function RemoveFirst(xs: seq<int>, x: int): (r: seq<int>)
    requires x in xs
    ensures exists i :: 0 <= i < |xs| && xs[i] == x && x !in xs[..i] && r == xs[..i] + xs[i + 1..]
    ensures multiset(r) == multiset(xs) - multiset{x}
  {
    var i := IndexOf(xs, x);
    assert xs == xs[..i] + [x] + xs[i + 1..];
    xs[..i] + xs[i + 1..]
  }

  ghost function Unvisited(visited: seq<bool>): set<int>
  {
    set v | 0 <= v < |visited| && !visited[v]
  }

  ghost predicate Shaped(s: State)
  {
    var n := |s.g|;
    |s.visited| == n && |s.ids| == n && |s.low| == n && |s.isArt| == n && |s.children| == n
  }

  /** c is recorded as a tree child of u: c has been visited, was discovered after u,
      and is in u's list. */
  ghost predicate TreeEdge(s: State, u: int, c: int)
    requires Shaped(s) && 0 <= u < |s.g|
  {
    0 <= c < |s.g| && s.visited[c] && s.ids[u] < s.ids[c] && c in s.g[u]
  }

  /** What holds of the traversal state between any two steps of the source. */
  ghost predicate Valid(s: State)
  {
    var n := |s.g|;
    Shaped(s) && WellFormed(s.g) &&
    // the counter is the last id handed out, and order lists the visited nodes by id
    |s.order| == s.id + 1 &&
    |s.order| + |Unvisited(s.visited)| == n &&
    (forall k :: 0 <= k < |s.order| ==>
       0 <= s.order[k] < n && s.visited[s.order[k]] && s.ids[s.order[k]] == k) &&
    (forall v :: 0 <= v < n && s.visited[v] ==>
       v in s.order && 0 <= s.ids[v] <= s.id && s.low[v] <= s.ids[v]) &&
    (forall v :: 0 <= v < n && !s.visited[v] ==> !s.isArt[v] && s.children[v] == []) &&
    (forall u, i :: 0 <= u < n && 0 <= i < |s.children[u]| ==> TreeEdge(s, u, s.children[u][i]))
  }

  /** Every entry pointing at a node that is still unvisited is mirrored by an entry
      back. A symmetric adjacency satisfies it; in digraph mode it guarantees that the
      reverse entry list.remove deletes is present. */
  ghost predicate Mirrored(g: seq<seq<int>>, visited: seq<bool>)
  {
    |visited| == |g| &&
    forall u, v :: 0 <= u < |g| && 0 <= v < |g| && !visited[v] ==>
      multiset(g[u])[v] <= multiset(g[v])[u]
  }

  /** Node x is left as it was: its list, its id, low value, mark and tree children. */
  ghost predicate Kept(s: State, r: State, x: int)
    requires Shaped(s) && Shaped(r) && 0 <= x < |s.g| && |r.g| == |s.g|
  {
    r.g[x] == s.g[x] && r.ids[x] == s.ids[x] && r.low[x] == s.low[x] &&
    r.isArt[x] == s.isArt[x] && r.children[x] == s.children[x]
  }

  /** r extends s: nothing visited is forgotten, the visit order only grows, lists
      only lose entries, and the driver's roots are untouched. */
  ghost predicate Grown(s: State, r: State)
    requires Shaped(s) && Shaped(r) && |r.g| == |s.g|
  {
    (forall v :: 0 <= v < |s.g| && s.visited[v] ==> r.visited[v]) &&
    (forall v :: 0 <= v < |s.g| ==> multiset(r.g[v]) <= multiset(s.g[v])) &&
    s.order <= r.order && r.roots == s.roots
  }

  ghost predicate VisitPre(s: State, digraph: bool, root: int, at: int)
  {
    Valid(s) && 0 <= at < |s.g| && !s.visited[at] && 0 <= root < |s.g| &&
    (at == root || s.visited[root]) &&
    (digraph ==> Mirrored(s.g, s.visited[at := true]))
  }

  ghost predicate ScanPre(s: State, digraph: bool, root: int, at: int, nbrs: seq<int>, k: int)
  {
    Valid(s) && 0 <= at < |s.g| && s.visited[at] && 0 <= root < |s.g| && s.visited[root] &&
    (digraph ==> Mirrored(s.g, s.visited)) &&
    nbrs == s.g[at] && 0 <= k <= |nbrs|
  }

  /** What Visit promises about its result r, as a predicate so that lemmas about
      one step of the scan can speak of a finished descent without calling Visit. */
  ghost predicate VisitPost(s: State, r: State, digraph: bool, at: int)
    requires Valid(s) && 0 <= at < |s.g|
  {
    Valid(r) && |r.g| == |s.g| && Grown(s, r) &&
    (digraph ==> Mirrored(r.g, r.visited)) &&
    (!digraph ==> r.g == s.g) &&
    r.visited[at] && r.ids[at] == s.id + 1 && |r.order| > |s.order| && r.order[|s.order|] == at &&
    (forall x :: 0 <= x < |s.g| && s.visited[x] ==> Kept(s, r, x))
  }

  /** The state right after dfsArt's entry: at marked visited, the counter moved on,
      and ids[at] = low[at] = the new counter. */
  ghost function Enter(s: State, at: int): State
    requires 0 <= at < |s.visited| && |s.ids| == |s.low| == |s.visited|
  {
    var id := s.id + 1;
    s.(visited := s.visited[at := true], id := id,
       low := s.low[at := id], ids := s.ids[at := id], order := s.order + [at])
  }

  /** dfsArt(root, at, id, outEdgeCount): mark at visited, give it the next id as both
      its id and its low value, then scan its list. */
  ghost function Visit(s: State, digraph: bool, root: int, at: int): (r: State)
    requires VisitPre(s, digraph, root, at)
    ensures VisitPost(s, r, digraph, at)
    decreases Unvisited(s.visited), 0, 0
  {
    var s1 := Enter(s, at);
    assert ScanPre(s1, digraph, root, at, s1.g[at], 0) &&
           Unvisited(s1.visited) < Unvisited(s.visited) by { EnterPre(s, digraph, root, at); }
    var r := Scan(s1, digraph, root, at, s1.g[at], 0);
    assert VisitPost(s, r, digraph, at) by { EnterPost(s, digraph, root, at, r); }
    r
  }

  /** The body of the for loop of dfsArt over at's list, from the k-th entry on. An
      unvisited neighbour is a tree edge (TreeEdgeStep). A visited neighbour lowers
      low[at] to its id. */
  ghost function Scan(s: State, digraph: bool, root: int, at: int, nbrs: seq<int>, k: int): (r: State)
    requires ScanPre(s, digraph, root, at, nbrs, k)
    ensures ScanPost(s, r, digraph, at)
    decreases Unvisited(s.visited), |nbrs| - k + 1, 1
  {
    if k == |nbrs| then s
    else if !s.visited[nbrs[k]] then TreeEdgeStep(s, digraph, root, at, nbrs, k)
    else
      var s1 := BackEdge(s, at, nbrs[k]);
      assert ScanPre(s1, digraph, root, at, nbrs, k + 1) by { BackEdgePre(s, digraph, root, at, nbrs, k); }
      var r := Scan(s1, digraph, root, at, nbrs, k + 1);
      assert ScanPost(s, r, digraph, at) by { BackEdgePost(s, digraph, root, at, nbrs, k, r); }
      r
  }

  /** The unvisited neighbour to = nbrs[k]: count the edge if at is the root, remove
      the reverse entry in digraph mode, descend, then take the child's low value and
      mark at when ids[at] <= low[to]; the scan goes on with the next entry. */
  ghost function TreeEdgeStep(s: State, digraph: bool, root: int, at: int, nbrs: seq<int>, k: int): (r: State)
    requires ScanPre(s, digraph, root, at, nbrs, k) && k < |nbrs| && !s.visited[nbrs[k]]
    ensures ScanPost(s, r, digraph, at)
    decreases Unvisited(s.visited), |nbrs| - k + 1, 0
  {
    var to := nbrs[k];
    assert (digraph ==> at in s.g[to]) &&
           VisitPre(Descend(s, digraph, root, at, to), digraph, root, to) by {
      DescentPre(s, digraph, root, at, nbrs, k);
    }
    var s2 := Visit(Descend(s, digraph, root, at, to), digraph, root, to);
    var s3 := Return(s2, at, to);
    assert ScanPre(s3, digraph, root, at, nbrs, k + 1) &&
           Unvisited(s3.visited) < Unvisited(s.visited) by {
      ReturnPre(s, digraph, root, at, nbrs, k, s2);
    }
    var r := Scan(s3, digraph, root, at, nbrs, k + 1);
    assert ScanPost(s, r, digraph, at) by { ReturnPost(s, digraph, root, at, to, s2, r); }
    r
  }

  ghost predicate ScanPost(s: State, r: State, digraph: bool, at: int)
    requires Valid(s) && 0 <= at < |s.g|
  {
    Valid(r) && |r.g| == |s.g| && Grown(s, r) &&
    (digraph ==> Mirrored(r.g, r.visited)) &&
    (!digraph ==> r.g == s.g) &&
    r.g[at] == s.g[at] && r.ids[at] == s.ids[at] &&
    (forall x :: 0 <= x < |s.g| && s.visited[x] && x != at ==> Kept(s, r, x))
  }

  /** The tree edge at -> to is about to be followed: outEdgeCount counts it when at is
      the root, and in digraph mode the reverse entry `at` leaves to's list. */
  ghost function Descend(s: State, digraph: bool, root: int, at: int, to: int): State
    requires 0 <= to < |s.g| && (digraph ==> at in s.g[to])
  {
    var count := if at == root then s.outEdgeCount + 1 else s.outEdgeCount;
    var g1 := if digraph then s.g[to := RemoveFirst(s.g[to], at)] else s.g;
    s.(g := g1, outEdgeCount := count)
  }

  /** The call back from the child to: low[at] = min(low[at], low[to]); at is marked when
      ids[at] < low[to] or ids[at] == low[to]; to is recorded as a tree child of at. */
  ghost function Return(s: State, at: int, to: int): State
    requires 0 <= at < |s.g| && 0 <= to < |s.g| && Shaped(s)
  {
    s.(low := s.low[at := Min(s.low[at], s.low[to])],
       isArt := s.isArt[at := s.isArt[at] || s.ids[at] <= s.low[to]],
       children := s.children[at := s.children[at] + [to]])
  }

  /** A neighbour that is already visited: low[at] = min(low[at], ids[to]). */
  ghost function BackEdge(s: State, at: int, to: int): State
    requires 0 <= at < |s.g| && 0 <= to < |s.g| && Shaped(s)
  {
    s.(low := s.low[at := Min(s.low[at], s.ids[to])])
  }

  lemma EnterPre(s: State, digraph: bool, root: int, at: int)
    requires VisitPre(s, digraph, root, at)
    ensures var s1 := Enter(s, at);
            ScanPre(s1, digraph, root, at, s1.g[at], 0) &&
            Unvisited(s1.visited) < Unvisited(s.visited)
  {
    EnteredValid(s, at);
  }

  /** Entering an unvisited node keeps the state valid and leaves one node fewer
      unvisited. */
  lemma EnteredValid(s: State, at: int)
    requires Valid(s) && 0 <= at < |s.g| && !s.visited[at]
    ensures Valid(Enter(s, at)) && Unvisited(Enter(s, at).visited) < Unvisited(s.visited)
  {
    var s1 := Enter(s, at);
    var n := |s.g|;
    assert Unvisited(s1.visited) == Unvisited(s.visited) - {at};
    assert at in Unvisited(s.visited);
    assert at !in s.order;
    forall k | 0 <= k < |s1.order|
      ensures 0 <= s1.order[k] < n && s1.visited[s1.order[k]] && s1.ids[s1.order[k]] == k
    {
      if k < |s.order| {
        assert s1.order[k] == s.order[k];
      }
    }
    forall u, i | 0 <= u < n && 0 <= i < |s1.children[u]|
      ensures TreeEdge(s1, u, s1.children[u][i])
    {
      assert TreeEdge(s, u, s.children[u][i]);
    }
  }

  lemma EnterPost(s: State, digraph: bool, root: int, at: int, r: State)
    requires VisitPre(s, digraph, root, at)
    requires ScanPre(Enter(s, at), digraph, root, at, Enter(s, at).g[at], 0)
    requires ScanPost(Enter(s, at), r, digraph, at)
    ensures VisitPost(s, r, digraph, at)
  {
    var s1 := Enter(s, at);
    assert s1.order[|s.order|] == at;
    assert r.order[|s.order|] == at;
  }

  lemma DescentPre(s: State, digraph: bool, root: int, at: int, nbrs: seq<int>, k: int)
    requires ScanPre(s, digraph, root, at, nbrs, k) && k < |nbrs| && !s.visited[nbrs[k]]
    ensures digraph ==> at in s.g[nbrs[k]]
    ensures VisitPre(Descend(s, digraph, root, at, nbrs[k]), digraph, root, nbrs[k])
  {
    var to := nbrs[k];
    var n := |s.g|;
    assert to in s.g[at];
    if digraph {
      assert multiset(s.g[at])[to] <= multiset(s.g[to])[at];
      var g1 := s.g[to := RemoveFirst(s.g[to], at)];
      forall u, i | 0 <= u < n && 0 <= i < |g1[u]| ensures 0 <= g1[u][i] < n {
        if u == to {
          assert g1[u][i] in multiset(g1[u]);
          assert g1[u][i] in s.g[to];
        }
      }
      MirroredAfterRemove(s.g, s.visited, at, to);
    }
    var s1 := Descend(s, digraph, root, at, to);
    forall u, i | 0 <= u < n && 0 <= i < |s1.children[u]|
      ensures TreeEdge(s1, u, s1.children[u][i])
    {
      assert TreeEdge(s, u, s.children[u][i]);
    }
  }

  lemma MirroredAfterRemove(g: seq<seq<int>>, visited: seq<bool>, at: int, to: int)
    requires Mirrored(g, visited) && 0 <= at < |g| && 0 <= to < |g| && visited[at] && !visited[to]
    requires at in g[to]
    ensures Mirrored(g[to := RemoveFirst(g[to], at)], visited[to := true])
  {
    var g1 := g[to := RemoveFirst(g[to], at)];
    var vis := visited[to := true];
    forall u, v | 0 <= u < |g| && 0 <= v < |g| && !vis[v]
      ensures multiset(g1[u])[v] <= multiset(g1[v])[u]
    {
      assert multiset(g[u])[v] <= multiset(g[v])[u];
      assert g1[v] == g[v];
      if u == to {
        assert v != at;
        assert multiset(g1[u])[v] == multiset(g[u])[v];
      }
    }
  }

  lemma ReturnPre(s: State, digraph: bool, root: int, at: int, nbrs: seq<int>, k: int, s2: State)
    requires ScanPre(s, digraph, root, at, nbrs, k) && k < |nbrs| && !s.visited[nbrs[k]]
    requires digraph ==> at in s.g[nbrs[k]]
    requires Valid(Descend(s, digraph, root, at, nbrs[k]))
    requires VisitPost(Descend(s, digraph, root, at, nbrs[k]), s2, digraph, nbrs[k])
    ensures ScanPre(Return(s2, at, nbrs[k]), digraph, root, at, nbrs, k + 1)
    ensures Unvisited(Return(s2, at, nbrs[k]).visited) < Unvisited(s.visited)
  {
    var to := nbrs[k];
    var s1 := Descend(s, digraph, root, at, to);
    assert Kept(s1, s2, at);
    assert s2.ids[at] < s2.ids[to];
    assert to in s2.g[at];
    ReturnValid(s2, at, to);
    assert to in Unvisited(s.visited) && to !in Unvisited(s2.visited);
  }

  /** Recording the tree child to of at keeps the state valid. */
  lemma ReturnValid(s2: State, at: int, to: int)
    requires Valid(s2) && 0 <= at < |s2.g| && 0 <= to < |s2.g| && s2.visited[at] && s2.visited[to]
    requires s2.ids[at] < s2.ids[to] && to in s2.g[at]
    ensures Valid(Return(s2, at, to))
  {
    var s3 := Return(s2, at, to);
    forall u, i | 0 <= u < |s2.g| && 0 <= i < |s3.children[u]|
      ensures TreeEdge(s3, u, s3.children[u][i])
    {
      if u != at || i < |s2.children[at]| {
        assert TreeEdge(s2, u, s2.children[u][i]);
      }
    }
  }

  lemma ReturnPost(s: State, digraph: bool, root: int, at: int, to: int, s2: State, r: State)
    requires Valid(s) && 0 <= at < |s.g| && s.visited[at] && 0 <= to < |s.g| && !s.visited[to]
    requires digraph ==> at in s.g[to]
    requires Valid(Descend(s, digraph, root, at, to))
    requires VisitPost(Descend(s, digraph, root, at, to), s2, digraph, to)
    requires Valid(Return(s2, at, to))
    requires ScanPost(Return(s2, at, to), r, digraph, at)
    ensures ScanPost(s, r, digraph, at)
  {
    var s1 := Descend(s, digraph, root, at, to);
    var s3 := Return(s2, at, to);
    assert Kept(s1, s2, at);
    KeptAcrossTree(s, digraph, root, at, to, s2, r);
    DescendShrinks(s, digraph, root, at, to);
    assert s3.g == s2.g;
    ShrinkTrans(s.g, s1.g, s2.g);
    ShrinkTrans(s.g, s2.g, r.g);
    assert Grown(s, r);
  }

  /** A node visited before the tree edge at -> to, other than at, is left alone by the
      descent, the call back and the rest of the scan. */
  lemma KeptAcrossTree(s: State, digraph: bool, root: int, at: int, to: int, s2: State, r: State)
    requires Shaped(s) && 0 <= at < |s.g| && 0 <= to < |s.g| && !s.visited[to]
    requires digraph ==> at in s.g[to]
    requires Shaped(s2) && |s2.g| == |s.g| && Shaped(r) && |r.g| == |s.g|
    requires forall x :: 0 <= x < |s.g| && s.visited[x] ==>
               s2.visited[x] && Kept(Descend(s, digraph, root, at, to), s2, x)
    requires forall x :: 0 <= x < |s.g| && s2.visited[x] && x != at ==> Kept(Return(s2, at, to), r, x)
    ensures forall x :: 0 <= x < |s.g| && s.visited[x] && x != at ==> Kept(s, r, x)
  {
    var s1 := Descend(s, digraph, root, at, to);
    var s3 := Return(s2, at, to);
    forall x | 0 <= x < |s.g| && s.visited[x] && x != at ensures Kept(s, r, x) {
      assert Kept(s1, s2, x) && Kept(s3, r, x);
    }
  }

  /** Following a tree edge only takes entries out of lists. */
  lemma DescendShrinks(s: State, digraph: bool, root: int, at: int, to: int)
    requires 0 <= to < |s.g| && (digraph ==> at in s.g[to])
    ensures var g1 := Descend(s, digraph, root, at, to).g;
            |g1| == |s.g| && forall v :: 0 <= v < |s.g| ==> multiset(g1[v]) <= multiset(s.g[v])
  {
  }

  lemma ShrinkTrans(a: seq<seq<int>>, b: seq<seq<int>>, c: seq<seq<int>>)
    requires |b| == |a| && |c| == |a|
    requires forall v :: 0 <= v < |a| ==> multiset(b[v]) <= multiset(a[v])
    requires forall v :: 0 <= v < |a| ==> multiset(c[v]) <= multiset(b[v])
    ensures forall v :: 0 <= v < |a| ==> multiset(c[v]) <= multiset(a[v])
  {
    forall v | 0 <= v < |a| ensures multiset(c[v]) <= multiset(a[v]) {
      assert multiset(c[v]) <= multiset(b[v]);
    }
  }

  lemma BackEdgePre(s: State, digraph: bool, root: int, at: int, nbrs: seq<int>, k: int)
    requires ScanPre(s, digraph, root, at, nbrs, k) && k < |nbrs| && s.visited[nbrs[k]]
    ensures ScanPre(BackEdge(s, at, nbrs[k]), digraph, root, at, nbrs, k + 1)
  {
    var s1 := BackEdge(s, at, nbrs[k]);
    forall u, i | 0 <= u < |s.g| && 0 <= i < |s1.children[u]|
      ensures TreeEdge(s1, u, s1.children[u][i])
    {
      assert TreeEdge(s, u, s.children[u][i]);
    }
  }

  lemma BackEdgePost(s: State, digraph: bool, root: int, at: int, nbrs: seq<int>, k: int, r: State)
    requires ScanPre(s, digraph, root, at, nbrs, k) && k < |nbrs| && s.visited[nbrs[k]]
    requires ScanPre(BackEdge(s, at, nbrs[k]), digraph, root, at, nbrs, k + 1)
    requires ScanPost(BackEdge(s, at, nbrs[k]), r, digraph, at)
    ensures ScanPost(s, r, digraph, at)
  {
    LowOnlyPost(s, r, digraph, at, Min(s.low[at], s.ids[nbrs[k]]));
  }

  /** A scan result r of a state that differs from s in low[at] alone is one of s too. */
  lemma LowOnlyPost(s: State, r: State, digraph: bool, at: int, v: int)
    requires Valid(s) && 0 <= at < |s.g| && Valid(s.(low := s.low[at := v]))
    requires ScanPost(s.(low := s.low[at := v]), r, digraph, at)
    ensures ScanPost(s, r, digraph, at)
  {
    var s1 := s.(low := s.low[at := v]);
    forall x | 0 <= x < |s.g| && s.visited[x] && x != at ensures Kept(s, r, x) {
      assert Kept(s1, r, x);
    }
    assert Grown(s1, r);
  }

  // ---------------------------------------------------------------------------
  // What the traversal computes: the low-link equation and the marking rules.
  // ---------------------------------------------------------------------------

  ghost predicate AllNodes(s: State, ws: seq<int>)
  {
    forall i :: 0 <= i < |ws| ==> 0 <= ws[i] < |s.g|
  }

  /** What neighbour w can lower low[x] to: a tree child passes on its own low value,
      any other neighbour its id. */
  ghost function Contribution(s: State, x: int, w: int): int
    requires Shaped(s) && 0 <= x < |s.g| && 0 <= w < |s.g|
  {
    if w in s.children[x] then s.low[w] else s.ids[w]
  }

  /** The minimum of ids[x] and what the neighbours ws contribute. */
  ghost function MinLink(s: State, x: int, ws: seq<int>): int
    requires Shaped(s) && 0 <= x < |s.g| && AllNodes(s, ws)
  {
    if ws == [] then s.ids[x]
    else Min(MinLink(s, x, ws[..|ws| - 1]), Contribution(s, x, ws[|ws| - 1]))
  }

  /** The non-root rule: some tree child c of x has ids[x] <= low[c]. */
  ghost predicate ArtRule(s: State, x: int)
    requires Valid(s) && 0 <= x < |s.g|
  {
    exists i :: 0 <= i < |s.children[x]| && s.ids[x] <= s.low[s.children[x][i]]
  }

  /** x's scan is complete: every neighbour has been reached and low[x] is the
      minimum over x's list. */
  ghost predicate LowSettled(s: State, x: int)
    requires Valid(s) && 0 <= x < |s.g|
  {
    (forall i :: 0 <= i < |s.g[x]| ==> s.visited[s.g[x][i]]) &&
    s.low[x] == MinLink(s, x, s.g[x])
  }

  /** x is settled and its mark is the non-root rule. */
  ghost predicate Settled(s: State, x: int)
    requires Valid(s) && 0 <= x < |s.g|
  {
    LowSettled(s, x) && (s.isArt[x] <==> ArtRule(s, x))
  }

  /** The source's for loop, part done: neighbours before k are visited, the tree
      children found so far come from them, low[at] is the minimum over them and
      isArt[at] is the non-root rule over the children found so far. */
  ghost predicate ScanInv(s: State, at: int, nbrs: seq<int>, k: int)
    requires Valid(s) && 0 <= at < |s.g| && nbrs == s.g[at] && 0 <= k <= |nbrs|
  {
    (forall i :: 0 <= i < k ==> s.visited[nbrs[i]]) &&
    (forall i :: 0 <= i < |s.children[at]| ==> s.children[at][i] in nbrs[..k]) &&
    s.low[at] == MinLink(s, at, nbrs[..k]) &&
    (s.isArt[at] <==> ArtRule(s, at))
  }

  /** low[x] is at most ids[x] and at most every contribution. */
  lemma {:induction false} MinLinkBound(s: State, x: int, ws: seq<int>)
    requires Shaped(s) && 0 <= x < |s.g| && AllNodes(s, ws)
    ensures MinLink(s, x, ws) <= s.ids[x]
    ensures forall i :: 0 <= i < |ws| ==> MinLink(s, x, ws) <= Contribution(s, x, ws[i])
  {
    if ws != [] {
      var init := ws[..|ws| - 1];
      MinLinkBound(s, x, init);
      forall i | 0 <= i < |ws| ensures MinLink(s, x, ws) <= Contribution(s, x, ws[i]) {
        if i < |init| {
          assert ws[i] == init[i];
        }
      }
    }
  }

  /** ... and it is one of them: ids[x] or the contribution of some neighbour. */
  lemma {:induction false} MinLinkAttained(s: State, x: int, ws: seq<int>)
    requires Shaped(s) && 0 <= x < |s.g| && AllNodes(s, ws)
    ensures MinLink(s, x, ws) == s.ids[x] ||
            exists i :: 0 <= i < |ws| && MinLink(s, x, ws) == Contribution(s, x, ws[i])
  {
    if ws != [] {
      var init := ws[..|ws| - 1];
      MinLinkAttained(s, x, init);
      if MinLink(s, x, ws) != s.ids[x] && MinLink(s, x, ws) != Contribution(s, x, ws[|ws| - 1]) {
        var i :| 0 <= i < |init| && MinLink(s, x, init) == Contribution(s, x, init[i]);
        assert ws[i] == init[i];
      }
    }
  }

  /** The minimum depends only on ids[x] and on what each neighbour contributes. */
  lemma {:induction false} MinLinkKept(s: State, t: State, x: int, ws: seq<int>)
    requires Shaped(s) && Shaped(t) && |t.g| == |s.g| && 0 <= x < |s.g| && AllNodes(s, ws)
    requires t.ids[x] == s.ids[x]
    requires forall i :: 0 <= i < |ws| ==>
      t.ids[ws[i]] == s.ids[ws[i]] && (ws[i] in t.children[x] <==> ws[i] in s.children[x]) &&
      (ws[i] in s.children[x] ==> t.low[ws[i]] == s.low[ws[i]])
    ensures MinLink(t, x, ws) == MinLink(s, x, ws)
  {
    if ws != [] {
      var init := ws[..|ws| - 1];
      forall i | 0 <= i < |init|
        ensures t.ids[init[i]] == s.ids[init[i]] && (init[i] in t.children[x] <==> init[i] in s.children[x]) &&
                (init[i] in s.children[x] ==> t.low[init[i]] == s.low[init[i]])
      {
        assert init[i] == ws[i];
      }
      MinLinkKept(s, t, x, init);
      assert Contribution(t, x, ws[|ws| - 1]) == Contribution(s, x, ws[|ws| - 1]);
    }
  }

  /** A settled node stays settled while its own entries, its neighbours' ids and its
      children's low values stay as they are. */
  lemma SettledKept(s: State, t: State, x: int)
    requires Valid(s) && Valid(t) && |t.g| == |s.g| && 0 <= x < |s.g|
    requires LowSettled(s, x) && Kept(s, t, x)
    requires forall i :: 0 <= i < |s.g[x]| ==> t.ids[s.g[x][i]] == s.ids[s.g[x][i]] && t.visited[s.g[x][i]]
    requires forall i :: 0 <= i < |s.children[x]| ==> t.low[s.children[x][i]] == s.low[s.children[x][i]]
    ensures LowSettled(t, x)
    ensures ArtRule(t, x) <==> ArtRule(s, x)
  {
    MinLinkKept(s, t, x, s.g[x]);
    if ArtRule(s, x) {
      var i :| 0 <= i < |s.children[x]| && s.ids[x] <= s.low[s.children[x][i]];
      assert t.ids[x] <= t.low[t.children[x][i]];
    }
  }

  /** Facts the step lemmas below share about a node discovered after s.id. */
  lemma ChildrenAfter(s: State, x: int, a: int)
    requires Valid(s) && 0 <= x < |s.g| && 0 <= a < |s.g| && s.ids[a] <= s.ids[x]
    ensures forall i :: 0 <= i < |s.children[x]| ==> s.children[x][i] != a
  {
    forall i | 0 <= i < |s.children[x]| ensures s.children[x][i] != a {
      assert TreeEdge(s, x, s.children[x][i]);
    }
  }

  ghost predicate ScanResult(s: State, r: State, root: int, at: int)
    requires Valid(s) && Valid(r) && |r.g| == |s.g| && 0 <= at < |s.g|
  {
    (forall x :: 0 <= x < |s.g| && !s.visited[x] && r.visited[x] ==> Settled(r, x) && r.ids[x] > s.id) &&
    Settled(r, at) && s.children[at] <= r.children[at] &&
    (if at == root then r.outEdgeCount == s.outEdgeCount + |r.children[at]| - |s.children[at]|
     else r.outEdgeCount == s.outEdgeCount) &&
    (s.isArt[at] ==> r.isArt[at]) && r.low[at] <= s.low[at]
  }

  ghost predicate VisitResult(s: State, r: State, root: int, at: int)
    requires Valid(s) && Valid(r) && |r.g| == |s.g| && 0 <= at < |s.g|
  {
    (forall x :: 0 <= x < |s.g| && !s.visited[x] && r.visited[x] ==> Settled(r, x) && r.ids[x] > s.id) &&
    (if at == root then r.outEdgeCount == s.outEdgeCount + |r.children[at]|
     else r.outEdgeCount == s.outEdgeCount)
  }

  /** dfsArt(root, at) settles every node it discovers (low-link equation and
      non-root rule), and at the root it counts exactly the root's tree children. */
  lemma {:induction false} VisitCorrect(s: State, digraph: bool, root: int, at: int)
    requires VisitPre(s, digraph, root, at)
    ensures VisitResult(s, Visit(s, digraph, root, at), root, at)
    decreases Unvisited(s.visited), 0, 0
  {
    EnterReady(s, digraph, root, at);
    var s1 := Enter(s, at);
    ScanCorrect(s1, digraph, root, at, s1.g[at], 0);
  }

  /** On entering at, the scan of at's list starts with its invariant. */
  lemma EnterReady(s: State, digraph: bool, root: int, at: int)
    requires VisitPre(s, digraph, root, at)
    ensures var s1 := Enter(s, at);
            ScanReady(s1, digraph, root, at, s1.g[at], 0) &&
            Unvisited(s1.visited) < Unvisited(s.visited)
  {
    EnterPre(s, digraph, root, at);
    var s1 := Enter(s, at);
    assert s1.g[at][..0] == [];
    assert !ArtRule(s1, at);
  }

  /** The scan's precondition and invariant at the k-th neighbour, taken as one fact. */
  ghost predicate ScanReady(s: State, digraph: bool, root: int, at: int, nbrs: seq<int>, k: int)
  {
    ScanPre(s, digraph, root, at, nbrs, k) && ScanInv(s, at, nbrs, k)
  }

  /** The for loop, from the k-th neighbour on, keeps its invariant to the end. */
  lemma {:induction false} ScanCorrect(s: State, digraph: bool, root: int, at: int, nbrs: seq<int>, k: int)
    requires ScanReady(s, digraph, root, at, nbrs, k)
    ensures ScanResult(s, Scan(s, digraph, root, at, nbrs, k), root, at)
    decreases Unvisited(s.visited), |nbrs| - k + 1, 1
  {
    if k == |nbrs| {
      assert nbrs[..k] == nbrs;
    } else if !s.visited[nbrs[k]] {
      ScanTree(s, digraph, root, at, nbrs, k);
    } else {
      ScanBack(s, digraph, root, at, nbrs, k);
    }
  }

  lemma {:induction false} ScanTree(s: State, digraph: bool, root: int, at: int, nbrs: seq<int>, k: int)
    requires ScanReady(s, digraph, root, at, nbrs, k)
    requires k < |nbrs| && !s.visited[nbrs[k]]
    ensures ScanResult(s, Scan(s, digraph, root, at, nbrs, k), root, at)
    decreases Unvisited(s.visited), |nbrs| - k + 1, 0
  {
    var to := nbrs[k];
    DescentPre(s, digraph, root, at, nbrs, k);
    var s1 := Descend(s, digraph, root, at, to);
    var s2 := Visit(s1, digraph, root, to);
    VisitCorrect(s1, digraph, root, to);
    ChildReturned(s, digraph, root, at, nbrs, k, s2);
    var s3 := Return(s2, at, to);
    ScanCorrect(s3, digraph, root, at, nbrs, k + 1);
    var r := Scan(s3, digraph, root, at, nbrs, k + 1);
    assert Scan(s, digraph, root, at, nbrs, k) == r;
    ReturnResult(s, digraph, root, at, nbrs, k, s2, r);
  }

  /** Once the descent into the k-th neighbour has returned, the scan can go on from
      the (k+1)-th with its invariant, fewer nodes unvisited, and every node the descent
      visited settled. */
  lemma ChildReturned(s: State, digraph: bool, root: int, at: int, nbrs: seq<int>, k: int, s2: State)
    requires ScanReady(s, digraph, root, at, nbrs, k) && k < |nbrs| && !s.visited[nbrs[k]]
    requires digraph ==> at in s.g[nbrs[k]]
    requires VisitPre(Descend(s, digraph, root, at, nbrs[k]), digraph, root, nbrs[k])
    requires VisitPost(Descend(s, digraph, root, at, nbrs[k]), s2, digraph, nbrs[k])
    requires VisitResult(Descend(s, digraph, root, at, nbrs[k]), s2, root, nbrs[k])
    ensures Returned(s, digraph, root, at, nbrs, k, s2)
    ensures ScanReady(Return(s2, at, nbrs[k]), digraph, root, at, nbrs, k + 1)
    ensures Unvisited(Return(s2, at, nbrs[k]).visited) < Unvisited(s.visited)
    ensures forall x :: 0 <= x < |s.g| && !s.visited[x] && s2.visited[x] ==>
      Settled(Return(s2, at, nbrs[k]), x) && s2.ids[x] > s.id
  {
    ReturnPre(s, digraph, root, at, nbrs, k, s2);
    var s3 := Return(s2, at, nbrs[k]);
    assert Returned(s, digraph, root, at, nbrs, k, s2);
    ReturnFacts(s, digraph, root, at, nbrs, k, s2);
    ReturnInv(s, at, nbrs, k, s3);
    forall x | 0 <= x < |s.g| && !s.visited[x] && s2.visited[x]
      ensures Settled(s3, x) && s2.ids[x] > s.id
    {
      ReturnSettled(s, digraph, root, at, nbrs, k, s2, x);
    }
  }

  lemma {:induction false} ScanBack(s: State, digraph: bool, root: int, at: int, nbrs: seq<int>, k: int)
    requires ScanReady(s, digraph, root, at, nbrs, k)
    requires k < |nbrs| && s.visited[nbrs[k]]
    ensures ScanResult(s, Scan(s, digraph, root, at, nbrs, k), root, at)
    decreases Unvisited(s.visited), |nbrs| - k + 1, 0
  {
    var to := nbrs[k];
    BackEdgePre(s, digraph, root, at, nbrs, k);
    BackEdgeInv(s, digraph, root, at, nbrs, k);
    var s1 := BackEdge(s, at, to);
    ScanCorrect(s1, digraph, root, at, nbrs, k + 1);
    var r := Scan(s1, digraph, root, at, nbrs, k + 1);
    assert Scan(s, digraph, root, at, nbrs, k) == r;
    assert forall x :: 0 <= x < |s.g| ==> s1.visited[x] == s.visited[x];
  }

  /** A visited neighbour: low[at] = min(low[at], ids[to]) keeps the loop invariant,
      a self-loop included (it contributes ids[at], which changes nothing). */
  lemma BackEdgeInv(s: State, digraph: bool, root: int, at: int, nbrs: seq<int>, k: int)
    requires ScanPre(s, digraph, root, at, nbrs, k) && ScanInv(s, at, nbrs, k)
    requires k < |nbrs| && s.visited[nbrs[k]]
    requires ScanPre(BackEdge(s, at, nbrs[k]), digraph, root, at, nbrs, k + 1)
    ensures ScanInv(BackEdge(s, at, nbrs[k]), at, nbrs, k + 1)
  {
    var to := nbrs[k];
    var s1 := BackEdge(s, at, to);
    var pre := nbrs[..k];
    assert nbrs[..k + 1] == pre + [to];
    ChildrenAfter(s, at, at);
    BackEdgeLow(s, at, pre, to);
    forall i | 0 <= i < |s1.children[at]| ensures s1.children[at][i] in nbrs[..k + 1] {
      assert s1.children[at][i] in pre;
    }
    SettledKeptArt(s, s1, at);
  }

  /** low[at] = min(low[at], ids[to]) extends the minimum over pre by to's
      contribution: ids[to], or, when to is already a tree child of at, its low value,
      which the minimum over pre has taken into account and which is at most ids[to]. */
  lemma BackEdgeLow(s: State, at: int, pre: seq<int>, to: int)
    requires Shaped(s) && 0 <= at < |s.g| && 0 <= to < |s.g| && AllNodes(s, pre)
    requires s.low[at] == MinLink(s, at, pre)
    requires forall i :: 0 <= i < |s.children[at]| ==> s.children[at][i] != at
    requires to in s.children[at] ==> to in pre && s.low[to] <= s.ids[to]
    ensures AllNodes(s, pre + [to])
    ensures BackEdge(s, at, to).low[at] == MinLink(BackEdge(s, at, to), at, pre + [to])
  {
    var s1 := BackEdge(s, at, to);
    forall i | 0 <= i < |pre|
      ensures s1.ids[pre[i]] == s.ids[pre[i]] && (pre[i] in s1.children[at] <==> pre[i] in s.children[at]) &&
              (pre[i] in s.children[at] ==> s1.low[pre[i]] == s.low[pre[i]])
    {
    }
    MinLinkKept(s, s1, at, pre);
    assert (pre + [to])[..|pre|] == pre;
    if to in s.children[at] {
      var j :| 0 <= j < |pre| && pre[j] == to;
      MinLinkBound(s, at, pre);
      assert MinLink(s, at, pre) <= Contribution(s, at, pre[j]);
    }
  }

  /** The non-root rule for x reads only ids[x], x's children and their low values. */
  lemma SettledKeptArt(s: State, t: State, x: int)
    requires Valid(s) && Valid(t) && |t.g| == |s.g| && 0 <= x < |s.g|
    requires t.ids[x] == s.ids[x] && t.children[x] == s.children[x]
    requires forall i :: 0 <= i < |s.children[x]| ==> t.low[s.children[x][i]] == s.low[s.children[x][i]]
    ensures ArtRule(t, x) <==> ArtRule(s, x)
  {
    if ArtRule(s, x) {
      var i :| 0 <= i < |s.children[x]| && s.ids[x] <= s.low[s.children[x][i]];
      assert t.ids[x] <= t.low[t.children[x][i]];
    }
  }

  /** The facts about one tree edge at -> nbrs[k] that the lemmas below share: the
      descent to it is done and left s2, and the call back has been made. */
  ghost predicate Returned(s: State, digraph: bool, root: int, at: int, nbrs: seq<int>, k: int, s2: State)
  {
    ScanPre(s, digraph, root, at, nbrs, k) && k < |nbrs| && !s.visited[nbrs[k]] &&
    (digraph ==> at in s.g[nbrs[k]]) &&
    VisitPre(Descend(s, digraph, root, at, nbrs[k]), digraph, root, nbrs[k]) &&
    VisitPost(Descend(s, digraph, root, at, nbrs[k]), s2, digraph, nbrs[k]) &&
    VisitResult(Descend(s, digraph, root, at, nbrs[k]), s2, root, nbrs[k]) &&
    ScanPre(Return(s2, at, nbrs[k]), digraph, root, at, nbrs, k + 1)
  }

  /** What the call back from the tree child to changes, seen from the state before
      the descent: to is now at's last tree child and visited, at's low value and mark
      are updated, and the nodes visited before keep their ids and low values. */
  ghost predicate ReturnedFacts(s: State, at: int, to: int, t: State)
    requires Valid(s) && Valid(t) && |t.g| == |s.g| && 0 <= at < |s.g| && 0 <= to < |s.g|
  {
    t.g[at] == s.g[at] && t.children[at] == s.children[at] + [to] && t.ids[at] == s.ids[at] &&
    t.low[at] == Min(s.low[at], t.low[to]) && (t.isArt[at] <==> s.isArt[at] || s.ids[at] <= t.low[to]) &&
    !s.visited[to] && t.visited[to] && to != at && t.id > s.id &&
    (forall v :: 0 <= v < |s.g| && s.visited[v] ==> t.visited[v]) &&
    (forall v :: 0 <= v < |s.g| && s.visited[v] && v != at ==> t.ids[v] == s.ids[v] && t.low[v] == s.low[v])
  }

  lemma ReturnFacts(s: State, digraph: bool, root: int, at: int, nbrs: seq<int>, k: int, s2: State)
    requires Returned(s, digraph, root, at, nbrs, k, s2)
    ensures Valid(Return(s2, at, nbrs[k])) && |Return(s2, at, nbrs[k]).g| == |s.g|
    ensures ReturnedFacts(s, at, nbrs[k], Return(s2, at, nbrs[k]))
  {
    var to := nbrs[k];
    var s1 := Descend(s, digraph, root, at, to);
    var s3 := Return(s2, at, to);
    assert Kept(s1, s2, at);
    forall v | 0 <= v < |s.g| && s.visited[v] && v != at ensures s3.ids[v] == s.ids[v] && s3.low[v] == s.low[v] {
      assert Kept(s1, s2, v);
    }
  }

  /** One more neighbour in the minimum: if the new low value is the old one lowered by
      what nbrs[k] contributes, and the earlier neighbours contribute what they did,
      low is the minimum over the longer prefix. */
  lemma LowStep(s: State, t: State, at: int, nbrs: seq<int>, k: int)
    requires Shaped(s) && Shaped(t) && |t.g| == |s.g| && 0 <= at < |s.g| && AllNodes(s, nbrs) && 0 <= k < |nbrs|
    requires s.low[at] == MinLink(s, at, nbrs[..k]) && t.ids[at] == s.ids[at]
    requires forall i :: 0 <= i < k ==>
      t.ids[nbrs[i]] == s.ids[nbrs[i]] && (nbrs[i] in t.children[at] <==> nbrs[i] in s.children[at]) &&
      (nbrs[i] in s.children[at] ==> t.low[nbrs[i]] == s.low[nbrs[i]])
    requires t.low[at] == Min(s.low[at], Contribution(t, at, nbrs[k]))
    ensures t.low[at] == MinLink(t, at, nbrs[..k + 1])
  {
    var pre := nbrs[..k];
    assert nbrs[..k + 1][..k] == pre;
    forall i | 0 <= i < |pre|
      ensures t.ids[pre[i]] == s.ids[pre[i]] && (pre[i] in t.children[at] <==> pre[i] in s.children[at]) &&
              (pre[i] in s.children[at] ==> t.low[pre[i]] == s.low[pre[i]])
    {
      assert pre[i] == nbrs[i];
    }
    MinLinkKept(s, t, at, pre);
  }

  /** The call back from the tree child keeps the loop invariant. */
  lemma ReturnInv(s: State, at: int, nbrs: seq<int>, k: int, t: State)
    requires Valid(s) && Valid(t) && |t.g| == |s.g| && 0 <= at < |s.g| && s.visited[at]
    requires nbrs == s.g[at] && 0 <= k < |nbrs| && ScanInv(s, at, nbrs, k)
    requires ReturnedFacts(s, at, nbrs[k], t)
    ensures ScanInv(t, at, nbrs, k + 1)
  {
    ReturnLowInv(s, at, nbrs, k, t);
    ReturnChildrenInv(s, at, nbrs, k, t);
    ReturnArtInv(s, at, nbrs, k, t);
  }

  lemma ReturnLowInv(s: State, at: int, nbrs: seq<int>, k: int, t: State)
    requires Valid(s) && Valid(t) && |t.g| == |s.g| && 0 <= at < |s.g| && s.visited[at]
    requires nbrs == s.g[at] && 0 <= k < |nbrs| && ScanInv(s, at, nbrs, k)
    requires ReturnedFacts(s, at, nbrs[k], t)
    ensures t.low[at] == MinLink(t, at, nbrs[..k + 1])
  {
    ChildrenAfter(s, at, at);
    assert nbrs[k] in t.children[at];
    forall i | 0 <= i < k
      ensures t.ids[nbrs[i]] == s.ids[nbrs[i]] && (nbrs[i] in t.children[at] <==> nbrs[i] in s.children[at]) &&
              (nbrs[i] in s.children[at] ==> t.low[nbrs[i]] == s.low[nbrs[i]])
    {
      assert s.visited[nbrs[i]];
    }
    LowStep(s, t, at, nbrs, k);
  }

  lemma ReturnChildrenInv(s: State, at: int, nbrs: seq<int>, k: int, t: State)
    requires Valid(s) && Valid(t) && |t.g| == |s.g| && 0 <= at < |s.g| && s.visited[at]
    requires nbrs == s.g[at] && 0 <= k < |nbrs| && ScanInv(s, at, nbrs, k)
    requires ReturnedFacts(s, at, nbrs[k], t)
    ensures forall i :: 0 <= i < k + 1 ==> t.visited[nbrs[i]]
    ensures forall i :: 0 <= i < |t.children[at]| ==> t.children[at][i] in nbrs[..k + 1]
  {
    assert nbrs[..k + 1] == nbrs[..k] + [nbrs[k]];
    forall i | 0 <= i < |t.children[at]| ensures t.children[at][i] in nbrs[..k + 1] {
      if i < |s.children[at]| {
        assert t.children[at][i] == s.children[at][i];
        assert s.children[at][i] in nbrs[..k];
      }
    }
  }

  lemma ReturnArtInv(s: State, at: int, nbrs: seq<int>, k: int, t: State)
    requires Valid(s) && Valid(t) && |t.g| == |s.g| && 0 <= at < |s.g| && s.visited[at]
    requires nbrs == s.g[at] && 0 <= k < |nbrs| && ScanInv(s, at, nbrs, k)
    requires ReturnedFacts(s, at, nbrs[k], t)
    ensures t.isArt[at] <==> ArtRule(t, at)
  {
    var to := nbrs[k];
    forall i | 0 <= i < |s.children[at]| ensures t.low[s.children[at][i]] == s.low[s.children[at][i]] {
      assert TreeEdge(s, at, s.children[at][i]);
    }
    if ArtRule(s, at) {
      var i :| 0 <= i < |s.children[at]| && s.ids[at] <= s.low[s.children[at][i]];
      assert t.ids[at] <= t.low[t.children[at][i]];
    }
    if s.ids[at] <= t.low[to] {
      assert t.children[at][|s.children[at]|] == to;
    }
    if ArtRule(t, at) {
      var i :| 0 <= i < |t.children[at]| && t.ids[at] <= t.low[t.children[at][i]];
      if i < |s.children[at]| {
        assert s.ids[at] <= s.low[s.children[at][i]];
      }
    }
  }

  /** A node the descent discovered and settled stays settled through the call back:
      at is none of its neighbours' children-to-be, and none of its own children. */
  lemma ReturnSettled(s: State, digraph: bool, root: int, at: int, nbrs: seq<int>, k: int, s2: State, x: int)
    requires Returned(s, digraph, root, at, nbrs, k, s2)
    requires 0 <= x < |s.g| && !s.visited[x] && s2.visited[x]
    ensures Settled(Return(s2, at, nbrs[k]), x) && s2.ids[x] > s.id
  {
    var to := nbrs[k];
    var s1 := Descend(s, digraph, root, at, to);
    var s3 := Return(s2, at, to);
    assert Kept(s1, s2, at);
    assert Settled(s2, x) && s2.ids[x] > s1.id;
    assert Valid(s3);
    SettledThroughReturn(s2, at, to, x);
  }

  /** The call back changes only at's entries, so a node discovered after at keeps
      being settled. */
  lemma SettledThroughReturn(s2: State, at: int, to: int, x: int)
    requires Valid(s2) && 0 <= at < |s2.g| && 0 <= to < |s2.g| && Valid(Return(s2, at, to))
    requires 0 <= x < |s2.g| && Settled(s2, x) && s2.ids[at] < s2.ids[x]
    ensures Settled(Return(s2, at, to), x)
  {
    ChildrenAfter(s2, x, at);
    SettledKept(s2, Return(s2, at, to), x);
  }

  /** A node settled before the rest of at's scan stays settled after it, when it was
      discovered after at. */
  lemma StaySettled(s3: State, r: State, digraph: bool, at: int, x: int)
    requires Valid(s3) && 0 <= at < |s3.g| && ScanPost(s3, r, digraph, at)
    requires 0 <= x < |s3.g| && s3.visited[x] && x != at && Settled(s3, x) && s3.ids[at] < s3.ids[x]
    ensures Settled(r, x)
  {
    forall i | 0 <= i < |s3.g[x]| ensures r.ids[s3.g[x][i]] == s3.ids[s3.g[x][i]] {
      var w := s3.g[x][i];
      if w != at {
        assert Kept(s3, r, w);
      }
    }
    ChildrenAfter(s3, x, at);
    forall i | 0 <= i < |s3.children[x]| ensures r.low[s3.children[x][i]] == s3.low[s3.children[x][i]] {
      assert TreeEdge(s3, x, s3.children[x][i]);
      assert Kept(s3, r, s3.children[x][i]);
    }
    assert Kept(s3, r, x);
    SettledKept(s3, r, x);
  }

  /** After the rest of the scan from k + 1: what the whole scan from k promises. */
  lemma ReturnResult(s: State, digraph: bool, root: int, at: int, nbrs: seq<int>, k: int, s2: State, r: State)
    requires Returned(s, digraph, root, at, nbrs, k, s2)
    requires forall x :: 0 <= x < |s.g| && !s.visited[x] && s2.visited[x] ==>
      Settled(Return(s2, at, nbrs[k]), x) && s2.ids[x] > s.id
    requires ScanPost(Return(s2, at, nbrs[k]), r, digraph, at)
    requires ScanResult(Return(s2, at, nbrs[k]), r, root, at)
    ensures ScanResult(s, r, root, at)
  {
    var to := nbrs[k];
    var n := |s.g|;
    var s1 := Descend(s, digraph, root, at, to);
    var s3 := Return(s2, at, to);
    assert Kept(s1, s2, at);
    assert s3.id >= s.id;
    forall x | 0 <= x < n && !s.visited[x] && r.visited[x]
      ensures Settled(r, x) && r.ids[x] > s.id
    {
      if s3.visited[x] {
        assert x != at && s3.ids[at] == s.ids[at] <= s.id < s3.ids[x];
        StaySettled(s3, r, digraph, at, x);
        assert Kept(s3, r, x);
      }
    }
  }

  // ---------------------------------------------------------------------------
  // findArt: one DFS from each node still unvisited, in node order.
  // ---------------------------------------------------------------------------

  /** The storage the script sets up before findArt: ids and low -1, nothing visited
      or marked, outEdgeCount 0, and the counter at -1 as findArt sets it. */
  ghost function Init(g: seq<seq<int>>): (s: State)
    requires WellFormed(g)
    ensures Valid(s) && s.g == g && s.id == -1 && s.outEdgeCount == 0 && s.roots == []
    ensures forall v :: 0 <= v < |g| ==> !s.visited[v] && s.ids[v] == -1 && s.low[v] == -1 && !s.isArt[v]
  {
    var n := |g|;
    var s := State(g, seq(n, _ => false), seq(n, _ => -1), seq(n, _ => -1), seq(n, _ => false),
                   -1, 0, seq(n, _ => []), [], []);
    NoneVisited(s.visited);
    s
  }

  lemma {:induction false} NoneVisited(visited: seq<bool>)
    requires forall v :: 0 <= v < |visited| ==> !visited[v]
    ensures |Unvisited(visited)| == |visited|
  {
    if visited != [] {
      var init := visited[..|visited| - 1];
      assert Unvisited(visited) == Unvisited(init) + {|visited| - 1};
      NoneVisited(init);
    }
  }

  ghost predicate DrivePre(s: State, digraph: bool, i: int)
  {
    Valid(s) && 0 <= i <= |s.g| && (digraph ==> Mirrored(s.g, s.visited)) &&
    (forall v :: 0 <= v < i ==> s.visited[v])
  }

  ghost predicate DrivePost(s: State, r: State, digraph: bool)
    requires Valid(s)
  {
    Valid(r) && |r.g| == |s.g| &&
    (forall v :: 0 <= v < |r.g| ==> r.visited[v]) &&
    (forall v :: 0 <= v < |s.g| ==> multiset(r.g[v]) <= multiset(s.g[v])) &&
    (!digraph ==> r.g == s.g) &&
    s.order <= r.order && s.roots <= r.roots
  }

  /** The state handed to dfsArt for a new tree: outEdgeCount reset to 0, i recorded
      as the tree's root. */
  ghost function StartTree(s: State, i: int): State
  {
    s.(outEdgeCount := 0, roots := s.roots + [i])
  }

  /** The override after each tree: the root is marked exactly when outEdgeCount > 1. */
  ghost function MarkRoot(s: State, i: int): State
    requires 0 <= i < |s.isArt|
  {
    s.(isArt := s.isArt[i := s.outEdgeCount > 1])
  }

  /** The for loop of findArt from node i on. */
  ghost function Drive(s: State, digraph: bool, i: int): (r: State)
    requires DrivePre(s, digraph, i)
    ensures DrivePost(s, r, digraph)
    decreases |s.g| - i
  {
    if i == |s.g| then s
    else if s.visited[i] then Drive(s, digraph, i + 1)
    else
      var s0 := StartTree(s, i);
      assert VisitPre(s0, digraph, i, i) by { StartTreePre(s, digraph, i); }
      var s1 := Visit(s0, digraph, i, i);
      assert DrivePre(MarkRoot(s1, i), digraph, i + 1) by { MarkRootPre(s, digraph, i, s1); }
      var r := Drive(MarkRoot(s1, i), digraph, i + 1);
      assert DrivePost(s, r, digraph) by { MarkRootPost(s, digraph, i, s1, r); }
      r
  }

  lemma StartTreePre(s: State, digraph: bool, i: int)
    requires DrivePre(s, digraph, i) && i < |s.g| && !s.visited[i]
    ensures VisitPre(StartTree(s, i), digraph, i, i)
  {
    var s0 := StartTree(s, i);
    if digraph {
      forall u, v | 0 <= u < |s.g| && 0 <= v < |s.g| && !s.visited[i := true][v]
        ensures multiset(s.g[u])[v] <= multiset(s.g[v])[u]
      {
      }
    }
    forall u, j | 0 <= u < |s.g| && 0 <= j < |s0.children[u]| ensures TreeEdge(s0, u, s0.children[u][j]) {
      assert TreeEdge(s, u, s.children[u][j]);
    }
  }

  lemma MarkRootPre(s: State, digraph: bool, i: int, s1: State)
    requires DrivePre(s, digraph, i) && i < |s.g| && !s.visited[i]
    requires VisitPre(StartTree(s, i), digraph, i, i)
    requires VisitPost(StartTree(s, i), s1, digraph, i)
    ensures DrivePre(MarkRoot(s1, i), digraph, i + 1)
  {
    var s2 := MarkRoot(s1, i);
    forall u, j | 0 <= u < |s.g| && 0 <= j < |s2.children[u]| ensures TreeEdge(s2, u, s2.children[u][j]) {
      assert TreeEdge(s1, u, s1.children[u][j]);
    }
  }

  lemma MarkRootPost(s: State, digraph: bool, i: int, s1: State, r: State)
    requires DrivePre(s, digraph, i) && i < |s.g| && !s.visited[i]
    requires VisitPre(StartTree(s, i), digraph, i, i)
    requires VisitPost(StartTree(s, i), s1, digraph, i)
    requires DrivePre(MarkRoot(s1, i), digraph, i + 1)
    requires DrivePost(MarkRoot(s1, i), r, digraph)
    ensures DrivePost(s, r, digraph)
  {
    var s2 := MarkRoot(s1, i);
    forall v | 0 <= v < |s.g| ensures multiset(r.g[v]) <= multiset(s.g[v]) {
      assert multiset(r.g[v]) <= multiset(s2.g[v]) <= multiset(s.g[v]);
    }
  }

  /** What findArt has established for the nodes before i: every visited node is
      settled; a tree root is marked exactly when it has more than one tree child, any
      other node by the non-root rule; the roots are increasing, each is the lowest
      node not yet visited when its tree starts, and the first is node 0. */
  ghost predicate DriveInv(s: State, i: int)
    requires Valid(s)
  {
    MarksInv(s) && RootsInv(s, i)
  }

  /** Every visited node has its low-link value, and its mark is the root rule when
      it is a root and the non-root rule otherwise. */
  ghost predicate MarksInv(s: State)
    requires Valid(s)
  {
    var n := |s.g|;
    (forall v :: 0 <= v < n && s.visited[v] ==> LowSettled(s, v)) &&
    (forall v :: 0 <= v < n && s.visited[v] && v in s.roots ==> (s.isArt[v] <==> |s.children[v]| > 1)) &&
    (forall v :: 0 <= v < n && s.visited[v] && v !in s.roots ==> (s.isArt[v] <==> ArtRule(s, v)))
  }

  /** The roots so far are visited, lie below i, increase, and each was discovered
      after every node below it; the first is node 0, and before it nothing is visited. */
  ghost predicate RootsInv(s: State, i: int)
    requires Shaped(s)
  {
    var n := |s.g|;
    (forall j :: 0 <= j < |s.roots| ==> 0 <= s.roots[j] < i && s.roots[j] < n && s.visited[s.roots[j]]) &&
    (forall j, k :: 0 <= j < k < |s.roots| ==> s.roots[j] < s.roots[k]) &&
    (forall j, v :: 0 <= j < |s.roots| && 0 <= v < s.roots[j] ==> s.ids[v] < s.ids[s.roots[j]]) &&
    (s.roots == [] ==> forall v :: 0 <= v < n ==> !s.visited[v]) &&
    (s.roots != [] ==> s.roots[0] == 0)
  }

  /** The driver's precondition and invariant at node i, taken as one fact. */
  ghost predicate DriveReady(s: State, digraph: bool, i: int)
  {
    DrivePre(s, digraph, i) && DriveInv(s, i)
  }

  /** findArt's loop, from node i on, keeps the driver's invariant to the end. */
  lemma {:induction false} DriveCorrect(s: State, digraph: bool, i: int)
    requires DriveReady(s, digraph, i)
    ensures DriveInv(Drive(s, digraph, i), |s.g|)
    decreases |s.g| - i
  {
    if i < |s.g| {
      var t := DriveStep(s, digraph, i);
      DriveCorrect(t, digraph, i + 1);
      assert DriveInv(Drive(s, digraph, i), |s.g|);
    } else {
      assert Drive(s, digraph, i) == s;
    }
  }

  /** One turn of findArt's loop, seen through the driver's invariant: the state t it
      leaves is one the rest of the loop can start from, and the loop ends where it
      would from t. */
  lemma DriveStep(s: State, digraph: bool, i: int) returns (t: State)
    requires DriveReady(s, digraph, i) && i < |s.g|
    ensures DriveReady(t, digraph, i + 1) && |t.g| == |s.g|
    ensures Drive(s, digraph, i) == Drive(t, digraph, i + 1)
  {
    if s.visited[i] {
      SkipStep(s, digraph, i);
      t := s;
    } else {
      TreeStep(s, digraph, i);
      t := MarkRoot(Visit(StartTree(s, i), digraph, i, i), i);
    }
  }

  /** Passing over a visited node keeps the driver's invariant. */
  lemma SkipStep(s: State, digraph: bool, i: int)
    requires DrivePre(s, digraph, i) && DriveInv(s, i) && i < |s.g| && s.visited[i]
    ensures DrivePre(s, digraph, i + 1) && DriveInv(s, i + 1)
    ensures Drive(s, digraph, i) == Drive(s, digraph, i + 1)
  {
  }

  /** One tree of findArt keeps the driver's invariant. */
  lemma TreeStep(s: State, digraph: bool, i: int)
    requires DrivePre(s, digraph, i) && DriveInv(s, i) && i < |s.g| && !s.visited[i]
    ensures VisitPre(StartTree(s, i), digraph, i, i)
    ensures var t := MarkRoot(Visit(StartTree(s, i), digraph, i, i), i);
            DrivePre(t, digraph, i + 1) && DriveInv(t, i + 1) && Drive(s, digraph, i) == Drive(t, digraph, i + 1)
  {
    DriveUnfold(s, digraph, i);
    var s0 := StartTree(s, i);
    StartTreePre(s, digraph, i);
    var s1 := Visit(s0, digraph, i, i);
    MarkRootPre(s, digraph, i, s1);
    VisitCorrect(s0, digraph, i, i);
    TreeFactsHold(s, digraph, i, s1);
    TreeInv(s, i, MarkRoot(s1, i));
  }

  /** What one tree of findArt changes, seen from the state before it: i is the new
      root; the nodes visited before it keep their entries; the new nodes are settled
      and, except the root, marked by the non-root rule; the root is marked exactly
      when it has more than one tree child. */
  ghost predicate TreeFacts(s: State, i: int, t: State)
    requires Valid(s) && Valid(t) && |t.g| == |s.g| && 0 <= i < |s.g|
  {
    t.roots == s.roots + [i] && !s.visited[i] && t.visited[i] && t.ids[i] == s.id + 1 &&
    (forall v :: 0 <= v < |s.g| && s.visited[v] ==> t.visited[v] && Kept(s, t, v)) &&
    (forall v :: 0 <= v < |s.g| && !s.visited[v] && t.visited[v] ==>
       LowSettled(t, v) && (v != i ==> (t.isArt[v] <==> ArtRule(t, v)))) &&
    (t.isArt[i] <==> |t.children[i]| > 1)
  }

  lemma TreeFactsHold(s: State, digraph: bool, i: int, s1: State)
    requires Valid(s) && 0 <= i < |s.g| && !s.visited[i] && Valid(StartTree(s, i))
    requires VisitPost(StartTree(s, i), s1, digraph, i)
    requires VisitResult(StartTree(s, i), s1, i, i)
    requires Valid(MarkRoot(s1, i))
    ensures TreeFacts(s, i, MarkRoot(s1, i))
  {
    var s0 := StartTree(s, i);
    var t := MarkRoot(s1, i);
    forall v | 0 <= v < |s.g| && s.visited[v] ensures t.visited[v] && Kept(s, t, v) {
      assert Kept(s0, s1, v);
    }
    NewNodesSettled(s0, s1, i);
  }

  /** The nodes the tree discovers stay settled under the override, except the root,
      whose mark the override replaces. */
  lemma NewNodesSettled(s0: State, s1: State, i: int)
    requires Valid(s0) && Valid(s1) && |s1.g| == |s0.g| && 0 <= i < |s0.g| && Valid(MarkRoot(s1, i))
    requires forall x :: 0 <= x < |s0.g| && !s0.visited[x] && s1.visited[x] ==> Settled(s1, x)
    ensures var t := MarkRoot(s1, i);
            forall v :: 0 <= v < |s0.g| && !s0.visited[v] && t.visited[v] ==>
              LowSettled(t, v) && (v != i ==> (t.isArt[v] <==> ArtRule(t, v)))
  {
    var t := MarkRoot(s1, i);
    forall v | 0 <= v < |s0.g| && !s0.visited[v] && t.visited[v]
      ensures LowSettled(t, v) && (v != i ==> (t.isArt[v] <==> ArtRule(t, v)))
    {
      assert Settled(s1, v);
      ArtRuleIsArt(s1, t, v);
    }
  }

  /** One tree of findArt keeps the driver's invariant. */
  lemma TreeInv(s: State, i: int, t: State)
    requires Valid(s) && Valid(t) && |t.g| == |s.g| && 0 <= i < |s.g|
    requires (forall v :: 0 <= v < i ==> s.visited[v]) && DriveInv(s, i) && TreeFacts(s, i, t)
    ensures DriveInv(t, i + 1)
  {
    TreeInvSettled(s, i, t);
    TreeInvMarks(s, i, t);
    TreeInvRoots(s, i, t);
  }

  lemma TreeInvSettled(s: State, i: int, t: State)
    requires Valid(s) && Valid(t) && |t.g| == |s.g| && 0 <= i < |s.g|
    requires (forall v :: 0 <= v < i ==> s.visited[v]) && DriveInv(s, i) && TreeFacts(s, i, t)
    ensures forall v :: 0 <= v < |t.g| && t.visited[v] ==> LowSettled(t, v)
  {
    forall v | 0 <= v < |t.g| && t.visited[v] ensures LowSettled(t, v) {
      if s.visited[v] {
        OldSettled(s, t, v);
      }
    }
  }

  lemma TreeInvRoots(s: State, i: int, t: State)
    requires Shaped(s) && Shaped(t) && |t.g| == |s.g| && 0 <= i < |s.g| && RootsInv(s, i)
    requires forall v :: 0 <= v < i ==> s.visited[v]
    requires forall v :: 0 <= v < |s.g| && s.visited[v] ==> t.ids[v] == s.ids[v] && s.ids[v] <= s.id
    requires t.roots == s.roots + [i] && t.visited[i] && t.ids[i] == s.id + 1
    requires forall j :: 0 <= j < |s.roots| ==> t.visited[s.roots[j]]
    ensures RootsInv(t, i + 1)
  {
    var m := |s.roots|;
    forall j | 0 <= j < |t.roots| ensures 0 <= t.roots[j] < i + 1 && t.roots[j] < |t.g| && t.visited[t.roots[j]] {
      if j < m {
        assert t.roots[j] == s.roots[j];
      }
    }
    forall j, k | 0 <= j < k < |t.roots| ensures t.roots[j] < t.roots[k] {
      assert t.roots[j] == s.roots[j];
      if k < m {
        assert t.roots[k] == s.roots[k];
      }
    }
    assert 0 < i ==> s.visited[0];
    if s.roots != [] {
      assert t.roots[0] == s.roots[0];
    }
    forall j, v | 0 <= j < |t.roots| && 0 <= v < t.roots[j] ensures t.ids[v] < t.ids[t.roots[j]] {
      assert s.visited[v];
      if j < |s.roots| {
        assert s.visited[s.roots[j]];
      }
    }
  }

  lemma TreeInvMarks(s: State, i: int, t: State)
    requires Valid(s) && Valid(t) && |t.g| == |s.g| && 0 <= i < |s.g|
    requires (forall v :: 0 <= v < i ==> s.visited[v]) && DriveInv(s, i) && TreeFacts(s, i, t)
    ensures forall v :: 0 <= v < |t.g| && t.visited[v] && v in t.roots ==> (t.isArt[v] <==> |t.children[v]| > 1)
    ensures forall v :: 0 <= v < |t.g| && t.visited[v] && v !in t.roots ==> (t.isArt[v] <==> ArtRule(t, v))
  {
    var n := |s.g|;
    forall v | 0 <= v < n && t.visited[v] && v !in t.roots ensures t.isArt[v] <==> ArtRule(t, v) {
      if s.visited[v] {
        OldSettled(s, t, v);
      }
    }
  }

  /** A node settled before the tree stays settled: its neighbours and children were
      visited before, so the tree changes none of their entries. */
  lemma OldSettled(s: State, t: State, v: int)
    requires Valid(s) && Valid(t) && |t.g| == |s.g| && 0 <= v < |s.g| && s.visited[v] && LowSettled(s, v)
    requires forall x :: 0 <= x < |s.g| && s.visited[x] ==> t.visited[x] && Kept(s, t, x)
    ensures LowSettled(t, v) && (ArtRule(t, v) <==> ArtRule(s, v))
  {
    forall j | 0 <= j < |s.children[v]| ensures t.low[s.children[v][j]] == s.low[s.children[v][j]] {
      assert TreeEdge(s, v, s.children[v][j]);
    }
    SettledKept(s, t, v);
  }

  /** Overwriting marks changes neither the low-link equation nor the non-root rule. */
  lemma ArtRuleIsArt(s: State, t: State, x: int)
    requires Valid(s) && Valid(t) && 0 <= x < |s.g|
    requires t == s.(isArt := t.isArt)
    ensures LowSettled(t, x) <==> LowSettled(s, x)
    ensures ArtRule(t, x) <==> ArtRule(s, x)
  {
    MinLinkKept(s, t, x, s.g[x]);
  }

  /** findArt on the storage the script sets up, over an adjacency the builder
      produces: well formed, and symmetric, which digraph mode relies on. */
  ghost function FindArtModel(g: seq<seq<int>>, digraph: bool): (r: State)
    requires WellFormed(g) && (digraph ==> Symmetric(g))
    ensures Valid(r) && |r.g| == |g| && (forall v :: 0 <= v < |g| ==> r.visited[v])
    ensures !digraph ==> r.g == g
    ensures forall v :: 0 <= v < |g| ==> multiset(r.g[v]) <= multiset(g[v])
  {
    Drive(Init(g), digraph, 0)
  }

  lemma FindArtInv(g: seq<seq<int>>, digraph: bool)
    requires WellFormed(g) && (digraph ==> Symmetric(g))
    ensures DriveInv(FindArtModel(g, digraph), |g|)
  {
    var s := Init(g);
    assert DrivePre(s, digraph, 0);
    DriveCorrect(s, digraph, 0);
  }

  /** Every node is visited and ids numbers the nodes 0..n-1 in visit order, with one
      counter across all trees. */
  lemma FindArtIds(g: seq<seq<int>>, digraph: bool)
    requires WellFormed(g) && (digraph ==> Symmetric(g))
    ensures var r := FindArtModel(g, digraph); var n := |g|;
      |r.order| == n && r.id == n - 1 &&
      (forall v :: 0 <= v < n ==> 0 <= r.ids[v] < n && r.order[r.ids[v]] == v) &&
      (forall u, v :: 0 <= u < n && 0 <= v < n && r.ids[u] == r.ids[v] ==> u == v)
  {
    var r := FindArtModel(g, digraph);
    var n := |g|;
    assert Unvisited(r.visited) == {};
    forall v | 0 <= v < n ensures 0 <= r.ids[v] < n && r.order[r.ids[v]] == v {
      var k :| 0 <= k < |r.order| && r.order[k] == v;
    }
  }

  /** low[v] <= ids[v], and low[v] is the minimum of ids[v], the ids of v's neighbours
      and the low values of v's tree children. */
  lemma FindArtLow(g: seq<seq<int>>, digraph: bool)
    requires WellFormed(g) && (digraph ==> Symmetric(g))
    ensures var r := FindArtModel(g, digraph);
      forall v :: 0 <= v < |g| ==> r.low[v] <= r.ids[v] && LowSettled(r, v)
  {
    FindArtInv(g, digraph);
  }

  /** A tree root is marked exactly when it has more than one tree child, any other
      node exactly when some tree child c has ids[v] <= low[c]. */
  lemma FindArtMarks(g: seq<seq<int>>, digraph: bool)
    requires WellFormed(g) && (digraph ==> Symmetric(g))
    ensures var r := FindArtModel(g, digraph);
      (forall v :: 0 <= v < |g| && v in r.roots ==> (r.isArt[v] <==> |r.children[v]| > 1)) &&
      (forall v :: 0 <= v < |g| && v !in r.roots ==> (r.isArt[v] <==> ArtRule(r, v)))
  {
    FindArtInv(g, digraph);
  }

  /** The roots are increasing from node 0, and each is the lowest node the trees
      before it left unvisited: every smaller node has a smaller id. */
  lemma FindArtRoots(g: seq<seq<int>>, digraph: bool)
    requires WellFormed(g) && (digraph ==> Symmetric(g))
    ensures var r := FindArtModel(g, digraph); var n := |g|;
      (forall j :: 0 <= j < |r.roots| ==> 0 <= r.roots[j] < n) &&
      (forall j, k :: 0 <= j < k < |r.roots| ==> r.roots[j] < r.roots[k]) &&
      (forall j, v :: 0 <= j < |r.roots| && 0 <= v < r.roots[j] ==> r.ids[v] < r.ids[r.roots[j]]) &&
      (n > 0 ==> r.roots != [] && r.roots[0] == 0)
  {
    FindArtInv(g, digraph);
  }

  /** A node without neighbours ends with low == ids and is not marked: it is a tree
      of its own, whose root has no tree children. */
  lemma IsolatedNode(g: seq<seq<int>>, digraph: bool, v: int)
    requires WellFormed(g) && (digraph ==> Symmetric(g)) && 0 <= v < |g| && g[v] == []
    ensures FindArtModel(g, digraph).low[v] == FindArtModel(g, digraph).ids[v]
    ensures !FindArtModel(g, digraph).isArt[v]
  {
    FindArtLow(g, digraph);
    FindArtMarks(g, digraph);
    var r := FindArtModel(g, digraph);
    assert multiset(r.g[v]) <= multiset(g[v]);
    IsolatedState(r, v);
  }

  lemma IsolatedState(r: State, v: int)
    requires Valid(r) && 0 <= v < |r.g| && multiset(r.g[v]) == multiset{} && LowSettled(r, v)
    requires (r.isArt[v] <==> |r.children[v]| > 1) || (r.isArt[v] <==> ArtRule(r, v))
    ensures r.low[v] == r.ids[v] && !r.isArt[v]
  {
    assert |r.g[v]| == |multiset(r.g[v])| == 0;
    FirstChildInList(r, v);
    assert !ArtRule(r, v);
  }

  lemma FirstChildInList(s: State, u: int)
    requires Valid(s) && 0 <= u < |s.g|
    ensures |s.children[u]| > 0 ==> s.children[u][0] in s.g[u]
  {
  }

  /** A self-loop adds ids[x] to the minimum, which changes nothing, since the
      minimum starts at ids[x]. */
  lemma SelfLoopNoEffect(s: State, x: int, ws: seq<int>)
    requires Shaped(s) && 0 <= x < |s.g| && AllNodes(s, ws) && x !in s.children[x]
    ensures AllNodes(s, ws + [x]) && MinLink(s, x, ws + [x]) == MinLink(s, x, ws)
  {
    assert (ws + [x])[..|ws|] == ws;
    MinLinkBound(s, x, ws);
  }

  /** When the scan meets a self-loop, at is already visited and the back-edge update
      min(low[at], ids[at]) leaves the state as it was. */
  lemma SelfLoopScan(s: State, digraph: bool, root: int, at: int, nbrs: seq<int>, k: int)
    requires ScanPre(s, digraph, root, at, nbrs, k) && k < |nbrs| && nbrs[k] == at
    ensures s.visited[nbrs[k]] && BackEdge(s, at, nbrs[k]) == s
  {
    assert s.low[at] <= s.ids[at];
    assert BackEdge(s, at, at).low == s.low;
  }

  // ---------------------------------------------------------------------------
  // One step of each function, unfolded, for the methods that run them.
  // ---------------------------------------------------------------------------

  lemma VisitUnfold(s: State, digraph: bool, root: int, at: int)
    requires VisitPre(s, digraph, root, at)
    ensures ScanPre(Enter(s, at), digraph, root, at, s.g[at], 0)
    ensures Visit(s, digraph, root, at) == Scan(Enter(s, at), digraph, root, at, s.g[at], 0)
    ensures Unvisited(Enter(s, at).visited) < Unvisited(s.visited)
  {
    EnterPre(s, digraph, root, at);
  }

  lemma ScanUnfoldTree(s: State, digraph: bool, root: int, at: int, nbrs: seq<int>, k: int)
    requires ScanPre(s, digraph, root, at, nbrs, k) && k < |nbrs| && !s.visited[nbrs[k]]
    ensures digraph ==> at in s.g[nbrs[k]]
    ensures VisitPre(Descend(s, digraph, root, at, nbrs[k]), digraph, root, nbrs[k])
    ensures var s2 := Visit(Descend(s, digraph, root, at, nbrs[k]), digraph, root, nbrs[k]);
      ScanPre(Return(s2, at, nbrs[k]), digraph, root, at, nbrs, k + 1) &&
      Unvisited(Return(s2, at, nbrs[k]).visited) < Unvisited(s.visited) &&
      Scan(s, digraph, root, at, nbrs, k) == Scan(Return(s2, at, nbrs[k]), digraph, root, at, nbrs, k + 1)
  {
    DescentPre(s, digraph, root, at, nbrs, k);
    var s2 := Visit(Descend(s, digraph, root, at, nbrs[k]), digraph, root, nbrs[k]);
    ReturnPre(s, digraph, root, at, nbrs, k, s2);
  }

  lemma ScanUnfoldBack(s: State, digraph: bool, root: int, at: int, nbrs: seq<int>, k: int)
    requires ScanPre(s, digraph, root, at, nbrs, k) && k < |nbrs| && s.visited[nbrs[k]]
    ensures ScanPre(BackEdge(s, at, nbrs[k]), digraph, root, at, nbrs, k + 1)
    ensures BackEdge(s, at, nbrs[k]).visited == s.visited
    ensures Scan(s, digraph, root, at, nbrs, k) == Scan(BackEdge(s, at, nbrs[k]), digraph, root, at, nbrs, k + 1)
  {
    BackEdgePre(s, digraph, root, at, nbrs, k);
  }

  /** Once every node from i on is visited, the rest of findArt's loop starts no tree
      and changes nothing. */
  lemma {:induction false} DriveIdle(s: State, digraph: bool, i: int)
    requires DrivePre(s, digraph, i) && forall v :: i <= v < |s.g| ==> s.visited[v]
    ensures Drive(s, digraph, i) == s
    decreases |s.g| - i
  {
    if i < |s.g| {
      DriveIdle(s, digraph, i + 1);
    }
  }

  lemma DriveUnfold(s: State, digraph: bool, i: int)
    requires DrivePre(s, digraph, i) && i < |s.g|
    ensures s.visited[i] ==> DrivePre(s, digraph, i + 1) && Drive(s, digraph, i) == Drive(s, digraph, i + 1)
    ensures !s.visited[i] ==>
      VisitPre(StartTree(s, i), digraph, i, i) &&
      var s1 := Visit(StartTree(s, i), digraph, i, i);
      DrivePre(MarkRoot(s1, i), digraph, i + 1) && Drive(s, digraph, i) == Drive(MarkRoot(s1, i), digraph, i + 1)
  {
    if !s.visited[i] {
      StartTreePre(s, digraph, i);
      MarkRootPre(s, digraph, i, Visit(StartTree(s, i), digraph, i, i));
    }
  }
}
