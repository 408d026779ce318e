/** The graph builder of artPts.py: an undirected edge list becomes an adjacency
    list with one entry per node 0..n-1, every edge stored in both directions and a
    self-loop stored once. */
module Graph {

  /** An undirected edge (from, to) as the source's test tables write it. */
  type Edge = (int, int)

  /** What building the adjacency yields: the lists, or the dictionary lookup that
      failed (the source raises KeyError on the first endpoint that is not a node). */
  datatype BuildResult = Built(g: seq<seq<int>>) | KeyError(key: int)

  /** The number of dictionary entries `range(n)` creates: none when n <= 0. */
  function NodeCount(n: int): nat
  {
    if n < 0 then 0 else n
  }

  /** Every entry of every list names a node of the graph. */
  ghost predicate WellFormed(g: seq<seq<int>>)
  {
    forall u, i :: 0 <= u < |g| && 0 <= i < |g[u]| ==> 0 <= g[u][i] < |g|
  }

  /** Each node appears in u's list exactly as often as u appears in its list. */
  ghost predicate Symmetric(g: seq<seq<int>>)
  {
    forall u, v :: 0 <= u < |g| && 0 <= v < |g| ==> multiset(g[u])[v] == multiset(g[v])[u]
  }

  ghost predicate EdgesInRange(n: int, edges: seq<Edge>)
  {
    forall i :: 0 <= i < |edges| ==> 0 <= edges[i].0 < n && 0 <= edges[i].1 < n
  }

  /** `key` is the missing dictionary key gen_graph trips over: the first
      out-of-range source if there is one (first loop), otherwise the first
      out-of-range target (second loop). */
  ghost predicate MissingKey(n: int, edges: seq<Edge>, key: int)
  {
    (exists i :: 0 <= i < |edges| && key == edges[i].0 && !(0 <= key < n) &&
                 forall j :: 0 <= j < i ==> 0 <= edges[j].0 < n)
    ||
    ((forall i :: 0 <= i < |edges| ==> 0 <= edges[i].0 < n) &&
     exists i :: 0 <= i < |edges| && key == edges[i].1 && !(0 <= key < n) &&
                 forall j :: 0 <= j < i ==> 0 <= edges[j].1 < n)
  }

  /** `key` is the missing key gen_graphOBE trips over: both endpoints of an edge are
      looked up before the next edge, the source endpoint first. */
  ghost predicate MissingKeyInterleaved(n: int, edges: seq<Edge>, key: int)
  {
    exists i :: 0 <= i < |edges| &&
      (forall j :: 0 <= j < i ==> 0 <= edges[j].0 < n && 0 <= edges[j].1 < n) &&
      (if 0 <= edges[i].0 < n then key == edges[i].1 && !(0 <= key < n)
       else key == edges[i].0)
  }

  /** The forward entries of u: the second endpoint of every edge leaving u, in edge order. */
  function Forward(edges: seq<Edge>, u: int): seq<int>
  {
    if edges == [] then []
    else
      var e := edges[|edges| - 1];
      Forward(edges[..|edges| - 1], u) + (if e.0 == u then [e.1] else [])
  }

  /** The reverse entries of u: the first endpoint of every edge entering u, in edge
      order, leaving out self-loops (already recorded as a forward entry). */
  function Reverse(edges: seq<Edge>, u: int): seq<int>
  {
    if edges == [] then []
    else
      var e := edges[|edges| - 1];
      Reverse(edges[..|edges| - 1], u) + (if e.1 == u && e.0 != e.1 then [e.0] else [])
  }

  /** The adjacency gen_graph builds: forward entries first, then reverse entries. */
  function Adjacency(n: int, edges: seq<Edge>): seq<seq<int>>
  {
    seq(NodeCount(n), u => Forward(edges, u) + Reverse(edges, u))
  }

  /** The lists gen_graphOBE builds: each edge adds its forward entry and then its
      reverse entry before the next edge is looked at. */
  function Interleaved(edges: seq<Edge>, u: int): seq<int>
  {
    if edges == [] then []
    else
      var e := edges[|edges| - 1];
      Interleaved(edges[..|edges| - 1], u)
        + (if e.0 == u then [e.1] else [])
        + (if e.1 == u && e.0 != e.1 then [e.0] else [])
  }

  function SelfLoops(edges: seq<Edge>): nat
  {
    if edges == [] then 0
    else
      var e := edges[|edges| - 1];
      SelfLoops(edges[..|edges| - 1]) + (if e.0 == e.1 then 1 else 0)
  }

  function SumLengths(g: seq<seq<int>>): nat
  {
    if g == [] then 0 else SumLengths(g[..|g| - 1]) + |g[|g| - 1]|
  }

  /** gen_graph: one empty list per node, then the forward entries of all edges, then
      their reverse entries; a lookup of a missing node fails with KeyError. */
  method GenGraph(n: int, edges: seq<Edge>) returns (r: BuildResult)
    ensures r.Built? <==> EdgesInRange(n, edges)
    ensures r.Built? ==> r.g == Adjacency(n, edges)
    ensures r.KeyError? ==> MissingKey(n, edges, r.key)
  {
    var g := new seq<int>[NodeCount(n)](_ => []);
    var i := AddForwardEntries(g, edges);
    if i < |edges| {
      return KeyError(edges[i].0);
    }
    i := AddReverseEntries(g, edges);
    if i < |edges| {
      return KeyError(edges[i].1);
    }
    r := Built(g[..]);
  }

  /** The first loop of gen_graph: appends each edge's second endpoint to the list of
      its first endpoint; stops at index i when that first endpoint is not a node. */
  method AddForwardEntries(g: array<seq<int>>, edges: seq<Edge>) returns (i: nat)
    requires forall u :: 0 <= u < g.Length ==> g[u] == []
    modifies g
    ensures i <= |edges|
    ensures forall j :: 0 <= j < i ==> 0 <= edges[j].0 < g.Length
    ensures i < |edges| ==> !(0 <= edges[i].0 < g.Length)
    ensures i == |edges| ==> forall u :: 0 <= u < g.Length ==> g[u] == Forward(edges, u)
  {
    i := 0;
    while i < |edges|
      invariant 0 <= i <= |edges|
      invariant forall j :: 0 <= j < i ==> 0 <= edges[j].0 < g.Length
      invariant forall u :: 0 <= u < g.Length ==> g[u] == Forward(edges[..i], u)
    {
      var fr, to := edges[i].0, edges[i].1;
      if !(0 <= fr < g.Length) {
        return;
      }
      assert edges[..i + 1][..i] == edges[..i];
      g[fr] := g[fr] + [to];
      i := i + 1;
    }
    assert edges[..|edges|] == edges;
  }

  /** The second loop of gen_graph: appends each edge's first endpoint to the list of
      its second endpoint, skipping self-loops; stops at index i when that second
      endpoint is not a node. */
  method AddReverseEntries(g: array<seq<int>>, edges: seq<Edge>) returns (i: nat)
    requires forall j :: 0 <= j < |edges| ==> 0 <= edges[j].0 < g.Length
    requires forall u :: 0 <= u < g.Length ==> g[u] == Forward(edges, u)
    modifies g
    ensures i <= |edges|
    ensures forall j :: 0 <= j < i ==> 0 <= edges[j].1 < g.Length
    ensures i < |edges| ==> !(0 <= edges[i].1 < g.Length)
    ensures i == |edges| ==> forall u :: 0 <= u < g.Length ==> g[u] == Forward(edges, u) + Reverse(edges, u)
  {
    i := 0;
    while i < |edges|
      invariant 0 <= i <= |edges|
      invariant forall j :: 0 <= j < i ==> 0 <= edges[j].1 < g.Length
      invariant forall u :: 0 <= u < g.Length ==> g[u] == Forward(edges, u) + Reverse(edges[..i], u)
    {
      var fr, to := edges[i].1, edges[i].0;
      assert edges[..i + 1][..i] == edges[..i];
      if to == fr {
        // a self-loop was entered by the first loop already
        i := i + 1;
        continue;
      }
      if !(0 <= fr < g.Length) {
        return;
      }
      g[fr] := g[fr] + [to];
      i := i + 1;
    }
    assert edges[..|edges|] == edges;
  }

  /** gen_graphOBE: like gen_graph, but each edge's reverse entry is added right after
      its forward entry. */
  method GenGraphOBE(n: int, edges: seq<Edge>) returns (r: BuildResult)
    ensures r.Built? <==> EdgesInRange(n, edges)
    ensures r.Built? ==> |r.g| == NodeCount(n) &&
                         forall u :: 0 <= u < |r.g| ==> r.g[u] == Interleaved(edges, u)
    ensures r.KeyError? ==> MissingKeyInterleaved(n, edges, r.key)
  {
    var size := NodeCount(n);
    var g := new seq<int>[size](_ => []);
    var i := 0;
    while i < |edges|
      invariant 0 <= i <= |edges|
      invariant forall j :: 0 <= j < i ==> 0 <= edges[j].0 < size && 0 <= edges[j].1 < size
      invariant forall u :: 0 <= u < size ==> g[u] == Interleaved(edges[..i], u)
    {
      var fr, to := edges[i].0, edges[i].1;
      assert edges[..i + 1][..i] == edges[..i];
      if !(0 <= fr < size) {
        assert 0 <= i < |edges| && fr == edges[i].0;
        return KeyError(fr);
      }
      g[fr] := g[fr] + [to];
      if to == fr {
        // don't enter a self-loop twice
        i := i + 1;
        continue;
      }
      if !(0 <= to < size) {
        assert 0 <= i < |edges| && to == edges[i].1;
        return KeyError(to);
      }
      g[to] := g[to] + [fr];
      i := i + 1;
    }
    assert edges[..|edges|] == edges;
    r := Built(g[..]);
  }

  /** Every entry the builder records is a node. */
  lemma {:induction false} AdjacencyNodes(n: int, edges: seq<Edge>)
    requires EdgesInRange(n, edges)
    ensures |Adjacency(n, edges)| == NodeCount(n)
    ensures WellFormed(Adjacency(n, edges))
  {
    var g := Adjacency(n, edges);
    forall u, i | 0 <= u < |g| && 0 <= i < |g[u]|
      ensures 0 <= g[u][i] < |g|
    {
      ForwardReverseNodes(n, edges, u);
      assert g[u][i] in Forward(edges, u) + Reverse(edges, u);
    }
  }

  lemma {:induction false} ForwardReverseNodes(n: int, edges: seq<Edge>, u: int)
    requires EdgesInRange(n, edges)
    ensures forall w :: w in Forward(edges, u) ==> 0 <= w < n
    ensures forall w :: w in Reverse(edges, u) ==> 0 <= w < n
  {
    if edges != [] {
      var init := edges[..|edges| - 1];
      assert EdgesInRange(n, init) by {
        forall i | 0 <= i < |init| ensures 0 <= init[i].0 < n && 0 <= init[i].1 < n {
          assert init[i] == edges[i];
        }
      }
      ForwardReverseNodes(n, init, u);
      var e := edges[|edges| - 1];
      assert 0 <= e.0 < n && 0 <= e.1 < n;
    }
  }

  /** v is recorded in u's list exactly when some edge joins u and v, in either direction. */
  lemma {:induction false} AdjacencyMembership(edges: seq<Edge>, u: int, v: int)
    ensures v in Forward(edges, u) + Reverse(edges, u) <==>
            exists i :: 0 <= i < |edges| && (edges[i] == (u, v) || edges[i] == (v, u))
  {
    if edges != [] {
      var init := edges[..|edges| - 1];
      var e := edges[|edges| - 1];
      AdjacencyMembership(init, u, v);
      if v in Forward(edges, u) + Reverse(edges, u) {
        if !(v in Forward(init, u) + Reverse(init, u)) {
          assert e == (u, v) || e == (v, u);
          assert edges[|edges| - 1] == e;
        } else {
          var i :| 0 <= i < |init| && (init[i] == (u, v) || init[i] == (v, u));
          assert edges[i] == init[i];
        }
      } else {
        forall i | 0 <= i < |edges| ensures !(edges[i] == (u, v) || edges[i] == (v, u)) {
          if i < |init| {
            assert edges[i] == init[i];
          }
        }
      }
    }
  }

  /** The builder's lists are symmetric: each edge is counted once from either end. */
  lemma {:induction false} AdjacencyCountSymmetric(edges: seq<Edge>, u: int, v: int)
    ensures multiset(Forward(edges, u) + Reverse(edges, u))[v] ==
            multiset(Forward(edges, v) + Reverse(edges, v))[u]
  {
    if edges != [] {
      AdjacencyCountSymmetric(edges[..|edges| - 1], u, v);
      CountStep(edges, u, v);
      CountStep(edges, v, u);
    }
  }

  /** How often the last edge e adds v to u's list: once for e = (u, v), once more for
      e = (v, u) unless it is a self-loop. */
  function LastEdgeCount(e: Edge, u: int, v: int): nat
  {
    (if e == (u, v) then 1 else 0) + (if e == (v, u) && v != u then 1 else 0)
  }

  lemma CountStep(edges: seq<Edge>, u: int, v: int)
    requires edges != []
    ensures var init := edges[..|edges| - 1];
            multiset(Forward(edges, u) + Reverse(edges, u))[v] ==
            multiset(Forward(init, u) + Reverse(init, u))[v] + LastEdgeCount(edges[|edges| - 1], u, v)
  {
    var init := edges[..|edges| - 1];
    StepCount(Forward(init, u), Reverse(init, u), edges[|edges| - 1], u, v);
  }

  lemma StepCount(f: seq<int>, r: seq<int>, e: Edge, u: int, v: int)
    ensures multiset((f + (if e.0 == u then [e.1] else [])) +
                     (r + (if e.1 == u && e.0 != e.1 then [e.0] else [])))[v] ==
            multiset(f + r)[v] + LastEdgeCount(e, u, v)
  {
    var a := if e.0 == u then [e.1] else [];
    var b := if e.1 == u && e.0 != e.1 then [e.0] else [];
    assert multiset((f + a) + (r + b)) == multiset(f + r) + multiset(a) + multiset(b);
  }

  lemma AdjacencySymmetric(n: int, edges: seq<Edge>)
    ensures Symmetric(Adjacency(n, edges))
  {
    var g := Adjacency(n, edges);
    forall u, v | 0 <= u < |g| && 0 <= v < |g|
      ensures multiset(g[u])[v] == multiset(g[v])[u]
    {
      AdjacencyCountSymmetric(edges, u, v);
    }
  }

  /** The two builders record the same neighbours, only in a different order. */
  lemma {:induction false} InterleavedSameNeighbours(edges: seq<Edge>, u: int)
    ensures multiset(Interleaved(edges, u)) == multiset(Forward(edges, u) + Reverse(edges, u))
  {
    if edges != [] {
      InterleavedSameNeighbours(edges[..|edges| - 1], u);
    }
  }

  /** The lists hold 2·|edges| − #self-loops entries in all. */
  lemma {:induction false} AdjacencyTotalLength(n: int, edges: seq<Edge>)
    requires EdgesInRange(n, edges)
    ensures SumLengths(Adjacency(n, edges)) == 2 * |edges| - SelfLoops(edges)
  {
    if edges == [] {
      var g := Adjacency(n, edges);
      SumLengthsEmpty(g);
    } else {
      var init := edges[..|edges| - 1];
      var e := edges[|edges| - 1];
      assert EdgesInRange(n, init) by {
        forall i | 0 <= i < |init| ensures 0 <= init[i].0 < n && 0 <= init[i].1 < n {
          assert init[i] == edges[i];
        }
      }
      AdjacencyTotalLength(n, init);
      var g, h := Adjacency(n, init), Adjacency(n, edges);
      SumLengthsBump(g, h, e.0, e.1);
    }
  }

  lemma {:induction false} SumLengthsEmpty(g: seq<seq<int>>)
    requires forall u :: 0 <= u < |g| ==> g[u] == []
    ensures SumLengths(g) == 0
  {
    if g != [] {
      SumLengthsEmpty(g[..|g| - 1]);
    }
  }

  /** Adding one entry to the list of a and (when b differs) one to the list of b
      adds that many entries in all. */
  lemma {:induction false} SumLengthsBump(g: seq<seq<int>>, h: seq<seq<int>>, a: int, b: int)
    requires |g| == |h|
    requires forall u :: 0 <= u < |g| ==>
      |h[u]| == |g[u]| + (if u == a then 1 else 0) + (if u == b && a != b then 1 else 0)
    ensures SumLengths(h) == SumLengths(g) + (if 0 <= a < |g| then 1 else 0)
                                           + (if 0 <= b < |g| && a != b then 1 else 0)
  {
    if g != [] {
      SumLengthsBump(g[..|g| - 1], h[..|h| - 1], a, b);
    }
  }
}
