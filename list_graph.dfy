/** The undirected graph of `ud_graph.py` as a value: a dictionary from vertex
    label to the list of its neighbours, with the dictionary's key order kept
    beside it, because Python dictionaries iterate in insertion order and
    `get_vertices`, `get_edges` and the whole-graph scans follow that order.
    The module defines the operations that change the graph, walks,
    reachability, connected components and cycles, and proves what each
    operation does to the edge relation and what the scans of the class rely on. */
module ListGraph {
  import opened Common

  /** `adj` is the adjacency dictionary, `keys` its keys in insertion order. */
  datatype Graph = Graph(adj: map<int, seq<int>>, keys: seq<int>)

  /** There is an edge between u and v (listed at u). */
  predicate Adjacent(g: Graph, u: int, v: int) {
    u in g.adj && v in g.adj[u]
  }

  /** What every method keeps: each vertex occurs once in the key order,
      neighbour lists have no duplicates and no loops, and an edge is listed
      at both of its ends. */
  ghost predicate WellFormed(g: Graph) {
    Distinct(g.keys)
    && (forall v :: v in g.adj <==> v in g.keys)
    && (forall v :: v in g.adj ==> Distinct(g.adj[v]))
    && Loopless(g) && NeighboursAreVertices(g) && Symmetric(g)
  }

  /** No vertex is its own neighbour. */
  ghost predicate Loopless(g: Graph) {
    forall v :: v in g.adj ==> v !in g.adj[v]
  }

  /** Every listed neighbour is a vertex. */
  ghost predicate NeighboursAreVertices(g: Graph) {
    forall u, v :: Adjacent(g, u, v) ==> v in g.adj
  }

  /** Every edge is listed at both of its ends. */
  ghost predicate Symmetric(g: Graph) {
    forall u, v :: Adjacent(g, u, v) ==> Adjacent(g, v, u)
  }

  /** The graph with no vertices. */
  function Empty(): (r: Graph)
    ensures WellFormed(r)
    ensures forall v :: v !in r.adj
  {
    Graph(map[], [])
  }

  // ------------------------------------------------------------------
  // Operations that change the graph
  // ------------------------------------------------------------------

  /** `add_vertex(v)`: a new vertex without edges, appended to the key order;
      nothing changes when v is already a vertex. */
  function WithVertex(g: Graph, v: int): (r: Graph)
    requires WellFormed(g)
    ensures WellFormed(r)
    ensures forall x :: x in r.adj <==> x in g.adj || x == v
    ensures forall a, b :: Adjacent(r, a, b) <==> Adjacent(g, a, b)
    ensures v in g.adj ==> r == g
    ensures v !in g.adj ==> r.keys == g.keys + [v] && r.adj[v] == []
  {
    if v in g.adj then g else
      var r := Graph(g.adj[v := []], g.keys + [v]);
      assert forall a, b :: Adjacent(r, a, b) <==> Adjacent(g, a, b);
      assert WellFormed(r) by {
        forall a, b | Adjacent(r, a, b) ensures b in r.adj && Adjacent(r, b, a) {
          assert Adjacent(g, a, b);
        }
      }
      r
  }

  /** `add_edge(u, v)`: the edge between u and v, adding missing end points
      first; a loop (u == v) is refused and an existing edge is not doubled. */
  function WithEdge(g: Graph, u: int, v: int): (r: Graph)
    requires WellFormed(g)
    ensures WellFormed(r)
    ensures forall x :: x in r.adj <==> x in g.adj || (u != v && (x == u || x == v))
    ensures forall a, b :: Adjacent(r, a, b) <==>
              Adjacent(g, a, b) || (u != v && ((a == u && b == v) || (a == v && b == u)))
  {
    if u == v then g else
      var h := WithVertex(WithVertex(g, u), v);
      if u in h.adj[v] then h else
        assert !Adjacent(h, u, v) by {
          assert !Adjacent(h, v, u);
        }
        Joined(h, u, v);
        Graph(h.adj[u := h.adj[u] + [v]][v := h.adj[v] + [u]], h.keys)
  }

  /** Appending v to the list of u and u to the list of v joins them and
      keeps the graph well formed. */
  lemma Joined(h: Graph, u: int, v: int)
    requires WellFormed(h) && u in h.adj && v in h.adj && u != v
    requires v !in h.adj[u] && u !in h.adj[v]
    ensures var r := Graph(h.adj[u := h.adj[u] + [v]][v := h.adj[v] + [u]], h.keys);
      && WellFormed(r)
      && (forall x :: x in r.adj <==> x in h.adj)
      && (forall a, b :: Adjacent(r, a, b) <==> Adjacent(h, a, b) || (a == u && b == v) || (a == v && b == u))
  {
    var r := Graph(h.adj[u := h.adj[u] + [v]][v := h.adj[v] + [u]], h.keys);
    assert forall a, b :: Adjacent(r, a, b) <==>
             Adjacent(h, a, b) || (a == u && b == v) || (a == v && b == u);
    forall a, b | Adjacent(r, a, b) ensures b in r.adj && Adjacent(r, b, a) {
      if !((a == u && b == v) || (a == v && b == u)) {
        assert Adjacent(h, a, b);
      }
    }
    forall x | x in r.adj ensures Distinct(r.adj[x]) && x !in r.adj[x] {
      assert x in h.adj;
    }
  }

  /** `remove_edge(v, u)`: drops the edge between v and u if both are vertices
      and the edge exists; the vertices stay. */
  function WithoutEdge(g: Graph, v: int, u: int): (r: Graph)
    requires WellFormed(g)
    ensures WellFormed(r)
    ensures r.keys == g.keys
    ensures forall x :: x in r.adj <==> x in g.adj
    ensures forall a, b :: Adjacent(r, a, b) <==>
              Adjacent(g, a, b) && !((a == u && b == v) || (a == v && b == u))
  {
    if u !in g.adj || v !in g.adj || u !in g.adj[v] then g else
      assert Adjacent(g, v, u);
      var r := Graph(g.adj[u := RemoveFirst(g.adj[u], v)][v := RemoveFirst(g.adj[v], u)], g.keys);
      assert forall a, b :: Adjacent(r, a, b) <==>
               Adjacent(g, a, b) && !((a == u && b == v) || (a == v && b == u));
      assert WellFormed(r) by {
        forall a, b | Adjacent(r, a, b) ensures b in r.adj && Adjacent(r, b, a) {
          assert Adjacent(g, a, b);
        }
      }
      r
  }

  /** `remove_vertex(v)`: v leaves the dictionary and every neighbour list. */
  function WithoutVertex(g: Graph, v: int): (r: Graph)
    requires WellFormed(g)
    ensures WellFormed(r)
    ensures forall x :: x in r.adj <==> x in g.adj && x != v
    ensures forall a, b :: Adjacent(r, a, b) <==> Adjacent(g, a, b) && a != v && b != v
  {
    if v !in g.adj then g else
      var r := Graph(map k | k in g.adj && k != v :: Discard(g.adj[k], v), RemoveFirst(g.keys, v));
      assert forall x :: x in r.adj <==> x in r.keys;
      assert forall a, b :: Adjacent(r, a, b) <==> Adjacent(g, a, b) && a != v && b != v;
      assert WellFormed(r) by {
        forall a, b | Adjacent(r, a, b) ensures b in r.adj && Adjacent(r, b, a) {
          assert Adjacent(g, a, b);
        }
      }
      r
  }

  /** The constructor: `add_edge` applied to each pair in turn. */
  function FromPairs(edges: seq<(int, int)>): (r: Graph)
    ensures WellFormed(r)
  {
    if edges == [] then Empty() else
      var e := edges[|edges| - 1];
      WithEdge(FromPairs(edges[..|edges| - 1]), e.0, e.1)
  }

  /** The pair at position k joins a and b (in either direction) and is not a loop. */
  predicate Joins(edges: seq<(int, int)>, k: int, a: int, b: int) {
    0 <= k < |edges| && edges[k].0 != edges[k].1
    && ((edges[k].0 == a && edges[k].1 == b) || (edges[k].0 == b && edges[k].1 == a))
  }

  /** The graph built from a list of pairs has exactly the edges the list
      names, loops left out. */
  lemma {:induction false} FromPairsEdges(edges: seq<(int, int)>)
    ensures forall a, b :: Adjacent(FromPairs(edges), a, b) <==> exists k :: Joins(edges, k, a, b)
  {
    if edges != [] {
      var n := |edges| - 1;
      var front := edges[..n];
      var e := edges[n];
      FromPairsEdges(front);
      var h := FromPairs(front);
      assert FromPairs(edges) == WithEdge(h, e.0, e.1);
      forall a, b ensures Adjacent(FromPairs(edges), a, b) <==> exists k :: Joins(edges, k, a, b) {
        assert Adjacent(FromPairs(edges), a, b) <==> Adjacent(h, a, b) || Joins(edges, n, a, b);
        if Adjacent(h, a, b) {
          var k :| Joins(front, k, a, b);
          assert Joins(edges, k, a, b);
        }
        if k :| Joins(edges, k, a, b) && k < n {
          assert Joins(front, k, a, b);
        }
      }
    }
  }

  /** The vertices of the graph built from a list of pairs are exactly the
      end points of its pairs that are not loops. */
  lemma {:induction false} FromPairsVertices(edges: seq<(int, int)>)
    ensures forall x :: x in FromPairs(edges).adj <==> exists k, y :: Joins(edges, k, x, y)
  {
    if edges != [] {
      FromPairsVertices(edges[..|edges| - 1]);
      forall x ensures x in FromPairs(edges).adj <==> exists k, y :: Joins(edges, k, x, y) {
        FromPairsVertex(edges, x);
      }
    }
  }

  /** The vertices after the last pair: those before, and its two end
      points unless it is a loop. */
  lemma FromPairsLast(edges: seq<(int, int)>, x: int)
    requires edges != []
    ensures var e := edges[|edges| - 1];
      x in FromPairs(edges).adj <==> x in FromPairs(edges[..|edges| - 1]).adj || (e.0 != e.1 && (x == e.0 || x == e.1))
  {
  }

  /** One pair more, for one vertex x. */
  lemma FromPairsVertex(edges: seq<(int, int)>, x: int)
    requires edges != []
    requires var front := edges[..|edges| - 1];
      x in FromPairs(front).adj <==> exists k, y :: Joins(front, k, x, y)
    ensures x in FromPairs(edges).adj <==> exists k, y :: Joins(edges, k, x, y)
  {
    FromPairsLast(edges, x);
    JoinsLast(edges, x);
  }

  /** x is an end point of a pair of the list exactly when it is one of an
      earlier pair or of the last one. */
  lemma JoinsLast(edges: seq<(int, int)>, x: int)
    requires edges != []
    ensures var n, e := |edges| - 1, edges[|edges| - 1];
      (exists k, y :: Joins(edges, k, x, y)) <==>
        (exists k, y :: Joins(edges[..n], k, x, y)) || (e.0 != e.1 && (x == e.0 || x == e.1))
  {
    var n := |edges| - 1;
    var front := edges[..n];
    var e := edges[n];
    if k, y :| Joins(front, k, x, y) {
      assert Joins(edges, k, x, y);
    }
    if e.0 != e.1 && x == e.0 {
      assert Joins(edges, n, x, e.1);
    }
    if e.0 != e.1 && x == e.1 {
      assert Joins(edges, n, x, e.0);
    }
    if k, y :| Joins(edges, k, x, y) && k < n {
      assert Joins(front, k, x, y);
    }
  }

  // ------------------------------------------------------------------
  // Walks and reachability
  // ------------------------------------------------------------------

  /** `is_valid_path`: every listed vertex exists and each consecutive pair is
      joined by an edge; the empty path is valid. */
  predicate ValidPath(g: Graph, p: seq<int>) {
    (forall i :: 0 <= i < |p| ==> p[i] in g.adj)
    && forall i :: 0 < i < |p| ==> Adjacent(g, p[i - 1], p[i])
  }

  /** p is a walk from u to v. */
  predicate IsWalk(g: Graph, p: seq<int>, u: int, v: int) {
    |p| > 0 && p[0] == u && p[|p| - 1] == v && ValidPath(g, p)
  }

  ghost predicate Reachable(g: Graph, u: int, v: int) {
    exists p :: IsWalk(g, p, u, v)
  }

  /** v is reachable from u by a walk that does not pass through `end`
      (it may stop there). */
  ghost predicate ReachableAvoiding(g: Graph, u: int, v: int, end: Option<int>) {
    exists p :: IsWalk(g, p, u, v) && AvoidsUntilLast(p, end)
  }

  /** A search with end vertex `end` from u never meets it: no end was given,
      or it cannot be reached. */
  ghost predicate EndUnreached(g: Graph, u: int, end: Option<int>) {
    end == None || !Reachable(g, u, end.value)
  }

  lemma ReachableAvoidingStart(g: Graph, u: int, end: Option<int>)
    requires u in g.adj
    ensures ReachableAvoiding(g, u, u, end)
  {
    assert IsWalk(g, [u], u, u) && AvoidsUntilLast([u], end);
  }

  /** One more edge from a vertex other than `end` extends a walk avoiding `end`. */
  lemma ReachableAvoidingStep(g: Graph, s: int, u: int, w: int, end: Option<int>)
    requires WellFormed(g)
    requires ReachableAvoiding(g, s, u, end) && Some(u) != end && Adjacent(g, u, w)
    ensures ReachableAvoiding(g, s, w, end)
  {
    var p :| IsWalk(g, p, s, u) && AvoidsUntilLast(p, end);
    var q := p + [w];
    assert IsWalk(g, q, s, w) && AvoidsUntilLast(q, end);
  }

  lemma ReachableFromAvoiding(g: Graph, u: int, v: int, end: Option<int>)
    requires ReachableAvoiding(g, u, v, end)
    ensures Reachable(g, u, v)
  {
  }

  /** A set of vertices that contains s and every neighbour of its members
      contains every vertex reachable from s. */
  lemma ClosedContainsReachable(g: Graph, s: int, r: seq<int>, v: int)
    requires s in r
    requires forall x, w :: x in r && Adjacent(g, x, w) ==> w in r
    requires Reachable(g, s, v)
    ensures v in r
  {
    var p :| IsWalk(g, p, s, v);
    var i := 0;
    while i < |p| - 1
      invariant 0 <= i < |p| && p[i] in r
    {
      assert Adjacent(g, p[i], p[i + 1]);
      i := i + 1;
    }
  }

  /** Edges go both ways, so walks can be reversed. */
  lemma {:induction false} ReachableSymmetric(g: Graph, u: int, v: int)
    requires WellFormed(g) && Reachable(g, u, v)
    ensures Reachable(g, v, u)
  {
    var p :| IsWalk(g, p, u, v);
    var q := Reverse(p);
    forall i | 0 < i < |q| ensures Adjacent(g, q[i - 1], q[i]) {
      assert Adjacent(g, p[|p| - 1 - i], p[|p| - i]);
    }
    assert IsWalk(g, q, v, u);
  }

  lemma ReachableTransitive(g: Graph, u: int, v: int, w: int)
    requires Reachable(g, u, v) && Reachable(g, v, w)
    ensures Reachable(g, u, w)
  {
    var p :| IsWalk(g, p, u, v);
    var q :| IsWalk(g, q, v, w);
    var r := p + q[1..];
    forall i | 0 < i < |r| ensures Adjacent(g, r[i - 1], r[i]) {
      if i >= |p| {
        assert r[i - 1] == q[i - |p|] && r[i] == q[i - |p| + 1];
      }
    }
    assert IsWalk(g, r, u, w);
  }

  // ------------------------------------------------------------------
  // Connected components
  // ------------------------------------------------------------------

  /** The vertices reachable from v. */
  ghost function Component(g: Graph, v: int): set<int> {
    set u | u in g.adj.Keys && Reachable(g, v, u)
  }

  /** The connected components of the graph. */
  ghost function Components(g: Graph): set<set<int>> {
    set v | v in g.adj.Keys :: Component(g, v)
  }

  /** The components of the vertices in R. */
  ghost function ComponentsOf(g: Graph, R: set<int>): set<set<int>> {
    set v | v in R :: Component(g, v)
  }

  /** The vertices that are not in `rest`. */
  ghost function Outside(g: Graph, rest: seq<int>): set<int> {
    set v | v in g.adj.Keys && v !in rest
  }

  /** No vertex outside `rest` reaches a vertex in `rest`: the vertices
      outside form whole components. */
  ghost predicate WholeComponentsOutside(g: Graph, rest: seq<int>) {
    forall v, u :: v in g.adj && v !in rest && Reachable(g, v, u) ==> u !in rest
  }

  /** Vertices joined by a walk have the same component. */
  lemma SameComponent(g: Graph, u: int, v: int)
    requires WellFormed(g) && Reachable(g, u, v)
    ensures Component(g, u) == Component(g, v)
  {
    ReachableSymmetric(g, u, v);
    forall w | Reachable(g, v, w) ensures Reachable(g, u, w) {
      ReachableTransitive(g, u, v, w);
    }
    forall w | Reachable(g, u, w) ensures Reachable(g, v, w) {
      ReachableTransitive(g, v, u, w);
    }
  }

  /** Removing from `rest` the component of one of its vertices x adds exactly
      one new component to those outside `rest`. */
  lemma {:induction false} RemoveComponent(g: Graph, rest: seq<int>, x: int, rest': seq<int>)
    requires WellFormed(g) && x in rest && x in g.adj
    requires WholeComponentsOutside(g, rest)
    requires forall y :: y in rest' <==> y in rest && y !in Component(g, x)
    ensures WholeComponentsOutside(g, rest')
    ensures |ComponentsOf(g, Outside(g, rest'))| == |ComponentsOf(g, Outside(g, rest))| + 1
  {
    var C := Component(g, x);
    var R := Outside(g, rest);
    assert IsWalk(g, [x], x, x);
    assert x in C;
    forall v, u | v in g.adj && v !in rest' && Reachable(g, v, u) ensures u !in rest' {
      if v in rest {
        assert v in C;
        ReachableTransitive(g, x, v, u);
        var p :| IsWalk(g, p, v, u);
        assert u in g.adj;
      }
    }
    forall y ensures y in Outside(g, rest') <==> y in R + C {
      if y in C {
        var p :| IsWalk(g, p, x, y);
      }
    }
    assert Outside(g, rest') == R + C;
    forall y | y in C ensures Component(g, y) == C {
      SameComponent(g, x, y);
    }
    assert ComponentsOf(g, R + C) == ComponentsOf(g, R) + {C};
    assert C !in ComponentsOf(g, R);
  }

  // ------------------------------------------------------------------
  // Cycles
  // ------------------------------------------------------------------

  /** c lists the vertices of a cycle: at least three distinct vertices, each
      joined to the next and the last to the first. */
  predicate IsCycle(g: Graph, c: seq<int>) {
    |c| >= 3 && Distinct(c) && ValidPath(g, c) && Adjacent(g, c[|c| - 1], c[0])
  }

  ghost predicate Cyclic(g: Graph) {
    exists c :: IsCycle(g, c)
  }

  /** How many entries of s occur in l: the loop over the banned list in
      `has_cycle` lowers the score by this much. */
  function CountIn(s: seq<int>, l: seq<int>): (n: nat)
    ensures n <= |s|
  {
    if s == [] then 0 else CountIn(s[..|s| - 1], l) + (if s[|s| - 1] in l then 1 else 0)
  }

  lemma {:induction false} CountInCard(s: seq<int>, l: seq<int>)
    requires Distinct(s)
    ensures CountIn(s, l) == |Elems(s) * Elems(l)|
  {
    if s != [] {
      var t := s[..|s| - 1];
      var x := s[|s| - 1];
      assert Distinct(t);
      CountInCard(t, l);
      var L := Elems(l);
      var A := Elems(t) * L;
      var B := Elems(s) * L;
      assert s == t + [x];
      forall y ensures y in B <==> y in A || (y == x && x in l) {
        assert y in s <==> y in t || y == x;
      }
      if x in l {
        assert x !in A;
        assert B == A + {x};
      } else {
        assert B == A;
      }
    }
  }

  /** x has at most one neighbour outside `banned`. */
  ghost predicate AtMostOneFree(g: Graph, x: int, banned: seq<int>) {
    forall a, b :: Adjacent(g, x, a) && Adjacent(g, x, b) && a !in banned && b !in banned ==> a == b
  }

  /** x has two different neighbours outside `banned`. */
  ghost predicate TwoFree(g: Graph, x: int, banned: seq<int>) {
    exists a, b :: a != b && Adjacent(g, x, a) && Adjacent(g, x, b) && a !in banned && b !in banned
  }

  /** The entries of l that are not banned, in order. */
  function Unbanned(l: seq<int>, banned: seq<int>): (r: seq<int>)
    ensures forall x :: x in r <==> x in l && x !in banned
    ensures Distinct(l) ==> Distinct(r)
  {
    if l == [] then [] else
      var t := Unbanned(l[1..], banned);
      assert Distinct(l) ==> l[0] !in l[1..] && Distinct(l[1..]);
      (if l[0] in banned then [] else [l[0]]) + t
  }

  /** The score of `has_cycle` (neighbour count minus banned neighbours)
      counts the neighbours that are not banned. */
  lemma FreeCount(l: seq<int>, banned: seq<int>)
    requires Distinct(l) && Distinct(banned)
    ensures |l| - CountIn(banned, l) == |Unbanned(l, banned)|
  {
    var u := Unbanned(l, banned);
    CountInCard(banned, l);
    DistinctCard(l);
    DistinctCard(u);
    var L := Elems(l);
    var B := Elems(banned);
    assert Elems(u) == L - B;
    assert L == (L - B) + L * B && (L - B) * (L * B) == {};
    assert B * L == L * B;
  }

  lemma SingleEntry(u: seq<int>, a: int, b: int)
    requires |u| <= 1 && a in u && b in u
    ensures a == b
  {
  }

  /** The score of `has_cycle` is at most one exactly when at most one
      neighbour is not banned. */
  lemma ScoreMeaning(g: Graph, x: int, banned: seq<int>)
    requires x in g.adj && Distinct(g.adj[x]) && Distinct(banned)
    ensures |g.adj[x]| - CountIn(banned, g.adj[x]) <= 1 ==> AtMostOneFree(g, x, banned)
    ensures |g.adj[x]| - CountIn(banned, g.adj[x]) > 1 ==> TwoFree(g, x, banned)
  {
    var l := g.adj[x];
    var u := Unbanned(l, banned);
    FreeCount(l, banned);
    if |u| <= 1 {
      forall a, b | Adjacent(g, x, a) && Adjacent(g, x, b) && a !in banned && b !in banned
        ensures a == b
      {
        assert a in u && b in u;
        SingleEntry(u, a, b);
      }
    } else {
      assert u[0] in u && u[1] in u;
      assert Adjacent(g, x, u[0]) && Adjacent(g, x, u[1]);
    }
  }

  /** Each vertex of `order` has at most one neighbour that does not come
      before it: the order in which `has_cycle` removes vertices. */
  ghost predicate PeelOrder(g: Graph, order: seq<int>) {
    forall k, a, b ::
      (0 <= k < |order| && Adjacent(g, order[k], a) && Adjacent(g, order[k], b)
       && a !in order[..k] && b !in order[..k]) ==> a == b
  }

  lemma PeelOrderExtend(g: Graph, order: seq<int>, x: int)
    requires PeelOrder(g, order) && AtMostOneFree(g, x, order)
    ensures PeelOrder(g, order + [x])
  {
    var o := order + [x];
    forall k, a, b | 0 <= k < |o| && Adjacent(g, o[k], a) && Adjacent(g, o[k], b)
                     && a !in o[..k] && b !in o[..k]
      ensures a == b
    {
      if k < |order| {
        assert o[..k] == order[..k];
      } else {
        assert o[..k] == order;
      }
    }
  }

  /** Among the vertices of c, all listed in `order`, one comes first. */
  lemma {:induction false} EarliestOf(order: seq<int>, c: seq<int>) returns (i: nat)
    requires |c| > 0 && forall j :: 0 <= j < |c| ==> c[j] in order
    ensures i < |c|
    ensures forall j :: 0 <= j < |c| ==> IndexOf(order, c[i]) <= IndexOf(order, c[j])
  {
    if |c| == 1 {
      i := 0;
    } else {
      var k := EarliestOf(order, c[..|c| - 1]);
      assert forall j :: 0 <= j < |c| - 1 ==> c[..|c| - 1][j] == c[j];
      if IndexOf(order, c[k]) <= IndexOf(order, c[|c| - 1]) {
        i := k;
      } else {
        i := |c| - 1;
      }
    }
  }

  /** A cycle cannot lie among vertices removed in a peel order: the first
      of its vertices to go would still have both of its cycle neighbours. */
  lemma NotPeeledCycle(g: Graph, order: seq<int>, c: seq<int>)
    requires Symmetric(g) && PeelOrder(g, order)
    requires forall v :: v in g.adj ==> v in order
    ensures !IsCycle(g, c)
  {
    if IsCycle(g, c) {
      var n := |c|;
      forall j | 0 <= j < n ensures c[j] in order {
        var v := c[j];
        assert v in g.adj;
      }
      var i := EarliestOf(order, c);
      var x := c[i];
      var k := IndexOf(order, x);
      var a := if i + 1 < n then c[i + 1] else c[0];
      var b := if i > 0 then c[i - 1] else c[n - 1];
      assert Adjacent(g, x, a) by {
        if i + 1 < n { assert Adjacent(g, c[i], c[i + 1]); }
      }
      assert Adjacent(g, b, x) by {
        if i > 0 { assert Adjacent(g, c[i - 1], c[i]); }
      }
      assert a != b && a != x && b != x;
      if a in order[..k] {
        IndexOfBefore(order, a, k);
      }
      if b in order[..k] {
        IndexOfBefore(order, b, k);
      }
      assert false;
    }
  }

  /** A graph whose vertices can all be removed one at a time, each with at
      most one neighbour left, has no cycle. */
  lemma PeelOrderAcyclic(g: Graph, order: seq<int>)
    requires WellFormed(g) && PeelOrder(g, order)
    requires forall v :: v in g.adj ==> v in order
    ensures !Cyclic(g)
  {
    forall c ensures !IsCycle(g, c) {
      NotPeeledCycle(g, order, c);
    }
  }

  /** Every vertex of S has two different neighbours in S. */
  ghost predicate Branching(g: Graph, x: int, S: set<int>) {
    exists a, b :: a != b && Adjacent(g, x, a) && Adjacent(g, x, b) && a in S && b in S
  }

  /** A duplicate-free walk whose last vertex is joined to its i-th vertex,
      at least two places back, closes a cycle from there on. */
  lemma ClosingCycle(g: Graph, p: seq<int>, i: nat)
    requires ValidPath(g, p) && Distinct(p)
    requires i + 3 <= |p| && Adjacent(g, p[|p| - 1], p[i])
    ensures IsCycle(g, p[i..])
  {
    var c := p[i..];
    forall j | 0 < j < |c| ensures Adjacent(g, c[j - 1], c[j]) {
      assert c[j - 1] == p[i + j - 1] && c[j] == p[i + j];
    }
    forall j | 0 <= j < |c| ensures c[j] in g.adj {
      assert c[j] == p[i + j];
    }
  }

  lemma ExtendWalk(g: Graph, p: seq<int>, w: int)
    requires ValidPath(g, p) && |p| >= 1 && Adjacent(g, p[|p| - 1], w) && w in g.adj
    ensures ValidPath(g, p + [w])
  {
    var q := p + [w];
    forall j | 0 < j < |q| ensures Adjacent(g, q[j - 1], q[j]) {
      if j < |p| {
        assert q[j - 1] == p[j - 1] && q[j] == p[j];
      }
    }
  }

  /** From the last vertex of p, a neighbour in S other than the vertex
      before it. */
  lemma NextStep(g: Graph, S: set<int>, p: seq<int>) returns (w: int)
    requires Loopless(g) && |p| >= 1 && Branching(g, p[|p| - 1], S)
    ensures Adjacent(g, p[|p| - 1], w) && w in S && w != p[|p| - 1]
    ensures |p| >= 2 ==> w != p[|p| - 2]
  {
    var x := p[|p| - 1];
    var a, b :| a != b && Adjacent(g, x, a) && Adjacent(g, x, b) && a in S && b in S;
    w := if |p| >= 2 && a == p[|p| - 2] then b else a;
  }

  /** Walking inside S without turning straight back, a duplicate-free walk
      must eventually meet itself again, and closes a cycle of length at least
      three. */
  lemma {:induction false} CycleFromBranching(g: Graph, S: set<int>, p: seq<int>) returns (c: seq<int>)
    requires Loopless(g) && NeighboursAreVertices(g)
    requires forall x {:trigger Branching(g, x, S)} :: x in S ==> Branching(g, x, S)
    requires |p| >= 1 && ValidPath(g, p) && Distinct(p)
    requires forall i :: 0 <= i < |p| ==> p[i] in S
    ensures IsCycle(g, c)
    decreases |S| - |p|
  {
    DistinctWithin(p, S);
    assert p[|p| - 1] in S;
    var w := NextStep(g, S, p);
    if w in p {
      var i := IndexOf(p, w);
      ClosingCycle(g, p, i);
      c := p[i..];
    } else {
      var q := p + [w];
      ExtendWalk(g, p, w);
      assert Distinct(q);
      assert forall j :: 0 <= j < |q| ==> q[j] in S;
      DistinctWithin(q, S);
      c := CycleFromBranching(g, S, q);
    }
  }

  /** A vertex with two neighbours outside `banned` has two neighbours among
      the remaining vertices. */
  lemma FreeIsBranching(g: Graph, rest: seq<int>, banned: seq<int>, x: int)
    requires NeighboursAreVertices(g)
    requires forall v :: v in g.adj <==> v in rest || v in banned
    requires x in rest && TwoFree(g, x, banned)
    ensures Branching(g, x, Elems(rest))
  {
    var a, b :| a != b && Adjacent(g, x, a) && Adjacent(g, x, b) && a !in banned && b !in banned;
    assert a in g.adj && b in g.adj;
  }

  lemma AllBranching(g: Graph, rest: seq<int>, banned: seq<int>)
    requires NeighboursAreVertices(g)
    requires forall v :: v in g.adj <==> v in rest || v in banned
    requires forall x {:trigger TwoFree(g, x, banned)} :: x in rest ==> TwoFree(g, x, banned)
    ensures forall x {:trigger Branching(g, x, Elems(rest))} :: x in Elems(rest) ==> Branching(g, x, Elems(rest))
  {
    forall x | x in Elems(rest) ensures Branching(g, x, Elems(rest)) {
      FreeIsBranching(g, rest, banned, x);
    }
  }

  /** If some vertices remain and each has two different neighbours outside
      `banned`, while the vertices split into `rest` and `banned`, then the
      graph has a cycle. */
  lemma BranchingCyclic(g: Graph, rest: seq<int>, banned: seq<int>)
    requires Loopless(g) && NeighboursAreVertices(g) && |rest| > 0
    requires forall v :: v in g.adj <==> v in rest || v in banned
    requires forall x {:trigger TwoFree(g, x, banned)} :: x in rest ==> TwoFree(g, x, banned)
    ensures Cyclic(g)
  {
    var S := Elems(rest);
    AllBranching(g, rest, banned);
    var x := rest[0];
    assert x in rest;
    assert x in g.adj && x in S;
    var c := CycleFromBranching(g, S, [x]);
  }
}
