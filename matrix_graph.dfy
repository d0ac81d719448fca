/** The directed weighted graph of d_graph.py, as values: the adjacency
    matrix and its invariant, the effect of each mutation on it, walks,
    reachability, cycles and walk weights, and the facts the traversals, the
    cycle check and Dijkstra's worklist rely on. */
module MatrixGraph {
  import opened Common

  /** Cell [u][v] is the weight of the edge u -> v; 0 means no edge. */
  type Matrix = seq<seq<int>>

  /** An edge-list entry (src, dst, weight), as the constructor takes it. */
  type Edge = (int, int, int)

  /** The class invariant: the matrix is square, its diagonal is 0 (no
      self-loops) and no cell is negative (0 or a positive weight). */
  predicate WellFormed(m: Matrix) {
    && (forall i :: 0 <= i < |m| ==> |m[i]| == |m|)
    && (forall i :: 0 <= i < |m| ==> m[i][i] == 0)
    && (forall i, j :: 0 <= i < |m| && 0 <= j < |m[i]| ==> m[i][j] >= 0)
  }

  /** The n-vertex graph without edges. */
  function Zeros(n: nat): (m: Matrix)
    ensures |m| == n && WellFormed(m)
    ensures forall i, j :: 0 <= i < n && 0 <= j < n ==> m[i][j] == 0
  {
    seq(n, i => seq(n, j => 0))
  }

  // ---------------------------------------------------------------------
  // Mutations

  /** Effect of add_vertex: every row gains a trailing 0 and an all-zero row
      is appended. */
  function WithVertex(m: Matrix): (r: Matrix)
    requires WellFormed(m)
    ensures |r| == |m| + 1 && WellFormed(r)
    ensures forall i, j :: 0 <= i < |m| && 0 <= j < |m| ==> r[i][j] == m[i][j]
    ensures forall k :: 0 <= k <= |m| ==> r[|m|][k] == 0 && r[k][|m|] == 0
  {
    seq(|m|, i requires 0 <= i < |m| => m[i] + [0]) + [seq(|m| + 1, j => 0)]
  }

  /** Adding a vertex to the n-vertex graph without edges gives the
      (n + 1)-vertex one. */
  lemma WithVertexOfZeros(n: nat)
    ensures WithVertex(Zeros(n)) == Zeros(n + 1)
  {
    var r, z := WithVertex(Zeros(n)), Zeros(n + 1);
    forall i | 0 <= i <= n ensures r[i] == z[i] {
    }
  }

  /** The guard of add_edge: a positive weight between two distinct
      vertices in range. */
  predicate AcceptsEdge(m: Matrix, src: int, dst: int, weight: int) {
    weight > 0 && 0 <= src < |m| && 0 <= dst < |m| && src != dst
  }

  /** Effect of add_edge: overwrite cell [src][dst] when the guard holds,
      otherwise nothing. */
  function WithEdge(m: Matrix, src: int, dst: int, weight: int): (r: Matrix)
    requires WellFormed(m)
    ensures |r| == |m| && WellFormed(r)
  {
    if AcceptsEdge(m, src, dst, weight) then m[src := m[src][dst := weight]] else m
  }

  /** Effect of remove_edge: zero cell [src][dst] when both are in range. */
  function WithoutEdge(m: Matrix, src: int, dst: int): (r: Matrix)
    requires WellFormed(m)
    ensures |r| == |m| && WellFormed(r)
  {
    if 0 <= src < |m| && 0 <= dst < |m| then m[src := m[src][dst := 0]] else m
  }

  /** add_edge changes at most the one cell: it holds the weight when the
      guard accepts, and every other cell is as before. */
  lemma WithEdgeCells(m: Matrix, src: int, dst: int, weight: int)
    requires WellFormed(m)
    ensures forall i, j :: 0 <= i < |m| && 0 <= j < |m| ==>
      WithEdge(m, src, dst, weight)[i][j]
        == if AcceptsEdge(m, src, dst, weight) && i == src && j == dst then weight else m[i][j]
  {
  }

  /** After an accepted add_edge, [src, dst] is a valid path. */
  lemma AddedEdgeIsPath(m: Matrix, src: int, dst: int, weight: int)
    requires WellFormed(m) && AcceptsEdge(m, src, dst, weight)
    ensures ValidPath(WithEdge(m, src, dst, weight), [src, dst])
    ensures WithEdge(m, src, dst, weight)[src][dst] == weight
  {
  }

  /** remove_edge changes at most the one cell, which becomes 0. */
  lemma WithoutEdgeCells(m: Matrix, src: int, dst: int)
    requires WellFormed(m)
    ensures forall i, j :: 0 <= i < |m| && 0 <= j < |m| ==>
      WithoutEdge(m, src, dst)[i][j]
        == if 0 <= src < |m| && 0 <= dst < |m| && i == src && j == dst then 0 else m[i][j]
    ensures !HasEdge(WithoutEdge(m, src, dst), src, dst)
  {
  }

  // ---------------------------------------------------------------------
  // The edge-list constructor

  /** The largest endpoint in an edge list, starting from 0, as the
      constructor's `max(v_count, u, v)` loop computes it. */
  function MaxEndpoint(edges: seq<Edge>): (r: nat)
    ensures forall k :: 0 <= k < |edges| ==> edges[k].0 <= r && edges[k].1 <= r
    ensures r == 0 || exists k :: 0 <= k < |edges| && (edges[k].0 == r || edges[k].1 == r)
  {
    if edges == [] then 0 else
      var e := edges[|edges| - 1];
      var prev := MaxEndpoint(edges[..|edges| - 1]);
      var r := if prev >= e.0 && prev >= e.1 then prev else if e.0 >= e.1 then e.0 else e.1;
      assert forall k :: 0 <= k < |edges| - 1 ==> edges[k] == edges[..|edges| - 1][k];
      r
  }

  /** The matrix after add_edge has been applied to every entry, in order. */
  function ApplyEdges(m: Matrix, edges: seq<Edge>): (r: Matrix)
    requires WellFormed(m)
    ensures |r| == |m| && WellFormed(r)
  {
    if edges == [] then m else
      var e := edges[|edges| - 1];
      WithEdge(ApplyEdges(m, edges[..|edges| - 1]), e.0, e.1, e.2)
  }

  /** MaxEndpoint of one more entry. */
  lemma MaxEndpointStep(edges: seq<Edge>, k: int)
    requires 0 <= k < |edges|
    ensures var prev, e := MaxEndpoint(edges[..k]), edges[k];
      MaxEndpoint(edges[..k + 1]) == if prev >= e.0 && prev >= e.1 then prev else if e.0 >= e.1 then e.0 else e.1
  {
    assert edges[..k + 1][..k] == edges[..k];
  }

  /** ApplyEdges of one more entry. */
  lemma ApplyEdgesStep(m: Matrix, edges: seq<Edge>, k: int)
    requires WellFormed(m) && 0 <= k < |edges|
    ensures ApplyEdges(m, edges[..k + 1]) == WithEdge(ApplyEdges(m, edges[..k]), edges[k].0, edges[k].1, edges[k].2)
  {
    assert edges[..k + 1][..k] == edges[..k];
  }

  /** The weight of the last entry for src -> dst with a positive weight; 0
      when there is none. */
  function LastWeight(edges: seq<Edge>, src: int, dst: int): (w: int)
    ensures w >= 0
    ensures w > 0 ==> exists k ::
      && 0 <= k < |edges| && edges[k] == (src, dst, w)
      && forall j :: k < j < |edges| && edges[j].0 == src && edges[j].1 == dst ==> edges[j].2 <= 0
    ensures w == 0 ==> forall k :: 0 <= k < |edges| && edges[k].0 == src && edges[k].1 == dst ==> edges[k].2 <= 0
  {
    if edges == [] then 0 else
      var e := edges[|edges| - 1];
      var prefix := edges[..|edges| - 1];
      assert forall k :: 0 <= k < |edges| - 1 ==> edges[k] == prefix[k];
      if e.0 == src && e.1 == dst && e.2 > 0 then e.2 else LastWeight(prefix, src, dst)
  }

  /** Round trip of the edge list: off the diagonal, each cell of the built
      matrix holds the last positive weight the list gives that pair, or its
      previous value when the list gives none. */
  lemma {:induction false} ApplyEdgesCell(m: Matrix, edges: seq<Edge>, src: int, dst: int)
    requires WellFormed(m)
    requires 0 <= src < |m| && 0 <= dst < |m| && src != dst
    ensures ApplyEdges(m, edges)[src][dst]
      == if LastWeight(edges, src, dst) > 0 then LastWeight(edges, src, dst) else m[src][dst]
  {
    if edges != [] {
      ApplyEdgesCell(m, edges[..|edges| - 1], src, dst);
    }
  }

  /** A graph built from an edge list has MaxEndpoint + 1 vertices, so every
      listed edge between distinct non-negative vertices with a positive
      weight is in range; its cells are exactly the list's last weights. */
  lemma BuiltFromEdges(edges: seq<Edge>)
    ensures var m := ApplyEdges(Zeros(MaxEndpoint(edges) + 1), edges);
      forall src, dst :: 0 <= src < |m| && 0 <= dst < |m| && src != dst ==>
        m[src][dst] == LastWeight(edges, src, dst)
    ensures var m := ApplyEdges(Zeros(MaxEndpoint(edges) + 1), edges);
      forall k :: 0 <= k < |edges| && edges[k].0 >= 0 && edges[k].1 >= 0 ==>
        edges[k].0 < |m| && edges[k].1 < |m|
  {
    var z := Zeros(MaxEndpoint(edges) + 1);
    forall src, dst | 0 <= src < |z| && 0 <= dst < |z| && src != dst
      ensures ApplyEdges(z, edges)[src][dst] == LastWeight(edges, src, dst)
    {
      ApplyEdgesCell(z, edges, src, dst);
    }
  }

  // ---------------------------------------------------------------------
  // Walks and reachability

  /** An edge u -> v exists (both in range, nonzero cell). */
  predicate HasEdge(m: Matrix, u: int, v: int) {
    0 <= u < |m| && 0 <= v < |m[u]| && m[u][v] != 0
  }

  /** The intended meaning of is_valid_path: every vertex is in range and
      every consecutive pair is an edge. True for [], and for a single
      vertex exactly when it is in range. */
  predicate ValidPath(m: Matrix, p: seq<int>) {
    && (forall i :: 0 <= i < |p| ==> 0 <= p[i] < |m|)
    && (forall i :: 1 <= i < |p| ==> HasEdge(m, p[i - 1], p[i]))
  }

  /** p is a valid path from u to v. */
  predicate IsWalk(m: Matrix, p: seq<int>, u: int, v: int) {
    ValidPath(m, p) && |p| > 0 && p[0] == u && p[|p| - 1] == v
  }

  ghost predicate Reachable(m: Matrix, u: int, v: int) {
    exists p :: IsWalk(m, p, u, v)
  }

  /** v is reachable from u by a walk that does not go on from `end`. */
  ghost predicate ReachableAvoiding(m: Matrix, u: int, v: int, end: Option<int>) {
    exists p :: IsWalk(m, p, u, v) && AvoidsUntilLast(p, end)
  }

  lemma ReachableAvoidingStart(m: Matrix, u: int, end: Option<int>)
    requires 0 <= u < |m|
    ensures ReachableAvoiding(m, u, u, end)
  {
    assert IsWalk(m, [u], u, u) && AvoidsUntilLast([u], end);
  }

  /** Extending a walk by one edge out of a vertex other than `end`. */
  lemma ReachableAvoidingStep(m: Matrix, s: int, v: int, w: int, end: Option<int>)
    requires WellFormed(m)
    requires ReachableAvoiding(m, s, v, end) && Some(v) != end && HasEdge(m, v, w)
    ensures ReachableAvoiding(m, s, w, end)
  {
    var p :| IsWalk(m, p, s, v) && AvoidsUntilLast(p, end);
    var q := p + [w];
    assert IsWalk(m, q, s, w);
    assert AvoidsUntilLast(q, end);
  }

  lemma ReachableAvoidingIsReachable(m: Matrix, s: int, v: int, end: Option<int>)
    requires ReachableAvoiding(m, s, v, end)
    ensures Reachable(m, s, v)
  {
    var p :| IsWalk(m, p, s, v) && AvoidsUntilLast(p, end);
  }

  /** When `end` cannot be reached at all, no walk from s meets it, so
      avoiding it costs nothing. */
  lemma ReachableWithoutEnd(m: Matrix, s: int, v: int, e: int)
    requires Reachable(m, s, v) && !Reachable(m, s, e)
    ensures ReachableAvoiding(m, s, v, Some(e))
  {
    var p :| IsWalk(m, p, s, v);
    forall i | 0 <= i < |p| - 1 ensures p[i] != e {
      assert IsWalk(m, p[..i + 1], s, p[i]);
    }
  }

  /** Every member of r other than `end` has all its out-neighbours in r. */
  ghost predicate ClosedExceptEnd(m: Matrix, r: seq<int>, end: Option<int>) {
    forall x, w :: x in r && Some(x) != end && HasEdge(m, x, w) ==> w in r
  }

  lemma {:induction false} WalkStaysInClosed(m: Matrix, p: seq<int>, r: seq<int>, end: Option<int>)
    requires ValidPath(m, p) && |p| > 0 && p[0] in r
    requires AvoidsUntilLast(p, end) && ClosedExceptEnd(m, r, end)
    ensures p[|p| - 1] in r
  {
    if |p| > 1 {
      var q := p[..|p| - 1];
      assert ValidPath(m, q) && AvoidsUntilLast(q, end);
      WalkStaysInClosed(m, q, r, end);
      assert HasEdge(m, p[|p| - 2], p[|p| - 1]);
    }
  }

  /** Completeness of a traversal: a closed set that holds the start holds
      every vertex reachable from it without going on from `end`. */
  lemma ClosedContainsReachable(m: Matrix, s: int, r: seq<int>, end: Option<int>)
    requires s in r && ClosedExceptEnd(m, r, end)
    ensures forall v :: ReachableAvoiding(m, s, v, end) ==> v in r
  {
    forall v | ReachableAvoiding(m, s, v, end) ensures v in r {
      var p :| IsWalk(m, p, s, v) && AvoidsUntilLast(p, end);
      WalkStaysInClosed(m, p, r, end);
    }
  }

  // ---------------------------------------------------------------------
  // Cycles

  /** A closed walk of at least one edge. */
  predicate IsCycle(m: Matrix, p: seq<int>) {
    |p| >= 2 && p[0] == p[|p| - 1] && ValidPath(m, p)
  }

  ghost predicate Cyclic(m: Matrix) {
    exists p :: IsCycle(m, p)
  }

  /** Every vertex of s has an out-edge into s: what has_cycle finds when a
      full pass over the remaining vertices removes none. */
  ghost predicate EverySuccessorIn(m: Matrix, s: seq<int>) {
    forall x {:trigger HasSuccessorIn(m, x, s)} :: x in s ==> HasSuccessorIn(m, x, s)
  }

  /** x has an out-edge to a vertex of s. */
  ghost predicate HasSuccessorIn(m: Matrix, x: int, s: seq<int>) {
    exists w :: w in s && HasEdge(m, x, w)
  }

  /** A walk that comes back to its vertex at position i closes a cycle. */
  lemma CloseCycle(m: Matrix, p: seq<int>, i: int, w: int)
    requires ValidPath(m, p) && 0 <= i < |p| && p[i] == w
    requires HasEdge(m, p[|p| - 1], w)
    ensures IsCycle(m, p[i..] + [w])
  {
    var c := p[i..] + [w];
    forall j | 1 <= j < |c| ensures HasEdge(m, c[j - 1], c[j]) {
      if j < |c| - 1 {
        assert c[j - 1] == p[i + j - 1] && c[j] == p[i + j];
      }
    }
  }

  lemma {:induction false} CycleFromWalk(m: Matrix, s: seq<int>, p: seq<int>)
    requires forall x :: x in s ==> 0 <= x < |m|
    requires EverySuccessorIn(m, s)
    requires |p| > 0 && ValidPath(m, p) && Distinct(p)
    requires forall x :: x in p ==> x in s
    ensures Cyclic(m)
    decreases |Elems(s)| - |p|
  {
    DistinctWithin(p, Elems(s));
    var x := p[|p| - 1];
    assert x in s && HasSuccessorIn(m, x, s);
    var w :| w in s && HasEdge(m, x, w);
    if w in p {
      CloseCycle(m, p, IndexOf(p, w), w);
    } else {
      var q := p + [w];
      assert Distinct(q);
      assert ValidPath(m, q) by {
        assert forall i :: 0 <= i < |p| ==> q[i] == p[i];
      }
      DistinctWithin(q, Elems(s));
      CycleFromWalk(m, s, q);
    }
  }

  /** A non-empty set of vertices each with an out-edge into the set holds a
      cycle (a walk inside it must repeat a vertex). */
  lemma CycleFromSuccessors(m: Matrix, s: seq<int>)
    requires s != [] && forall x :: x in s ==> 0 <= x < |m|
    requires EverySuccessorIn(m, s)
    ensures Cyclic(m)
  {
    assert s[0] in s;
    CycleFromWalk(m, s, [s[0]]);
  }

  /** Every out-neighbour of order[k] occurs before position k: the order in
      which has_cycle strips vertices of out-degree 0. */
  ghost predicate SinksFirst(m: Matrix, order: seq<int>) {
    forall k, w :: 0 <= k < |order| && HasEdge(m, order[k], w) ==> w in order[..k]
  }

  /** A vertex whose out-neighbours all come earlier may come next. */
  lemma SinksFirstExtend(m: Matrix, order: seq<int>, u: int)
    requires SinksFirst(m, order)
    requires forall w :: HasEdge(m, u, w) ==> w in order
    ensures SinksFirst(m, order + [u])
  {
    var o := order + [u];
    forall k, w | 0 <= k < |o| && HasEdge(m, o[k], w) ensures w in o[..k] {
      if k < |order| {
        assert o[k] == order[k] && o[..k] == order[..k];
      } else {
        assert o[..k] == order;
      }
    }
  }

  lemma {:induction false} RankDrops(m: Matrix, order: seq<int>, p: seq<int>)
    requires SinksFirst(m, order) && ValidPath(m, p) && |p| >= 2
    requires forall x :: x in p ==> x in order
    ensures IndexOf(order, p[|p| - 1]) < IndexOf(order, p[0])
  {
    var u, w := p[|p| - 2], p[|p| - 1];
    var k := IndexOf(order, u);
    assert HasEdge(m, u, w);
    assert w in order[..k];
    if |p| > 2 {
      var q := p[..|p| - 1];
      assert ValidPath(m, q);
      RankDrops(m, order, q);
    }
  }

  /** If every vertex can be stripped in an order where each goes after all
      its out-neighbours, there is no cycle. */
  lemma AcyclicFromSinksFirst(m: Matrix, order: seq<int>)
    requires SinksFirst(m, order)
    requires forall v :: 0 <= v < |m| ==> v in order
    ensures !Cyclic(m)
  {
    if Cyclic(m) {
      var p :| IsCycle(m, p);
      RankDrops(m, order, p);
    }
  }

  // ---------------------------------------------------------------------
  // Walk weights and shortest distances

  /** Sum of the edge weights along a valid path. */
  function Weight(m: Matrix, p: seq<int>): int
    requires ValidPath(m, p)
  {
    if |p| <= 1 then 0 else
      var q := p[..|p| - 1];
      assert ValidPath(m, q);
      Weight(m, q) + m[p[|p| - 2]][p[|p| - 1]]
  }

  /** d is the least weight of a walk from s to v, and some walk has it. */
  ghost predicate IsShortest(m: Matrix, s: int, v: int, d: nat) {
    && (exists p :: IsWalk(m, p, s, v) && Weight(m, p) == d)
    && (forall p :: IsWalk(m, p, s, v) ==> d <= Weight(m, p))
  }

  /** The largest cell of the matrix. */
  function MaxCell(m: Matrix): (r: nat)
    ensures forall i, j :: 0 <= i < |m| && 0 <= j < |m[i]| ==> m[i][j] <= r
  {
    if m == [] then 0 else
      var row := m[|m| - 1];
      var rest := MaxCell(m[..|m| - 1]);
      var r := MaxRow(row, rest);
      assert forall i :: 0 <= i < |m| - 1 ==> m[i] == m[..|m| - 1][i];
      r
  }

  function MaxRow(row: seq<int>, lower: nat): (r: nat)
    ensures r >= lower
    ensures forall j :: 0 <= j < |row| ==> row[j] <= r
  {
    if row == [] then lower else
      var r := MaxRow(row[..|row| - 1], if row[|row| - 1] > lower then row[|row| - 1] else lower);
      assert forall j :: 0 <= j < |row| - 1 ==> row[j] == row[..|row| - 1][j];
      r
  }

  lemma {:induction false} WeightAtMost(m: Matrix, p: seq<int>)
    requires ValidPath(m, p) && |p| > 0
    ensures Weight(m, p) <= (|p| - 1) * MaxCell(m)
  {
    if |p| > 1 {
      var q := p[..|p| - 1];
      assert ValidPath(m, q);
      WeightAtMost(m, q);
      var c := MaxCell(m);
      var a, b := p[|p| - 2], p[|p| - 1];
      assert HasEdge(m, a, b);
      assert m[a][b] <= c;
      assert Weight(m, p) == Weight(m, q) + m[a][b];
      MulSucc(|q| - 1, c);
    }
  }

  lemma MulSucc(n: int, c: int)
    ensures (n + 1) * c == n * c + c
  {
  }

  /** A walk that repeats no vertex weighs at most |m| * MaxCell(m): the
      bound that makes Dijkstra's worklist finite. */
  lemma SimpleWalkWeight(m: Matrix, p: seq<int>)
    requires ValidPath(m, p) && |p| > 0 && Distinct(p)
    ensures Weight(m, p) <= |m| * MaxCell(m)
  {
    WeightAtMost(m, p);
    DistinctBelow(p, |m|);
    MulAtMost(|p| - 1, |m|, MaxCell(m));
  }

  lemma {:induction false} MulAtMost(a: int, b: int, c: nat)
    requires a <= b
    ensures a * c <= b * c
  {
    if c > 0 {
      MulAtMost(a, b, c - 1);
      assert a * c == a * (c - 1) + a;
      assert b * c == b * (c - 1) + b;
    }
  }

  /** Weights are positive, so a proper prefix of a walk weighs strictly
      less than the walk. */
  lemma {:induction false} PrefixWeighsLess(m: Matrix, p: seq<int>, k: int)
    requires WellFormed(m) && ValidPath(m, p) && 1 <= k < |p|
    ensures ValidPath(m, p[..k]) && Weight(m, p[..k]) < Weight(m, p)
  {
    var q := p[..|p| - 1];
    assert ValidPath(m, q);
    assert HasEdge(m, p[|p| - 2], p[|p| - 1]);
    if k < |p| - 1 {
      assert p[..k] == q[..k];
      PrefixWeighsLess(m, q, k);
    } else {
      assert p[..k] == q;
    }
  }

  lemma AppendWeight(m: Matrix, p: seq<int>, x: int)
    requires ValidPath(m, p) && |p| > 0 && HasEdge(m, p[|p| - 1], x) && x < |m|
    ensures ValidPath(m, p + [x]) && Weight(m, p + [x]) == Weight(m, p) + m[p[|p| - 1]][x]
  {
    var q := p + [x];
    assert q[..|p|] == p;
    assert ValidPath(m, q) by {
      forall i | 0 <= i < |q| ensures 0 <= q[i] < |m| {
        if i < |p| { assert q[i] == p[i]; }
      }
      forall i | 1 <= i < |q| ensures HasEdge(m, q[i - 1], q[i]) {
        if i < |p| { assert q[i - 1] == p[i - 1] && q[i] == p[i]; }
      }
    }
    assert q[|q| - 2] == p[|p| - 1];
  }

  /** No edge improves a finite distance: the state Dijkstra's worklist
      leaves when it runs dry. */
  ghost predicate Relaxed(m: Matrix, dist: seq<Option<nat>>) {
    && |dist| == |m|
    && forall u, x :: 0 <= u < |m| && 0 <= x < |m| && dist[u].Some? && HasEdge(m, u, x) ==>
         dist[x].Some? && dist[x].value <= dist[u].value + m[u][x]
  }

  lemma {:induction false} RelaxedBoundsWalk(m: Matrix, dist: seq<Option<nat>>, s: int, p: seq<int>)
    requires Relaxed(m, dist) && 0 <= s < |m| && dist[s] == Some(0)
    requires ValidPath(m, p) && |p| > 0 && p[0] == s
    ensures dist[p[|p| - 1]].Some? && dist[p[|p| - 1]].value <= Weight(m, p)
  {
    if |p| > 1 {
      var q := p[..|p| - 1];
      assert ValidPath(m, q);
      RelaxedBoundsWalk(m, dist, s, q);
      assert HasEdge(m, p[|p| - 2], p[|p| - 1]);
    }
  }

  /** Each finite distance is the weight of a walk from s, recorded in best. */
  ghost predicate Witnessed(m: Matrix, s: int, dist: seq<Option<nat>>, best: seq<seq<int>>) {
    && |dist| == |m| && |best| == |m|
    && forall v :: 0 <= v < |m| && dist[v].Some? ==>
         IsWalk(m, best[v], s, v) && Weight(m, best[v]) == dist[v].value
  }

  /** Correctness of Dijkstra's result: a relaxed table whose finite entries
      are walk weights, with 0 at the source, gives the shortest distances,
      and exactly the unreachable vertices are infinite. */
  lemma RelaxedIsShortest(m: Matrix, s: int, dist: seq<Option<nat>>, best: seq<seq<int>>)
    requires Relaxed(m, dist) && Witnessed(m, s, dist, best)
    requires 0 <= s < |m| && dist[s] == Some(0)
    ensures forall v :: 0 <= v < |m| ==> (dist[v].Some? <==> Reachable(m, s, v))
    ensures forall v :: 0 <= v < |m| && dist[v].Some? ==> IsShortest(m, s, v, dist[v].value)
  {
    forall v | 0 <= v < |m| ensures dist[v].Some? <==> Reachable(m, s, v) {
      if Reachable(m, s, v) {
        var p :| IsWalk(m, p, s, v);
        RelaxedBoundsWalk(m, dist, s, p);
      }
      if dist[v].Some? {
        assert IsWalk(m, best[v], s, v);
      }
    }
    forall v | 0 <= v < |m| && dist[v].Some? ensures IsShortest(m, s, v, dist[v].value) {
      assert IsWalk(m, best[v], s, v) && Weight(m, best[v]) == dist[v].value;
      forall p | IsWalk(m, p, s, v) ensures dist[v].value <= Weight(m, p) {
        RelaxedBoundsWalk(m, dist, s, p);
      }
    }
  }

  // ---------------------------------------------------------------------
  // is_valid_path as written

  /** Python list indexing: a negative index counts from the end, and an
      index outside [-n, n) raises IndexError (None). */
  function PyIndex(n: int, i: int): (r: Option<int>)
    ensures r.Some? <==> -n <= i < n
    ensures r.Some? ==> 0 <= r.value < n && (r.value == i || r.value == i + n)
    ensures 0 <= i < n ==> r == Some(i)
  {
    if 0 <= i < n then Some(i) else if -n <= i < 0 then Some(i + n) else None
  }

  /** `m[u][v]` evaluated with Python indexing; None is an IndexError. */
  function PyCell(m: Matrix, u: int, v: int): (r: Option<int>)
    requires WellFormed(m)
    ensures r.Some? <==> -|m| <= u < |m| && -|m| <= v < |m|
    ensures 0 <= u < |m| && 0 <= v < |m| ==> r == Some(m[u][v])
  {
    match PyIndex(|m|, u)
    case None => None
    case Some(i) =>
      match PyIndex(|m|, v)
      case None => None
      case Some(j) => Some(m[i][j])
  }

  /** is_valid_path exactly as written: its range guards
      `len(m) <= x < 0` can never hold, so an out-of-range index reaches the
      matrix lookup, where a negative one wraps around. None is an
      IndexError. */
  function IsValidPathAsWritten(m: Matrix, path: seq<int>): (r: Option<bool>)
    requires WellFormed(m)
    ensures ValidPath(m, path) ==> r == Some(true)
    ensures r.None? ==> exists i :: 0 <= i < |path| && !(-|m| <= path[i] < |m|)
  {
    if |path| == 0 then Some(true)
    else if |path| == 1 then Some(0 <= path[0] < |m|)
    else ScanAsWritten(m, path, 1)
  }

  /** The while loop of is_valid_path from position `index` on. It never
      rejects a pair joined by an edge, and fails with an IndexError only at
      an index outside [-n, n). */
  function ScanAsWritten(m: Matrix, path: seq<int>, index: nat): (r: Option<bool>)
    requires WellFormed(m) && 1 <= index <= |path|
    ensures (forall i :: index <= i < |path| ==> HasEdge(m, path[i - 1], path[i])) ==> r == Some(true)
    ensures r.None? ==> exists i :: index - 1 <= i < |path| && !(-|m| <= path[i] < |m|)
    decreases |path| - index
  {
    if index == |path| then Some(true)
    else if |m| <= path[index] < 0 then Some(false)
    else if |m| <= path[index - 1] < 0 then Some(false)
    else match PyCell(m, path[index - 1], path[index])
      case None => None
      case Some(c) => if c == 0 then Some(false) else ScanAsWritten(m, path, index + 1)
  }

  /** The discrepancy: with the edge 1 -> 0, the path [-1, 0] names a vertex
      that does not exist, yet the code as written accepts it, because
      m[-1] is the last row. */
  lemma AsWrittenAcceptsNegativeIndex()
    ensures var m := [[0, 0], [1, 0]];
      WellFormed(m) && IsValidPathAsWritten(m, [-1, 0]) == Some(true) && !ValidPath(m, [-1, 0])
  {
    var m := [[0, 0], [1, 0]];
    assert ScanAsWritten(m, [-1, 0], 2) == Some(true);
  }

  lemma {:induction false} ScanAgreesInRange(m: Matrix, path: seq<int>, index: nat)
    requires WellFormed(m) && 1 <= index <= |path|
    requires forall i :: 0 <= i < |path| ==> 0 <= path[i] < |m|
    ensures ScanAsWritten(m, path, index)
      == Some(forall i :: index <= i < |path| ==> HasEdge(m, path[i - 1], path[i]))
    decreases |path| - index
  {
    if index < |path| {
      ScanAgreesInRange(m, path, index + 1);
    }
  }

  /** On paths whose vertices all exist, the code as written and the
      intended check agree: the range check is the only difference. */
  lemma AsWrittenAgreesInRange(m: Matrix, path: seq<int>)
    requires WellFormed(m)
    requires forall i :: 0 <= i < |path| ==> 0 <= path[i] < |m|
    ensures IsValidPathAsWritten(m, path) == Some(ValidPath(m, path))
  {
    if |path| >= 2 {
      ScanAgreesInRange(m, path, 1);
    }
  }
}
