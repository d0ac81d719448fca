/** `UndirectedGraph` of `ud_graph.py`: an adjacency-list graph whose
    methods update the dictionary in place. Each method is proved against the
    value-level operations and properties of `ListGraph`. */
module UdGraph {
  import opened Common
  import opened ListGraph

  // ------------------------------------------------------------------
  // Loop states of the traversals
  // ------------------------------------------------------------------

  /** What `dfs` and `bfs` return from `start`, with an optional vertex
      `end` at which the search stops: nothing for a missing start vertex;
      otherwise the start first, no vertex twice, only vertices reachable
      without passing through `end`; every reachable vertex when `end` is
      absent or unreachable, and `end` as the last vertex otherwise. */
  ghost predicate SearchResult(g: Graph, start: int, end: Option<int>, r: seq<int>) {
    (start !in g.adj ==> r == [])
    && (start in g.adj ==> |r| > 0 && r[0] == start)
    && Distinct(r)
    && (forall v :: v in r ==> ReachableAvoiding(g, start, v, end))
    && (EndUnreached(g, start, end) ==> forall v :: Reachable(g, start, v) ==> v in r)
    && (!EndUnreached(g, start, end) ==> r[|r| - 1] == end.value)
  }

  /** The loop state shared by `dfs` (pending = the stack) and `bfs`
      (pending = the queue): listed vertices are distinct, reachable and not
      `end`; pending ones are reachable; every neighbour of a listed vertex is
      listed or pending. */
  ghost predicate SearchState(g: Graph, start: int, end: Option<int>, visited: seq<int>, pending: seq<int>) {
    WellFormed(g) && start in g.adj
    && (visited == [] ==> pending == [start])
    && (visited != [] ==> visited[0] == start)
    && Distinct(visited)
    && |visited| <= |g.keys|
    && (forall v :: v in visited ==> v in g.adj && Some(v) != end && ReachableAvoiding(g, start, v, end))
    && (forall v :: v in pending ==> v in g.adj && ReachableAvoiding(g, start, v, end))
    && (forall x, w :: x in visited && Adjacent(g, x, w) ==> w in visited || w in pending)
  }

  /** Distinct vertices are no more than the vertices of the graph. */
  lemma VisitedBound(g: Graph, visited: seq<int>)
    requires WellFormed(g) && Distinct(visited)
    requires forall v :: v in visited ==> v in g.adj
    ensures |visited| <= |g.keys|
  {
    DistinctCard(g.keys);
    forall v | v in visited ensures v in Elems(g.keys) {
      assert v in g.adj;
    }
    DistinctWithin(visited, Elems(g.keys));
  }

  lemma SearchInit(g: Graph, start: int, end: Option<int>)
    requires WellFormed(g) && start in g.adj
    ensures SearchState(g, start, end, [], [start])
  {
    ReachableAvoidingStart(g, start, end);
  }

  /** The first vertex listed is the start, with the search state kept. */
  lemma SearchList(g: Graph, start: int, end: Option<int>, visited: seq<int>, pending: seq<int>, cur: int)
    requires SearchState(g, start, end, visited, pending)
    requires cur in pending && cur !in visited
    ensures visited == [] ==> cur == start
    ensures Distinct(visited + [cur])
    ensures forall v :: v in visited + [cur] ==> ReachableAvoiding(g, start, v, end)
  {
  }

  /** A search that stops at `end` as soon as it lists it returns what
      `SearchResult` describes. */
  lemma SearchFound(g: Graph, start: int, end: Option<int>, visited: seq<int>, pending: seq<int>, cur: int)
    requires SearchState(g, start, end, visited, pending)
    requires cur in pending && cur !in visited && Some(cur) == end
    ensures SearchResult(g, start, end, visited + [cur])
  {
    SearchList(g, start, end, visited, pending, cur);
    assert ReachableAvoiding(g, start, cur, end);
    ReachableFromAvoiding(g, start, cur, end);
  }

  /** A search whose pending list runs empty has listed every vertex
      reachable from the start, and has never met `end`. */
  lemma SearchDone(g: Graph, start: int, end: Option<int>, visited: seq<int>)
    requires SearchState(g, start, end, visited, [])
    ensures SearchResult(g, start, end, visited)
  {
    forall v | Reachable(g, start, v) ensures v in visited {
      ClosedContainsReachable(g, start, visited, v);
    }
    if end.Some? {
      forall v | v in visited ensures v != end.value {
        assert Some(v) != end;
      }
    }
  }

  /** One round of `dfs`: pop the top vertex, list it if new, push its
      unlisted neighbours. Either one more vertex is listed or fewer listed
      entries sit on top of the stack. */
  lemma DfsStep(g: Graph, start: int, end: Option<int>, visited: seq<int>, stack: seq<int>,
                visited': seq<int>, t: seq<int>)
    requires SearchState(g, start, end, visited, stack) && |stack| > 0
    requires visited' == (if stack[|stack| - 1] in visited then visited else visited + [stack[|stack| - 1]])
    requires Some(stack[|stack| - 1]) != end
    requires forall w :: w in t <==> Adjacent(g, stack[|stack| - 1], w) && w !in visited'
    ensures SearchState(g, start, end, visited', stack[..|stack| - 1] + t)
    ensures |visited'| > |visited| || TrailingIn(stack[..|stack| - 1] + t, visited') < TrailingIn(stack, visited)
  {
    var cur := stack[|stack| - 1];
    var rest := stack[..|stack| - 1];
    var s' := rest + t;
    assert cur in stack;
    if cur !in visited {
      SearchList(g, start, end, visited, stack, cur);
      VisitedBound(g, visited');
    }
    DfsStepPending(g, start, end, visited, stack, visited', t);
    DfsStepClosed(g, start, end, visited, stack, visited', t);
    if cur in visited && t != [] {
      assert t[|t| - 1] in t;
      assert s'[|s'| - 1] == t[|t| - 1];
    }
    if cur in visited && t == [] {
      assert s' == rest;
    }
  }

  /** What the `dfs` round pushes is reachable. */
  lemma DfsStepPending(g: Graph, start: int, end: Option<int>, visited: seq<int>, stack: seq<int>,
                       visited': seq<int>, t: seq<int>)
    requires SearchState(g, start, end, visited, stack) && |stack| > 0
    requires Some(stack[|stack| - 1]) != end
    requires forall w :: w in t ==> Adjacent(g, stack[|stack| - 1], w)
    ensures forall w :: w in stack[..|stack| - 1] + t ==> w in g.adj && ReachableAvoiding(g, start, w, end)
  {
    var cur := stack[|stack| - 1];
    assert cur in stack;
    forall w | w in stack[..|stack| - 1] + t ensures w in g.adj && ReachableAvoiding(g, start, w, end) {
      if w in t {
        ReachableAvoidingStep(g, start, cur, w, end);
      } else {
        assert w in stack;
      }
    }
  }

  /** After the `dfs` round every neighbour of a listed vertex is listed or
      on the stack. */
  lemma DfsStepClosed(g: Graph, start: int, end: Option<int>, visited: seq<int>, stack: seq<int>,
                      visited': seq<int>, t: seq<int>)
    requires SearchState(g, start, end, visited, stack) && |stack| > 0
    requires visited' == (if stack[|stack| - 1] in visited then visited else visited + [stack[|stack| - 1]])
    requires forall w :: Adjacent(g, stack[|stack| - 1], w) && w !in visited' ==> w in t
    ensures forall x, w :: x in visited' && Adjacent(g, x, w) ==> w in visited' || w in stack[..|stack| - 1] + t
  {
    var cur := stack[|stack| - 1];
    forall x, w | x in visited' && Adjacent(g, x, w) ensures w in visited' || w in stack[..|stack| - 1] + t {
      if w !in visited' {
        if x == cur {
          assert w in t;
        } else {
          assert w in stack && w != cur;
          InBelowTop(stack, w);
        }
      }
    }
  }

  /** One round of `bfs`: take the front vertex; if it is new, list it and
      queue all its neighbours. Either one more vertex is listed or the queue
      is shorter. */
  lemma BfsStep(g: Graph, start: int, end: Option<int>, visited: seq<int>, queue: seq<int>,
                visited': seq<int>, t: seq<int>)
    requires SearchState(g, start, end, visited, queue) && |queue| > 0
    requires queue[0] in visited ==> visited' == visited && t == []
    requires queue[0] !in visited ==> visited' == visited + [queue[0]] && Some(queue[0]) != end
    requires forall w :: w in t ==> Adjacent(g, queue[0], w)
    requires queue[0] !in visited ==> forall w :: Adjacent(g, queue[0], w) ==> w in t
    ensures SearchState(g, start, end, visited', queue[1..] + t)
    ensures |visited'| > |visited| || |queue[1..] + t| < |queue|
  {
    var cur := queue[0];
    var q' := queue[1..] + t;
    assert cur in queue;
    if cur !in visited {
      SearchList(g, start, end, visited, queue, cur);
      VisitedBound(g, visited');
    }
    forall w | w in q' ensures w in g.adj && ReachableAvoiding(g, start, w, end) {
      if w in t {
        ReachableAvoidingStep(g, start, cur, w, end);
      } else {
        assert w in queue;
      }
    }
    forall x, w | x in visited' && Adjacent(g, x, w) ensures w in visited' || w in q' {
      if w !in visited' {
        if x == cur && cur !in visited {
          assert w in t;
        } else {
          assert w in queue && w != cur;
          InBehindFront(queue, w);
        }
      }
    }
  }

  // ------------------------------------------------------------------
  // Loop states of get_edges and has_cycle
  // ------------------------------------------------------------------

  /** `get_edges` so far: the listed pairs are edges, none twice and none
      with its reverse; each starts at a vertex of `done` or is (key, b) for
      b in `row`; every edge at a vertex of `done`, and every (key, b) with b
      in `row`, is listed one way round. */
  ghost predicate EdgesSoFar(g: Graph, edges: seq<(int, int)>, done: seq<int>, key: int, row: seq<int>) {
    Distinct(edges)
    && (forall e :: e in edges ==> Adjacent(g, e.0, e.1) && (e.1, e.0) !in edges)
    && (forall e :: e in edges ==> e.0 in done || (e.0 == key && e.1 in row))
    && (forall a, b :: a in done && Adjacent(g, a, b) ==> (a, b) in edges || (b, a) in edges)
    && (forall b :: b in row ==> (key, b) in edges || (b, key) in edges)
  }

  /** The inner loop of `get_edges` takes the next neighbour el of key and
      lists (key, el) unless (el, key) is listed already. */
  lemma EdgesStep(g: Graph, edges: seq<(int, int)>, done: seq<int>, key: int, row: seq<int>, el: int,
                  edges': seq<(int, int)>)
    requires EdgesSoFar(g, edges, done, key, row)
    requires key !in done && Adjacent(g, key, el) && el !in row && el != key
    requires edges' == if (el, key) in edges then edges else edges + [(key, el)]
    ensures EdgesSoFar(g, edges', done, key, row + [el])
  {
    if (el, key) !in edges {
      assert (key, el) !in edges;
      forall e | e in edges' ensures (e.1, e.0) !in edges' {
        if e != (key, el) {
          assert e in edges;
        }
      }
    }
  }

  /** EdgesStep at position j of the row of key. */
  lemma EdgesNext(g: Graph, edges: seq<(int, int)>, done: seq<int>, key: int, j: int, edges': seq<(int, int)>)
    requires key in g.adj && Distinct(g.adj[key]) && key !in g.adj[key]
    requires key !in done && 0 <= j < |g.adj[key]|
    requires EdgesSoFar(g, edges, done, key, g.adj[key][..j])
    requires var el := g.adj[key][j];
      edges' == if (el, key) in edges then edges else edges + [(key, el)]
    ensures EdgesSoFar(g, edges', done, key, g.adj[key][..j + 1])
  {
    var row := g.adj[key];
    var el := row[j];
    assert el in row;
    assert el !in row[..j];
    EdgesStep(g, edges, done, key, row[..j], el, edges');
    assert row[..j + 1] == row[..j] + [el];
  }

  /** The inner loop of `get_edges` has gone through the whole row of key. */
  lemma EdgesRowDone(g: Graph, edges: seq<(int, int)>, done: seq<int>, key: int)
    requires key in g.adj && EdgesSoFar(g, edges, done, key, g.adj[key])
    ensures EdgesSoFar(g, edges, done + [key], 0, [])
  {
    forall a, b | a in done + [key] && Adjacent(g, a, b) ensures (a, b) in edges || (b, a) in edges {
      if a != key {
        assert a in done;
      }
    }
  }

  /** Once every key is done, each edge is listed exactly one way round. */
  lemma EdgesAllDone(g: Graph, edges: seq<(int, int)>)
    requires WellFormed(g) && EdgesSoFar(g, edges, g.keys, 0, [])
    ensures forall a, b :: Adjacent(g, a, b) ==> (a, b) in edges || (b, a) in edges
  {
    forall a, b | Adjacent(g, a, b) ensures (a, b) in edges || (b, a) in edges {
      assert a in g.keys;
    }
  }

  /** has_cycle's vertex list and banned list split the vertices; the
      banned vertices were removed in a peel order. */
  ghost predicate PeelState(g: Graph, rest: seq<int>, banned: seq<int>) {
    WellFormed(g) && Distinct(rest) && Distinct(banned)
    && (forall v :: v in g.adj <==> v in rest || v in banned)
    && (forall v :: v in rest ==> v !in banned)
    && PeelOrder(g, banned)
  }

  /** Removing a vertex with at most one neighbour left keeps the split. */
  lemma PeelStep(g: Graph, rest: seq<int>, banned: seq<int>, x: int)
    requires PeelState(g, rest, banned) && x in rest && AtMostOneFree(g, x, banned)
    ensures PeelState(g, RemoveFirst(rest, x), banned + [x])
    ensures |RemoveFirst(rest, x)| == |rest| - 1
  {
    PeelOrderExtend(g, banned, x);
  }

  /** The state of one pass of has_cycle over the vertex list, walked by
      position i while it shrinks. list0 and new0 are the vertex list and
      new_list when the pass began; `removed` says whether it has removed a
      vertex yet. */
  ghost predicate PassState(g: Graph, rest: seq<int>, banned: seq<int>, newList: seq<int>, i: int,
                            removed: bool, list0: seq<int>, new0: seq<int>) {
    && PeelState(g, rest, banned)
    && (forall x :: x in newList ==> x in rest)
    && (forall x {:trigger TwoFree(g, x, banned)} :: x in newList ==> TwoFree(g, x, banned))
    && 0 <= i <= |rest| + 1 && |rest| <= |list0|
    && (!removed ==> rest == list0 && i <= |list0| && newList == new0 + list0[..i])
    && (removed ==> |rest| < |list0| && |newList| + 1 <= i && (i == |rest| + 1 ==> newList == []))
  }

  /** The pass removes rest[i], which has at most one neighbour left. */
  lemma PassRemove(g: Graph, rest: seq<int>, banned: seq<int>, newList: seq<int>, i: int,
                   removed: bool, list0: seq<int>, new0: seq<int>)
    requires PassState(g, rest, banned, newList, i, removed, list0, new0) && i < |rest|
    requires AtMostOneFree(g, rest[i], banned)
    ensures PassState(g, RemoveFirst(rest, rest[i]), banned + [rest[i]], [], i + 1, true, list0, new0)
  {
    PeelStep(g, rest, banned, rest[i]);
  }

  /** The pass keeps rest[i], which has two neighbours left. */
  lemma PassKeep(g: Graph, rest: seq<int>, banned: seq<int>, newList: seq<int>, i: int,
                 removed: bool, list0: seq<int>, new0: seq<int>)
    requires PassState(g, rest, banned, newList, i, removed, list0, new0) && i < |rest|
    requires TwoFree(g, rest[i], banned)
    ensures PassState(g, rest, banned, newList + [rest[i]], i + 1, removed, list0, new0)
  {
    var x := rest[i];
    assert x in rest;
    if !removed {
      assert list0[..i + 1] == list0[..i] + [x];
    }
  }

  /** One step of the pass at position i, where `score` is has_cycle's
      score of rest[i]: the vertex is removed when the score is at most one
      and appended to new_list otherwise. */
  lemma PassStep(g: Graph, rest: seq<int>, banned: seq<int>, newList: seq<int>, i: int,
                 removed: bool, list0: seq<int>, new0: seq<int>, score: int)
    requires PassState(g, rest, banned, newList, i, removed, list0, new0) && i < |rest|
    requires rest[i] in g.adj && score == |g.adj[rest[i]]| - CountIn(banned, g.adj[rest[i]])
    ensures var x := rest[i];
      if score <= 1 then PassState(g, RemoveFirst(rest, x), banned + [x], [], i + 1, true, list0, new0)
      else PassState(g, rest, banned, newList + [x], i + 1, removed, list0, new0)
  {
    var x := rest[i];
    ScoreMeaning(g, x, banned);
    if score <= 1 {
      PassRemove(g, rest, banned, newList, i, removed, list0, new0);
    } else {
      PassKeep(g, rest, banned, newList, i, removed, list0, new0);
    }
  }

  /** At the end of a pass: either it removed a vertex, or new_list now
      holds the whole vertex list. */
  lemma PassDone(g: Graph, rest: seq<int>, banned: seq<int>, newList: seq<int>, i: int,
                 removed: bool, list0: seq<int>, new0: seq<int>)
    requires PassState(g, rest, banned, newList, i, removed, list0, new0) && i >= |rest|
    ensures removed ==> |rest| < |list0|
    ensures !removed ==> |newList| >= |rest| && rest == list0
    ensures |newList| >= |rest| ==> forall x :: x in rest ==> x in newList
  {
    if !removed {
      assert list0[..i] == list0;
      assert newList == new0 + list0;
      forall x | x in rest ensures x in newList {
        assert x in list0;
      }
    } else if i == |rest| {
      assert |newList| < |rest|;
    }
  }

  /** A vertex list drawn without repetition from a longer one, lacking one of
      its members, is shorter. */
  lemma Shrinks(before: seq<int>, after: seq<int>, x: int)
    requires Distinct(before) && Distinct(after)
    requires forall y :: y in after ==> y in before && y != x
    requires x in before
    ensures |after| < |before|
  {
    DistinctCard(before);
    var S := Elems(before) - {x};
    forall y | y in after ensures y in S {
      assert y in before;
    }
    DistinctWithin(after, S);
    assert x in Elems(before);
    assert |S| == |Elems(before)| - 1;
  }

  /** remove_vertex, after its loop has dropped v from the list of every
      key: deleting the key v gives WithoutVertex. */
  lemma DiscardedEverywhere(g: Graph, v: int, a: map<int, seq<int>>)
    requires WellFormed(g) && v in g.adj && a.Keys == g.adj.Keys
    requires forall k :: 0 <= k < |g.keys| ==>
               g.keys[k] in g.adj && g.keys[k] in a && a[g.keys[k]] == Discard(g.adj[g.keys[k]], v)
    ensures Graph(a - {v}, RemoveFirst(g.keys, v)) == WithoutVertex(g, v)
  {
    forall k | k in g.adj ensures a[k] == Discard(g.adj[k], v) {
      var n := IndexOf(g.keys, k);
    }
    assert a - {v} == WithoutVertex(g, v).adj;
  }

  // ------------------------------------------------------------------
  // The class
  // ------------------------------------------------------------------

  class UndirectedGraph {
    /** The adjacency dictionary `adj_list`. */
    var adjList: map<int, seq<int>>
    /** The keys of `adj_list` in insertion order. */
    var keys: seq<int>

    function View(): Graph
      reads this
    {
      Graph(adjList, keys)
    }

    ghost predicate Valid()
      reads this
    {
      WellFormed(View())
    }

    /** `__init__(start_edges)`: `add_edge` for each pair; no pairs gives the
        empty graph. */
    constructor (startEdges: seq<(int, int)>)
      ensures View() == FromPairs(startEdges)
      ensures Valid()
    {
      adjList := map[];
      keys := [];
      new;
      var i := 0;
      while i < |startEdges|
        invariant 0 <= i <= |startEdges|
        invariant View() == FromPairs(startEdges[..i]) && Valid()
      {
        AddEdge(startEdges[i].0, startEdges[i].1);
        assert startEdges[..i + 1][..i] == startEdges[..i];
        i := i + 1;
      }
      assert startEdges[..i] == startEdges;
    }

    /** `add_vertex(v)`. */
    method AddVertex(v: int)
      requires Valid()
      modifies this
      ensures View() == WithVertex(old(View()), v)
      ensures Valid()
    {
      if v in adjList {
        return;
      }
      adjList := adjList[v := []];
      keys := keys + [v];
    }

    /** `add_edge(u, v)`. */
    method AddEdge(u: int, v: int)
      requires Valid()
      modifies this
      ensures View() == WithEdge(old(View()), u, v)
      ensures Valid()
    {
      if u == v {
        return;
      }
      if u !in adjList {
        AddVertex(u);
      }
      if v !in adjList {
        AddVertex(v);
      }
      if u in adjList[v] {
        return;
      }
      adjList := adjList[u := adjList[u] + [v]];
      adjList := adjList[v := adjList[v] + [u]];
    }

    /** `remove_edge(v, u)`. */
    method RemoveEdge(v: int, u: int)
      requires Valid()
      modifies this
      ensures View() == WithoutEdge(old(View()), v, u)
      ensures Valid()
    {
      if u !in adjList {
        return;
      }
      if v !in adjList {
        return;
      }
      if u !in adjList[v] {
        return;
      }
      assert Adjacent(View(), v, u);
      adjList := adjList[u := RemoveFirst(adjList[u], v)];
      adjList := adjList[v := RemoveFirst(adjList[v], u)];
    }

    /** `remove_vertex(v)`: drops v from every neighbour list, then deletes
        its key. */
    method RemoveVertex(v: int)
      requires Valid()
      modifies this
      ensures View() == WithoutVertex(old(View()), v)
      ensures Valid()
    {
      if v !in adjList {
        return;
      }
      ghost var g := View();
      forall k | 0 <= k < |keys| ensures keys[k] in g.adj {
        var x := keys[k];
        assert x in g.keys;
      }
      var i := 0;
      while i < |keys|
        invariant 0 <= i <= |keys|
        invariant keys == g.keys
        invariant adjList.Keys == g.adj.Keys
        invariant forall k :: 0 <= k < |keys| ==> keys[k] in g.adj
        invariant forall k :: 0 <= k < |keys| ==>
                    adjList[keys[k]] == if k < i then Discard(g.adj[keys[k]], v) else g.adj[keys[k]]
      {
        var key := keys[i];
        assert key in g.adj;
        if v in adjList[key] {
          adjList := adjList[key := RemoveFirst(adjList[key], v)];
        }
        i := i + 1;
      }
      DiscardedEverywhere(g, v, adjList);
      adjList := adjList - {v};
      keys := RemoveFirst(keys, v);
    }

    /** `get_vertices`: the vertices in insertion order. */
    method GetVertices() returns (vertices: seq<int>)
      requires Valid()
      ensures vertices == keys
      ensures Distinct(vertices)
      ensures forall v :: v in vertices <==> v in adjList
    {
      vertices := [];
      var i := 0;
      while i < |keys|
        invariant 0 <= i <= |keys| && vertices == keys[..i]
      {
        vertices := vertices + [keys[i]];
        i := i + 1;
      }
      assert keys[..i] == keys;
    }

    /** `get_edges`: every edge exactly once, in one direction. */
    method GetEdges() returns (edges: seq<(int, int)>)
      requires Valid()
      ensures forall e :: e in edges ==> Adjacent(View(), e.0, e.1)
      ensures forall a, b :: Adjacent(View(), a, b) ==> (a, b) in edges || (b, a) in edges
      ensures Distinct(edges)
      ensures forall e :: e in edges ==> (e.1, e.0) !in edges
    {
      ghost var g := View();
      edges := [];
      var i := 0;
      while i < |keys|
        invariant 0 <= i <= |keys|
        invariant EdgesSoFar(g, edges, keys[..i], 0, [])
      {
        var key := keys[i];
        var row := adjList[key];
        assert key !in keys[..i];
        assert key in g.adj && Distinct(row) && key !in row;
        var j := 0;
        while j < |row|
          invariant 0 <= j <= |row|
          invariant EdgesSoFar(g, edges, keys[..i], key, row[..j])
        {
          var el := row[j];
          ghost var before := edges;
          if (el, key) !in edges {
            edges := edges + [(key, el)];
          }
          EdgesNext(g, before, keys[..i], key, j, edges);
          j := j + 1;
        }
        assert row[..j] == row;
        EdgesRowDone(g, edges, keys[..i], key);
        assert keys[..i + 1] == keys[..i] + [key];
        i := i + 1;
      }
      assert keys[..i] == keys;
      EdgesAllDone(g, edges);
    }

    /** `is_valid_path(path)`. */
    method IsValidPath(path: seq<int>) returns (valid: bool)
      requires Valid()
      ensures valid == ValidPath(View(), path)
    {
      var counter := 1;
      var i := 0;
      while i < |path|
        invariant 0 <= i <= |path| && counter == i + 1
        invariant forall k :: 0 <= k < i ==> path[k] in adjList
        invariant forall k :: 0 < k <= i && k < |path| ==> Adjacent(View(), path[k - 1], path[k])
      {
        var vertex := path[i];
        if vertex !in adjList {
          return false;
        }
        if counter == |path| {
          return true;
        }
        if path[counter] !in adjList[vertex] {
          return false;
        }
        counter := counter + 1;
        i := i + 1;
      }
      return true;
    }

    /** `dfs(v_start, v_end)`: a stack search that pushes the unlisted
        neighbours of each popped vertex in descending order, so that the
        smallest is taken next, and stops as soon as it lists `end`. */
    method Dfs(start: int, end: Option<int> := None) returns (visited: seq<int>)
      requires Valid()
      ensures SearchResult(View(), start, end, visited)
    {
      visited := [];
      var stack := [start];
      if start !in adjList {
        return [];
      }
      ghost var g := View();
      SearchInit(g, start, end);
      while |stack| > 0
        invariant SearchState(g, start, end, visited, stack)
        decreases |keys| - |visited|, TrailingIn(stack, visited)
      {
        var cur := stack[|stack| - 1];
        ghost var before, stack0 := visited, stack;
        stack := stack[..|stack| - 1];
        if cur !in visited {
          visited := visited + [cur];
          if Some(cur) == end {
            SearchFound(g, start, end, before, stack0, cur);
            return;
          }
        }
        assert cur in stack0;
        var sortList := [];
        var row := adjList[cur];
        var i := 0;
        while i < |row|
          invariant 0 <= i <= |row|
          invariant forall w :: w in sortList <==> w in row[..i] && w !in visited
        {
          var vertex := row[i];
          if vertex !in visited {
            sortList := sortList + [vertex];
          }
          assert row[..i + 1] == row[..i] + [vertex];
          i := i + 1;
        }
        assert row[..i] == row;
        ReverseSortMembers(sortList);
        sortList := Reverse(Sort(sortList));
        DfsStep(g, start, end, before, stack0, visited, sortList);
        stack := stack + sortList;
      }
      SearchDone(g, start, end, visited);
    }

    /** `bfs(v_start, v_end)`: a queue search that, on listing a new vertex,
        queues all of its neighbours in ascending order, and stops as soon as
        it lists `end`. */
    method Bfs(start: int, end: Option<int> := None) returns (visited: seq<int>)
      requires Valid()
      ensures SearchResult(View(), start, end, visited)
    {
      visited := [];
      var queue := [start];
      if start !in adjList {
        return [];
      }
      ghost var g := View();
      SearchInit(g, start, end);
      while |queue| > 0
        invariant SearchState(g, start, end, visited, queue)
        decreases |keys| - |visited|, |queue|
      {
        var cur := queue[0];
        ghost var before, queue0 := visited, queue;
        queue := queue[1..];
        var sortList := [];
        if cur !in visited {
          visited := visited + [cur];
          if Some(cur) == end {
            SearchFound(g, start, end, before, queue0, cur);
            return;
          }
          var row := adjList[cur];
          var i := 0;
          while i < |row|
            invariant 0 <= i <= |row| && sortList == row[..i]
          {
            sortList := sortList + [row[i]];
            i := i + 1;
          }
          assert row[..i] == row;
          SortMembers(sortList);
          sortList := Sort(sortList);
          queue := queue + sortList;
        }
        BfsStep(g, start, end, before, queue0, visited, sortList);
      }
      SearchDone(g, start, end, visited);
    }

    /** `count_connected_components`: repeatedly runs `bfs` from a vertex of
        a shrinking list and removes what it finds; the list is walked by
        position while it shrinks, as Python's list iterator does. */
    method CountConnectedComponents() returns (count: nat)
      requires Valid()
      ensures count == |Components(View())|
    {
      ghost var g := View();
      var vertexList := keys;
      count := 0;
      forall v | v in g.adj.Keys ensures v in vertexList {
        assert v in g.adj;
      }
      assert Outside(g, vertexList) == {};
      assert ComponentsOf(g, {}) == {};
      while |vertexList| > 0
        invariant Distinct(vertexList) && forall v :: v in vertexList ==> v in g.adj
        invariant WholeComponentsOutside(g, vertexList)
        invariant count == |ComponentsOf(g, Outside(g, vertexList))|
        decreases |vertexList|
      {
        ghost var n0 := |vertexList|;
        var i := 0;
        while i < |vertexList|
          invariant Distinct(vertexList) && forall v :: v in vertexList ==> v in g.adj
          invariant WholeComponentsOutside(g, vertexList)
          invariant count == |ComponentsOf(g, Outside(g, vertexList))|
          invariant 0 <= i && |vertexList| <= n0 && (i > 0 ==> |vertexList| < n0)
          decreases |vertexList| - i
        {
          var vertex := vertexList[i];
          assert vertex in vertexList;
          var newList := Bfs(vertex);
          forall y ensures y in newList <==> y in Component(g, vertex) {
            if y in newList {
              ReachableFromAvoiding(g, vertex, y, None);
              var p :| IsWalk(g, p, vertex, y);
            }
          }
          ghost var before := vertexList;
          var j := 0;
          while j < |newList|
            invariant 0 <= j <= |newList|
            invariant Distinct(vertexList)
            invariant forall y :: y in vertexList <==> y in before && y !in newList[..j]
          {
            var el := newList[j];
            if el in vertexList {
              vertexList := RemoveFirst(vertexList, el);
            }
            assert newList[..j + 1] == newList[..j] + [el];
            j := j + 1;
          }
          assert newList[..j] == newList;
          // bfs lists its own start, so the source's final removal of
          // `vertex` never finds it
          assert vertex !in vertexList;
          RemoveComponent(g, before, vertex, vertexList);
          Shrinks(before, vertexList, vertex);
          count := count + 1;
          i := i + 1;
        }
      }
      assert Outside(g, vertexList) == g.adj.Keys;
    }

    /** `has_cycle`: repeatedly removes vertices with at most one neighbour
        that is not yet removed, walking the shrinking list by position as
        Python's list iterator does; answers True once a whole pass removes
        nothing, and False when every vertex is gone. */
    method HasCycle() returns (cyclic: bool)
      requires Valid()
      ensures cyclic == Cyclic(View())
    {
      ghost var g := View();
      var vertexList := keys;
      var newList: seq<int> := [];
      var banned: seq<int> := [];
      while |vertexList| > 0
        invariant PeelState(g, vertexList, banned)
        invariant forall x :: x in newList ==> x in vertexList
        invariant forall x {:trigger TwoFree(g, x, banned)} :: x in newList ==> TwoFree(g, x, banned)
        invariant |newList| >= |vertexList| ==> forall x :: x in vertexList ==> x in newList
        decreases |vertexList|, if |newList| >= |vertexList| then 0 else 1
      {
        if |newList| >= |vertexList| {
          forall x | x in vertexList ensures TwoFree(g, x, banned) {
            assert x in newList;
          }
          BranchingCyclic(g, vertexList, banned);
          return true;
        }
        ghost var removed := false;
        ghost var list0, new0 := vertexList, newList;
        var i := 0;
        while i < |vertexList|
          invariant PassState(g, vertexList, banned, newList, i, removed, list0, new0)
          decreases |vertexList| + 1 - i
        {
          var vertex := vertexList[i];
          assert vertex in g.adj;
          var score := |adjList[vertex]|;
          var j := 0;
          while j < |banned|
            invariant 0 <= j <= |banned|
            invariant score == |adjList[vertex]| - CountIn(banned[..j], adjList[vertex])
          {
            if banned[j] in adjList[vertex] {
              score := score - 1;
            }
            assert banned[..j + 1][..j] == banned[..j];
            j := j + 1;
          }
          assert banned[..j] == banned;
          PassStep(g, vertexList, banned, newList, i, removed, list0, new0, score);
          if score <= 1 {
            vertexList := RemoveFirst(vertexList, vertex);
            banned := banned + [vertex];
            newList := [];
            removed := true;
          } else {
            newList := newList + [vertex];
          }
          i := i + 1;
        }
        PassDone(g, vertexList, banned, newList, i, removed, list0, new0);
      }
      PeelOrderAcyclic(g, banned);
      return false;
    }
  }
}
