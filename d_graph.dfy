/** The directed weighted graph of d_graph.py: an object holding a vertex
    count and an adjacency matrix that its methods update in place, and the
    traversals, cycle check and shortest-path computation that read them. */
module DGraph {
  import opened Common
  import opened MatrixGraph

  /** (src, dst) comes before (src', dst') in row-major order. */
  predicate RowMajorBefore(a: Edge, b: Edge) {
    a.0 < b.0 || (a.0 == b.0 && a.1 < b.1)
  }

  /** The work left in the frames of the depth-first search: each frame
      still has n + 1 - next steps to take over its row. */
  function Pending(next: seq<int>, n: int): nat
    requires forall k :: 0 <= k < |next| ==> next[k] <= n
  {
    if next == [] then 0 else Pending(next[..|next| - 1], n) + (n + 1 - next[|next| - 1])
  }

  /** The state of dfs_rec between two steps: `frames` are the vertices whose
      calls are still active (innermost last), `next[k]` the column the call
      for frames[k] looks at next. Every active vertex is listed and is not
      `end`; every column an active call has passed that holds an edge leads
      to a listed vertex; and a listed vertex whose call has returned has all
      its out-neighbours listed. */
  ghost predicate DfsFrames(m: Matrix, end: Option<int>, stack: seq<int>, frames: seq<int>, next: seq<int>) {
    && |frames| == |next|
    && Distinct(frames)
    && (forall k :: 0 <= k < |frames| ==> frames[k] in stack && Some(frames[k]) != end && 0 <= next[k] <= |m|)
    && (forall k, w :: 0 <= k < |frames| && 0 <= w < next[k] && HasEdge(m, frames[k], w) ==> w in stack)
    && (forall x, w :: x in stack && Some(x) != end && x !in frames && HasEdge(m, x, w) ==> w in stack)
  }

  /** Returning from the innermost call once its row is done. */
  lemma DfsReturn(m: Matrix, end: Option<int>, stack: seq<int>, frames: seq<int>, next: seq<int>)
    requires WellFormed(m)
    requires DfsFrames(m, end, stack, frames, next) && frames != [] && next[|next| - 1] == |m|
    ensures DfsFrames(m, end, stack, frames[..|frames| - 1], next[..|next| - 1])
    ensures Pending(next[..|next| - 1], |m|) < Pending(next, |m|)
  {
    var top := |frames| - 1;
    var f, x := frames[..top], next[..top];
    forall k | 0 <= k < |f| ensures f[k] == frames[k] && x[k] == next[k] {
    }
    forall y, w | y in stack && Some(y) != end && y !in f && HasEdge(m, y, w) ensures w in stack {
      if y == frames[top] {
        assert 0 <= w < next[top];
      } else {
        assert y !in frames;
      }
    }
  }

  /** The innermost call moves past a column that holds no edge to an
      unlisted vertex. */
  lemma DfsSkip(m: Matrix, end: Option<int>, stack: seq<int>, frames: seq<int>, next: seq<int>)
    requires WellFormed(m)
    requires DfsFrames(m, end, stack, frames, next) && frames != []
    requires next[|next| - 1] < |m|
    requires !HasEdge(m, frames[|frames| - 1], next[|next| - 1]) || next[|next| - 1] in stack
    ensures DfsFrames(m, end, stack, frames, next[|next| - 1 := next[|next| - 1] + 1])
    ensures Pending(next[|next| - 1 := next[|next| - 1] + 1], |m|) < Pending(next, |m|)
  {
    var top := |next| - 1;
    var x := next[top := next[top] + 1];
    assert x[..top] == next[..top];
  }

  /** The innermost call finds an edge to an unlisted vertex c: c is listed
      and, unless it is `end`, its own call starts. */
  lemma DfsDescend(m: Matrix, end: Option<int>, stack: seq<int>, frames: seq<int>, next: seq<int>)
    requires WellFormed(m)
    requires DfsFrames(m, end, stack, frames, next) && frames != []
    requires next[|next| - 1] < |m|
    requires next[|next| - 1] !in stack
    ensures var c := next[|next| - 1];
      var x := next[|next| - 1 := c + 1];
      if Some(c) != end then DfsFrames(m, end, stack + [c], frames + [c], x + [0])
      else DfsFrames(m, end, stack + [c], frames, x)
  {
    var c := next[|next| - 1];
    if Some(c) != end {
      DescendPush(m, end, stack, frames, next);
    } else {
      DescendToEnd(m, end, stack, frames, next);
    }
  }

  /** DfsDescend when c is `end`: listed, with no call of its own. */
  lemma DescendToEnd(m: Matrix, end: Option<int>, stack: seq<int>, frames: seq<int>, next: seq<int>)
    requires DfsFrames(m, end, stack, frames, next) && frames != []
    requires next[|next| - 1] < |m| && next[|next| - 1] !in stack
    requires Some(next[|next| - 1]) == end
    ensures DfsFrames(m, end, stack + [next[|next| - 1]], frames, next[|next| - 1 := next[|next| - 1] + 1])
  {
    var top := |next| - 1;
    var c := next[top];
    var x := next[top := c + 1];
    var s := stack + [c];
    forall k, w | 0 <= k < |frames| && 0 <= w < x[k] && HasEdge(m, frames[k], w) ensures w in s {
      if k != top || w != c {
        assert w < next[k];
      }
    }
    forall y, w | y in s && Some(y) != end && y !in frames && HasEdge(m, y, w) ensures w in s {
      assert y in stack;
    }
  }

  /** DfsDescend when c is not `end`: listed, and its call starts at
      column 0. */
  lemma DescendPush(m: Matrix, end: Option<int>, stack: seq<int>, frames: seq<int>, next: seq<int>)
    requires DfsFrames(m, end, stack, frames, next) && frames != []
    requires next[|next| - 1] < |m| && next[|next| - 1] !in stack
    requires Some(next[|next| - 1]) != end
    ensures var c := next[|next| - 1];
      DfsFrames(m, end, stack + [c], frames + [c], next[|next| - 1 := c + 1] + [0])
  {
    var top := |next| - 1;
    var c := next[top];
    var x := next[top := c + 1];
    var s := stack + [c];
    var f, y := frames + [c], x + [0];
    forall k | 0 <= k < |frames| ensures frames[k] != c {
      assert frames[k] in stack;
    }
    assert Distinct(f) by {
      forall i, j | 0 <= i < j < |f| ensures f[i] != f[j] {
        if j < |frames| {
          assert f[i] == frames[i] && f[j] == frames[j];
        }
      }
    }
    forall k | 0 <= k < |f| ensures f[k] in s && Some(f[k]) != end && 0 <= y[k] <= |m| {
      if k < |frames| {
        assert f[k] == frames[k] && y[k] == x[k];
      }
    }
    forall k, w | 0 <= k < |f| && 0 <= w < y[k] && HasEdge(m, f[k], w) ensures w in s {
      if k < |frames| {
        assert f[k] == frames[k] && y[k] == x[k];
        if k != top || w != c {
          assert w < next[k];
        }
      }
    }
    forall z, w | z in s && Some(z) != end && z !in f && HasEdge(m, z, w) ensures w in s {
      assert z in stack && z !in frames;
    }
  }

  /** The whole loop state of dfs from `start`: the frames and, on the
      stack, distinct reachable vertices starting with `start`. */
  ghost predicate DfsLoop(m: Matrix, start: int, end: Option<int>, stack: seq<int>, frames: seq<int>, next: seq<int>) {
    && WellFormed(m)
    && DfsFrames(m, end, stack, frames, next)
    && Distinct(stack) && |stack| > 0 && stack[0] == start && |stack| <= |m|
    && forall i :: 0 <= i < |stack| ==> 0 <= stack[i] < |m| && ReachableAvoiding(m, start, stack[i], end)
  }

  /** DfsDescend, with the listed vertices kept reachable and in bound. */
  lemma DfsDescendLoop(m: Matrix, start: int, end: Option<int>, stack: seq<int>, frames: seq<int>, next: seq<int>)
    requires DfsLoop(m, start, end, stack, frames, next) && frames != []
    requires next[|next| - 1] < |m| && next[|next| - 1] !in stack
    requires HasEdge(m, frames[|frames| - 1], next[|next| - 1])
    ensures var c := next[|next| - 1];
      var x := next[|next| - 1 := c + 1];
      if Some(c) != end then DfsLoop(m, start, end, stack + [c], frames + [c], x + [0])
      else DfsLoop(m, start, end, stack + [c], frames, x)
  {
    var top := |frames| - 1;
    var vertex, c := frames[top], next[top];
    DfsDescend(m, end, stack, frames, next);
    assert vertex in stack && Some(vertex) != end;
    ReachableAvoidingStep(m, start, vertex, c, end);
    var s := stack + [c];
    assert forall i :: 0 <= i < |s| ==> 0 <= s[i] < |m| && ReachableAvoiding(m, start, s[i], end);
    DistinctBelow(s, |m|);
  }

  /** With no frame left, the stack holds exactly the vertices reachable
      from `start` without going on from `end`. */
  lemma DfsDone(m: Matrix, start: int, end: Option<int>, stack: seq<int>)
    requires DfsLoop(m, start, end, stack, [], []) && 0 <= start < |m| && Some(start) != end
    ensures Distinct(stack) && |stack| > 0 && stack[0] == start
    ensures forall v :: v in stack <==> 0 <= start < |m| && Some(start) != end && ReachableAvoiding(m, start, v, end)
  {
    assert start in stack;
    ClosedContainsReachable(m, start, stack, end);
  }

  /** The state of bfs_rec between two calls: listed and queued vertices are
      reachable from s without going on from `end`, no listed vertex is
      `end`, and every out-neighbour of a listed vertex is listed or queued. */
  ghost predicate BfsState(m: Matrix, s: int, end: Option<int>, visited: seq<int>, queue: seq<int>) {
    && Distinct(visited) && |visited| <= |m|
    && (forall i :: 0 <= i < |visited| ==>
          0 <= visited[i] < |m| && Some(visited[i]) != end && ReachableAvoiding(m, s, visited[i], end))
    && (forall i :: 0 <= i < |queue| ==> 0 <= queue[i] < |m| && ReachableAvoiding(m, s, queue[i], end))
    && (forall x, w :: x in visited && HasEdge(m, x, w) ==> w in visited || w in queue)
  }

  /** One call of bfs_rec that does not stop: the front vertex is listed in
      r (if it was not already) and its out-neighbours t not in r are queued.
      Either the list grows or the count of listed entries at the front
      drops. */
  lemma BfsStep(m: Matrix, s: int, end: Option<int>, visited: seq<int>, queue: seq<int>, r: seq<int>, t: seq<int>)
    requires WellFormed(m)
    requires BfsState(m, s, end, visited, queue) && queue != [] && Some(queue[0]) != end
    requires r == if queue[0] in visited then visited else visited + [queue[0]]
    requires forall w :: w in t <==> HasEdge(m, queue[0], w) && w !in r
    ensures BfsState(m, s, end, r, queue[1..] + t)
    ensures |r| > |visited| || LeadingIn(queue[1..] + t, r) < LeadingIn(queue, visited)
  {
    var v := queue[0];
    var q := queue[1..] + t;
    assert 0 <= v < |m| && ReachableAvoiding(m, s, v, end);
    if v !in visited {
      assert Distinct(r);
      DistinctBelow(r, |m|);
    }
    assert forall i :: 0 <= i < |r| ==>
      0 <= r[i] < |m| && Some(r[i]) != end && ReachableAvoiding(m, s, r[i], end);
    forall w | w in t ensures 0 <= w < |m| && ReachableAvoiding(m, s, w, end) {
      ReachableAvoidingStep(m, s, v, w, end);
    }
    forall i | 0 <= i < |q| ensures 0 <= q[i] < |m| && ReachableAvoiding(m, s, q[i], end) {
      if i < |queue| - 1 {
        assert q[i] == queue[i + 1];
      } else {
        assert q[i] in t;
      }
    }
    forall x, w | x in r && HasEdge(m, x, w) ensures w in r || w in q {
      if x != v && w !in r {
        assert w in queue;
        assert w != v;
        assert w in queue[1..];
      }
    }
    if t != [] {
      assert t[0] in t;
    }
    LeadingInAppend(queue[1..], t, r);
  }

  /** The working copy of has_cycle: row and column i of `copy` belong to the
      original vertex ids[i], and every cell is the original one. */
  ghost predicate CopyOf(m: Matrix, copy: Matrix, ids: seq<int>) {
    && WellFormed(m) && |copy| == |ids| && Distinct(ids)
    && (forall i :: 0 <= i < |ids| ==> 0 <= ids[i] < |m| && |copy[i]| == |ids|)
    && (forall i, j :: 0 <= i < |ids| && 0 <= j < |ids| ==> copy[i][j] == m[ids[i]][ids[j]])
  }

  /** The row has a nonzero cell (an outgoing edge that is left). */
  predicate HasNonzero(row: seq<int>) {
    exists j :: 0 <= j < |row| && row[j] != 0
  }

  /** When every row left has an edge, every vertex left has a successor
      that is left. */
  lemma SuccessorsFromCopy(m: Matrix, copy: Matrix, ids: seq<int>)
    requires WellFormed(m) && CopyOf(m, copy, ids)
    requires forall i :: 0 <= i < |copy| ==> HasNonzero(copy[i])
    ensures EverySuccessorIn(m, ids)
  {
    forall x | x in ids ensures HasSuccessorIn(m, x, ids) {
      var i :| 0 <= i < |ids| && ids[i] == x;
      var j :| 0 <= j < |copy[i]| && copy[i][j] != 0;
      assert HasEdge(m, x, ids[j]) && ids[j] in ids;
    }
  }

  /** Removing vertex ids[c], whose row is all zero: its out-neighbours were
      removed before it, and the copy of what is left is still faithful. */
  lemma StripSink(m: Matrix, copy: Matrix, ids: seq<int>, order: seq<int>, c: int, rest: Matrix)
    requires WellFormed(m) && CopyOf(m, copy, ids) && SinksFirst(m, order)
    requires forall v :: 0 <= v < |m| ==> v in ids || v in order
    requires 0 <= c < |copy| && !HasNonzero(copy[c])
    requires |rest| == |copy| - 1
    requires forall i :: 0 <= i < |rest| ==> rest[i] == RemoveAt(RemoveAt(copy, c)[i], c)
    ensures CopyOf(m, rest, RemoveAt(ids, c))
    ensures SinksFirst(m, order + [ids[c]])
    ensures forall v :: 0 <= v < |m| ==> v in RemoveAt(ids, c) || v in order + [ids[c]]
  {
    var u := ids[c];
    forall w | HasEdge(m, u, w) ensures w in order {
      forall j | 0 <= j < |ids| ensures ids[j] != w {
        assert copy[c][j] == m[u][ids[j]];
      }
    }
    SinksFirstExtend(m, order, u);
    CopyWithout(m, copy, ids, c, rest);
  }

  /** Deleting row c and column c of a faithful copy, and entry c of its
      ids, leaves a faithful copy. */
  lemma CopyWithout(m: Matrix, copy: Matrix, ids: seq<int>, c: int, rest: Matrix)
    requires CopyOf(m, copy, ids) && 0 <= c < |copy|
    requires |rest| == |copy| - 1
    requires forall i :: 0 <= i < |rest| ==> rest[i] == RemoveAt(RemoveAt(copy, c)[i], c)
    ensures CopyOf(m, rest, RemoveAt(ids, c))
  {
    var left := RemoveAt(ids, c);
    forall i | 0 <= i < |left| ensures 0 <= left[i] < |m| && |rest[i]| == |left| {
      CellWithout(copy, c, rest, i, 0);
    }
    forall i, j | 0 <= i < |left| && 0 <= j < |left| ensures rest[i][j] == m[left[i]][left[j]] {
      CellWithout(copy, c, rest, i, j);
    }
    DistinctWithout(ids, c);
  }

  lemma DistinctWithout(ids: seq<int>, c: int)
    requires Distinct(ids) && 0 <= c < |ids|
    ensures Distinct(RemoveAt(ids, c))
  {
    var left := RemoveAt(ids, c);
    forall i, j | 0 <= i < j < |left| ensures left[i] != left[j] {
      var i', j' := if i < c then i else i + 1, if j < c then j else j + 1;
      assert left[i] == ids[i'] && left[j] == ids[j'];
    }
  }

  /** Cell (i, j) of a square matrix with row and column c deleted. */
  lemma CellWithout(copy: Matrix, c: int, rest: Matrix, i: int, j: int)
    requires 0 <= c < |copy| && forall k :: 0 <= k < |copy| ==> |copy[k]| == |copy|
    requires |rest| == |copy| - 1
    requires forall k :: 0 <= k < |rest| ==> rest[k] == RemoveAt(RemoveAt(copy, c)[k], c)
    requires 0 <= i < |rest| && 0 <= j < |rest|
    ensures |rest[i]| == |rest|
    ensures rest[i][j] == copy[if i < c then i else i + 1][if j < c then j else j + 1]
  {
    var row := RemoveAt(copy, c)[i];
    assert row == copy[if i < c then i else i + 1];
    assert rest[i] == RemoveAt(row, c);
  }

  /** The walk p up to and including its i-th vertex. */
  function Through(p: seq<int>, i: int): seq<int>
    requires 0 <= i < |p|
  {
    p[..i + 1]
  }

  /** A queue entry (v, d) of dijkstra together with the walk p that produced
      it: p leads from s to v and weighs d, p repeats no vertex before its
      last, and every vertex of p before the last already has a distance no
      greater than the weight of p up to that vertex. */
  ghost predicate EntryOk(m: Matrix, s: int, dist: seq<Option<nat>>, e: (int, int), p: seq<int>) {
    && WellFormed(m) && |dist| == |m|
    && IsWalk(m, p, s, e.0) && Weight(m, p) == e.1 && e.1 >= 0
    && Distinct(p[..|p| - 1])
    && forall i {:trigger Through(p, i)} :: 0 <= i < |p| - 1 ==>
         ValidPath(m, Through(p, i)) && dist[p[i]].Some? && dist[p[i]].value <= Weight(m, Through(p, i))
  }

  /** Every finite distance is relaxed along each edge out of its vertex, or
      the queue still holds the entry that would relax it. */
  ghost predicate RelaxedOrQueued(m: Matrix, dist: seq<Option<nat>>, queue: seq<(int, int)>) {
    && WellFormed(m) && |dist| == |m|
    && forall u, x :: 0 <= u < |m| && 0 <= x < |m| && dist[u].Some? && HasEdge(m, u, x) ==>
         (dist[x].Some? && dist[x].value <= dist[u].value + m[u][x]) || (x, dist[u].value + m[u][x]) in queue
  }

  /** No distance of `before` got worse in `after`. */
  ghost predicate NoWorse(after: seq<Option<nat>>, before: seq<Option<nat>>) {
    && |after| == |before|
    && forall v :: 0 <= v < |before| && before[v].Some? ==> after[v].Some? && after[v].value <= before[v].value
  }

  /** An entry stays well-formed when distances only improve. */
  lemma EntryNoWorse(m: Matrix, s: int, dist: seq<Option<nat>>, dist': seq<Option<nat>>, e: (int, int), p: seq<int>)
    requires EntryOk(m, s, dist, e, p) && NoWorse(dist', dist)
    ensures EntryOk(m, s, dist', e, p)
  {
    forall i | 0 <= i < |p| - 1
      ensures ValidPath(m, Through(p, i)) && dist'[p[i]].Some? && dist'[p[i]].value <= Weight(m, Through(p, i))
    {
      assert 0 <= p[i] < |dist|;
    }
  }

  /** An entry that improves its vertex's distance came along a walk without
      repeated vertices: otherwise its vertex had a distance no greater than
      the weight of an earlier, strictly lighter prefix. */
  lemma ImprovingWalkIsSimple(m: Matrix, s: int, dist: seq<Option<nat>>, e: (int, int), p: seq<int>)
    requires EntryOk(m, s, dist, e, p)
    requires dist[e.0].None? || dist[e.0].value > e.1
    ensures Distinct(p)
  {
    var last := |p| - 1;
    forall i | 0 <= i < last ensures p[i] != p[last] {
      PrefixWeighsLess(m, p, i + 1);
      var pre := Through(p, i);
      assert pre == p[..i + 1];
      assert dist[p[i]].Some? && dist[p[i]].value <= Weight(m, pre);
      assert Weight(m, pre) < e.1;
    }
    var q := p[..last];
    assert Distinct(q);
    forall i, j | 0 <= i < j < |p| ensures p[i] != p[j] {
      if j < last {
        assert p[i] == q[i] && p[j] == q[j];
      }
    }
  }

  /** The entry pushed for an edge w -> x out of a vertex just given distance
      d by the entry (w, d) with simple walk p. */
  lemma EntryExtend(m: Matrix, s: int, dist: seq<Option<nat>>, w: int, d: int, p: seq<int>, x: int)
    requires EntryOk(m, s, dist, (w, d), p) && Distinct(p)
    requires dist[w] == Some(d) && HasEdge(m, w, x)
    ensures EntryOk(m, s, dist, (x, d + m[w][x]), p + [x])
  {
    AppendWeight(m, p, x);
    var q := p + [x];
    assert q[..|q| - 1] == p;
    forall i | 0 <= i < |q| - 1
      ensures ValidPath(m, Through(q, i)) && dist[q[i]].Some? && dist[q[i]].value <= Weight(m, Through(q, i))
    {
      ThroughAppend(p, x, i);
      if i == |p| - 1 {
        assert Through(p, i) == p;
        assert q[i] == w;
      } else {
        assert q[i] == p[i];
      }
    }
  }

  lemma ThroughAppend(p: seq<int>, x: int, i: int)
    requires 0 <= i < |p|
    ensures Through(p + [x], i) == Through(p, i)
  {
  }

  /** Dropping an entry that does not improve its vertex keeps every
      relaxation accounted for. */
  lemma RelaxAfterSkip(m: Matrix, dist: seq<Option<nat>>, queue: seq<(int, int)>)
    requires RelaxedOrQueued(m, dist, queue) && queue != []
    requires 0 <= queue[0].0 < |m| && dist[queue[0].0].Some? && dist[queue[0].0].value <= queue[0].1
    ensures RelaxedOrQueued(m, dist, queue[1..])
  {
    forall u, x | 0 <= u < |m| && 0 <= x < |m| && dist[u].Some? && HasEdge(m, u, x)
      && !(dist[x].Some? && dist[x].value <= dist[u].value + m[u][x])
      ensures (x, dist[u].value + m[u][x]) in queue[1..]
    {
      assert (x, dist[u].value + m[u][x]) in queue;
    }
  }

  /** Improving vertex w to distance d and queueing an entry for every edge
      out of w keeps every relaxation accounted for. */
  lemma RelaxAfterImprove(m: Matrix, dist: seq<Option<nat>>, queue: seq<(int, int)>,
                          dist': seq<Option<nat>>, queue': seq<(int, int)>, w: int, d: nat)
    requires RelaxedOrQueued(m, dist, queue) && queue != [] && queue[0] == (w, d)
    requires 0 <= w < |m| && dist' == dist[w := Some(d)] && (dist[w].None? || dist[w].value > d)
    requires forall e :: e in queue[1..] ==> e in queue'
    requires forall x :: HasEdge(m, w, x) ==> (x, d + m[w][x]) in queue'
    ensures RelaxedOrQueued(m, dist', queue')
  {
    forall u, x | 0 <= u < |m| && 0 <= x < |m| && dist'[u].Some? && HasEdge(m, u, x)
      && !(dist'[x].Some? && dist'[x].value <= dist'[u].value + m[u][x])
      ensures (x, dist'[u].value + m[u][x]) in queue'
    {
      if u != w {
        var e := (x, dist[u].value + m[u][x]);
        assert e in queue && e != queue[0];
        assert e in queue[1..];
      }
    }
  }

  /** The cost of one distance in the termination measure: its value, or
      one more than any value it can take when it is infinite. */
  function Cost(d: Option<nat>, bound: nat): nat {
    if d.Some? then d.value else bound + 1
  }

  /** The sum of the costs of all distances. */
  function Potential(dist: seq<Option<nat>>, bound: nat): nat {
    if dist == [] then 0 else Potential(dist[..|dist| - 1], bound) + Cost(dist[|dist| - 1], bound)
  }

  lemma {:induction false} PotentialUpdate(dist: seq<Option<nat>>, i: int, x: Option<nat>, bound: nat)
    requires 0 <= i < |dist|
    ensures Potential(dist[i := x], bound) + Cost(dist[i], bound) == Potential(dist, bound) + Cost(x, bound)
  {
    var last := |dist| - 1;
    var u := dist[i := x];
    if i == last {
      assert u[..last] == dist[..last];
    } else {
      assert u[..last] == dist[..last][i := x];
      PotentialUpdate(dist[..last], i, x, bound);
    }
  }

  /** Every queued entry is accounted for by its walk. */
  ghost predicate EntriesOk(m: Matrix, s: int, dist: seq<Option<nat>>, queue: seq<(int, int)>, paths: seq<seq<int>>) {
    |paths| == |queue| && forall k :: 0 <= k < |queue| ==> EntryOk(m, s, dist, queue[k], paths[k])
  }

  /** The state of dijkstra's loop: queued entries come with their walks,
      every finite distance is the weight of a recorded walk and at most
      `bound`, the source has distance 0 once its entry has been taken, and
      every relaxation is done or queued. */
  ghost predicate DijkstraState(m: Matrix, s: int, dist: seq<Option<nat>>, queue: seq<(int, int)>,
                                paths: seq<seq<int>>, best: seq<seq<int>>, bound: nat) {
    && 0 <= s < |m| && |dist| == |m|
    && EntriesOk(m, s, dist, queue, paths)
    && Witnessed(m, s, dist, best)
    && (forall v :: 0 <= v < |m| && dist[v].Some? ==> dist[v].value <= bound)
    && (dist[s] == Some(0) || (queue != [] && queue[0] == (s, 0)))
    && RelaxedOrQueued(m, dist, queue)
  }

  /** Taking an entry that does not improve its vertex. */
  lemma DijkstraSkip(m: Matrix, s: int, dist: seq<Option<nat>>, queue: seq<(int, int)>,
                     paths: seq<seq<int>>, best: seq<seq<int>>, bound: nat)
    requires DijkstraState(m, s, dist, queue, paths, best, bound) && queue != []
    requires !(dist[queue[0].0].None? || dist[queue[0].0].value > queue[0].1)
    ensures DijkstraState(m, s, dist, queue[1..], paths[1..], best, bound)
  {
    assert EntryOk(m, s, dist, queue[0], paths[0]);
    RelaxAfterSkip(m, dist, queue);
    assert EntriesOk(m, s, dist, queue[1..], paths[1..]) by {
      forall k | 0 <= k < |queue| - 1 ensures EntryOk(m, s, dist, queue[1..][k], paths[1..][k]) {
        assert queue[1..][k] == queue[k + 1] && paths[1..][k] == paths[k + 1];
      }
    }
  }

  /** The entries left after the first stay accounted for when distances
      only improve. */
  lemma EntriesNoWorse(m: Matrix, s: int, dist: seq<Option<nat>>, dist': seq<Option<nat>>,
                       queue: seq<(int, int)>, paths: seq<seq<int>>)
    requires EntriesOk(m, s, dist, queue, paths) && queue != [] && NoWorse(dist', dist)
    ensures EntriesOk(m, s, dist', queue[1..], paths[1..])
  {
    forall k | 0 <= k < |queue| - 1 ensures EntryOk(m, s, dist', queue[1..][k], paths[1..][k]) {
      assert queue[1..][k] == queue[k + 1] && paths[1..][k] == paths[k + 1];
      EntryNoWorse(m, s, dist, dist', queue[k + 1], paths[k + 1]);
    }
  }

  /** Recording walk p for w keeps every finite distance a walk weight. */
  lemma WitnessedUpdate(m: Matrix, s: int, dist: seq<Option<nat>>, best: seq<seq<int>>, w: int, d: nat, p: seq<int>)
    requires Witnessed(m, s, dist, best) && 0 <= w < |m|
    requires IsWalk(m, p, s, w) && Weight(m, p) == d
    ensures Witnessed(m, s, dist[w := Some(d)], best[w := p])
  {
  }

  /** Taking an entry (w, d) with walk p that improves w: the new distance
      table keeps every other entry, records p, stays below the bound, and
      lowers the potential. */
  lemma DijkstraImprove(m: Matrix, s: int, dist: seq<Option<nat>>, queue: seq<(int, int)>,
                        paths: seq<seq<int>>, best: seq<seq<int>>, bound: nat,
                        w: int, d: int, p: seq<int>, dist': seq<Option<nat>>)
    requires DijkstraState(m, s, dist, queue, paths, best, bound) && bound == |m| * MaxCell(m)
    requires queue != [] && queue[0] == (w, d) && paths[0] == p
    requires 0 <= w < |m| && d >= 0 && dist' == dist[w := Some(d)]
    requires dist[w].None? || dist[w].value > d
    ensures Distinct(p) && EntryOk(m, s, dist', (w, d), p)
    ensures EntriesOk(m, s, dist', queue[1..], paths[1..])
    ensures Witnessed(m, s, dist', best[w := p])
    ensures forall v :: 0 <= v < |m| && dist'[v].Some? ==> dist'[v].value <= bound
    ensures dist'[s] == Some(0)
    ensures Potential(dist', bound) < Potential(dist, bound)
  {
    assert EntryOk(m, s, dist, (w, d), p);
    ImprovingWalkIsSimple(m, s, dist, (w, d), p);
    SimpleWalkWeight(m, p);
    PotentialUpdate(dist, w, Some(d), bound);
    assert NoWorse(dist', dist);
    EntryNoWorse(m, s, dist, dist', (w, d), p);
    EntriesNoWorse(m, s, dist, dist', queue, paths);
    WitnessedUpdate(m, s, dist, best, w, d, p);
  }

  /** The state before the first iteration: all distances infinite, the
      queue holding (s, 0) with the one-vertex walk. */
  lemma DijkstraInit(m: Matrix, s: int, dist: seq<Option<nat>>)
    requires WellFormed(m) && 0 <= s < |m| && |dist| == |m|
    requires forall v :: 0 <= v < |dist| ==> dist[v].None?
    ensures DijkstraState(m, s, dist, [(s, 0)], [[s]], seq(|m|, _ => []), |m| * MaxCell(m))
  {
    assert EntryOk(m, s, dist, (s, 0), [s]);
  }

  /** After the entries for the edges out of the improved vertex w have been
      queued, the loop state holds again. */
  lemma DijkstraRequeued(m: Matrix, s: int, dist: seq<Option<nat>>, queue: seq<(int, int)>,
                         dist': seq<Option<nat>>, queue': seq<(int, int)>, paths': seq<seq<int>>,
                         best': seq<seq<int>>, bound: nat, w: int, d: nat)
    requires RelaxedOrQueued(m, dist, queue) && queue != [] && queue[0] == (w, d)
    requires 0 <= w < |m| && dist' == dist[w := Some(d)] && (dist[w].None? || dist[w].value > d)
    requires forall e :: e in queue[1..] ==> e in queue'
    requires forall x :: HasEdge(m, w, x) ==> (x, d + m[w][x]) in queue'
    requires 0 <= s < |m| && EntriesOk(m, s, dist', queue', paths') && Witnessed(m, s, dist', best')
    requires forall v :: 0 <= v < |m| && dist'[v].Some? ==> dist'[v].value <= bound
    requires dist'[s] == Some(0)
    ensures DijkstraState(m, s, dist', queue', paths', best', bound)
  {
    RelaxAfterImprove(m, dist, queue, dist', queue', w, d);
  }

  /** With the queue empty, every distance is relaxed, so the table holds
      the shortest distances. */
  lemma DijkstraDone(m: Matrix, s: int, dist: seq<Option<nat>>, best: seq<seq<int>>, bound: nat)
    requires DijkstraState(m, s, dist, [], [], best, bound)
    ensures dist[s] == Some(0)
    ensures forall v :: 0 <= v < |m| ==> (dist[v].Some? <==> Reachable(m, s, v))
    ensures forall v :: 0 <= v < |m| && dist[v].Some? ==> IsShortest(m, s, v, dist[v].value)
  {
    assert Relaxed(m, dist);
    RelaxedIsShortest(m, s, dist, best);
  }

  /** The entries dijkstra queues for a vertex at distance d whose matrix
      row is `row`: (x, row[x] + d) for every nonzero cell, in column order. */
  function Offers(row: seq<int>, d: int): seq<(int, int)> {
    if row == [] then [] else
      var last := |row| - 1;
      Offers(row[..last], d) + if row[last] != 0 then [(last, row[last] + d)] else []
  }

  lemma OffersStep(row: seq<int>, d: int, k: int)
    requires 0 <= k < |row|
    ensures Offers(row[..k + 1], d) == Offers(row[..k], d) + if row[k] != 0 then [(k, row[k] + d)] else []
  {
    assert row[..k + 1][..k] == row[..k];
  }

  /** The offers are exactly the nonzero cells, each with the cell added to
      d. */
  lemma {:induction false} OffersMembers(row: seq<int>, d: int)
    ensures forall x, e :: (x, e) in Offers(row, d) <==> 0 <= x < |row| && row[x] != 0 && e == row[x] + d
  {
    if row != [] {
      var last := |row| - 1;
      OffersMembers(row[..last], d);
      assert forall x :: 0 <= x < last ==> row[..last][x] == row[x];
    }
  }

  lemma EntriesAppend(m: Matrix, s: int, dist: seq<Option<nat>>, queue: seq<(int, int)>, paths: seq<seq<int>>,
                      e: (int, int), p: seq<int>)
    requires EntriesOk(m, s, dist, queue, paths) && EntryOk(m, s, dist, e, p)
    ensures EntriesOk(m, s, dist, queue + [e], paths + [p])
  {
    var q, ps := queue + [e], paths + [p];
    forall k | 0 <= k < |q| ensures EntryOk(m, s, dist, q[k], ps[k]) {
      if k < |queue| {
        assert q[k] == queue[k] && ps[k] == paths[k];
      }
    }
  }

  /** The walks that go with Offers(row, d): p extended by the column. */
  ghost function OfferPaths(row: seq<int>, p: seq<int>): seq<seq<int>> {
    if row == [] then [] else
      var last := |row| - 1;
      OfferPaths(row[..last], p) + if row[last] != 0 then [p + [last]] else []
  }

  /** One more column of the row adds at most one entry and one walk. */
  lemma OffersExtend(queue: seq<(int, int)>, paths: seq<seq<int>>, row: seq<int>, d: int, p: seq<int>, k: int)
    requires 0 <= k < |row|
    ensures queue + Offers(row[..k + 1], d)
      == (queue + Offers(row[..k], d)) + if row[k] != 0 then [(k, row[k] + d)] else []
    ensures paths + OfferPaths(row[..k + 1], p)
      == (paths + OfferPaths(row[..k], p)) + if row[k] != 0 then [p + [k]] else []
  {
    assert row[..k + 1][..k] == row[..k];
  }

  /** Every entry queued for the edges out of w, just given distance d by
      the entry (w, d) with simple walk p, is accounted for by its walk. */
  lemma {:induction false} EntriesOffers(m: Matrix, s: int, dist: seq<Option<nat>>, queue: seq<(int, int)>,
                                         paths: seq<seq<int>>, w: int, d: int, p: seq<int>, k: nat)
    requires EntriesOk(m, s, dist, queue, paths)
    requires EntryOk(m, s, dist, (w, d), p) && Distinct(p) && dist[w] == Some(d)
    requires k <= |m|
    ensures EntriesOk(m, s, dist, queue + Offers(m[w][..k], d), paths + OfferPaths(m[w][..k], p))
  {
    if k == 0 {
      assert m[w][..k] == [];
      assert queue + [] == queue && paths + [] == paths;
    } else {
      EntriesOffers(m, s, dist, queue, paths, w, d, p, k - 1);
      OffersExtend(queue, paths, m[w], d, p, k - 1);
      if m[w][k - 1] != 0 {
        EntryExtend(m, s, dist, w, d, p, k - 1);
        EntriesAppend(m, s, dist, queue + Offers(m[w][..k - 1], d), paths + OfferPaths(m[w][..k - 1], p),
                      (k - 1, d + m[w][k - 1]), p + [k - 1]);
      } else {
        assert (queue + Offers(m[w][..k - 1], d)) + [] == queue + Offers(m[w][..k - 1], d);
        assert (paths + OfferPaths(m[w][..k - 1], p)) + [] == paths + OfferPaths(m[w][..k - 1], p);
      }
    }
  }

  /** One improving round of dijkstra: entry (w, d) with walk p fixes the
      distance of w at d, and the entries for the edges out of w join the
      queue. The state is kept and the potential drops. */
  lemma DijkstraImproveStep(m: Matrix, s: int, dist: seq<Option<nat>>, queue: seq<(int, int)>,
                            paths: seq<seq<int>>, best: seq<seq<int>>, bound: nat)
    requires DijkstraState(m, s, dist, queue, paths, best, bound) && bound == |m| * MaxCell(m)
    requires queue != [] && WellFormed(m)
    requires var v := queue[0]; 0 <= v.0 < |m| && (dist[v.0].None? || dist[v.0].value > v.1)
    ensures var v, p := queue[0], paths[0];
      var dist' := dist[v.0 := Some(v.1)];
      && DijkstraState(m, s, dist', queue[1..] + Offers(m[v.0], v.1), paths[1..] + OfferPaths(m[v.0], p),
                       best[v.0 := p], bound)
      && Potential(dist', bound) < Potential(dist, bound)
  {
    var v, p := queue[0], paths[0];
    var w, d := v.0, v.1;
    assert EntryOk(m, s, dist, v, p);
    var dist' := dist[w := Some(d)];
    DijkstraImprove(m, s, dist, queue, paths, best, bound, w, d, p, dist');
    var rest := queue[1..];
    EntriesOffers(m, s, dist', rest, paths[1..], w, d, p, |m|);
    assert m[w][..|m|] == m[w];
    OffersMembers(m[w], d);
    DijkstraRequeued(m, s, dist, queue, dist', rest + Offers(m[w], d), paths[1..] + OfferPaths(m[w], p),
                     best[w := p], bound, w, d);
  }

  /** The inner loop of dijkstra: appends an entry for every nonzero cell of
      the row, in column order. */
  method QueueOffers(row: seq<int>, d: int, queue: seq<(int, int)>) returns (queue': seq<(int, int)>)
    ensures queue' == queue + Offers(row, d)
  {
    queue' := queue;
    var index := 0;
    while index < |row|
      invariant 0 <= index <= |row|
      invariant queue' == queue + Offers(row[..index], d)
    {
      OffersStep(row, d, index);
      var el := row[index];
      if el != 0 {
        queue' := queue' + [(index, el + d)];
      }
      index := index + 1;
    }
    assert row[..index] == row;
  }

  class DirectedGraph {
    var vCount: nat
    var adj: Matrix

    /** The class invariant: the matrix has vCount rows, is square, has a
        zero diagonal and no negative cell. */
    ghost predicate Valid()
      reads this
    {
      |adj| == vCount && WellFormed(adj)
    }

    /** `DirectedGraph()`: the graph without vertices. */
    constructor ()
      ensures Valid() && vCount == 0 && adj == []
    {
      vCount := 0;
      adj := [];
    }

    /** `DirectedGraph(start_edges)`: MaxEndpoint + 1 vertices (so one vertex
        for an empty list), then add_edge for every entry in order. */
    constructor FromEdges(startEdges: seq<Edge>)
      ensures Valid()
      ensures vCount == MaxEndpoint(startEdges) + 1
      ensures adj == ApplyEdges(Zeros(vCount), startEdges)
    {
      vCount := 0;
      adj := [];
      new;
      var count := 0;
      var k := 0;
      while k < |startEdges|
        invariant 0 <= k <= |startEdges|
        invariant count == MaxEndpoint(startEdges[..k])
        invariant vCount == 0 && adj == []
      {
        MaxEndpointStep(startEdges, k);
        var u, v := startEdges[k].0, startEdges[k].1;
        count := if count >= u && count >= v then count else if u >= v then u else v;
        k := k + 1;
      }
      assert startEdges[..k] == startEdges;
      var i := 0;
      while i < count + 1
        invariant 0 <= i <= count + 1
        invariant Valid() && vCount == i && adj == Zeros(i)
      {
        WithVertexOfZeros(i);
        var _ := AddVertex();
        i := i + 1;
      }
      AddEach(startEdges);
    }

    /** The last loop of `DirectedGraph(start_edges)`: add_edge for every
        entry, in order. */
    method AddEach(edges: seq<Edge>)
      requires Valid()
      modifies this
      ensures Valid() && vCount == old(vCount)
      ensures adj == ApplyEdges(old(adj), edges)
    {
      var k := 0;
      while k < |edges|
        invariant 0 <= k <= |edges|
        invariant Valid() && vCount == old(vCount)
        invariant adj == ApplyEdges(old(adj), edges[..k])
      {
        var e := edges[k];
        AddEdge(e.0, e.1, e.2);
        ApplyEdgesStep(old(adj), edges, k);
        k := k + 1;
      }
      assert edges[..k] == edges;
    }

    /** add_vertex: one more vertex, with an all-zero row and column; every
        existing cell is kept. Returns the new vertex count. */
    method AddVertex() returns (count: nat)
      requires Valid()
      modifies this
      ensures Valid()
      ensures vCount == old(vCount) + 1 && count == vCount
      ensures adj == WithVertex(old(adj))
    {
      vCount := vCount + 1;
      var newVertex: seq<int> := [];
      var i := 0;
      while i < |adj|
        invariant vCount == old(vCount) + 1
        invariant 0 <= i <= |adj| && |adj| == |old(adj)|
        invariant forall k :: 0 <= k < i ==> adj[k] == old(adj)[k] + [0]
        invariant forall k :: i <= k < |adj| ==> adj[k] == old(adj)[k]
      {
        adj := adj[i := adj[i] + [0]];
        i := i + 1;
      }
      var x := 0;
      while x < vCount
        invariant vCount == old(vCount) + 1 && |adj| == |old(adj)|
        invariant forall k :: 0 <= k < |adj| ==> adj[k] == old(adj)[k] + [0]
        invariant 0 <= x <= vCount && |newVertex| == x
        invariant forall j :: 0 <= j < x ==> newVertex[j] == 0
      {
        newVertex := newVertex + [0];
        x := x + 1;
      }
      adj := adj + [newVertex];
      ghost var n := |old(adj)|;
      ghost var w := WithVertex(old(adj));
      assert |w| == n + 1 && WellFormed(w);
      forall k | 0 <= k < |adj| ensures adj[k] == w[k] {
        assert |w[k]| == n + 1;
        if k < n {
          assert |old(adj)[k]| == n;
        }
        forall j | 0 <= j < |w[k]| ensures adj[k][j] == w[k][j] {
        }
      }
      assert adj == w;
      count := vCount;
    }

    /** add_edge: sets cell [src][dst] to weight when the weight is positive
        and src, dst are distinct vertices in range; otherwise nothing. */
    method AddEdge(src: int, dst: int, weight: int := 1)
      requires Valid()
      modifies this
      ensures Valid() && vCount == old(vCount)
      ensures adj == WithEdge(old(adj), src, dst, weight)
    {
      if weight <= 0 {
        return;
      }
      if src < 0 || src >= |adj| {
        return;
      }
      if dst < 0 || dst >= |adj| {
        return;
      }
      if dst == src {
        return;
      }
      adj := adj[src := adj[src][dst := weight]];
    }

    /** remove_edge: zeroes cell [src][dst] when both are in range. */
    method RemoveEdge(src: int, dst: int)
      requires Valid()
      modifies this
      ensures Valid() && vCount == old(vCount)
      ensures adj == WithoutEdge(old(adj), src, dst)
    {
      if src < 0 || src >= |adj| {
        return;
      }
      if dst < 0 || dst >= |adj| {
        return;
      }
      adj := adj[src := adj[src][dst := 0]];
    }

    /** get_vertices: [0, 1, ..., vCount - 1]. */
    method GetVertices() returns (vertexList: seq<int>)
      requires Valid()
      ensures |vertexList| == vCount
      ensures forall i :: 0 <= i < |vertexList| ==> vertexList[i] == i
    {
      vertexList := [];
      var vertex := 0;
      var x := 0;
      while x < vCount
        invariant 0 <= x <= vCount && vertex == x && |vertexList| == x
        invariant forall i :: 0 <= i < x ==> vertexList[i] == i
      {
        vertexList := vertexList + [vertex];
        vertex := vertex + 1;
        x := x + 1;
      }
    }

    /** get_edges: exactly the nonzero cells, as (src, dst, weight), in
        row-major order (so without repetition). */
    method GetEdges() returns (edgeList: seq<Edge>)
      requires Valid()
      ensures forall k :: 0 <= k < |edgeList| ==>
        HasEdge(adj, edgeList[k].0, edgeList[k].1) && edgeList[k].2 == adj[edgeList[k].0][edgeList[k].1]
      ensures forall s, d :: HasEdge(adj, s, d) ==> (s, d, adj[s][d]) in edgeList
      ensures forall k, l :: 0 <= k < l < |edgeList| ==> RowMajorBefore(edgeList[k], edgeList[l])
    {
      var source := 0;
      edgeList := [];
      while source < |adj|
        invariant 0 <= source <= |adj|
        invariant forall k :: 0 <= k < |edgeList| ==>
          HasEdge(adj, edgeList[k].0, edgeList[k].1) && edgeList[k].2 == adj[edgeList[k].0][edgeList[k].1]
          && edgeList[k].0 < source
        invariant forall s, d :: 0 <= s < source && HasEdge(adj, s, d) ==> (s, d, adj[s][d]) in edgeList
        invariant forall k, l :: 0 <= k < l < |edgeList| ==> RowMajorBefore(edgeList[k], edgeList[l])
      {
        var row := adj[source];
        var destination := 0;
        while destination < |row|
          invariant 0 <= destination <= |row|
          invariant forall k :: 0 <= k < |edgeList| ==>
            HasEdge(adj, edgeList[k].0, edgeList[k].1) && edgeList[k].2 == adj[edgeList[k].0][edgeList[k].1]
            && (edgeList[k].0 < source || (edgeList[k].0 == source && edgeList[k].1 < destination))
          invariant forall s, d :: HasEdge(adj, s, d) && (s < source || (s == source && d < destination)) ==>
            (s, d, adj[s][d]) in edgeList
          invariant forall k, l :: 0 <= k < l < |edgeList| ==> RowMajorBefore(edgeList[k], edgeList[l])
        {
          if row[destination] != 0 {
            edgeList := edgeList + [(source, destination, row[destination])];
          }
          destination := destination + 1;
        }
        source := source + 1;
      }
    }

    /** is_valid_path with the range check it intends: true for [], for a
        single vertex exactly when it is in range, and otherwise exactly when
        every vertex is in range and every consecutive pair is an edge. */
    method IsValidPath(path: seq<int>) returns (valid: bool)
      requires Valid()
      ensures valid == ValidPath(adj, path)
    {
      var index := 1;
      if |path| == 0 {
        return true;
      }
      if |path| == 1 {
        return 0 <= path[0] < |adj|;
      }
      while index != |path|
        invariant 1 <= index <= |path|
        invariant index > 1 ==> forall i :: 0 <= i < index ==> 0 <= path[i] < |adj|
        invariant forall i :: 1 <= i < index ==> HasEdge(adj, path[i - 1], path[i])
      {
        if path[index] < 0 || path[index] >= |adj| {
          return false;
        }
        if path[index - 1] < 0 || path[index - 1] >= |adj| {
          return false;
        }
        if adj[path[index - 1]][path[index]] == 0 {
          assert !HasEdge(adj, path[index - 1], path[index]);
          return false;
        }
        index := index + 1;
      }
      return true;
    }
  
    /** dfs: the recursive dfs_rec, with its call frames made explicit as a
        stack of (vertex, next column) pairs. The result lists start first,
        has no repetition, and holds exactly the vertices reachable from start
        by a walk that does not go on from `end`; `end` itself is listed when
        reached. An out-of-range start (which the source does not check)
        gives [], as does start == end. */
    method Dfs(start: int, end: Option<int> := None) returns (stack: seq<int>)
      requires Valid()
      ensures Some(start) == end || !(0 <= start < vCount) ==> stack == []
      ensures Some(start) != end && 0 <= start < vCount ==> |stack| > 0 && stack[0] == start
      ensures Distinct(stack)
      ensures forall v :: v in stack <==>
        0 <= start < vCount && Some(start) != end && ReachableAvoiding(adj, start, v, end)
    {
      stack := [];
      if Some(start) == end || start < 0 || start >= |adj| {
        return;
      }
      var m := adj;
      var n := |m|;
      stack := [start];
      var frames: seq<int> := [start];
      var next: seq<int> := [0];
      ReachableAvoidingStart(m, start, end);
      while frames != []
        invariant DfsLoop(m, start, end, stack, frames, next)
        decreases n - |stack|, Pending(next, n)
      {
        var top := |frames| - 1;
        var vertex, counter := frames[top], next[top];
        if counter == n {
          DfsReturn(m, end, stack, frames, next);
          frames, next := frames[..top], next[..top];
        } else if m[vertex][counter] != 0 && counter !in stack {
          DfsDescendLoop(m, start, end, stack, frames, next);
          next := next[top := counter + 1];
          stack := stack + [counter];
          if Some(counter) != end {
            frames, next := frames + [counter], next + [0];
          }
        } else {
          DfsSkip(m, end, stack, frames, next);
          next := next[top := counter + 1];
        }
      }
      DfsDone(m, start, end, stack);
    }
  
    /** bfs: the recursive bfs_rec, as a loop over its FIFO queue. The
        result lists start first, has no repetition, never holds `end`, and
        holds only vertices reachable from start by a walk that does not go on
        from `end`; when `end` is absent or unreachable it holds every vertex
        reachable from start. An out-of-range start, or start == end, gives
        []. */
    method Bfs(start: int, end: Option<int> := None) returns (visited: seq<int>)
      requires Valid()
      ensures !(0 <= start < vCount) || Some(start) == end ==> visited == []
      ensures 0 <= start < vCount && Some(start) != end ==> |visited| > 0 && visited[0] == start
      ensures Distinct(visited)
      ensures forall v :: v in visited ==> Some(v) != end && ReachableAvoiding(adj, start, v, end)
      ensures 0 <= start < vCount && (end.None? || !Reachable(adj, start, end.value)) ==>
        forall v :: Reachable(adj, start, v) ==> v in visited
    {
      visited := [];
      if start < 0 || start >= |adj| {
        return;
      }
      var m := adj;
      var n := |m|;
      var queue := [start];
      ReachableAvoidingStart(m, start, end);
      while queue != []
        invariant BfsState(m, start, end, visited, queue)
        invariant visited == [] ==> queue == [start]
        invariant visited != [] ==> visited[0] == start
        decreases n - |visited|, LeadingIn(queue, visited)
      {
        var vertex := queue[0];
        if Some(vertex) == end {
          ReachableAvoidingIsReachable(m, start, vertex, end);
          return;
        }
        ghost var before, pending := visited, queue;
        queue := queue[1..];
        if vertex !in visited {
          visited := visited + [vertex];
        }
        var counter := 0;
        var sortList: seq<int> := [];
        while counter < n
          invariant 0 <= counter <= n
          invariant forall w :: w in sortList <==> 0 <= w < counter && m[vertex][w] != 0 && w !in visited
        {
          if m[vertex][counter] != 0 && counter !in visited {
            sortList := sortList + [counter];
          }
          counter := counter + 1;
        }
        ghost var found := sortList;
        sortList := Sort(sortList);
        assert forall w :: w in sortList <==> w in found by {
          forall w ensures w in sortList <==> w in found {
            assert w in sortList <==> w in multiset(sortList);
            assert w in found <==> w in multiset(found);
          }
        }
        BfsStep(m, start, end, before, pending, visited, sortList);
        queue := queue + sortList;
      }
      ClosedContainsReachable(m, start, visited, end);
      forall v | Reachable(m, start, v) && (end.None? || !Reachable(m, start, end.value))
        ensures ReachableAvoiding(m, start, v, end)
      {
        if end.Some? {
          ReachableWithoutEnd(m, start, v, end.value);
        } else {
          var p :| IsWalk(m, p, start, v);
          assert AvoidsUntilLast(p, end);
        }
      }
    }
  
    /** has_cycle: repeatedly removes, from a copy of the matrix, a vertex
        whose row has no nonzero cell (no outgoing edge to a vertex left),
        going back to the first row after each removal. True exactly when the
        graph has a cycle: if rows are left and none can be removed, every
        vertex left has a successor left; if all are removed, the removal
        order puts every vertex after its out-neighbours. */
    method HasCycle() returns (cyclic: bool)
      requires Valid()
      ensures cyclic == Cyclic(adj)
    {
      var m := adj;
      // The source's deep copy; sequences are values, so this is a copy.
      var listCopy := m;
      ghost var ids := seq(|m|, i => i);
      forall v | 0 <= v < |m| ensures v in ids {
        assert ids[v] == v;
      }
      ghost var order: seq<int> := [];
      var counter := 0;
      while |listCopy| > 0
        invariant CopyOf(m, listCopy, ids) && SinksFirst(m, order)
        invariant forall v :: 0 <= v < |m| ==> v in ids || v in order
        invariant 0 <= counter <= |listCopy|
        invariant forall i :: 0 <= i < counter ==> HasNonzero(listCopy[i])
        decreases |listCopy|, |listCopy| - counter
      {
        if counter == |listCopy| {
          SuccessorsFromCopy(m, listCopy, ids);
          CycleFromSuccessors(m, ids);
          return true;
        }
        var connections := 0;
        var row := listCopy[counter];
        var y := 0;
        while y < |row|
          invariant 0 <= y <= |row| && 0 <= connections <= y
          invariant connections == 0 <==> forall j :: 0 <= j < y ==> row[j] == 0
        {
          if row[y] != 0 {
            connections := connections + 1;
          }
          y := y + 1;
        }
        if connections < 1 {
          ghost var before := listCopy;
          listCopy := RemoveAt(listCopy, counter);
          var x := 0;
          while x < |listCopy|
            invariant 0 <= x <= |listCopy| == |before| - 1
            invariant forall i :: 0 <= i < x ==> listCopy[i] == RemoveAt(RemoveAt(before, counter)[i], counter)
            invariant forall i :: x <= i < |listCopy| ==> listCopy[i] == RemoveAt(before, counter)[i]
          {
            listCopy := listCopy[x := RemoveAt(listCopy[x], counter)];
            x := x + 1;
          }
          StripSink(m, before, ids, order, counter, listCopy);
          order := order + [ids[counter]];
          ids := RemoveAt(ids, counter);
          counter := 0;
        } else {
          counter := counter + 1;
        }
      }
      AcyclicFromSinksFirst(m, order);
      return false;
    }
  
    /** dijkstra: a FIFO worklist of (vertex, distance) entries, starting
        with (src, 0); an entry that improves its vertex's distance sets it
        and queues an entry for every edge out of it. The result has one
        entry per vertex: the least weight of a walk from src, or None
        (infinity) exactly when the vertex is unreachable. */
    method Dijkstra(src: int) returns (visited: seq<Option<nat>>)
      requires Valid() && 0 <= src < vCount
      ensures |visited| == vCount && visited[src] == Some(0)
      ensures forall v :: 0 <= v < vCount ==> (visited[v].Some? <==> Reachable(adj, src, v))
      ensures forall v :: 0 <= v < vCount && visited[v].Some? ==> IsShortest(adj, src, v, visited[v].value)
    {
      var m := adj;
      var n := |m|;
      visited := [];
      var x := 0;
      while x < n
        invariant 0 <= x <= n && |visited| == x
        invariant forall v :: 0 <= v < x ==> visited[v].None?
      {
        visited := visited + [None];
        x := x + 1;
      }
      var priorityQueue: seq<(int, int)> := [(src, 0)];
      ghost var paths: seq<seq<int>> := [[src]];
      ghost var best: seq<seq<int>> := seq(n, _ => []);
      ghost var bound := n * MaxCell(m);
      DijkstraInit(m, src, visited);
      while |priorityQueue| != 0
        invariant DijkstraState(m, src, visited, priorityQueue, paths, best, bound)
        decreases Potential(visited, bound), |priorityQueue|
      {
        var v := priorityQueue[0];
        assert EntryOk(m, src, visited, v, paths[0]);
        if visited[v.0] == None || visited[v.0].value > v.1 {
          ghost var p := paths[0];
          DijkstraImproveStep(m, src, visited, priorityQueue, paths, best, bound);
          visited := visited[v.0 := Some(v.1)];
          best := best[v.0 := p];
          paths := paths[1..] + OfferPaths(m[v.0], p);
          priorityQueue := QueueOffers(m[v.0], v.1, priorityQueue[1..]);
        } else {
          DijkstraSkip(m, src, visited, priorityQueue, paths, best, bound);
          priorityQueue, paths := priorityQueue[1..], paths[1..];
        }
      }
      DijkstraDone(m, src, visited, best, bound);
    }
  }
}
