/** Helpers shared by the two graph models: an optional value, duplicate-free
    sequences and the counting facts about them, Python's `list.remove`, and
    the ascending sort that the traversals apply to neighbour lists. */
module Common {

  /** A value that may be missing: the `None` of an optional argument, or an
      infinite distance. */
  datatype Option<T> = None | Some(value: T)

  /** No vertex of p before the last one is `end`: a walk that may end at
      `end` but does not go on from it. */
  predicate AvoidsUntilLast<T(==)>(p: seq<T>, end: Option<T>) {
    forall i :: 0 <= i < |p| - 1 ==> Some(p[i]) != end
  }

  /** No element occurs twice. */
  predicate Distinct<T(==)>(s: seq<T>) {
    forall i, j :: 0 <= i < j < |s| ==> s[i] != s[j]
  }

  /** The elements of a sequence, as a set. */
  function Elems<T>(s: seq<T>): set<T> {
    set x | x in s
  }

  /** The integers 0, 1, ..., n - 1, as a set. */
  function Below(n: nat): (r: set<int>)
    ensures forall x :: x in r <==> 0 <= x < n
    ensures |r| == n
  {
    if n == 0 then {} else
      var r := Below(n - 1) + {n - 1};
      assert n - 1 !in Below(n - 1);
      r
  }

  /** A duplicate-free sequence has exactly as many elements as its set. */
  lemma {:induction false} DistinctCard<T>(s: seq<T>)
    requires Distinct(s)
    ensures |Elems(s)| == |s|
  {
    if s != [] {
      var t := s[..|s| - 1];
      assert Distinct(t);
      DistinctCard(t);
      assert Elems(s) == Elems(t) + {s[|s| - 1]};
      assert s[|s| - 1] !in Elems(t);
    }
  }

  /** Pigeonhole: a duplicate-free sequence drawn from a set is no longer
      than the set. */
  lemma DistinctWithin<T>(s: seq<T>, S: set<T>)
    requires Distinct(s)
    requires forall x :: x in s ==> x in S
    ensures |s| <= |S|
  {
    DistinctCard(s);
    var e := Elems(s);
    assert S == e + (S - e);
    assert e * (S - e) == {};
  }

  /** Pigeonhole on vertex indices: a duplicate-free sequence of indices in
      [0, n) has at most n elements. */
  lemma DistinctBelow(s: seq<int>, n: nat)
    requires Distinct(s)
    requires forall i :: 0 <= i < |s| ==> 0 <= s[i] < n
    ensures |s| <= n
  {
    DistinctWithin(s, Below(n));
  }

  /** Position of the first occurrence of x in s. */
  function IndexOf<T(==)>(s: seq<T>, x: T): (i: nat)
    requires x in s
    ensures i < |s| && s[i] == x && x !in s[..i]
  {
    if s[0] == x then 0 else
      var i := 1 + IndexOf(s[1..], x);
      assert s[1..][..i - 1] == s[1..i];
      i
  }

  /** An element occurring in the first k places has its first occurrence
      before k. */
  lemma IndexOfBefore<T>(s: seq<T>, x: T, k: nat)
    requires k <= |s| && x in s[..k]
    ensures IndexOf(s, x) < k
  {
  }

  /** Python's `list.remove(x)`: drops the first occurrence of x. */
  function RemoveFirst<T(==)>(s: seq<T>, x: T): (r: seq<T>)
    requires x in s
    ensures |r| == |s| - 1
    ensures forall y :: y in r ==> y in s
    ensures forall y :: y in s && y != x ==> y in r
    ensures Distinct(s) ==> Distinct(r) && x !in r
  {
    if s[0] == x then
      assert Distinct(s) ==> x !in s[1..];
      s[1..]
    else
      var t := RemoveFirst(s[1..], x);
      assert Distinct(s) ==> s[0] !in t;
      [s[0]] + t
  }

  /** `list.remove(x)` keeps the order of the other entries: it is the list
      cut around the first occurrence of x. */
  lemma {:induction false} RemoveFirstSplit<T>(s: seq<T>, x: T)
    requires x in s
    ensures RemoveFirst(s, x) == s[..IndexOf(s, x)] + s[IndexOf(s, x) + 1..]
  {
    if s[0] != x {
      RemoveFirstSplit(s[1..], x);
      var i := IndexOf(s[1..], x);
      assert s[1..][..i] == s[1..i + 1];
      assert s[1..][i + 1..] == s[i + 2..];
      assert s[..i + 1] == [s[0]] + s[1..i + 1];
    }
  }

  /** `list.remove(x)` guarded by `if x in list`: removes x if it occurs. */
  function Discard<T(==)>(s: seq<T>, x: T): (r: seq<T>)
    ensures x !in s ==> r == s
    ensures forall y :: y in r ==> y in s
    ensures forall y :: y in s && y != x ==> y in r
    ensures Distinct(s) ==> Distinct(r) && x !in r
  {
    if x in s then RemoveFirst(s, x) else s
  }

  /** Non-decreasing order. */
  predicate SortedAsc(s: seq<int>) {
    forall i, j :: 0 <= i < j < |s| ==> s[i] <= s[j]
  }

  /** Inserts x into a sorted sequence, keeping it sorted. */
  function Insert(x: int, s: seq<int>): (r: seq<int>)
    requires SortedAsc(s)
    ensures SortedAsc(r)
    ensures multiset(r) == multiset(s) + multiset{x}
  {
    if s == [] || x <= s[0] then [x] + s else
      var t := Insert(x, s[1..]);
      InsertBehindHead(x, s, t);
      [s[0]] + t
  }

  /** The head of a sorted sequence stays in front of anything inserted
      behind it. */
  lemma InsertBehindHead(x: int, s: seq<int>, t: seq<int>)
    requires SortedAsc(s) && |s| > 0 && s[0] < x
    requires SortedAsc(t) && multiset(t) == multiset(s[1..]) + multiset{x}
    ensures SortedAsc([s[0]] + t)
    ensures multiset([s[0]] + t) == multiset(s) + multiset{x}
  {
    assert s == [s[0]] + s[1..];
    forall i | 0 <= i < |t| ensures s[0] <= t[i] {
      var y := t[i];
      assert y in multiset(t);
      if y != x {
        assert y in multiset(s[1..]);
        assert y in s[1..];
      }
    }
    var r := [s[0]] + t;
    forall i, j | 0 <= i < j < |r| ensures r[i] <= r[j] {
      if i > 0 {
        assert r[i] == t[i - 1] && r[j] == t[j - 1];
      }
    }
  }

  /** Python's `list.sort()` on integer labels: an ascending permutation. */
  function Sort(s: seq<int>): (r: seq<int>)
    ensures SortedAsc(r)
    ensures multiset(r) == multiset(s)
  {
    if s == [] then [] else
      assert s == [s[0]] + s[1..];
      Insert(s[0], Sort(s[1..]))
  }

  /** Python's `list.reverse()`. */
  function Reverse<T>(s: seq<T>): (r: seq<T>)
    ensures |r| == |s|
    ensures forall i :: 0 <= i < |s| ==> r[i] == s[|s| - 1 - i]
  {
    if s == [] then [] else Reverse(s[1..]) + [s[0]]
  }

  /** Sorting and then reversing keeps exactly the same entries. */
  lemma ReverseSortMembers(s: seq<int>)
    ensures forall y :: y in Reverse(Sort(s)) <==> y in s
  {
    var t := Sort(s);
    forall y ensures y in Reverse(t) <==> y in t {
      if y in t {
        var i :| 0 <= i < |t| && t[i] == y;
        assert Reverse(t)[|t| - 1 - i] == y;
      }
    }
    forall y ensures y in t <==> y in s {
      assert y in t <==> y in multiset(t);
      assert y in s <==> y in multiset(s);
    }
  }

  /** Sorting keeps exactly the same entries. */
  lemma SortMembers(s: seq<int>)
    ensures forall y :: y in Sort(s) <==> y in s
  {
    var t := Sort(s);
    forall y ensures y in t <==> y in s {
      assert y in t <==> y in multiset(t);
      assert y in s <==> y in multiset(s);
    }
  }

  /** An entry of a stack other than its top is still there after a pop. */
  lemma InBelowTop<T>(s: seq<T>, x: T)
    requires x in s && x != s[|s| - 1]
    ensures x in s[..|s| - 1]
  {
    var i :| 0 <= i < |s| && s[i] == x;
    assert s[..|s| - 1][i] == x;
  }

  /** An entry of a queue other than its front is still there after a pop. */
  lemma InBehindFront<T>(q: seq<T>, x: T)
    requires x in q && x != q[0]
    ensures x in q[1..]
  {
    var i :| 0 <= i < |q| && q[i] == x;
    assert q[1..][i - 1] == x;
  }

  /** How many entries at the front of q already occur in r: a FIFO queue
      whose front entries were all listed before shrinks by one per pop. */
  function LeadingIn<T(==)>(q: seq<T>, r: seq<T>): (n: nat)
    ensures n <= |q|
  {
    if q == [] || q[0] !in r then 0 else 1 + LeadingIn(q[1..], r)
  }

  /** Appending entries that start with an unlisted one does not change the
      count of listed entries at the front. */
  lemma {:induction false} LeadingInAppend<T>(q: seq<T>, t: seq<T>, r: seq<T>)
    requires t == [] || t[0] !in r
    ensures LeadingIn(q + t, r) == LeadingIn(q, r)
  {
    if q == [] {
      assert q + t == t;
    } else {
      assert (q + t)[0] == q[0];
      assert (q + t)[1..] == q[1..] + t;
      if q[0] in r {
        LeadingInAppend(q[1..], t, r);
      }
    }
  }

  /** How many entries at the top (the end) of a stack already occur in r. */
  function TrailingIn<T(==)>(s: seq<T>, r: seq<T>): (n: nat)
    ensures n <= |s|
  {
    if s == [] || s[|s| - 1] !in r then 0 else 1 + TrailingIn(s[..|s| - 1], r)
  }

  /** Python's `list.pop(i)` for 0 <= i < len: s without its i-th entry. */
  function RemoveAt<T>(s: seq<T>, i: int): (r: seq<T>)
    requires 0 <= i < |s|
    ensures |r| == |s| - 1
    ensures forall k :: 0 <= k < |r| ==> r[k] == s[if k < i then k else k + 1]
    ensures forall k :: 0 <= k < |s| && k != i ==> s[k] in r
  {
    var r := s[..i] + s[i + 1..];
    assert forall k :: 0 <= k < |s| && k != i ==> s[k] == r[if k < i then k else k - 1];
    r
  }
}
