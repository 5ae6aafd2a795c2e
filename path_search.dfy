/**
  The recursive depth-first path search of the Graph class. It only reads
  the adjacency map, so it is modelled as a function of the map; the
  running path the search extends is an explicit value parameter.

  A set has no order of its own, so the order in which a vertex's
  neighbours are tried is a parameter as well: order[u] lists the
  neighbours of u, each once.

  DfsRecursive is the search as written, which gives up after its first
  neighbour; DfsExhaustive is the search it evidently means, which tries
  every neighbour in turn. The lemmas at the end show where the two part.
 */
module PathSearch {
  import opened Walks
  import opened Graphs

  /** order[u] enumerates the neighbours of every registered u, without repetition. */
  ghost predicate IsIterationOrder<V(!new)>(g: map<V, set<V>>, order: map<V, seq<V>>) {
    forall u :: u in g ==> u in order && NoDuplicates(order[u]) && (forall x :: x in order[u] <==> x in g[u])
  }

  /** Every position of p from n on holds a vertex that does not occur earlier in p. */
  ghost predicate FreshFrom<V(!new)>(n: nat, p: seq<V>) {
    forall i, j :: 0 <= i < j < |p| && n <= j ==> p[i] != p[j]
  }

  /** The search stopped at the last vertex of p because the first neighbour it tries there is already on p. */
  ghost predicate StopsAtVisited<V(!new)>(order: map<V, seq<V>>, p: seq<V>) {
    |p| > 0 && Last(p) in order && |order[Last(p)]| > 0 && order[Last(p)][0] in p
  }

  /**
    p is what a search from start with the given path may return: it
    extends path + [start] by a walk from start, and every vertex it
    appends is new to p.
   */
  ghost predicate Extends<V(!new)>(g: map<V, set<V>>, path: seq<V>, start: V, p: seq<V>) {
    && path + [start] <= p
    && IsWalkFrom(g, p[|path|..], start)
    && FreshFrom(|path| + 1, p)
  }

  /** Stopping at once: the path with start appended. */
  lemma ExtendsHere<V(!new)>(g: map<V, set<V>>, path: seq<V>, start: V)
    ensures Extends(g, path, start, path + [start])
  {
    assert (path + [start])[|path|..] == [start];
  }

  /** A search from a new neighbour v of start is a search from start. */
  lemma ExtendsStepBack<V(!new)>(g: map<V, set<V>>, path: seq<V>, start: V, v: V, p: seq<V>)
    requires Edge(g, start, v) && v !in path + [start]
    requires Extends(g, path + [start], v, p)
    ensures Extends(g, path, start, p)
  {
    var n := |path|;
    assert p[..n + 1] == path + [start] && p[n + 1] == v;
    PrefixTrans(path + [start], (path + [start]) + [v], p);
    var q := p[n..];
    forall i | 0 <= i < |q| - 1
      ensures Edge(g, q[i], q[i + 1])
    {
      if i > 0 {
        assert q[i] == p[n + 1..][i - 1] && q[i + 1] == p[n + 1..][i];
      }
    }
    forall i, j | 0 <= i < j < |p| && n + 1 <= j
      ensures p[i] != p[j]
    {
      if j == n + 1 {
        assert p[i] == (path + [start])[i];
      }
    }
  }

  /**
    dfs_recursive as written: append start to the path; stop with the
    path if start is the destination; otherwise look at the first
    neighbour only. If that neighbour is new, the result of searching from
    it is returned as it is, None included; if it is already on the path,
    the path is returned even though it does not reach the destination. A
    vertex without neighbours gives None. An unregistered start fails
    unless it is itself the destination.
   */
  function DfsRecursive<V(==,!new)>(g: map<V, set<V>>, order: map<V, seq<V>>, start: V, dest: V, path: seq<V>)
    : (r: Result<Option<seq<V>>>)
    requires NeighboursRegistered(g) && IsIterationOrder(g, order)
    ensures start == dest ==> r == Ok(Some(path + [start]))
    ensures r.UnknownVertex? <==> start != dest && start !in g
    ensures start != dest && start in g && g[start] == {} ==> r == Ok(None)
    ensures r.Ok? && r.value.Some? ==>
              Extends(g, path, start, r.value.value) && (Last(r.value.value) == dest || StopsAtVisited(order, r.value.value))
    decreases |g.Keys - Elems(path + [start])|
  {
    var here := path + [start];
    if start == dest then
      ExtendsHere(g, path, start);
      Ok(Some(here))
    else if start !in g then
      UnknownVertex
    else if order[start] == [] then
      Ok(None)
    else
      var v := order[start][0];
      assert Edge(g, start, v);
      if v in here then
        ExtendsHere(g, path, start);
        Ok(Some(here))
      else
        CardShrinks(g.Keys, Elems(here), Elems(here + [v]), v);
        var r := DfsRecursive(g, order, v, dest, here);
        if r.Ok? && r.value.Some? then
          ExtendsStepBack(g, path, start, v, r.value.value);
          r
        else
          r
  }

  /**
    The search dfs_recursive is meant to be: from start with the given
    path, return the first path found by trying each neighbour that is not
    on the path yet, in order, and None only when every one of them fails.
   */
  function DfsExhaustive<V(==,!new)>(g: map<V, set<V>>, order: map<V, seq<V>>, start: V, dest: V, path: seq<V>)
    : (r: Option<seq<V>>)
    requires NeighboursRegistered(g) && IsIterationOrder(g, order) && (start == dest || start in g)
    ensures r.Some? ==> Extends(g, path, start, r.value) && Last(r.value) == dest
    decreases |g.Keys - Elems(path + [start])|, 1, 0
  {
    if start == dest then
      ExtendsHere(g, path, start);
      Some(path + [start])
    else
      TryNeighbours(g, order, path, start, dest, order[start])
  }

  /**
    The loop of DfsExhaustive at u, over the neighbours ns of u that are
    still to be tried; the path so far is path + [u].
   */
  function TryNeighbours<V(==,!new)>(g: map<V, set<V>>, order: map<V, seq<V>>, path: seq<V>, u: V, dest: V, ns: seq<V>)
    : (r: Option<seq<V>>)
    requires NeighboursRegistered(g) && IsIterationOrder(g, order) && u in g
    requires forall x :: x in ns ==> Edge(g, u, x)
    ensures r.Some? ==> Extends(g, path, u, r.value) && Last(r.value) == dest
    decreases |g.Keys - Elems(path + [u])|, 0, |ns|
  {
    if ns == [] then
      None
    else if ns[0] in path + [u] then
      TryNeighbours(g, order, path, u, dest, ns[1..])
    else
      var v := ns[0];
      assert Edge(g, u, v);
      CardShrinks(g.Keys, Elems(path + [u]), Elems(path + [u] + [v]), v);
      var r := DfsExhaustive(g, order, v, dest, path + [u]);
      if r.Some? then
        ExtendsStepBack(g, path, u, v, r.value);
        r
      else
        TryNeighbours(g, order, path, u, dest, ns[1..])
  }

  /** A suffix of a walk is a walk. */
  lemma SuffixWalk<V(!new)>(g: map<V, set<V>>, p: seq<V>, j: nat)
    requires IsWalk(g, p) && j < |p|
    ensures IsWalk(g, p[j..])
  {
    var q := p[j..];
    forall i | 0 <= i < |q| - 1
      ensures Edge(g, q[i], q[i + 1])
    {
      assert q[i] == p[j + i] && q[i + 1] == p[j + i + 1];
    }
  }

  /** The last visit of a walk to a vertex s other than its end, followed by an edge out of s. */
  lemma {:induction false} LastVisit<V(!new)>(g: map<V, set<V>>, w: seq<V>, s: V) returns (j: nat)
    requires IsWalk(g, w) && s in w && Last(w) != s
    ensures j < |w| - 1 && w[j] == s && Edge(g, s, w[j + 1])
    ensures forall k :: j < k < |w| ==> w[k] != s
    decreases |w|
  {
    var tail := w[1..];
    assert w == [w[0]] + tail;
    if s in tail {
      SuffixWalk(g, w, 1);
      var i := LastVisit(g, tail, s);
      j := i + 1;
      assert w[j] == tail[i] && w[j + 1] == tail[i + 1];
      forall k | j < k < |w|
        ensures w[k] != s
      {
        assert w[k] == tail[k - 1];
      }
    } else {
      j := 0;
      assert Edge(g, w[0], w[1]);
      forall k | 0 < k < |w|
        ensures w[k] != s
      {
        assert w[k] == tail[k - 1];
      }
    }
  }

  /**
    Completeness of the exhaustive search: when a walk from start to dest
    avoids every vertex of the path, the search finds a path.
   */
  lemma {:induction false} ExhaustiveComplete<V(!new)>(g: map<V, set<V>>, order: map<V, seq<V>>, start: V, dest: V,
                                                        path: seq<V>, w: seq<V>)
    requires NeighboursRegistered(g) && IsIterationOrder(g, order) && (start == dest || start in g)
    requires IsWalkBetween(g, w, start, dest) && forall k :: 0 <= k < |w| ==> w[k] !in path
    ensures DfsExhaustive(g, order, start, dest, path).Some?
    decreases |g.Keys - Elems(path + [start])|, 1, 0
  {
    if start != dest {
      var j := LastVisit(g, w, start);
      var tail := w[j + 1..];
      SuffixWalk(g, w, j + 1);
      forall k | 0 <= k < |tail|
        ensures tail[k] !in path + [start]
      {
        assert tail[k] == w[j + 1 + k];
      }
      TryComplete(g, order, path, start, dest, order[start], tail);
    }
  }

  /** The loop of the exhaustive search reaches the first vertex of a walk to dest that avoids the path, unless it succeeds earlier. */
  lemma {:induction false} TryComplete<V(!new)>(g: map<V, set<V>>, order: map<V, seq<V>>, path: seq<V>, u: V, dest: V,
                                                 ns: seq<V>, w: seq<V>)
    requires NeighboursRegistered(g) && IsIterationOrder(g, order) && u in g
    requires forall x :: x in ns ==> Edge(g, u, x)
    requires |w| > 0 && w[0] in ns && IsWalkBetween(g, w, w[0], dest)
    requires forall k :: 0 <= k < |w| ==> w[k] !in path + [u]
    ensures TryNeighbours(g, order, path, u, dest, ns).Some?
    decreases |g.Keys - Elems(path + [u])|, 0, |ns|
  {
    var v := ns[0];
    if v in path + [u] {
      assert v != w[0];
      TryComplete(g, order, path, u, dest, ns[1..], w);
    } else {
      assert Edge(g, u, v);
      CardShrinks(g.Keys, Elems(path + [u]), Elems(path + [u] + [v]), v);
      if v == w[0] {
        ExhaustiveComplete(g, order, v, dest, path + [u], w);
      } else if DfsExhaustive(g, order, v, dest, path + [u]).None? {
        TryComplete(g, order, path, u, dest, ns[1..], w);
      }
    }
  }

  /**
    The path search dfs_recursive is meant to be, from an empty path: an
    unregistered start that is not the destination fails; otherwise the
    search gives a walk from start to dest with no repeated vertex, and
    gives None exactly when dest is not reachable from start.
   */
  function DfsPath<V(==,!new)>(g: map<V, set<V>>, order: map<V, seq<V>>, start: V, dest: V)
    : (r: Result<Option<seq<V>>>)
    requires NeighboursRegistered(g) && IsIterationOrder(g, order)
    ensures r.UnknownVertex? <==> start != dest && start !in g
    ensures start == dest ==> r == Ok(Some([start]))
    ensures r.Ok? ==> (r.value.None? <==> !Reachable(g, start, dest))
    ensures r.Ok? && r.value.Some? ==> IsWalkBetween(g, r.value.value, start, dest) && NoDuplicates(r.value.value)
  {
    if start != dest && start !in g then
      UnknownVertex
    else
      var found := DfsExhaustive(g, order, start, dest, []);
      assert found.Some? ==> IsWalkBetween(g, found.value, start, dest) by {
        if found.Some? {
          assert found.value[0..] == found.value;
        }
      }
      assert Reachable(g, start, dest) ==> found.Some? by {
        if Reachable(g, start, dest) {
          var w :| IsWalkBetween(g, w, start, dest);
          ExhaustiveComplete(g, order, start, dest, [], w);
        }
      }
      Ok(found)
  }

  // ---------------------------------------------------------------------
  // Where the search as written goes wrong
  // ---------------------------------------------------------------------

  /** Vertex 1 with neighbours 2 and 3, neither of which has neighbours; 2 is tried first. */
  function Fork(): map<int, set<int>> {
    map[1 := {2, 3}, 2 := {}, 3 := {}]
  }

  function ForkOrder(): map<int, seq<int>> {
    map[1 := [2, 3], 2 := [], 3 := []]
  }

  lemma ForkWellFormed()
    ensures NeighboursRegistered(Fork()) && IsIterationOrder(Fork(), ForkOrder())
  {
    assert ForkOrder()[1][0] != ForkOrder()[1][1];
  }

  /**
    The search as written gives up at the dead end 2 and never tries 3,
    although 3 is a neighbour of 1.
   */
  lemma MissesReachable()
    ensures NeighboursRegistered(Fork()) && IsIterationOrder(Fork(), ForkOrder())
    ensures Reachable(Fork(), 1, 3)
    ensures DfsRecursive(Fork(), ForkOrder(), 1, 3, []) == Ok(None)
  {
    ForkWellFormed();
    assert IsWalkBetween(Fork(), [1, 3], 1, 3);
    assert [] + [1] == [1];
    assert DfsRecursive(Fork(), ForkOrder(), 2, 3, [1]) == Ok(None);
  }

  /** The exhaustive search backs out of the dead end 2 and finds [1, 3]. */
  lemma ExhaustiveFindsFork()
    ensures NeighboursRegistered(Fork()) && IsIterationOrder(Fork(), ForkOrder())
    ensures DfsPath(Fork(), ForkOrder(), 1, 3) == Ok(Some([1, 3]))
  {
    ForkWellFormed();
    var g, order := Fork(), ForkOrder();
    assert [] + [1] == [1] && [1] + [3] == [1, 3];
    assert DfsExhaustive(g, order, 2, 3, [1]) == None by {
      assert TryNeighbours(g, order, [1], 2, 3, []) == None;
    }
    assert DfsExhaustive(g, order, 3, 3, [1]) == Some([1, 3]);
    assert TryNeighbours(g, order, [], 1, 3, [3]) == Some([1, 3]);
    assert TryNeighbours(g, order, [], 1, 3, [2, 3]) == Some([1, 3]) by {
      assert [2, 3][1..] == [3];
    }
  }

  /** Vertices 1 and 2 point at each other; 3 is registered but cut off. */
  function Loop(): map<int, set<int>> {
    map[1 := {2}, 2 := {1}, 3 := {}]
  }

  function LoopOrder(): map<int, seq<int>> {
    map[1 := [2], 2 := [1], 3 := []]
  }

  lemma LoopWellFormed()
    ensures NeighboursRegistered(Loop()) && IsIterationOrder(Loop(), LoopOrder())
  {
  }

  /**
    The search as written comes back to 1, finds it on the path and returns
    [1, 2], a path that does not end at the destination 3.
   */
  lemma ReturnsPathMissingDest()
    ensures NeighboursRegistered(Loop()) && IsIterationOrder(Loop(), LoopOrder())
    ensures DfsRecursive(Loop(), LoopOrder(), 1, 3, []) == Ok(Some([1, 2]))
  {
    LoopWellFormed();
    assert [] + [1] == [1] && [1] + [2] == [1, 2];
    assert DfsRecursive(Loop(), LoopOrder(), 2, 3, [1]) == Ok(Some([1, 2]));
  }

  /** The exhaustive search reports that 3 cannot be reached from 1. */
  lemma ExhaustiveRejectsLoop()
    ensures NeighboursRegistered(Loop()) && IsIterationOrder(Loop(), LoopOrder())
    ensures DfsPath(Loop(), LoopOrder(), 1, 3) == Ok(None)
  {
    LoopWellFormed();
    var g, order := Loop(), LoopOrder();
    assert [] + [1] == [1] && [1] + [2] == [1, 2];
    assert TryNeighbours(g, order, [1], 2, 3, [1]) == None by {
      assert TryNeighbours(g, order, [1], 2, 3, []) == None;
    }
    assert DfsExhaustive(g, order, 2, 3, [1]) == None;
    assert TryNeighbours(g, order, [], 1, 3, [2]) == None by {
      assert TryNeighbours(g, order, [], 1, 3, []) == None;
    }
  }
}
