/**
  The loop states of the four frontier-driven operations of the Graph
  class, and how one turn of their loop preserves them.

  bft and dft keep a frontier of vertices (a FIFO queue and a LIFO stack);
  bfs and dfs keep a frontier of paths. In all four a vertex is marked
  visited when it is taken off the frontier, and all of its neighbours
  are put on the frontier then, visited or not; the duplicates are
  filtered when they come off. The step lemmas below take the frontier
  before the turn and the rest after the element taken off, which is the
  head for a queue and the tail for a stack.
 */
module Frontier {
  import opened Walks

  // ---------------------------------------------------------------------
  // Traversals: a frontier of vertices (bft, dft)
  // ---------------------------------------------------------------------

  /**
    The state of bft/dft between two turns of the loop: every pending and
    every visited vertex is registered and reachable from start; the
    emitted sequence lists the visited set once each, start first; before
    the first turn only start is pending; and every edge that leaves the
    visited set ends at a pending vertex.
   */
  ghost predicate TraversalState<V(!new)>(g: map<V, set<V>>, start: V, frontier: seq<V>, visited: set<V>, emitted: seq<V>) {
    && (forall v :: v in frontier ==> v in g && Reachable(g, start, v))
    && (forall v :: v in visited ==> v in g && Reachable(g, start, v))
    && NoDuplicates(emitted)
    && (forall v :: v in emitted <==> v in visited)
    && (visited == {} ==> frontier == [start])
    && (emitted != [] ==> emitted[0] == start)
    && (forall u, w :: u in visited && Edge(g, u, w) && w !in visited ==> w in frontier)
  }

  lemma TraversalInit<V(!new)>(g: map<V, set<V>>, start: V)
    requires start in g
    ensures TraversalState(g, start, [start], {}, [])
  {
    assert IsWalkBetween(g, [start], start, start);
  }

  /** Taking off a vertex that is already visited changes nothing else. */
  lemma TraversalSkip<V(!new)>(g: map<V, set<V>>, start: V, frontier: seq<V>, rest: seq<V>, v: V, visited: set<V>, emitted: seq<V>)
    requires TraversalState(g, start, frontier, visited, emitted)
    requires frontier == [v] + rest || frontier == rest + [v]
    requires v in visited
    ensures TraversalState(g, start, rest, visited, emitted)
  {
  }

  /** Taking off an unvisited vertex visits it, emits it and puts all its neighbours on the frontier. */
  lemma TraversalVisit<V(!new)>(g: map<V, set<V>>, start: V, frontier: seq<V>, rest: seq<V>, v: V, ns: seq<V>,
                                visited: set<V>, emitted: seq<V>)
    requires NeighboursRegistered(g)
    requires TraversalState(g, start, frontier, visited, emitted)
    requires frontier == [v] + rest || frontier == rest + [v]
    requires v !in visited
    requires forall x :: x in ns <==> Edge(g, v, x)
    ensures TraversalState(g, start, rest + ns, visited + {v}, emitted + [v])
  {
    var frontier', visited', emitted' := rest + ns, visited + {v}, emitted + [v];
    assert v in frontier;
    forall x | x in frontier'
      ensures x in g && Reachable(g, start, x)
    {
      if x in ns {
        ReachableStep(g, start, v, x);
      } else {
        assert x in frontier;
      }
    }
    forall i, j | 0 <= i < j < |emitted'|
      ensures emitted'[i] != emitted'[j]
    {
      if j == |emitted| {
        assert emitted'[i] == emitted[i];
      }
    }
    assert emitted == [] ==> v == start;
  }

  /** When the frontier runs empty, exactly the vertices reachable from start have been emitted. */
  lemma TraversalDone<V(!new)>(g: map<V, set<V>>, start: V, visited: set<V>, emitted: seq<V>)
    requires TraversalState(g, start, [], visited, emitted)
    ensures |emitted| > 0 && emitted[0] == start && NoDuplicates(emitted)
    ensures forall v :: v in emitted <==> Reachable(g, start, v)
  {
    assert visited != {};
    assert emitted != [];
    assert start in visited;
    ClosedContainsReachable(g, visited, start);
  }

  // ---------------------------------------------------------------------
  // Recursive traversal: one visited set threaded through the calls
  // ---------------------------------------------------------------------

  /**
    The state of the recursive traversal between calls: the visited
    vertices are registered, the output lists them once each, and only a
    vertex whose call is still active can have an unvisited neighbour.
   */
  ghost predicate RecursiveState<V(!new)>(g: map<V, set<V>>, visited: set<V>, emitted: seq<V>, active: set<V>) {
    && visited <= g.Keys
    && |emitted| == |visited|
    && (forall x :: x in emitted <==> x in visited)
    && (forall u, w :: u in visited && Edge(g, u, w) && w !in visited ==> u in active)
  }

  /**
    What a finished call for v leaves behind, from the visited set and
    output it started with: v and everything else newly visited is
    reachable from v, v was emitted right after the earlier output, and the
    recursive state holds again.
   */
  ghost predicate Explored<V(!new)>(g: map<V, set<V>>, v: V, visited: set<V>, emitted: seq<V>, active: set<V>,
                                    visited': set<V>, emitted': seq<V>) {
    && visited + {v} <= visited'
    && emitted + [v] <= emitted'
    && RecursiveState(g, visited', emitted', active)
    && (forall x :: x in visited' && x !in visited ==> Reachable(g, v, x))
  }

  /** Entering the call for v: v is visited, emitted, and active. */
  lemma ExploreEnter<V(!new)>(g: map<V, set<V>>, v: V, visited: set<V>, emitted: seq<V>, active: set<V>)
    requires RecursiveState(g, visited, emitted, active) && v in g && v !in visited
    ensures Explored(g, v, visited, emitted, active + {v}, visited + {v}, emitted + [v])
  {
    assert IsWalkBetween(g, [v], v, v);
  }

  /** After the call for a neighbour w of v returns, the call for v has still explored only what v reaches. */
  lemma ExploreStep<V(!new)>(g: map<V, set<V>>, v: V, w: V, visited: set<V>, emitted: seq<V>, active: set<V>,
                             mid: set<V>, midEmitted: seq<V>, after: set<V>, afterEmitted: seq<V>)
    requires Edge(g, v, w)
    requires Explored(g, v, visited, emitted, active + {v}, mid, midEmitted)
    requires Explored(g, w, mid, midEmitted, active + {v}, after, afterEmitted)
    ensures Explored(g, v, visited, emitted, active + {v}, after, afterEmitted)
    ensures mid <= after
  {
    PrefixTrans(emitted + [v], midEmitted, afterEmitted);
    assert IsWalkBetween(g, [v, w], v, w);
    forall x | x in after && x !in visited
      ensures Reachable(g, v, x)
    {
      if x !in mid {
        ReachableTrans(g, v, w, x);
      }
    }
  }

  /** Leaving the call for v once all of its neighbours are visited: v is no longer active. */
  lemma ExploreLeave<V(!new)>(g: map<V, set<V>>, v: V, visited: set<V>, emitted: seq<V>, active: set<V>,
                              after: set<V>, afterEmitted: seq<V>)
    requires Explored(g, v, visited, emitted, active + {v}, after, afterEmitted)
    requires forall w :: Edge(g, v, w) ==> w in after
    ensures Explored(g, v, visited, emitted, active, after, afterEmitted)
  {
  }

  /** The outermost call, with nothing visited and nothing active, emits exactly what is reachable from start. */
  lemma RecursiveDone<V(!new)>(g: map<V, set<V>>, start: V, visited: set<V>, emitted: seq<V>)
    requires Explored(g, start, {}, [], {}, visited, emitted)
    ensures |emitted| > 0 && emitted[0] == start && NoDuplicates(emitted)
    ensures forall x :: x in emitted <==> Reachable(g, start, x)
  {
    assert [start] <= emitted;
    assert start in visited;
    assert Closed(g, visited);
    ClosedContainsReachable(g, visited, start);
    CountedNoDuplicates(emitted, visited);
  }

  // ---------------------------------------------------------------------
  // Searches: a frontier of paths (bfs, dfs)
  // ---------------------------------------------------------------------

  predicate EndsAt<V(==)>(p: seq<V>, w: V) {
    |p| > 0 && Last(p) == w
  }

  /** The paths p + [x], one per x of ns, in the order of ns. */
  function Extensions<V>(p: seq<V>, ns: seq<V>): (r: seq<seq<V>>)
    ensures |r| == |ns| && forall k :: 0 <= k < |ns| ==> r[k] == p + [ns[k]]
  {
    seq(|ns|, k requires 0 <= k < |ns| => p + [ns[k]])
  }

  /**
    A pending path: a walk from start whose last vertex is registered and
    whose earlier vertices are distinct and all visited.
   */
  ghost predicate PendingPath<V(!new)>(g: map<V, set<V>>, start: V, p: seq<V>, visited: set<V>) {
    && IsWalkFrom(g, p, start)
    && Last(p) in g
    && NoDuplicates(p[..|p| - 1])
    && (forall x :: x in p[..|p| - 1] ==> x in visited)
  }

  /**
    The state of bfs/dfs between two turns of the loop: the visited
    vertices are registered and the destination is not among them; before
    the first turn only [start] is pending; every pending path is a
    PendingPath; and every edge that leaves the visited set ends at the
    last vertex of a pending path.
   */
  ghost predicate SearchState<V(!new)>(g: map<V, set<V>>, start: V, dest: V, frontier: seq<seq<V>>, visited: set<V>) {
    && visited <= g.Keys
    && dest !in visited
    && (start !in visited ==> frontier == [[start]] && visited == {})
    && (forall p :: p in frontier ==> PendingPath(g, start, p, visited))
    && (forall u, w :: u in visited && Edge(g, u, w) && w !in visited ==> exists p :: p in frontier && EndsAt(p, w))
  }

  lemma SearchInit<V(!new)>(g: map<V, set<V>>, start: V, dest: V)
    requires start in g
    ensures SearchState(g, start, dest, [[start]], {})
  {
  }

  lemma SearchSkip<V(!new)>(g: map<V, set<V>>, start: V, dest: V, frontier: seq<seq<V>>, rest: seq<seq<V>>, p: seq<V>,
                            visited: set<V>)
    requires SearchState(g, start, dest, frontier, visited)
    requires frontier == [p] + rest || frontier == rest + [p]
    requires |p| > 0 && Last(p) in visited
    ensures SearchState(g, start, dest, rest, visited)
  {
    forall u, w | u in visited && Edge(g, u, w) && w !in visited
      ensures exists q :: q in rest && EndsAt(q, w)
    {
      var q :| q in frontier && EndsAt(q, w);
      assert q != p;
      assert q in rest;
    }
  }

  /** A pending path whose last vertex is not yet visited is a walk with no vertex twice. */
  lemma PendingIsSimple<V(!new)>(g: map<V, set<V>>, start: V, p: seq<V>, visited: set<V>)
    requires PendingPath(g, start, p, visited) && Last(p) !in visited
    ensures IsWalkBetween(g, p, start, Last(p)) && NoDuplicates(p)
  {
    var n := |p| - 1;
    forall i, j | 0 <= i < j < |p|
      ensures p[i] != p[j]
    {
      if j == n {
        assert p[i] in p[..n];
      } else {
        assert p[i] == p[..n][i] && p[j] == p[..n][j];
      }
    }
  }

  /** Taking off a path to an unvisited vertex other than dest visits it and extends the path by each neighbour. */
  lemma SearchExpand<V(!new)>(g: map<V, set<V>>, start: V, dest: V, frontier: seq<seq<V>>, rest: seq<seq<V>>, p: seq<V>,
                              ns: seq<V>, visited: set<V>)
    requires NeighboursRegistered(g)
    requires SearchState(g, start, dest, frontier, visited)
    requires frontier == [p] + rest || frontier == rest + [p]
    requires |p| > 0 && Last(p) !in visited && Last(p) != dest
    requires forall x :: x in ns <==> Edge(g, Last(p), x)
    ensures SearchState(g, start, dest, rest + Extensions(p, ns), visited + {Last(p)})
  {
    var v := Last(p);
    var frontier', visited' := rest + Extensions(p, ns), visited + {v};
    assert p in frontier;
    assert PendingPath(g, start, p, visited);
    PendingIsSimple(g, start, p, visited);
    forall q | q in frontier'
      ensures PendingPath(g, start, q, visited')
    {
      if q in rest {
        assert q in frontier;
      } else {
        var k :| 0 <= k < |ns| && q == Extensions(p, ns)[k];
        assert q == p + [ns[k]];
        ExtendWalk(g, p, start, ns[k]);
        assert q[..|q| - 1] == p;
      }
    }
    forall u, w | u in visited' && Edge(g, u, w) && w !in visited'
      ensures exists q :: q in frontier' && EndsAt(q, w)
    {
      if u == v {
        var k :| 0 <= k < |ns| && ns[k] == w;
        assert Extensions(p, ns)[k] == p + [w];
        assert EndsAt(frontier'[|rest| + k], w);
      } else {
        var q :| q in frontier && EndsAt(q, w);
        assert q != p;
        assert q in rest;
      }
    }
  }

  /** A path taken off with dest as its last vertex is a walk from start to dest with no vertex twice. */
  lemma SearchFound<V(!new)>(g: map<V, set<V>>, start: V, dest: V, frontier: seq<seq<V>>, p: seq<V>, visited: set<V>)
    requires SearchState(g, start, dest, frontier, visited)
    requires p in frontier && EndsAt(p, dest)
    ensures IsWalkBetween(g, p, start, dest) && NoDuplicates(p)
  {
    PendingIsSimple(g, start, p, visited);
  }

  /** When the frontier runs empty, dest is not reachable from start. */
  lemma SearchExhausted<V(!new)>(g: map<V, set<V>>, start: V, dest: V, visited: set<V>)
    requires SearchState(g, start, dest, [], visited)
    ensures !Reachable(g, start, dest)
  {
    assert start in visited;
    assert Closed(g, visited) by {
      forall u, w | u in visited && Edge(g, u, w)
        ensures w in visited
      {
        if w !in visited {
          assert false;
        }
      }
    }
    ClosedContainsReachable(g, visited, start);
  }

  // ---------------------------------------------------------------------
  // Breadth-first layering (bfs only)
  // ---------------------------------------------------------------------

  /** The pending paths are sorted by length, and the longest is at most one vertex longer than the first. */
  ghost predicate LengthsLayered<V>(frontier: seq<seq<V>>) {
    && (forall i, j :: 0 <= i <= j < |frontier| ==> |frontier[i]| <= |frontier[j]|)
    && (|frontier| > 0 ==> |Last(frontier)| <= |frontier[0]| + 1)
  }

  /** No walk from start to a visited vertex u has fewer than level[u] vertices. */
  ghost predicate LevelsMinimal<V(!new)>(g: map<V, set<V>>, start: V, visited: set<V>, level: map<V, nat>) {
    && level.Keys == visited
    && (forall u, p :: u in visited && IsWalkBetween(g, p, start, u) ==> level[u] <= |p|)
  }

  /** Every edge u -> w that leaves the visited set ends at a pending path no longer than level[u] + 1. */
  ghost predicate LevelFrontier<V(!new)>(g: map<V, set<V>>, frontier: seq<seq<V>>, visited: set<V>, level: map<V, nat>)
    requires level.Keys == visited
  {
    forall u, w :: u in visited && Edge(g, u, w) && w !in visited ==>
      exists p :: p in frontier && EndsAt(p, w) && |p| <= level[u] + 1
  }

  /**
    What the FIFO discipline adds for bfs: level records, for each visited
    vertex, the length of the path it was visited by, which no walk from
    start to it undercuts; the pending paths are sorted by length and span
    at most two consecutive lengths; and every edge u -> w that leaves the
    visited set ends at a pending path no longer than level[u] + 1.
   */
  ghost predicate Layered<V(!new)>(g: map<V, set<V>>, start: V, frontier: seq<seq<V>>, visited: set<V>, level: map<V, nat>) {
    && LevelsMinimal(g, start, visited, level)
    && LengthsLayered(frontier)
    && LevelFrontier(g, frontier, visited, level)
  }

  /** The path at the head of the queue, when its last vertex is unvisited, is a shortest walk to that vertex. */
  lemma HeadIsShortest<V(!new)>(g: map<V, set<V>>, start: V, dest: V, frontier: seq<seq<V>>, visited: set<V>, level: map<V, nat>)
    requires SearchState(g, start, dest, frontier, visited) && Layered(g, start, frontier, visited, level)
    requires |frontier| > 0 && |frontier[0]| > 0 && Last(frontier[0]) !in visited
    ensures IsShortestWalk(g, frontier[0], start, Last(frontier[0]))
  {
    var head := frontier[0];
    var v := Last(head);
    assert head in frontier;
    assert IsWalkBetween(g, head, start, v);
    forall w | IsWalkBetween(g, w, start, v)
      ensures |head| <= |w|
    {
      if start in visited {
        var j := Crossing(g, w, visited);
        PrefixWalk(g, w, start, j);
        assert level[w[j - 1]] <= j;
        var q :| q in frontier && EndsAt(q, w[j]) && |q| <= level[w[j - 1]] + 1;
        var i :| 0 <= i < |frontier| && frontier[i] == q;
        assert |head| <= |q|;
      }
    }
  }

  lemma LayeredInit<V(!new)>(g: map<V, set<V>>, start: V)
    ensures Layered(g, start, [[start]], {}, map[])
  {
  }

  lemma LayeredSkip<V(!new)>(g: map<V, set<V>>, start: V, frontier: seq<seq<V>>, visited: set<V>, level: map<V, nat>)
    requires Layered(g, start, frontier, visited, level)
    requires |frontier| > 0 && |frontier[0]| > 0 && Last(frontier[0]) in visited
    ensures Layered(g, start, frontier[1..], visited, level)
  {
    var rest := frontier[1..];
    forall u, w | u in visited && Edge(g, u, w) && w !in visited
      ensures exists q :: q in rest && EndsAt(q, w) && |q| <= level[u] + 1
    {
      var q :| q in frontier && EndsAt(q, w) && |q| <= level[u] + 1;
      assert q != frontier[0];
      assert q in rest;
    }
    if |rest| > 0 {
      assert |frontier[0]| <= |frontier[1]|;
    }
  }

  /** Appending paths one vertex longer than the dequeued head keeps the queue layered. */
  lemma LengthsExpand<V>(frontier: seq<seq<V>>, ns: seq<V>)
    requires LengthsLayered(frontier) && |frontier| > 0
    ensures LengthsLayered(frontier[1..] + Extensions(frontier[0], ns))
  {
    var head, rest := frontier[0], frontier[1..];
    var frontier' := rest + Extensions(head, ns);
    forall i, j | 0 <= i <= j < |frontier'|
      ensures |frontier'[i]| <= |frontier'[j]|
    {
      if j < |rest| {
        assert frontier'[i] == frontier[i + 1] && frontier'[j] == frontier[j + 1];
      } else if i < |rest| {
        assert frontier'[i] == frontier[i + 1];
        assert |frontier[i + 1]| <= |Last(frontier)|;
      }
    }
    if |frontier'| > 0 {
      if |ns| == 0 {
        assert frontier' == rest;
        assert Last(frontier') == Last(frontier);
        assert |frontier[0]| <= |frontier[1]|;
      } else if |rest| > 0 {
        assert |frontier[0]| <= |frontier[1]|;
      }
    }
  }

  lemma LayeredExpand<V(!new)>(g: map<V, set<V>>, start: V, dest: V, frontier: seq<seq<V>>, ns: seq<V>,
                               visited: set<V>, level: map<V, nat>)
    requires SearchState(g, start, dest, frontier, visited) && Layered(g, start, frontier, visited, level)
    requires |frontier| > 0 && |frontier[0]| > 0 && Last(frontier[0]) !in visited
    requires forall x :: x in ns <==> Edge(g, Last(frontier[0]), x)
    ensures Layered(g, start, frontier[1..] + Extensions(frontier[0], ns), visited + {Last(frontier[0])},
                    level[Last(frontier[0]) := |frontier[0]|])
  {
    var head := frontier[0];
    var v := Last(head);
    var rest := frontier[1..];
    var frontier', visited', level' := rest + Extensions(head, ns), visited + {v}, level[v := |head|];
    HeadIsShortest(g, start, dest, frontier, visited, level);
    assert LevelsMinimal(g, start, visited', level');
    LengthsExpand(frontier, ns);
    forall u, w | u in visited' && Edge(g, u, w) && w !in visited'
      ensures exists q :: q in frontier' && EndsAt(q, w) && |q| <= level'[u] + 1
    {
      if u == v {
        var k :| 0 <= k < |ns| && ns[k] == w;
        assert frontier'[|rest| + k] == head + [w];
        assert EndsAt(frontier'[|rest| + k], w);
      } else {
        var q :| q in frontier && EndsAt(q, w) && |q| <= level[u] + 1;
        assert q != head;
        assert q in rest;
      }
    }
  }
}
