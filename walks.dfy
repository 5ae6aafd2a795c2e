/**
  Walks and reachability in a directed graph given by its adjacency map:
  each registered vertex maps to the set of its out-neighbours.
  These are the notions the traversals and searches of the Graph class
  are specified with.
 */
module Walks {

  /** There is a directed edge u -> w. */
  predicate Edge<V(==,!new)>(g: map<V, set<V>>, u: V, w: V) {
    u in g && w in g[u]
  }

  /** The class invariant of a graph: every label in a neighbour set is itself registered. */
  ghost predicate NeighboursRegistered<V(!new)>(g: map<V, set<V>>) {
    forall u, w :: Edge(g, u, w) ==> w in g
  }

  /** Registering a label with no neighbours keeps every neighbour registered. */
  lemma AddVertexKeepsRegistered<V(!new)>(g: map<V, set<V>>, x: V)
    requires NeighboursRegistered(g)
    ensures NeighboursRegistered(g[x := {}])
  {
    var g' := g[x := {}];
    forall u, w | Edge(g', u, w)
      ensures w in g'
    {
      assert u != x && Edge(g, u, w);
    }
  }

  /** Adding an edge between two registered labels keeps every neighbour registered. */
  lemma AddEdgeKeepsRegistered<V(!new)>(g: map<V, set<V>>, v1: V, v2: V)
    requires NeighboursRegistered(g) && v1 in g && v2 in g
    ensures NeighboursRegistered(g[v1 := g[v1] + {v2}])
  {
    var g' := g[v1 := g[v1] + {v2}];
    forall u, w | Edge(g', u, w)
      ensures w in g'
    {
      if w != v2 {
        assert Edge(g, u, w);
      }
    }
  }

  function Last<V>(p: seq<V>): V
    requires |p| > 0
  {
    p[|p| - 1]
  }

  function Elems<V(==,!new)>(s: seq<V>): (r: set<V>)
    ensures forall x :: x in r <==> x in s
  {
    set x | x in s
  }

  predicate NoDuplicates<V(==,!new)>(s: seq<V>) {
    forall i, j :: 0 <= i < j < |s| ==> s[i] != s[j]
  }

  /** A sequence has at least as many positions as distinct elements. */
  lemma {:induction false} ElemsBound<V(!new)>(s: seq<V>)
    ensures |Elems(s)| <= |s|
  {
    if |s| > 0 {
      var init := s[..|s| - 1];
      ElemsBound(init);
      assert Elems(s) == Elems(init) + {Last(s)} by {
        assert s == init + [Last(s)];
      }
    }
  }

  /** A sequence without duplicates has exactly as many positions as distinct elements. */
  lemma {:induction false} DistinctCount<V(!new)>(s: seq<V>)
    requires NoDuplicates(s)
    ensures |Elems(s)| == |s|
  {
    if |s| > 0 {
      var init := s[..|s| - 1];
      assert NoDuplicates(init) by {
        forall i, j | 0 <= i < j < |init|
          ensures init[i] != init[j]
        {
          assert init[i] == s[i] && init[j] == s[j];
        }
      }
      DistinctCount(init);
      assert s == init + [Last(s)];
      assert Elems(s) == Elems(init) + {Last(s)};
      assert Last(s) !in Elems(init);
    }
  }

  /**
    A sequence with as many positions as the set of its elements has
    elements is free of duplicates.
   */
  lemma CountedNoDuplicates<V(!new)>(s: seq<V>, e: set<V>)
    requires (forall x :: x in s <==> x in e) && |s| == |e|
    ensures NoDuplicates(s)
  {
    if !NoDuplicates(s) {
      var i, j :| 0 <= i < j < |s| && s[i] == s[j];
      var t := s[..j] + s[j + 1..];
      assert Elems(t) == e by {
        assert s == s[..j] + [s[j]] + s[j + 1..];
        assert s[j] == t[i];
      }
      ElemsBound(t);
    }
  }

  /** Every consecutive pair of p is an edge. */
  predicate IsWalk<V(==,!new)>(g: map<V, set<V>>, p: seq<V>) {
    forall i :: 0 <= i < |p| - 1 ==> Edge(g, p[i], p[i + 1])
  }

  /** p is a non-empty walk that starts at s. */
  predicate IsWalkFrom<V(==,!new)>(g: map<V, set<V>>, p: seq<V>, s: V) {
    |p| > 0 && p[0] == s && IsWalk(g, p)
  }

  /** p is a walk from s to v. */
  predicate IsWalkBetween<V(==,!new)>(g: map<V, set<V>>, p: seq<V>, s: V, v: V) {
    IsWalkFrom(g, p, s) && Last(p) == v
  }

  ghost predicate Reachable<V(!new)>(g: map<V, set<V>>, s: V, v: V) {
    exists p :: IsWalkBetween(g, p, s, v)
  }

  /** p is a walk from s to v with the fewest vertices of all such walks. */
  ghost predicate IsShortestWalk<V(!new)>(g: map<V, set<V>>, p: seq<V>, s: V, v: V) {
    IsWalkBetween(g, p, s, v) && forall p' :: IsWalkBetween(g, p', s, v) ==> |p| <= |p'|
  }

  /** No edge leaves the set s. */
  ghost predicate Closed<V(!new)>(g: map<V, set<V>>, s: set<V>) {
    forall u, w :: u in s && Edge(g, u, w) ==> w in s
  }

  lemma ExtendWalk<V(!new)>(g: map<V, set<V>>, p: seq<V>, s: V, w: V)
    requires IsWalkFrom(g, p, s) && Edge(g, Last(p), w)
    ensures IsWalkBetween(g, p + [w], s, w)
  {
    var q := p + [w];
    forall i | 0 <= i < |q| - 1
      ensures Edge(g, q[i], q[i + 1])
    {
      if i < |p| - 1 {
        assert q[i] == p[i] && q[i + 1] == p[i + 1];
      }
    }
  }

  lemma ReachableStep<V(!new)>(g: map<V, set<V>>, s: V, u: V, w: V)
    requires Reachable(g, s, u) && Edge(g, u, w)
    ensures Reachable(g, s, w)
  {
    var p :| IsWalkBetween(g, p, s, u);
    ExtendWalk(g, p, s, w);
  }

  /** Reachability is transitive: a walk a..b followed by a walk b..c is a walk a..c. */
  lemma ReachableTrans<V(!new)>(g: map<V, set<V>>, a: V, b: V, c: V)
    requires Reachable(g, a, b) && Reachable(g, b, c)
    ensures Reachable(g, a, c)
  {
    var p :| IsWalkBetween(g, p, a, b);
    var q :| IsWalkBetween(g, q, b, c);
    var r := p + q[1..];
    forall i | 0 <= i < |r| - 1
      ensures Edge(g, r[i], r[i + 1])
    {
      if i < |p| - 1 {
        assert r[i] == p[i] && r[i + 1] == p[i + 1];
      } else {
        var k := i - |p| + 1;
        assert r[i] == q[k] && r[i + 1] == q[k + 1];
      }
    }
    assert IsWalkBetween(g, r, a, c);
  }

  /** A prefix of a walk is a walk. */
  lemma PrefixWalk<V(!new)>(g: map<V, set<V>>, p: seq<V>, s: V, j: nat)
    requires IsWalkFrom(g, p, s) && 0 < j <= |p|
    ensures IsWalkBetween(g, p[..j], s, p[j - 1])
  {
    var q := p[..j];
    forall i | 0 <= i < |q| - 1
      ensures Edge(g, q[i], q[i + 1])
    {
      assert q[i] == p[i] && q[i + 1] == p[i + 1];
    }
  }

  /**
    A walk that starts inside a set s and ends outside it crosses the
    boundary of s along one of its edges.
   */
  lemma {:induction false} Crossing<V(!new)>(g: map<V, set<V>>, p: seq<V>, s: set<V>) returns (j: nat)
    requires |p| > 0 && IsWalk(g, p) && p[0] in s && Last(p) !in s
    ensures 0 < j < |p| && p[j - 1] in s && p[j] !in s && Edge(g, p[j - 1], p[j])
    decreases |p|
  {
    assert Edge(g, p[0], p[1]);
    if p[1] !in s {
      j := 1;
    } else {
      var tail := p[1..];
      assert IsWalk(g, tail) by {
        forall i | 0 <= i < |tail| - 1
          ensures Edge(g, tail[i], tail[i + 1])
        {
          assert tail[i] == p[i + 1] && tail[i + 1] == p[i + 2];
        }
      }
      var k := Crossing(g, tail, s);
      j := k + 1;
      assert p[j - 1] == tail[k - 1] && p[j] == tail[k];
    }
  }

  /** Everything reachable from a vertex of a closed set lies in the set. */
  lemma ClosedContainsReachable<V(!new)>(g: map<V, set<V>>, s: set<V>, start: V)
    requires start in s && Closed(g, s)
    ensures forall v :: Reachable(g, start, v) ==> v in s
  {
    forall v | Reachable(g, start, v)
      ensures v in s
    {
      var p :| IsWalkBetween(g, p, start, v);
      if v !in s {
        var j := Crossing(g, p, s);
        assert false;
      }
    }
  }

  /** Apart from the start itself, only registered vertices are reachable. */
  lemma ReachableRegistered<V(!new)>(g: map<V, set<V>>, s: V, v: V)
    requires NeighboursRegistered(g) && Reachable(g, s, v) && v != s
    ensures v in g
  {
    var p :| IsWalkBetween(g, p, s, v);
    assert Edge(g, p[|p| - 2], p[|p| - 1]);
  }

  lemma PrefixTrans<V>(a: seq<V>, b: seq<V>, c: seq<V>)
    requires a <= b && b <= c
    ensures a <= c
  {
    assert b[..|a|] == a;
    assert c[..|b|][..|a|] == c[..|a|];
  }

  /** Removing at least one more element of k shrinks what is left of k. */
  lemma CardShrinks<V(!new)>(k: set<V>, a: set<V>, b: set<V>, v: V)
    requires a + {v} <= b && v in k && v !in a
    ensures |k - b| < |k - a|
  {
    var big := k - a;
    var small := k - b;
    assert small <= big - {v};
    assert big == small + (big - small);
    assert small * (big - small) == {};
    assert v in big - small;
  }
}
