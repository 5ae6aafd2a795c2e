/**
  A directed graph held as a dictionary from each vertex label to the set
  of its out-neighbours, with vertex and edge insertion, the neighbour
  query, and six traversals: breadth-first and depth-first traversal
  (iterative and recursive) that emit every reachable vertex once, and
  breadth-first and depth-first search for a path to a destination.

  What the traversals print is modelled as the sequence of emitted
  vertices they return. The queue and the stack are sequences: dequeue
  takes the head, pop takes the tail.
 */
module Graphs {
  import opened Walks
  import opened Frontier

  datatype Option<T> = None | Some(value: T)

  /** Either a value, or the error the graph raises for a label that is not registered. */
  datatype Result<T> = Ok(value: T) | UnknownVertex

  /**
    Iterates over a set: returns its elements once each, in an order the
    caller cannot rely on, as iterating over an unordered set does.
   */
  method Enumerate<V(==,!new)>(s: set<V>) returns (order: seq<V>)
    ensures NoDuplicates(order)
    ensures forall x :: x in order <==> x in s
  {
    order := [];
    var rest := s;
    while rest != {}
      invariant NoDuplicates(order)
      invariant forall x :: x in order <==> x in s && x !in rest
      invariant rest <= s
      decreases |rest|
    {
      var x :| x in rest;
      order := order + [x];
      rest := rest - {x};
    }
  }

  class Graph<V(==,!new)> {
    /** Each registered label mapped to the set of its out-neighbours. */
    var vertices: map<V, set<V>>

    /** Every label that appears in a neighbour set is itself registered. */
    ghost predicate Valid()
      reads this
    {
      NeighboursRegistered(vertices)
    }

    constructor ()
      ensures Valid() && vertices == map[]
    {
      vertices := map[];
    }

    /**
      Registers x with an empty neighbour set. When x is already
      registered, the edges leaving it are discarded.
     */
    method AddVertex(x: V)
      requires Valid()
      modifies this
      ensures Valid()
      ensures vertices == old(vertices)[x := {}]
    {
      AddVertexKeepsRegistered(vertices, x);
      vertices := vertices[x := {}];
    }

    /**
      Adds the edge v1 -> v2 when both labels are registered; otherwise
      fails and leaves the graph as it was. Adding an edge that is already
      there changes nothing.
     */
    method AddEdge(v1: V, v2: V) returns (ok: bool)
      requires Valid()
      modifies this
      ensures Valid()
      ensures ok <==> v1 in old(vertices) && v2 in old(vertices)
      ensures !ok ==> vertices == old(vertices)
      ensures ok ==> vertices == old(vertices)[v1 := old(vertices)[v1] + {v2}]
      ensures old(Edge(vertices, v1, v2)) ==> vertices == old(vertices)
    {
      if v1 in vertices && v2 in vertices {
        if v2 in vertices[v1] {
          assert vertices[v1] + {v2} == vertices[v1];
        }
        AddEdgeKeepsRegistered(vertices, v1, v2);
        vertices := vertices[v1 := vertices[v1] + {v2}];
        ok := true;
      } else {
        ok := false;
      }
    }

    /** The out-neighbours of v; fails when v is not registered. */
    function GetNeighbors(v: V): (r: Result<set<V>>)
      reads this
      ensures r.Ok? <==> v in vertices
      ensures r.Ok? ==> forall w :: w in r.value <==> Edge(vertices, v, w)
    {
      if v in vertices then Ok(vertices[v]) else UnknownVertex
    }

    /**
      Breadth-first traversal: emits start first and then every vertex
      reachable from start, each exactly once. A vertex is checked against
      the visited set when it is dequeued, not when it is enqueued. Fails
      when start is not registered.
     */
    method Bft(start: V) returns (r: Result<seq<V>>)
      requires Valid()
      ensures r.UnknownVertex? <==> start !in vertices
      ensures r.Ok? ==> |r.value| > 0 && r.value[0] == start && NoDuplicates(r.value)
      ensures r.Ok? ==> forall v :: v in r.value <==> Reachable(vertices, start, v)
    {
      // Every label a traversal dequeues after start is a neighbour, hence
      // registered: only the lookup of start's own neighbours can fail.
      if start !in vertices {
        return UnknownVertex;
      }
      var q := [start];
      var visited: set<V> := {};
      var emitted: seq<V> := [];
      TraversalInit(vertices, start);
      while |q| > 0
        invariant TraversalState(vertices, start, q, visited, emitted)
        decreases |vertices.Keys - visited|, |q|
      {
        var v := q[0];
        ghost var before := q;
        q := q[1..];
        assert before == [v] + q;
        if v !in visited {
          CardShrinks(vertices.Keys, visited, visited + {v}, v);
          // v is registered, so vertices[v] is GetNeighbors(v).value; the
          // early UnknownVertex above stands for get_neighbors' KeyError.
          // Dft, Bfs, Dfs and Visit read the neighbours the same way.
          var ns := Enumerate(vertices[v]);
          TraversalVisit(vertices, start, before, q, v, ns, visited, emitted);
          // enqueue every neighbour, in the order the set iterates
          q := q + ns;
          visited := visited + {v};
          emitted := emitted + [v];
        } else {
          TraversalSkip(vertices, start, before, q, v, visited, emitted);
        }
      }
      TraversalDone(vertices, start, visited, emitted);
      return Ok(emitted);
    }

    /**
      Depth-first traversal with a stack: emits start first and then every
      vertex reachable from start, each exactly once. Fails when start is
      not registered.
     */
    method Dft(start: V) returns (r: Result<seq<V>>)
      requires Valid()
      ensures r.UnknownVertex? <==> start !in vertices
      ensures r.Ok? ==> |r.value| > 0 && r.value[0] == start && NoDuplicates(r.value)
      ensures r.Ok? ==> forall v :: v in r.value <==> Reachable(vertices, start, v)
    {
      if start !in vertices {
        return UnknownVertex;
      }
      var s := [start];
      var visited: set<V> := {};
      var emitted: seq<V> := [];
      TraversalInit(vertices, start);
      while |s| > 0
        invariant TraversalState(vertices, start, s, visited, emitted)
        decreases |vertices.Keys - visited|, |s|
      {
        var v := s[|s| - 1];
        ghost var before := s;
        s := s[..|s| - 1];
        assert before == s + [v];
        if v !in visited {
          CardShrinks(vertices.Keys, visited, visited + {v}, v);
          var ns := Enumerate(vertices[v]);
          TraversalVisit(vertices, start, before, s, v, ns, visited, emitted);
          // push every neighbour, in the order the set iterates
          s := s + ns;
          visited := visited + {v};
          emitted := emitted + [v];
        } else {
          TraversalSkip(vertices, start, before, s, v, visited, emitted);
        }
      }
      TraversalDone(vertices, start, visited, emitted);
      return Ok(emitted);
    }

    /**
      Breadth-first search: a shortest walk from start to dest, None when
      dest is not reachable, and [start] when the two are the same. Fails
      when start is not registered and differs from dest.
     */
    method Bfs(start: V, dest: V) returns (r: Result<Option<seq<V>>>)
      requires Valid()
      ensures start == dest ==> r == Ok(Some([start]))
      ensures r.UnknownVertex? <==> start !in vertices && start != dest
      ensures r.Ok? ==> (r.value.None? <==> !Reachable(vertices, start, dest))
      ensures r.Ok? && r.value.Some? ==> IsShortestWalk(vertices, r.value.value, start, dest)
      ensures r.Ok? && r.value.Some? ==> NoDuplicates(r.value.value)
    {
      if start !in vertices {
        assert IsWalkBetween(vertices, [start], start, start);
        return if start == dest then Ok(Some([start])) else UnknownVertex;
      }
      var q := [[start]];
      var visited: set<V> := {};
      ghost var level: map<V, nat> := map[];
      SearchInit(vertices, start, dest);
      LayeredInit(vertices, start);
      while |q| > 0
        invariant SearchState(vertices, start, dest, q, visited)
        invariant Layered(vertices, start, q, visited, level)
        decreases |vertices.Keys - visited|, |q|
      {
        var path := q[0];
        ghost var before := q;
        q := q[1..];
        assert before == [path] + q && path in before;
        var v := Last(path);
        if v !in visited {
          if v == dest {
            HeadIsShortest(vertices, start, dest, before, visited, level);
            SearchFound(vertices, start, dest, before, path, visited);
            return Ok(Some(path));
          }
          CardShrinks(vertices.Keys, visited, visited + {v}, v);
          var ns := Enumerate(vertices[v]);
          SearchExpand(vertices, start, dest, before, q, path, ns, visited);
          LayeredExpand(vertices, start, dest, before, ns, visited, level);
          // enqueue a copy of the path extended by each neighbour
          q := q + Extensions(path, ns);
          visited := visited + {v};
          level := level[v := |path|];
        } else {
          SearchSkip(vertices, start, dest, before, q, path, visited);
          LayeredSkip(vertices, start, before, visited, level);
        }
      }
      SearchExhausted(vertices, start, dest, visited);
      return Ok(None);
    }

    /**
      Depth-first search with a stack of paths: some walk from start to
      dest that visits no vertex twice, not necessarily a shortest one;
      None when dest is not reachable, and [start] when the two are the
      same. Fails when start is not registered and differs from dest.
     */
    method Dfs(start: V, dest: V) returns (r: Result<Option<seq<V>>>)
      requires Valid()
      ensures start == dest ==> r == Ok(Some([start]))
      ensures r.UnknownVertex? <==> start !in vertices && start != dest
      ensures r.Ok? ==> (r.value.None? <==> !Reachable(vertices, start, dest))
      ensures r.Ok? && r.value.Some? ==> IsWalkBetween(vertices, r.value.value, start, dest)
      ensures r.Ok? && r.value.Some? ==> NoDuplicates(r.value.value)
    {
      if start !in vertices {
        assert IsWalkBetween(vertices, [start], start, start);
        return if start == dest then Ok(Some([start])) else UnknownVertex;
      }
      var s := [[start]];
      var visited: set<V> := {};
      SearchInit(vertices, start, dest);
      while |s| > 0
        invariant SearchState(vertices, start, dest, s, visited)
        decreases |vertices.Keys - visited|, |s|
      {
        var path := s[|s| - 1];
        ghost var before := s;
        s := s[..|s| - 1];
        assert before == s + [path] && path in before;
        var v := Last(path);
        if v !in visited {
          if v == dest {
            SearchFound(vertices, start, dest, before, path, visited);
            return Ok(Some(path));
          }
          CardShrinks(vertices.Keys, visited, visited + {v}, v);
          var ns := Enumerate(vertices[v]);
          SearchExpand(vertices, start, dest, before, s, path, ns, visited);
          // push a copy of the path extended by each neighbour
          s := s + Extensions(path, ns);
          visited := visited + {v};
        } else {
          SearchSkip(vertices, start, dest, before, s, path, visited);
        }
      }
      SearchExhausted(vertices, start, dest, visited);
      return Ok(None);
    }

    /**
      Recursive depth-first traversal: emits start first and then every
      vertex reachable from start, each exactly once. Fails when start is
      not registered.
     */
    method DftRecursive(start: V) returns (r: Result<seq<V>>)
      requires Valid()
      ensures r.UnknownVertex? <==> start !in vertices
      ensures r.Ok? ==> |r.value| > 0 && r.value[0] == start && NoDuplicates(r.value)
      ensures r.Ok? ==> forall v :: v in r.value <==> Reachable(vertices, start, v)
    {
      if start !in vertices {
        return UnknownVertex;
      }
      var visited, emitted := Visit(start, {}, [], {});
      RecursiveDone(vertices, start, visited, emitted);
      return Ok(emitted);
    }

    /**
      One call of the recursive traversal: marks v visited, emits it, and
      recurses into each neighbour that is still unvisited, threading the
      one visited set (and the output) through the calls. The ghost set
      active holds the vertices whose calls are still running further up
      the recursion; Explored states what a finished call leaves behind.
     */
    method Visit(v: V, visited: set<V>, emitted: seq<V>, ghost active: set<V>)
      returns (visited': set<V>, emitted': seq<V>)
      requires Valid()
      requires v in vertices && v !in visited
      requires RecursiveState(vertices, visited, emitted, active)
      ensures Explored(vertices, v, visited, emitted, active, visited', emitted')
      decreases |vertices.Keys - visited|, 0
    {
      visited' := visited + {v};
      emitted' := emitted + [v];
      ExploreEnter(vertices, v, visited, emitted, active);
      var ns := Enumerate(vertices[v]);
      for i := 0 to |ns|
        invariant Explored(vertices, v, visited, emitted, active + {v}, visited', emitted')
        invariant forall k :: 0 <= k < i ==> ns[k] in visited'
      {
        CardShrinks(vertices.Keys, visited, visited', v);
        visited', emitted' := VisitNeighbour(v, ns[i], visited, emitted, active, visited', emitted');
      }
      ExploreLeave(vertices, v, visited, emitted, active, visited', emitted');
    }

    /**
      One round of the loop in Visit, for a neighbour w of v: recurse into
      w unless it is already visited. Afterwards w is visited and the call
      for v has still explored only what v reaches.
     */
    method VisitNeighbour(v: V, w: V, ghost visited: set<V>, ghost emitted: seq<V>, ghost active: set<V>,
                          mid: set<V>, midEmitted: seq<V>)
      returns (after: set<V>, afterEmitted: seq<V>)
      requires Valid()
      requires Edge(vertices, v, w)
      requires Explored(vertices, v, visited, emitted, active + {v}, mid, midEmitted)
      ensures Explored(vertices, v, visited, emitted, active + {v}, after, afterEmitted)
      ensures mid <= after && w in after
      decreases |vertices.Keys - mid|, 1
    {
      after, afterEmitted := mid, midEmitted;
      if w !in mid {
        after, afterEmitted := Visit(w, mid, midEmitted, active + {v});
        ExploreStep(vertices, v, w, visited, emitted, active, mid, midEmitted, after, afterEmitted);
      }
    }
  }
}
