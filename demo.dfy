/**
  The example graph the module builds when it is run as a program: seven
  vertices and ten edges. The checks below pin down what the traversals
  and searches return on it, from their contracts alone.
 */
module Demo {
  import opened Walks
  import opened Graphs
  import opened PathSearch

  /** The adjacency map of the example graph. */
  function DemoMap(): map<int, set<int>> {
    map[1 := {2}, 2 := {3, 4}, 3 := {5}, 4 := {6, 7}, 5 := {3}, 6 := {3}, 7 := {1, 6}]
  }

  /** Registering the vertices 1 to 7 in a new graph gives seven vertices without edges. */
  method DemoVertices() returns (graph: Graph<int>)
    ensures fresh(graph) && graph.Valid()
    ensures graph.vertices == map[1 := {}, 2 := {}, 3 := {}, 4 := {}, 5 := {}, 6 := {}, 7 := {}]
  {
    graph := new Graph<int>();
    graph.AddVertex(1);
    graph.AddVertex(2);
    graph.AddVertex(3);
    assert graph.vertices == map[1 := {}, 2 := {}, 3 := {}];
    graph.AddVertex(4);
    graph.AddVertex(5);
    assert graph.vertices == map[1 := {}, 2 := {}, 3 := {}, 4 := {}, 5 := {}];
    graph.AddVertex(6);
    graph.AddVertex(7);
  }

  /** The first four edges of the example: 5 -> 3, 6 -> 3, 7 -> 1, 4 -> 7. */
  method DemoEdgesIntoCycle(graph: Graph<int>)
    requires graph.Valid()
    requires graph.vertices == map[1 := {}, 2 := {}, 3 := {}, 4 := {}, 5 := {}, 6 := {}, 7 := {}]
    modifies graph
    ensures graph.Valid()
    ensures graph.vertices == map[1 := {}, 2 := {}, 3 := {}, 4 := {7}, 5 := {3}, 6 := {3}, 7 := {1}]
  {
    var ok := graph.AddEdge(5, 3);
    assert ok && graph.vertices[5] == {3};
    assert graph.vertices == map[1 := {}, 2 := {}, 3 := {}, 4 := {}, 5 := {3}, 6 := {}, 7 := {}];
    ok := graph.AddEdge(6, 3);
    assert ok && graph.vertices[6] == {3};
    assert graph.vertices == map[1 := {}, 2 := {}, 3 := {}, 4 := {}, 5 := {3}, 6 := {3}, 7 := {}];
    ok := graph.AddEdge(7, 1);
    assert ok && graph.vertices[7] == {1};
    assert graph.vertices == map[1 := {}, 2 := {}, 3 := {}, 4 := {}, 5 := {3}, 6 := {3}, 7 := {1}];
    ok := graph.AddEdge(4, 7);
    assert ok && graph.vertices[4] == {7};
  }

  /** The next three edges of the example: 1 -> 2, 7 -> 6, 2 -> 4. */
  method DemoEdgesOutOfOne(graph: Graph<int>)
    requires graph.Valid()
    requires graph.vertices == map[1 := {}, 2 := {}, 3 := {}, 4 := {7}, 5 := {3}, 6 := {3}, 7 := {1}]
    modifies graph
    ensures graph.Valid()
    ensures graph.vertices == map[1 := {2}, 2 := {4}, 3 := {}, 4 := {7}, 5 := {3}, 6 := {3}, 7 := {1, 6}]
  {
    var ok := graph.AddEdge(1, 2);
    assert ok && graph.vertices[1] == {2};
    assert graph.vertices == map[1 := {2}, 2 := {}, 3 := {}, 4 := {7}, 5 := {3}, 6 := {3}, 7 := {1}];
    ok := graph.AddEdge(7, 6);
    assert ok && graph.vertices[7] == {1, 6};
    assert graph.vertices == map[1 := {2}, 2 := {}, 3 := {}, 4 := {7}, 5 := {3}, 6 := {3}, 7 := {1, 6}];
    ok := graph.AddEdge(2, 4);
    assert ok && graph.vertices[2] == {4};
  }

  /** The last three edges of the example: 3 -> 5, 2 -> 3, 4 -> 6. */
  method DemoEdgesLast(graph: Graph<int>)
    requires graph.Valid()
    requires graph.vertices == map[1 := {2}, 2 := {4}, 3 := {}, 4 := {7}, 5 := {3}, 6 := {3}, 7 := {1, 6}]
    modifies graph
    ensures graph.Valid()
    ensures graph.vertices == DemoMap()
  {
    var ok := graph.AddEdge(3, 5);
    assert ok && graph.vertices[3] == {5};
    assert graph.vertices == map[1 := {2}, 2 := {4}, 3 := {5}, 4 := {7}, 5 := {3}, 6 := {3}, 7 := {1, 6}];
    ok := graph.AddEdge(2, 3);
    assert ok && graph.vertices[2] == {3, 4};
    assert graph.vertices == map[1 := {2}, 2 := {3, 4}, 3 := {5}, 4 := {7}, 5 := {3}, 6 := {3}, 7 := {1, 6}];
    ok := graph.AddEdge(4, 6);
    assert ok && graph.vertices[4] == {6, 7};
  }

  /** Building the example graph vertex by vertex and edge by edge, in the order the demonstration does, gives DemoMap. */
  method BuildDemo() returns (graph: Graph<int>)
    ensures fresh(graph) && graph.Valid() && graph.vertices == DemoMap()
  {
    graph := DemoVertices();
    DemoEdgesIntoCycle(graph);
    DemoEdgesOutOfOne(graph);
    DemoEdgesLast(graph);
  }

  /** The walk 1, 2, 4, 6 is the only walk from 1 to 6 with at most four vertices. */
  lemma OnlyShortWalkToSix(p: seq<int>)
    requires IsWalkBetween(DemoMap(), p, 1, 6) && |p| <= 4
    ensures p == [1, 2, 4, 6]
  {
    var g := DemoMap();
    assert Edge(g, p[0], p[1]);
    assert p[1] == 2;
    assert Edge(g, p[1], p[2]);
    assert Edge(g, p[2], p[3]);
  }

  /** Every vertex of the example graph is reachable from 1, and nothing else is. */
  lemma AllReachableFromOne()
    ensures forall v :: Reachable(DemoMap(), 1, v) <==> 1 <= v <= 7
  {
    var g := DemoMap();
    assert IsWalkBetween(g, [1], 1, 1);
    assert IsWalkBetween(g, [1, 2], 1, 2);
    assert IsWalkBetween(g, [1, 2, 3], 1, 3);
    assert IsWalkBetween(g, [1, 2, 4], 1, 4);
    assert IsWalkBetween(g, [1, 2, 3, 5], 1, 5);
    assert IsWalkBetween(g, [1, 2, 4, 6], 1, 6);
    assert IsWalkBetween(g, [1, 2, 4, 7], 1, 7);
    forall v | Reachable(g, 1, v)
      ensures 1 <= v <= 7
    {
      if v != 1 {
        ReachableRegistered(g, 1, v);
      }
    }
  }

  /** Breadth-first search from 1 to 6 on the example graph returns [1, 2, 4, 6]. */
  method DemoBfs() returns (r: Result<Option<seq<int>>>)
    ensures r == Ok(Some([1, 2, 4, 6]))
  {
    var graph := BuildDemo();
    r := graph.Bfs(1, 6);
    assert IsWalkBetween(DemoMap(), [1, 2, 4, 6], 1, 6);
    OnlyShortWalkToSix(r.value.value);
  }

  /** Depth-first search from 1 to 6 returns a walk from 1 to 6 without repeated vertices. */
  method DemoDfs() returns (r: Result<Option<seq<int>>>)
    ensures r.Ok? && r.value.Some?
    ensures IsWalkBetween(DemoMap(), r.value.value, 1, 6) && NoDuplicates(r.value.value)
  {
    var graph := BuildDemo();
    r := graph.Dfs(1, 6);
    assert IsWalkBetween(DemoMap(), [1, 2, 4, 6], 1, 6);
  }

  /** The three traversals from 1 each emit all seven vertices, once each, starting with 1. */
  method DemoTraversals() returns (bft: seq<int>, dft: seq<int>, dftRecursive: seq<int>)
    ensures |bft| == |dft| == |dftRecursive| == 7
    ensures bft[0] == dft[0] == dftRecursive[0] == 1
    ensures forall v :: (v in bft <==> 1 <= v <= 7) && (v in dft <==> 1 <= v <= 7) && (v in dftRecursive <==> 1 <= v <= 7)
  {
    var graph := BuildDemo();
    AllReachableFromOne();
    var r := graph.Bft(1);
    bft := r.value;
    r := graph.Dft(1);
    dft := r.value;
    r := graph.DftRecursive(1);
    dftRecursive := r.value;
    SevenDistinct(bft);
    SevenDistinct(dft);
    SevenDistinct(dftRecursive);
  }

  /** A sequence holding exactly the vertices 1 to 7, each once, has length 7. */
  lemma SevenDistinct(s: seq<int>)
    requires NoDuplicates(s) && forall v :: v in s <==> 1 <= v <= 7
    ensures |s| == 7
  {
    assert Elems(s) == {1, 2, 3, 4, 5, 6, 7};
    DistinctCount(s);
  }

  /** One iteration order of the example graph's neighbour sets: 3 comes before 4 among the neighbours of 2. */
  function DemoOrder(): map<int, seq<int>> {
    map[1 := [2], 2 := [3, 4], 3 := [5], 4 := [6, 7], 5 := [3], 6 := [3], 7 := [1, 6]]
  }

  lemma DemoOrderWellFormed()
    ensures NeighboursRegistered(DemoMap()) && IsIterationOrder(DemoMap(), DemoOrder())
  {
    assert DemoOrder()[2][0] != DemoOrder()[2][1];
    assert DemoOrder()[4][0] != DemoOrder()[4][1];
    assert DemoOrder()[7][0] != DemoOrder()[7][1];
  }

  /** From 5 with path [1, 2, 3] the first neighbour tried is 3, already on the path: the search stops. */
  lemma DemoStopsAtFive()
    ensures DfsRecursive(DemoMap(), DemoOrder(), 5, 6, [1, 2, 3]) == Ok(Some([1, 2, 3, 5]))
  {
    DemoOrderWellFormed();
    assert [1, 2, 3] + [5] == [1, 2, 3, 5];
  }

  /** From 2 with path [1] the search goes on to 3 and then to 5, where it stops. */
  lemma DemoFromTwo()
    ensures DfsRecursive(DemoMap(), DemoOrder(), 2, 6, [1]) == Ok(Some([1, 2, 3, 5]))
  {
    DemoOrderWellFormed();
    assert [1] + [2] == [1, 2] && [1, 2] + [3] == [1, 2, 3];
    DemoStopsAtFive();
    assert DfsRecursive(DemoMap(), DemoOrder(), 3, 6, [1, 2]) == Ok(Some([1, 2, 3, 5]));
  }

  /**
    The demonstration's call dfs_recursive(1, 6), when the set of 2 yields 3
    first, follows 1, 2, 3, 5, finds 3 already on the path and returns
    [1, 2, 3, 5], which does not reach 6 although 6 is reachable.
   */
  lemma DemoDfsRecursiveMissesSix()
    ensures NeighboursRegistered(DemoMap()) && IsIterationOrder(DemoMap(), DemoOrder())
    ensures Reachable(DemoMap(), 1, 6)
    ensures DfsRecursive(DemoMap(), DemoOrder(), 1, 6, []) == Ok(Some([1, 2, 3, 5]))
  {
    DemoOrderWellFormed();
    assert IsWalkBetween(DemoMap(), [1, 2, 4, 6], 1, 6);
    assert [] + [1] == [1];
    DemoFromTwo();
  }
}
