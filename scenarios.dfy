// The two graphs that test_graphs.py builds, and what callers of Graph can
// conclude about them from the contracts alone.

module GraphScenarios {
  import opened EdgeLists
  import opened PathSearch
  import opened GraphModel

  /** The second graph of test_graphs.py: vertices a and b joined by two parallel edges. */
  method BuildParallel() returns (g: Graph)
    ensures fresh(g) && g.Valid()
    ensures g.vertices == {"a", "b"} && g.edges == [MakeEdge("a", "b"), MakeEdge("a", "b")]
  {
    var ab := MakeEdge("a", "b");
    assert |ab| == 2;
    g := Graph.Build({"a", "b"}, [ab, ab]);
    AdmittedAll({"a", "b"}, [ab, ab]);
  }

  /** Both orders of the one simple path are emitted once per parallel edge. */
  method ParallelPaths()
  {
    var g := BuildParallel();
    var ab := MakeEdge("a", "b");
    assert multiset(g.edges)[ab] == 2;
    var paths := g.GetPaths();
    EdgePathCount(g.edges, "a", "b");
    EdgePathCount(g.edges, "b", "a");
    assert multiset(paths)[["a", "b"]] == 2;
    assert multiset(paths)[["b", "a"]] == 2;
  }

  /** Parallel edges collapse in the adjacency set. */
  method ParallelAdjacency()
  {
    var g := BuildParallel();
    assert MakeEdge("a", "a") != MakeEdge("a", "b") by { assert "b" !in MakeEdge("a", "a"); }
    var adjacent := g.GetAdjacentVertices("a");
    assert adjacent == {"b"};
  }

  /** Removing one of two parallel edges leaves the other in place. */
  method ParallelRemove()
  {
    var g := BuildParallel();
    assert g.ContainsEdge("a", "b");
    var ok := g.RemoveEdge("b", "a");
    assert ok && g.edges == [MakeEdge("a", "b")];
    assert g.ContainsEdge("a", "b");
  }

  /** The first graph of test_graphs.py: a, b, c, d with edges ab, bc, ac, cd, ad. */
  method BuildFour() returns (g: Graph)
    ensures fresh(g) && g.Valid() && g.vertices == {"a", "b", "c", "d"}
    ensures g.edges == [MakeEdge("a", "b"), MakeEdge("b", "c"), MakeEdge("a", "c"),
                        MakeEdge("c", "d"), MakeEdge("a", "d")]
  {
    var given := [MakeEdge("a", "b"), MakeEdge("b", "c"), MakeEdge("a", "c"),
                  MakeEdge("c", "d"), MakeEdge("a", "d")];
    assert forall e :: e in given ==> |e| == 2;
    g := Graph.Build({"a", "b", "c", "d"}, given);
    AdmittedAll({"a", "b", "c", "d"}, given);
  }

  /** Vertex a of the first graph is joined to b, c and d. */
  method FourAdjacency()
  {
    var g := BuildFour();
    FourEdgesAtA(g.edges, "a");
    var adjacent := g.GetAdjacentVertices("a");
    forall w ensures w in adjacent <==> w in {"b", "c", "d"} {
      FourEdgesAtA(g.edges, w);
    }
    assert adjacent == {"b", "c", "d"};
  }

  /** In the first graph, the labels joined to a are exactly b, c and d. */
  lemma FourEdgesAtA(edges: seq<Edge>, w: Vertex)
    requires edges == [MakeEdge("a", "b"), MakeEdge("b", "c"), MakeEdge("a", "c"),
                       MakeEdge("c", "d"), MakeEdge("a", "d")]
    ensures w != "a" && MakeEdge("a", w) in edges <==> w in {"b", "c", "d"}
    ensures MakeEdge("a", "a") !in edges
  {
    assert "b" !in MakeEdge("a", "a") && "c" !in MakeEdge("a", "a");
    if w != "a" && MakeEdge("a", w) in edges {
      var k :| 0 <= k < |edges| && edges[k] == MakeEdge("a", w);
      assert w in edges[k] && "a" in edges[k];
    }
  }

  /** A path and its reverse are separate entries, since every vertex is a start. */
  method FourPathsBothWays()
  {
    var g := BuildFour();
    var paths := g.GetPaths();
    var e := g.edges;
    assert SimplePathCount(e, ["a", "b"]) == 1 by {
      assert multiset(e)[MakeEdge("a", "b")] == 1;
      EdgePathCount(e, "a", "b");
    }
    assert SimplePathCount(e, ["b", "a"]) == 1 by {
      assert multiset(e)[MakeEdge("b", "a")] == 1;
      EdgePathCount(e, "b", "a");
    }
    assert multiset(paths)[["a", "b"]] == 1;
    assert multiset(paths)[["b", "a"]] == 1;
  }

  /** The maximal path a-c-d is emitted beside its prefix a-c. */
  method FourPathsPrefixes()
  {
    var g := BuildFour();
    var paths := g.GetPaths();
    var e := g.edges;
    assert multiset(e)[MakeEdge("a", "c")] == 1;
    assert SimplePathCount(e, ["a", "c"]) == 1 by {
      EdgePathCount(e, "a", "c");
    }
    assert SimplePathCount(e, ["a", "c", "d"]) == 1 by {
      assert multiset(e)[MakeEdge("c", "d")] == 1;
      EdgePathCount(e, "c", "d");
      assert Links(e, ["c", "d"]) == 1;
      assert ["a", "c", "d"][1..] == ["c", "d"];
      assert Links(e, ["a", "c", "d"]) == 1;
      assert Distinct(["a", "c", "d"]);
    }
    assert multiset(paths)[["a", "c"]] == 1;
    assert multiset(paths)[["a", "c", "d"]] == 1;
  }

  /** A second AddVertex of the same label, and mutations naming an absent label, change nothing. */
  method FailedMutations()
  {
    var g := new Graph();
    var ok := g.AddVertex("x");
    assert ok && g.ContainsVertex("x");
    ok := g.AddVertex("x");
    assert !ok && g.vertices == {"x"} && g.edges == [];
    ok := g.RemoveVertex("z");
    assert !ok && g.vertices == {"x"} && g.edges == [];
    ok := g.AddEdge("x", "z");
    assert !ok && g.vertices == {"x"} && g.edges == [];
  }

  /** Removing a vertex removes every parallel edge at it. */
  method RemoveVertexCascade()
  {
    var g := BuildParallel();
    var ab := MakeEdge("a", "b");
    assert Without([ab], "a") == [];
    assert Without([ab, ab], "a") == [];
    var ok := g.RemoveVertex("a");
    assert ok && g.vertices == {"b"} && g.edges == [];
    assert !g.ContainsEdge("a", "b");
  }
}
