// The Graph class of graph.py: a set of vertex labels and an ordered list of
// edges, updated in place by its mutators, each of which reports success.

module GraphModel {
  import opened EdgeLists
  import opened PathSearch

  class Graph {
    var vertices: set<Vertex>
    var edges: seq<Edge>

    /** Every edge joins one or two vertices of the graph. */
    ghost predicate Valid()
      reads this
    {
      WellFormed(vertices, edges)
    }

    constructor ()
      ensures Valid() && vertices == {} && edges == []
    {
      vertices := {};
      edges := [];
    }

    /**
     * The graph with the given vertices and, in the given order, those given
     * edges whose endpoints are both among them. Each given edge must hold
     * exactly two labels: it is unpacked into the two arguments of AddEdge.
     */
    static method Build(vs: set<Vertex>, given: seq<Edge>) returns (g: Graph)
      requires forall e :: e in given ==> |e| == 2
      ensures fresh(g) && g.Valid()
      ensures g.vertices == vs && g.edges == Admitted(vs, given)
    {
      g := new Graph();
      var rest := vs;
      while rest != {}
        invariant fresh(g)
        invariant rest <= vs && g.vertices == vs - rest && g.edges == []
        decreases rest
      {
        var v :| v in rest;
        var _ := g.AddVertex(v);
        rest := rest - {v};
      }
      assert g.vertices == vs && g.edges == [] && g.Valid();
      for i := 0 to |given|
        invariant fresh(g) && g.Valid()
        invariant g.vertices == vs && g.edges == Admitted(vs, given[..i])
      {
        var e := given[i];
        assert |e| == 2 by {
          assert e in given;
        }
        var x, y := Unpack(e);
        assert Admitted(vs, given[..i + 1]) ==
               Admitted(vs, given[..i]) + (if x in vs && y in vs then [MakeEdge(x, y)] else []) by {
          AdmittedNext(vs, given, i);
          assert e <= vs <==> x in vs && y in vs;
        }
        var _ := g.AddEdge(x, y);
      }
      assert given[..|given|] == given;
    }

    function ContainsVertex(v: Vertex): (r: bool)
      reads this
      ensures r <==> v in vertices
    {
      v in vertices
    }

    method AddVertex(v: Vertex) returns (ok: bool)
      requires Valid()
      modifies this
      ensures Valid() && ContainsVertex(v)
      ensures ok <==> v !in old(vertices)
      ensures vertices == old(vertices) + {v} && edges == old(edges)
    {
      if ContainsVertex(v) {
        return false;
      }
      vertices := vertices + {v};
      ok := true;
    }

    /** Removes `v` and, keeping the order of the rest, every edge that touches it. */
    method RemoveVertex(v: Vertex) returns (ok: bool)
      requires Valid()
      modifies this
      ensures Valid() && !ContainsVertex(v)
      ensures ok <==> v in old(vertices)
      ensures vertices == old(vertices) - {v}
      ensures edges == if ok then Without(old(edges), v) else old(edges)
    {
      if !ContainsVertex(v) {
        return false;
      }
      vertices := vertices - {v};
      var i := 0;
      while i < |edges|
        invariant 0 <= i <= |edges|
        invariant vertices == old(vertices) - {v}
        invariant Without(edges, v) == Without(old(edges), v)
        invariant forall j :: 0 <= j < i ==> v !in edges[j]
        decreases |edges| - i
      {
        if v in edges[i] {
          WithoutDropIncident(edges, i, v);
          edges := edges[..i] + edges[i + 1..];
        } else {
          i := i + 1;
        }
      }
      WithoutUntouched(edges, v);
      WithoutWellFormed(old(vertices), old(edges), v);
      ok := true;
    }

    /** Whether the unordered pair {v1, v2} occurs in the edge list, in either order. */
    function ContainsEdge(v1: Vertex, v2: Vertex): (r: bool)
      reads this
      ensures r <==> multiset(edges)[MakeEdge(v1, v2)] > 0
      ensures r <==> MakeEdge(v2, v1) in edges
    {
      MakeEdge(v1, v2) in edges
    }

    /** Appends {v1, v2} when both are vertices, even if the same edge is already there. */
    method AddEdge(v1: Vertex, v2: Vertex) returns (ok: bool)
      requires Valid()
      modifies this
      ensures Valid()
      ensures ok <==> v1 in old(vertices) && v2 in old(vertices)
      ensures ok ==> ContainsEdge(v1, v2)
      ensures vertices == old(vertices)
      ensures edges == if ok then old(edges) + [MakeEdge(v1, v2)] else old(edges)
    {
      if v1 in vertices && v2 in vertices {
        edges := edges + [MakeEdge(v1, v2)];
        return true;
      }
      ok := false;
    }

    /** Deletes the first occurrence of {v1, v2}; a parallel duplicate survives. */
    method RemoveEdge(v1: Vertex, v2: Vertex) returns (ok: bool)
      requires Valid()
      modifies this
      ensures Valid()
      ensures ok <==> MakeEdge(v1, v2) in old(edges)
      ensures vertices == old(vertices)
      ensures edges == if ok then RemoveFirst(old(edges), MakeEdge(v1, v2)) else old(edges)
      ensures multiset(edges) == multiset(old(edges)) - multiset{MakeEdge(v1, v2)}
    {
      var e := MakeEdge(v1, v2);
      if e !in edges {
        return false;
      }
      var k := FirstIndex(edges, e);
      RemoveFirstAt(edges, e);
      RemoveFirstCount(edges, e);
      RemoveFirstWellFormed(vertices, edges, e);
      edges := edges[..k] + edges[k + 1..];
      ok := true;
    }

    /** The other endpoint of every edge at `v`, in edge order, once per edge. */
    function GetAllAdjacentVertices(v: Vertex): (r: seq<Vertex>)
      reads this
      requires Valid() && MakeEdge(v, v) !in edges
      ensures v !in r
      ensures forall w :: w != v ==> multiset(r)[w] == multiset(edges)[MakeEdge(v, w)]
    {
      NoSelfLoopAtVertex(vertices, edges, v);
      var r := Neighbours(edges, v);
      assert forall w :: w != v ==> multiset(r)[w] == multiset(edges)[MakeEdge(v, w)] by {
        forall w | w != v ensures multiset(r)[w] == multiset(edges)[MakeEdge(v, w)] {
          NeighbourCount(edges, v, w);
        }
      }
      r
    }

    /** The vertices joined to `v` by at least one edge. */
    function GetAdjacentVertices(v: Vertex): (r: set<Vertex>)
      reads this
      requires Valid() && MakeEdge(v, v) !in edges
      ensures forall w :: w in r <==> w != v && MakeEdge(v, w) in edges
    {
      var all := GetAllAdjacentVertices(v);
      assert forall w :: w in all <==> w != v && MakeEdge(v, w) in edges by {
        forall w ensures w in all <==> w != v && MakeEdge(v, w) in edges {
          if w != v {
            assert multiset(all)[w] == multiset(edges)[MakeEdge(v, w)];
          }
        }
      }
      set w | w in all
    }

    /**
     * Every simple path of two or more vertices, from every start vertex,
     * emitted once per choice of parallel edges along it. The order in which
     * the start vertices are taken is left open.
     */
    method GetPaths() returns (paths: seq<Path>)
      requires Valid() && NoSelfLoops(edges)
      ensures forall q :: multiset(paths)[q] == SimplePathCount(edges, q)
    {
      paths := [];
      var rest := vertices;
      ghost var starts: seq<Vertex> := [];
      while rest != {}
        invariant rest <= vertices
        invariant Elems(starts) == vertices - rest && Distinct(starts)
        invariant paths == AllPaths(edges, starts)
        decreases rest
      {
        var v :| v in rest;
        assert v !in Elems(starts);
        assert forall j :: 0 <= j < |starts| ==> starts[j] in Elems(starts);
        assert Elems(starts + [v]) == Elems(starts) + {v};
        paths := paths + PathsFrom(edges, [v]);
        assert (starts + [v])[..|starts|] == starts;
        starts := starts + [v];
        rest := rest - {v};
      }
      forall q ensures multiset(paths)[q] == SimplePathCount(edges, q) {
        AllPathsFromEveryVertex(vertices, edges, starts, q);
      }
    }
  }
}
