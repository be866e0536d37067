// Pure functions over the graph's edge list: an ordered sequence of edges,
// each edge the set of its one or two endpoint labels (graph.py keeps it as a
// Python list of sets).

module EdgeLists {

  type Vertex = string
  type Edge = set<Vertex>

  /** The unordered pair {v1, v2}; a self-loop collapses to the singleton {v}. */
  function MakeEdge(v1: Vertex, v2: Vertex): (e: Edge)
    ensures v1 in e && v2 in e && e == {v2, v1}
  {
    {v1, v2}
  }

  /** The graph invariant: every edge is a pair of vertices of the graph. */
  ghost predicate WellFormed(vertices: set<Vertex>, edges: seq<Edge>)
  {
    forall e :: e in edges ==> e <= vertices && 1 <= |e| <= 2
  }

  /** Every edge has two distinct endpoints (no edge of the form {v}). */
  predicate NoSelfLoops(edges: seq<Edge>)
  {
    forall e :: e in edges ==> |e| == 2
  }

  /** Every edge that touches `v` has a second endpoint besides `v`. */
  predicate NoSelfLoopAt(edges: seq<Edge>, v: Vertex)
  {
    forall e :: e in edges && v in e ==> |e| == 2
  }

  /** Every label that occurs in some edge. */
  function Endpoints(edges: seq<Edge>): (r: set<Vertex>)
    ensures forall e :: e in edges ==> e <= r
  {
    if edges == [] then {}
    else
      assert forall e :: e in edges ==> e == edges[0] || e in edges[1..];
      edges[0] + Endpoints(edges[1..])
  }

  lemma PairShape(e: Edge, v: Vertex, w: Vertex)
    requires |e| == 2 && v in e && w in e && v != w
    ensures e == {v, w}
  {
    var rest := e - {v, w};
    assert |e - {v}| == 1;
    assert e - {v} == {w} + rest;
    assert |rest| == 0;
  }

  /** An edge at `v` other than the self-loop {v} has a second endpoint. */
  lemma NotSingleton(e: Edge, v: Vertex)
    requires v in e && e != {v}
    ensures |e| >= 2
  {
    var w :| w in e && w != v;
    assert w in e - {v};
    assert e * {v} == {v};
    assert |e - {v}| == |e| - 1;
  }

  /** A self-loop {v} at a vertex of a well-formed graph is the only edge at v without a second endpoint. */
  lemma NoSelfLoopAtVertex(vertices: set<Vertex>, edges: seq<Edge>, v: Vertex)
    requires WellFormed(vertices, edges) && MakeEdge(v, v) !in edges
    ensures NoSelfLoopAt(edges, v)
  {
    forall e | e in edges && v in e ensures |e| == 2 {
      assert MakeEdge(v, v) == {v};
      NotSingleton(e, v);
    }
  }

  // ---------------------------------------------------------------------
  // remove_vertex: the cascade keeps, in order, the edges that avoid `v`.

  function Without(edges: seq<Edge>, v: Vertex): (r: seq<Edge>)
    ensures forall e :: e in r ==> e in edges && v !in e
  {
    if edges == [] then []
    else if v in edges[0] then Without(edges[1..], v)
    else [edges[0]] + Without(edges[1..], v)
  }

  lemma {:induction false} WithoutAppend(a: seq<Edge>, b: seq<Edge>, v: Vertex)
    ensures Without(a + b, v) == Without(a, v) + Without(b, v)
  {
    if a != [] {
      assert (a + b)[1..] == a[1..] + b;
      WithoutAppend(a[1..], b, v);
    } else {
      assert a + b == b;
    }
  }

  /** Dropping an edge that contains `v` does not change what the cascade keeps. */
  lemma WithoutDropIncident(edges: seq<Edge>, i: nat, v: Vertex)
    requires i < |edges| && v in edges[i]
    ensures Without(edges[..i] + edges[i + 1..], v) == Without(edges, v)
  {
    assert edges == edges[..i] + ([edges[i]] + edges[i + 1..]);
    WithoutAppend(edges[..i], [edges[i]] + edges[i + 1..], v);
    WithoutAppend(edges[..i], edges[i + 1..], v);
    assert ([edges[i]] + edges[i + 1..])[1..] == edges[i + 1..];
  }

  /** An edge list in which no edge contains `v` is left as it is. */
  lemma {:induction false} WithoutUntouched(edges: seq<Edge>, v: Vertex)
    requires forall j :: 0 <= j < |edges| ==> v !in edges[j]
    ensures Without(edges, v) == edges
  {
    if edges != [] {
      WithoutUntouched(edges[1..], v);
    }
  }

  /** Every edge incident to `v` is removed, every other edge keeps its multiplicity. */
  lemma {:induction false} WithoutCount(edges: seq<Edge>, v: Vertex, e: Edge)
    ensures multiset(Without(edges, v))[e] == if v in e then 0 else multiset(edges)[e]
  {
    if edges != [] {
      WithoutCount(edges[1..], v, e);
      assert edges == [edges[0]] + edges[1..];
    }
  }

  lemma WithoutWellFormed(vertices: set<Vertex>, edges: seq<Edge>, v: Vertex)
    requires WellFormed(vertices, edges)
    ensures WellFormed(vertices - {v}, Without(edges, v))
  {
  }

  // ---------------------------------------------------------------------
  // remove_edge: Python's list.remove deletes the first equal element.

  function RemoveFirst(edges: seq<Edge>, e: Edge): (r: seq<Edge>)
    ensures e in edges ==> |r| == |edges| - 1
    ensures e !in edges ==> r == edges
  {
    if edges == [] then []
    else if edges[0] == e then edges[1..]
    else [edges[0]] + RemoveFirst(edges[1..], e)
  }

  /** The index of the first occurrence of `e`. */
  function FirstIndex(edges: seq<Edge>, e: Edge): (k: nat)
    requires e in edges
    ensures k < |edges| && edges[k] == e
    ensures forall j :: 0 <= j < k ==> edges[j] != e
  {
    if edges[0] == e then 0 else 1 + FirstIndex(edges[1..], e)
  }

  /** Removing the first occurrence is cutting the list at the first index. */
  lemma {:induction false} RemoveFirstAt(edges: seq<Edge>, e: Edge)
    requires e in edges
    ensures RemoveFirst(edges, e) == edges[..FirstIndex(edges, e)] + edges[FirstIndex(edges, e) + 1..]
  {
    if edges[0] != e {
      RemoveFirstAt(edges[1..], e);
      var k := FirstIndex(edges[1..], e);
      assert edges[1..][..k] == edges[1..k + 1];
      assert edges[..k + 1] == [edges[0]] + edges[1..k + 1];
    }
  }

  /** The multiplicity of `e` drops by exactly one; every other edge is kept. */
  lemma {:induction false} RemoveFirstCount(edges: seq<Edge>, e: Edge)
    ensures multiset(RemoveFirst(edges, e)) == multiset(edges) - multiset{e}
  {
    if edges != [] {
      assert edges == [edges[0]] + edges[1..];
      if edges[0] != e {
        RemoveFirstCount(edges[1..], e);
      }
    }
  }

  lemma RemoveFirstWellFormed(vertices: set<Vertex>, edges: seq<Edge>, e: Edge)
    requires WellFormed(vertices, edges)
    ensures WellFormed(vertices, RemoveFirst(edges, e))
  {
    RemoveFirstCount(edges, e);
    forall f | f in RemoveFirst(edges, e) ensures f in edges {
      assert f in multiset(RemoveFirst(edges, e));
    }
  }

  // ---------------------------------------------------------------------
  // build: the edges that `add_edge` accepts, in the given order.

  function Admitted(vertices: set<Vertex>, given: seq<Edge>): (r: seq<Edge>)
    ensures |r| <= |given|
    ensures forall e :: e in r ==> e in given && e <= vertices
  {
    if given == [] then []
    else
      var last := given[|given| - 1];
      Admitted(vertices, given[..|given| - 1]) + (if last <= vertices then [last] else [])
  }

  /** One more given edge: it is appended exactly when it lies inside `vertices`. */
  lemma AdmittedNext(vertices: set<Vertex>, given: seq<Edge>, i: nat)
    requires i < |given|
    ensures Admitted(vertices, given[..i + 1]) ==
            Admitted(vertices, given[..i]) + (if given[i] <= vertices then [given[i]] else [])
  {
    assert given[..i + 1][..i] == given[..i];
  }

  /** Exactly the given edges inside `vertices` survive, each with its multiplicity. */
  lemma {:induction false} AdmittedCount(vertices: set<Vertex>, given: seq<Edge>, e: Edge)
    ensures multiset(Admitted(vertices, given))[e] == if e <= vertices then multiset(given)[e] else 0
  {
    if given != [] {
      AdmittedCount(vertices, given[..|given| - 1], e);
      assert given == given[..|given| - 1] + [given[|given| - 1]];
    }
  }

  /**
   * Python's `*edge` on a two-element set: its two labels, in whichever
   * order the set yields them.
   */
  method Unpack(e: Edge) returns (x: Vertex, y: Vertex)
    requires |e| == 2
    ensures x != y && e == MakeEdge(x, y)
  {
    x :| x in e;
    assert |e - {x}| == 1;
    y :| y in e - {x};
    PairShape(e, x, y);
  }

  /** When every given edge lies inside `vertices`, all of them are kept, in order. */
  lemma {:induction false} AdmittedAll(vertices: set<Vertex>, given: seq<Edge>)
    requires forall e :: e in given ==> e <= vertices
    ensures Admitted(vertices, given) == given
  {
    if given != [] {
      var init := given[..|given| - 1];
      assert forall e :: e in init ==> e in given;
      AdmittedAll(vertices, init);
      assert given == init + [given[|given| - 1]];
    }
  }

  // ---------------------------------------------------------------------
  // _get_all_adjavent_verticies: the other endpoint of every incident edge.

  /** The endpoint of a two-element edge other than `v`. */
  function Other(e: Edge, v: Vertex): (w: Vertex)
    requires v in e && |e| == 2
    ensures w in e && w != v && e == {v, w}
  {
    assert |e - {v}| == 1;
    var w :| w in e - {v};
    PairShape(e, v, w);
    w
  }

  /** One label per edge incident to `v`, in edge order, duplicates kept. */
  function Neighbours(edges: seq<Edge>, v: Vertex): (r: seq<Vertex>)
    requires NoSelfLoopAt(edges, v)
    ensures forall w :: w in r ==> w != v && MakeEdge(v, w) in edges && w in Endpoints(edges)
  {
    if edges == [] then []
    else (if v in edges[0] then [Other(edges[0], v)] else []) + Neighbours(edges[1..], v)
  }

  /** A label appears in the list once per parallel edge joining it to `v`. */
  lemma {:induction false} NeighbourCount(edges: seq<Edge>, v: Vertex, w: Vertex)
    requires NoSelfLoopAt(edges, v) && w != v
    ensures multiset(Neighbours(edges, v))[w] == multiset(edges)[MakeEdge(v, w)]
  {
    if edges != [] {
      NeighbourCount(edges[1..], v, w);
      assert edges == [edges[0]] + edges[1..];
      if v in edges[0] {
        var o := Other(edges[0], v);
        if o != w {
          assert w !in edges[0];
        }
      }
    }
  }

  lemma NeighbourMembers(edges: seq<Edge>, v: Vertex, w: Vertex)
    requires NoSelfLoopAt(edges, v)
    ensures w in Neighbours(edges, v) <==> w != v && MakeEdge(v, w) in edges
  {
    if w != v {
      NeighbourCount(edges, v, w);
    }
  }
}
