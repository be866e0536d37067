// get_paths: the depth-first search over the edge list that emits every
// simple path of length at least two from a start vertex, once per choice of
// parallel edges along it.

module PathSearch {
  import opened EdgeLists

  type Path = seq<Vertex>

  predicate Distinct(p: Path)
  {
    forall i, j :: 0 <= i < j < |p| ==> p[i] != p[j]
  }

  function Elems(p: Path): set<Vertex>
  {
    set x | x in p
  }

  /** A simple path of the graph: two or more distinct labels, each consecutive pair joined by an edge. */
  ghost predicate IsSimplePath(edges: seq<Edge>, q: Path)
  {
    2 <= |q| && Distinct(q) &&
    forall i :: 0 <= i < |q| - 1 ==> MakeEdge(q[i], q[i + 1]) in edges
  }

  /** The number of ways to walk `q` choosing one of the parallel edges at each step. */
  function Links(edges: seq<Edge>, q: Path): nat
  {
    if |q| < 2 then 1 else multiset(edges)[MakeEdge(q[0], q[1])] * Links(edges, q[1..])
  }

  /** How many times a search from every vertex emits `q`. */
  function SimplePathCount(edges: seq<Edge>, q: Path): nat
  {
    if 2 <= |q| && Distinct(q) then Links(edges, q) else 0
  }

  /**
   * The inner helper of get_paths: `path` itself when it has two or more
   * labels, then, for every incident edge of its last label in edge order, the
   * search continued through the other endpoint when that label is not yet on
   * the path.
   */
  function PathsFrom(edges: seq<Edge>, path: Path): (r: seq<Path>)
    requires NoSelfLoops(edges)
    ensures forall q :: q in r ==> path <= q && 2 <= |q|
    decreases Endpoints(edges) - Elems(path), 1
  {
    if |path| == 0 then []
    else
      (if |path| == 1 then [] else [path]) +
      Branches(edges, path, Neighbours(edges, path[|path| - 1]))
  }

  /** The `for v in ...` loop of the helper over the remaining neighbours `ns`. */
  function Branches(edges: seq<Edge>, path: Path, ns: seq<Vertex>): (r: seq<Path>)
    requires NoSelfLoops(edges)
    requires forall w :: w in ns ==> w in Endpoints(edges)
    ensures forall q :: q in r ==> path <= q && |path| < |q| && 2 <= |q|
    decreases Endpoints(edges) - Elems(path), 0, |ns|
  {
    if ns == [] then []
    else
      var v := ns[0];
      (if v !in path then
         Extend(edges, path, v);
         PathsFrom(edges, path + [v])
       else []) +
      Branches(edges, path, ns[1..])
  }

  /** Extending a path by a new label keeps it distinct and shrinks the labels left to visit. */
  lemma Extend(edges: seq<Edge>, path: Path, v: Vertex)
    requires v in Endpoints(edges) && v !in path
    ensures Elems(path + [v]) == Elems(path) + {v}
    ensures Endpoints(edges) - Elems(path + [v]) < Endpoints(edges) - Elems(path)
    ensures Distinct(path) ==> Distinct(path + [v])
  {
    assert Elems(path + [v]) == Elems(path) + {v};
    assert v in Endpoints(edges) - Elems(path);
  }

  /** The outer loop of get_paths, over the start vertices in the order given. */
  function AllPaths(edges: seq<Edge>, starts: seq<Vertex>): (r: seq<Path>)
    requires NoSelfLoops(edges)
    ensures forall q :: q in r ==> 2 <= |q| && q[0] in starts
  {
    if starts == [] then []
    else AllPaths(edges, starts[..|starts| - 1]) + PathsFrom(edges, [starts[|starts| - 1]])
  }

  // ---------------------------------------------------------------------
  // How often the search emits each sequence.

  lemma ExtendPrefix(p: Path, v: Vertex, q: Path)
    ensures p + [v] <= q <==> p <= q && |p| < |q| && q[|p|] == v
  {
    if p <= q && |p| < |q| && q[|p|] == v {
      assert q[..|p| + 1] == q[..|p|] + [q[|p|]];
    }
  }

  lemma {:induction false} PathsFromCount(edges: seq<Edge>, path: Path, q: Path)
    requires NoSelfLoops(edges) && 1 <= |path| && Distinct(path)
    ensures multiset(PathsFrom(edges, path))[q] ==
            if 2 <= |q| && Distinct(q) && path <= q then Links(edges, q[|path| - 1..]) else 0
    decreases Endpoints(edges) - Elems(path), 1
  {
    BranchesCount(edges, path, Neighbours(edges, path[|path| - 1]), q);
    PathsFromUnfold(edges, path, q);
    PathsFromStep(edges, path, q);
  }

  // The induction steps of the count lemmas (PathsFromStep, BranchesStep,
  // AllPathsStep) are split off as lemmas of their own: each takes the
  // recursive calls' conclusions as its requires, word for word, so that the
  // solver works on the step in a small context.

  /** The count for `path` from the count for its branches. */
  lemma PathsFromStep(edges: seq<Edge>, path: Path, q: Path)
    requires NoSelfLoops(edges) && 1 <= |path| && Distinct(path)
    requires multiset(PathsFrom(edges, path))[q] ==
             (if 2 <= |path| && q == path then 1 else 0) +
             multiset(Branches(edges, path, Neighbours(edges, path[|path| - 1])))[q]
    requires multiset(Branches(edges, path, Neighbours(edges, path[|path| - 1])))[q] ==
             if |path| < |q| && Distinct(q) && path <= q
             then multiset(Neighbours(edges, path[|path| - 1]))[q[|path|]] * Links(edges, q[|path|..]) else 0
    ensures multiset(PathsFrom(edges, path))[q] ==
            if 2 <= |q| && Distinct(q) && path <= q then Links(edges, q[|path| - 1..]) else 0
  {
    if |path| < |q| && Distinct(q) && path <= q {
      StepExtended(edges, path, q);
    } else if q == path {
      assert q[|path| - 1..] == [path[|path| - 1]];
    } else {
      NotExtended(path, q);
    }
  }

  lemma StepExtended(edges: seq<Edge>, path: Path, q: Path)
    requires NoSelfLoops(edges) && 1 <= |path| < |q| && Distinct(q) && path <= q
    ensures multiset(Neighbours(edges, path[|path| - 1]))[q[|path|]] * Links(edges, q[|path|..]) ==
            Links(edges, q[|path| - 1..])
  {
    var n := |path|;
    assert q[n - 1] == path[n - 1];
    NeighbourCount(edges, path[n - 1], q[n]);
    LinksCons(edges, q, n - 1);
  }

  /** PathsFrom emits `path` itself (when long enough) and then its branches. */
  lemma PathsFromUnfold(edges: seq<Edge>, path: Path, q: Path)
    requires NoSelfLoops(edges) && 1 <= |path|
    ensures multiset(PathsFrom(edges, path))[q] ==
            (if 2 <= |path| && q == path then 1 else 0) +
            multiset(Branches(edges, path, Neighbours(edges, path[|path| - 1])))[q]
  {
    var branches := Branches(edges, path, Neighbours(edges, path[|path| - 1]));
    if |path| == 1 {
      assert PathsFrom(edges, path) == [] + branches;
    } else {
      assert PathsFrom(edges, path) == [path] + branches;
    }
  }

  lemma LinksCons(edges: seq<Edge>, q: Path, i: nat)
    requires i + 1 < |q|
    ensures Links(edges, q[i..]) == multiset(edges)[MakeEdge(q[i], q[i + 1])] * Links(edges, q[i + 1..])
  {
    assert q[i..][1..] == q[i + 1..];
  }

  lemma NotExtended(path: Path, q: Path)
    requires !(|path| < |q| && Distinct(q) && path <= q) && q != path
    ensures !(2 <= |q| && Distinct(q) && path <= q)
  {
  }

  lemma {:induction false} BranchesCount(edges: seq<Edge>, path: Path, ns: seq<Vertex>, q: Path)
    requires NoSelfLoops(edges) && 1 <= |path| && Distinct(path)
    requires forall w :: w in ns ==> w in Endpoints(edges)
    ensures multiset(Branches(edges, path, ns))[q] ==
            if |path| < |q| && Distinct(q) && path <= q
            then multiset(ns)[q[|path|]] * Links(edges, q[|path|..]) else 0
    decreases Endpoints(edges) - Elems(path), 0, |ns|
  {
    if ns != [] {
      BranchesCount(edges, path, ns[1..], q);
      if ns[0] !in path {
        HeadCount(edges, path, ns[0], q);
      }
      BranchesUnfold(edges, path, ns, q);
      BranchesStep(edges, path, ns, q);
    }
  }

  /** The search through a new neighbour `v` emits `q` only when `q` continues `path` through `v`. */
  lemma {:induction false} HeadCount(edges: seq<Edge>, path: Path, v: Vertex, q: Path)
    requires NoSelfLoops(edges) && 1 <= |path| && Distinct(path)
    requires v in Endpoints(edges) && v !in path
    ensures multiset(PathsFrom(edges, path + [v]))[q] ==
            if |path| < |q| && Distinct(q) && path <= q && q[|path|] == v
            then Links(edges, q[|path|..]) else 0
    decreases Endpoints(edges) - Elems(path), 0, 0
  {
    var longer := path + [v];
    assert Distinct(longer) && Endpoints(edges) - Elems(longer) < Endpoints(edges) - Elems(path) by {
      Extend(edges, path, v);
    }
    var m := multiset(PathsFrom(edges, longer))[q];
    var l := if |path| <= |q| then Links(edges, q[|path|..]) else 0;
    assert m == if 2 <= |q| && Distinct(q) && longer <= q then l else 0 by {
      PathsFromCount(edges, longer, q);
      assert |longer| - 1 == |path|;
    }
    HeadShape(path, v, q, m, l);
  }

  /** A count stated for the extended path, restated for `path` and its next label. */
  lemma HeadShape(path: Path, v: Vertex, q: Path, m: nat, l: nat)
    requires 1 <= |path|
    requires m == if 2 <= |q| && Distinct(q) && path + [v] <= q then l else 0
    ensures m == if |path| < |q| && Distinct(q) && path <= q && q[|path|] == v then l else 0
  {
    ExtendPrefix(path, v, q);
  }

  /** Branches emits the search through the first neighbour, then the rest. */
  lemma BranchesUnfold(edges: seq<Edge>, path: Path, ns: seq<Vertex>, q: Path)
    requires NoSelfLoops(edges) && ns != []
    requires forall w :: w in ns ==> w in Endpoints(edges)
    ensures multiset(Branches(edges, path, ns))[q] ==
            (if ns[0] !in path then multiset(PathsFrom(edges, path + [ns[0]]))[q] else 0) +
            multiset(Branches(edges, path, ns[1..]))[q]
  {
    var v := ns[0];
    var rest := Branches(edges, path, ns[1..]);
    if v !in path {
      assert Branches(edges, path, ns) == PathsFrom(edges, path + [v]) + rest;
    } else {
      assert Branches(edges, path, ns) == [] + rest;
    }
  }

  /** The count for `ns` from the counts for its head and its tail. */
  lemma BranchesStep(edges: seq<Edge>, path: Path, ns: seq<Vertex>, q: Path)
    requires NoSelfLoops(edges) && 1 <= |path| && Distinct(path) && ns != []
    requires forall w :: w in ns ==> w in Endpoints(edges)
    requires multiset(Branches(edges, path, ns))[q] ==
             (if ns[0] !in path then multiset(PathsFrom(edges, path + [ns[0]]))[q] else 0) +
             multiset(Branches(edges, path, ns[1..]))[q]
    requires ns[0] !in path ==>
             multiset(PathsFrom(edges, path + [ns[0]]))[q] ==
             if |path| < |q| && Distinct(q) && path <= q && q[|path|] == ns[0]
             then Links(edges, q[|path|..]) else 0
    requires multiset(Branches(edges, path, ns[1..]))[q] ==
             if |path| < |q| && Distinct(q) && path <= q
             then multiset(ns[1..])[q[|path|]] * Links(edges, q[|path|..]) else 0
    ensures multiset(Branches(edges, path, ns))[q] ==
            if |path| < |q| && Distinct(q) && path <= q
            then multiset(ns)[q[|path|]] * Links(edges, q[|path|..]) else 0
  {
    var v := ns[0];
    var n := |path|;
    var strict := n < |q| && Distinct(q) && path <= q;
    var f := if v !in path then multiset(PathsFrom(edges, path + [v]))[q] else 0;
    if strict {
      if v in path {
        HeadBranch(path, v, q);
      }
      var w := q[n];
      MultisetCons(ns, w);
      CountSum(multiset(Branches(edges, path, ns))[q], f, multiset(Branches(edges, path, ns[1..]))[q],
               Links(edges, q[n..]), multiset(ns)[w], multiset(ns[1..])[w], w == v);
    }
  }

  lemma MultisetCons(ns: seq<Vertex>, w: Vertex)
    requires ns != []
    ensures multiset(ns)[w] == (if ns[0] == w then 1 else 0) + multiset(ns[1..])[w]
  {
    assert ns == [ns[0]] + ns[1..];
  }

  lemma CountSum(total: nat, f: nat, r: nat, l: nat, all: nat, tail: nat, hit: bool)
    requires total == f + r && f == (if hit then l else 0) && r == tail * l
    requires all == (if hit then 1 else 0) + tail
    ensures total == all * l
  {
    if hit {
      MulDistrib(1, tail, l);
    }
  }

  /** A distinct continuation of `path` never revisits a label already on it. */
  lemma HeadBranch(path: Path, v: Vertex, q: Path)
    requires v in path && |path| < |q| && Distinct(q) && path <= q
    ensures q[|path|] != v
  {
    var k :| 0 <= k < |path| && path[k] == v;
    assert q[k] == v;
  }

  /** With distinct start labels, every simple path from a start is emitted once per choice of parallel edges. */
  lemma {:induction false} AllPathsCount(edges: seq<Edge>, starts: seq<Vertex>, q: Path)
    requires NoSelfLoops(edges) && Distinct(starts)
    ensures multiset(AllPaths(edges, starts))[q] ==
            if 2 <= |q| && Distinct(q) && q[0] in starts then Links(edges, q) else 0
  {
    if starts != [] {
      LastNotInInit(starts);
      AllPathsCount(edges, starts[..|starts| - 1], q);
      StartCount(edges, starts[|starts| - 1], q);
      AllPathsStep(edges, starts, q);
    }
  }

  /** The search from one start emits exactly the simple paths that begin there. */
  lemma StartCount(edges: seq<Edge>, s: Vertex, q: Path)
    requires NoSelfLoops(edges)
    ensures multiset(PathsFrom(edges, [s]))[q] ==
            if 2 <= |q| && Distinct(q) && q[0] == s then Links(edges, q) else 0
  {
    PathsFromCount(edges, [s], q);
    assert 1 <= |q| ==> ([s] <= q <==> q[0] == s);
    assert q[0..] == q;
  }

  /** In a list of distinct labels the last one does not occur before it. */
  lemma LastNotInInit(starts: seq<Vertex>)
    requires Distinct(starts) && starts != []
    ensures starts[|starts| - 1] !in starts[..|starts| - 1]
  {
    var n := |starts| - 1;
    forall k | 0 <= k < n ensures starts[..n][k] != starts[n] {
      assert starts[..n][k] == starts[k];
    }
  }

  lemma InitOrLast(starts: seq<Vertex>, x: Vertex)
    requires starts != []
    ensures x in starts <==> x in starts[..|starts| - 1] || x == starts[|starts| - 1]
  {
    assert starts == starts[..|starts| - 1] + [starts[|starts| - 1]];
  }

  /** The count for `starts` from the counts for its last start and the ones before it. */
  lemma AllPathsStep(edges: seq<Edge>, starts: seq<Vertex>, q: Path)
    requires NoSelfLoops(edges) && starts != []
    requires starts[|starts| - 1] !in starts[..|starts| - 1]
    requires multiset(AllPaths(edges, starts[..|starts| - 1]))[q] ==
             if 2 <= |q| && Distinct(q) && q[0] in starts[..|starts| - 1] then Links(edges, q) else 0
    requires multiset(PathsFrom(edges, [starts[|starts| - 1]]))[q] ==
             if 2 <= |q| && Distinct(q) && q[0] == starts[|starts| - 1] then Links(edges, q) else 0
    ensures multiset(AllPaths(edges, starts))[q] ==
            if 2 <= |q| && Distinct(q) && q[0] in starts then Links(edges, q) else 0
  {
    var init := starts[..|starts| - 1];
    var s := starts[|starts| - 1];
    var long := 2 <= |q| && Distinct(q);
    assert AllPaths(edges, starts) == AllPaths(edges, init) + PathsFrom(edges, [s]);
    if long {
      InitOrLast(starts, q[0]);
    }
    DisjointSum(multiset(AllPaths(edges, starts))[q], multiset(AllPaths(edges, init))[q],
                multiset(PathsFrom(edges, [s]))[q], Links(edges, q),
                long && q[0] in init, long && q[0] == s, long && q[0] in starts);
  }

  lemma DisjointSum(total: nat, a: nat, b: nat, l: nat, inA: bool, inB: bool, inAll: bool)
    requires total == a + b && a == (if inA then l else 0) && b == (if inB then l else 0)
    requires inAll == (inA || inB) && !(inA && inB)
    ensures total == if inAll then l else 0
  {
  }

  /** Searching from every vertex of a well-formed graph emits `q` exactly SimplePathCount times. */
  lemma AllPathsFromEveryVertex(vertices: set<Vertex>, edges: seq<Edge>, starts: seq<Vertex>, q: Path)
    requires WellFormed(vertices, edges) && NoSelfLoops(edges)
    requires Distinct(starts) && Elems(starts) == vertices
    ensures multiset(AllPaths(edges, starts))[q] == SimplePathCount(edges, q)
  {
    AllPathsCount(edges, starts, q);
    if 2 <= |q| && q[0] !in starts {
      assert q[0] !in vertices;
      assert MakeEdge(q[0], q[1]) !in edges;
    }
  }

  /** Soundness: an emitted path of a well-formed graph starts at a vertex and visits only vertices. */
  lemma EmittedWithinVertices(vertices: set<Vertex>, edges: seq<Edge>, q: Path)
    requires WellFormed(vertices, edges) && SimplePathCount(edges, q) > 0
    ensures q[0] in vertices && Elems(q) <= vertices
  {
    EmittedIffSimplePath(edges, q);
    forall x | x in Elems(q) ensures x in vertices {
      var i :| 0 <= i < |q| && q[i] == x;
      if i < |q| - 1 {
        assert MakeEdge(q[i], q[i + 1]) in edges;
      } else {
        assert MakeEdge(q[i - 1], q[i]) in edges;
      }
    }
    assert q[0] in Elems(q);
  }

  /** A one-edge path is emitted once per parallel copy of its edge. */
  lemma EdgePathCount(edges: seq<Edge>, a: Vertex, b: Vertex)
    requires a != b
    ensures SimplePathCount(edges, [a, b]) == multiset(edges)[MakeEdge(a, b)]
  {
    assert [a, b][1..] == [b];
    assert Links(edges, [b]) == 1;
    assert Links(edges, [a, b]) == multiset(edges)[MakeEdge(a, b)];
    assert Distinct([a, b]);
  }

  /** A graph without edges has no paths. */
  lemma {:induction false} NoEdgesNoPaths(starts: seq<Vertex>)
    ensures AllPaths([], starts) == []
  {
    if starts != [] {
      NoEdgesNoPaths(starts[..|starts| - 1]);
      var s := starts[|starts| - 1];
      assert Neighbours([], s) == [];
      assert PathsFrom([], [s]) == [];
    }
  }

  // ---------------------------------------------------------------------
  // Properties of the emitted multiset.

  lemma {:induction false} LinksPositive(edges: seq<Edge>, q: Path)
    ensures Links(edges, q) > 0 <==>
            forall i :: 0 <= i < |q| - 1 ==> MakeEdge(q[i], q[i + 1]) in edges
  {
    if |q| >= 2 {
      LinksPositive(edges, q[1..]);
      var m := multiset(edges)[MakeEdge(q[0], q[1])];
      assert Links(edges, q) == m * Links(edges, q[1..]);
      if forall i :: 0 <= i < |q| - 1 ==> MakeEdge(q[i], q[i + 1]) in edges {
        assert forall i :: 0 <= i < |q[1..]| - 1 ==> MakeEdge(q[1..][i], q[1..][i + 1]) in edges by {
          forall i | 0 <= i < |q[1..]| - 1 ensures MakeEdge(q[1..][i], q[1..][i + 1]) in edges {
            assert MakeEdge(q[i + 1], q[i + 2]) in edges;
          }
        }
        assert MakeEdge(q[0], q[1]) in edges;
      }
      if Links(edges, q) > 0 {
        assert m > 0 && Links(edges, q[1..]) > 0;
        forall i | 0 <= i < |q| - 1 ensures MakeEdge(q[i], q[i + 1]) in edges {
          if i > 0 {
            assert MakeEdge(q[1..][i - 1], q[1..][i]) in edges;
          }
        }
      }
    }
  }

  /** Soundness and completeness: a sequence is emitted iff it is a simple path of the graph. */
  lemma EmittedIffSimplePath(edges: seq<Edge>, q: Path)
    ensures SimplePathCount(edges, q) > 0 <==> IsSimplePath(edges, q)
  {
    LinksPositive(edges, q);
  }

  /** Every prefix of length two or more of an emitted path is emitted too. */
  lemma PrefixEmitted(edges: seq<Edge>, q: Path, k: nat)
    requires SimplePathCount(edges, q) > 0 && 2 <= k <= |q|
    ensures SimplePathCount(edges, q[..k]) > 0
  {
    EmittedIffSimplePath(edges, q);
    EmittedIffSimplePath(edges, q[..k]);
    assert forall i :: 0 <= i < k ==> q[..k][i] == q[i];
  }

  function Reverse(q: Path): (r: Path)
    ensures |r| == |q|
  {
    if q == [] then [] else Reverse(q[1..]) + [q[0]]
  }

  lemma {:induction false} ReverseAt(q: Path, i: nat)
    requires i < |q|
    ensures Reverse(q)[i] == q[|q| - 1 - i]
  {
    if i < |q| - 1 {
      ReverseAt(q[1..], i);
    }
  }

  lemma {:induction false} LinksSnoc(edges: seq<Edge>, q: Path, x: Vertex)
    requires 1 <= |q|
    ensures Links(edges, q + [x]) == Links(edges, q) * multiset(edges)[MakeEdge(q[|q| - 1], x)]
  {
    var c := multiset(edges)[MakeEdge(q[|q| - 1], x)];
    var qx := q + [x];
    assert qx[1..] == q[1..] + [x];
    if |q| == 1 {
      assert Links(edges, qx) == c * Links(edges, [x]);
    } else {
      LinksSnoc(edges, q[1..], x);
      var a := multiset(edges)[MakeEdge(q[0], q[1])];
      var b := Links(edges, q[1..]);
      assert Links(edges, q[1..] + [x]) == b * c;
      assert Links(edges, qx) == a * (b * c);
      assert Links(edges, q) == a * b;
      MulAssoc(a, b, c);
    }
  }

  lemma MulAssoc(a: nat, b: nat, c: nat)
    ensures a * (b * c) == (a * b) * c
  {
  }

  lemma MulDistrib(a: nat, b: nat, c: nat)
    ensures (a + b) * c == a * c + b * c
  {
  }

  lemma {:induction false} ReverseLinks(edges: seq<Edge>, q: Path)
    ensures Links(edges, Reverse(q)) == Links(edges, q)
  {
    if |q| >= 2 {
      var rest := Reverse(q[1..]);
      ReverseLinks(edges, q[1..]);
      ReverseAt(q[1..], |q| - 2);
      LinksSnoc(edges, rest, q[0]);
      assert rest[|rest| - 1] == q[1];
      assert MakeEdge(q[1], q[0]) == MakeEdge(q[0], q[1]);
    }
  }

  /** A path and its reverse are emitted equally often, since every vertex is a start. */
  lemma ReverseEmittedEqually(edges: seq<Edge>, q: Path)
    ensures SimplePathCount(edges, Reverse(q)) == SimplePathCount(edges, q)
  {
    var r := Reverse(q);
    forall i | 0 <= i < |q| ensures r[i] == q[|q| - 1 - i] {
      ReverseAt(q, i);
    }
    if Distinct(q) {
      assert Distinct(r);
    }
    if Distinct(r) {
      forall i, j | 0 <= i < j < |q| ensures q[i] != q[j] {
        assert q[i] == r[|q| - 1 - i] && q[j] == r[|q| - 1 - j];
      }
    }
    ReverseLinks(edges, q);
  }
}
