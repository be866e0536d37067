# A verified model of the `Graph` class of graph.py

graph.py defines an undirected multigraph. Vertices are string labels kept in a
set. Edges are sets of one or two labels kept in a list, in insertion order:
`add_edge(v, v)` stores the one-label set `{v}`. Parallel edges are allowed,
so the same pair may appear several times. The class
offers membership tests, mutators that report success with a boolean, a
builder, adjacency queries, and `get_paths`. `get_paths` runs a depth-first
search from every vertex and emits every simple path of two or more
vertices.

The model has three modules and a scenario module:

- `EdgeLists` (edges.dfy) holds the pure functions over the edge list that
  specify each operation:
  - `Without` is the cascade that `remove_vertex` runs.
  - `RemoveFirst` is `list.remove`.
  - `Admitted` gives the edges `build` keeps.
  - `Neighbours` is `_get_all_adjavent_verticies`.

  An edge is `set<string>`; `{v, v}` collapses to `{v}` exactly as in Python.
- `PathSearch` (paths.dfy) models the inner `get_paths_helper` as the
  mutually recursive functions `PathsFrom` (the helper) and `Branches` (its
  `for` loop). It then proves how often each sequence is emitted: a simple
  path `q` appears once per choice of parallel edge along it, which is
  `SimplePathCount`, and any other sequence never appears.
- `GraphModel` (graph.dfy) is the class itself:
  - `vertices: set<string>` and `edges: seq<set<string>>` are updated in place.
  - `RemoveVertex` pops edges inside the same `while` loop as the source.
  - `Build` and `GetPaths` iterate as the source does.
  - `Valid()` is the invariant that every mutator keeps: each edge holds one
    or two labels, and every label is a vertex.
- `GraphScenarios` (scenarios.dfy) rebuilds the two graphs of
  test_graphs.py. From the contracts alone, it proves what `get_paths` and
  the adjacency of `a` (both printed by `test_graph`) give on each of them,
  and what the mutators give on the second.

## Model

| member | source | states |
|---|---|---|
| GraphModel.Graph.constructor | graph.py:9-11 | a new graph has no vertices and no edges, and satisfies the invariant |
| GraphModel.Graph.Build | graph.py:16-26 | the result is fresh and valid. Its vertex set is exactly the given set. Its edge list is the given edges whose labels are both vertices, in the given order, parallel copies kept. Every given edge must hold two labels |
| GraphModel.Graph.ContainsVertex | graph.py:28-34 | true exactly when the label is a vertex |
| GraphModel.Graph.AddVertex | graph.py:36-45 | succeeds exactly when the label was absent. Afterwards the label is a vertex, the vertex set grows by that label only, and the edges are unchanged |
| GraphModel.Graph.RemoveVertex | graph.py:47-60 | succeeds exactly when the label was a vertex. Afterwards it is gone, the other vertices stay, and the edge list is `Without(old edges, v)`. On failure nothing changes |
| GraphModel.Graph.ContainsEdge | graph.py:62-69 | true exactly when the pair occurs in the edge list at least once, whichever order the two labels are given in |
| GraphModel.Graph.AddEdge | graph.py:71-81 | succeeds exactly when both labels are vertices. It then appends the pair even if it is already present, and the edge is then contained. Otherwise nothing changes |
| GraphModel.Graph.RemoveEdge | graph.py:83-94 | succeeds exactly when the pair occurs. It then deletes its first occurrence only, so the multiset of edges loses one copy of the pair. Otherwise nothing changes |
| GraphModel.Graph.GetAdjacentVertices | graph.py:96-102 | `w` is adjacent to `v` exactly when `w != v` and some edge joins them |
| GraphModel.Graph.GetAllAdjacentVertices | graph.py:104-110 | the list never holds `v`. Every other label occurs in it once per parallel edge joining it to `v` |
| GraphModel.Graph.GetPaths | graph.py:112-133 | each sequence occurs in the result exactly `SimplePathCount` times: once per choice of parallel edge when it is a simple path of two or more labels, never otherwise |
| EdgeLists.NoSelfLoopAtVertex | graph.py:110 | in a valid graph without the self-loop `{v}`, every edge at `v` has a second endpoint for `pop` to return |
| EdgeLists.MakeEdge | graph.py:90 | the pair holds both labels and does not depend on their order |
| EdgeLists.Without | graph.py:54-59 | the cascade keeps only edges of the original list, and none of them touches `v` |
| EdgeLists.WithoutDropIncident | graph.py:56-57 | popping an edge that touches `v` does not change what the cascade keeps |
| EdgeLists.WithoutUntouched | graph.py:55-59 | once no edge touches `v`, the loop's list is the cascade's result |
| EdgeLists.WithoutCount | graph.py:53-59 | every edge touching `v` is dropped, and every other edge keeps its multiplicity |
| EdgeLists.WithoutWellFormed | graph.py:47-60 | removing a vertex with its edges keeps the graph invariant |
| EdgeLists.RemoveFirst | graph.py:93 | a present edge shortens the list by one, and an absent edge leaves it as it is |
| EdgeLists.FirstIndex | graph.py:93 | the index holds the edge, and no earlier index does |
| EdgeLists.RemoveFirstAt | graph.py:93 | removing the first occurrence equals cutting the list at the first index of the edge |
| EdgeLists.RemoveFirstCount | graph.py:91-93 | the edge's multiplicity drops by one (or stays 0), and every other edge keeps its multiplicity |
| EdgeLists.RemoveFirstWellFormed | graph.py:83-94 | removing an edge keeps the graph invariant |
| EdgeLists.Admitted | graph.py:22-25 | the edges `build` keeps: the result is no longer than the given list, and each kept edge is a given edge whose labels are all vertices |
| EdgeLists.AdmittedNext | graph.py:24-25 | one more given edge is appended exactly when both its labels are vertices |
| EdgeLists.AdmittedCount | graph.py:22-25 | an edge inside the vertex set keeps its given multiplicity, and any other edge is dropped |
| EdgeLists.AdmittedAll | graph.py:24-25 | when every given edge lies inside the vertex set, all of them are kept in order |
| EdgeLists.Unpack | graph.py:25 | `*edge` on a two-label set yields two distinct labels whose pair is that set |
| EdgeLists.Other | graph.py:110 | `(edge - {v}).pop()` on a two-label edge at `v` yields its other label |
| EdgeLists.Neighbours | graph.py:110 | every listed label differs from `v`, is joined to `v` by an edge and is an endpoint of the graph |
| EdgeLists.NeighbourCount | graph.py:110 | a label other than `v` is listed once per parallel edge joining it to `v` |
| EdgeLists.NeighbourMembers | graph.py:102 | a label is listed exactly when it differs from `v` and an edge joins the two |
| PathSearch.PathsFrom | graph.py:117-129 | every emitted sequence extends the current path and has at least two labels |
| PathSearch.Branches | graph.py:126-128 | every emitted sequence strictly extends the current path |
| PathSearch.Extend | graph.py:127-128 | appending an unvisited label keeps the path distinct and shrinks the set of labels left to visit, so the search ends |
| PathSearch.PathsFromCount | graph.py:117-129 | from a distinct path, `q` is emitted once per parallel-edge choice along the part of `q` that continues the path when `q` is a distinct extension of it, else never |
| PathSearch.BranchesCount | graph.py:126-128 | the loop over neighbours `ns` emits a strict distinct extension `q` once per occurrence of `q`'s next label in `ns`, times the choices along the rest of `q` |
| PathSearch.HeadCount | graph.py:127-128 | the search through a new neighbour emits exactly the continuations of the path through that neighbour |
| PathSearch.AllPaths | graph.py:130-133 | the outer loop's concatenation of the searches from each start, in order: every emitted sequence has at least two labels and begins at one of the starts |
| PathSearch.AllPathsCount | graph.py:130-133 | from distinct starts, `q` is emitted once per parallel-edge choice when it is a simple path beginning at a start, else never |
| PathSearch.StartCount | graph.py:132 | the search from one start emits exactly the simple paths that begin there |
| PathSearch.AllPathsStep | graph.py:131-132 | appending the search from one more start adds its count to the count so far |
| PathSearch.AllPathsFromEveryVertex | graph.py:130-133 | searching from every vertex of a valid graph emits `q` exactly `SimplePathCount` times |
| PathSearch.EmittedWithinVertices | graph.py:112-133 | in a valid graph, every emitted path begins at a vertex and visits only vertices |
| PathSearch.EdgePathCount | graph.py:124 | a two-label path is emitted once per parallel copy of its edge |
| PathSearch.NoEdgesNoPaths | graph.py:130-133 | a graph without edges yields no paths, from any starts |
| PathSearch.LinksPositive | graph.py:126-128 | the number of edge choices along `q` is positive exactly when every consecutive pair of `q` is an edge |
| PathSearch.EmittedIffSimplePath | graph.py:112-133 | a sequence is emitted at least once exactly when it is a simple path of two or more labels |
| PathSearch.PrefixEmitted | graph.py:124-128 | every prefix of two or more labels of an emitted path is emitted as well |
| PathSearch.ReverseLinks | graph.py:110 | reversing a sequence does not change its number of edge choices, because edges are unordered |
| PathSearch.ReverseEmittedEqually | graph.py:130-133 | a path and its reverse are emitted equally often |
| GraphScenarios.BuildFour | test_graphs.py:16-25 | the first test graph has exactly the vertices a, b, c and d, and keeps all five of its edges, in order |
| GraphScenarios.FourEdgesAtA | test_graphs.py:16-25 | in the first test graph, whose adjacency of `a` `test_graph` prints, the labels joined to `a` are exactly b, c and d, and `{a}` is not an edge |
| GraphScenarios.BuildParallel | test_graphs.py:26-32 | the second test graph keeps both parallel copies of `{a, b}` |

## Left out

- `__str__` (graph.py:13-14) formats the graph for printing. It is output only and is not modelled.
- draw_graph.py opens a 1300×750 pygame window whose `update` only fills it black. It draws nothing of the graph, and it is not part of this model. Its `DisplayGraph` subclass repeats `build` over the same `add_vertex` and `add_edge`.
- interactive.py defines a helper `draw_new_graph` (alias `d`) for use under `python -i`, which builds and shows a `DisplayGraph`, and prints usage help. It is display-only and is not part of this model.
- None of graph.py, draw_graph.py, interactive.py or test_graphs.py defines an operation to rename a vertex, or a controller that drives the class from user input, so neither appears here. Any such code elsewhere is not part of this model.
- `test_graph` and `main` of test_graphs.py print their results. The scenario methods prove facts about the same two graphs instead of printing them.
- GraphModel.Graph.GetAllAdjacentVertices: requires that `{v}` is not an edge. On a self-loop, `(edge - {vertex}).pop()` pops an empty set and raises `KeyError`, and the model does not describe that exception. `add_edge(v, v)` is accepted, so the crash is reachable.
- GraphModel.Graph.GetAdjacentVertices: carries the same self-loop precondition for the same reason.
- GraphModel.Graph.GetPaths: requires a graph with no self-loops at all, because the search asks for the neighbours of every vertex it reaches. It fixes the multiset of emitted paths, not their order. The order comes from Python's set iteration over `self.vertices` and is not determined by the code.
- GraphModel.Graph.Build: requires every given edge to hold exactly two labels. `add_edge(*edge)` raises `TypeError` for a one-label or three-label set, and the model does not describe that exception. The order in which `Build` adds the vertices is left open, because it is set iteration and only the final vertex set is observable.
- Python's `map` object returned by `_get_all_adjavent_verticies` is lazy. The model returns the list it would produce, which is how both callers consume it.
