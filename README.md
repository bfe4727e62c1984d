# Edge bookkeeping of the edge-collapse simplifier, and the face-cycle index

This project models two pieces of sequential logic from CGAL and proves
properties about them in Dafny.

The first piece is the bookkeeping layer of the edge-collapse surface-mesh
simplifier (module `SurfaceMeshSimplification` in `edge_collapse.dfy`). It
covers:

- halfedge ids and edge ids (the edge id is the halfedge id divided by 2; the
  halfedge with the even id is the primary one);
- the `Compare_cost` order of the priority queue, in which an absent cost
  comes before every defined cost;
- the per-edge records (`Edge_data`: an optional cost and a queue handle);
- the border and constraint predicates;
- the four queue wrappers `insert_in_PQ`, `update_in_PQ`, `remove_from_PQ` and
  `pop_from_PQ`, which keep every record's handle in step with queue
  membership.

The simplifier's state is the class `SurfaceMeshSimplification.EdgeCollapse`. It holds the
record array, which is indexed by edge id and updated in place. It also holds
the modifiable priority queue. The queue is modelled by its contents: a map
from each queued primary halfedge to the cost it was keyed by at its last push
or update. The heap itself compares the records' current costs whenever it
sifts, so those keys are what it sees only while every queued key equals the
record's current cost; `InSync()` states this. A caller that changes the cost
of a queued edge must follow with `update_in_PQ` before the next pop, so
`pop_from_PQ` requires `InSync()`. `Valid()` is the class invariant: a record
says "in the queue" exactly when the queue contains its edge, and only primary
halfedges are ever queued. Each wrapper preserves `Valid()`, states the whole
new state (queue and record array), and preserves `InSync()`.

The second piece is `edge_index` from the shortest-path package
(`FaceCycle.EdgeIndex` in `face_cycle.dfy`). It walks `next` from the
designated halfedge of a face until it reaches the target halfedge, counting
the steps. It is modelled as a loop over a face-list graph. The proof shows
three things:

- the loop terminates because the target lies on that face's cycle;
- the count is the least number of steps that reaches the target;
- the count is below both the face-cycle length and the number of halfedges.

The same module has `triangle_from_halfedge`, reduced to its choice of
vertices.

Modelling choices:

- Halfedge descriptors are indices into the mesh's sequences. The halfedge
  index map is the sequence `Mesh.halfedgeId`. A well-formed mesh
  (`ValidMesh`) numbers its halfedges 0 .. n - 1, and the two halves of an
  edge share the value id / 2. From this the model proves that exactly one
  half of each edge is primary.
- Costs are `Option<int>`. The real cost type is an optional floating-point
  number; only its order matters here.
- A queue handle is `Option<nat>`, and `None` is the null handle. `push`
  hands back `Some(edge id)`, `update` hands back the handle it was given, and
  `erase` hands back the null handle.
- `insert_in_PQ`, `update_in_PQ` and `remove_from_PQ` take the halfedge and its
  record separately. Every caller passes `get_data(edge)` as the record, so
  the methods take only the halfedge and work on its record in the array.
- `get_data` checks that its halfedge is primary with a debug assertion.
  The queue wrappers check theirs with assertions that only test builds
  enable. All of these checks are the callers' obligations, so all of them
  are `requires` clauses here.
- `is_constrained` on a vertex is declared in `Edge_collapse.hpp`, but its body
  is in `Edge_collapse_impl.h`, which is not part of this model. It is
  therefore a parameter (`isConstrainedVertex`) of
  `IsEdgeAdjacentToAConstrainedEdge`.
- The overload of `is_edge_adjacent_to_a_constrained_edge` for
  `No_constrained_edge_map` takes a halfedge, while the general overload takes
  a profile. The model follows what the two overloads return: with no
  constraint map the answer is always false.

## Model

| member | source | states |
|---|---|---|
| SurfaceMeshSimplification.EdgeIdOf | Surface_mesh_simplification/include/CGAL/Surface_mesh_simplification/Detail/Edge_collapse.hpp:201 | the edge id k of a halfedge id satisfies 2k <= id < 2k + 2 |
| SurfaceMeshSimplification.SiblingIdsShareEdge | Surface_mesh_simplification/include/CGAL/Surface_mesh_simplification/Detail/Edge_collapse.hpp:200-203 | halfedge ids 2k and 2k + 1 both have edge id k; 2k is primary and 2k + 1 is not |
| SurfaceMeshSimplification.PrimaryIdIsTwiceEdgeId | Surface_mesh_simplification/include/CGAL/Surface_mesh_simplification/Detail/Edge_collapse.hpp:201-203 | an id is primary iff it equals twice its edge id, and non-primary iff it equals twice its edge id plus one |
| SurfaceMeshSimplification.GetHalfedgeId | Surface_mesh_simplification/include/CGAL/Surface_mesh_simplification/Detail/Edge_collapse.hpp:200 | a halfedge's id is below the number of halfedges |
| SurfaceMeshSimplification.IsPrimaryEdge | Surface_mesh_simplification/include/CGAL/Surface_mesh_simplification/Detail/Edge_collapse.hpp:203 | a halfedge is primary iff its id is twice its edge id (the id is even), and not primary iff its id is twice its edge id plus one |
| SurfaceMeshSimplification.GetEdgeId | Surface_mesh_simplification/include/CGAL/Surface_mesh_simplification/Detail/Edge_collapse.hpp:201 | the edge id is the halfedge id divided by 2 and is a valid index into the per-edge record array, which has half as many entries as there are halfedges |
| SurfaceMeshSimplification.OppositeHalfedges | Surface_mesh_simplification/include/CGAL/Surface_mesh_simplification/Detail/Edge_collapse.hpp:201-207 | a halfedge and its opposite have the same edge id, and exactly one of them is primary |
| SurfaceMeshSimplification.PrimaryEdgeIdsDistinct | Surface_mesh_simplification/include/CGAL/Surface_mesh_simplification/Detail/Edge_collapse.hpp:233-236 | two primary halfedges with the same edge id are the same halfedge, so each record belongs to exactly one primary halfedge |
| SurfaceMeshSimplification.PrimaryEdge | Surface_mesh_simplification/include/CGAL/Surface_mesh_simplification/Detail/Edge_collapse.hpp:205-208 | the result is primary and has the argument's edge id; it is the argument itself iff the argument is primary, and otherwise it is the argument's opposite |
| SurfaceMeshSimplification.PrimaryEdgeOfEdge | Surface_mesh_simplification/include/CGAL/Surface_mesh_simplification/Detail/Edge_collapse.hpp:205-208 | a halfedge and its opposite have the same primary halfedge, and primary_edge is idempotent |
| SurfaceMeshSimplification.CompareCost | Surface_mesh_simplification/include/CGAL/Surface_mesh_simplification/Detail/Edge_collapse.hpp:108-114 | an absent cost comes before every defined cost, nothing comes before an absent cost, and defined costs are ordered by value |
| SurfaceMeshSimplification.CompareCostIsStrictTotalOrder | Surface_mesh_simplification/include/CGAL/Surface_mesh_simplification/Detail/Edge_collapse.hpp:108-114 | the cost order is irreflexive, asymmetric, transitive and total on distinct costs, as a heap's comparison must be |
| SurfaceMeshSimplification.LeastCostExists | Surface_mesh_simplification/include/CGAL/Surface_mesh_simplification/Detail/Edge_collapse.hpp:320-322 | every non-empty queue has an entry that no other entry comes before, so extract_top always has a top to return |
| SurfaceMeshSimplification.UndefinedCostsComeFirst | Surface_mesh_simplification/include/CGAL/Surface_mesh_simplification/Detail/Edge_collapse.hpp:110-112 | if any queued entry has an undefined cost, then the top entry has an undefined cost |
| SurfaceMeshSimplification.EdgeData.IsInPQ | Surface_mesh_simplification/include/CGAL/Surface_mesh_simplification/Detail/Edge_collapse.hpp:153 | a record is in the queue iff its handle is not the null handle |
| SurfaceMeshSimplification.DefaultEdgeData | Surface_mesh_simplification/include/CGAL/Surface_mesh_simplification/Detail/Edge_collapse.hpp:146 | a default-constructed record has no cost and the null handle, so it is not in the queue |
| SurfaceMeshSimplification.EdgeData.SetPQHandle | Surface_mesh_simplification/include/CGAL/Surface_mesh_simplification/Detail/Edge_collapse.hpp:151-155 | storing a handle keeps the cost; afterwards the record is in the queue iff the handle is not null |
| SurfaceMeshSimplification.EdgeData.ResetPQHandle | Surface_mesh_simplification/include/CGAL/Surface_mesh_simplification/Detail/Edge_collapse.hpp:153-157 | after reset_PQ_handle the record is not in the queue, and its cost is kept |
| SurfaceMeshSimplification.IsEdgeABorder | Surface_mesh_simplification/include/CGAL/Surface_mesh_simplification/Detail/Edge_collapse.hpp:218-221 | true iff the halfedge or its opposite is a border halfedge |
| SurfaceMeshSimplification.EdgeBorderIsPerEdge | Surface_mesh_simplification/include/CGAL/Surface_mesh_simplification/Detail/Edge_collapse.hpp:218-221 | the two halfedges of an edge, and so its primary halfedge, agree on whether the edge is a border |
| SurfaceMeshSimplification.IsConstrained | Surface_mesh_simplification/include/CGAL/Surface_mesh_simplification/Detail/Edge_collapse.hpp:212 | with No_constrained_edge_map, no halfedge is constrained; otherwise the answer is the map's flag for the halfedge, which the map must have |
| SurfaceMeshSimplification.IsBorderOrConstrained | Surface_mesh_simplification/include/CGAL/Surface_mesh_simplification/Detail/Edge_collapse.hpp:215-216 | true iff the border map or the constraint map flags the halfedge |
| SurfaceMeshSimplification.BorderOrConstrainedWithoutConstraints | Surface_mesh_simplification/include/CGAL/Surface_mesh_simplification/Detail/Edge_collapse.hpp:212-216 | with no constraint map, border-or-constrained is exactly the border map's flag |
| SurfaceMeshSimplification.IsEdgeAdjacentToAConstrainedEdge | Surface_mesh_simplification/include/CGAL/Surface_mesh_simplification/Detail/Edge_collapse.hpp:359-373 | with a constraint map, true iff both endpoints are constrained; with No_constrained_edge_map, always false |
| SurfaceMeshSimplification.AdjacentToConstrainedIsUndirected | Surface_mesh_simplification/include/CGAL/Surface_mesh_simplification/Detail/Edge_collapse.hpp:361-365 | swapping the two endpoints of the profile does not change the answer |
| SurfaceMeshSimplification.EdgeCollapse.constructor | Surface_mesh_simplification/include/CGAL/Surface_mesh_simplification/Detail/Edge_collapse.hpp:142-165 | the record array has one default Edge_data (no cost, null handle) per edge and the queue is empty; the invariant holds |
| SurfaceMeshSimplification.EdgeCollapse.GetData | Surface_mesh_simplification/include/CGAL/Surface_mesh_simplification/Detail/Edge_collapse.hpp:233-237 | requires a primary halfedge; the record it returns says it is in the queue iff the queue contains that halfedge |
| SurfaceMeshSimplification.EdgeCollapse.PQContains | Surface_mesh_simplification/include/CGAL/Surface_mesh_simplification/Detail/Edge_collapse.hpp:284-318 | under the invariant, only a primary halfedge can be contained, and a primary halfedge is contained iff its record says it is in the queue |
| SurfaceMeshSimplification.EdgeCollapse.SetCost | Surface_mesh_simplification/include/CGAL/Surface_mesh_simplification/Detail/Edge_collapse.hpp:148-149 | only the cost of that one record changes; the invariant holds, and the queue keys stay in step with the records when the edge is not queued |
| SurfaceMeshSimplification.EdgeCollapse.InsertInPQ | Surface_mesh_simplification/include/CGAL/Surface_mesh_simplification/Detail/Edge_collapse.hpp:284-294 | requires a primary edge that neither its record nor the queue reports as queued; afterwards both report it; the queue gains exactly that edge, keyed by its cost; only that record's handle changes |
| SurfaceMeshSimplification.EdgeCollapse.UpdateInPQ | Surface_mesh_simplification/include/CGAL/Surface_mesh_simplification/Detail/Edge_collapse.hpp:296-306 | requires membership and keeps it; the entry is re-keyed by the record's current cost, and the records are unchanged |
| SurfaceMeshSimplification.EdgeCollapse.RemoveFromPQ | Surface_mesh_simplification/include/CGAL/Surface_mesh_simplification/Detail/Edge_collapse.hpp:308-318 | requires membership; afterwards neither the record nor the queue reports the edge; the queue loses exactly that edge, and only that record's handle is reset |
| SurfaceMeshSimplification.EdgeCollapse.PopFromPQ | Surface_mesh_simplification/include/CGAL/Surface_mesh_simplification/Detail/Edge_collapse.hpp:320-334 | requires the queue keys to be in step with the records' costs; on an empty queue: returns None and changes nothing; otherwise: the returned edge was queued, is primary and no queued entry's current cost comes before its cost (undefined costs first); it leaves the queue and its record's handle is reset; the keys stay in step |
| FaceCycle.NextPow | Polyhedron_shortest_path/include/CGAL/Polyhedron_shortest_path/internal/misc_functions.h:64-67 | following next any number of times from a halfedge stays among the graph's halfedges |
| FaceCycle.NextPowAdd | Polyhedron_shortest_path/include/CGAL/Polyhedron_shortest_path/internal/misc_functions.h:64-67 | walking a + b steps is the same as walking a steps and then b more |
| FaceCycle.FaceStart | Polyhedron_shortest_path/include/CGAL/Polyhedron_shortest_path/internal/misc_functions.h:57-59 | halfedge(face(he)) is a halfedge of the graph |
| FaceCycle.EdgeIndex | Polyhedron_shortest_path/include/CGAL/Polyhedron_shortest_path/internal/misc_functions.h:50-71 | requires he on its face's cycle; next^count(halfedge(face(he))) == he; no smaller count reaches he; count is 0 when he is the face's halfedge; count is below every face-cycle length and below the number of halfedges; the graph is only read |
| FaceCycle.LeastStepsUnique | Polyhedron_shortest_path/include/CGAL/Polyhedron_shortest_path/internal/misc_functions.h:62-70 | at most one count is the least number of steps to he, so the result is determined by the graph |
| FaceCycle.LeastStepsBelowCycleLength | Polyhedron_shortest_path/include/CGAL/Polyhedron_shortest_path/internal/misc_functions.h:57-68 | if p > 0 steps lead from the start back to the start, then the least count is below p |
| FaceCycle.LeastStepsWalkIsInjective | Polyhedron_shortest_path/include/CGAL/Polyhedron_shortest_path/internal/misc_functions.h:64-68 | the loop visits no halfedge twice before it reaches he |
| FaceCycle.LeastStepsBelowHalfedgeCount | Polyhedron_shortest_path/include/CGAL/Polyhedron_shortest_path/internal/misc_functions.h:62-70 | the least count is below the number of halfedges |
| FaceCycle.TriangleFromHalfedge | Polyhedron_shortest_path/include/CGAL/Polyhedron_shortest_path/internal/misc_functions.h:32-41 | the triangle's vertices are source(e), target(e) and target(next(e)), in that order |
| FaceCycle.TriangleRotates | Polyhedron_shortest_path/include/CGAL/Polyhedron_shortest_path/internal/misc_functions.h:37-40 | on a triangular face whose consecutive halfedges meet, starting from next(e) rotates the three vertices by one place |

## Left out

- `Collect`, `Loop`, `Is_collapse_topologically_valid`, `Is_tetrahedron`,
  `Is_open_triangle`, `Is_collapse_geometrically_valid`, `Collapse`,
  `Update_neighbors` and the out-of-class members `is_constrained(vertex)`,
  `is_border(vertex)`, `is_border_or_constrained(vertex)`, `find_connection` and
  `find_exterior_link_triangle_3rd_vertex` are only declared in
  `Edge_collapse.hpp`. Their bodies are in `Edge_collapse_impl.h`, which is not
  part of this model. The driver loop and the neighbour updates are therefore
  not modelled.
- The internals of `Modifiable_priority_queue`, which is not part of this
  model. The queue is modelled by its contents and their keys. The model does
  not represent the heap layout, its logarithmic cost, or how it breaks ties
  between equal keys.
- SurfaceMeshSimplification.EdgeCollapse.PopFromPQ: it promises only that no entry's cost
  comes before the top's, and it picks one such entry when several tie. The
  heap picks a particular one. It also requires the keys to be in step with
  the records; a heap popped after an unreported cost change may return an
  entry that is no longer least, which the model does not describe.
- The mesh surgery `CGAL::Euler::collapse_edge` and the
  backward-compatibility wrappers around it. These are calls into the mesh
  library.
- The geometry: points, vectors, the field type, `mcMaxDihedralAngleCos2`,
  `are_shared_triangles_valid`, `get_point` and the cost and placement
  policies (`get_cost`, `get_placement`). These are kernel and floating-point
  arithmetic.
- `create_profile`, which builds an `Edge_profile` (a type not part of this
  model). `Profile` keeps only the two endpoints that
  `is_edge_adjacent_to_a_constrained_edge` reads.
- `get_vertices` (the source and target pair) and the `Compare_id` and
  `edge_id` functors. They only forward `get_halfedge_id` and
  `get_edge_id`.
- The debug string builders `vertex_to_string` and `edge_to_string`.
- Integer widths: `size_type` and `size_t` are unbounded naturals here. The
  model proves that `edge_index`'s count stays below the number of halfedges,
  so it cannot overflow.
- FaceCycle.TriangleFromHalfedge: it returns the three vertices, not their
  points. The lookup through the vertex point map, and the overload that uses
  the graph's own point map, are left out.
- `internal_sqrt` and `select_sqrt`, which are floating-point square roots.
- The two Qt demo headers under `GraphicsView/demo/GraphicsView/`. They only
  forward mouse events and signals to a triangulation.
