# MeshFix topology repair, modelled in Dafny

MeshFix (part of OrthoMeshTools) repairs a triangle mesh before export. This
project models the part of it that decides, purely from the connectivity of
a triangle soup, which triangles to discard. The soup is a list of
vertex-index triples plus a vertex count; the passes never read vertex
coordinates, so the model keeps only the count.

- **Edge helpers** (`MeshEdges`): `TTriangle::GetEdge` and the four pair
  functors. `TPairHash`/`TPairPred` key a map by ordered pairs.
  `TPairHashUnordered`/`TPairPredUnordered` key it by unordered pairs. The
  unordered map is modelled as a map keyed by the canonical pair `UKey(p)`
  (larger index first), which is exactly the pair the unordered hash feeds to
  boost::hash.
- **Rounding-order filter** (`RoundingOrder.FixRoundingOrder`): drops every
  face one of whose directed sides occurs more than once over all sides of
  all faces.
- **Non-manifold pass** (`NonManifold.RemoveNonManifold`):
  - build the undirected edge index (`EdgeIndex.BuildEdgeIndex`);
  - condemn the faces of edges with more than two face sides and collect
    their endpoints;
  - build each vertex's star from the faces still live;
  - condemn the whole star of each such endpoint;
  - cluster every vertex's star under "shares an unordered edge"
    (`StarClustering.CountClusters`) and condemn the star when it falls
    apart into more than one cluster;
  - copy out the survivors in order.

  The flags live in an `array<bool>` that the steps clear in place, and the
  stars in an `array<seq<nat>>`. Each step is a method proved against a
  specification function. Together the steps yield `PassResult(faces)`:
  the faces that `Survives` keeps, in their original order.
- **Retry loop** (`FixedPoint.RepairToFixedPoint`): the do/while of
  FixMesh, FixMeshWithLabel and FixSelfIntersection. `RepairTopology` adds
  the rounding filter that FixMesh and FixMeshWithLabel run first.
- **Input checks** (`MeshInput`):
  - the face-index check of LoadVFAssimp;
  - the label normalisation and face-label lifting of LoadLabels, on a
    `LabeledMesh` class whose label fields the load overwrites.

In the source the per-vertex clustering loop runs under an OpenMP
`parallel for`. The model runs it sequentially in vertex order. It then
proves (`CondemnOrderIndependent`) that any other order condemns the same
faces. Flags only go from live to condemned, and clustering reads triangle
data only, never flags.

The loop counter in the retry loop is tested and then incremented
(`cnt++ > max_retry`), and the test comes after the pass. So the loop runs
at least one pass and at most `max(1, max_retry + 2)` passes. It does not
stop after `max_retry + 1` passes, as the help text at
MeshFix/MeshFix.cpp:524 ("the max retry time", default 10) suggests: with the
default of 10 the loop may run 12 passes. The model follows the code
(`PassCap`).

## Model

| member | source | states |
|---|---|---|
| MeshEdges.Corner | Polyhedron.h:23-34 | A `TTriangle` (the datatype `Triangle`) holds three vertex indices in winding order; `operator[]` with `k` below 3 returns one of the triangle's own vertices. |
| MeshEdges.CornersAreIndices | Polyhedron.h:23-34 | Reading corners 0, 1, 2 gives the index array in order, and a vertex belongs to the triangle iff some corner equals it. |
| MeshEdges.GetEdge | Polyhedron.h:35-50 | Side `i` runs from corner `i` to corner `(i+1) mod 3`. Any index past 2 yields `(0, 0)`. |
| MeshEdges.SidesFormCycle | Polyhedron.h:35-50 | The three sides chain head to tail and close: i0 -> i1 -> i2 -> i0. |
| MeshEdges.UKey | Polyhedron.h:79-89 | The pair the unordered hash hashes has the larger index first and is unordered-equal to its argument. |
| MeshEdges.UnorderedPredSameEndpoints | Polyhedron.h:93-101 | TPairPredUnordered (`PairPredUnordered`) holds iff the two pairs have the same endpoints counted with multiplicity, whichever order they are stored in. |
| MeshEdges.PairPred | Polyhedron.h:114-121 | TPairPred holds iff the two pairs are equal as ordered pairs. |
| MeshEdges.PairHashUnordered | Polyhedron.h:76-90 | For any underlying hash, TPairHashUnordered is the hash of the canonical key (larger index first), so a pair and its swap get the same value. |
| MeshEdges.PairHash | Polyhedron.h:104-111 | TPairHash hashes the ordered pair; on a pair whose first index is not smaller it agrees with TPairHashUnordered. |
| MeshEdges.UnorderedPredIsEquivalence | Polyhedron.h:97-100 | TPairPredUnordered is reflexive, symmetric and transitive. |
| MeshEdges.UnorderedPredIsSameKey | Polyhedron.h:79-100 | Two pairs are unordered-equal iff they have the same canonical key. A pair and its swap share a key. So a map keyed by `UKey` behaves as the unordered map. |
| MeshEdges.UnorderedHashAgreesWithPred | Polyhedron.h:79-89 | For any underlying hash: a pair and its swap hash alike; unordered-equal pairs hash alike; the hash is that of the canonical key. |
| MeshEdges.OrderedPredIsEquality | Polyhedron.h:113-121 | TPairPred is equality of ordered pairs. A pair and its swap are the same key only when both indices agree. Equal keys hash alike under TPairHash. |
| Selection.Select | MeshFix/MeshFix.cpp:293-300 | Copying out the flagged faces yields as many faces as there are set flags. |
| Selection.SelectIsStableSubsequence | MeshFix/MeshFix.cpp:293-300 | The copied faces are the input at exactly the flagged positions, in increasing order, so the result is a subsequence of the input. |
| Selection.SelectMembership | MeshFix/MeshFix.cpp:293-300 | A face is in the result iff some flagged position holds it. |
| Selection.SelectAllKept | MeshFix/MeshFix.cpp:293-300 | Nothing is dropped iff every flag is set, and then the result equals the input. |
| RoundingOrder.FixRoundingOrder | MeshFix/MeshFix.cpp:59-98 | The ordered-edge map, the set of keys with more than one entry and the copy loop together return `RoundingResult(faces)`. That is the faces none of whose directed sides occurs more than once, in order. |
| RoundingOrder.BuildDirectedEdgeMap | MeshFix/MeshFix.cpp:62-70 | Each directed side's list ends up as long as the number of times that ordered pair occurs among all sides of all faces. |
| RoundingOrder.RepeatedKeys | MeshFix/MeshFix.cpp:72-79 | A key is collected iff it is in the map and its list holds more than one entry. |
| RoundingOrder.CopyKept | MeshFix/MeshFix.cpp:81-95 | When the collected keys are exactly the repeated directed sides, the copy loop returns `RoundingResult(faces)`. |
| RoundingOrder.CountOfSelection | MeshFix/MeshFix.cpp:62-70 | Dropping faces never raises the number of occurrences of a directed edge. |
| RoundingOrder.RoundingKeepsExactly | MeshFix/MeshFix.cpp:62-95 | A face is kept iff it is in the input and each of its directed sides occurs at most once. |
| RoundingOrder.RoundingIsSubsequence | MeshFix/MeshFix.cpp:80-95 | The copy loop keeps a stable-order subsequence of the input, never longer, and empty input gives empty output. |
| RoundingOrder.DegenerateFaceRemovesItself | MeshFix/MeshFix.cpp:64-90 | A face (a, a, a) inserts its own side (a, a) three times and is always dropped. |
| RoundingOrder.RoundingIdempotent | MeshFix/MeshFix.cpp:60-98 | The survivors' directed sides are unique among the survivors, so filtering again changes nothing. |
| EdgeIndex.UIncidenceMembers | MeshFix/MeshFix.cpp:162-198 | The list for an unordered key names exactly the faces having that key as a side. |
| EdgeIndex.KeyOfSomeFace | MeshFix/MeshFix.cpp:162-198 | A key with a non-empty list is a side of some face, and both its endpoints are corners of that face. |
| EdgeIndex.BuildEdgeIndex | MeshFix/MeshFix.cpp:162-198 | After the loop, every unordered key's list is its incidence list: the face indices in order, once per side with that key. Every stored key is canonical. |
| EdgeIndex.InsertSides | MeshFix/MeshFix.cpp:165-197 | One iteration appends the face index under the canonical key of each side in turn. A key seen for the first time gets a one-entry list. All stored keys stay canonical. |
| StarClustering.ShareEdgeIffCommonSide | MeshFix/MeshFix.cpp:263-271 | The nine-way TPairPredUnordered comparison (`ShareEdge`) holds iff some side of one triangle and some side of the other are the same undirected edge, i.e. have the same canonical key. |
| StarClustering.ShareEdgeSymmetric | MeshFix/MeshFix.cpp:269-271 | The nine-way side comparison is symmetric and reflexive. |
| StarClustering.ClusterCountIsComponentCount | MeshFix/MeshFix.cpp:247-281 | Any labelling of star members by clusters seeded and closed under edge sharing has as many clusters as the "shares an edge" graph has connected components. |
| StarClustering.SingleClusterIffConnected | MeshFix/MeshFix.cpp:247-283 | There is at most one cluster iff the star is edge-connected, and none iff the star is empty. |
| StarClustering.AbsorbLinked | MeshFix/MeshFix.cpp:257-277 | One pass of the inner scan over the front face's linked members. Afterwards a member is visited iff it was visited before or it shares an edge with the front face. The queue becomes the old queue followed by exactly the newly visited members, in increasing index order. Those members are put in the front face's cluster and the labelling stays closed. The visited count never drops, and the queue only grows when something was marked. |
| StarClustering.ScanLinked | MeshFix/MeshFix.cpp:262-277 | The `for` loop over every candidate. Its invariant: after candidate `j`, exactly the members below `j` that share an edge with the head have been added to the visited flags, and the queue has been extended by those newly visited members in index order. |
| StarClustering.ScanMember | MeshFix/MeshFix.cpp:263-276 | One candidate of the inner scan. Suppose it is not the head, is unvisited, and one of the nine unordered side comparisons with the head holds. Then exactly its visited flag is set, it is appended to the queue, it is labelled with the head's cluster and its mark count goes up by one. Otherwise the flags, queue, labels and marks are all unchanged. Either way the scan stays complete up to the candidate. |
| StarClustering.GrowCluster | MeshFix/MeshFix.cpp:252-279 | Growing a cluster from the queue `[i]` until the queue is empty keeps the labelling valid. It leaves every visited member's linked members visited and in the same cluster. |
| StarClustering.CountClusters | MeshFix/MeshFix.cpp:243-281 | The `sampled`/list clustering of one star returns `nb_cluster` equal to the number of connected components of the star. `nb_cluster > 1` iff the star is not connected. Every member is marked exactly once: each marking adds one to that member's count, and every count ends at 1. |
| NonManifold.BadKeysMeaning | MeshFix/MeshFix.cpp:200-217 | A face is listed on a key with more than two entries iff one of its sides is such an edge. A vertex is an endpoint of such a key iff it is a problematic vertex. |
| NonManifold.ClearFlags | MeshFix/MeshFix.cpp:212-216 | Clearing the flags of a list of face indices leaves every other flag unchanged. |
| NonManifold.CondemnNonManifoldEdges | MeshFix/MeshFix.cpp:200-217 | Afterwards exactly the faces on no edge with more than two sides are live. The collected vertices are exactly the endpoints of those edges. |
| NonManifold.StarUpToMembers | MeshFix/MeshFix.cpp:219-229 | A prefix star of `v` holds exactly the live faces below the bound that have `v` as a corner. |
| NonManifold.StarMembers | MeshFix/MeshFix.cpp:219-229 | The star of `v` holds exactly the faces with corner `v` that the edge step left live, including faces that propagation condemns later. |
| NonManifold.BuildVertexStars | MeshFix/MeshFix.cpp:219-229 | `vneighbors[v]` is the star of `v` built from the flags as they stand after the edge step. |
| NonManifold.AppendToStars | MeshFix/MeshFix.cpp:223-228 | Pushing a live face onto the lists of its three corners extends each vertex's list by that face index once per corner equal to the vertex. |
| NonManifold.ProblematicInRange | MeshFix/MeshFix.cpp:231-233 | An endpoint of a bad edge is a valid vertex, so `vneighbors[pv]` is in bounds. |
| NonManifold.CondemnProblematicStars | MeshFix/MeshFix.cpp:231-237 | A face stays live iff it was live and lies in no problematic vertex's star. |
| NonManifold.Iota | MeshFix/MeshFix.cpp:241 | The vertex order 0..n-1 of the per-vertex loop: position `j` holds `j`, and it contains exactly the vertices below `n`. |
| NonManifold.CondemnInOrderPointwise | MeshFix/MeshFix.cpp:239-291 | After the per-vertex loop, a face is live iff it was live and no visited vertex with a split star has it in its star. |
| NonManifold.CondemnOrderIndependent | MeshFix/MeshFix.cpp:239-291 | Visiting the vertices in any order with the same vertex set condemns the same faces, so the sequential model equals the parallel loop. |
| NonManifold.CondemnNonManifoldVertices | MeshFix/MeshFix.cpp:239-291 | The per-vertex clustering loop leaves the flags that condemning, in vertex order, every star with more than one cluster gives. |
| NonManifold.FlagsAreSurvival | MeshFix/MeshFix.cpp:156-291 | The three condemning steps, composed, leave exactly the faces that `Survives` keeps live. |
| NonManifold.CondemnEdgesAndBuildStars | MeshFix/MeshFix.cpp:156-229 | Builds the edge index, condemns bad-edge faces, collects the problematic vertices (all in range) and builds the stars of every vertex. |
| NonManifold.CollectSurvivors | MeshFix/MeshFix.cpp:293-300 | The copy loop returns the live faces in order. |
| NonManifold.RemoveNonManifold | MeshFix/MeshFix.cpp:152-309 | The pass returns `PassResult(faces)`, and `*nb_removed_face` is the input size minus the result size. |
| NonManifold.PassIsSubsequence | MeshFix/MeshFix.cpp:293-307 | The result is a stable-order subsequence of the input and never longer. |
| NonManifold.PassKeepsExactly | MeshFix/MeshFix.cpp:152-309 | A face is in the result iff it is in the input and no step condemns it. |
| NonManifold.NonManifoldEdgeFacesRemoved | MeshFix/MeshFix.cpp:200-217 | Every face with a side shared by more than two face sides is absent from the result. |
| NonManifold.ProblematicStarRemoved | MeshFix/MeshFix.cpp:209-237 | Every face in the star of an endpoint of such an edge is absent from the result. |
| NonManifold.SplitStarRemoved | MeshFix/MeshFix.cpp:283-290 | Every face in the star of a vertex whose star is not edge-connected is absent from the result. |
| NonManifold.NotManifoldHasVictim | MeshFix/MeshFix.cpp:200-290 | A mesh with a bad edge or a split star has some face that the pass condemns. |
| NonManifold.ManifoldAllSurvive | MeshFix/MeshFix.cpp:200-290 | In a manifold mesh no face is condemned. |
| NonManifold.PassFixedIffManifold | MeshFix/MeshFix.cpp:152-309 | The pass removes nothing iff it returns its input unchanged, iff every edge has at most two sides and every star is edge-connected. |
| NonManifold.PassPreservesRange | MeshFix/MeshFix.cpp:293-300 | Faces whose indices are below the vertex count still are after a pass. |
| FixedPoint.PassCap | MeshFix/MeshFix.cpp:340-346 | The loop's pass cap is at least 1 and at least `max_retry + 2`, and exactly `max_retry + 2` whenever above 1. |
| FixedPoint.PassesSubsequence | MeshFix/MeshFix.cpp:341-346 | Any number of passes leaves a stable-order subsequence of the input. |
| FixedPoint.PassesInRange | MeshFix/MeshFix.cpp:341-346 | Any number of passes keeps face indices below the vertex count. |
| FixedPoint.RepairToFixedPoint | MeshFix/MeshFix.cpp:339-346 | The loop runs between 1 and `PassCap(max_retry)` passes, at most one more than the face count. Every pass before the last removes faces. It stops on a pass that removed nothing or on the cap. The final count is the last pass's removals. A stop on 0 means one more pass changes nothing and the mesh is manifold. The result is a subsequence of the input. The loops at 126-133 and 452-459 are the same. |
| FixedPoint.RepairTopology | MeshFix/MeshFix.cpp:337-346 | The rounding filter once, then the retry loop. The result is a subsequence of the loaded faces, in range, and manifold when the last pass removed nothing. |
| FixedPoint.RoundingPreservesRange | MeshFix/MeshFix.cpp:81-95 | The rounding filter keeps face indices below the vertex count. |
| MeshInput.LoadFaces | Polyhedron.h:568-579 | Loading succeeds iff every face index is below the vertex count, and then all faces are loaded. On failure, the faces before the first bad face are left in the output. |
| MeshInput.NormalizeLabel | Polyhedron.h:371-376 | A label stays unless it is 100 or below 10, when it becomes 0. The result is 0 or a label of at least 10 other than 100. |
| MeshInput.NormalizeLabelIdempotent | Polyhedron.h:371-376 | Normalising twice is normalising once. |
| MeshInput.FaceLabel | Polyhedron.h:378-384 | A face's label is one of its corners' labels and at least each of them. |
| MeshInput.FaceLabelRotation | Polyhedron.h:378-384 | The face label does not depend on the corner its halfedge starts from. |
| MeshInput.LoadedFaceLabelsNormalized | Polyhedron.h:371-384 | After a load every face label is itself a normalised label. |
| MeshInput.LabeledMesh.constructor | Polyhedron.h:303-313 | A fresh mesh has every vertex and face label 0. |
| MeshInput.LabeledMesh.LoadLabels | Polyhedron.h:352-387 | The load fails, changing nothing, when the "labels" key is missing or the label count differs from the vertex count. Otherwise it stores the normalised vertex labels and then each face's label as the maximum of its corners' labels. |

## Left out

- File input and output are not modelled. This covers Assimp import and export, the scene checks of LoadVFAssimp, JSON parsing in LoadLabels, WriteLabels and the colour tables. LoadFaces takes the already decoded face list, and LoadLabels takes the decoded "labels" array, or None when the key is missing.
- CGAL polyhedron building and traversal, self-intersection detection and `erase_facet` in FixSelfIntersection, hole filling and component filtering are not modelled: they are calls into an external geometry library. For FixSelfIntersection, only its retry loop is modelled (`RepairToFixedPoint`).
- Vertex coordinates are dropped. The passes never read them; LoadFaces keeps only the vertex count.
- The OpenMP `parallel for` and the atomic counter are not modelled as threads. The loop runs sequentially, and `CondemnOrderIndependent` proves the vertex order does not matter.
- The counters `nb_nm_edges` and `nb_nm_vertices` are not modelled. They are only logged, as is everything behind `gVerbose`.
- The orientation of a stored `TEdge` key is not modelled. The source stores the first-inserted orientation; the model stores the canonical one. Only the endpoint set is read, and it is the same.
- `problematic_vertices` is modelled by membership only. Its order and its duplicates do not affect which flags are cleared.
- The `sampled` vector is modelled as booleans. The source holds only 0 and 1 in it.
- FixedPoint.RepairToFixedPoint: the `int` retry counter is unbounded in the model. The source's `cnt++` could overflow only after 2^31 passes. The loop ends well before that, because each repeated pass removes a face.
- Index widths are not modelled. Face indices and sizes are unbounded naturals. `*nb_removed_face` cannot wrap, because the result is never longer than the input.
- Faces with other than three indices are not modelled. The loader reads `mIndices[0]` to `mIndices[2]` of each Assimp face without checking `mNumIndices` (Polyhedron.h:571-577). A polygon with more indices has only its first three read. The import at Polyhedron.h:551 does not triangulate, so a point or line primitive with fewer than three indices is read out of bounds. Such faces lie outside the model, where a face is always a triple.
- MeshInput.LoadLabels: label values are unbounded integers. The source converts the JSON "labels" array to `std::vector<int>`, and the JSON library narrows each number without a range check: a value beyond the `int` range wraps (and a negative result is then reset to 0), and a non-integral number is truncated toward zero. Only a value that is neither a number nor a boolean makes the conversion fail; a boolean becomes 1 or 0. The model's labels are the numbers after that conversion, so it does not capture the narrowing or the truncation.
