# Planet mesh generation and triangle adjacency, modelled in Dafny

This project models two pieces of a procedural planet generator.

**`NearestNeighbor`.** This class is built once from vertex positions, an edge list (pairs of vertex indices) and a triangle list (lists of edge indices). Construction runs three loops:

1. Every triangle writes itself into the owner slot of each of its edges, so the last triangle listing an edge wins. An edge no triangle lists keeps a placeholder owner.
2. Every edge is added to the incident-edge set of both its endpoints.
3. For each edge *e* of each triangle, the incident sets of *e*'s two endpoints are intersected. The owner of every edge in the intersection other than *e* itself is appended to the triangle's neighbour list.

Three lookups return a triangle's stored list, or each listed triangle's edge list.

The model follows the code, not the name:
- If no two edges lie on the same vertex pair, every list stays empty.
- Suppose every edge joins two distinct vertices and has exactly one twin: one other edge on the same two vertices, in either direction. Suppose also that every edge is listed by exactly one triangle. Then each triangle gets one neighbour per edge: the triangle holding that twin. The relation is then symmetric.
- Duplicates are kept.
- An unlisted twin contributes the placeholder, modelled as `None`.

**`generatePlanetMesh`.** The planet cells are coloured land or water by one random draw each. The colours are then passed down to the optional biome, area and walking levels:
- A finer cell takes the colour of the first coarser cell containing its centroid.
- Otherwise it takes the colour of the coarser cell at the least angular distance, where a stable sort sends ties to the earliest.

With area cells, the builder also produces a height map:
- Seeding: 0 for green-channel-1 cells, −1 otherwise.
- Five synchronous passes of the land rule and the water rule over a neighbour query.
- The area colours are shaded by height, and the `[index, height]` and `[index, colour]` lists are returned.

The walking cells jitter the inherited colours with three draws each. The finest level supplied is drawn as a triangle fan per cell: the centroid first, then each boundary vertex. The indices are numbered from a running starting index, which is one above the largest index pushed so far.

Object identity (arrays used as `Map`/`Set` keys, `indexOf`) is modelled by integer indices. A JavaScript `Set` is modelled as a duplicate-free sequence in insertion order. `undefined` becomes `None`, and the `TypeError` of reading a property of `undefined` becomes an `Err` value. The random generator, `containsPoint`, `angularDistance` and the spatial neighbour query are function parameters (oracles). Floating-point numbers are modelled as reals.

Files:
- `wrappers.dfy`: Option and Result.
- `geometry.dfy`: points, colours and cells.
- `adjacency_spec.dfy`: what the constructor computes, as functions, with their lemmas.
- `nearest_neighbor.dfy`: the class and its loops.
- `adjacency_examples.dfy`: small meshes worked out by hand.
- `fan_mesh.dfy`: `generateMesh`.
- `color_inheritance.dfy`: colours and inheritance.
- `height_relaxation.dfy`: seeding and relaxation.
- `planet_mesh.dfy`: the builder and its branches.

## Model

| member | source | states |
|---|---|---|
| TriangleAdjacency.NearestNeighbor.constructor | NearestNeighbor.ts:8-55 | keeps the vertex, edge and triangle arrays and establishes `Valid`: owner slots, incident sets and neighbour lists are exactly the specification functions `Owners`, `Incident` and `Neighbors` |
| TriangleAdjacency.NearestNeighbor.AssignOwners | NearestNeighbor.ts:17-21 | from all-placeholder slots, each edge's slot ends as `Owners`: the last triangle in input order listing it, or `None`; nothing else changes |
| TriangleAdjacency.NearestNeighbor.CollectIncidentEdges | NearestNeighbor.ts:24-28 | from empty sets, every vertex's set ends as `Incident`: the edges touching it, once each, in edge order; nothing else changes |
| TriangleAdjacency.IncidentStep | NearestNeighbor.ts:25-27 | adding edge `i` to both endpoint sets (a second `add` for a loop edge is a no-op) extends the sets of the first `i` edges to those of the first `i + 1` |
| TriangleAdjacency.NearestNeighbor.BuildNeighborLists | NearestNeighbor.ts:31-54 | from empty lists, every triangle's list ends as `Neighbors`; owners and incident sets unchanged |
| TriangleAdjacency.NearestNeighbor.FillNeighborList | NearestNeighbor.ts:32-53 | only triangle `t`'s list changes, and it becomes the contributions of its edges in order |
| TriangleAdjacency.NearestNeighbor.PushSharingOwners | NearestNeighbor.ts:33-52 | appends to triangle `t`'s list exactly the owner slots of the edges other than `e` on both of `e`'s endpoints, in edge order; nothing else changes |
| TriangleAdjacency.Intersect | NearestNeighbor.ts:37-42 | the intersection is the first set's members that are in the second, in the first set's order |
| TriangleAdjacency.OwnersSkipping | NearestNeighbor.ts:43-52 | the intersection minus `e` itself, each edge replaced by its owner slot, in order |
| TriangleAdjacency.OwnersSkippingStep | NearestNeighbor.ts:44-51 | one iteration of the skip loop appends the owner of the current edge unless it is `e` |
| TriangleAdjacency.NearestNeighbor.NearestNeighborIndicesFromIndex | NearestNeighbor.ts:57-59 | succeeds exactly for an index of a triangle, and then returns `Neighbors` of it |
| TriangleAdjacency.NearestNeighbor.NearestNeighborIndices | NearestNeighbor.ts:61-64 | succeeds exactly for one of the constructor's triangles, and then returns its neighbour list |
| TriangleAdjacency.NearestNeighbor.NearestNeighborData | NearestNeighbor.ts:66-68 | succeeds exactly for a known triangle whose list has no placeholder; then same length and order as the list, each entry the edge list of the named triangle |
| TriangleAdjacency.NearestNeighbor.TwinnedData | NearestNeighbor.ts:17-68 | on a twinned mesh the data lookup succeeds, with one edge list per edge of the triangle, the `k`-th holding the twin of the `k`-th edge |
| TriangleAdjacency.NearestNeighbor.NeighborEntriesInRange | NearestNeighbor.ts:48-51 | every defined neighbour entry is the index of a triangle |
| AdjacencySpec.OwnerAfter | NearestNeighbor.ts:17-21 | after `n` triangles the owner is the last of them listing the edge, and `None` exactly when none lists it |
| AdjacencySpec.IncidentAfterMembers | NearestNeighbor.ts:24-28 | after `n` edges a vertex's set holds exactly the edges below `n` touching it, strictly increasing, so without repeats |
| AdjacencySpec.IncidentMembers | NearestNeighbor.ts:24-28 | a vertex's full set holds exactly the edges touching it, each once, in edge order |
| AdjacencySpec.SharingAfterMembers | NearestNeighbor.ts:37-46 | the edges below `n` sharing `e`'s vertex pair are exactly the other edges with both of `e`'s endpoints, in order |
| AdjacencySpec.SharingMembers | NearestNeighbor.ts:37-46 | the same for all edges |
| AdjacencySpec.OwnersOf | NearestNeighbor.ts:47-51 | one owner slot per listed edge, in order |
| AdjacencySpec.KeepInMembers | NearestNeighbor.ts:38-42 | the intersection holds exactly the common members |
| AdjacencySpec.WithoutMembers | NearestNeighbor.ts:44-46 | skipping `e` removes exactly `e` |
| AdjacencySpec.KeepInSnoc | NearestNeighbor.ts:38-42 | one more member of the first set is kept exactly when the second set has it |
| AdjacencySpec.WithoutBounded | NearestNeighbor.ts:44-47 | skipping keeps every remaining edge index in range |
| AdjacencySpec.WithoutSnoc | NearestNeighbor.ts:44-46 | one more edge survives the skip exactly when it is not `e` |
| AdjacencySpec.OwnersOfSnoc | NearestNeighbor.ts:47-51 | one more edge appends its owner slot |
| AdjacencySpec.CommonIsWithoutKeepIn | NearestNeighbor.ts:37-46 | intersecting and then skipping `e` equals one pass keeping the common members other than `e` |
| AdjacencySpec.CommonSnoc | NearestNeighbor.ts:37-46 | one more member of the first set is kept exactly when it is common and not `e` |
| AdjacencySpec.CommonStep | NearestNeighbor.ts:24-46 | extending the first endpoint's set by one edge extends the kept edges by that edge exactly when it is another edge on `e`'s vertex pair |
| AdjacencySpec.CommonIsSharingAfter | NearestNeighbor.ts:24-46 | walking the first endpoint's set and keeping the second endpoint's edges other than `e` gives exactly the other edges on `e`'s vertex pair |
| AdjacencySpec.IntersectionBounded | NearestNeighbor.ts:37-42 | every edge in an intersection of incident sets is an edge index |
| AdjacencySpec.IntersectionIsSharing | NearestNeighbor.ts:33-46 | the intersection of `e`'s endpoints' incident sets without `e` is exactly the other edges on both endpoints, in edge order |
| AdjacencySpec.ContributionMembers | NearestNeighbor.ts:43-51 | an owner is pushed for edge `e` exactly when some other edge on `e`'s endpoints has that owner slot |
| AdjacencySpec.NeighborsAfterMembers | NearestNeighbor.ts:32-53 | after `j` edges of a triangle, `x` is listed exactly when one of those edges contributes it |
| AdjacencySpec.NeighborMembers | NearestNeighbor.ts:31-54 | `x` is in triangle `t`'s list exactly when an edge of `t` has another edge on both its endpoints owned by `x`; the edge itself never counts |
| AdjacencySpec.NoSharedPairsNoNeighbors | NearestNeighbor.ts:37-46 | if no two distinct edges lie on the same vertex pair, every neighbour list is empty |
| AdjacencySpec.TwinSharingAfter | NearestNeighbor.ts:37-46 | with twinned edges, the only edge sharing `e`'s pair is its twin, once it has been seen |
| AdjacencySpec.TwinSharing | NearestNeighbor.ts:37-46 | with twinned edges, the edges sharing `e`'s pair are exactly its twin |
| AdjacencySpec.OwnerOfListedOnce | NearestNeighbor.ts:17-21 | an edge listed by one triangle only is owned by that triangle |
| AdjacencySpec.OwnerOfListed | NearestNeighbor.ts:17-21 | an edge listed exactly once has a defined owner |
| AdjacencySpec.TwinnedNeighborsAfter | NearestNeighbor.ts:32-53 | when each edge of a triangle shares its pair only with its twin, the list has one entry per edge, the owner slot of that edge's twin |
| AdjacencySpec.TwinnedNeighbors | NearestNeighbor.ts:17-54 | with twinned edges each listed once, a triangle gets exactly one neighbour per edge: the triangle listing that edge's twin |
| AdjacencySpec.TwinnedNeighborsSymmetric | NearestNeighbor.ts:17-54 | under the same conditions, `u` is a neighbour of `t` exactly when `t` is a neighbour of `u` |
| AdjacencyExamples.PillowIsClosed | NearestNeighbor.ts:17-21 | two oppositely wound triangles on three vertices form a twinned mesh with every edge listed once |
| AdjacencyExamples.PillowTwinned | NearestNeighbor.ts:37-46 | each pillow edge shares its pair with exactly its reversed twin |
| AdjacencyExamples.PillowInRange | NearestNeighbor.ts:18-19 | the pillow's triangles list only its own edges |
| AdjacencyExamples.PillowListedOnce | NearestNeighbor.ts:17-21 | each pillow edge is listed by exactly one triangle |
| AdjacencyExamples.PillowOwners | NearestNeighbor.ts:17-21 | edges 0-2 are owned by triangle 0, edges 3-5 by triangle 1 |
| AdjacencyExamples.PillowSharing | NearestNeighbor.ts:37-46 | the intersection for each pillow edge minus itself is its twin |
| AdjacencyExamples.PillowNeighbors | NearestNeighbor.ts:31-54 | each pillow triangle lists the other three times |
| AdjacencyExamples.PillowSide | NearestNeighbor.ts:31-54 | one pillow triangle's list is the other triangle once per side |
| AdjacencyExamples.RepeatedNeighbor | NearestNeighbor.ts:43-52 | with two other edges on the same pair, both owned by triangle 1, triangle 0 lists triangle 1 twice: no deduplication |
| AdjacencyExamples.DoubledInRange | NearestNeighbor.ts:18-19 | the doubled mesh's triangles list only its own edges |
| AdjacencyExamples.DoubledSharing | NearestNeighbor.ts:37-46 | both other edges lie on edge 0's pair |
| AdjacencyExamples.DoubledOwners | NearestNeighbor.ts:17-21 | triangle 1 owns edges 1 and 2 |
| AdjacencyExamples.UnlistedTwin | NearestNeighbor.ts:11-51 | the twin of an edge that no triangle lists contributes the placeholder, `None` |
| AdjacencyExamples.PillowLookup | NearestNeighbor.ts:8-68 | building the class on the pillow, the data lookup of triangle 0 returns the second triangle's edge list three times |
| FanMesh.StartingIndexBounds | helpers.ts:25 | the starting index is above every index pushed so far, and is 0 or one above a pushed index |
| FanMesh.WrapAround | helpers.ts:32-41 | for a vertex of the cell, `i % n` is `i` and `(i + 1) % n` is the next vertex round the cell |
| FanMesh.GenerateMesh | helpers.ts:19-51 | the reduce's buffers equal `MeshOf`, i.e. each cell's fan appended after the earlier ones in the colour of the matching pair; they hold one mesh vertex per cell and per boundary vertex, and three indices per boundary vertex |
| FanMesh.PointOfPrefix | helpers.ts:26-35 | a mesh vertex already stored is unchanged by later pushes |
| FanMesh.PointOfLast | helpers.ts:26-35 | the three numbers pushed last form the last mesh vertex |
| FanMesh.FanLengths | helpers.ts:26-43 | a fan with `i` vertices appends `i + 1` position, colour and normal triples and `3 i` indices |
| FanMesh.FanExtends | helpers.ts:26-43 | a fan only appends: the earlier buffers are prefixes of the new ones |
| FanMesh.FanCentroid | helpers.ts:26-28 | the centroid is the first new position and normal |
| FanMesh.FanPrefix | helpers.ts:30-43 | a later stage of the fan loop extends an earlier one |
| FanMesh.FanVertex | helpers.ts:32-35 | cell vertex `k` is the position and normal of the `k + 1`-th new mesh vertex |
| FanMesh.FanColor | helpers.ts:27-34 | every new mesh vertex carries the cell's colour |
| FanMesh.FanTriangleAt | helpers.ts:38-42 | the `k`-th pushed triangle is `(s, s + k + 1, s + Next(k) + 1)` |
| FanMesh.FanIndexRange | helpers.ts:38-42 | every index a fan pushes lies in `[s, s + n]`, and the last vertex `s + n` is referenced |
| FanMesh.CellAdvancesStartingIndex | helpers.ts:25-42 | a cell with `n > 0` vertices moves the starting index forward by exactly `n + 1` |
| FanMesh.StartingIndexCountsVertices | helpers.ts:25-43 | when every cell has a vertex, the starting index equals the number of mesh vertices already stored |
| FanMesh.CellFanVertices | helpers.ts:25-43 | when every cell up to `c` has a vertex, in the finished mesh cell `c`'s centroid and vertices occupy consecutive mesh vertices from its starting index, all in its colour |
| FanMesh.CellFanTriangles | helpers.ts:30-43 | in the finished mesh, cell `c` has one triangle per vertex, joining the centroid to vertices `k` and `k + 1`, wrapping round |
| FanMesh.MeshSizes | helpers.ts:19-51 | the buffers hold one mesh vertex per cell and per boundary vertex, and three indices per boundary vertex |
| FanMesh.EmptyCellShiftsNumbering | helpers.ts:25-43 | a cell without vertices pushes its centroid but no index, so the next cell's triangles number from the earlier centroid |
| ColorInheritance.PlanetColors | helpers.ts:52-55 | one colour per planet cell, in order: water exactly when its draw exceeds 0.33, land otherwise |
| ColorInheritance.FindFrom | helpers.ts:60 | finds the first coarse cell from `i` on that contains the point, and `None` exactly when none does |
| ColorInheritance.Keyed | helpers.ts:61 | each coarse index paired with its angular distance, in list order |
| ColorInheritance.FirstLeast | helpers.ts:61 | the first index holding the least key |
| ColorInheritance.InsertHead | helpers.ts:61 | inserting after all entries with keys not larger changes the head only for a strictly smaller key |
| ColorInheritance.SortHead | helpers.ts:61 | the head of the stable sort by distance is the first entry of least distance |
| ColorInheritance.Nearest | helpers.ts:61 | a coarse cell of least distance, with every earlier cell strictly farther |
| ColorInheritance.InheritedFrom | helpers.ts:60-62 | the first containing coarse cell if one contains the point, else the nearest; `None` exactly when there is no coarse cell |
| ColorInheritance.InheritColors | helpers.ts:59-64 | each fine cell, in order, paired with its source's colour; fails exactly when a non-empty level inherits from an empty one |
| ColorInheritance.Palette | helpers.ts:62 | the colours of the pairs, in order |
| ColorInheritance.InheritedColorsComeFromCoarse | helpers.ts:59-64 | every inherited colour is a colour of the coarser level |
| ColorInheritance.PlanetColorsLandOrWater | helpers.ts:52-55 | every planet colour is the land or the water colour |
| ColorInheritance.InheritKeepsLandOrWater | helpers.ts:67-78 | inheritance from land or water colours yields only land or water colours |
| HeightRelaxation.Seed | helpers.ts:79 | each cell starts at 0 exactly when its green channel is 1, and at −1 otherwise |
| HeightRelaxation.Min | helpers.ts:97 | `Math.min` of a non-empty list is a member, no larger than any member |
| HeightRelaxation.KnownMembers | helpers.ts:94-96 | the neighbour heights used are exactly the heights of the queried cells of the map |
| HeightRelaxation.Depths | helpers.ts:97 | each neighbour height mapped to its depth below sea level |
| HeightRelaxation.LandHeightFacts | helpers.ts:97 | the land rule is one above a known height, at most one above every known height, and 0 with none known |
| HeightRelaxation.WaterHeightFacts | helpers.ts:97 | the water rule gives −1 to −3, never deeper than one below any neighbour depth, and −1 with none known |
| HeightRelaxation.LandRule | helpers.ts:92-97 | a land cell becomes one above its lowest neighbour, or 0 with no neighbour |
| HeightRelaxation.WaterRule | helpers.ts:92-97 | a water cell becomes −1, −2 or −3: one below the smaller of 2 and its shallowest neighbour depth, and −1 with no neighbour |
| HeightRelaxation.WaterBesideLand | helpers.ts:97 | a water cell with a neighbour at or above sea level becomes −1 |
| HeightRelaxation.PassBounds | helpers.ts:92-98 | a pass over heights in `[−3, k]` gives heights in `[−3, k + 1]` |
| HeightRelaxation.RelaxedBounds | helpers.ts:81-102 | after `k` passes from heights in `[−3, 0]`, every height lies in `[−3, k]` |
| HeightRelaxation.SeededBounds | helpers.ts:79-102 | after the five passes from the seed, every height lies in `[−3, 5]` |
| HeightRelaxation.WaterStaysWater | helpers.ts:81-102 | a cell seeded below sea level stays below it in every pass |
| HeightRelaxation.KnownOnLevel | helpers.ts:94-96 | on a level map, a query reaching the map finds only that level |
| HeightRelaxation.PassOnLevel | helpers.ts:92-98 | a pass over a level map moves a cell whose query reaches the map to the next level |
| HeightRelaxation.LevelStep | helpers.ts:92-101 | a pass keeps a level map level when every query reaches the map |
| HeightRelaxation.AllLandClimbs | helpers.ts:81-102 | an all-land map climbs one level per pass: 5 after the five passes |
| HeightRelaxation.AllWaterSinks | helpers.ts:81-102 | an all-water map sinks one level per pass and saturates at −3 |
| HeightRelaxation.ApplySnoc | helpers.ts:99-101 | one more pair overwrites exactly its own cell |
| HeightRelaxation.UpdatedValue | helpers.ts:99-101 | with one pair per cell, a cell holds its pair's height, and a cell without a pair keeps its height |
| HeightRelaxation.UpdateOrderIrrelevant | helpers.ts:92-101 | all heights being computed first, writing the pairs in any order gives the same map |
| HeightRelaxation.PassUpdates | helpers.ts:92-98 | one `[cell, height]` pair per cell, in map order |
| HeightRelaxation.WritingBackIsPass | helpers.ts:92-101 | writing a pass's pairs back gives exactly the synchronous pass |
| HeightRelaxation.WriteBack | helpers.ts:99-101 | the `set` loop leaves the map with the pairs applied in order |
| HeightRelaxation.RelaxHeights | helpers.ts:81-102 | the five-pass loop yields the map after five synchronous passes |
| PlanetMesh.ShadingKeepsHue | helpers.ts:104-113 | for heights in `[−3, 5]`, shading keeps land green-dominant, and keeps water blue-dominant when its height is negative |
| PlanetMesh.JitterBounds | helpers.ts:169 | with draws in `[0, 1)`, each jittered channel keeps 90% to 100% of its value |
| PlanetMesh.ShadeAll | helpers.ts:104-113 | each area cell, in order, keeps its cell and gets its colour shaded by its own height |
| PlanetMesh.WalkingColors | helpers.ts:165-171 | each walking cell, in order, gets the colour of the area cell it inherits from, jittered by draws `offset + 3i` to `offset + 3i + 2`; fails exactly when there are walking cells and no area cell |
| PlanetMesh.HeightEntries | helpers.ts:103 | entry `i` is `[i, height of area cell i]`, one per area cell |
| PlanetMesh.ColorEntries | helpers.ts:114 | entry `i` is `[i, colour of area cell i]`, one per area cell |
| PlanetMesh.AreaStage | helpers.ts:73-114 | fails exactly when there are area cells and no biome cell; otherwise one shaded colour and one height per area cell |
| PlanetMesh.GeneratePlanetMesh | helpers.ts:15-189 | the builder's result, or the error it stops with, is `Planet`: the four branches with their inheritance, relaxation, shading, jitter and mesh |
| PlanetMesh.PlanetSucceeds | helpers.ts:56-173 | the builder succeeds exactly when every level it reads is supplied and each non-empty level has a non-empty level above it |
| PlanetMesh.PlanetErrors | helpers.ts:56-173 | missing biome cells are reported exactly when a finer level is given without them, and missing area cells exactly when walking cells come without area cells and the biome level could inherit |
| PlanetMesh.PlanetMeshSizes | helpers.ts:56-173 | the mesh draws the finest level supplied: one mesh vertex per cell and boundary vertex, three indices per boundary vertex |
| PlanetMesh.PlanetDataOnlyWithArea | helpers.ts:17-164 | the colour and height lists exist exactly when area cells are supplied |
| PlanetMesh.AreaStageHues | helpers.ts:79-113 | each area height lies in `[−3, 5]`; each shaded colour stays green- or blue-dominant; a cell at or above sea level is shaded green |
| PlanetMesh.PlanetAreaData | helpers.ts:66-164 | with biome and area cells supplied and each level able to inherit from the one above, the builder succeeds, and both lists name each area cell once in order, heights lie in `[−3, 5]`, colours stay green or blue, and cells at or above sea level are green |

## Left out

- `index.ts` (command line, screenshots, file I/O) is not part of this model.
- `generatePlanet`, `generatePlanetSteps` and `generatePlanetGltf` (helpers.ts:192-310) are not part of this model. They run the external Voronoi and Delaunay generators and the glTF writer. The builder's cell lists are inputs here.
- The `voronoiTerrain` result field (helpers.ts:186) is not modelled. It is `serializeTerrainPlanet` of an external object.
- The attribute wrapper of the returned mesh (helpers.ts:175-185) is not modelled; the model returns the four buffers.
- Floating point is modelled as exact reals, in the shading (helpers.ts:104-113, 154-163) and the jitter (helpers.ts:169). Rounding is not modelled.
- The seeded generator is a function from draw number to value. The model assumes nothing else draws from it between the planet colours and the walking jitter, so the walking draws start at the number of planet cells.
- `containsPoint` and `angularDistance` are oracles. So is the per-pass `VoronoiTree` query with its 0.075 radius filter (helpers.ts:82-96): a function from an area cell to the cells it finds. The tree is rebuilt each pass from the same cells, so the model uses the same query in every pass.
- Object identity is not modelled. Arrays used as `Map` and `Set` keys are named by their position, so duplicate cells or duplicate edge and triangle arrays are not modelled. `indexOf` (helpers.ts:103, 114) returns the position of each area cell.
- `TriangleAdjacency.NearestNeighbor.constructor` requires every edge endpoint to be a vertex index and every triangle entry to be an edge index. On other input the source throws a `TypeError` while indexing, and the model does not model that crash.
- `TriangleAdjacency.NearestNeighbor.CollectIncidentEdges`: fills a local table and stores it in the field once. The per-`add` writes to the field are not modelled separately.
- `TriangleAdjacency.NearestNeighbor.PushSharingOwners`: collects the owners in a local list and appends it once instead of pushing each, with the same final list.
- The vertex positions are stored but never read, as in the source.
- `FanMesh.GenerateMesh` requires at least as many colour pairs as cells. Every caller passes one pair per cell.
- `HeightRelaxation.UpdateOrderIrrelevant` holds for pair lists naming each cell at most once. That is what a `Map` gives; repeated keys are not modelled.
- PlanetMesh.AreaStage: states only its error case and lengths. The heights and shaded colours it produces are stated by `PlanetMesh.AreaStageHues` and `PlanetMesh.PlanetAreaData`.
- `HeightRelaxation.WaterHeightFacts` follows the code's water rule. The code takes the minimum of 2 and the neighbour depths; a reading that takes the maximum of the depths is not what it does.
