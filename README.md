# Geodesic sphere builder: a verified model

This project models the combinatorial core of `TGeosphere`, a Unity geodesic-sphere builder, in Dafny.

The sphere starts as an icosahedron with 12 nodes and 20 root triangles. It is refined level by level, and every leaf triangle of the triangle quad-tree splits into four. The midpoint node of a shared edge is made only once: the second triangle finds it as the first common neighbour of the edge's ends. Each node keeps one neighbour list per level.

A region's mesh is collected from the tree into `TMutableGeoMesh`. That class keeps a sorted, duplicate-free list of node ids and rewrites the triangle corners as positions in that list. `BuildNormals` gives every node the normal of the ring of neighbours it walks round at its top level.

Two helper scripts derived the hard-coded tables, and they are modelled as well:
- `icosahedron-adj.py` derives the vertex adjacency from the triangle list;
- `icosahedron-pairs.py` finds the edge-sharing triangle pairs and searches for ten disjoint pairs (the texture charts).

The pairs script as written stops at six pairs. Its three removals that would undo a failed choice are commented out, so the search is a first-fit scan. On the icosahedron that scan takes (1, 0), (3, 2), ..., (11, 10), and every later candidate touches a used triangle. The call for ten charts therefore returns None. With the removals restored, the search backtracks and finds ten disjoint edge-sharing pairs covering all 20 triangles; the chart table of `UGeosphere.cs` is one such set. Both versions are modelled (see "## Findings").

Positions and normals are symbolic:
- a position is an icosahedron corner or "the normalised midpoint of nodes a and b";
- a normal is "the cross-product sum over this polygon of nodes".

The bookkeeping is modelled exactly (ids, lists, child slots, levels and search orders) on the inputs the methods accept. The inputs on which the source throws an exception are excluded by preconditions instead; they are listed under "## Left out".

Files:
- `common.dfy`: Option and strict sortedness.
- `icosahedron.dfy`: the level-0 tables and their consistency.
- `adjacency_script.dfy`: the adjacency script.
- `pairs_script.dfy`: the pairs script.
- `geo_mesh.dfy`: `TMutableGeoMesh` as a class, and `List.BinarySearch`.
- `geo_graph.dfy`: the node and tri-tree values and the value-level operations that the methods are proved against.
- `tri_tree.dfy`: the level structure of a subdivision pass.
- `mesh_collect.dfy`: what `xCollectVertexes` gathers.
- `ring_walk.dfy`: the `BuildNormals` walk.
- `geosphere.dfy`: `TGeosphere` as a class whose methods update its node list, tri-tree and level in place.

## Model

| member | source | states |
|---|---|---|
| Icosahedron.TablesWellFormed | unity-proto-subdivision/Assets/Scripts/UGeosphere.cs:112-121 | 20 triangles of 3 corners and 12 adjacency rows; every entry is a vertex id 0..11 |
| Icosahedron.PairsMapIsInverse | unity-proto-subdivision/Assets/Scripts/UGeosphere.cs:340-344 | 10 pairs and 20 map entries; both triangles of pair p are root triangles and the map sends each back to p |
| Icosahedron.PairsPartitionTriangles | unity-proto-subdivision/Assets/Scripts/UGeosphere.cs:340-344 | every root triangle lies in the pair the map names; no triangle sits in two pairs; the two triangles of a pair differ |
| Icosahedron.PairsShareAnEdge | unity-proto-subdivision/Assets/Scripts/UGeosphere.cs:112-116 | the two triangles of every chart pair share exactly two vertices |
| Icosahedron.SharedPair | unity-proto-subdivision/Assets/Scripts/UGeosphere.cs:112-116 | two triangles whose only common vertices are two distinct x and y meet in exactly two vertices |
| IcosahedronAdjacency.BuildAdjacency | test-subdivision/icosahedron-adj.py:6-13 | one set per vertex 0..11, each equal to NeighbourSet, the vertices sharing a triangle with it |
| IcosahedronAdjacency.NeighbourSetMeans | test-subdivision/icosahedron-adj.py:8-13 | u is in v's set exactly when u differs from v and some triangle holds both |
| IcosahedronAdjacency.NeighbourSetSymmetric | test-subdivision/icosahedron-adj.py:8-13 | u is v's neighbour exactly when v is u's |
| IcosahedronAdjacency.NeighbourSetIrreflexive | test-subdivision/icosahedron-adj.py:12-13 | no vertex is its own neighbour |
| IcosahedronAdjacency.AdjacencyTableMatchesTriangles | test-subdivision/icosahedron-adj.py:1-13 | for the fixed triangle list, every derived set equals the hard-coded adjacency row of UGeosphere.cs as a set |
| IcosahedronAdjacency.NeighbourMatchesRow | unity-proto-subdivision/Assets/Scripts/UGeosphere.cs:118-121 | u is a derived neighbour of v exactly when row v of the adjacency table lists u |
| IcosahedronAdjacency.TriangleEdgesInTable | unity-proto-subdivision/Assets/Scripts/UGeosphere.cs:112-121 | any two distinct corners of a root triangle list each other in the table |
| IcosahedronAdjacency.TableEdgesWitnessed | unity-proto-subdivision/Assets/Scripts/UGeosphere.cs:112-121 | every row has 5 entries, each backed by a root triangle holding both ends |
| IcosahedronAdjacency.IcoAdjSymmetric | unity-proto-subdivision/Assets/Scripts/UGeosphere.cs:118-121 | the level-0 table is symmetric |
| IcosahedronPairs.BuildTriSets | test-subdivision/icosahedron-pairs.py:20-22 | same length and order as the triangles; entry i is the vertex set of triangle i |
| IcosahedronPairs.EdgePairs | test-subdivision/icosahedron-pairs.py:24-32 | every emitted (i, j) has j < i and the two share exactly two vertices; every such pair is emitted; the list is strictly lexicographically increasing, so each pair appears once |
| IcosahedronPairs.CollectPairs2 | test-subdivision/icosahedron-pairs.py:84-99 | the result is the first count pairs of the first-fit scan Greedy when that scan passes count and the caller's list is shorter, None otherwise; a returned list is the caller's list followed by candidates that avoid the used triangles and one another |
| IcosahedronPairs.Scan | test-subdivision/icosahedron-pairs.py:86-94 | the scan only appends: its result starts with the pairs already collected |
| IcosahedronPairs.ScanSkipsBlocked | test-subdivision/icosahedron-pairs.py:95-97 | candidates already blocked by the used triangles can be skipped, so the recursive call's scan from the start is the caller's scan continued |
| IcosahedronPairs.ScanExtends | test-subdivision/icosahedron-pairs.py:86-94 | each appended candidate avoids the used triangles and the candidates appended before it |
| IcosahedronPairs.GreedyExtends | test-subdivision/icosahedron-pairs.py:84-99 | the greedy result extends the caller's list by pairwise disjoint candidates that avoid the used triangles |
| IcosahedronPairs.SortedPairsUnique | test-subdivision/icosahedron-pairs.py:24-32 | a strictly lexicographically sorted pair list is determined by its members, so the edge-pair list is the only list meeting the contract of EdgePairs |
| IcosahedronPairs.CollectPairs | test-subdivision/icosahedron-pairs.py:66-82 | a returned list has count pairwise disjoint candidate pairs; count 2 never raises and gives None only when no two candidates are disjoint |
| IcosahedronPairs.FindCharts | test-subdivision/icosahedron-pairs.py:20-105 | the pairs are exactly the edge-sharing (i, j) with j < i in lexicographic order; the result is the first count pairs of the greedy scan over them, or None when that scan stops short; a result is count disjoint edge-sharing pairs and with 2 * count triangles they cover every triangle |
| IcosahedronPairs.TrisOfSize | test-subdivision/icosahedron-pairs.py:93-94 | disjoint pairs of distinct triangles mention twice as many triangles as there are pairs |
| IcosahedronPairs.PairsPartitionRange | test-subdivision/icosahedron-pairs.py:105 | n/2 disjoint pairs drawn from 0..n-1 use every triangle |
| Icosahedron.ConsecutiveRootsShareAnEdge | unity-proto-subdivision/Assets/Scripts/UGeosphere.cs:112-116 | root triangles 2k and 2k + 1 share exactly two vertices, for k below 6 |
| Icosahedron.LastRootsShareNoEdge | unity-proto-subdivision/Assets/Scripts/UGeosphere.cs:112-116 | no two of root triangles 12 to 19 share more than one vertex |
| IcosahedronPairs.ScanFirstFit | test-subdivision/icosahedron-pairs.py:84-99 | on a sorted list holding the six pairs (2k + 1, 2k) and no pair whose smaller triangle is 12 or more, the first-fit scan from any reachable state ends with exactly those six |
| IcosahedronPairs.GreedyStopsAtSix | test-subdivision/icosahedron-pairs.py:84-105 | for the edge-pair list of the root triangles, the first-fit scan from nothing yields (1, 0), (3, 2), (5, 4), (7, 6), (9, 8), (11, 10) and no more |
| IcosahedronPairs.ChartsScript | test-subdivision/icosahedron-pairs.py:105 | the script's call for ten charts returns None |
| IcosahedronPairs.BacktrackSound | test-subdivision/icosahedron-pairs.py:84-103 | with the removals restored, a found list has count pairs and extends the caller's list by candidates that avoid the used triangles and one another |
| IcosahedronPairs.BacktrackComplete | test-subdivision/icosahedron-pairs.py:84-103 | with the removals restored, whenever enough disjoint candidates from position n on avoid the used triangles, the search finds a list |
| IcosahedronPairs.CollectPairsRestoring | test-subdivision/icosahedron-pairs.py:84-103 | the loop with lines 101-103 restored returns exactly the backtracking search's result |
| IcosahedronPairs.FindChartsRestoring | test-subdivision/icosahedron-pairs.py:20-105 | the same edge-pair list as FindCharts; the result is the backtracking search's; a result is count disjoint edge-sharing pairs and with 2 * count triangles they cover every triangle |
| IcosahedronPairs.TablePairsShareEdges | unity-proto-subdivision/Assets/Scripts/UGeosphere.cs:340-344 | every pair of the chart table, larger triangle first, is an edge-sharing pair of root triangles |
| IcosahedronPairs.TablePairsDisjoint | unity-proto-subdivision/Assets/Scripts/UGeosphere.cs:340-344 | no triangle is in two pairs of the chart table |
| IcosahedronPairs.RestoredChartsExist | unity-proto-subdivision/Assets/Scripts/UGeosphere.cs:340-344 | the chart table is a solution in any list holding every edge-sharing pair, so the restored search for ten charts succeeds |
| IcosahedronPairs.ChartsScriptRestoring | test-subdivision/icosahedron-pairs.py:105 | with the removals restored, the call yields ten disjoint edge-sharing pairs covering all 20 root triangles |
| IcosahedronPairs.AppendDisjoint | test-subdivision/icosahedron-pairs.py:87-94 | appending a pair of unused triangles keeps the list disjoint and adds exactly its two triangles to those used |
| GeoMesh.InsertionPoint | unity-proto-subdivision/Assets/Scripts/UGeosphere.cs:42-45 | everything before the point is below x and everything from it on is at least x |
| GeoMesh.InsertionPointUnique | unity-proto-subdivision/Assets/Scripts/UGeosphere.cs:42-45 | any split of a sorted list into a part below x and a part from x on is at the insertion point |
| GeoMesh.BinarySearch | unity-proto-subdivision/Assets/Scripts/UGeosphere.cs:42 | a non-negative result indexes x; a negative one means x is absent and is the complement of its insertion point; a present x is always found |
| GeoMesh.InsertAt | unity-proto-subdivision/Assets/Scripts/UGeosphere.cs:45-46 | inserting a missing id at its insertion point keeps the list strictly sorted and adds exactly that id |
| GeoMesh.MutableGeoMesh.constructor | unity-proto-subdivision/Assets/Scripts/UGeosphere.cs:30-34 | both lists empty, id list sorted |
| GeoMesh.MutableGeoMesh.AddVertex | unity-proto-subdivision/Assets/Scripts/UGeosphere.cs:36-51 | id list stays strictly sorted and gains exactly nodeIndex (length +1 only if it was new); the corner is appended; every corner stays listed |
| GeoMesh.MutableGeoMesh.IndexTriangles | unity-proto-subdivision/Assets/Scripts/UGeosphere.cs:53-57 | id list unchanged; each listed corner becomes its position in the list; an unlisted one becomes the complement of its insertion point |
| GeoGraph.AddAdjacency | unity-proto-subdivision/Assets/Scripts/UGeosphere.cs:379-390 | the node gets at least lev + 1 lists; list lev gains a at its end; every other level is unchanged |
| GeoGraph.FirstCommon | unity-proto-subdivision/Assets/Scripts/UGeosphere.cs:402-406 | None exactly when the lists share nothing; otherwise the first element of l1 in l1's order that l2 holds |
| GeoGraph.FirstCommonAt | unity-proto-subdivision/Assets/Scripts/UGeosphere.cs:402-406 | the first position of l1 whose element l2 holds gives the search result |
| GeoGraph.FirstFree | unity-proto-subdivision/Assets/Scripts/UGeosphere.cs:370-375 | the first -1 child slot, or None when no slot is free |
| GeoGraph.AddTri | unity-proto-subdivision/Assets/Scripts/UGeosphere.cs:362-377 | one childless triangle appended; only the parent's first free slot changes, to the new index; every other triangle is unchanged |
| GeoGraph.ConnectPreserves | unity-proto-subdivision/Assets/Scripts/UGeosphere.cs:392-396 | connecting keeps earlier lists as prefixes and keeps the adjacency valid and symmetric |
| GeoGraph.ConnectKeepsSymmetric | unity-proto-subdivision/Assets/Scripts/UGeosphere.cs:392-396 | adding the edge in both directions keeps the adjacency symmetric |
| GeoGraph.MidpointLookup | unity-proto-subdivision/Assets/Scripts/UGeosphere.cs:398-407 | after lists gain only new nodes, the common-neighbour lookup finds what it found before, or a new node |
| GeoGraph.MidpointStep | unity-proto-subdivision/Assets/Scripts/UGeosphere.cs:297-314 | at most one node added, positioned at the edge midpoint; earlier positions unchanged |
| GeoGraph.MidpointStepChosen | unity-proto-subdivision/Assets/Scripts/UGeosphere.cs:300-314 | the chosen midpoint is a valid id: the first common neighbour at level+1 if any, else a new node |
| GeoGraph.MidpointStepGrowth | unity-proto-subdivision/Assets/Scripts/UGeosphere.cs:300-312 | one edge step grows the adjacency by new nodes only, keeping it valid and symmetric |
| GeoGraph.MidpointsFromChosen | unity-proto-subdivision/Assets/Scripts/UGeosphere.cs:295-315 | after k edges every midpoint is the one the lists before the split dictate |
| GeoGraph.MidpointsFromGrowth | unity-proto-subdivision/Assets/Scripts/UGeosphere.cs:295-315 | after k edges at most k nodes are new, and the adjacency is a valid, symmetric growth |
| GeoGraph.MidpointsFromPositions | unity-proto-subdivision/Assets/Scripts/UGeosphere.cs:304-305 | every node added by the edge steps sits at the midpoint of one of the leaf's edges |
| GeoGraph.RingConnectPreserves | unity-proto-subdivision/Assets/Scripts/UGeosphere.cs:317-319 | the midpoint ring keeps the adjacency a valid, symmetric extension |
| GeoGraph.SplitNodesProps | unity-proto-subdivision/Assets/Scripts/UGeosphere.cs:293-319 | a leaf split adds at most 3 nodes, each at a leaf-edge midpoint; midpoints are valid and as the old lists dictate; adjacency valid, symmetric, extended |
| GeoGraph.SplitKeepsTreeOk | unity-proto-subdivision/Assets/Scripts/UGeosphere.cs:327-330 | hanging four children with valid corners under a leaf keeps the tri-tree well formed |
| GeoGraph.AddEdgeTop | unity-proto-subdivision/Assets/Scripts/UGeosphere.cs:381-389 | appending to list lev leaves the node's last list non-empty when it was non-empty before or lev is at or past the node's top level; other nodes are untouched |
| GeoGraph.ConnectTop | unity-proto-subdivision/Assets/Scripts/UGeosphere.cs:392-396 | when every other node has a non-empty top-level list and each of a and b has one or gets its top list from this edge, every node has one after connecting |
| GeoGraph.MidpointStepTop | unity-proto-subdivision/Assets/Scripts/UGeosphere.cs:302-312 | one edge step keeps every node's top-level list non-empty, the new midpoint node included |
| GeoGraph.MidpointsFromTop | unity-proto-subdivision/Assets/Scripts/UGeosphere.cs:295-315 | the edge steps keep every top-level list non-empty |
| GeoGraph.SplitNodesTop | unity-proto-subdivision/Assets/Scripts/UGeosphere.cs:293-319 | a leaf split keeps every node's top-level list non-empty, as BuildNormals needs |
| TriTree.PassedChildrenStep | unity-proto-subdivision/Assets/Scripts/UGeosphere.cs:332-334 | subdividing child slot k's subtree moves the children pass on to slot k + 1 |
| TriTree.PassedChildrenEnd | unity-proto-subdivision/Assets/Scripts/UGeosphere.cs:332-334 | after the fourth child the node's whole subtree is subdivided |
| TriTree.SplitSubdivides | unity-proto-subdivision/Assets/Scripts/UGeosphere.cs:291-331 | splitting a leaf at level L subdivides its subtree: four new leaves at level L + 1 |
| TriTree.PassedRootsStep | unity-proto-subdivision/Assets/Scripts/UGeosphere.cs:141-142 | subdividing root r's tree moves the pass on to root r + 1 |
| TriTree.PassedRootsEnd | unity-proto-subdivision/Assets/Scripts/UGeosphere.cs:139-145 | after all 20 roots, every leaf is one level deeper; the leaves are exactly the new triangles, four per old leaf |
| Common.Interval | unity-proto-subdivision/Assets/Scripts/UGeosphere.cs:367-368 | the set of ids lo..hi-1, of size hi - lo |
| MeshCollect.Triangle | unity-proto-subdivision/Assets/Scripts/UGeosphere.cs:278-279 | triangle t of a corner list is its entries 3t, 3t+1, 3t+2 |
| MeshCollect.ChildCornersAll | unity-proto-subdivision/Assets/Scripts/UGeosphere.cs:283-284 | at an internal node, the four children's collections in slot order are everything collected |
| MeshCollect.CornersTriangles | unity-proto-subdivision/Assets/Scripts/UGeosphere.cs:276-285 | collection below j is whole triangles; each holds the corners of a node in j's subtree that is a leaf or exactly depth levels down |
| MeshCollect.StopTriangles | unity-proto-subdivision/Assets/Scripts/UGeosphere.cs:276-279 | where collection stops, it emits that node's own three corners |
| MeshCollect.TrianglesWiden | unity-proto-subdivision/Assets/Scripts/UGeosphere.cs:283-284 | what collection below a child reaches with one level less, collection below the parent reaches |
| MeshCollect.TrianglesConcat | unity-proto-subdivision/Assets/Scripts/UGeosphere.cs:283-284 | joining two such triangle lists gives one |
| MeshCollect.RootCornersTriangles | unity-proto-subdivision/Assets/Scripts/UGeosphere.cs:269-273 | collection over all roots is a multiple of 3, each triangle a leaf or a node depth levels below its root |
| MeshCollect.AppendAtCut | unity-proto-subdivision/Assets/Scripts/UGeosphere.cs:271-272 | adding one root's collection keeps the whole-triangle property |
| MeshCollect.CornersValid | unity-proto-subdivision/Assets/Scripts/UGeosphere.cs:276-285 | every collected corner is a valid node id |
| MeshCollect.StopsTriples | unity-proto-subdivision/Assets/Scripts/UGeosphere.cs:276-285 | the collection below j is the corners of the stop nodes below j, three per node in the order they are reached |
| MeshCollect.StopCut | unity-proto-subdivision/Assets/Scripts/UGeosphere.cs:276-279 | where collection stops at a node, that node is the only node of its subtree on the cut level |
| MeshCollect.CutSplits | unity-proto-subdivision/Assets/Scripts/UGeosphere.cs:283-284 | the cut below an internal node is the union of the four children's cuts, which are pairwise disjoint |
| MeshCollect.StopsCut | unity-proto-subdivision/Assets/Scripts/UGeosphere.cs:276-285 | the stop nodes below j are distinct and are exactly the nodes of j's subtree on the cut level |
| MeshCollect.RootStopsCut | unity-proto-subdivision/Assets/Scripts/UGeosphere.cs:269-273 | over the first n roots the stop nodes are distinct and are exactly the nodes on the cut level whose root is below n |
| MeshCollect.CornersCoverCut | unity-proto-subdivision/Assets/Scripts/UGeosphere.cs:276-285 | collection below j holds one triangle for each node of j's subtree on the cut level and no other: its length is 3 times that count |
| MeshCollect.RootCornersCoverCut | unity-proto-subdivision/Assets/Scripts/UGeosphere.cs:269-273 | collection over all roots holds one triangle for each node on the cut level; with depth -1 the cut is the leaf set |
| MeshCollect.RootCornersValid | unity-proto-subdivision/Assets/Scripts/UGeosphere.cs:269-273 | every corner collected over the roots is a valid node id |
| RingWalk.NextOnRing | unity-proto-subdivision/Assets/Scripts/UGeosphere.cs:219-235 | a found id is in both lists and is not the previous node; None exactly when every common id is the previous node |
| RingWalk.NextOnRingAt | unity-proto-subdivision/Assets/Scripts/UGeosphere.cs:219-235 | the step picks the first qualifying id in the centre's list order |
| RingWalk.NextRingNode | unity-proto-subdivision/Assets/Scripts/UGeosphere.cs:219-235 | the nested search finds a next node exactly when NextOnRing does, and finds the same one |
| RingWalk.TraceRing | unity-proto-subdivision/Assets/Scripts/UGeosphere.cs:203-242 | the walk closes within the fuel exactly when Ring is defined, and then returns that ring |
| RingWalk.WalkTracesRing | unity-proto-subdivision/Assets/Scripts/UGeosphere.cs:213-242 | a closing walk traces neighbours of the centre, each adjacent to the one before and never the one two back; it never passes the first id again, and its last id leads back to the first |
| RingWalk.RingPathExtend | unity-proto-subdivision/Assets/Scripts/UGeosphere.cs:225-231 | one more step of the walk extends a ring path |
| RingWalk.RingIsClosedFan | unity-proto-subdivision/Assets/Scripts/UGeosphere.cs:203-242 | a node's ring starts at its first top-level neighbour; all ids are its top-level neighbours, consecutive ids adjacent, no immediate step back, first id not revisited, last id adjacent to the first |
| Geosphere.IcosahedronIsValid | unity-proto-subdivision/Assets/Scripts/UGeosphere.cs:102-134 | the icosahedron is a well-formed level-0 sphere: valid, symmetric adjacency, non-empty top lists, leaves exactly the 20 roots |
| Geosphere.LeafSplitFacts | unity-proto-subdivision/Assets/Scripts/UGeosphere.cs:291-331 | splitting a leaf keeps the tree well formed and the adjacency valid, symmetric, extended and with non-empty top lists, and subdivides that subtree |
| Geosphere.Geosphere.constructor | unity-proto-subdivision/Assets/Scripts/UGeosphere.cs:79-83 | empty sphere with the given seed |
| Geosphere.Geosphere.Clear | unity-proto-subdivision/Assets/Scripts/UGeosphere.cs:85-90 | nodes and tree emptied, level 0 |
| Geosphere.Geosphere.BuildIcosahedron | unity-proto-subdivision/Assets/Scripts/UGeosphere.cs:102-134 | appends the 12 nodes and 20 root triangles, level unchanged; from empty, gives a valid sphere with symmetric adjacency and non-empty top lists whose leaves are the 20 roots |
| Geosphere.Geosphere.Subdivide | unity-proto-subdivision/Assets/Scripts/UGeosphere.cs:136-146 | keeps the sphere valid; the level rises by depth and the leaves multiply by 4^depth; adjacency only grows, stays symmetric and keeps non-empty top lists; depth <= 0 changes nothing |
| Geosphere.Geosphere.SubdividePass | unity-proto-subdivision/Assets/Scripts/UGeosphere.cs:141-144 | level + 1; the leaves are exactly the appended triangles, four times as many |
| Geosphere.Geosphere.SubdivideRoots | unity-proto-subdivision/Assets/Scripts/UGeosphere.cs:141-142 | after xSubdivide on roots 0..19, every leaf is one level deeper and the leaves quadruple |
| Geosphere.Geosphere.SubdivideRoot | unity-proto-subdivision/Assets/Scripts/UGeosphere.cs:142 | xSubdivide on root r extends the pass record to r + 1 |
| Geosphere.Geosphere.SubdivideNode | unity-proto-subdivision/Assets/Scripts/UGeosphere.cs:289-335 | the subtree at i is subdivided: leaves at the level are split, and new leaves sit one level deeper; tree and adjacency stay valid |
| Geosphere.Geosphere.SubdivideLeaf | unity-proto-subdivision/Assets/Scripts/UGeosphere.cs:291-331 | the leaf branch with SubdivideNode's contract |
| Geosphere.Geosphere.SplitLeaf | unity-proto-subdivision/Assets/Scripts/UGeosphere.cs:293-330 | nodes become SplitNodes and the tree gets the four children in the fixed order of lines 327-330 |
| Geosphere.Geosphere.EdgeMidpointNode | unity-proto-subdivision/Assets/Scripts/UGeosphere.cs:297-314 | one edge: the new nodes and midpoint id are MidpointStep's |
| Geosphere.Geosphere.EdgeMidpoints | unity-proto-subdivision/Assets/Scripts/UGeosphere.cs:295-315 | the three edges in order, as MidpointsFrom |
| Geosphere.Geosphere.ConnectRing | unity-proto-subdivision/Assets/Scripts/UGeosphere.cs:317-319 | the midpoints connected in a ring, as RingConnect |
| Geosphere.Geosphere.AddChildren | unity-proto-subdivision/Assets/Scripts/UGeosphere.cs:327-330 | the four children appended in order and filling the leaf's four slots |
| Geosphere.Geosphere.AddNode | unity-proto-subdivision/Assets/Scripts/UGeosphere.cs:355-360 | returns the old node count and appends the node |
| Geosphere.Geosphere.AddTriTreeNode | unity-proto-subdivision/Assets/Scripts/UGeosphere.cs:362-377 | returns the old tree length; the tree becomes AddTri |
| Geosphere.Geosphere.AddNodeAdjacency | unity-proto-subdivision/Assets/Scripts/UGeosphere.cs:379-390 | the node list becomes AddEdge: pad, then append to list level only |
| Geosphere.Geosphere.ConnectNodes | unity-proto-subdivision/Assets/Scripts/UGeosphere.cs:392-396 | both directions recorded, as Connect |
| Geosphere.Geosphere.FindNodesCommonAdjacency | unity-proto-subdivision/Assets/Scripts/UGeosphere.cs:398-407 | the first common neighbour in node1's order, or -1 when there is none or a node has no list at the level |
| Geosphere.Geosphere.Collected | unity-proto-subdivision/Assets/Scripts/UGeosphere.cs:267-287 | the gathered corners are whole triangles of valid node ids |
| Geosphere.Geosphere.CollectedCoversCut | unity-proto-subdivision/Assets/Scripts/UGeosphere.cs:267-287 | the gathered corners are 3 per node on the cut level; gathering the whole sphere with depth -1 gives 3 corners per leaf |
| Geosphere.Geosphere.CollectVertexes | unity-proto-subdivision/Assets/Scripts/UGeosphere.cs:267-287 | the mesh's corners gain exactly Collected, in order; the id list gains exactly those ids and stays sorted |
| Geosphere.Geosphere.CollectBelow | unity-proto-subdivision/Assets/Scripts/UGeosphere.cs:274-286 | the branch for a tri-tree node: the mesh's corners gain exactly Corners below it, in order, and the id list gains exactly those ids |
| Geosphere.Geosphere.CollectRoots | unity-proto-subdivision/Assets/Scripts/UGeosphere.cs:269-273 | the negative-base branch: each root in order |
| Geosphere.Geosphere.CollectCorners | unity-proto-subdivision/Assets/Scripts/UGeosphere.cs:276-279 | the stopping branch: the node's three corners |
| Geosphere.Geosphere.CollectChildren | unity-proto-subdivision/Assets/Scripts/UGeosphere.cs:281-285 | the recursive branch: the four children at depth - 1 |
| Geosphere.Geosphere.GenerateMesh | unity-proto-subdivision/Assets/Scripts/UGeosphere.cs:160-193 | vertices are shared: one per distinct collected node id, in ascending id order, with that node's position and new normal, so there are as many vertices as distinct collected ids; each corner's index names the vertex of the node collected there; every vertex is used; the nodes get BuildNormals' normals |
| Geosphere.Geosphere.IndexesAreCorners | unity-proto-subdivision/Assets/Scripts/UGeosphere.cs:162-176 | the sorted ids the corners point into are exactly the distinct collected ids, as many as there are |
| Geosphere.Geosphere.IndexedCorners | unity-proto-subdivision/Assets/Scripts/UGeosphere.cs:162-164 | sorted valid ids; each output index points at the id collected at that corner; every id is pointed at |
| Geosphere.Geosphere.MeshVertices | unity-proto-subdivision/Assets/Scripts/UGeosphere.cs:172-176 | one position and one normal per listed id, in order |
| Geosphere.Geosphere.BuildNormals | unity-proto-subdivision/Assets/Scripts/UGeosphere.cs:195-256 | every node's normal becomes NormalAfter (the polygon through the node and its ring); nothing else changes |

## Left out

- Floating-point geometry is symbolic:
  - the vertex positions of lines 104-110 and the normalised midpoint sum of line 305;
  - the radius;
  - the Newell-sum arithmetic, normalisation and outward sign flip of BuildNormals (lines 199-201, 215-217, 244-252).

  The model records only which node ids each sum runs over.
- `ApplyPerlinNoise` and the Perlin noise class: float numerics driven by a random source.
- `SubdivideThreaded`, `SubdivisionThread` and the running flag: threading.
- `MeshContainer.MakeMesh` and the MonoBehaviour wrapper: engine glue.
- The `generateUV` parameter and the `uv` list of GenerateMesh: unused by the method.
- The `SubdivisionLevel` and `Seed` getters: they only read fields the model exposes directly.
- The default arguments (`depth = 1`, `region = -1`, `depth = -1`): the model's callers pass them explicitly.
- Geosphere.Geosphere.BuildNormals: takes a fuel bound. The source loop of lines 213-242 runs forever when a walk never gets back to its first id. The model stops after fuel steps and leaves that node's normal unchanged.
- Geosphere.Geosphere.GenerateMesh: passes that fuel bound on to BuildNormals.
- RingWalk.RingIsClosedFan: does not prove that a ring visits every top-level neighbour. That would need the surface topology of the subdivided mesh.
- GeoGraph.SplitNodesProps: bounds the new nodes per split by 3 but does not prove that each edge midpoint is created exactly once over a whole pass (the vertex-count formula). That also needs mesh topology.
- Node ids, list lengths and levels are unbounded integers. The 32-bit `int` of the source cannot overflow at any size the lists can reach, so no wrap-around is modelled.
- The `print` calls and the commented-out blocks of the two scripts: output and dead code.
- IcosahedronPairs.CollectPairs2: works on local copies of `usedtris` and `col`. The source appends to the caller's own list and set in place (lines 88 and 93-94); the recursive call gets deep copies (lines 95-96). The top-level call of line 105 passes fresh values, so only the in-place update of those fresh values is not modelled.
- IcosahedronPairs.CollectPairsRestoring: requires that each candidate names two different triangles and that the caller's list uses only triangles already in the used set. With a pair (x, x), the second restored removal would raise `KeyError`. With the list's triangles used, the pair just appended is its only copy, so `col.remove(pair)` drops the last element, which is what the model does.
- IcosahedronPairs.CollectPairs: requires count >= 2. Below 2 the source recurses until Python raises a `RecursionError`.
- The source's exceptions are not modelled. Each of the methods below has a precondition that excludes the inputs on which the source indexes out of range:
- Geosphere.Geosphere.GenerateMesh: requires `region < |tree|`, because line 276 throws for a region past the tri-tree. It also requires `TopListsOk` and `AdjSymmetric`, because of BuildNormals.
- Geosphere.Geosphere.CollectVertexes: requires `base < |tree|`, for the same reason (line 276).
- Geosphere.Geosphere.Subdivide: requires `Valid()`. Called before `BuildIcosahedron` with `depth >= 1`, the source throws at `xSubdivide(0)` (lines 139-145); with `depth <= 0` it does nothing. `Valid()` also excludes a sphere on which `BuildIcosahedron` ran twice without `Clear`. The source does not throw there: it subdivides roots 0..19 only and leaves the second set of roots (20..39) as they are. The only caller in the repository builds the sphere once (lines 430-431).
- Geosphere.Geosphere.BuildNormals: requires `TopListsOk`. The source throws for a node with no neighbour list or an empty top-level list (lines 203-208). It also requires `AdjSymmetric`. Line 223 reads list `highlev` of every ring neighbour, and such a list exists for each neighbour only when the adjacency is symmetric.
- RingWalk.TraceRing: requires `AdjSymmetric` and a non-empty top-level list at the centre, for the same reasons as BuildNormals (lines 203-208 and 223).
- Geosphere.Geosphere.AddTriTreeNode: requires `parent <= |tree|` and a parent with four child slots. The source throws for a parent past the new node (lines 371-376).
- Geosphere.Geosphere.AddNodeAdjacency: requires `0 <= lev`. The source throws for a negative level (line 386).

## Findings

| source | as written | input that shows it | evidently intended | confidence | as-written member | corrected member |
|---|---|---|---|---|---|---|
| test-subdivision/icosahedron-pairs.py:101-103 | the removals that undo a failed choice are commented out, so the search keeps every pair it appends and is a first-fit scan | the edge-sharing pairs of the 20 root triangles with count 10, as on line 105: the scan takes (1, 0), (3, 2), ..., (11, 10), then every later candidate is blocked and the call returns None | a backtracking search that undoes a failed choice and finds ten disjoint edge-sharing pairs, such as the chart table of UGeosphere.cs lines 340-344 | not executed | IcosahedronPairs.ChartsScript | IcosahedronPairs.ChartsScriptRestoring |
