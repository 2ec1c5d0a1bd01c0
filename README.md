# GIP-ProcGen in Dafny

GIP-ProcGen is a Unity project that generates game levels procedurally. A
level comes from three stages:

1. A **mission graph** gives the order in which the player meets keys, locks
   and exploration rooms.
2. A **layout** places rooms on a plane. It is built either from cells of a
   Voronoi diagram or on a square grid.
3. **Geometry** turns the layout into meshes. Cell outlines are triangulated
   with Triangle.NET, or a voxel grid is rendered as cubes.

This project models the core of those stages in Dafny and proves what each
one guarantees. The source's imperative form is kept throughout: its classes
become Dafny classes whose fields the methods update, and its loops become
`for`/`while` loops with invariants. Where a method's result is fixed by
its inputs and state, it is proved equal to a specification function, and
further lemmas state what the source promises about those functions. Where
it depends on random draws the model leaves open (`CreateRoom`,
`GetAvailableNeighborGridCoord`, `GetRandomMechanicsSet`, `DrawLockNode`,
and the LayoutGeneratorRevamp walk built on them) or on a cached object
(`GetRandom`), its contract states the properties every outcome has.

The modules, one per source unit:

- **Geometry** (`common.dfy`): points, segments and rectangles, with integer
  coordinates. It also holds the sequence facts the generators share:
  `List.Remove`, first-index search, and de-duplication in first-occurrence
  order.
- **Voronoi** and **Helpers** (`voronoi.dfy`): the Voronoi library is foreign
  code. A diagram is the input its constructor receives; every query on it is
  an oracle function of that input. The clockwise sort, the centroid and the
  seeded random pick (`RandomUtil`) are oracle parameters too. The sort must
  return a permutation of its input.
- **MissionGraph** (`graph.dfy`): mission node data and the mission graph.
  The graph holds its node values in insertion order and its undirected
  weighted edges in insertion order.
- **MissionPools** (`mission_pools.dfy`): the three node pools as values. It
  proves the invariant that lets every draw find a node, in particular a lock
  whose key was already placed.
- **MissionGraphGenerator** (`mission_graph_generator.dfy`): the generator
  object. It lays out entrance, key/lock challenges, explorations and goal,
  then drains the pools into one chain of weight-1 edges. Every node is
  chained exactly once, and every key comes before its lock.
- **LayoutUtil** (`layout_util.dfy`): the library operations on a built
  diagram:
  - vertex extraction;
  - the closest-site search and the greedy site path;
  - the square filter;
  - random diagram input;
  - one step of Lloyd relaxation.
- **LayoutGenerator** (`layout_generator.dfy`): the Voronoi room generator.
  It keeps its cached `System.Random`, and models failures as C# would raise
  them: null, or an exception.
- **LayoutRevamp** (`layout_revamp.dfy`): the grid generator. It walks the
  mission graph depth-first, reserves neighbour tiles around each room, and
  shifts every room so that no coordinate is negative.
- **Triangulation** (`triangulator.dfy`): the polygon handed to Triangle.NET,
  and the loop that turns the triangles into a duplicate-free vertex list on
  the ground plane plus an index buffer into it.
- **GeometryGeneration** (`geometry_generator.dfy`): merges the triangulated
  pieces into one mesh and copies the UVs.
- **Voxels** (`voxel_renderer.dfy`): the voxel renderer and its cube table.
  It grows the vertex and index buffers by one cube per filled cell.

## Model

| member | source | states |
|---|---|---|
| Geometry.SqDist | GIP-ProcGen/Assets/Util/LayoutUtil.cs:115 | non-negative and zero exactly for equal points; used in place of `Vector2.Distance`, which orders candidates the same way |
| Geometry.RemoveFirst | GIP-ProcGen/Assets/Generators/MissionGraphGenerator.cs:230 | `List.Remove`: with x present one element fewer and the multiset loses one x; otherwise the list is unchanged |
| Geometry.RemoveFirstDistinct | GIP-ProcGen/Assets/Generators/MissionGraphGenerator.cs:230 | removing from a duplicate-free pool leaves it duplicate-free and keeps exactly the other nodes |
| Geometry.IndexOf | GIP-ProcGen/Assets/Triangle.NET/Triangulator.cs:55-63 | the first position holding x, below the length exactly when x occurs, with no earlier occurrence |
| Geometry.DedupSpec | GIP-ProcGen/Assets/Util/LayoutUtil.cs:36-51 | the `if (!Contains) Add` filter yields a duplicate-free list with exactly the input's points, in first-occurrence order |
| MissionGraph.AddNode | GIP-ProcGen/Assets/Generators/MissionGraphGenerator.cs:94 | `Graph.AddNode`: the node gets the next position, earlier nodes and all edges unchanged |
| MissionGraph.AddUndirectedEdge | GIP-ProcGen/Assets/Generators/MissionGraphGenerator.cs:169 | adds exactly one edge (from, to, cost) at the end, nodes unchanged |
| MissionGraph.Neighbors | GIP-ProcGen/Assets/Generators/LayoutGeneratorRevamp.cs:85 | m is a neighbour of n exactly when some edge joins n and m, in either direction |
| MissionGraph.NeighborsInGraph | GIP-ProcGen/Assets/Generators/LayoutGeneratorRevamp.cs:85-87 | in a graph whose edges join its own nodes, every neighbour is a node of the graph |
| MissionGraph.NeighborsDistinct | GIP-ProcGen/Assets/Generators/LayoutGeneratorRevamp.cs:85 | without loops and parallel edges no node is listed twice among the neighbours of another |
| MissionGraph.SimpleGraph | GIP-ProcGen/Assets/Generators/LayoutGeneratorRevamp.cs:85 | such a graph has a duplicate-free neighbour list at every node |
| MissionGraph.ChainSimple | GIP-ProcGen/Assets/Generators/MissionGraphGenerator.cs:166-171 | the chain GenerateMissionGraph adds through distinct nodes has no loop and no parallel edge |
| MissionGraphGenerator.ChallengePositions | GIP-ProcGen/Assets/Generators/MissionGraphGenerator.cs:121-132 | the key positions 1, 3, .. and lock positions 2, 4, .. of c challenges together are exactly the positions 1 .. 2c |
| MissionGraphGenerator.MissionGraphGenerator.constructor | GIP-ProcGen/Assets/Generators/MissionGraphGenerator.cs:11-28 | inspector defaults: 3 challenges, 3 explorations, at most 1 mechanic; empty pools and placedKeys |
| MissionGraphGenerator.MissionGraphGenerator.GetRandomMechanicsSet | GIP-ProcGen/Assets/Generators/MissionGraphGenerator.cs:139-148 | at least one mechanic, fewer than maxMechanicsPerChallenge unless exactly one, each one of availableMechanics (repeats allowed) |
| MissionGraphGenerator.MissionGraphGenerator.AddEntranceNode | GIP-ProcGen/Assets/Generators/MissionGraphGenerator.cs:91-96 | the entrance node is appended and entranceNode names it |
| MissionGraphGenerator.MissionGraphGenerator.AddGoalNode | GIP-ProcGen/Assets/Generators/MissionGraphGenerator.cs:101-113 | the goal node is appended and goalNode names it |
| MissionGraphGenerator.MissionGraphGenerator.AddChallengeNodes | GIP-ProcGen/Assets/Generators/MissionGraphGenerator.cs:118-133 | after the entrance, nodes 1+2t and 2+2t are Key(t) and Lock(t) for every t < challengeAmount, and the key and lock pools hold them in order |
| MissionGraphGenerator.MissionGraphGenerator.AddChallenge | GIP-ProcGen/Assets/Generators/MissionGraphGenerator.cs:121-132 | one iteration: Key(t) with a valid mechanics set, then Lock(t), appended to the graph and to the key and lock pools |
| MissionGraphGenerator.MissionGraphGenerator.AddExplorationNodes | GIP-ProcGen/Assets/Generators/MissionGraphGenerator.cs:150-158 | explorationAmount exploration nodes follow the challenges in the graph and fill the exploration pool |
| MissionGraphGenerator.MissionGraphGenerator.GetNextNode | GIP-ProcGen/Assets/Generators/MissionGraphGenerator.cs:190-233 | the pool chosen by the priority rule (explorations if more than keys, else keys if at least as many as locks, else locks) loses exactly the drawn node and the others stay; a key's number is recorded; a drawn lock's key is already recorded; the available count drops by one; pool validity is kept |
| MissionGraphGenerator.MissionGraphGenerator.DrawExplorationNode | GIP-ProcGen/Assets/Generators/MissionGraphGenerator.cs:197-201 | a node of the exploration pool is drawn and removed, validity kept |
| MissionGraphGenerator.MissionGraphGenerator.DrawKeyNode | GIP-ProcGen/Assets/Generators/MissionGraphGenerator.cs:203-208 | a key is drawn and removed and its keyNr appended to placedKeys, validity kept |
| MissionGraphGenerator.MissionGraphGenerator.DrawLockNode | GIP-ProcGen/Assets/Generators/MissionGraphGenerator.cs:210-227 | after the shuffle the search always finds a lock whose keyNr is recorded (never null), which is removed from the pool |
| MissionGraphGenerator.MissionGraphGenerator.FirstLockWithPlacedKey | GIP-ProcGen/Assets/Generators/MissionGraphGenerator.cs:219-226 | the first lock in pool order whose keyNr is in placedKeys |
| MissionGraphGenerator.MissionGraphGenerator.ConnectNextNode | GIP-ProcGen/Assets/Generators/MissionGraphGenerator.cs:166-171 | one loop pass: one edge of weight 1 from the current node to the drawn node, one node fewer available |
| MissionGraphGenerator.MissionGraphGenerator.ConnectAllNodes | GIP-ProcGen/Assets/Generators/MissionGraphGenerator.cs:160-175 | the pools are drained; the new edges are exactly the weight-1 chain entrance, drawn nodes.., goal (2C+E+1 edges); every pooled node is drawn exactly once; each Lock(n) follows a Key(n) or a number recorded before |
| MissionGraphGenerator.MissionGraphGenerator.AddMissionNodes | GIP-ProcGen/Assets/Generators/MissionGraphGenerator.cs:37-43 | a fresh graph holds entrance, challenges, explorations and goal at fixed positions, with pools ready to be drained |
| MissionGraphGenerator.MissionGraphGenerator.GenerateMissionGraph | GIP-ProcGen/Assets/Generators/MissionGraphGenerator.cs:35-50 | the graph is the node layout joined into one chain from entrance to goal through every other node exactly once, all pools empty afterwards, keys before locks relative to the placedKeys it started with |
| MissionGraphGenerator.StagedChallenge | GIP-ProcGen/Assets/Generators/MissionGraphGenerator.cs:124-131 | one challenge iteration extends the staged layout by Key(c), Lock(c) |
| MissionGraphGenerator.StagedExploration | GIP-ProcGen/Assets/Generators/MissionGraphGenerator.cs:154-156 | one exploration iteration extends the staged layout by an exploration node |
| MissionGraphGenerator.StagedFinal | GIP-ProcGen/Assets/Generators/MissionGraphGenerator.cs:103-104 | adding the goal completes the mission layout; the pools then hold the positions between entrance and goal |
| MissionGraphGenerator.FreshLayout | GIP-ProcGen/Assets/Generators/MissionGraphGenerator.cs:121-157 | the pools of a mission layout start as many keys as locks, with distinct lock numbers each matched by a pooled key |
| MissionGraphGenerator.PoolPositions | GIP-ProcGen/Assets/Generators/MissionGraphGenerator.cs:121-157 | the three pools together hold exactly the positions 1 .. 2c+e |
| MissionGraphGenerator.ChainAppend | GIP-ProcGen/Assets/Generators/MissionGraphGenerator.cs:169-170 | chaining one more node adds the weight-1 edge from the last node |
| MissionGraphGenerator.ChainedStep | GIP-ProcGen/Assets/Generators/MissionGraphGenerator.cs:166-171 | joining the current node to the next extends the chain by that node |
| MissionGraphGenerator.ChainedGoal | GIP-ProcGen/Assets/Generators/MissionGraphGenerator.cs:173-174 | the final edge to the goal completes the entrance-to-goal chain |
| MissionGraphGenerator.Connected | GIP-ProcGen/Assets/Generators/MissionGraphGenerator.cs:35-46 | connecting the laid-out nodes yields the chain over all of them |
| MissionPools.PlacedKeyNrsMember | GIP-ProcGen/Assets/Generators/MissionGraphGenerator.cs:207 | every recorded key number belongs to a key drawn earlier |
| MissionPools.KeysBeforeLocksAppend | GIP-ProcGen/Assets/Generators/MissionGraphGenerator.cs:219-223 | drawing a lock only when its key number is recorded keeps every lock after its key |
| MissionPools.FirstPlaced | GIP-ProcGen/Assets/Generators/MissionGraphGenerator.cs:219-226 | the search position: the first lock whose number is recorded, none earlier |
| MissionPools.LockWithPlacedKey | GIP-ProcGen/Assets/Generators/MissionGraphGenerator.cs:210-226 | when locks outnumber keys some lock's key number is already recorded, so the search never returns null |
| MissionPools.PlacedKeyNrsAppend | GIP-ProcGen/Assets/Generators/MissionGraphGenerator.cs:207 | drawing a key appends exactly its number to the record; other draws append nothing |
| MissionPools.RemoveKeepsKinds | GIP-ProcGen/Assets/Generators/MissionGraphGenerator.cs:230 | removing the drawn node keeps the rest of the pool, all of the pool's kind |
| MissionPools.RemoveKeyNrs | GIP-ProcGen/Assets/Generators/MissionGraphGenerator.cs:230 | after a removal the pool's key numbers are those it had, all but the drawn node's kept |
| MissionPools.RemoveKeepsKeyNrCount | GIP-ProcGen/Assets/Generators/MissionGraphGenerator.cs:230 | a pool whose nodes carry distinct key numbers still does after a removal |
| MissionPools.ShuffleKeepsPool | GIP-ProcGen/Assets/Generators/MissionGraphGenerator.cs:215-216 | the shuffle keeps the lock pool's nodes, kinds and key numbers |
| MissionPools.DrawExploration | GIP-ProcGen/Assets/Generators/MissionGraphGenerator.cs:197-201 | drawing an exploration keeps the pool invariants |
| MissionPools.DrawKey | GIP-ProcGen/Assets/Generators/MissionGraphGenerator.cs:203-208 | drawing a key with keys >= locks keeps the invariants, including 0 <= locks - keys <= 1 |
| MissionPools.LockAvailable | GIP-ProcGen/Assets/Generators/MissionGraphGenerator.cs:210-226 | with more locks than keys every shuffled order holds a lock whose key is placed |
| MissionPools.DrawLock | GIP-ProcGen/Assets/Generators/MissionGraphGenerator.cs:219-230 | drawing such a lock keeps the pool invariants |
| MissionPools.FreshPoolsOk | GIP-ProcGen/Assets/Generators/MissionGraphGenerator.cs:118-158 | freshly filled pools satisfy the invariants before the first draw |
| MissionPools.RemoveFirstRestores | GIP-ProcGen/Assets/Generators/MissionGraphGenerator.cs:230 | removing the drawn node and adding it back gives the pool's contents |
| MissionPools.DrawnFrom | GIP-ProcGen/Assets/Generators/MissionGraphGenerator.cs:229-230 | one pool loses the drawn node and the union of the pools loses exactly it |
| LayoutUtil.EndpointsMembers | GIP-ProcGen/Assets/Util/LayoutUtil.cs:39-49 | a point is visited exactly when it is an endpoint of some segment |
| LayoutUtil.GetVerticesFromLineSegments | GIP-ProcGen/Assets/Util/LayoutUtil.cs:34-52 | duplicate-free; holds exactly the segment endpoints; in first-occurrence order, p0 before p1 (LayoutGenerator.cs:90-108 is a private copy of the same loop and shares this member) |
| LayoutUtil.EndpointsStep | GIP-ProcGen/Assets/Util/LayoutUtil.cs:41-48 | one more segment adds p0 then p1, each only if absent |
| LayoutUtil.CellVerticesSpec | GIP-ProcGen/Assets/Util/LayoutUtil.cs:18-26 | with a permuting clockwise sort a cell's vertex loop holds each boundary endpoint exactly once |
| LayoutUtil.GetVerticesForSite | GIP-ProcGen/Assets/Util/LayoutUtil.cs:18-26 | the cell's distinct endpoints after the clockwise sort |
| LayoutUtil.GetVerticesForSites | GIP-ProcGen/Assets/Util/LayoutUtil.cs:170-179 | one vertex loop per input site, in input order |
| LayoutUtil.ClosestUnique | GIP-ProcGen/Assets/Util/LayoutUtil.cs:107-125 | the description of the closest site admits exactly one result |
| LayoutUtil.ClosestIsOption | GIP-ProcGen/Assets/Util/LayoutUtil.cs:107-125 | the result is a non-excluded option, or (0,0) when no option is eligible |
| LayoutUtil.GetSiteClosestToTarget | GIP-ProcGen/Assets/Util/LayoutUtil.cs:107-125 | the earliest eligible option with no eligible option closer (ties keep the first), or (0,0) when none is eligible |
| LayoutUtil.GetSitePathToTarget | GIP-ProcGen/Assets/Util/LayoutUtil.cs:136-160 | each step appends the closest neighbour of the last site not yet on the path, taken only while the target is not among its neighbours; Found exactly when the target neighbours the last site, OutOfSteps only after maxSteps steps; Found([]) when the target neighbours start |
| LayoutUtil.RouteEmptyWhenAdjacent | GIP-ProcGen/Assets/Util/LayoutUtil.cs:142-151 | when the target neighbours start, the path is empty |
| LayoutUtil.RouteShape | GIP-ProcGen/Assets/Util/LayoutUtil.cs:144-156 | while a step has an eligible neighbour, each site neighbours the previous one, repeats no earlier site and is not the target |
| LayoutUtil.SitesInSquareMembers | GIP-ProcGen/Assets/Util/LayoutUtil.cs:193-197 | the window keeps exactly the sites with both coordinates within w of start |
| LayoutUtil.SitesInSquareAppend | GIP-ProcGen/Assets/Util/LayoutUtil.cs:193-197 | filtering commutes with concatenation, so the result keeps site order |
| LayoutUtil.SitesInSquareHasStart | GIP-ProcGen/Assets/Util/LayoutUtil.cs:195 | start is kept whenever it is a site and w >= 0 |
| LayoutUtil.GetSitesInSquare | GIP-ProcGen/Assets/Util/LayoutUtil.cs:189-200 | exactly the sites inside the square window, in site order |
| LayoutUtil.GenerateVoronoiObject | GIP-ProcGen/Assets/Util/LayoutUtil.cs:58-73 | raises exactly when pointCount > 0 and width or height is negative (`Random.Next(0, hi)` throws for hi < 0); otherwise pointCount sites (none if not positive) and as many colours 0, each site in [0,width) x [0,height), bounds (0,0,width,height) |
| LayoutUtil.Relaxed | GIP-ProcGen/Assets/Util/LayoutUtil.cs:79-96 | one relaxed site per input site |
| LayoutUtil.RelaxVoronoi | GIP-ProcGen/Assets/Util/LayoutUtil.cs:79-96 | one centroid per input site, in order, with the input's colours and bounds |
| LayoutGenerator.NatToString | GIP-ProcGen/Assets/Generators/LayoutGenerator.cs:37 | the decimal digits C# appends for `randomSeed + i`: non-empty, digits only |
| LayoutGenerator.RoomPiecesShape | GIP-ProcGen/Assets/Generators/LayoutGenerator.cs:56-72 | exactly size pieces: piece 0 from the origin's cell, piece k from neighborSites[k-1] |
| LayoutGenerator.RoomPiecesDistinct | GIP-ProcGen/Assets/Generators/LayoutGenerator.cs:61-79 | with a permuting sort every piece lists its cell's vertices once; pieces are not merged |
| LayoutGenerator.RoomOutcomeShape | GIP-ProcGen/Assets/Generators/LayoutGenerator.cs:50-81 | a room is returned only for size >= 1, a non-empty site list and at least size-1 neighbours, and then it is the origin cell plus its neighbours' cells |
| LayoutGenerator.SingleCellRoom | GIP-ProcGen/Assets/Generators/LayoutGenerator.cs:52-68 | a size-1 room is the origin cell alone |
| LayoutGenerator.RoomLength | GIP-ProcGen/Assets/Generators/LayoutGenerator.cs:50-81 | a returned room has exactly size pieces |
| LayoutGenerator.Rng.constructor | GIP-ProcGen/Assets/Generators/LayoutGenerator.cs:117 | the generator keeps its seed |
| LayoutGenerator.Rng.Next | GIP-ProcGen/Assets/Generators/LayoutGenerator.cs:134-135 | `Next(lo, hi)` throws exactly when hi < lo; otherwise lo when the bounds are equal, else a value in [lo, hi) |
| LayoutGenerator.LayoutOutcomeLength | GIP-ProcGen/Assets/Generators/LayoutGenerator.cs:35-38 | when every room succeeds the layout has roomCount x roomSize pieces |
| LayoutGenerator.LayoutOutcomePrefix | GIP-ProcGen/Assets/Generators/LayoutGenerator.cs:35-38 | a successful layout starts with the layout of its first i rooms |
| LayoutGenerator.LayoutOutcomeRoom | GIP-ProcGen/Assets/Generators/LayoutGenerator.cs:35-38 | room i, seeded randomSeed + i, occupies pieces [i x roomSize, (i+1) x roomSize) |
| LayoutGenerator.LayoutOutcomeSticky | GIP-ProcGen/Assets/Generators/LayoutGenerator.cs:35-38 | the first failing room decides the outcome of every longer layout |
| LayoutGenerator.LayoutGenerator.constructor | GIP-ProcGen/Assets/Generators/LayoutGenerator.cs:10-23 | serialized defaults: seed "lelele", 150 points, 1000 x 1000, no cached generator |
| LayoutGenerator.LayoutGenerator.GetRandom | GIP-ProcGen/Assets/Generators/LayoutGenerator.cs:114-119 | created on the first call with randomSeed; every later call returns the same instance |
| LayoutGenerator.LayoutGenerator.GenerateVoronoiObject | GIP-ProcGen/Assets/Generators/LayoutGenerator.cs:125-140 | ArgumentOutOfRange exactly when pointCount > 0 and width or height is negative; otherwise pointCount sites in [0,width) x [0,height), colour 0 each, bounds (0,0,width,height); the draws come from the cached generator, or from one created with randomSeed at the first draw |
| LayoutGenerator.LayoutGenerator.GenerateRoom | GIP-ProcGen/Assets/Generators/LayoutGenerator.cs:50-82 | null exactly when size < 1; otherwise the room outcome, including the index exception |
| LayoutGenerator.LayoutGenerator.SortEach | GIP-ProcGen/Assets/Generators/LayoutGenerator.cs:75-79 | every piece sorted clockwise, in order |
| LayoutGenerator.LayoutGenerator.AddRooms | GIP-ProcGen/Assets/Generators/LayoutGenerator.cs:35-38 | rooms seeded randomSeed + 0, + 1, .. appended in order, or the first exception (AddRange(null) included) |
| LayoutGenerator.LayoutGenerator.GenerateLayout | GIP-ProcGen/Assets/Generators/LayoutGenerator.cs:30-42 | with pointCount > 0 and a negative width or height, ArgumentOutOfRange before any room, cached diagram and layout untouched; otherwise the new diagram has pointCount sites in [0,width) x [0,height), colour 0 each, bounds (0,0,width,height), the result is the rooms seeded randomSeed + i over it, and the cached layout changes only when no exception is raised; the generator is the cached one, or a fresh one seeded with randomSeed |
| LayoutRevamp.PointBoundaries | GIP-ProcGen/Assets/Generators/LayoutGeneratorRevamp.cs:167-174 | the tile of c starts at c x gridSize and spans exactly gridSize on each axis |
| LayoutRevamp.Lowest | GIP-ProcGen/Assets/Generators/LayoutGeneratorRevamp.cs:193-206 | the running minimum starting at 0: at most 0, at most every value, and 0 or one of the values |
| LayoutRevamp.LowestStep | GIP-ProcGen/Assets/Generators/LayoutGeneratorRevamp.cs:197-206 | one more room lowers the minimum exactly when its coordinate is below it |
| LayoutRevamp.ShiftedStep | GIP-ProcGen/Assets/Generators/LayoutGeneratorRevamp.cs:213-231 | one more room appends its shifted copy |
| LayoutRevamp.NormalizedIsShift | GIP-ProcGen/Assets/Generators/LayoutGeneratorRevamp.cs:190-235 | the early return is only a shortcut: the result is always every room moved by the minima |
| LayoutRevamp.NormalizedShape | GIP-ProcGen/Assets/Generators/LayoutGeneratorRevamp.cs:213-231 | same number of rooms in the same order, mission node and site count kept |
| LayoutRevamp.NormalizedIdentity | GIP-ProcGen/Assets/Generators/LayoutGeneratorRevamp.cs:208-210 | with no negative grid coordinate the input is returned unchanged |
| LayoutRevamp.NormalizedNonNegative | GIP-ProcGen/Assets/Generators/LayoutGeneratorRevamp.cs:196-224 | after normalising, no grid or site coordinate is negative and every site stays in its room's tile |
| LayoutRevamp.ShiftRoomPlaced | GIP-ProcGen/Assets/Generators/LayoutGeneratorRevamp.cs:218-224 | moving a room and its sites by at most its own grid coordinates keeps the sites in the tile, all non-negative |
| LayoutRevamp.ShiftInTile | GIP-ProcGen/Assets/Generators/LayoutGeneratorRevamp.cs:223 | moving a site and its tile together keeps it in the tile; a non-negative tile holds non-negative sites |
| LayoutRevamp.NormalizedWalk | GIP-ProcGen/Assets/Generators/LayoutGeneratorRevamp.cs:48-52 | the normalised rooms of a finished walk still carry the explored nodes in order, with no negative coordinate; while no fallback was taken no two of them share a tile |
| LayoutRevamp.ReserveKeepsState | GIP-ProcGen/Assets/Generators/LayoutGeneratorRevamp.cs:90-91 | reserving more tiles, each waiting for a room, keeps the walk's state |
| LayoutRevamp.VisitKeepsState | GIP-ProcGen/Assets/Generators/LayoutGeneratorRevamp.cs:70-81 | visiting a node on a tile that waits for a room (or is not reserved at all) keeps the walk's state, and that tile is taken |
| LayoutRevamp.AddAbsentTile | GIP-ProcGen/Assets/Generators/LayoutGeneratorRevamp.cs:80-81 | the tile is reserved afterwards, earlier tiles kept, no duplicate introduced |
| LayoutRevamp.LayoutGeneratorRevamp.constructor | GIP-ProcGen/Assets/Generators/LayoutGeneratorRevamp.cs:18-25 | tile size in [10, 50]; empty explored lists, rooms and layout |
| LayoutRevamp.LayoutGeneratorRevamp.CreateRoom | GIP-ProcGen/Assets/Generators/LayoutGeneratorRevamp.cs:111-135 | the given grid coordinate, no mission node yet, pointsPerTile sites (none if not positive) each in the half-open tile |
| LayoutRevamp.LayoutGeneratorRevamp.GetAvailableNeighborGridCoord | GIP-ProcGen/Assets/Generators/LayoutGeneratorRevamp.cs:142-165 | one of the eight tiles around startCoord not yet taken, or (0,0) exactly when none is free |
| LayoutRevamp.LayoutGeneratorRevamp.ReserveNeighbors | GIP-ProcGen/Assets/Generators/LayoutGeneratorRevamp.cs:84-96 | every unexplored neighbour gets one entry and a reserved tile (explored ones none), entries distinct; each new tile waits for a room; tiles around gridCoord and pairwise distinct while no fallback was taken; Dictionary.Add throws exactly when some unexplored node is listed twice among the neighbours |
| LayoutRevamp.LayoutGeneratorRevamp.VisitNode | GIP-ProcGen/Assets/Generators/LayoutGeneratorRevamp.cs:70-81 | the node is explored, gets a room on gridCoord with its sites in the tile, gridCoord is reserved and is taken by this room |
| LayoutRevamp.LayoutGeneratorRevamp.VisitAndReserve | GIP-ProcGen/Assets/Generators/LayoutGeneratorRevamp.cs:70-96 | startNode explored with a room on gridCoord; its tile taken and the new entries' tiles waiting; every neighbour explored or an entry; throws exactly on a repeated unexplored neighbour, so never when neighbour lists are duplicate-free; on a tree the entries are children of startNode with unexplored subtrees |
| LayoutRevamp.LayoutGeneratorRevamp.GenerateRoomFromMissionNode | GIP-ProcGen/Assets/Generators/LayoutGeneratorRevamp.cs:67-103 | startNode is explored next with a room on gridCoord; the lists only grow; no exception when every neighbour list is duplicate-free; without one, every node explored from here has all its neighbours explored, and exactly the tile gridCoord stops waiting; on a tree the walk explores only the subtree of startNode, no node twice; terminates |
| LayoutRevamp.LayoutGeneratorRevamp.ExploreEntries | GIP-ProcGen/Assets/Generators/LayoutGeneratorRevamp.cs:98-102 | no exception when every neighbour list is duplicate-free; without one, every entry is explored, in insertion order, each taking its waiting tile, and the nodes explored meanwhile are closed; on a tree the entries' walks stay under s, no node twice |
| LayoutRevamp.LayoutGeneratorRevamp.NormalizeRooms | GIP-ProcGen/Assets/Generators/LayoutGeneratorRevamp.cs:190-235 | the normalised rooms: the input itself when no coordinate is negative, else every room shifted by the minima |
| LayoutRevamp.LayoutGeneratorRevamp.AdjustRoom | GIP-ProcGen/Assets/Generators/LayoutGeneratorRevamp.cs:215-230 | room moved by (-lx, -ly) tiles and its sites by (-lx, -ly) x gridSize, mission node kept |
| LayoutRevamp.LayoutGeneratorRevamp.GenerateLayout | GIP-ProcGen/Assets/Generators/LayoutGeneratorRevamp.cs:39-60 | returns the empty layout; node 0 is explored first; one room per explored entry carrying its node; no exception when every neighbour list is duplicate-free, and without one every neighbour of an explored node is explored and no coordinate is negative; while no fallback was taken the reserved tiles are distinct and no two rooms share a tile; on a tree no node is explored twice |
| LayoutRevamp.LayoutGeneratorRevamp.ReserveNeighbor | GIP-ProcGen/Assets/Generators/LayoutGeneratorRevamp.cs:87-94 | one neighbour: an explored one is skipped, an unexplored one gets a tile and an entry, or makes Add throw when it already has an entry; the loop's state is kept on either path |
| LayoutRevamp.LoopReserve | GIP-ProcGen/Assets/Generators/LayoutGeneratorRevamp.cs:87-94 | an unexplored neighbour without an entry keeps the loop's state, with its tile pending |
| LayoutRevamp.LoopThrow | GIP-ProcGen/Assets/Generators/LayoutGeneratorRevamp.cs:90-94 | when Add throws, the tiles so far are pending and distinct while no fallback was taken, and some unexplored node is listed twice |
| LayoutRevamp.LoopSkip | GIP-ProcGen/Assets/Generators/LayoutGeneratorRevamp.cs:87 | an explored neighbour keeps the loop's state |
| LayoutRevamp.LoopDone | GIP-ProcGen/Assets/Generators/LayoutGeneratorRevamp.cs:85-96 | after the last neighbour: every neighbour explored or with an entry, new tiles pending, no unexplored node repeated |
| LayoutRevamp.ReserveStep | GIP-ProcGen/Assets/Generators/LayoutGeneratorRevamp.cs:87-94 | an unexplored neighbour without an entry gets the tile just chosen |
| LayoutRevamp.ReserveThrow | GIP-ProcGen/Assets/Generators/LayoutGeneratorRevamp.cs:90-94 | when Add throws the tile is already reserved and no duplicate was introduced |
| LayoutRevamp.SkipStep | GIP-ProcGen/Assets/Generators/LayoutGeneratorRevamp.cs:87 | an explored neighbour gets no entry |
| LayoutRevamp.ReservedAll | GIP-ProcGen/Assets/Generators/LayoutGeneratorRevamp.cs:85-96 | after the loop every neighbour is explored or has an entry, entry tiles distinct while no fallback |
| LayoutRevamp.OnceSkip | GIP-ProcGen/Assets/Generators/LayoutGeneratorRevamp.cs:87 | an explored neighbour adds no repetition and no entry |
| LayoutRevamp.OnceStep | GIP-ProcGen/Assets/Generators/LayoutGeneratorRevamp.cs:87-94 | an unexplored neighbour without an entry is not listed earlier, and its entry is among the neighbours seen so far |
| LayoutRevamp.OnceBroken | GIP-ProcGen/Assets/Generators/LayoutGeneratorRevamp.cs:94 | when Add finds the neighbour already in nextNodes, that unexplored node is listed twice |
| LayoutRevamp.SimpleOnce | GIP-ProcGen/Assets/Generators/LayoutGeneratorRevamp.cs:85-94 | a duplicate-free neighbour list repeats no unexplored node, so Add never throws |
| LayoutRevamp.ClosedExtend | GIP-ProcGen/Assets/Generators/LayoutGeneratorRevamp.cs:99-102 | exploring more keeps already closed positions closed |
| LayoutRevamp.ClosedStart | GIP-ProcGen/Assets/Generators/LayoutGeneratorRevamp.cs:84-102 | once all entries are explored, all neighbours of startNode are |
| LayoutRevamp.ReachableExplored | GIP-ProcGen/Assets/Generators/LayoutGeneratorRevamp.cs:62-67 | every node reachable from node 0 is explored, so it gets a room |
| LayoutRevamp.WalkRoomsDistinct | GIP-ProcGen/Assets/Generators/LayoutGeneratorRevamp.cs:74-94 | while no fallback was taken no two rooms of the walk share a tile: each room takes a reserved tile no other room has taken |
| LayoutRevamp.NormalizedDistinct | GIP-ProcGen/Assets/Generators/LayoutGeneratorRevamp.cs:213-231 | normalising moves every room by one offset, so rooms on distinct tiles stay on distinct tiles |
| LayoutRevamp.OneRoomPerNode | GIP-ProcGen/Assets/Generators/LayoutGeneratorRevamp.cs:48-103 | when the explored nodes are distinct and each has all its neighbours explored, every node reachable from an explored node has exactly one room |
| LayoutRevamp.PendingNext | GIP-ProcGen/Assets/Generators/LayoutGeneratorRevamp.cs:99-101 | the tile reserved for entry k still waits for its room when entry k is explored |
| LayoutRevamp.PendingTaken | GIP-ProcGen/Assets/Generators/LayoutGeneratorRevamp.cs:99-101 | entry k's walk takes its tile, one more reserved tile off the waiting ones |
| LayoutRevamp.ExploringNext | GIP-ProcGen/Assets/Generators/LayoutGeneratorRevamp.cs:99-101 | entry k may be explored: its tile is waiting, and on a tree its subtree is unexplored |
| LayoutRevamp.ExploringStep | GIP-ProcGen/Assets/Generators/LayoutGeneratorRevamp.cs:99-101 | entry k's walk keeps the loop's state: entries up to k explored and their tiles taken, new nodes closed, on a tree still under s |
| LayoutRevamp.ExploringDone | GIP-ProcGen/Assets/Generators/LayoutGeneratorRevamp.cs:99-102 | after the last entry every entry is explored, the new nodes are closed and every entry's tile has been taken |
| LayoutRevamp.SiblingsDisjoint | GIP-ProcGen/Assets/Generators/LayoutGeneratorRevamp.cs:85-102 | two nodes on one level of a tree have disjoint subtrees, so the walks of two entries never meet |
| LayoutRevamp.TreeVisit | GIP-ProcGen/Assets/Generators/LayoutGeneratorRevamp.cs:70-71 | on a tree, exploring a node of an unexplored subtree keeps the explored nodes distinct |
| LayoutRevamp.TreeEntries | GIP-ProcGen/Assets/Generators/LayoutGeneratorRevamp.cs:84-96 | on a tree the entries reserved for s are children of s whose subtrees hold no explored node |
| LayoutRevamp.TreeExploreStep | GIP-ProcGen/Assets/Generators/LayoutGeneratorRevamp.cs:99-102 | on a tree, after entry k's walk the later entries are still fresh and every new node lies under s |
| LayoutRevamp.ChainIsTree | GIP-ProcGen/Assets/Generators/MissionGraphGenerator.cs:160-175 | a chain through every node once from node 0 is a tree, each node's parent the one before it |
| LayoutRevamp.MissionGraphIsTree | GIP-ProcGen/Assets/Generators/MissionGraphGenerator.cs:35-46 | the graph GenerateMissionGraph builds (entrance 0, every pooled node once, the goal last) is a tree |
| LayoutRevamp.MissionPath | GIP-ProcGen/Assets/Generators/MissionGraphGenerator.cs:160-175 | the chain visits every node exactly once, the entrance first |
| LayoutRevamp.MissionGraphSimple | GIP-ProcGen/Assets/Generators/MissionGraphGenerator.cs:35-46 | no node of such a graph lists a neighbour twice, so the grid walk over it raises no exception |
| LayoutRevamp.MissionLayoutRooms | GIP-ProcGen/Assets/Generators/LayoutGeneratorRevamp.cs:39-103 | with what GenerateLayout ensures on such a graph, every mission node has exactly one room |
| Triangulation.Ring | GIP-ProcGen/Assets/Triangle.NET/Triangulator.cs:23-33 | exactly one segment per point, segment i from point i to point (i+1) mod n, closing the loop |
| Triangulation.Holes | GIP-ProcGen/Assets/Triangle.NET/Triangulator.cs:36-44 | one hole contour per hole, same vertices in the same order |
| Triangulation.Visits | GIP-ProcGen/Assets/Triangle.NET/Triangulator.cs:50-52 | three visited corners per triangle, vertex 2, 1, 0 |
| Triangulation.Grounded | GIP-ProcGen/Assets/Triangle.NET/Triangulator.cs:67 | each point becomes (x, 0, y) |
| Triangulation.IndexBuffer | GIP-ProcGen/Assets/Triangle.NET/Triangulator.cs:50-71 | entry m is the position of the m-th visited corner among the distinct corners |
| Triangulation.Triangulate | GIP-ProcGen/Assets/Triangle.NET/Triangulator.cs:16-74 | returns true; the vertex list is the distinct visited corners on the ground plane; the index buffer maps each visited corner to its vertex |
| Triangulation.BuildPolygon | GIP-ProcGen/Assets/Triangle.NET/Triangulator.cs:18-44 | the polygon holds the points, the closing ring of segments and the holes |
| Triangulation.IndexTriangles | GIP-ProcGen/Assets/Triangle.NET/Triangulator.cs:50-71 | the buffers after visiting every corner of every triangle in order |
| Triangulation.AddCorner | GIP-ProcGen/Assets/Triangle.NET/Triangulator.cs:54-69 | a known position gets its first vertex's index, a new position a new last vertex |
| Triangulation.CornerPrefix | GIP-ProcGen/Assets/Triangle.NET/Triangulator.cs:52 | the corner loop visits vertex 2, then 1, then 0 |
| Triangulation.VisitsStep | GIP-ProcGen/Assets/Triangle.NET/Triangulator.cs:50-52 | one more triangle adds its three corners |
| Triangulation.FirstMatch | GIP-ProcGen/Assets/Triangle.NET/Triangulator.cs:55-62 | the search stops at the first vertex with the corner's position |
| Triangulation.CornerAppend | GIP-ProcGen/Assets/Triangle.NET/Triangulator.cs:54-69 | one more corner adds its position if new, and appends the index of its first vertex |
| Triangulation.IndexBufferSound | GIP-ProcGen/Assets/Triangle.NET/Triangulator.cs:50-71 | 3 indices per triangle; each index names a vertex with its corner's (x, z) (round trip), the first such; no two vertices share (x, z); all vertices lie at y = 0 on a visited corner |
| GeometryGeneration.Pieces | GIP-ProcGen/Assets/Generators/GeometryGenerator.cs:33-39 | one triangulated piece per outline, in order |
| GeometryGeneration.Shift | GIP-ProcGen/Assets/Generators/GeometryGenerator.cs:42-46 | every index raised by the offset |
| GeometryGeneration.UVs | GIP-ProcGen/Assets/Generators/GeometryGenerator.cs:65-69 | one UV per vertex, (x, y) of that vertex |
| GeometryGeneration.GenerateMesh | GIP-ProcGen/Assets/Generators/GeometryGenerator.cs:15-71 | the pieces' vertices concatenated in order and their indices shifted by the vertex count before them; one UV per vertex |
| GeometryGeneration.ShiftIndices | GIP-ProcGen/Assets/Generators/GeometryGenerator.cs:42-46 | each index plus vertexCount |
| GeometryGeneration.GenerateMeshFromPoints | GIP-ProcGen/Assets/Generators/GeometryGenerator.cs:77-111 | the single outline's triangulation, with one UV per vertex |
| GeometryGeneration.MakeUVs | GIP-ProcGen/Assets/Generators/GeometryGenerator.cs:105-110 | a fresh array with uv[i] = (v[i].x, v[i].y) |
| GeometryGeneration.MergeStep | GIP-ProcGen/Assets/Generators/GeometryGenerator.cs:47-51 | one more piece extends the vertices by its own and the indices by its own shifted by the count so far |
| GeometryGeneration.MergedCounts | GIP-ProcGen/Assets/Generators/GeometryGenerator.cs:42-51 | the merged mesh has as many vertices and indices as the pieces together |
| GeometryGeneration.MergedInRange | GIP-ProcGen/Assets/Generators/GeometryGenerator.cs:42-51 | when every piece's indices name its own vertices, every merged index names a merged vertex |
| GeometryGeneration.MeshInRange | GIP-ProcGen/Assets/Generators/GeometryGenerator.cs:33-52 | the merged mesh has no dangling index |
| GeometryGeneration.FlatUVs | GIP-ProcGen/Assets/Generators/GeometryGenerator.cs:65-69 | every UV has v = 0, since the triangulated vertices lie at y = 0 |
| GeometryGeneration.MergedFlat | GIP-ProcGen/Assets/Generators/GeometryGenerator.cs:51 | concatenating ground-plane pieces stays on the ground plane |
| Voxels.FaceVertices | GIP-ProcGen/Assets/Tutorials/VoxelRenderer.cs:63 | `CubeMeshData.FaceVertices`: four vertices, the face's cube corners scaled and moved |
| Voxels.CubeFaces | GIP-ProcGen/Assets/Tutorials/VoxelRenderer.cs:53-59 | faces 0 .. n-1 give 4n vertices |
| Voxels.CubeQuads | GIP-ProcGen/Assets/Tutorials/VoxelRenderer.cs:53-59 | faces 0 .. n-1 give 6n indices |
| Voxels.MeshVertices | GIP-ProcGen/Assets/Tutorials/VoxelRenderer.cs:28-43 | 24 vertices per filled cell |
| Voxels.MeshIndices | GIP-ProcGen/Assets/Tutorials/VoxelRenderer.cs:28-43 | 36 indices per filled cell |
| Voxels.VoxelRenderer.constructor | GIP-ProcGen/Assets/Tutorials/VoxelRenderer.cs:12-20 | adjustedScale is half of scale |
| Voxels.VoxelRenderer.GenerateVoxelMesh | GIP-ProcGen/Assets/Tutorials/VoxelRenderer.cs:28-43 | the buffers are reset and then hold one cube per non-zero cell, z-major then x |
| Voxels.VoxelRenderer.GenerateRow | GIP-ProcGen/Assets/Tutorials/VoxelRenderer.cs:35-41 | one row appends the cubes of its non-zero cells |
| Voxels.VoxelRenderer.GenerateCell | GIP-ProcGen/Assets/Tutorials/VoxelRenderer.cs:37-40 | a zero cell is skipped; any other gets a cube |
| Voxels.VoxelRenderer.MakeCube | GIP-ProcGen/Assets/Tutorials/VoxelRenderer.cs:53-59 | faces 0 .. 5: 24 vertices and 36 indices appended |
| Voxels.VoxelRenderer.MakeFace | GIP-ProcGen/Assets/Tutorials/VoxelRenderer.cs:61-73 | four vertices, then indices vCount-4, -3, -2, -4, -2, -1 over them |
| Voxels.MeshStep | GIP-ProcGen/Assets/Tutorials/VoxelRenderer.cs:40 | one more filled cell appends one cube to both buffers |
| Voxels.RowStep | GIP-ProcGen/Assets/Tutorials/VoxelRenderer.cs:35-38 | one more column adds its cell exactly when non-zero |
| Voxels.QuadRange | GIP-ProcGen/Assets/Tutorials/VoxelRenderer.cs:66-72 | the six face indices lie in [vCount-4, vCount) and use all four new vertices |
| Voxels.FaceOnSide | GIP-ProcGen/Assets/Tutorials/VoxelRenderer.cs:63 | the four vertices of face dir lie on that side of the cube |
| Voxels.CubeQuadsRange | GIP-ProcGen/Assets/Tutorials/VoxelRenderer.cs:55-58 | a cube's indices name only its own vertices |
| Voxels.MeshBlocks | GIP-ProcGen/Assets/Tutorials/VoxelRenderer.cs:28-43 | cube k's 36 indices are the six quads over vertices 24k .. 24k+23 |
| Voxels.MeshIndicesRange | GIP-ProcGen/Assets/Tutorials/VoxelRenderer.cs:61-73 | every index is below the vertex count |
| Voxels.RowCellsMembers | GIP-ProcGen/Assets/Tutorials/VoxelRenderer.cs:35-38 | a row yields exactly its non-zero cells |
| Voxels.GridCellsMembers | GIP-ProcGen/Assets/Tutorials/VoxelRenderer.cs:33-38 | the grid yields exactly its non-zero cells |
| Voxels.VoxelMeshSound | GIP-ProcGen/Assets/Tutorials/VoxelRenderer.cs:28-43 | 24 vertices and 36 indices per filled cell, every index below the vertex count, cubes exactly at the filled cells |

## Left out

- Printing the mission graph (`PrintMissionGraph`, MissionGraphGenerator.cs:53-86): it only writes debug text to the Unity console.
- The radius filter (`GetSitesInRadius`, LayoutUtil.cs:202-213): it relies on `VectorUtil.WithinRange`, and VectorUtil is not part of this model.
- The Voronoi library (Delaunay namespace) is not modelled; its queries are oracle functions of the constructor input.
  - Triangle.NET's mesher is an oracle function from polygon to triangles.
  - `SortClockwise` is an oracle sort, required to permute its input.
  - `FindOrigin` (the cell centroid used by relaxation) is an oracle.
  - `RandomUtil.RandomElement` is an oracle index choice.
- Unseeded randomness is left open:
  - `Random.Range` and `System.Random.Next` draws are arbitrary values in range (`:|`);
  - `List.Shuffle` is an arbitrary permutation.
  Distributions and seeds are therefore not modelled.
- Unity floats:
  - Layout, triangulation and UV coordinates are integers, so point equality is exact.
  - `Vector2.Distance` is replaced by the squared distance, which orders candidates the same way.
  - The voxel renderer works on exact reals.
  - No rounding is modelled.
- Unity glue is not modelled:
  - `GameObject`, `Mesh`, `MeshFilter`, `MeshRenderer`, `MeshCollider`;
  - `RecalculateNormals`, `VoxelRenderer.UpdateMesh` (VoxelRenderer.cs:45-51) and `Awake`/`Start` wiring;
  - `Debug` output, gizmos, `DebugRoom` and mission marker placement.
  In GeometryGenerator the mesh is its vertex list, index list and UV array. The round trip through `mesh.vertices` before the UV loop is modelled as using the merged vertex list directly.
- `VoxelData` is not part of this model. It is modelled as a width, a depth and a cell function.
- These are outside the modelled core:
  - LevelGenerator and TriangulatorTest;
  - the other LayoutGenerator.cs (under "Layout Generation") and PointGenerator;
  - the other GeometryGenerator.cs (under "Geometry Generation");
  - ProceduralGrid.
  Of CubeMeshData, only its two vertex tables are modelled, inside `Voxels.FaceVertices`.
- Inspector settings:
  - MissionGraphGenerator's counts are `const` fields holding the serialized defaults: 3 challenges, 3 explorations, at most 1 mechanic. Its mechanics list is a constructor parameter.
  - LayoutGenerator's seed, point count, width and height are `var` fields that the constructor sets to the serialized defaults ("lelele", 150, 1000 x 1000). Nothing in the model assigns them afterwards.
  - LayoutGeneratorRevamp's `gridSize` (within its inspector range 10..50) and `sitesPerGridTile`, and VoxelRenderer's `scale`, are constructor parameters. The model covers every value a designer may choose, not only the defaults 50, 0 and 1.
  - Changing a setting between calls is not modelled, except through those constructor parameters.
- Only the proof needs these methods; each is one loop or one loop body of the source method it is cited under: `AddMissionNodes`, `AddChallenge`, `ConnectNextNode`, `DrawExplorationNode`, `DrawKeyNode`, `DrawLockNode`, `FirstLockWithPlacedKey`, `SortEach`, `AddRooms`, `VisitNode`, `ReserveNeighbors`, `ReserveNeighbor`, `ExploreEntries`, `AdjustRoom`, `BuildPolygon`, `IndexTriangles`, `AddCorner`, `ShiftIndices`, `MakeUVs`, `GenerateRow`, `GenerateCell`.
- GeometryGeneration.GenerateMeshFromPoints is the `GenerateMesh(List<Vector2>)` overload; Dafny has no overloading, so it has its own name.
- MissionGraphGenerator.MissionGraphGenerator.GetRandomMechanicsSet: requires a non-empty `availableMechanics` and `maxMechanicsPerChallenge >= 1`, the inspector's `[Range(1, 4)]`. `RandomUtil.RandomElement` on an empty array fails, and that error path is not modelled.
- MissionGraphGenerator.MissionGraphGenerator.AddChallengeNodes: its contract holds only when it runs from the state GenerateMissionGraph calls it in (a graph holding just the entrance, empty pools). It says nothing about other call states.
- MissionGraphGenerator.MissionGraphGenerator.AddExplorationNodes: its contract, too, is stated only for the state GenerateMissionGraph calls it in.
- MissionGraphGenerator.MissionGraphGenerator.GenerateMissionGraph: `placedKeys` is never cleared, so a second run may place Lock(n) before Key(n). The model keeps this. Key-before-lock is proved relative to the keys recorded before the run, and it is strict only when that record starts empty.
- LayoutUtil.GetSitePathToTarget: the source loop has no bound and runs forever when no path exists. The model adds a `maxSteps` budget, and `OutOfSteps` is what it returns when the budget is spent.
- LayoutRevamp.LayoutGeneratorRevamp.GenerateLayout: it requires a graph with at least one node, because the source reads `Nodes[0]` unguarded.
  - "One room per node" is proved for the graphs GenerateMissionGraph builds. Those graphs are trees (MissionGraphIsTree), so no node is explored twice. No neighbour list there repeats a node (MissionGraphSimple), so no exception is raised and the walk is closed. MissionLayoutRooms combines these facts. In a graph with a cycle a node can be reached through two reserved entries and explored twice; the model keeps that behaviour.
  - Rooms are proved to lie on distinct tiles only while the (0,0) fallback of GetAvailableNeighborGridCoord was never taken. The fallback tile can already hold a room.
- LayoutRevamp.LayoutGeneratorRevamp.ReserveNeighbors: reserved tiles are proved pairwise distinct, and around the room, only while no (0,0) fallback was taken. The fallback tile can collide with a reserved one.
- A mission node is identified by its position in the graph. MissionNodeData has no equality of its own, so `Contains` and `FindByValue` compare references.
