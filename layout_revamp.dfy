/** LayoutGeneratorRevamp: places the rooms of a mission graph on a square
    grid. A depth-first walk from node 0 gives every visited node a room on a
    grid tile; before descending, each unexplored neighbour gets a free tile
    of the 8-neighbourhood reserved for it. Afterwards all rooms are shifted so
    that no grid coordinate is negative. Grid coordinates are whole numbers
    (the walk starts at (0,0) and moves by -1, 0 or +1), so they are integer
    points here. */
module LayoutRevamp {
  import opened Geometry
  import opened Helpers
  import opened MissionGraph
  import MissionGraphGenerator

  /** The missionNodeData of a room CreateRoom has just made (null). */
  const NoNode: int := -1

  /** LayoutGeneratorRevamp.Room. MissionNodeData is a class without an
      equality of its own, and every node of a mission graph holds its own
      instance, so a room records the position of its node in the graph. */
  datatype Room = Room(gridCoord: Point, siteCoords: seq<Point>, missionNode: int)

  /** One entry of the nextNodes dictionary: a neighbour and the tile reserved for it. */
  datatype Entry = Entry(node: nat, coord: Point)

  /** The out-parameters of GetPointBoundaries. */
  datatype Bounds = Bounds(minX: int, maxX: int, minY: int, maxY: int)

  /** GetPointBoundaries: the tile of grid coordinate c spans exactly gridSize
      units on each axis, starting at c * gridSize. */
  function PointBoundaries(c: Point, gridSize: int): (b: Bounds)
    ensures b.minX == c.x * gridSize && b.minY == c.y * gridSize
    ensures b.maxX == b.minX + gridSize && b.maxY == b.minY + gridSize
  {
    Bounds(c.x * gridSize, (c.x + 1) * gridSize, c.y * gridSize, (c.y + 1) * gridSize)
  }

  /** A site Random.Range can place in the tile of c. */
  predicate InTile(p: Point, c: Point, gridSize: int) {
    var b := PointBoundaries(c, gridSize);
    InRandomRange(p.x, b.minX, b.maxX) && InRandomRange(p.y, b.minY, b.maxY)
  }

  /** b is one of the eight tiles around a. */
  predicate Adjacent8(a: Point, b: Point) {
    b != a && -1 <= b.x - a.x <= 1 && -1 <= b.y - a.y <= 1
  }

  function NodesOf(next: seq<Entry>): (r: seq<nat>)
    ensures |r| == |next| && forall i :: 0 <= i < |next| ==> r[i] == next[i].node
  {
    seq(|next|, i requires 0 <= i < |next| => next[i].node)
  }

  function CoordsOf(next: seq<Entry>): (r: seq<Point>)
    ensures |r| == |next| && forall i :: 0 <= i < |next| ==> r[i] == next[i].coord
  {
    seq(|next|, i requires 0 <= i < |next| => next[i].coord)
  }

  function RoomCoords(rooms: seq<Room>): (r: seq<Point>)
    ensures |r| == |rooms| && forall i :: 0 <= i < |rooms| ==> r[i] == rooms[i].gridCoord
  {
    seq(|rooms|, i requires 0 <= i < |rooms| => rooms[i].gridCoord)
  }

  /** The positions of the nodes of g. */
  function NodeSet(g: Graph): set<nat> {
    Below(|g.nodes|)
  }

  function Below(n: nat): (r: set<nat>)
    ensures forall i: nat :: i in r <==> i < n
  {
    if n == 0 then {} else Below(n - 1) + {n - 1}
  }

  /** Every node explored from position i on has all its neighbours explored. */
  ghost predicate ClosedFrom(g: Graph, explored: seq<nat>, i: nat) {
    forall j :: i <= j < |explored| ==> forall w :: w in Neighbors(g.edges, explored[j]) ==> w in explored
  }

  /** A room of the right size whose sites lie in its tile. */
  predicate RoomInTile(r: Room, gridSize: int, pointsPerTile: int) {
    |r.siteCoords| == (if pointsPerTile > 0 then pointsPerTile else 0) &&
    forall p :: p in r.siteCoords ==> InTile(p, r.gridCoord, gridSize)
  }

  // ---------------------------------------------------------------------------
  // NormalizeRooms

  function Xs(rooms: seq<Room>): (r: seq<int>)
    ensures |r| == |rooms| && forall i :: 0 <= i < |rooms| ==> r[i] == rooms[i].gridCoord.x
  {
    seq(|rooms|, i requires 0 <= i < |rooms| => rooms[i].gridCoord.x)
  }

  function Ys(rooms: seq<Room>): (r: seq<int>)
    ensures |r| == |rooms| && forall i :: 0 <= i < |rooms| ==> r[i] == rooms[i].gridCoord.y
  {
    seq(|rooms|, i requires 0 <= i < |rooms| => rooms[i].gridCoord.y)
  }

  /** The running minimum of NormalizeRooms, which starts at 0: the least of 0
      and the values. */
  function Lowest(xs: seq<int>): (m: int)
    ensures m <= 0 && forall i :: 0 <= i < |xs| ==> m <= xs[i]
    ensures m == 0 || m in xs
  {
    if xs == [] then 0
    else
      var m := Lowest(xs[..|xs| - 1]);
      if xs[|xs| - 1] < m then xs[|xs| - 1] else m
  }

  function ShiftPoint(p: Point, dx: int, dy: int): Point {
    Point(p.x - dx, p.y - dy)
  }

  /** A room moved by (-lx, -ly) tiles: its sites move by (-lx, -ly) * gridSize. */
  function ShiftRoom(r: Room, lx: int, ly: int, gridSize: int): Room {
    Room(ShiftPoint(r.gridCoord, lx, ly),
         seq(|r.siteCoords|, t requires 0 <= t < |r.siteCoords| => ShiftPoint(r.siteCoords[t], lx * gridSize, ly * gridSize)),
         r.missionNode)
  }

  function Shifted(rooms: seq<Room>, lx: int, ly: int, gridSize: int): seq<Room> {
    seq(|rooms|, i requires 0 <= i < |rooms| => ShiftRoom(rooms[i], lx, ly, gridSize))
  }

  /** One more room in NormalizeRooms' first loop. */
  lemma LowestStep(rooms: seq<Room>, i: nat)
    requires i < |rooms|
    ensures Lowest(Xs(rooms[..i + 1])) == if rooms[i].gridCoord.x < Lowest(Xs(rooms[..i])) then rooms[i].gridCoord.x else Lowest(Xs(rooms[..i]))
    ensures Lowest(Ys(rooms[..i + 1])) == if rooms[i].gridCoord.y < Lowest(Ys(rooms[..i])) then rooms[i].gridCoord.y else Lowest(Ys(rooms[..i]))
  {
    assert Xs(rooms[..i + 1])[..i] == Xs(rooms[..i]);
    assert Ys(rooms[..i + 1])[..i] == Ys(rooms[..i]);
  }

  /** One more room in NormalizeRooms' second loop. */
  lemma ShiftedStep(rooms: seq<Room>, i: nat, lx: int, ly: int, gridSize: int)
    requires i < |rooms|
    ensures Shifted(rooms[..i + 1], lx, ly, gridSize) == Shifted(rooms[..i], lx, ly, gridSize) + [ShiftRoom(rooms[i], lx, ly, gridSize)]
  {
  }

  /** What NormalizeRooms returns: the input itself when no grid coordinate is
      negative, otherwise every room shifted by the lowest coordinates. */
  function Normalized(rooms: seq<Room>, gridSize: int): seq<Room> {
    var lx, ly := Lowest(Xs(rooms)), Lowest(Ys(rooms));
    if lx >= 0 && ly >= 0 then rooms else Shifted(rooms, lx, ly, gridSize)
  }

  /** The early return is only a shortcut: Normalized always shifts every room
      by the lowest coordinates, keeping the order and the mission nodes. */
  lemma NormalizedIsShift(rooms: seq<Room>, gridSize: int)
    ensures Normalized(rooms, gridSize) == Shifted(rooms, Lowest(Xs(rooms)), Lowest(Ys(rooms)), gridSize)
  {
    var lx, ly := Lowest(Xs(rooms)), Lowest(Ys(rooms));
    if lx >= 0 && ly >= 0 {
      forall i | 0 <= i < |rooms| ensures ShiftRoom(rooms[i], lx, ly, gridSize) == rooms[i] {
        var r := rooms[i];
        assert ShiftRoom(r, lx, ly, gridSize).siteCoords == r.siteCoords;
      }
    }
  }

  /** NormalizeRooms keeps the rooms and their order: room i keeps its mission
      node and its number of sites. */
  lemma NormalizedShape(rooms: seq<Room>, gridSize: int)
    ensures |Normalized(rooms, gridSize)| == |rooms|
    ensures forall i :: 0 <= i < |rooms| ==>
      Normalized(rooms, gridSize)[i].missionNode == rooms[i].missionNode &&
      |Normalized(rooms, gridSize)[i].siteCoords| == |rooms[i].siteCoords|
  {
    NormalizedIsShift(rooms, gridSize);
  }

  /** With no negative grid coordinate NormalizeRooms changes nothing. */
  lemma NormalizedIdentity(rooms: seq<Room>, gridSize: int)
    requires forall r :: r in rooms ==> r.gridCoord.x >= 0 && r.gridCoord.y >= 0
    ensures Normalized(rooms, gridSize) == rooms
  {
  }

  /** Every site lies in the tile of its room. */
  predicate SitesInTiles(rooms: seq<Room>, gridSize: int) {
    forall r :: r in rooms ==> forall p :: p in r.siteCoords ==> InTile(p, r.gridCoord, gridSize)
  }

  /** What the Voronoi construction needs: no negative grid coordinate, every
      site in its room's tile and no negative site coordinate. */
  predicate NonNegativeLayout(rooms: seq<Room>, gridSize: int) {
    forall r :: r in rooms ==> RoomPlaced(r, gridSize)
  }

  predicate RoomPlaced(r: Room, gridSize: int) {
    r.gridCoord.x >= 0 && r.gridCoord.y >= 0 &&
    forall p :: p in r.siteCoords ==> InTile(p, r.gridCoord, gridSize) && p.x >= 0 && p.y >= 0
  }

  /** After NormalizeRooms no grid coordinate is negative; every site stays in
      its (moved) tile and so has no negative coordinate either. */
  lemma {:induction false} NormalizedNonNegative(rooms: seq<Room>, gridSize: nat)
    requires SitesInTiles(rooms, gridSize)
    ensures NonNegativeLayout(Normalized(rooms, gridSize), gridSize)
  {
    var lx, ly := Lowest(Xs(rooms)), Lowest(Ys(rooms));
    NormalizedIsShift(rooms, gridSize);
    var out := Normalized(rooms, gridSize);
    forall i | 0 <= i < |out| ensures RoomPlaced(out[i], gridSize) {
      assert rooms[i] in rooms;
      assert Xs(rooms)[i] == rooms[i].gridCoord.x && Ys(rooms)[i] == rooms[i].gridCoord.y;
      ShiftRoomPlaced(rooms[i], lx, ly, gridSize);
    }
  }

  /** A room whose sites lie in its tile, moved by at most its own grid
      coordinates, is placed. */
  lemma ShiftRoomPlaced(r: Room, lx: int, ly: int, gridSize: nat)
    requires forall p :: p in r.siteCoords ==> InTile(p, r.gridCoord, gridSize)
    requires r.gridCoord.x >= lx && r.gridCoord.y >= ly
    ensures RoomPlaced(ShiftRoom(r, lx, ly, gridSize), gridSize)
  {
    var out := ShiftRoom(r, lx, ly, gridSize);
    forall t | 0 <= t < |out.siteCoords|
      ensures InTile(out.siteCoords[t], out.gridCoord, gridSize) && out.siteCoords[t].x >= 0 && out.siteCoords[t].y >= 0
    {
      assert r.siteCoords[t] in r.siteCoords;
      ShiftInTile(r.siteCoords[t], r.gridCoord, lx, ly, gridSize);
    }
  }

  /** Moving a site and its tile together keeps the site in the tile; a tile
      with no negative coordinate holds no site with a negative coordinate. */
  lemma ShiftInTile(p: Point, c: Point, lx: int, ly: int, gridSize: nat)
    requires InTile(p, c, gridSize) && c.x >= lx && c.y >= ly
    ensures InTile(ShiftPoint(p, lx * gridSize, ly * gridSize), ShiftPoint(c, lx, ly), gridSize)
    ensures ShiftPoint(p, lx * gridSize, ly * gridSize).x >= 0 && ShiftPoint(p, lx * gridSize, ly * gridSize).y >= 0
  {
    assert (c.x - lx) * gridSize == c.x * gridSize - lx * gridSize;
    assert (c.y - ly) * gridSize == c.y * gridSize - ly * gridSize;
    assert (c.x - lx) * gridSize >= 0 && (c.y - ly) * gridSize >= 0;
  }

  /** The walk's state: one room per explored entry, carrying that node and
      lying on a reserved tile, with its sites in that tile. `pending` holds
      the reserved tiles no room has taken yet, so every reserved tile is
      taken by at most one room; the reserved tiles are pairwise distinct as
      long as the (0,0) fallback was never taken. */
  ghost predicate WalkState(g: Graph, explored: seq<nat>, coords: seq<Point>, pending: multiset<Point>, rooms: seq<Room>, fallbackHit: bool, gridSize: int, sitesPerTile: int) {
    |rooms| == |explored| &&
    (forall i :: 0 <= i < |rooms| ==> rooms[i].missionNode == explored[i]) &&
    (forall n :: n in explored ==> n < |g.nodes|) &&
    (forall r :: r in rooms ==> r.gridCoord in coords && RoomInTile(r, gridSize, sitesPerTile)) &&
    multiset(coords) == multiset(RoomCoords(rooms)) + pending &&
    (!fallbackHit ==> Distinct(coords))
  }

  /** While no fallback was taken, no two rooms of the walk share a tile. */
  lemma WalkRoomsDistinct(g: Graph, explored: seq<nat>, coords: seq<Point>, pending: multiset<Point>, rooms: seq<Room>, fallbackHit: bool, gridSize: int, sitesPerTile: int)
    requires WalkState(g, explored, coords, pending, rooms, fallbackHit, gridSize, sitesPerTile)
    ensures !fallbackHit ==> Distinct(RoomCoords(rooms))
  {
    if !fallbackHit {
      SubMultisetDistinct(RoomCoords(rooms), coords);
    }
  }

  /** A sequence whose elements, with multiplicity, are among those of a
      duplicate-free one is itself duplicate-free. */
  lemma SubMultisetDistinct<T>(a: seq<T>, b: seq<T>)
    requires multiset(a) <= multiset(b) && Distinct(b)
    ensures Distinct(a)
  {
    forall i, j | 0 <= i < j < |a| ensures a[i] != a[j] {
      if a[i] == a[j] {
        var x := a[i];
        assert a == a[..j] + [a[j]] + a[j + 1..];
        assert x in a[..j];
        assert multiset(a)[x] >= 2;
        DistinctCount(b, x);
      }
    }
  }

  /** A duplicate-free sequence holds each value at most once. */
  lemma {:induction false} DistinctCount<T>(b: seq<T>, x: T)
    requires Distinct(b)
    ensures multiset(b)[x] <= 1
  {
    if b != [] {
      assert b == [b[0]] + b[1..];
      assert Distinct(b[1..]) by {
        forall i, j | 0 <= i < j < |b[1..]| ensures b[1..][i] != b[1..][j] {
          assert b[1..][i] == b[i + 1] && b[1..][j] == b[j + 1];
        }
      }
      DistinctCount(b[1..], x);
      if b[0] == x {
        assert x !in b[1..];
      }
    }
  }

  lemma RoomCoordsAppend(rooms: seq<Room>, r: Room)
    ensures RoomCoords(rooms + [r]) == RoomCoords(rooms) + [r.gridCoord]
  {
  }

  /** NormalizeRooms moves every room by the same offset, so rooms on
      distinct tiles stay on distinct tiles. */
  lemma NormalizedDistinct(rooms: seq<Room>, gridSize: int)
    requires Distinct(RoomCoords(rooms))
    ensures Distinct(RoomCoords(Normalized(rooms, gridSize)))
  {
    NormalizedIsShift(rooms, gridSize);
    var out := RoomCoords(Normalized(rooms, gridSize));
    forall i, j | 0 <= i < j < |out| ensures out[i] != out[j] {
      assert RoomCoords(rooms)[i] != RoomCoords(rooms)[j];
    }
  }

  /** The rooms of a finished walk, normalised, still carry the explored
      nodes in order, no coordinate is negative, and while no fallback was
      taken no two rooms share a tile. */
  lemma NormalizedWalk(g: Graph, explored: seq<nat>, coords: seq<Point>, pending: multiset<Point>, rooms: seq<Room>, fallbackHit: bool, gridSize: nat, sitesPerTile: int, normalized: seq<Room>)
    requires WalkState(g, explored, coords, pending, rooms, fallbackHit, gridSize, sitesPerTile)
    requires normalized == Normalized(rooms, gridSize)
    ensures |normalized| == |explored| && forall i :: 0 <= i < |normalized| ==> normalized[i].missionNode == explored[i]
    ensures NonNegativeLayout(normalized, gridSize)
    ensures !fallbackHit ==> Distinct(RoomCoords(normalized))
  {
    NormalizedShape(rooms, gridSize);
    NormalizedNonNegative(rooms, gridSize);
    WalkRoomsDistinct(g, explored, coords, pending, rooms, fallbackHit, gridSize, sitesPerTile);
    if !fallbackHit {
      NormalizedDistinct(rooms, gridSize);
    }
  }

  /** Reserving more tiles, each pending until a room takes it, keeps the
      walk's state. */
  lemma ReserveKeepsState(g: Graph, explored: seq<nat>, coords: seq<Point>, coords': seq<Point>, pending: multiset<Point>, pending': multiset<Point>, rooms: seq<Room>, fallbackHit: bool, fallbackHit': bool, gridSize: int, sitesPerTile: int)
    requires WalkState(g, explored, coords, pending, rooms, fallbackHit, gridSize, sitesPerTile)
    requires coords <= coords' && pending' == pending + multiset(coords'[|coords|..])
    requires (fallbackHit ==> fallbackHit') && (!fallbackHit' ==> Distinct(coords) ==> Distinct(coords'))
    ensures WalkState(g, explored, coords', pending', rooms, fallbackHit', gridSize, sitesPerTile)
  {
    PrefixMembers(coords, coords');
    assert coords' == coords + coords'[|coords|..];
  }

  /** Visiting a node on a tile that is pending, or not reserved at all,
      keeps the walk's state; the tile is no longer pending. */
  lemma VisitKeepsState(g: Graph, explored: seq<nat>, coords: seq<Point>, pending: multiset<Point>, rooms: seq<Room>, fallbackHit: bool, gridSize: int, sitesPerTile: int, n: nat, room: Room)
    requires WalkState(g, explored, coords, pending, rooms, fallbackHit, gridSize, sitesPerTile)
    requires n < |g.nodes| && room.missionNode == n && RoomInTile(room, gridSize, sitesPerTile)
    requires room.gridCoord in pending || room.gridCoord !in coords
    ensures WalkState(g, explored + [n], AddAbsentTile(coords, room.gridCoord), pending - multiset{room.gridCoord}, rooms + [room], fallbackHit, gridSize, sitesPerTile)
  {
    PrefixMembers(coords, AddAbsentTile(coords, room.gridCoord));
    RoomCoordsAppend(rooms, room);
    if room.gridCoord !in coords {
      assert multiset(coords)[room.gridCoord] == 0;
    }
  }

  /** The reserved tiles after `if (!exploredGridCoords.Contains(c)) exploredGridCoords.Add(c)`. */
  function AddAbsentTile(coords: seq<Point>, c: Point): (r: seq<Point>)
    ensures coords <= r && c in r
    ensures Distinct(coords) ==> Distinct(r)
  {
    if c in coords then coords else coords + [c]
  }

  // ---------------------------------------------------------------------------
  // The generator

  class LayoutGeneratorRevamp {
    /** The inspector settings: a tile size in [10, 50] and the sites per tile. */
    const gridSize: nat
    const sitesPerGridTile: int

    var exploredMissionData: seq<nat>
    var exploredGridCoords: seq<Point>
    var rooms: seq<Room>
    var layout: seq<seq<Point>>
    /** Whether some GetAvailableNeighborGridCoord call found no free tile and
        returned the (0,0) fallback. */
    ghost var fallbackHit: bool
    /** The reserved tiles that no room has taken yet. */
    ghost var pending: multiset<Point>

    constructor (gridSize: nat, sitesPerGridTile: int)
      requires 10 <= gridSize <= 50
      ensures this.gridSize == gridSize && this.sitesPerGridTile == sitesPerGridTile
      ensures exploredMissionData == [] && exploredGridCoords == [] && rooms == [] && layout == []
    {
      this.gridSize := gridSize;
      this.sitesPerGridTile := sitesPerGridTile;
      exploredMissionData := [];
      exploredGridCoords := [];
      rooms := [];
      layout := [];
      fallbackHit := false;
      pending := multiset{};
    }

    /** The walk's state (see WalkState). */
    ghost predicate Valid(g: Graph)
      reads this
    {
      WalkState(g, exploredMissionData, exploredGridCoords, pending, rooms, fallbackHit, gridSize, sitesPerGridTile)
    }

    /** GridCoordIsTaken. */
    predicate GridCoordIsTaken(c: Point)
      reads this
    {
      c in exploredGridCoords
    }

    /** A tile around `start` that no room has reserved. */
    predicate FreeTile(start: Point, c: Point)
      reads this
    {
      Adjacent8(start, c) && !GridCoordIsTaken(c)
    }

    /** CreateRoom: pointsPerTile random sites in the tile of gridCoord, and no mission node yet. */
    method CreateRoom(gridCoord: Point, pointsPerTile: int) returns (room: Room)
      ensures room.gridCoord == gridCoord && room.missionNode == NoNode
      ensures RoomInTile(room, gridSize, pointsPerTile)
    {
      var points: seq<Point> := [];
      var b := PointBoundaries(gridCoord, gridSize);
      var i := 0;
      while i < pointsPerTile
        invariant 0 <= i && (pointsPerTile > 0 ==> i <= pointsPerTile) && (pointsPerTile <= 0 ==> i == 0)
        invariant |points| == i
        invariant forall p :: p in points ==> InTile(p, gridCoord, gridSize)
      {
        assert InRandomRange(b.minX, b.minX, b.maxX) && InRandomRange(b.minY, b.minY, b.maxY);
        var x :| InRandomRange(x, b.minX, b.maxX);
        var y :| InRandomRange(y, b.minY, b.maxY);
        points := points + [Point(x, y)];
        i := i + 1;
      }
      room := Room(gridCoord, points, NoNode);
    }

    /** GetAvailableNeighborGridCoord: a random free tile of the eight around
        startCoord, or (0,0) when all eight are taken (`fellBack`). */
    method GetAvailableNeighborGridCoord(startCoord: Point) returns (coord: Point, ghost fellBack: bool)
      ensures (exists c :: FreeTile(startCoord, c)) ==> FreeTile(startCoord, coord)
      ensures (forall c :: !FreeTile(startCoord, c)) ==> coord == Origin
      ensures fellBack <==> forall c :: !FreeTile(startCoord, c)
    {
      var availableCoords: seq<Point> := [];
      var x := startCoord.x - 1;
      while x < startCoord.x + 2
        invariant startCoord.x - 1 <= x <= startCoord.x + 2
        invariant forall c :: c in availableCoords <==> FreeTile(startCoord, c) && c.x < x
      {
        var y := startCoord.y - 1;
        while y < startCoord.y + 2
          invariant startCoord.y - 1 <= y <= startCoord.y + 2
          invariant forall c :: c in availableCoords <==> FreeTile(startCoord, c) && (c.x < x || (c.x == x && c.y < y))
        {
          var c := Point(x, y);
          if c != startCoord && !GridCoordIsTaken(c) {
            availableCoords := availableCoords + [c];
          }
          y := y + 1;
        }
        x := x + 1;
      }
      if |availableCoords| == 0 {
        return Origin, true;
      }
      assert availableCoords[0] in availableCoords;
      coord :| coord in availableCoords;
      fellBack := false;
    }

    /** The first loop of GenerateRoomFromMissionNode: every neighbour of
        startNode that is not explored gets a tile reserved around gridCoord
        and an entry in nextNodes; an unexplored neighbour listed twice makes
        Dictionary.Add throw (`thrown`), and nothing else does. */
    method ReserveNeighbors(g: Graph, startNode: nat, gridCoord: Point) returns (next: seq<Entry>, thrown: bool)
      requires WellFormed(g)
      modifies this`exploredGridCoords, this`fallbackHit, this`pending
      ensures old(fallbackHit) ==> fallbackHit
      ensures old(exploredGridCoords) <= exploredGridCoords
      ensures pending == old(pending) + multiset(exploredGridCoords[|old(exploredGridCoords)|..])
      ensures !thrown ==> exploredGridCoords == old(exploredGridCoords) + CoordsOf(next)
      ensures !fallbackHit ==> Distinct(old(exploredGridCoords)) ==> Distinct(exploredGridCoords)
      ensures Distinct(NodesOf(next))
      ensures forall e :: e in next ==> e.node in Neighbors(g.edges, startNode) && e.node !in exploredMissionData
      ensures forall e :: e in next ==> e.node < |g.nodes|
      ensures !thrown ==> forall w :: w in Neighbors(g.edges, startNode) ==> w in exploredMissionData || w in NodesOf(next)
      ensures !thrown && !fallbackHit ==> forall e :: e in next ==> Adjacent8(gridCoord, e.coord)
      ensures !thrown && !fallbackHit && Distinct(old(exploredGridCoords)) ==> Distinct(CoordsOf(next))
      ensures thrown <==> !UnexploredOnce(Neighbors(g.edges, startNode), exploredMissionData, |Neighbors(g.edges, startNode)|)
    {
      NeighborsInGraph(g, startNode);
      var neighbors := Neighbors(g.edges, startNode);
      next := [];
      thrown := false;
      for i := 0 to |neighbors|
        invariant ReserveLoop(exploredMissionData, neighbors, i, gridCoord, old(exploredGridCoords), exploredGridCoords, next,
                              old(fallbackHit), fallbackHit, old(pending), pending)
      {
        next, thrown := ReserveNeighbor(neighbors, i, gridCoord, next, old(exploredGridCoords), old(fallbackHit), old(pending));
        if thrown {
          return next, true;
        }
      }
      LoopDone(exploredMissionData, neighbors, gridCoord, old(exploredGridCoords), exploredGridCoords, next,
               old(fallbackHit), fallbackHit, old(pending), pending);
    }

    /** One turn of ReserveNeighbors' loop, on neighbors[i]: an explored
        neighbour is skipped; an unexplored one gets a tile, and then an entry
        unless it already has one, in which case Dictionary.Add throws. */
    method ReserveNeighbor(neighbors: seq<nat>, i: nat, gridCoord: Point, next: seq<Entry>,
                           ghost c0: seq<Point>, ghost fallback0: bool, ghost p0: multiset<Point>) returns (next': seq<Entry>, thrown: bool)
      requires i < |neighbors|
      requires ReserveLoop(exploredMissionData, neighbors, i, gridCoord, c0, exploredGridCoords, next, fallback0, fallbackHit, p0, pending)
      modifies this`exploredGridCoords, this`fallbackHit, this`pending
      ensures !thrown ==> ReserveLoop(exploredMissionData, neighbors, i + 1, gridCoord, c0, exploredGridCoords, next',
                                      fallback0, fallbackHit, p0, pending)
      ensures thrown ==> next' == next && ReserveThrown(exploredMissionData, neighbors, c0, exploredGridCoords, next, fallback0, fallbackHit, p0, pending)
    {
      var neighbor := neighbors[i];
      if neighbor !in exploredMissionData {
        ghost var coords, fallback, pending0 := exploredGridCoords, fallbackHit, pending;
        var neighborCoord, fellBack := GetAvailableNeighborGridCoord(gridCoord);
        exploredGridCoords := exploredGridCoords + [neighborCoord];
        fallbackHit := fallbackHit || fellBack;
        pending := pending + multiset{neighborCoord};
        if neighbor in NodesOf(next) {
          LoopThrow(exploredMissionData, neighbors, i, gridCoord, c0, coords, next, fallback0, fallback, p0, pending0, neighborCoord, fellBack);
          return next, true;
        }
        LoopReserve(exploredMissionData, neighbors, i, gridCoord, c0, coords, next, fallback0, fallback, p0, pending0, neighborCoord, fellBack);
        next', thrown := next + [Entry(neighbor, neighborCoord)], false;
      } else {
        LoopSkip(exploredMissionData, neighbors, i, gridCoord, c0, exploredGridCoords, next, fallback0, fallbackHit, p0, pending);
        next', thrown := next, false;
      }
    }

    /** The first part of GenerateRoomFromMissionNode: marks startNode as
        explored, gives it a room on gridCoord and reserves gridCoord. */
    method VisitNode(g: Graph, startNode: nat, gridCoord: Point)
      requires startNode < |g.nodes| && Valid(g)
      requires gridCoord in pending || gridCoord !in exploredGridCoords
      modifies this`exploredMissionData, this`exploredGridCoords, this`rooms, this`pending
      ensures Valid(g)
      ensures pending == old(pending) - multiset{gridCoord}
      ensures exploredMissionData == old(exploredMissionData) + [startNode]
      ensures exploredGridCoords == AddAbsentTile(old(exploredGridCoords), gridCoord)
      ensures |rooms| == |old(rooms)| + 1 && rooms[..|old(rooms)|] == old(rooms)
      ensures rooms[|old(rooms)|].gridCoord == gridCoord && rooms[|old(rooms)|].missionNode == startNode
      ensures RoomInTile(rooms[|old(rooms)|], gridSize, sitesPerGridTile)
    {
      ghost var explored0, coords0, pending0, rooms0 := exploredMissionData, exploredGridCoords, pending, rooms;
      exploredMissionData := exploredMissionData + [startNode];
      var room := CreateRoom(gridCoord, sitesPerGridTile);
      room := room.(missionNode := startNode);
      rooms := rooms + [room];
      if !GridCoordIsTaken(gridCoord) {
        exploredGridCoords := exploredGridCoords + [gridCoord];
      }
      pending := pending - multiset{gridCoord};
      VisitKeepsState(g, explored0, coords0, pending0, rooms0, fallbackHit, gridSize, sitesPerGridTile, startNode, room);
    }

    /** GenerateRoomFromMissionNode: explores startNode, gives it a room on
        gridCoord, reserves tiles for its unexplored neighbours and then
        explores each of them in turn. `ancestors` are the nodes of the calls
        still on the stack; they bound the depth of the recursion. When g is a
        tree (`parent`, `depth`), the walk explores each node of the subtree
        of startNode at most once and nothing outside it. */
    method GenerateRoomFromMissionNode(g: Graph, startNode: nat, gridCoord: Point, ghost ancestors: set<nat>,
                                       ghost parent: seq<nat>, ghost depth: seq<nat>) returns (thrown: bool)
      requires WellFormed(g) && startNode < |g.nodes| && Valid(g)
      requires ancestors <= NodeSet(g) && startNode !in ancestors
      requires forall n :: n in ancestors ==> n in exploredMissionData
      requires gridCoord in pending || gridCoord !in exploredGridCoords
      requires RootedTree(g, parent, depth) ==> FreshSubtree(parent, depth, exploredMissionData, startNode)
      modifies this`exploredMissionData, this`exploredGridCoords, this`rooms, this`fallbackHit, this`pending
      decreases NodeSet(g) - ancestors, 0
      ensures Valid(g)
      ensures old(fallbackHit) ==> fallbackHit
      ensures |old(exploredMissionData)| < |exploredMissionData| && old(exploredMissionData) <= exploredMissionData
      ensures exploredMissionData[|old(exploredMissionData)|] == startNode
      ensures old(rooms) <= rooms && rooms[|old(rooms)|].gridCoord == gridCoord
      ensures old(exploredGridCoords) <= exploredGridCoords && gridCoord in exploredGridCoords
      ensures !thrown ==> ClosedFrom(g, exploredMissionData, |old(exploredMissionData)|)
      ensures !thrown ==> pending == old(pending) - multiset{gridCoord}
      ensures RootedTree(g, parent, depth) ==>
        Distinct(exploredMissionData) && InSubtree(parent, depth, exploredMissionData, |old(exploredMissionData)|, startNode)
      ensures SimpleNeighbors(g) ==> !thrown
    {
      ghost var start, rooms0, coords0 := |exploredMissionData|, rooms, exploredGridCoords;
      var next, duplicate := VisitAndReserve(g, startNode, gridCoord, parent, depth);
      thrown := duplicate;
      if !duplicate {
        ghost var reserving, rooms1, coords1, pending1 := exploredMissionData, rooms, exploredGridCoords, pending;
        thrown := ExploreEntries(g, next, ancestors + {startNode}, parent, depth, startNode);
        if !thrown {
          ClosedStart(g, reserving, exploredMissionData, start, next);
          PendingBack(old(pending) - multiset{gridCoord}, pending1, pending, multiset(CoordsOf(next)));
        }
        TreeDone(g, parent, depth, exploredMissionData, start, startNode);
        PrefixTrans(old(exploredMissionData), reserving, exploredMissionData);
        PrefixTrans(rooms0, rooms1, rooms);
        PrefixTrans(coords0, coords1, exploredGridCoords);
      }
    }

    /** The start of GenerateRoomFromMissionNode: VisitNode, then the first
        loop (ReserveNeighbors). In a tree, the entries are children of
        startNode whose subtrees are unexplored. */
    method VisitAndReserve(g: Graph, startNode: nat, gridCoord: Point, ghost parent: seq<nat>, ghost depth: seq<nat>)
      returns (next: seq<Entry>, duplicate: bool)
      requires WellFormed(g) && startNode < |g.nodes| && Valid(g)
      requires gridCoord in pending || gridCoord !in exploredGridCoords
      requires RootedTree(g, parent, depth) ==> FreshSubtree(parent, depth, exploredMissionData, startNode)
      modifies this`exploredMissionData, this`exploredGridCoords, this`rooms, this`fallbackHit, this`pending
      ensures Valid(g)
      ensures old(fallbackHit) ==> fallbackHit
      ensures exploredMissionData == old(exploredMissionData) + [startNode]
      ensures |rooms| == |old(rooms)| + 1 && old(rooms) <= rooms && rooms[|old(rooms)|].gridCoord == gridCoord
      ensures old(exploredGridCoords) <= exploredGridCoords && gridCoord in exploredGridCoords
      ensures !duplicate ==> pending == (old(pending) - multiset{gridCoord}) + multiset(CoordsOf(next))
      ensures forall e :: e in next ==> e.node < |g.nodes| && e.node !in exploredMissionData
      ensures !duplicate ==> forall w :: w in Neighbors(g.edges, startNode) ==> w in exploredMissionData || w in NodesOf(next)
      ensures RootedTree(g, parent, depth) ==>
        Distinct(exploredMissionData) && InSubtree(parent, depth, exploredMissionData, |old(exploredMissionData)|, startNode) &&
        FreshChildren(parent, depth, exploredMissionData, startNode, next, 0)
      ensures duplicate <==> !UnexploredOnce(Neighbors(g.edges, startNode), exploredMissionData, |Neighbors(g.edges, startNode)|)
      ensures SimpleNeighbors(g) ==> !duplicate
    {
      ghost var explored0, coords0 := exploredMissionData, exploredGridCoords;
      VisitNode(g, startNode, gridCoord);
      ghost var reserving, coords, fallback, pending1 := exploredMissionData, exploredGridCoords, fallbackHit, pending;
      next, duplicate := ReserveNeighbors(g, startNode, gridCoord);
      ReserveKeepsState(g, reserving, coords, exploredGridCoords, pending1, pending, rooms, fallback, fallbackHit, gridSize, sitesPerGridTile);
      TreeVisit(g, parent, depth, explored0, startNode);
      TreeEntries(g, parent, depth, explored0, startNode, next);
      PrefixTrans(coords0, coords, exploredGridCoords);
      if !duplicate {
        assert exploredGridCoords[|coords|..] == CoordsOf(next);
      }
      if SimpleNeighbors(g) {
        SimpleOnce(g, startNode, exploredMissionData);
      }
    }

    /** The second loop of GenerateRoomFromMissionNode: explores the entries
        of nextNodes in insertion order, whether or not an earlier entry's walk
        has explored that node since. Each entry takes its pending tile. In a
        tree the entries are children of s, and each child's walk stays in its
        own subtree. */
    method ExploreEntries(g: Graph, next: seq<Entry>, ghost ancestors: set<nat>,
                          ghost parent: seq<nat>, ghost depth: seq<nat>, ghost s: nat) returns (thrown: bool)
      requires WellFormed(g) && Valid(g)
      requires ancestors <= NodeSet(g)
      requires forall n :: n in ancestors ==> n in exploredMissionData
      requires forall e :: e in next ==> e.node < |g.nodes| && e.node !in ancestors
      requires multiset(CoordsOf(next)) <= pending
      requires RootedTree(g, parent, depth) ==>
        Distinct(exploredMissionData) && FreshChildren(parent, depth, exploredMissionData, s, next, 0)
      modifies this`exploredMissionData, this`exploredGridCoords, this`rooms, this`fallbackHit, this`pending
      decreases NodeSet(g) - ancestors, 1
      ensures Valid(g)
      ensures old(fallbackHit) ==> fallbackHit
      ensures old(exploredMissionData) <= exploredMissionData && old(rooms) <= rooms
      ensures old(exploredGridCoords) <= exploredGridCoords
      ensures !thrown ==> forall j :: 0 <= j < |next| ==> next[j].node in exploredMissionData
      ensures !thrown ==> ClosedFrom(g, exploredMissionData, |old(exploredMissionData)|)
      ensures !thrown ==> pending + multiset(CoordsOf(next)) == old(pending)
      ensures RootedTree(g, parent, depth) ==>
        Distinct(exploredMissionData) && InSubtree(parent, depth, exploredMissionData, |old(exploredMissionData)|, s)
      ensures SimpleNeighbors(g) ==> !thrown
    {
      ExploringStart(g, parent, depth, s, next, exploredMissionData, pending);
      thrown := false;
      for k := 0 to |next|
        invariant Valid(g)
        invariant old(fallbackHit) ==> fallbackHit
        invariant old(rooms) <= rooms && old(exploredGridCoords) <= exploredGridCoords
        invariant Exploring(g, parent, depth, s, next, k, old(exploredMissionData), old(pending), exploredMissionData, pending)
        invariant !thrown
      {
        var e := next[k];
        ghost var before, pending0, rooms0, coords0 := exploredMissionData, pending, rooms, exploredGridCoords;
        ExploringNext(g, parent, depth, s, next, k, old(exploredMissionData), old(pending), exploredMissionData, pending);
        PrefixMembers(old(exploredMissionData), exploredMissionData);
        thrown := GenerateRoomFromMissionNode(g, e.node, e.coord, ancestors, parent, depth);
        PrefixTrans(old(rooms), rooms0, rooms);
        PrefixTrans(old(exploredGridCoords), coords0, exploredGridCoords);
        if thrown {
          ExploringThrown(g, parent, depth, s, next, k, old(exploredMissionData), old(pending), before, pending0, exploredMissionData);
          return;
        }
        ExploringStep(g, parent, depth, s, next, k, old(exploredMissionData), old(pending), before, pending0, exploredMissionData, pending);
      }
      ExploringDone(g, parent, depth, s, next, old(exploredMissionData), old(pending), exploredMissionData, pending);
    }

    /** NormalizeRooms: the running minima of the grid coordinates (starting
        at 0), then either the input itself or every room shifted by them. */
    method NormalizeRooms(rooms: seq<Room>) returns (normalizedRooms: seq<Room>)
      ensures normalizedRooms == Normalized(rooms, gridSize)
    {
      var lowestX, lowestY := 0, 0;
      for i := 0 to |rooms|
        invariant lowestX == Lowest(Xs(rooms[..i])) && lowestY == Lowest(Ys(rooms[..i]))
      {
        LowestStep(rooms, i);
        var gridX, gridY := rooms[i].gridCoord.x, rooms[i].gridCoord.y;
        if gridX < lowestX {
          lowestX := gridX;
        }
        if gridY < lowestY {
          lowestY := gridY;
        }
      }
      assert rooms[..|rooms|] == rooms;
      if lowestX >= 0 && lowestY >= 0 {
        return rooms;
      }
      normalizedRooms := [];
      for i := 0 to |rooms|
        invariant normalizedRooms == Shifted(rooms[..i], lowestX, lowestY, gridSize)
      {
        var normalizedRoom := AdjustRoom(rooms[i], lowestX, lowestY);
        ShiftedStep(rooms, i, lowestX, lowestY, gridSize);
        normalizedRooms := normalizedRooms + [normalizedRoom];
      }
    }

    /** The body of NormalizeRooms' second loop: room i moved by (-lx, -ly)
        tiles, its sites by (-lx, -ly) * gridSize, its mission node kept. */
    method AdjustRoom(room: Room, lx: int, ly: int) returns (normalizedRoom: Room)
      ensures normalizedRoom == ShiftRoom(room, lx, ly, gridSize)
    {
      var adjustedSites: seq<Point> := [];
      for t := 0 to |room.siteCoords|
        invariant |adjustedSites| == t
        invariant forall u :: 0 <= u < t ==> adjustedSites[u] == ShiftPoint(room.siteCoords[u], lx * gridSize, ly * gridSize)
      {
        var site := room.siteCoords[t];
        adjustedSites := adjustedSites + [Point(site.x - lx * gridSize, site.y - ly * gridSize)];
      }
      normalizedRoom := Room(ShiftPoint(room.gridCoord, lx, ly), adjustedSites, room.missionNode);
    }

    /** GenerateLayout: walks the mission graph from its first node on tile
        (0,0) and normalises the rooms. The returned layout is never filled. */
    method GenerateLayout(g: Graph) returns (result: seq<seq<Point>>, thrown: bool)
      requires WellFormed(g) && |g.nodes| > 0
      modifies this`layout, this`exploredMissionData, this`exploredGridCoords, this`rooms, this`fallbackHit, this`pending
      ensures result == [] && layout == []
      ensures |exploredMissionData| >= 1 && exploredMissionData[0] == 0
      ensures |rooms| == |exploredMissionData| && forall i :: 0 <= i < |rooms| ==> rooms[i].missionNode == exploredMissionData[i]
      ensures !fallbackHit ==> Distinct(exploredGridCoords) && Distinct(RoomCoords(rooms))
      ensures IsTree(g) ==> Distinct(exploredMissionData)
      ensures SimpleNeighbors(g) ==> !thrown
      ensures !thrown ==> ClosedFrom(g, exploredMissionData, 0)
      ensures !thrown ==> NonNegativeLayout(rooms, gridSize)
    {
      layout := [];
      exploredMissionData := [];
      exploredGridCoords := [];
      rooms := [];
      fallbackHit := false;
      pending := multiset{};
      ghost var parent: seq<nat>, depth: seq<nat> := [], [];
      if IsTree(g) {
        parent, depth :| RootedTree(g, parent, depth);
      }
      thrown := GenerateRoomFromMissionNode(g, 0, Origin, {}, parent, depth);
      if !thrown {
        var walked := rooms;
        var normalized := NormalizeRooms(walked);
        NormalizedWalk(g, exploredMissionData, exploredGridCoords, pending, walked, fallbackHit, gridSize, sitesPerGridTile, normalized);
        rooms := normalized;
      } else {
        WalkRoomsDistinct(g, exploredMissionData, exploredGridCoords, pending, rooms, fallbackHit, gridSize, sitesPerGridTile);
      }
      result := layout;
    }
  }

  /** The state of ExploreEntries' loop after k entries, started from the
      explored nodes e0 and the pending tiles p0: the first k entries are
      explored and have taken their tiles, the new nodes have all their
      neighbours explored, and in a tree the walk has stayed in the subtree
      of s and left the later entries' subtrees alone. */
  ghost predicate Exploring(g: Graph, parent: seq<nat>, depth: seq<nat>, s: nat, next: seq<Entry>, k: nat,
                            e0: seq<nat>, p0: multiset<Point>, explored: seq<nat>, pending: multiset<Point>) {
    k <= |next| && e0 <= explored &&
    (forall j :: 0 <= j < k ==> next[j].node in explored) &&
    ClosedFrom(g, explored, |e0|) &&
    multiset(CoordsOf(next)) <= p0 &&
    pending + multiset(CoordsOf(next[..k])) == p0 &&
    (RootedTree(g, parent, depth) ==>
      Distinct(explored) && FreshChildren(parent, depth, explored, s, next, k) && InSubtree(parent, depth, explored, |e0|, s))
  }

  lemma ExploringStart(g: Graph, parent: seq<nat>, depth: seq<nat>, s: nat, next: seq<Entry>, e0: seq<nat>, p0: multiset<Point>)
    requires multiset(CoordsOf(next)) <= p0
    requires RootedTree(g, parent, depth) ==> Distinct(e0) && FreshChildren(parent, depth, e0, s, next, 0)
    ensures Exploring(g, parent, depth, s, next, 0, e0, p0, e0, p0)
  {
    assert next[..0] == [];
  }

  /** Entry k may be explored: its tile is pending, and in a tree its subtree is unexplored. */
  lemma ExploringNext(g: Graph, parent: seq<nat>, depth: seq<nat>, s: nat, next: seq<Entry>, k: nat,
                      e0: seq<nat>, p0: multiset<Point>, explored: seq<nat>, pending: multiset<Point>)
    requires Exploring(g, parent, depth, s, next, k, e0, p0, explored, pending) && k < |next|
    ensures next[k] in next && next[k].coord in pending
    ensures RootedTree(g, parent, depth) ==> FreshSubtree(parent, depth, explored, next[k].node)
  {
    PendingNext(next, k, p0, pending);
  }

  /** Entry k's walk, which took its tile, keeps the loop's state. */
  lemma ExploringStep(g: Graph, parent: seq<nat>, depth: seq<nat>, s: nat, next: seq<Entry>, k: nat,
                      e0: seq<nat>, p0: multiset<Point>, before: seq<nat>, pbefore: multiset<Point>,
                      after: seq<nat>, pafter: multiset<Point>)
    requires Exploring(g, parent, depth, s, next, k, e0, p0, before, pbefore) && k < |next|
    requires before <= after && |before| < |after| && after[|before|] == next[k].node
    requires ClosedFrom(g, after, |before|) && pafter == pbefore - multiset{next[k].coord}
    requires RootedTree(g, parent, depth) ==> Distinct(after) && InSubtree(parent, depth, after, |before|, next[k].node)
    ensures Exploring(g, parent, depth, s, next, k + 1, e0, p0, after, pafter)
  {
    PendingNext(next, k, p0, pbefore);
    PendingTaken(next, k, p0, pbefore, pafter);
    PrefixTrans(e0, before, after);
    PrefixMembers(before, after);
    ClosedExtend(g, before, after, |e0|);
    TreeExploreStep(g, parent, depth, e0, before, after, s, next, k);
  }

  /** When entry k's walk throws, the tree facts still hold. */
  lemma ExploringThrown(g: Graph, parent: seq<nat>, depth: seq<nat>, s: nat, next: seq<Entry>, k: nat,
                        e0: seq<nat>, p0: multiset<Point>, before: seq<nat>, pbefore: multiset<Point>, after: seq<nat>)
    requires Exploring(g, parent, depth, s, next, k, e0, p0, before, pbefore) && k < |next| && before <= after
    requires RootedTree(g, parent, depth) ==> Distinct(after) && InSubtree(parent, depth, after, |before|, next[k].node)
    ensures e0 <= after
    ensures RootedTree(g, parent, depth) ==> Distinct(after) && InSubtree(parent, depth, after, |e0|, s)
  {
    PrefixTrans(e0, before, after);
    TreeExploreStep(g, parent, depth, e0, before, after, s, next, k);
  }

  /** After the last entry. */
  lemma ExploringDone(g: Graph, parent: seq<nat>, depth: seq<nat>, s: nat, next: seq<Entry>,
                      e0: seq<nat>, p0: multiset<Point>, explored: seq<nat>, pending: multiset<Point>)
    requires Exploring(g, parent, depth, s, next, |next|, e0, p0, explored, pending)
    ensures e0 <= explored
    ensures forall j :: 0 <= j < |next| ==> next[j].node in explored
    ensures ClosedFrom(g, explored, |e0|)
    ensures pending + multiset(CoordsOf(next)) == p0
    ensures RootedTree(g, parent, depth) ==> Distinct(explored) && InSubtree(parent, depth, explored, |e0|, s)
  {
    assert next[..|next|] == next;
  }

  /** The state of ReserveNeighbors' loop after the first i neighbours: the
      tiles reserved so far (coords, which started as c0) are those of the
      entries, in order; they are distinct and around `start` while no
      fallback was taken; the entries are distinct unexplored neighbours, and
      every neighbour before i is explored or has an entry. */
  ghost predicate Reserving(explored: seq<nat>, neighbors: seq<nat>, i: nat, start: Point, c0: seq<Point>, coords: seq<Point>,
                            next: seq<Entry>, fallback0: bool, fallback: bool) {
    i <= |neighbors| && (fallback0 ==> fallback) &&
    coords == c0 + CoordsOf(next) &&
    (!fallback ==> Distinct(c0) ==> Distinct(coords)) &&
    (!fallback ==> forall e :: e in next ==> Adjacent8(start, e.coord)) &&
    Distinct(NodesOf(next)) &&
    (forall e :: e in next ==> e.node in neighbors && e.node !in explored) &&
    (forall j :: 0 <= j < i ==> neighbors[j] in explored || neighbors[j] in NodesOf(next))
  }

  /** ReserveNeighbors' loop after the first i neighbours: Reserving, the new
      tiles (those after c0) all pending on top of p0, no unexplored node
      repeated so far, and every entry among the neighbours seen. */
  ghost predicate ReserveLoop(explored: seq<nat>, neighbors: seq<nat>, i: nat, start: Point, c0: seq<Point>, coords: seq<Point>,
                              next: seq<Entry>, fallback0: bool, fallback: bool, p0: multiset<Point>, pending: multiset<Point>) {
    Reserving(explored, neighbors, i, start, c0, coords, next, fallback0, fallback) &&
    pending == p0 + multiset(coords[|c0|..]) &&
    UnexploredOnce(neighbors, explored, i) && EntriesBefore(next, neighbors, i)
  }

  /** What holds when ReserveNeighbors' Add throws: the tiles reserved so far
      (those after c0) are pending on top of p0 and distinct while no fallback
      was taken, the entries are distinct unexplored neighbours, and some
      unexplored node is listed twice. */
  ghost predicate ReserveThrown(explored: seq<nat>, neighbors: seq<nat>, c0: seq<Point>, coords: seq<Point>, next: seq<Entry>,
                                fallback0: bool, fallback: bool, p0: multiset<Point>, pending: multiset<Point>) {
    (fallback0 ==> fallback) &&
    c0 <= coords && pending == p0 + multiset(coords[|c0|..]) &&
    (!fallback ==> Distinct(c0) ==> Distinct(coords)) &&
    Distinct(NodesOf(next)) && (forall e :: e in next ==> e.node in neighbors && e.node !in explored) &&
    !UnexploredOnce(neighbors, explored, |neighbors|)
  }

  /** An unexplored neighbour without an entry: its new tile is pending and
      the loop's state moves on. */
  lemma LoopReserve(explored: seq<nat>, neighbors: seq<nat>, i: nat, start: Point, c0: seq<Point>, coords: seq<Point>,
                    next: seq<Entry>, fallback0: bool, fallback: bool, p0: multiset<Point>, pending: multiset<Point>, c: Point, fellBack: bool)
    requires ReserveLoop(explored, neighbors, i, start, c0, coords, next, fallback0, fallback, p0, pending)
    requires i < |neighbors| && neighbors[i] !in explored && neighbors[i] !in NodesOf(next)
    requires !fellBack ==> Adjacent8(start, c) && c !in coords
    ensures ReserveLoop(explored, neighbors, i + 1, start, c0, coords + [c], next + [Entry(neighbors[i], c)],
                        fallback0, fallback || fellBack, p0, pending + multiset{c})
  {
    PendingReserved(c0, coords, c, p0, pending);
    ReserveStep(explored, neighbors, i, start, c0, coords, next, fallback0, fallback, c, fellBack);
    OnceStep(neighbors, explored, i, next, c);
  }

  /** A repeated unexplored neighbour: its tile was reserved before Add threw. */
  lemma LoopThrow(explored: seq<nat>, neighbors: seq<nat>, i: nat, start: Point, c0: seq<Point>, coords: seq<Point>,
                  next: seq<Entry>, fallback0: bool, fallback: bool, p0: multiset<Point>, pending: multiset<Point>, c: Point, fellBack: bool)
    requires ReserveLoop(explored, neighbors, i, start, c0, coords, next, fallback0, fallback, p0, pending)
    requires i < |neighbors| && neighbors[i] !in explored && neighbors[i] in NodesOf(next)
    requires !fellBack ==> c !in coords
    ensures ReserveThrown(explored, neighbors, c0, coords + [c], next, fallback0, fallback || fellBack, p0, pending + multiset{c})
  {
    PendingReserved(c0, coords, c, p0, pending);
    ReserveThrow(explored, neighbors, i, start, c0, coords, next, fallback0, fallback, c, fellBack);
    OnceBroken(neighbors, explored, i, next);
  }

  /** An explored neighbour: nothing reserved, nothing repeated. */
  lemma LoopSkip(explored: seq<nat>, neighbors: seq<nat>, i: nat, start: Point, c0: seq<Point>, coords: seq<Point>,
                 next: seq<Entry>, fallback0: bool, fallback: bool, p0: multiset<Point>, pending: multiset<Point>)
    requires ReserveLoop(explored, neighbors, i, start, c0, coords, next, fallback0, fallback, p0, pending)
    requires i < |neighbors| && neighbors[i] in explored
    ensures ReserveLoop(explored, neighbors, i + 1, start, c0, coords, next, fallback0, fallback, p0, pending)
  {
    SkipStep(explored, neighbors, i, start, c0, coords, next, fallback0, fallback);
    OnceSkip(neighbors, explored, i, next);
  }

  /** After the last neighbour. */
  lemma LoopDone(explored: seq<nat>, neighbors: seq<nat>, start: Point, c0: seq<Point>, coords: seq<Point>,
                 next: seq<Entry>, fallback0: bool, fallback: bool, p0: multiset<Point>, pending: multiset<Point>)
    requires ReserveLoop(explored, neighbors, |neighbors|, start, c0, coords, next, fallback0, fallback, p0, pending)
    ensures c0 <= coords && coords == c0 + CoordsOf(next) && (fallback0 ==> fallback)
    ensures pending == p0 + multiset(coords[|c0|..])
    ensures !fallback ==> Distinct(c0) ==> Distinct(coords)
    ensures !fallback ==> forall e :: e in next ==> Adjacent8(start, e.coord)
    ensures Distinct(NodesOf(next)) && forall e :: e in next ==> e.node in neighbors && e.node !in explored
    ensures forall w :: w in neighbors ==> w in explored || w in NodesOf(next)
    ensures !fallback && Distinct(c0) ==> Distinct(CoordsOf(next))
    ensures UnexploredOnce(neighbors, explored, |neighbors|)
  {
    ReservedAll(explored, neighbors, start, c0, coords, next, fallback0, fallback);
  }

  /** An unexplored neighbour without an entry gets the tile just chosen. */
  lemma ReserveStep(explored: seq<nat>, neighbors: seq<nat>, i: nat, start: Point, c0: seq<Point>, coords: seq<Point>,
                    next: seq<Entry>, fallback0: bool, fallback: bool, c: Point, fellBack: bool)
    requires Reserving(explored, neighbors, i, start, c0, coords, next, fallback0, fallback)
    requires i < |neighbors| && neighbors[i] !in explored && neighbors[i] !in NodesOf(next)
    requires !fellBack ==> Adjacent8(start, c) && c !in coords
    ensures Reserving(explored, neighbors, i + 1, start, c0, coords + [c], next + [Entry(neighbors[i], c)], fallback0, fallback || fellBack)
  {
    var e := Entry(neighbors[i], c);
    AppendEntry(next, e);
    assert coords + [c] == c0 + CoordsOf(next + [e]);
  }

  /** Dictionary.Add throws after the tile was reserved. */
  lemma ReserveThrow(explored: seq<nat>, neighbors: seq<nat>, i: nat, start: Point, c0: seq<Point>, coords: seq<Point>,
                     next: seq<Entry>, fallback0: bool, fallback: bool, c: Point, fellBack: bool)
    requires Reserving(explored, neighbors, i, start, c0, coords, next, fallback0, fallback)
    requires !fellBack ==> c !in coords
    ensures c0 <= coords + [c]
    ensures !(fallback || fellBack) ==> Distinct(c0) ==> Distinct(coords + [c])
  {
  }

  /** An explored neighbour gets no entry. */
  lemma SkipStep(explored: seq<nat>, neighbors: seq<nat>, i: nat, start: Point, c0: seq<Point>, coords: seq<Point>,
                 next: seq<Entry>, fallback0: bool, fallback: bool)
    requires Reserving(explored, neighbors, i, start, c0, coords, next, fallback0, fallback)
    requires i < |neighbors| && neighbors[i] in explored
    ensures Reserving(explored, neighbors, i + 1, start, c0, coords, next, fallback0, fallback)
  {
  }

  /** After the last neighbour: every neighbour is explored or has an entry,
      and the entries' tiles are distinct while no fallback was taken. */
  lemma ReservedAll(explored: seq<nat>, neighbors: seq<nat>, start: Point, c0: seq<Point>, coords: seq<Point>,
                    next: seq<Entry>, fallback0: bool, fallback: bool)
    requires Reserving(explored, neighbors, |neighbors|, start, c0, coords, next, fallback0, fallback)
    ensures c0 <= coords
    ensures forall w :: w in neighbors ==> w in explored || w in NodesOf(next)
    ensures !fallback && Distinct(c0) ==> Distinct(CoordsOf(next))
  {
    forall w | w in neighbors ensures w in explored || w in NodesOf(next) {
      var j :| 0 <= j < |neighbors| && neighbors[j] == w;
    }
    if !fallback && Distinct(c0) {
      var r := CoordsOf(next);
      forall p, q | 0 <= p < q < |r| ensures r[p] != r[q] {
        assert coords[|c0| + p] == r[p] && coords[|c0| + q] == r[q];
      }
    }
  }

  /** Among the first i neighbours, every node not yet explored is listed at
      most once: Dictionary.Add does not throw on them. */
  predicate UnexploredOnce(neighbors: seq<nat>, explored: seq<nat>, i: nat)
    requires i <= |neighbors|
  {
    forall p, q :: 0 <= p < q < i && neighbors[p] == neighbors[q] ==> neighbors[q] in explored
  }

  /** Every entry of nextNodes is one of the first i neighbours. */
  predicate EntriesBefore(next: seq<Entry>, neighbors: seq<nat>, i: nat)
    requires i <= |neighbors|
  {
    forall e :: e in next ==> e.node in neighbors[..i]
  }

  /** An explored neighbour adds no repetition and no entry. */
  lemma OnceSkip(neighbors: seq<nat>, explored: seq<nat>, i: nat, next: seq<Entry>)
    requires i < |neighbors| && neighbors[i] in explored
    requires UnexploredOnce(neighbors, explored, i) && EntriesBefore(next, neighbors, i)
    ensures UnexploredOnce(neighbors, explored, i + 1) && EntriesBefore(next, neighbors, i + 1)
  {
    OnceSkipEntries(neighbors, i, next);
  }

  /** An unexplored neighbour without an entry is not a repetition; its entry
      is one of the first i + 1 neighbours. */
  lemma OnceStep(neighbors: seq<nat>, explored: seq<nat>, i: nat, next: seq<Entry>, c: Point)
    requires i < |neighbors| && neighbors[i] !in explored && neighbors[i] !in NodesOf(next)
    requires forall j :: 0 <= j < i ==> neighbors[j] in explored || neighbors[j] in NodesOf(next)
    requires UnexploredOnce(neighbors, explored, i) && EntriesBefore(next, neighbors, i)
    ensures UnexploredOnce(neighbors, explored, i + 1) && EntriesBefore(next + [Entry(neighbors[i], c)], neighbors, i + 1)
  {
    OnceSkipEntries(neighbors, i, next);
    assert neighbors[..i + 1][i] == neighbors[i];
  }

  /** The entries stay among the neighbours seen so far as the loop moves on. */
  lemma OnceSkipEntries(neighbors: seq<nat>, i: nat, next: seq<Entry>)
    requires i < |neighbors| && EntriesBefore(next, neighbors, i)
    ensures EntriesBefore(next, neighbors, i + 1)
  {
    forall e | e in next ensures e.node in neighbors[..i + 1] {
      var t :| 0 <= t < i && neighbors[..i][t] == e.node;
      assert neighbors[..i + 1][t] == e.node;
    }
  }

  /** An unexplored neighbour that already has an entry is listed twice. */
  lemma OnceBroken(neighbors: seq<nat>, explored: seq<nat>, i: nat, next: seq<Entry>)
    requires i < |neighbors| && neighbors[i] !in explored && neighbors[i] in NodesOf(next)
    requires EntriesBefore(next, neighbors, i)
    ensures !UnexploredOnce(neighbors, explored, |neighbors|)
  {
    var t :| 0 <= t < |next| && NodesOf(next)[t] == neighbors[i];
    assert next[t] in next;
    var p :| 0 <= p < i && neighbors[..i][p] == neighbors[i];
    assert neighbors[p] == neighbors[i];
  }

  /** A duplicate-free neighbour list repeats no unexplored node. */
  lemma SimpleOnce(g: Graph, v: nat, explored: seq<nat>)
    requires SimpleNeighbors(g) && v < |g.nodes|
    ensures UnexploredOnce(Neighbors(g.edges, v), explored, |Neighbors(g.edges, v)|)
  {
    assert Distinct(Neighbors(g.edges, v));
  }

  /** The nodes and tiles of nextNodes after one more entry. */
  lemma AppendEntry(next: seq<Entry>, e: Entry)
    ensures NodesOf(next + [e]) == NodesOf(next) + [e.node]
    ensures CoordsOf(next + [e]) == CoordsOf(next) + [e.coord]
  {
  }

  /** Exploring more keeps the positions already closed closed. */
  lemma ClosedExtend(g: Graph, before: seq<nat>, after: seq<nat>, i: nat)
    requires before <= after && ClosedFrom(g, before, i) && ClosedFrom(g, after, |before|)
    ensures ClosedFrom(g, after, i)
  {
    forall j | i <= j < |after| ensures forall w :: w in Neighbors(g.edges, after[j]) ==> w in after {
      if j < |before| {
        assert after[j] == before[j];
        forall w | w in Neighbors(g.edges, after[j]) ensures w in after {
          var t :| 0 <= t < |before| && before[t] == w;
          assert after[t] == w;
        }
      }
    }
  }

  /** Once every entry of nextNodes is explored, so is every neighbour of the
      node at position `start`. */
  lemma ClosedStart(g: Graph, reserving: seq<nat>, after: seq<nat>, start: nat, next: seq<Entry>)
    requires start < |reserving| && reserving <= after && ClosedFrom(g, after, start + 1)
    requires forall w :: w in Neighbors(g.edges, reserving[start]) ==> w in reserving || w in NodesOf(next)
    requires forall j :: 0 <= j < |next| ==> next[j].node in after
    ensures ClosedFrom(g, after, start)
  {
    assert after[start] == reserving[start];
    forall w | w in Neighbors(g.edges, after[start]) ensures w in after {
      if w in reserving {
        var t :| 0 <= t < |reserving| && reserving[t] == w;
        assert after[t] == w;
      } else {
        var t :| 0 <= t < |next| && NodesOf(next)[t] == w;
      }
    }
  }

  lemma PrefixTrans<T>(a: seq<T>, b: seq<T>, c: seq<T>)
    requires a <= b <= c
    ensures a <= c && |a| <= |b| && (|a| < |b| ==> b[|a|] == c[|a|])
  {
  }

  lemma PrefixMembers<T>(a: seq<T>, b: seq<T>)
    requires a <= b
    ensures forall x :: x in a ==> x in b
  {
    forall x | x in a ensures x in b {
      var t :| 0 <= t < |a| && a[t] == x;
      assert b[t] == x;
    }
  }

  /** Reserving one more tile makes it pending. */
  lemma PendingReserved(c0: seq<Point>, coords: seq<Point>, c: Point, p0: multiset<Point>, p: multiset<Point>)
    requires c0 <= coords && p == p0 + multiset(coords[|c0|..])
    ensures p + multiset{c} == p0 + multiset((coords + [c])[|c0|..])
  {
    assert (coords + [c])[|c0|..] == coords[|c0|..] + [c];
  }

  /** The tile of entry k is still pending when its turn comes. */
  lemma PendingNext(next: seq<Entry>, k: nat, p0: multiset<Point>, p: multiset<Point>)
    requires k < |next| && multiset(CoordsOf(next)) <= p0 && p + multiset(CoordsOf(next[..k])) == p0
    ensures next[k].coord in p
  {
    var c := next[k].coord;
    assert CoordsOf(next) == CoordsOf(next[..k]) + [c] + CoordsOf(next[k + 1..]);
    assert multiset(CoordsOf(next))[c] >= multiset(CoordsOf(next[..k]))[c] + 1;
  }

  /** Entry k's walk took its tile: one more entry's tile is off the pending ones. */
  lemma PendingTaken(next: seq<Entry>, k: nat, p0: multiset<Point>, p: multiset<Point>, p': multiset<Point>)
    requires k < |next| && p + multiset(CoordsOf(next[..k])) == p0
    requires next[k].coord in p && p' == p - multiset{next[k].coord}
    ensures p' + multiset(CoordsOf(next[..k + 1])) == p0
  {
    assert CoordsOf(next[..k + 1]) == CoordsOf(next[..k]) + [next[k].coord];
  }

  /** The entries' walks took exactly the tiles reserved for them. */
  lemma PendingBack(p1: multiset<Point>, p2: multiset<Point>, p3: multiset<Point>, taken: multiset<Point>)
    requires p2 == p1 + taken && p3 + taken == p2
    ensures p3 == p1
  {
    forall x ensures p3[x] == p1[x] {
      assert (p3 + taken)[x] == p3[x] + taken[x] && (p1 + taken)[x] == p1[x] + taken[x];
    }
  }

  /** The walk from s: s itself, then nodes of its subtree. */
  lemma TreeDone(g: Graph, parent: seq<nat>, depth: seq<nat>, explored: seq<nat>, start: nat, s: nat)
    requires start < |explored| && explored[start] == s
    requires RootedTree(g, parent, depth) ==> InSubtree(parent, depth, explored, start + 1, s)
    ensures RootedTree(g, parent, depth) ==> InSubtree(parent, depth, explored, start, s)
  {
    assert Descendant(parent, depth, s, s);
  }

  /** Two stretches of a walk in the subtree of s make one. */
  lemma SubtreeExtend(parent: seq<nat>, depth: seq<nat>, a: seq<nat>, b: seq<nat>, c: seq<nat>, s: nat)
    requires a <= b <= c && InSubtree(parent, depth, b, |a|, s) && InSubtree(parent, depth, c, |b|, s)
    ensures InSubtree(parent, depth, c, |a|, s)
  {
    forall i | |a| <= i < |c| ensures Descendant(parent, depth, c[i], s) {
      if i < |b| {
        assert c[i] == b[i];
      }
    }
  }

  /** p is a walk along edges of g. */
  ghost predicate IsPath(g: Graph, p: seq<nat>) {
    |p| >= 1 && forall i :: 0 <= i < |p| - 1 ==> p[i + 1] in Neighbors(g.edges, p[i])
  }

  /** When every explored node has its neighbours explored, every node
      reachable from an explored node is explored: GenerateLayout gives a room
      to every node connected to the first one. */
  lemma {:induction false} ReachableExplored(g: Graph, explored: seq<nat>, p: seq<nat>)
    requires ClosedFrom(g, explored, 0) && IsPath(g, p) && p[0] in explored
    ensures p[|p| - 1] in explored
    decreases |p|
  {
    if |p| > 1 {
      var q := p[..|p| - 1];
      assert IsPath(g, q) by {
        forall i | 0 <= i < |q| - 1 ensures q[i + 1] in Neighbors(g.edges, q[i]) {
          assert q[i] == p[i] && q[i + 1] == p[i + 1];
        }
      }
      ReachableExplored(g, explored, q);
      var t :| 0 <= t < |explored| && explored[t] == q[|q| - 1];
      assert p[|p| - 1] in Neighbors(g.edges, explored[t]);
    }
  }

  /** A finished walk whose explored nodes are distinct (as on a tree) gives
      every node reachable from an explored node exactly one room. */
  lemma OneRoomPerNode(g: Graph, explored: seq<nat>, rooms: seq<Room>, p: seq<nat>)
    requires Distinct(explored) && ClosedFrom(g, explored, 0) && IsPath(g, p) && p[0] in explored
    requires |rooms| == |explored| && forall i :: 0 <= i < |rooms| ==> rooms[i].missionNode == explored[i]
    ensures exists i :: 0 <= i < |rooms| && rooms[i].missionNode == p[|p| - 1]
    ensures forall i, j :: 0 <= i < |rooms| && 0 <= j < |rooms| && rooms[i].missionNode == p[|p| - 1] == rooms[j].missionNode ==> i == j
  {
    ReachableExplored(g, explored, p);
    var i :| 0 <= i < |explored| && explored[i] == p[|p| - 1];
    assert rooms[i].missionNode == p[|p| - 1];
  }

  // ---------------------------------------------------------------------------
  // Tree-shaped mission graphs

  /** g is a tree rooted at node 0: every other node has a parent one level
      nearer the root and is joined to it by an edge, and every edge joins a
      node to its parent. */
  ghost predicate RootedTree(g: Graph, parent: seq<nat>, depth: seq<nat>) {
    |parent| == |g.nodes| && |depth| == |g.nodes| &&
    (forall v :: 0 < v < |g.nodes| ==> parent[v] < |g.nodes| && depth[v] == depth[parent[v]] + 1) &&
    (forall v :: 0 < v < |g.nodes| ==> v in Neighbors(g.edges, parent[v])) &&
    (forall e :: e in g.edges ==> (0 < e.a < |g.nodes| && parent[e.a] == e.b) || (0 < e.b < |g.nodes| && parent[e.b] == e.a))
  }

  ghost predicate IsTree(g: Graph) {
    exists parent: seq<nat>, depth: seq<nat> :: RootedTree(g, parent, depth)
  }

  /** x lies in the subtree of a: a is x or one of its ancestors. */
  ghost predicate Descendant(parent: seq<nat>, depth: seq<nat>, x: nat, a: nat)
    decreases if x < |depth| then depth[x] else 0
  {
    x == a ||
    (0 < x < |parent| && x < |depth| && parent[x] < |depth| && depth[parent[x]] < depth[x] &&
     Descendant(parent, depth, parent[x], a))
  }

  /** A proper descendant lies deeper than its ancestor. */
  lemma {:induction false} DescendantDepth(parent: seq<nat>, depth: seq<nat>, x: nat, a: nat)
    requires Descendant(parent, depth, x, a) && a < |depth|
    ensures x < |depth| && depth[a] <= depth[x]
    ensures depth[x] == depth[a] ==> x == a
    decreases if x < |depth| then depth[x] else 0
  {
    if x != a {
      DescendantDepth(parent, depth, parent[x], a);
    }
  }

  /** The subtree of a child lies in the subtree of its parent. */
  lemma {:induction false} ChildDescendant(parent: seq<nat>, depth: seq<nat>, x: nat, c: nat)
    requires Descendant(parent, depth, x, c)
    requires 0 < c < |parent| && c < |depth| && parent[c] < |depth| && depth[parent[c]] < depth[c]
    ensures Descendant(parent, depth, x, parent[c])
    decreases if x < |depth| then depth[x] else 0
  {
    if x == c {
      assert Descendant(parent, depth, parent[c], parent[c]);
    } else {
      ChildDescendant(parent, depth, parent[x], c);
    }
  }

  /** Two different nodes on the same level have disjoint subtrees. */
  lemma {:induction false} SiblingsDisjoint(parent: seq<nat>, depth: seq<nat>, x: nat, a: nat, b: nat)
    requires a != b && a < |depth| && b < |depth| && depth[a] == depth[b]
    ensures !(Descendant(parent, depth, x, a) && Descendant(parent, depth, x, b))
    decreases if x < |depth| then depth[x] else 0
  {
    if Descendant(parent, depth, x, a) && Descendant(parent, depth, x, b) {
      if x == a {
        DescendantDepth(parent, depth, a, b);
      } else if x == b {
        DescendantDepth(parent, depth, b, a);
      } else {
        SiblingsDisjoint(parent, depth, parent[x], a, b);
      }
    }
  }

  /** In a tree a neighbour of s is its parent or one of its children. */
  lemma TreeNeighbor(g: Graph, parent: seq<nat>, depth: seq<nat>, s: nat, w: nat)
    requires RootedTree(g, parent, depth) && w in Neighbors(g.edges, s)
    ensures (0 < s < |g.nodes| && w == parent[s]) || (0 < w < |g.nodes| && parent[w] == s)
  {
    var e :| e in g.edges && ((e.a == s && e.b == w) || (e.b == s && e.a == w));
  }

  /** Before s is explored in a tree: the explored nodes are distinct, none
      lies in the subtree of s, and the parent of s is explored. */
  ghost predicate FreshSubtree(parent: seq<nat>, depth: seq<nat>, explored: seq<nat>, s: nat) {
    Distinct(explored) &&
    (forall x :: x in explored ==> !Descendant(parent, depth, x, s)) &&
    (0 < s < |parent| ==> parent[s] in explored)
  }

  /** The positions from `from` on hold nodes of the subtree of s. */
  ghost predicate InSubtree(parent: seq<nat>, depth: seq<nat>, explored: seq<nat>, from: nat, s: nat) {
    forall i :: from <= i < |explored| ==> Descendant(parent, depth, explored[i], s)
  }

  /** The entries of nextNodes from k on are distinct children of the
      explored node s, and no explored node lies in their subtrees. */
  ghost predicate FreshChildren(parent: seq<nat>, depth: seq<nat>, explored: seq<nat>, s: nat, next: seq<Entry>, k: nat) {
    k <= |next| && s in explored && Distinct(NodesOf(next)) && s < |depth| &&
    (forall j :: 0 <= j < |next| ==>
      0 < next[j].node < |parent| && next[j].node < |depth| && parent[next[j].node] == s && depth[next[j].node] == depth[s] + 1) &&
    (forall x, j :: x in explored && k <= j < |next| ==> !Descendant(parent, depth, x, next[j].node))
  }

  /** In a tree, exploring s keeps the explored nodes distinct, and the new
      one is in its subtree. */
  lemma TreeVisit(g: Graph, parent: seq<nat>, depth: seq<nat>, explored: seq<nat>, s: nat)
    requires RootedTree(g, parent, depth) ==> FreshSubtree(parent, depth, explored, s)
    ensures RootedTree(g, parent, depth) ==> Distinct(explored + [s]) && InSubtree(parent, depth, explored + [s], |explored|, s)
  {
    assert Descendant(parent, depth, s, s);
  }

  /** The entries ReserveNeighbors makes for s in a tree are children of s
      whose subtrees hold no explored node. */
  lemma TreeEntries(g: Graph, parent: seq<nat>, depth: seq<nat>, explored: seq<nat>, s: nat, next: seq<Entry>)
    requires s < |g.nodes| && Distinct(NodesOf(next))
    requires RootedTree(g, parent, depth) ==> FreshSubtree(parent, depth, explored, s)
    requires forall e :: e in next ==> e.node in Neighbors(g.edges, s) && e.node !in explored + [s]
    ensures RootedTree(g, parent, depth) ==> FreshChildren(parent, depth, explored + [s], s, next, 0)
  {
    if RootedTree(g, parent, depth) {
      TreeEntriesChildren(g, parent, depth, explored, s, next);
    }
  }

  lemma TreeEntriesChildren(g: Graph, parent: seq<nat>, depth: seq<nat>, explored: seq<nat>, s: nat, next: seq<Entry>)
    requires RootedTree(g, parent, depth) && s < |g.nodes| && FreshSubtree(parent, depth, explored, s)
    requires Distinct(NodesOf(next))
    requires forall e :: e in next ==> e.node in Neighbors(g.edges, s) && e.node !in explored + [s]
    ensures FreshChildren(parent, depth, explored + [s], s, next, 0)
  {
    forall j | 0 <= j < |next|
      ensures 0 < next[j].node < |parent| && next[j].node < |depth| && parent[next[j].node] == s && depth[next[j].node] == depth[s] + 1
    {
      assert next[j] in next;
      TreeNeighbor(g, parent, depth, s, next[j].node);
    }
    forall x, j | x in explored + [s] && 0 <= j < |next| ensures !Descendant(parent, depth, x, next[j].node) {
      var c := next[j].node;
      if Descendant(parent, depth, x, c) {
        if x == s {
          DescendantDepth(parent, depth, s, c);
        } else {
          assert x in explored;
          ChildDescendant(parent, depth, x, c);
        }
      }
    }
  }

  /** After entry k's walk, which explored only its subtree, the later
      entries are still fresh and everything new lies under s. */
  lemma TreeExploreStep(g: Graph, parent: seq<nat>, depth: seq<nat>, start: seq<nat>, before: seq<nat>, after: seq<nat>, s: nat, next: seq<Entry>, k: nat)
    requires k < |next| && start <= before <= after
    requires RootedTree(g, parent, depth) ==>
      FreshChildren(parent, depth, before, s, next, k) && InSubtree(parent, depth, before, |start|, s) &&
      Distinct(after) && InSubtree(parent, depth, after, |before|, next[k].node)
    ensures RootedTree(g, parent, depth) ==>
      Distinct(after) && FreshChildren(parent, depth, after, s, next, k + 1) && InSubtree(parent, depth, after, |start|, s)
  {
    if RootedTree(g, parent, depth) {
      ChildStep(parent, depth, before, after, s, next, k);
      SubtreeExtend(parent, depth, start, before, after, s);
    }
  }

  lemma ChildStep(parent: seq<nat>, depth: seq<nat>, before: seq<nat>, after: seq<nat>, s: nat, next: seq<Entry>, k: nat)
    requires FreshChildren(parent, depth, before, s, next, k) && k < |next|
    requires before <= after && InSubtree(parent, depth, after, |before|, next[k].node)
    ensures FreshChildren(parent, depth, after, s, next, k + 1)
    ensures InSubtree(parent, depth, after, |before|, s)
  {
    var c := next[k].node;
    PrefixMembers(before, after);
    forall i | |before| <= i < |after| ensures Descendant(parent, depth, after[i], s) {
      ChildDescendant(parent, depth, after[i], c);
    }
    forall x, j | x in after && k + 1 <= j < |next| ensures !Descendant(parent, depth, x, next[j].node) {
      var i :| 0 <= i < |after| && after[i] == x;
      if i < |before| {
        assert before[i] == x && x in before;
      } else {
        assert NodesOf(next)[j] != NodesOf(next)[k];
        assert Descendant(parent, depth, after[i], c);
        assert depth[next[j].node] == depth[s] + 1 == depth[c];
        SiblingsDisjoint(parent, depth, x, c, next[j].node);
      }
    }
  }

  /** A chain through every node once, starting at node 0, is a tree: each
      node's parent is the one before it. */
  lemma ChainIsTree(nodes: seq<MissionNodeData>, order: seq<nat>)
    requires |order| == |nodes| && order != [] && order[0] == 0 && Distinct(order)
    requires forall v :: 0 <= v < |nodes| ==> v in order
    requires forall i :: 0 <= i < |order| ==> order[i] < |nodes|
    ensures IsTree(Graph(nodes, Chain(order)))
  {
    var n := |nodes|;
    var depth := seq(n, v requires 0 <= v < n => IndexOf(order, v));
    var parent := seq(n, v requires 0 <= v < n => ChainParent(order, v));
    ChainLevels(order, parent, depth);
    ChainEdges(order, parent);
    assert RootedTree(Graph(nodes, Chain(order)), parent, depth);
  }

  /** The parent links of a chain: one level up, along an edge. */
  lemma ChainLevels(order: seq<nat>, parent: seq<nat>, depth: seq<nat>)
    requires order != [] && order[0] == 0 && Distinct(order)
    requires forall v :: 0 <= v < |order| ==> v in order
    requires forall i :: 0 <= i < |order| ==> order[i] < |order|
    requires |parent| == |order| && forall v :: 0 <= v < |order| ==> parent[v] == ChainParent(order, v)
    requires |depth| == |order| && forall v :: 0 <= v < |order| ==> depth[v] == IndexOf(order, v)
    ensures forall v :: 0 < v < |order| ==> parent[v] < |order| && depth[v] == depth[parent[v]] + 1
    ensures forall v :: 0 < v < |order| ==> v in Neighbors(Chain(order), parent[v])
  {
    forall v | 0 < v < |order| ensures parent[v] < |order| && depth[v] == depth[parent[v]] + 1 && v in Neighbors(Chain(order), parent[v]) {
      ChainParentLink(order, v);
      assert Chain(order)[IndexOf(order, v) - 1] in Chain(order);
    }
  }

  /** Every edge of a chain joins a node to its parent. */
  lemma ChainEdges(order: seq<nat>, parent: seq<nat>)
    requires order != [] && order[0] == 0 && Distinct(order)
    requires forall i :: 0 <= i < |order| ==> order[i] < |order|
    requires |parent| == |order| && forall v :: 0 <= v < |order| ==> parent[v] == ChainParent(order, v)
    ensures forall e :: e in Chain(order) ==> 0 < e.b < |order| && parent[e.b] == e.a
  {
    forall e | e in Chain(order) ensures 0 < e.b < |order| && parent[e.b] == e.a {
      var i :| 0 <= i < |Chain(order)| && Chain(order)[i] == e;
      ChainEdgeLink(order, i);
    }
  }

  /** In a chain, the node before v. */
  function ChainParent(order: seq<nat>, v: nat): nat {
    var i := IndexOf(order, v);
    if 0 < i < |order| then order[i - 1] else 0
  }

  /** Every node but the first has the one before it as parent, joined by an edge. */
  lemma ChainParentLink(order: seq<nat>, v: nat)
    requires order != [] && order[0] == 0 && Distinct(order) && v in order && v != 0
    ensures 0 < IndexOf(order, v) < |order|
    ensures ChainParent(order, v) == order[IndexOf(order, v) - 1]
    ensures IndexOf(order, ChainParent(order, v)) == IndexOf(order, v) - 1
    ensures Chain(order)[IndexOf(order, v) - 1] == Edge(ChainParent(order, v), v, 1)
  {
    IndexOfDistinct(order, IndexOf(order, v) - 1);
  }

  /** Edge i of a chain joins the node at i + 1 to its parent at i. */
  lemma ChainEdgeLink(order: seq<nat>, i: nat)
    requires order != [] && order[0] == 0 && Distinct(order) && i < |Chain(order)|
    ensures Chain(order)[i].b == order[i + 1] != 0
    ensures ChainParent(order, order[i + 1]) == Chain(order)[i].a
  {
    IndexOfDistinct(order, i + 1);
    assert order[i + 1] != order[0];
  }

  /** The visiting order of a mission graph (entrance 0, every pooled node
      once, the goal last) holds every node exactly once, the entrance first. */
  lemma MissionPath(n: nat, placed: seq<nat>, goal: nat)
    requires goal >= 1 && n == goal + 1 && multiset(placed) == multiset(MissionGraphGenerator.Range(1, goal))
    ensures var order := MissionGraphGenerator.Path(0, placed, goal);
      |order| == n && order[0] == 0 && Distinct(order) &&
      (forall v :: 0 <= v < n ==> v in order) &&
      (forall i :: 0 <= i < |order| ==> order[i] < n)
  {
    var order := MissionGraphGenerator.Path(0, placed, goal);
    var all := MissionGraphGenerator.Range(0, goal + 1);
    assert all == [0] + MissionGraphGenerator.Range(1, goal) + [goal];
    assert multiset(order) == multiset(all);
    assert Distinct(all);
    SubMultisetDistinct(order, all);
    forall v | 0 <= v < n ensures v in order {
      assert all[v] == v;
      assert v in multiset(all);
    }
    forall i | 0 <= i < |order| ensures order[i] < n {
      assert order[i] in multiset(all);
    }
  }

  /** Every mission graph GenerateMissionGraph builds (its entrance at node 0,
      a chain from it through every other pooled node to the goal) is a tree,
      so the walk above explores each of its nodes at most once. */
  lemma MissionGraphIsTree(nodes: seq<MissionNodeData>, placed: seq<nat>, goal: nat)
    requires goal >= 1 && |nodes| == goal + 1 && multiset(placed) == multiset(MissionGraphGenerator.Range(1, goal))
    ensures IsTree(Graph(nodes, Chain(MissionGraphGenerator.Path(0, placed, goal))))
  {
    MissionPath(|nodes|, placed, goal);
    ChainIsTree(nodes, MissionGraphGenerator.Path(0, placed, goal));
  }

  /** No node of a mission graph lists a neighbour twice, so the walk over it
      raises no exception. */
  lemma MissionGraphSimple(nodes: seq<MissionNodeData>, placed: seq<nat>, goal: nat)
    requires goal >= 1 && |nodes| == goal + 1 && multiset(placed) == multiset(MissionGraphGenerator.Range(1, goal))
    ensures SimpleNeighbors(Graph(nodes, Chain(MissionGraphGenerator.Path(0, placed, goal))))
  {
    var order := MissionGraphGenerator.Path(0, placed, goal);
    MissionPath(|nodes|, placed, goal);
    ChainSimple(order);
    SimpleGraph(Graph(nodes, Chain(order)));
  }

  /** Some room carries mission node v. */
  predicate HasRoom(rooms: seq<Room>, v: nat) {
    exists i :: 0 <= i < |rooms| && rooms[i].missionNode == v
  }

  /** What GenerateLayout ensures on a mission graph (explored from node 0,
      no node twice, every explored node closed) gives every node of the
      mission exactly one room. */
  lemma MissionLayoutRooms(g: Graph, placed: seq<nat>, goal: nat, explored: seq<nat>, rooms: seq<Room>)
    requires goal >= 1 && |g.nodes| == goal + 1 && multiset(placed) == multiset(MissionGraphGenerator.Range(1, goal))
    requires g.edges == Chain(MissionGraphGenerator.Path(0, placed, goal))
    requires |explored| >= 1 && explored[0] == 0 && Distinct(explored) && ClosedFrom(g, explored, 0)
    requires |rooms| == |explored| && forall i :: 0 <= i < |rooms| ==> rooms[i].missionNode == explored[i]
    ensures forall v :: 0 <= v < |g.nodes| ==> HasRoom(rooms, v)
    ensures forall i, j :: 0 <= i < |rooms| && 0 <= j < |rooms| && rooms[i].missionNode == rooms[j].missionNode ==> i == j
  {
    var order := MissionGraphGenerator.Path(0, placed, goal);
    MissionPath(|g.nodes|, placed, goal);
    forall v | 0 <= v < |g.nodes| ensures HasRoom(rooms, v) {
      var k := IndexOf(order, v);
      var p := order[..k + 1];
      assert IsPath(g, p) by {
        forall i | 0 <= i < |p| - 1 ensures p[i + 1] in Neighbors(g.edges, p[i]) {
          assert Chain(order)[i] == Edge(order[i], order[i + 1], 1);
          assert Chain(order)[i] in g.edges;
        }
      }
      assert p[0] == explored[0];
      OneRoomPerNode(g, explored, rooms, p);
    }
    forall i, j | 0 <= i < |rooms| && 0 <= j < |rooms| && rooms[i].missionNode == rooms[j].missionNode ensures i == j {
      assert explored[i] == explored[j];
    }
  }

  /** In a duplicate-free sequence the first index of s[i] is i. */
  lemma IndexOfDistinct<T>(s: seq<T>, i: nat)
    requires Distinct(s) && i < |s|
    ensures IndexOf(s, s[i]) == i
  {
  }
}
