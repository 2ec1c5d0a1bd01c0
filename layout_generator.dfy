/** LayoutGenerator: picks rooms out of one random Voronoi diagram. A room is
    a pseudo-randomly chosen origin cell plus the first size-1 cells of the
    origin's neighbour list, each cell kept as its own clockwise vertex loop. */
module LayoutGenerator {
  import opened Geometry
  import opened Voronoi
  import opened Helpers
  import opened LayoutUtil

  /** The exceptions the generator can raise. */
  datatype Failure =
    | ListIndexOutOfRange   // neighborSites[i] beyond the recorded neighbours
    | EmptyChoice           // RandomElement over an empty site list
    | AddRangeNull          // layout.AddRange(null) after GenerateRoom returned null
    | ArgumentOutOfRange    // Random.Next(0, hi) with a negative hi

  /** A C# call that returns a value, returns null, or throws. */
  datatype Outcome<T> = Value(value: T) | Null | Thrown(failure: Failure)

  /** Decimal digits of n, as C# writes an int in a string concatenation. */
  function NatToString(n: nat): (s: string)
    ensures |s| >= 1
    ensures forall c :: c in s ==> '0' <= c <= '9'
  {
    var digit := ['0' + (n % 10) as char];
    if n < 10 then digit else NatToString(n / 10) + digit
  }

  /** The pieces of a room grown from origin: the origin's cell, then the cells
      of its first size-1 recorded neighbours. */
  function RoomPieces(lib: Library, d: Diagram, sort: Sorter, origin: Point, size: nat): (pieces: seq<seq<Point>>)
    requires size >= 1 && |lib.neighbors(d, origin)| >= size - 1
  {
    var nbs := lib.neighbors(d, origin);
    [CellVertices(lib, d, sort, origin)] + seq(size - 1, k requires 0 <= k < size - 1 => CellVertices(lib, d, sort, nbs[k]))
  }

  /** What GenerateRoom(voronoi, size, seed) yields. */
  function RoomOutcome(lib: Library, d: Diagram, sort: Sorter, picker: Picker, size: int, seed: string): Outcome<seq<seq<Point>>> {
    if size < 1 then Null
    else if |lib.siteCoords(d)| == 0 then Thrown(EmptyChoice)
    else
      var origin := RandomElement(lib.siteCoords(d), seed, picker);
      if |lib.neighbors(d, origin)| < size - 1 then Thrown(ListIndexOutOfRange)
      else Value(RoomPieces(lib, d, sort, origin, size))
  }

  /** The pieces of a room: piece 0 is the origin's cell and piece k the cell
      of the origin's (k-1)-th neighbour. */
  lemma RoomPiecesShape(lib: Library, d: Diagram, sort: Sorter, origin: Point, size: nat)
    requires size >= 1 && |lib.neighbors(d, origin)| >= size - 1
    ensures var pieces := RoomPieces(lib, d, sort, origin, size);
      |pieces| == size &&
      pieces[0] == CellVertices(lib, d, sort, origin) &&
      forall k :: 1 <= k < size ==> pieces[k] == CellVertices(lib, d, sort, lib.neighbors(d, origin)[k - 1])
  {
  }

  /** With a permuting sorter every piece of a room lists its cell's boundary
      vertices once each. */
  lemma RoomPiecesDistinct(lib: Library, d: Diagram, sort: Sorter, origin: Point, size: nat)
    requires size >= 1 && |lib.neighbors(d, origin)| >= size - 1
    requires IsPermutation(sort)
    ensures forall k :: 0 <= k < size ==> Distinct(RoomPieces(lib, d, sort, origin, size)[k])
  {
    var pieces := RoomPieces(lib, d, sort, origin, size);
    var nbs := lib.neighbors(d, origin);
    RoomPiecesShape(lib, d, sort, origin, size);
    forall k | 0 <= k < size ensures Distinct(pieces[k]) {
      if k == 0 {
        CellVerticesSpec(lib, d, sort, origin);
      } else {
        CellVerticesSpec(lib, d, sort, nbs[k - 1]);
      }
    }
  }

  /** A successful GenerateRoom has size >= 1 and a non-empty site list, and
      its pieces are the origin's cell and its first size-1 neighbours' cells. */
  lemma RoomOutcomeShape(lib: Library, d: Diagram, sort: Sorter, picker: Picker, size: int, seed: string)
    requires RoomOutcome(lib, d, sort, picker, size, seed).Value?
    ensures size >= 1 && |lib.siteCoords(d)| > 0
    ensures var origin := RandomElement(lib.siteCoords(d), seed, picker);
      |lib.neighbors(d, origin)| >= size - 1 &&
      RoomOutcome(lib, d, sort, picker, size, seed).value == RoomPieces(lib, d, sort, origin, size)
  {
  }

  /** A size-1 room is the origin cell alone. */
  lemma SingleCellRoom(lib: Library, d: Diagram, sort: Sorter, picker: Picker, seed: string)
    requires |lib.siteCoords(d)| > 0
    ensures RoomOutcome(lib, d, sort, picker, 1, seed)
      == Value([CellVertices(lib, d, sort, RandomElement(lib.siteCoords(d), seed, picker))])
  {
    var origin := RandomElement(lib.siteCoords(d), seed, picker);
    assert RoomPieces(lib, d, sort, origin, 1) == [CellVertices(lib, d, sort, origin)];
  }

  /** System.Random; the model keeps its identity and its seed, and treats its
      draws as arbitrary values in range. */
  class Rng {
    const seed: string

    constructor (seed: string)
      ensures this.seed == seed
    {
      this.seed := seed;
    }

    /** Random.Next(lo, hi); it throws ArgumentOutOfRangeException when hi < lo. */
    method Next(lo: int, hi: int) returns (v: int, thrown: bool)
      ensures thrown <==> hi < lo
      ensures !thrown ==> InRandomRange(v, lo, hi)
    {
      if hi < lo {
        return lo, true;
      }
      assert InRandomRange(lo, lo, hi);
      v :| InRandomRange(v, lo, hi);
      thrown := false;
    }
  }

  /** The concatenated rooms seeded `randomSeed + 0`, `randomSeed + 1`, ... up to
      room count - 1, or the first failure among them. */
  function LayoutOutcome(lib: Library, d: Diagram, sort: Sorter, picker: Picker, roomSize: int, seed: string, count: nat): Outcome<seq<seq<Point>>>
  {
    if count == 0 then Value([])
    else
      var before := LayoutOutcome(lib, d, sort, picker, roomSize, seed, count - 1);
      if !before.Value? then before
      else match RoomOutcome(lib, d, sort, picker, roomSize, seed + NatToString(count - 1))
        case Value(pieces) => Value(before.value + pieces)
        case Null => Thrown(AddRangeNull)
        case Thrown(f) => Thrown(f)
  }

  /** When every room succeeds the layout has roomCount * roomSize pieces. */
  lemma {:induction false} LayoutOutcomeLength(lib: Library, d: Diagram, sort: Sorter, picker: Picker, roomSize: int, seed: string, count: nat)
    requires LayoutOutcome(lib, d, sort, picker, roomSize, seed, count).Value?
    ensures count == 0 ==> LayoutOutcome(lib, d, sort, picker, roomSize, seed, count).value == []
    ensures count > 0 ==> roomSize >= 1 && |LayoutOutcome(lib, d, sort, picker, roomSize, seed, count).value| == count * roomSize
  {
    if count > 0 {
      var before := LayoutOutcome(lib, d, sort, picker, roomSize, seed, count - 1);
      var room := RoomOutcome(lib, d, sort, picker, roomSize, seed + NatToString(count - 1));
      assert before.Value? && room.Value?;
      assert LayoutOutcome(lib, d, sort, picker, roomSize, seed, count).value == before.value + room.value;
      RoomLength(lib, d, sort, picker, roomSize, seed + NatToString(count - 1));
      LayoutOutcomeLength(lib, d, sort, picker, roomSize, seed, count - 1);
      MulSucc(count - 1, roomSize);
    }
  }

  lemma MulSucc(a: nat, b: int)
    ensures (a + 1) * b == a * b + b
  {
  }

  /** A successful layout of n rooms starts with the layout of its first i rooms. */
  lemma {:induction false} LayoutOutcomePrefix(lib: Library, d: Diagram, sort: Sorter, picker: Picker, roomSize: int, seed: string, i: nat, n: nat)
    requires i <= n
    requires LayoutOutcome(lib, d, sort, picker, roomSize, seed, n).Value?
    ensures LayoutOutcome(lib, d, sort, picker, roomSize, seed, i).Value?
    ensures LayoutOutcome(lib, d, sort, picker, roomSize, seed, i).value <= LayoutOutcome(lib, d, sort, picker, roomSize, seed, n).value
  {
    if i < n {
      LayoutOutcomePrefix(lib, d, sort, picker, roomSize, seed, i, n - 1);
    }
  }

  /** Room i, seeded seed + i, occupies pieces [i * roomSize, (i + 1) * roomSize)
      of a successful layout. */
  lemma LayoutOutcomeRoom(lib: Library, d: Diagram, sort: Sorter, picker: Picker, roomSize: int, seed: string, i: nat, n: nat)
    requires i < n
    requires LayoutOutcome(lib, d, sort, picker, roomSize, seed, n).Value?
    ensures RoomOutcome(lib, d, sort, picker, roomSize, seed + NatToString(i)).Value?
    ensures roomSize >= 1 && (i + 1) * roomSize <= |LayoutOutcome(lib, d, sort, picker, roomSize, seed, n).value|
    ensures LayoutOutcome(lib, d, sort, picker, roomSize, seed, n).value[i * roomSize .. (i + 1) * roomSize]
      == RoomOutcome(lib, d, sort, picker, roomSize, seed + NatToString(i)).value
  {
    LayoutOutcomePrefix(lib, d, sort, picker, roomSize, seed, i + 1, n);
    var before := LayoutOutcome(lib, d, sort, picker, roomSize, seed, i);
    var room := RoomOutcome(lib, d, sort, picker, roomSize, seed + NatToString(i));
    assert before.Value? && room.Value?;
    LayoutOutcomeLength(lib, d, sort, picker, roomSize, seed, i + 1);
    LayoutOutcomeLength(lib, d, sort, picker, roomSize, seed, i);
    RoomLength(lib, d, sort, picker, roomSize, seed + NatToString(i));
    assert LayoutOutcome(lib, d, sort, picker, roomSize, seed, i + 1).value == before.value + room.value;
    MulSucc(i, roomSize);
    SliceOfPrefix(LayoutOutcome(lib, d, sort, picker, roomSize, seed, n).value, before.value, room.value, i * roomSize, (i + 1) * roomSize);
  }

  /** A successful room has roomSize pieces. */
  lemma RoomLength(lib: Library, d: Diagram, sort: Sorter, picker: Picker, size: int, seed: string)
    requires RoomOutcome(lib, d, sort, picker, size, seed).Value?
    ensures size >= 1 && |RoomOutcome(lib, d, sort, picker, size, seed).value| == size
  {
    RoomOutcomeShape(lib, d, sort, picker, size, seed);
    RoomPiecesShape(lib, d, sort, RandomElement(lib.siteCoords(d), seed, picker), size);
  }

  /** The part b of a prefix a + b of s sits at [|a|, |a| + |b|) of s. */
  lemma SliceOfPrefix<T>(s: seq<T>, a: seq<T>, b: seq<T>, lo: int, hi: int)
    requires a + b <= s && lo == |a| && hi == |a| + |b|
    ensures 0 <= lo <= hi <= |s| && s[lo .. hi] == b
  {
    assert s[..|a| + |b|] == a + b;
    assert s[|a| .. |a| + |b|] == (a + b)[|a|..];
  }

  /** A failed room stops the layout: every longer layout fails the same way. */
  lemma {:induction false} LayoutOutcomeSticky(lib: Library, d: Diagram, sort: Sorter, picker: Picker, roomSize: int, seed: string, i: nat, n: nat)
    requires i <= n
    requires !LayoutOutcome(lib, d, sort, picker, roomSize, seed, i).Value?
    ensures LayoutOutcome(lib, d, sort, picker, roomSize, seed, n) == LayoutOutcome(lib, d, sort, picker, roomSize, seed, i)
  {
    if i < n {
      LayoutOutcomeSticky(lib, d, sort, picker, roomSize, seed, i, n - 1);
    }
  }

  /** The MonoBehaviour's serialized settings and its cached state. */
  class LayoutGenerator {
    var randomSeed: string
    var pointCount: int
    var width: int
    var height: int
    var random: Rng?
    var voronoi: Diagram
    var layout: seq<seq<Point>>

    /** The serialized defaults: seed "lelele", 150 points, 1000 x 1000. */
    constructor ()
      ensures randomSeed == "lelele" && pointCount == 150 && width == 1000 && height == 1000
      ensures random == null && layout == []
    {
      randomSeed := "lelele";
      pointCount := 150;
      width := 1000;
      height := 1000;
      random := null;
      voronoi := Diagram([], [], Rect(0, 0, 0, 0));
      layout := [];
    }

    /** GetRandom: the generator is created on the first call, seeded from
        randomSeed, and every later call returns that same instance. */
    method GetRandom() returns (r: Rng)
      modifies this`random
      ensures random == r
      ensures old(random) != null ==> r == old(random)
      ensures old(random) == null ==> fresh(r) && r.seed == randomSeed
    {
      if random == null {
        random := new Rng(randomSeed);
      }
      r := random;
    }

    /** GenerateVoronoiObject: pointCount sites in [0,width) x [0,height) drawn
        from the cached generator, colour 0 each, bounds (0,0,width,height).
        A positive pointCount with a negative width or height throws at the
        first draw, after the generator has been fetched. */
    method GenerateVoronoiObject() returns (d: Outcome<Diagram>)
      modifies this`random
      ensures d.Thrown? <==> pointCount > 0 && (width < 0 || height < 0)
      ensures d.Value? || d == Thrown(ArgumentOutOfRange)
      ensures d.Value? ==> |d.value.points| == |d.value.colors| == if pointCount > 0 then pointCount else 0
      ensures d.Value? ==> forall i :: 0 <= i < |d.value.colors| ==> d.value.colors[i] == 0
      ensures d.Value? ==> forall p :: p in d.value.points ==> InRandomRange(p.x, 0, width) && InRandomRange(p.y, 0, height)
      ensures d.Value? ==> d.value.plotBounds == Rect(0, 0, width, height)
      ensures old(random) != null ==> random == old(random)
      ensures old(random) == null && pointCount > 0 ==> fresh(random) && random != null && random.seed == randomSeed
      ensures pointCount <= 0 ==> random == old(random)
    {
      var points: seq<Point> := [];
      var colors: seq<nat> := [];
      var i := 0;
      while i < pointCount
        invariant 0 <= i && (pointCount > 0 ==> i <= pointCount) && (pointCount <= 0 ==> i == 0)
        invariant i > 0 ==> width >= 0 && height >= 0
        invariant |points| == |colors| == i
        invariant forall k :: 0 <= k < i ==> colors[k] == 0
        invariant forall p :: p in points ==> InRandomRange(p.x, 0, width) && InRandomRange(p.y, 0, height)
        invariant old(random) != null ==> random == old(random)
        invariant old(random) == null && i > 0 ==> fresh(random) && random != null && random.seed == randomSeed
        invariant i == 0 ==> random == old(random)
      {
        colors := colors + [0];
        var rx := GetRandom();
        var x, thrownX := rx.Next(0, width);
        if thrownX {
          return Thrown(ArgumentOutOfRange);
        }
        var ry := GetRandom();
        var y, thrownY := ry.Next(0, height);
        if thrownY {
          return Thrown(ArgumentOutOfRange);
        }
        points := points + [Point(x, y)];
        i := i + 1;
      }
      d := Value(Diagram(points, colors, Rect(0, 0, width, height)));
    }

    /** GenerateRoom: no room (null) for size < 1; otherwise the origin cell
        chosen by the seed and its first size-1 neighbours' cells, or the
        exception the neighbour indexing raises. */
    method GenerateRoom(lib: Library, d: Diagram, sort: Sorter, picker: Picker, size: int, seed: string)
      returns (r: Outcome<seq<seq<Point>>>)
      ensures r == RoomOutcome(lib, d, sort, picker, size, seed)
      ensures size < 1 <==> r == Null
    {
      if size < 1 {
        return Null;
      }
      var sites := lib.siteCoords(d);
      if |sites| == 0 {
        return Thrown(EmptyChoice);
      }
      var coord := RandomElement(sites, seed, picker);
      var baseRoom := lib.boundary(d, coord);
      var baseVertices := GetVerticesFromLineSegments(baseRoom);
      var finalRoomVertices := [baseVertices];
      var neighborSites := lib.neighbors(d, coord);
      for i := 0 to size - 1
        invariant |finalRoomVertices| == i + 1
        invariant finalRoomVertices[0] == Dedup(Endpoints(baseRoom))
        invariant i > 0 ==> i <= |neighborSites|
        invariant forall k :: 1 <= k <= i ==> finalRoomVertices[k] == Dedup(Endpoints(lib.boundary(d, neighborSites[k - 1])))
      {
        if i >= |neighborSites| {
          return Thrown(ListIndexOutOfRange);
        }
        var neighbor := lib.boundary(d, neighborSites[i]);
        var vertices := GetVerticesFromLineSegments(neighbor);
        finalRoomVertices := finalRoomVertices + [vertices];
      }
      var clockwiseVertices := SortEach(sort, finalRoomVertices);
      assert clockwiseVertices == RoomPieces(lib, d, sort, coord, size);
      r := Value(clockwiseVertices);
    }

    /** The foreach of GenerateRoom that sorts every piece clockwise, in order. */
    static method SortEach(sort: Sorter, pieces: seq<seq<Point>>) returns (sorted: seq<seq<Point>>)
      ensures |sorted| == |pieces|
      ensures forall j :: 0 <= j < |pieces| ==> sorted[j] == sort(pieces[j])
    {
      sorted := [];
      for k := 0 to |pieces|
        invariant |sorted| == k
        invariant forall j :: 0 <= j < k ==> sorted[j] == sort(pieces[j])
      {
        sorted := sorted + [sort(pieces[k])];
      }
    }

    /** The loop of GenerateLayout: roomCount rooms seeded seed + i, appended
        in order, or the first exception a room raises. */
    method AddRooms(lib: Library, d: Diagram, sort: Sorter, picker: Picker, roomSize: int, roomCount: int, seed: string)
      returns (r: Outcome<seq<seq<Point>>>)
      ensures r == LayoutOutcome(lib, d, sort, picker, roomSize, seed, if roomCount > 0 then roomCount else 0)
    {
      var pieces: seq<seq<Point>> := [];
      var i := 0;
      while i < roomCount
        invariant 0 <= i && (roomCount > 0 ==> i <= roomCount) && (roomCount <= 0 ==> i == 0)
        invariant LayoutOutcome(lib, d, sort, picker, roomSize, seed, i) == Value(pieces)
      {
        var room := GenerateRoom(lib, d, sort, picker, roomSize, seed + NatToString(i));
        match room {
          case Null =>
            LayoutOutcomeSticky(lib, d, sort, picker, roomSize, seed, i + 1, roomCount);
            return Thrown(AddRangeNull);
          case Thrown(f) =>
            LayoutOutcomeSticky(lib, d, sort, picker, roomSize, seed, i + 1, roomCount);
            return Thrown(f);
          case Value(p) =>
            assert LayoutOutcome(lib, d, sort, picker, roomSize, seed, i + 1) == Value(pieces + p);
            pieces := pieces + p;
        }
        i := i + 1;
      }
      r := Value(pieces);
    }

    /** GenerateLayout: a fresh diagram, then roomCount rooms seeded
        randomSeed + i appended in order. An exception while drawing the
        diagram leaves the cached diagram and layout as they were; one raised
        by a room leaves the cached layout as it was. */
    method GenerateLayout(lib: Library, sort: Sorter, picker: Picker, roomSize: int, roomCount: int)
      returns (r: Outcome<seq<seq<Point>>>)
      modifies this`random, this`voronoi, this`layout
      ensures old(random) != null ==> random == old(random)
      ensures old(random) == null && pointCount > 0 ==> fresh(random) && random != null && random.seed == randomSeed
      ensures pointCount <= 0 ==> random == old(random)
      ensures pointCount > 0 && (width < 0 || height < 0) ==>
        r == Thrown(ArgumentOutOfRange) && voronoi == old(voronoi) && layout == old(layout)
      ensures !(pointCount > 0 && (width < 0 || height < 0)) ==>
        |voronoi.points| == |voronoi.colors| == (if pointCount > 0 then pointCount else 0) &&
        (forall i :: 0 <= i < |voronoi.colors| ==> voronoi.colors[i] == 0) &&
        (forall p :: p in voronoi.points ==> InRandomRange(p.x, 0, width) && InRandomRange(p.y, 0, height)) &&
        voronoi.plotBounds == Rect(0, 0, width, height) &&
        r == LayoutOutcome(lib, voronoi, sort, picker, roomSize, randomSeed, if roomCount > 0 then roomCount else 0) &&
        (r.Value? ==> layout == r.value) &&
        (!r.Value? ==> layout == old(layout))
    {
      var d := GenerateVoronoiObject();
      if !d.Value? {
        return Thrown(ArgumentOutOfRange);
      }
      voronoi := d.value;
      r := AddRooms(lib, d.value, sort, picker, roomSize, roomCount, randomSeed);
      if r.Value? {
        layout := r.value;
      }
    }
  }
}
