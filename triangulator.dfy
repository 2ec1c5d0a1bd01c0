/** Triangulator: hands a polygon outline with holes to Triangle.NET and
    turns the triangles it returns into a vertex list without repeated (x, z)
    positions plus an index buffer into it. Triangle.NET itself is a library
    call: a function from the polygon to its triangles. Coordinates are
    integers, so "same position" is exact equality. */
module Triangulation {
  import opened Geometry

  /** A Vector3 of the output mesh. */
  datatype Vertex3 = Vertex3(x: int, y: int, z: int)

  /** A Triangle.NET contour; `hole` is the flag it was added with. */
  datatype Contour = Contour(vertices: seq<Point>, hole: bool)

  /** The Polygon handed to Triangle.NET: what was added to it, in order. */
  datatype Polygon = Polygon(points: seq<Point>, segments: seq<Segment>, contours: seq<Contour>)

  datatype Triangle = Triangle(v0: Point, v1: Point, v2: Point)

  /** ITriangle.GetVertex(j). */
  function GetVertex(t: Triangle, j: int): Point
    requires 0 <= j < 3
  {
    if j == 0 then t.v0 else if j == 1 then t.v1 else t.v2
  }

  /** Polygon.Triangulate: the triangles of the mesh Triangle.NET builds. */
  type Mesher = Polygon -> seq<Triangle>

  /** The closed outline: one segment per point, from each point to the next
      one cyclically. */
  function Ring(points: seq<Point>): (r: seq<Segment>)
    ensures |r| == |points|
    ensures forall i :: 0 <= i < |points| ==> r[i] == Segment(points[i], points[(i + 1) % |points|])
  {
    seq(|points|, i requires 0 <= i < |points| => Segment(points[i], if i == |points| - 1 then points[0] else points[i + 1]))
  }

  /** Every hole as a contour with the same vertices, flagged as a hole. */
  function Holes(holes: seq<seq<Point>>): (r: seq<Contour>)
    ensures |r| == |holes| && forall i :: 0 <= i < |holes| ==> r[i] == Contour(holes[i], true)
  {
    seq(|holes|, i requires 0 <= i < |holes| => Contour(holes[i], true))
  }

  /** The polygon Triangulate builds from an outline and its holes. */
  function PolygonOf(points: seq<Point>, holes: seq<seq<Point>>): Polygon {
    Polygon(points, Ring(points), Holes(holes))
  }

  /** The corners of a triangle in the order the index loop visits them:
      vertex 2, then 1, then 0. */
  function Corners(t: Triangle): seq<Point> {
    [GetVertex(t, 2), GetVertex(t, 1), GetVertex(t, 0)]
  }

  /** All corners the index loop visits, triangle by triangle. */
  function Visits(tris: seq<Triangle>): (r: seq<Point>)
    ensures |r| == 3 * |tris|
  {
    if tris == [] then [] else Visits(tris[..|tris| - 1]) + Corners(tris[|tris| - 1])
  }

  /** `new Vector3(X, 0, Y)`: the mesh lies in the x-z plane. */
  function Ground(p: Point): Vertex3 {
    Vertex3(p.x, 0, p.y)
  }

  /** The position a vertex is matched by: its x and z. */
  function Key(v: Vertex3): Point {
    Point(v.x, v.z)
  }

  function Grounded(ps: seq<Point>): (r: seq<Vertex3>)
    ensures |r| == |ps| && forall k :: 0 <= k < |ps| ==> r[k] == Ground(ps[k])
  {
    seq(|ps|, k requires 0 <= k < |ps| => Ground(ps[k]))
  }

  /** The index of every visited corner in the list of distinct corners. */
  function IndexBuffer(vs: seq<Point>): (r: seq<int>)
    ensures |r| == |vs| && forall m :: 0 <= m < |vs| ==> r[m] == IndexOf(Dedup(vs), vs[m])
  {
    seq(|vs|, m requires 0 <= m < |vs| => IndexOf(Dedup(vs), vs[m]))
  }

  /** Triangulator.Triangulate: builds the polygon, triangulates it, and
      collects the distinct corners (on the ground plane) and, per corner
      visited, the index of the first vertex at its position. Always true. */
  method Triangulate(points: seq<Point>, holes: seq<seq<Point>>, mesh: Mesher)
      returns (ok: bool, outIndices: seq<int>, outVertices: seq<Vertex3>)
    ensures ok
    ensures outVertices == Grounded(Dedup(Visits(mesh(PolygonOf(points, holes)))))
    ensures outIndices == IndexBuffer(Visits(mesh(PolygonOf(points, holes))))
  {
    var poly := BuildPolygon(points, holes);
    var triangles := mesh(poly);
    outIndices, outVertices := IndexTriangles(triangles);
    ok := true;
  }

  /** The first two loops of Triangulate: the outline's points and segments,
      then one contour per hole. */
  method BuildPolygon(points: seq<Point>, holes: seq<seq<Point>>) returns (poly: Polygon)
    ensures poly == PolygonOf(points, holes)
  {
    // Points and segments
    var polyPoints: seq<Point> := [];
    var segments: seq<Segment> := [];
    for i := 0 to |points|
      invariant polyPoints == points[..i] && |segments| == i
      invariant forall k :: 0 <= k < i ==> segments[k] == Ring(points)[k]
    {
      polyPoints := polyPoints + [points[i]];
      if i == |points| - 1 {
        segments := segments + [Segment(points[i], points[0])];
      } else {
        segments := segments + [Segment(points[i], points[i + 1])];
      }
    }
    // Holes
    var contours: seq<Contour> := [];
    for i := 0 to |holes|
      invariant |contours| == i && forall k :: 0 <= k < i ==> contours[k] == Contour(holes[k], true)
    {
      var vertices: seq<Point> := [];
      for j := 0 to |holes[i]|
        invariant vertices == holes[i][..j]
      {
        vertices := vertices + [holes[i][j]];
      }
      assert vertices == holes[i];
      contours := contours + [Contour(vertices, true)];
    }
    assert points[..|points|] == points;
    poly := Polygon(polyPoints, segments, contours);
  }

  /** The output buffers after visiting the corners `seen`. */
  predicate Indexed(outIndices: seq<int>, outVertices: seq<Vertex3>, seen: seq<Point>) {
    outVertices == Grounded(Dedup(seen)) && outIndices == IndexBuffer(seen)
  }

  /** The last loop of Triangulate: every corner of every triangle, vertex 2
      down to 0, is looked up among the vertices so far. */
  method IndexTriangles(triangles: seq<Triangle>) returns (outIndices: seq<int>, outVertices: seq<Vertex3>)
    ensures outVertices == Grounded(Dedup(Visits(triangles)))
    ensures outIndices == IndexBuffer(Visits(triangles))
  {
    outVertices := [];
    outIndices := [];
    for ti := 0 to |triangles|
      invariant Indexed(outIndices, outVertices, Visits(triangles[..ti]))
    {
      var t := triangles[ti];
      ghost var before := Visits(triangles[..ti]);
      assert before + Corners(t)[..0] == before;
      var j := 2;
      while j >= 0
        invariant -1 <= j <= 2
        invariant Indexed(outIndices, outVertices, before + Corners(t)[..2 - j])
      {
        var p := GetVertex(t, j);
        ghost var seen := before + Corners(t)[..2 - j];
        CornerPrefix(before, t, j);
        CornerAppend(seen, p);
        outIndices, outVertices := AddCorner(outIndices, outVertices, p, Dedup(seen));
        j := j - 1;
      }
      VisitsStep(triangles, ti);
    }
    assert triangles[..|triangles|] == triangles;
  }

  /** The body of the corner loop: the index of the first vertex at p's
      position, or a new vertex for p at the end. */
  method AddCorner(indices: seq<int>, vertices: seq<Vertex3>, p: Point, ghost d: seq<Point>)
      returns (outIndices: seq<int>, outVertices: seq<Vertex3>)
    requires vertices == Grounded(d)
    ensures outVertices == Grounded(AddAbsent(d, p))
    ensures outIndices == indices + [IndexOf(AddAbsent(d, p), p)]
  {
    outIndices, outVertices := indices, vertices;
    var found := false;
    for k := 0 to |outVertices|
      invariant !found && outIndices == indices && outVertices == vertices
      invariant forall k' :: 0 <= k' < k ==> d[k'] != p
    {
      assert Key(outVertices[k]) == d[k];
      if Key(outVertices[k]) == p {
        FirstMatch(d, p, k);
        outIndices := outIndices + [k];
        found := true;
        break;
      }
    }
    if !found {
      assert p !in d;
      IndexOfLast(d, p);
      outVertices := outVertices + [Ground(p)];
      outIndices := outIndices + [|outVertices| - 1];
    }
  }

  /** The corners visited so far in a triangle, plus vertex j. */
  lemma CornerPrefix(before: seq<Point>, t: Triangle, j: int)
    requires 0 <= j < 3
    ensures before + Corners(t)[..2 - j] + [GetVertex(t, j)] == before + Corners(t)[..3 - j]
  {
    assert Corners(t)[..3 - j] == Corners(t)[..2 - j] + [GetVertex(t, j)];
  }

  /** One more triangle adds its three corners. */
  lemma VisitsStep(tris: seq<Triangle>, ti: nat)
    requires ti < |tris|
    ensures Visits(tris[..ti + 1]) == Visits(tris[..ti]) + Corners(tris[ti])[..3]
  {
    assert tris[..ti + 1][..ti] == tris[..ti];
  }

  /** The search loop stops at the first vertex at p's position. */
  lemma FirstMatch(d: seq<Point>, p: Point, k: nat)
    requires k < |d| && d[k] == p && forall k' :: 0 <= k' < k ==> d[k'] != p
    ensures IndexOf(d, p) == k
  {
  }

  lemma CornerAppend(seen: seq<Point>, p: Point)
    ensures Dedup(seen + [p]) == AddAbsent(Dedup(seen), p)
    ensures IndexBuffer(seen + [p]) == IndexBuffer(seen) + [IndexOf(AddAbsent(Dedup(seen), p), p)]
  {
    var s := seen + [p];
    assert s[..|seen|] == seen;
    var d := Dedup(seen);
    assert Dedup(s) == AddAbsent(d, p);
    DedupMembers(seen);
    forall k | 0 <= k < |seen| ensures IndexBuffer(s)[k] == IndexBuffer(seen)[k] {
      assert s[k] == seen[k] && seen[k] in d;
      if p !in d {
        IndexOfPrefix(d, p, seen[k]);
      }
    }
  }

  lemma DedupMembers(s: seq<Point>)
    ensures forall p :: p in Dedup(s) <==> p in s
  {
    DedupSpec(s);
  }

  /** The index buffer has three entries per triangle, each naming a vertex at
      the position of its corner (round trip), namely the first such vertex;
      no two vertices share a position, and all lie on the ground plane at a
      visited corner. */
  lemma {:induction false} IndexBufferSound(tris: seq<Triangle>)
    ensures var vs := Visits(tris); var out, idx := Grounded(Dedup(vs)), IndexBuffer(vs);
      |idx| == 3 * |tris| &&
      (forall m :: 0 <= m < |idx| ==> 0 <= idx[m] < |out| && Key(out[idx[m]]) == vs[m]) &&
      (forall m, k :: 0 <= m < |idx| && 0 <= k < idx[m] ==> Key(out[k]) != vs[m])
    ensures var vs := Visits(tris); var out := Grounded(Dedup(vs));
      (forall i, j :: 0 <= i < j < |out| ==> Key(out[i]) != Key(out[j])) &&
      (forall k :: 0 <= k < |out| ==> out[k].y == 0 && Key(out[k]) in vs)
  {
    var vs := Visits(tris);
    var d := Dedup(vs);
    DedupSpec(vs);
    forall m | 0 <= m < |vs| ensures IndexOf(d, vs[m]) < |d| {
      assert vs[m] in d;
    }
    forall k | 0 <= k < |d| ensures d[k] in vs {
      assert d[k] in d;
    }
  }
}
