/** GeometryGenerator: triangulates every cell outline of a layout on its own
    and merges the pieces into one mesh, then gives every mesh vertex a UV.
    The Unity objects (GameObject, Mesh, MeshFilter, MeshCollider) are not
    part of this model: a mesh is its vertex list, index list and UV array. */
module GeometryGeneration {
  import opened Geometry
  import opened Triangulation

  /** A Vector2 UV coordinate. */
  datatype UV = UV(u: int, v: int)

  /** The out-parameters of one Triangulate call. */
  datatype Piece = Piece(indices: seq<int>, vertices: seq<Vertex3>)

  /** What Triangulate returns for an outline without holes. */
  function Triangulated(points: seq<Point>, mesh: Mesher): Piece {
    var vs := Visits(mesh(PolygonOf(points, [])));
    Piece(IndexBuffer(vs), Grounded(Dedup(vs)))
  }

  function Pieces(pointsList: seq<seq<Point>>, mesh: Mesher): (r: seq<Piece>)
    ensures |r| == |pointsList| && forall i :: 0 <= i < |pointsList| ==> r[i] == Triangulated(pointsList[i], mesh)
  {
    seq(|pointsList|, i requires 0 <= i < |pointsList| => Triangulated(pointsList[i], mesh))
  }

  /** The vertices of all pieces, piece after piece. */
  function MergedVertices(ps: seq<Piece>): seq<Vertex3> {
    if ps == [] then [] else MergedVertices(ps[..|ps| - 1]) + ps[|ps| - 1].vertices
  }

  /** Every index raised by offset. */
  function Shift(indices: seq<int>, offset: int): (r: seq<int>)
    ensures |r| == |indices| && forall i :: 0 <= i < |indices| ==> r[i] == indices[i] + offset
  {
    seq(|indices|, i requires 0 <= i < |indices| => indices[i] + offset)
  }

  /** The indices of all pieces, each piece's raised by the number of
      vertices of the pieces before it. */
  function MergedIndices(ps: seq<Piece>): seq<int> {
    if ps == [] then []
    else
      var init := ps[..|ps| - 1];
      MergedIndices(init) + Shift(ps[|ps| - 1].indices, |MergedVertices(init)|)
  }

  function SumVertices(ps: seq<Piece>): nat {
    if ps == [] then 0 else SumVertices(ps[..|ps| - 1]) + |ps[|ps| - 1].vertices|
  }

  function SumIndices(ps: seq<Piece>): nat {
    if ps == [] then 0 else SumIndices(ps[..|ps| - 1]) + |ps[|ps| - 1].indices|
  }

  /** Every index of the piece names one of its own vertices. */
  predicate IndicesInRange(p: Piece) {
    forall i :: 0 <= i < |p.indices| ==> 0 <= p.indices[i] < |p.vertices|
  }

  /** `new Vector2(v.x, v.y)` for every vertex. */
  function UVs(vs: seq<Vertex3>): (r: seq<UV>)
    ensures |r| == |vs| && forall i :: 0 <= i < |vs| ==> r[i] == UV(vs[i].x, vs[i].y)
  {
    seq(|vs|, i requires 0 <= i < |vs| => UV(vs[i].x, vs[i].y))
  }

  /** GenerateMesh(List<List<Vector2>>): the pieces' vertices concatenated,
      their indices shifted past the vertices before them and concatenated,
      and one UV per vertex. */
  method GenerateMesh(pointsList: seq<seq<Point>>, mesh: Mesher)
      returns (vertices: seq<Vertex3>, triangles: seq<int>, uvs: array<UV>)
    ensures vertices == MergedVertices(Pieces(pointsList, mesh))
    ensures triangles == MergedIndices(Pieces(pointsList, mesh))
    ensures fresh(uvs) && uvs[..] == UVs(vertices)
  {
    var holes: seq<seq<Point>> := [];
    var indicesTotal: seq<int> := [];
    var verticesTotal: seq<Vertex3> := [];
    var vertexCount := 0;
    ghost var ps := Pieces(pointsList, mesh);
    for i := 0 to |pointsList|
      invariant verticesTotal == MergedVertices(ps[..i]) && indicesTotal == MergedIndices(ps[..i])
      invariant vertexCount == |verticesTotal|
    {
      var ok, indices, pieceVertices := Triangulate(pointsList[i], holes, mesh);
      assert Piece(indices, pieceVertices) == ps[i];
      var actualIndices := ShiftIndices(indices, vertexCount);
      MergeStep(ps, i);
      vertexCount := vertexCount + |pieceVertices|;
      indicesTotal := indicesTotal + actualIndices;
      verticesTotal := verticesTotal + pieceVertices;
    }
    assert ps[..|pointsList|] == ps;
    vertices, triangles := verticesTotal, indicesTotal;
    uvs := MakeUVs(vertices);
  }

  /** The `index + vertexCount` loop of the merge. */
  method ShiftIndices(indices: seq<int>, vertexCount: int) returns (actualIndices: seq<int>)
    ensures actualIndices == Shift(indices, vertexCount)
  {
    actualIndices := [];
    for k := 0 to |indices|
      invariant actualIndices == Shift(indices[..k], vertexCount)
    {
      assert indices[..k + 1] == indices[..k] + [indices[k]];
      actualIndices := actualIndices + [indices[k] + vertexCount];
    }
    assert indices[..|indices|] == indices;
  }

  /** GenerateMesh(List<Vector2>): one outline triangulated on its own. */
  method GenerateMeshFromPoints(points: seq<Point>, mesh: Mesher)
      returns (vertices: seq<Vertex3>, triangles: seq<int>, uvs: array<UV>)
    ensures Piece(triangles, vertices) == Triangulated(points, mesh)
    ensures fresh(uvs) && uvs[..] == UVs(vertices)
  {
    var holes: seq<seq<Point>> := [];
    var ok;
    ok, triangles, vertices := Triangulate(points, holes, mesh);
    uvs := MakeUVs(vertices);
  }

  /** The UV loop of both GenerateMesh methods. */
  method MakeUVs(vertices: seq<Vertex3>) returns (uvs: array<UV>)
    ensures fresh(uvs) && uvs[..] == UVs(vertices)
  {
    uvs := new UV[|vertices|](_ => UV(0, 0));
    for i := 0 to uvs.Length
      invariant forall k :: 0 <= k < i ==> uvs[k] == UV(vertices[k].x, vertices[k].y)
    {
      uvs[i] := UV(vertices[i].x, vertices[i].y);
    }
  }

  /** One more piece in the merge loop. */
  lemma MergeStep(ps: seq<Piece>, i: nat)
    requires i < |ps|
    ensures MergedVertices(ps[..i + 1]) == MergedVertices(ps[..i]) + ps[i].vertices
    ensures MergedIndices(ps[..i + 1]) == MergedIndices(ps[..i]) + Shift(ps[i].indices, |MergedVertices(ps[..i])|)
  {
    assert ps[..i + 1][..i] == ps[..i];
  }

  /** The merged mesh has as many vertices and indices as the pieces together. */
  lemma {:induction false} MergedCounts(ps: seq<Piece>)
    ensures |MergedVertices(ps)| == SumVertices(ps)
    ensures |MergedIndices(ps)| == SumIndices(ps)
  {
    if ps != [] {
      MergedCounts(ps[..|ps| - 1]);
    }
  }

  /** When every piece's indices name its own vertices, every merged index
      names a vertex of the merged mesh. */
  lemma {:induction false} MergedInRange(ps: seq<Piece>)
    requires forall p :: p in ps ==> IndicesInRange(p)
    ensures forall t :: t in MergedIndices(ps) ==> 0 <= t < |MergedVertices(ps)|
  {
    if ps != [] {
      var init, last := ps[..|ps| - 1], ps[|ps| - 1];
      assert forall p :: p in init ==> p in ps;
      MergedInRange(init);
      assert last in ps;
      var shifted := Shift(last.indices, |MergedVertices(init)|);
      forall t | t in shifted ensures 0 <= t < |MergedVertices(ps)| {
        var k :| 0 <= k < |shifted| && shifted[k] == t;
      }
    }
  }

  /** Triangulate's indices always name its own vertices, so the mesh
      GenerateMesh builds has no dangling index. */
  lemma MeshInRange(pointsList: seq<seq<Point>>, mesh: Mesher)
    ensures forall t :: t in MergedIndices(Pieces(pointsList, mesh)) ==> 0 <= t < |MergedVertices(Pieces(pointsList, mesh))|
  {
    var ps := Pieces(pointsList, mesh);
    forall p | p in ps ensures IndicesInRange(p) {
      var i :| 0 <= i < |ps| && ps[i] == p;
      IndexBufferSound(mesh(PolygonOf(pointsList[i], [])));
    }
    MergedInRange(ps);
  }

  /** Every vertex Triangulate returns lies on the ground plane (y = 0), so
      every UV GenerateMesh assigns has v = 0. */
  lemma {:induction false} FlatUVs(pointsList: seq<seq<Point>>, mesh: Mesher)
    ensures forall uv :: uv in UVs(MergedVertices(Pieces(pointsList, mesh))) ==> uv.v == 0
  {
    var ps := Pieces(pointsList, mesh);
    forall p | p in ps ensures forall k :: 0 <= k < |p.vertices| ==> p.vertices[k].y == 0 {
      var i :| 0 <= i < |ps| && ps[i] == p;
      IndexBufferSound(mesh(PolygonOf(pointsList[i], [])));
    }
    MergedFlat(ps);
  }

  lemma {:induction false} MergedFlat(ps: seq<Piece>)
    requires forall p :: p in ps ==> forall k :: 0 <= k < |p.vertices| ==> p.vertices[k].y == 0
    ensures forall k :: 0 <= k < |MergedVertices(ps)| ==> MergedVertices(ps)[k].y == 0
  {
    if ps != [] {
      var init := ps[..|ps| - 1];
      assert forall p :: p in init ==> p in ps;
      assert ps[|ps| - 1] in ps;
      MergedFlat(init);
    }
  }
}
