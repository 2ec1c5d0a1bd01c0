/** VoxelRenderer and its table CubeMeshData: a voxel grid becomes one cube
    per filled cell, six quads per cube, four vertices and two triangles per
    quad. Unity floats are modelled as exact reals. */
module Voxels {

  datatype Vec3 = Vec3(x: real, y: real, z: real)

  function Plus(a: Vec3, b: Vec3): Vec3 {
    Vec3(a.x + b.x, a.y + b.y, a.z + b.z)
  }

  function Times(a: Vec3, s: real): Vec3 {
    Vec3(a.x * s, a.y * s, a.z * s)
  }

  /** CubeMeshData.Vertices: the corners of the cube of half-size 1, the
      north (z = 1) four first, then the south (z = -1) four. */
  const CubeCorners: seq<Vec3> := [
    Vec3(1.0, 1.0, 1.0), Vec3(-1.0, 1.0, 1.0), Vec3(-1.0, -1.0, 1.0), Vec3(1.0, -1.0, 1.0),
    Vec3(-1.0, 1.0, -1.0), Vec3(1.0, 1.0, -1.0), Vec3(1.0, -1.0, -1.0), Vec3(-1.0, -1.0, -1.0)]

  /** CubeMeshData.FaceTriangles: the four corners of each of the six faces. */
  const FaceCorners: seq<seq<nat>> := [[0, 1, 2, 3], [5, 0, 3, 6], [4, 5, 6, 7], [1, 4, 7, 2], [5, 4, 1, 0], [3, 2, 7, 6]]

  /** CubeMeshData.FaceVertices: the corners of face dir, scaled and moved
      to pos. */
  function FaceVertices(dir: int, scale: real, pos: Vec3): (r: seq<Vec3>)
    requires 0 <= dir < 6
    ensures |r| == 4
  {
    var f := FaceCorners[dir];
    [Plus(Times(CubeCorners[f[0]], scale), pos), Plus(Times(CubeCorners[f[1]], scale), pos),
     Plus(Times(CubeCorners[f[2]], scale), pos), Plus(Times(CubeCorners[f[3]], scale), pos)]
  }

  /** The two triangles of the quad whose four vertices start at index b. */
  function Quad(b: int): seq<int> {
    [b, b + 1, b + 2, b, b + 2, b + 3]
  }

  /** The vertices of faces 0 .. n-1 of one cube. */
  function CubeFaces(n: nat, scale: real, pos: Vec3): (r: seq<Vec3>)
    requires n <= 6
    ensures |r| == 4 * n
  {
    if n == 0 then [] else CubeFaces(n - 1, scale, pos) + FaceVertices(n - 1, scale, pos)
  }

  /** The indices of faces 0 .. n-1 of a cube whose vertices start at b. */
  function CubeQuads(n: nat, b: int): (r: seq<int>)
    ensures |r| == 6 * n
  {
    if n == 0 then [] else CubeQuads(n - 1, b) + Quad(b + 4 * (n - 1))
  }

  /** The grid VoxelRenderer reads: its size and GetCell. */
  datatype VoxelData = VoxelData(width: int, depth: int, cell: (int, int) -> int)

  /** A cell that gets a cube. */
  predicate Filled(data: VoxelData, x: int, z: int) {
    0 <= x < data.width && 0 <= z < data.depth && data.cell(x, z) != 0
  }

  /** The filled cells of row z with x < n, in order of x. */
  function RowCells(data: VoxelData, z: int, n: int): seq<(int, int)>
    decreases n
  {
    if n <= 0 then []
    else RowCells(data, z, n - 1) + (if data.cell(n - 1, z) != 0 then [(n - 1, z)] else [])
  }

  /** The filled cells of rows z < m, row after row: the order in which the
      loops of GenerateVoxelMesh meet them. */
  function GridCells(data: VoxelData, m: int): seq<(int, int)>
    decreases m
  {
    if m <= 0 then [] else GridCells(data, m - 1) + RowCells(data, m - 1, data.width)
  }

  function Cells(data: VoxelData): seq<(int, int)> {
    GridCells(data, data.depth)
  }

  /** MakeCube's position for cell (x, z): `new Vector3(x * scale, 0, z * scale)`. */
  function CellPos(c: (int, int), scale: real): Vec3 {
    Vec3(c.0 as real * scale, 0.0, c.1 as real * scale)
  }

  /** The vertices of one cube per cell, cube after cube. */
  function MeshVertices(cells: seq<(int, int)>, scale: real, cubeScale: real): (r: seq<Vec3>)
    ensures |r| == 24 * |cells|
  {
    if cells == [] then []
    else MeshVertices(cells[..|cells| - 1], scale, cubeScale) + CubeFaces(6, cubeScale, CellPos(cells[|cells| - 1], scale))
  }

  /** The indices of one cube per cell, cube k's starting at vertex 24 * k. */
  function MeshIndices(n: nat): (r: seq<int>)
    ensures |r| == 36 * n
  {
    if n == 0 then [] else MeshIndices(n - 1) + CubeQuads(6, 24 * (n - 1))
  }

  class VoxelRenderer {
    const scale: real
    const adjustedScale: real
    var vertices: seq<Vec3>
    var triangles: seq<int>

    /** The scale field (1 by default) and Awake's `adjustedScale = 0.5f * scale`. */
    constructor (scale: real)
      ensures this.scale == scale && adjustedScale == 0.5 * scale
      ensures vertices == [] && triangles == []
    {
      this.scale := scale;
      adjustedScale := 0.5 * scale;
      vertices := [];
      triangles := [];
    }

    /** The buffers hold the cubes of exactly the given cells. */
    predicate Built(cells: seq<(int, int)>)
      reads this
    {
      vertices == MeshVertices(cells, scale, adjustedScale) && triangles == MeshIndices(|cells|)
    }

    /** GenerateVoxelMesh: both buffers are reset, then every filled cell, row
        by row, gets a cube of half-size adjustedScale at its position. */
    method GenerateVoxelMesh(data: VoxelData)
      modifies this
      ensures vertices == MeshVertices(Cells(data), scale, adjustedScale)
      ensures triangles == MeshIndices(|Cells(data)|)
    {
      vertices := [];
      triangles := [];
      for z := 0 to if data.depth < 0 then 0 else data.depth
        invariant Built(GridCells(data, z))
      {
        GenerateRow(data, z);
      }
      assert data.depth <= 0 ==> GridCells(data, data.depth) == [];
    }

    /** The inner loop of GenerateVoxelMesh, over row z. */
    method GenerateRow(data: VoxelData, z: int)
      modifies this
      requires z >= 0 && Built(GridCells(data, z))
      ensures Built(GridCells(data, z + 1))
    {
      ghost var before := GridCells(data, z);
      assert before + RowCells(data, z, 0) == before;
      for x := 0 to if data.width < 0 then 0 else data.width
        invariant Built(before + RowCells(data, z, x))
      {
        GenerateCell(data, x, z, before);
      }
      assert data.width <= 0 ==> RowCells(data, z, data.width) == [];
    }

    /** One pass of the inner loop: a cube unless the cell is 0. */
    method GenerateCell(data: VoxelData, x: int, z: int, ghost before: seq<(int, int)>)
      modifies this
      requires x >= 0 && Built(before + RowCells(data, z, x))
      ensures Built(before + RowCells(data, z, x + 1))
    {
      ghost var done := before + RowCells(data, z, x);
      RowStep(data, z, x, before);
      if data.cell(x, z) != 0 {
        MeshStep(done, (x, z), scale, adjustedScale);
        MakeCube(adjustedScale, CellPos((x, z), scale));
      } else {
        assert before + RowCells(data, z, x + 1) == done;
      }
    }

    /** MakeCube: the six faces, in the order 0 .. 5. */
    method MakeCube(cubeScale: real, cubePos: Vec3)
      modifies this
      ensures vertices == old(vertices) + CubeFaces(6, cubeScale, cubePos)
      ensures triangles == old(triangles) + CubeQuads(6, |old(vertices)|)
    {
      ghost var v0, t0 := vertices, triangles;
      for i := 0 to 6
        invariant vertices == v0 + CubeFaces(i, cubeScale, cubePos)
        invariant triangles == t0 + CubeQuads(i, |v0|)
      {
        MakeFace(i, cubeScale, cubePos);
        AppendAssoc(v0, CubeFaces(i, cubeScale, cubePos), FaceVertices(i, cubeScale, cubePos));
        AppendAssoc(t0, CubeQuads(i, |v0|), Quad(|v0| + 4 * i));
      }
    }

    /** MakeFace: the face's four vertices, then its two triangles, which
        index the four vertices just added. */
    method MakeFace(dir: int, faceScale: real, facePos: Vec3)
      requires 0 <= dir < 6
      modifies this
      ensures vertices == old(vertices) + FaceVertices(dir, faceScale, facePos)
      ensures triangles == old(triangles) + Quad(|old(vertices)|)
    {
      vertices := vertices + FaceVertices(dir, faceScale, facePos);
      var vCount := |vertices|;
      triangles := triangles + [vCount - 4, vCount - 4 + 1, vCount - 4 + 2, vCount - 4 + 0, vCount - 4 + 2, vCount - 4 + 3];
    }
  }

  lemma AppendAssoc<T>(a: seq<T>, b: seq<T>, c: seq<T>)
    ensures a + b + c == a + (b + c)
  {
  }

  /** One more filled cell adds one cube to both buffers. */
  lemma MeshStep(cells: seq<(int, int)>, c: (int, int), scale: real, cubeScale: real)
    ensures MeshVertices(cells + [c], scale, cubeScale) == MeshVertices(cells, scale, cubeScale) + CubeFaces(6, cubeScale, CellPos(c, scale))
    ensures MeshIndices(|cells + [c]|) == MeshIndices(|cells|) + CubeQuads(6, |MeshVertices(cells, scale, cubeScale)|)
  {
    assert (cells + [c])[..|cells|] == cells;
  }

  /** One more column of a row. */
  lemma RowStep(data: VoxelData, z: int, x: int, before: seq<(int, int)>)
    requires x >= 0
    ensures before + RowCells(data, z, x + 1)
      == (before + RowCells(data, z, x)) + (if data.cell(x, z) != 0 then [(x, z)] else [])
  {
  }

  /** The six indices of a quad lie among its four vertices, and every one of
      the four is used. */
  lemma QuadRange(b: int)
    ensures forall t :: t in Quad(b) <==> b <= t < b + 4
  {
    var q := Quad(b);
    assert q[0] == b && q[1] == b + 1 && q[2] == b + 2 && q[5] == b + 3;
  }

  /** Vertex v lies in the plane of face dir of the cube of half-size s
      centred at pos: north, east, south, west, top, bottom. */
  predicate OnSide(dir: int, v: Vec3, pos: Vec3, s: real) {
    if dir == 0 then v.z == pos.z + s
    else if dir == 1 then v.x == pos.x + s
    else if dir == 2 then v.z == pos.z - s
    else if dir == 3 then v.x == pos.x - s
    else if dir == 4 then v.y == pos.y + s
    else v.y == pos.y - s
  }

  /** The four vertices of face dir lie on that side of the cube. */
  lemma FaceOnSide(dir: int, scale: real, pos: Vec3)
    requires 0 <= dir < 6
    ensures forall i :: 0 <= i < 4 ==> OnSide(dir, FaceVertices(dir, scale, pos)[i], pos, scale)
  {
    var fv := FaceVertices(dir, scale, pos);
    forall i | 0 <= i < 4 ensures OnSide(dir, fv[i], pos, scale) {
      var c := CubeCorners[FaceCorners[dir][i]];
      assert fv[i] == Plus(Times(c, scale), pos);
    }
  }

  /** The indices of the first n faces of a cube starting at b lie among its
      first 4 * n vertices. */
  lemma {:induction false} CubeQuadsRange(n: nat, b: int)
    ensures forall t :: t in CubeQuads(n, b) ==> b <= t < b + 4 * n
  {
    if n > 0 {
      CubeQuadsRange(n - 1, b);
      QuadRange(b + 4 * (n - 1));
    }
  }

  /** The indices of cube k among n: the 36 from index 36 * k on. */
  function Block(n: nat, k: nat): seq<int>
    requires k < n
  {
    MeshIndices(n)[36 * k .. 36 * k + 36]
  }

  /** Cube k's indices are the six quads over its own 24 vertices, from
      vertex 24 * k on. */
  lemma {:induction false} MeshBlocks(n: nat)
    ensures forall k :: 0 <= k < n ==> Block(n, k) == CubeQuads(6, 24 * k)
  {
    if n > 0 {
      MeshBlocks(n - 1);
      var r := MeshIndices(n);
      assert r == MeshIndices(n - 1) + CubeQuads(6, 24 * (n - 1));
      forall k | 0 <= k < n ensures Block(n, k) == CubeQuads(6, 24 * k) {
        if k < n - 1 {
          assert Block(n, k) == Block(n - 1, k);
        }
      }
    }
  }

  /** Every index of the mesh is below the vertex count 24 * n. */
  lemma {:induction false} MeshIndicesRange(n: nat)
    ensures forall t :: t in MeshIndices(n) ==> 0 <= t < 24 * n
  {
    if n > 0 {
      MeshIndicesRange(n - 1);
      var cube := CubeQuads(6, 24 * (n - 1));
      CubeQuadsRange(6, 24 * (n - 1));
      var r := MeshIndices(n);
      assert r == MeshIndices(n - 1) + cube;
      forall t | t in r ensures 0 <= t < 24 * n {
        if t !in cube {
          assert t in MeshIndices(n - 1);
        }
      }
    }
  }

  /** The cells that get a cube are exactly the filled ones. */
  lemma {:induction false} RowCellsMembers(data: VoxelData, z: int, n: int)
    ensures forall c :: c in RowCells(data, z, n) <==> 0 <= c.0 < n && c.1 == z && data.cell(c.0, c.1) != 0
    decreases n
  {
    if n > 0 {
      RowCellsMembers(data, z, n - 1);
    }
  }

  lemma {:induction false} GridCellsMembers(data: VoxelData, m: int)
    ensures forall c :: c in GridCells(data, m) <==> 0 <= c.1 < m && 0 <= c.0 < data.width && data.cell(c.0, c.1) != 0
    decreases m
  {
    if m > 0 {
      GridCellsMembers(data, m - 1);
      RowCellsMembers(data, m - 1, data.width);
    }
  }

  /** After GenerateVoxelMesh the buffers hold 24 vertices and 36 indices per
      filled cell, every index names a vertex, and the cubes are exactly those
      of the filled cells. */
  lemma VoxelMeshSound(data: VoxelData, scale: real, cubeScale: real)
    ensures var cells := Cells(data);
      |MeshVertices(cells, scale, cubeScale)| == 24 * |cells| && |MeshIndices(|cells|)| == 36 * |cells|
    ensures forall t :: t in MeshIndices(|Cells(data)|) ==> 0 <= t < |MeshVertices(Cells(data), scale, cubeScale)|
    ensures forall c :: c in Cells(data) <==> Filled(data, c.0, c.1)
  {
    MeshIndicesRange(|Cells(data)|);
    GridCellsMembers(data, data.depth);
  }
}
