/** The mesh builder: the triple loop of `Awake` that classifies every cell,
    looks its case up in the case table, and appends one vertex, one normal
    and one index per triangle corner. The field sampler and the case table
    are parameters. */
module MeshBuilder {
  import opened Vectors
  import opened CubeTables
  import opened SignMask
  import opened CaseTables
  import opened Interpolation
  import opened Fields
  import opened Classifier
  import opened GridOrder

  /** `n`³ cubes spanning [min, max] on every axis. */
  datatype Grid = Grid(min: real, max: real, n: nat)

  /** The generator's configuration: [0, 1] cut into 100 cubes per axis. */
  const SourceGrid: Grid := Grid(0.0, 1.0, 100)

  /** `(max - min) / n`, the edge length of one cube: `n` steps span the
      grid, and a step is never negative on a non-empty range. */
  function Step(g: Grid): (s: real)
    requires g.n >= 1
    ensures g.min <= g.max ==> s >= 0.0
  {
    (g.max - g.min) / (g.n as real)
  }

  /** `min + index * step` on each axis: cell (0, 0, 0) starts at the
      grid's minimum corner, and no cell starts below it. */
  function CellOrigin(g: Grid, c: Cell): (o: Vec3)
    requires g.n >= 1
    ensures c == Cell(0, 0, 0) ==> o == Vec3(g.min, g.min, g.min)
  {
    Vec3(g.min + (c.i as real) * Step(g), g.min + (c.j as real) * Step(g), g.min + (c.k as real) * Step(g))
  }

  /** The three output buffers. */
  datatype Mesh = Mesh(vertices: seq<Vec3>, normals: seq<Vec3>, triangles: seq<int>)

  /** The buffers as the builder keeps them: one normal per vertex, computed
      at that vertex, and an index buffer that names every vertex once, in
      order. */
  predicate Consistent(m: Mesh, field: Vec3 -> real, step: real) {
    && |m.normals| == |m.vertices|
    && |m.triangles| == |m.vertices|
    && (forall i :: 0 <= i < |m.triangles| ==> m.triangles[i] == i)
    && (forall i :: 0 <= i < |m.normals| ==> m.normals[i] == ComputeNormal(field, m.vertices[i], step))
  }

  /** Every edge of the triangle crosses the surface. */
  predicate TriCrosses(values: seq<real>, t: Tri) {
    Crosses(values, t.a) && Crosses(values, t.b) && Crosses(values, t.c)
  }

  /** An edge separates set from clear bits of the corner mask exactly when
      the field values at its ends have opposite signs. This is what makes
      the sign check in `InterpolateOnEdge` follow from the case table. */
  lemma SeparatesIffCrosses(values: seq<real>, e: int)
    requires |values| == CornerCount
    ensures Separates(MaskOf(values), e) <==> Crosses(values, e)
  {
    CornerMask(values);
  }

  lemma SeparatingTrianglesCross(values: seq<real>, tris: seq<Tri>)
    requires |values| == CornerCount
    requires forall k :: 0 <= k < |tris| ==> TriSeparates(MaskOf(values), tris[k])
    ensures forall k :: 0 <= k < |tris| ==> TriCrosses(values, tris[k])
  {
    CornerMask(values);
  }

  /** The three world-space vertices of one triangle of the cell at `origin`. */
  function TriangleVertices(values: seq<real>, tri: Tri, origin: Vec3, step: real): (vs: seq<Vec3>)
    requires TriCrosses(values, tri)
    ensures |vs| == 3
  {
    seq(3, e requires 0 <= e < 3 => Place(origin, InterpolateOnEdge(values, tri.At(e)), step))
  }

  /** The vertices of the triangles `tris`, three per triangle, in order. */
  function CaseVertices(values: seq<real>, tris: seq<Tri>, origin: Vec3, step: real): (vs: seq<Vec3>)
    requires forall k :: 0 <= k < |tris| ==> TriCrosses(values, tris[k])
    ensures |vs| == 3 * |tris|
  {
    if |tris| == 0 then []
    else
      CaseVertices(values, tris[..|tris| - 1], origin, step)
      + TriangleVertices(values, tris[|tris| - 1], origin, step)
  }

  /** The case mask of cell `c`. */
  function CellMask(field: Vec3 -> real, g: Grid, c: Cell): (mask: nat)
    requires g.n >= 1
    ensures mask < CaseCount
  {
    var values := CornerValues(field, CellOrigin(g, c), Step(g));
    CornerMask(values);
    MaskOf(values)
  }

  /** The vertices the generator emits for cell `c`, in emission order:
      three per triangle of the cell's case. */
  function CellVertices(table: CaseTable, field: Vec3 -> real, g: Grid, c: Cell): (vs: seq<Vec3>)
    requires WellFormed(table) && g.n >= 1
    ensures |vs| == 3 * Count(table, CellMask(field, g, c))
  {
    var origin := CellOrigin(g, c);
    var values := CornerValues(field, origin, Step(g));
    var tris := Triangles(table, CellMask(field, g, c));
    SeparatingTrianglesCross(values, tris);
    CaseVertices(values, tris, origin, Step(g))
  }

  /** Total number of triangles the case table lists for `cells`. */
  function TotalTriangles(table: CaseTable, field: Vec3 -> real, g: Grid, cells: seq<Cell>): (s: nat)
    requires WellFormed(table) && g.n >= 1
    ensures s <= MaxTriangles * |cells|
  {
    if |cells| == 0 then 0
    else
      TotalTriangles(table, field, g, cells[..|cells| - 1])
      + Count(table, CellMask(field, g, cells[|cells| - 1]))
  }

  /** The vertices emitted for `cells`, visited in the given order. */
  function EmitAll(table: CaseTable, field: Vec3 -> real, g: Grid, cells: seq<Cell>): (vs: seq<Vec3>)
    requires WellFormed(table) && g.n >= 1
    ensures |vs| == 3 * TotalTriangles(table, field, g, cells)
  {
    if |cells| == 0 then []
    else EmitAll(table, field, g, cells[..|cells| - 1]) + CellVertices(table, field, g, cells[|cells| - 1])
  }

  lemma EmitAllAppend(table: CaseTable, field: Vec3 -> real, g: Grid, cells: seq<Cell>, c: Cell)
    requires WellFormed(table) && g.n >= 1
    ensures EmitAll(table, field, g, cells + [c]) == EmitAll(table, field, g, cells) + CellVertices(table, field, g, c)
  {
    assert (cells + [c])[..|cells|] == cells;
  }

  /** The `edgeIdx` loop: for each of the three edges of one triangle,
      append the index (the current vertex count), the interpolated vertex
      and its normal. */
  method EmitTriangle(field: Vec3 -> real, values: seq<real>, tri: Tri, origin: Vec3, step: real, mesh: Mesh)
    returns (out: Mesh)
    requires TriCrosses(values, tri)
    requires Consistent(mesh, field, step)
    ensures Consistent(out, field, step)
    ensures out.vertices == mesh.vertices + TriangleVertices(values, tri, origin, step)
  {
    var vertices, normals, triangles := mesh.vertices, mesh.normals, mesh.triangles;
    for edgeIdx := 0 to 3
      invariant Consistent(Mesh(vertices, normals, triangles), field, step)
      invariant vertices == mesh.vertices + TriangleVertices(values, tri, origin, step)[..edgeIdx]
    {
      var edgeId := tri.At(edgeIdx);
      var vertexCoords := Place(origin, InterpolateOnEdge(values, edgeId), step);
      triangles := triangles + [|vertices|];
      vertices := vertices + [vertexCoords];
      normals := normals + [ComputeNormal(field, vertexCoords, step)];
    }
    assert TriangleVertices(values, tri, origin, step)[..3] == TriangleVertices(values, tri, origin, step);
    out := Mesh(vertices, normals, triangles);
  }

  /** Processes one cell as the body of the `ck` loop does: classify the
      cell, then emit every triangle of its case in order. */
  method EmitCell(table: CaseTable, field: Vec3 -> real, g: Grid, c: Cell, mesh: Mesh) returns (out: Mesh)
    requires WellFormed(table) && g.n >= 1
    requires Consistent(mesh, field, Step(g))
    ensures Consistent(out, field, Step(g))
    ensures out.vertices == mesh.vertices + CellVertices(table, field, g, c)
  {
    var step := Step(g);
    var origin := CellOrigin(g, c);
    var cubeValues, caseMask := Classify(field, origin, step);
    var trianglesCount := table.counts[caseMask];
    var caseVertices := table.triangles[caseMask];
    ghost var tris := Triangles(table, caseMask);
    assert CaseWellFormed(table, caseMask);
    SeparatingTrianglesCross(cubeValues, tris);
    out := mesh;
    for caseTriangleIdx := 0 to trianglesCount
      invariant Consistent(out, field, step)
      invariant out.vertices == mesh.vertices + CaseVertices(cubeValues, tris[..caseTriangleIdx], origin, step)
    {
      var triangleEdges := caseVertices[caseTriangleIdx];
      assert triangleEdges == tris[caseTriangleIdx];
      out := EmitTriangle(field, cubeValues, triangleEdges, origin, step, out);
      assert tris[..caseTriangleIdx + 1][..caseTriangleIdx] == tris[..caseTriangleIdx];
    }
    assert tris[..trianglesCount] == tris;
  }

  /** The source's grid: a cube edge (`coordStep`) of 0.01. */
  lemma SourceStep()
    ensures Step(SourceGrid) == 0.01
    ensures CellCount(SourceGrid.n) == 1000000
  {
  }

  /** Visiting the cell whose position is the current visit length keeps
      the visit in order. */
  lemma VisitNext(n: nat, visited: seq<Cell>, c: Cell)
    requires VisitedInOrder(n, visited)
    requires InGrid(n, c) && Index(n, c) == |visited|
    ensures VisitedInOrder(n, visited + [c])
  {
    assert (visited + [c])[..|visited|] == visited;
  }

  /** The whole build. It returns the buffers and the cells in the order the
      loops visit them: position `idx` of the visit holds the cell whose
      index `(ci * n + cj) * n + ck` is `idx`, the vertices are those of the
      visited cells in that order, and the index buffer names every vertex
      once, in order. */
  method BuildMesh(table: CaseTable, field: Vec3 -> real, g: Grid) returns (mesh: Mesh, visited: seq<Cell>)
    requires WellFormed(table) && g.n >= 1
    ensures |visited| == g.n * g.n * g.n
    ensures VisitedInOrder(g.n, visited)
    ensures Consistent(mesh, field, Step(g))
    ensures mesh.vertices == EmitAll(table, field, g, visited)
    ensures |mesh.triangles| == 3 * TotalTriangles(table, field, g, visited)
  {
    var n := g.n;
    mesh := Mesh([], [], []);
    visited := [];
    VisitEnds(n);
    for ci := 0 to n
      invariant |visited| == Index(n, Cell(ci, 0, 0))
      invariant VisitedInOrder(n, visited)
      invariant Consistent(mesh, field, Step(g))
      invariant mesh.vertices == EmitAll(table, field, g, visited)
    {
      for cj := 0 to n
        invariant |visited| == Index(n, Cell(ci, cj, 0))
        invariant VisitedInOrder(n, visited)
        invariant Consistent(mesh, field, Step(g))
        invariant mesh.vertices == EmitAll(table, field, g, visited)
      {
        for ck := 0 to n
          invariant |visited| == Index(n, Cell(ci, cj, ck))
          invariant VisitedInOrder(n, visited)
          invariant Consistent(mesh, field, Step(g))
          invariant mesh.vertices == EmitAll(table, field, g, visited)
        {
          var cell := Cell(ci, cj, ck);
          NextCell(n, ci, cj, ck);
          mesh := EmitCell(table, field, g, cell, mesh);
          EmitAllAppend(table, field, g, visited, cell);
          VisitNext(n, visited, cell);
          visited := visited + [cell];
        }
        NextRow(n, ci, cj);
      }
      NextSlab(n, ci);
    }
  }
}
