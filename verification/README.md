# Marching cubes mesh generator, modelled in Dafny

This project models the marching-cubes core of the `MeshGenerator` Unity component
(`Lectures/Lecture2/Assets/Scripts/MeshGenerator.cs`). At start-up the component walks an
`n`×`n`×`n` grid of cubes. For each cube it does the following:

- It samples a scalar field at the cube's eight corners and builds an 8-bit case mask (bit `v` is
  set when corner `v`'s value is non-negative).
- It looks the mask up in the marching-cubes case table.
- For each listed triangle and each of its three edges, it linearly interpolates the point where
  the field crosses zero. It then appends an index, the vertex, and a finite-difference normal to
  three output buffers.

Modules, in dependency order:

| file | module | what it holds |
|---|---|---|
| `vectors.dfy` | `Vectors` | `Vec3` over exact reals; `Lerp`, `Dot`, `Manhattan`. |
| `cube_tables.dfy` | `CubeTables` | The two fixed tables: `CubeVertices` (8 corners) and `EdgeIdToVertices` (12 edges). |
| `sign_mask.dfy` | `SignMask` | The mask as a `nat`. `<<`, `&` and `|` of the source are modelled by `Pow2`, `BitAnd` and `BitOr`. `MaskOf` is the mask of a run of corner values. |
| `case_table.dfy` | `CaseTables` | The case table as a parameter, with the `WellFormed` conditions the generator relies on. |
| `interpolation.dfy` | `Interpolation` | `Shift` (the crossing fraction) and `InterpolateOnEdge`. |
| `field.dfy` | `Fields` | The metaball field `MarchingCubesFunction` over a given list of centers, and `ComputeNormal`. |
| `classifier.dfy` | `Classifier` | The per-cube loop over the 8 corners that builds the mask. |
| `grid_order.dfy` | `GridOrder` | The order of the `ci`/`cj`/`ck` loops. |
| `mesh_builder.dfy` | `MeshBuilder` | The whole build, as methods with loops, and a functional description of what each cube emits. |
| `mesh_properties.dfy` | `MeshProperties` | Consequences of the build: the bounding box, uniform fields, and the planar test field. |

The builder takes the field as a parameter `field: Vec3 -> real`. The reference field is
`Fields.MarchingCubesFunction`, applied to a fixed list of centers. The four random centers the
component draws become that input list.

The fraction of the way along an edge is computed by the code as `|v0 / (v1 - v0)|`. This model
follows that code. The form `|v0| / (v1 - v0)` differs from it: when `v1 < v0` that quotient is
negative. `Interpolation.ShiftIsStandard` proves that the code's form equals the usual
`v0 / (v0 - v1)` whenever the signs differ.

## Model

| member | source | states |
|---|---|---|
| CubeTables.Corner | Lectures/Lecture2/Assets/Scripts/MeshGenerator.cs:116-126 | Every entry of the corner table has each coordinate equal to 0 or 1. |
| CubeTables.CornersDistinct | Lectures/Lecture2/Assets/Scripts/MeshGenerator.cs:116-126 | The eight corners are pairwise distinct, so they are the eight vertices of the unit cube. |
| CubeTables.Edge | Lectures/Lecture2/Assets/Scripts/MeshGenerator.cs:128-142 | Each edge id joins two distinct corners, both below 8, that differ in exactly one coordinate. |
| CubeTables.EdgesDistinct | Lectures/Lecture2/Assets/Scripts/MeshGenerator.cs:128-142 | No corner pair is listed twice, in either orientation, so the table holds twelve different cube edges. |
| SignMask.SignBit | Lectures/Lecture2/Assets/Scripts/MeshGenerator.cs:66 | `value >= 0 ? 1 : 0` is a single bit whose bit 0 is set exactly when the value is non-negative. |
| SignMask.BitAnd | Lectures/Lecture2/Assets/Scripts/MeshGenerator.cs:66-67 | `&` of two non-negative integers. Its partner `SignMask.BitAndBits` shows it is bitwise. |
| SignMask.BitAndBits | Lectures/Lecture2/Assets/Scripts/MeshGenerator.cs:67 | Bit `v` of `a & b` is set if and only if bit `v` is set in both `a` and `b`. |
| SignMask.BitOr | Lectures/Lecture2/Assets/Scripts/MeshGenerator.cs:79 | `|` of two non-negative integers. Its partner `SignMask.BitOrBits` shows it is bitwise. |
| SignMask.BitOrBits | Lectures/Lecture2/Assets/Scripts/MeshGenerator.cs:79 | Bit `v` of `a | b` is set if and only if bit `v` is set in `a` or in `b`. |
| SignMask.MaskOf | Lectures/Lecture2/Assets/Scripts/MeshGenerator.cs:60-80 | The mask accumulated over `k` corner values is below `2^k`. |
| SignMask.MaskOfBits | Lectures/Lecture2/Assets/Scripts/MeshGenerator.cs:60-80 | Bit `v` of the mask is set if and only if corner value `v` is non-negative. No bit at or above the number of corners is set. |
| SignMask.BitOfSum | Lectures/Lecture2/Assets/Scripts/MeshGenerator.cs:66 | Adding `b << w` to a number below `2^w` sets bit `w` to `b` and leaves every other bit unchanged. |
| SignMask.FreshBit | Lectures/Lecture2/Assets/Scripts/MeshGenerator.cs:66-79 | A corner bit shifted above the accumulated mask has an empty `&` with it, and `|` with it equals addition. |
| SignMask.MaskStep | Lectures/Lecture2/Assets/Scripts/MeshGenerator.cs:66-79 | One corner step never trips the overlap assertion, and `mask |= delta` yields the mask of the extended value list. |
| SignMask.CornerMask | Lectures/Lecture2/Assets/Scripts/MeshGenerator.cs:81 | Over eight corners the mask is below 256, and each of its bits records one corner's sign. |
| SignMask.UniformMask | Lectures/Lecture2/Assets/Scripts/MeshGenerator.cs:60-80 | All corners non-negative give the all-ones mask. All corners negative give 0. |
| Classifier.Place | Lectures/Lecture2/Assets/Scripts/MeshGenerator.cs:64 | `origin + local * step` sends the local origin to `origin` and the local far corner to one step further on every axis. Its partner is `MeshProperties.PlaceWithin`. |
| Classifier.CornerPosition | Lectures/Lecture2/Assets/Scripts/MeshGenerator.cs:63-64 | The world position `cubeStartCoords + CubeVertices[v] * coordStep` of corner `v`. Its partner is `Classifier.CornerOnCellBox`. |
| Classifier.CornerOnCellBox | Lectures/Lecture2/Assets/Scripts/MeshGenerator.cs:63-64 | Every corner position is a vertex of the cell's box: on each axis the origin's coordinate or one step further. |
| Classifier.CornerValues | Lectures/Lecture2/Assets/Scripts/MeshGenerator.cs:61-65 | One sample per corner: eight values. |
| Classifier.Classify | Lectures/Lecture2/Assets/Scripts/MeshGenerator.cs:59-81 | The loop samples corner `v` at `origin + CubeVertices[v] * step`. It ends with mask < 256, with bit `v` set exactly when value `v` is non-negative. |
| CaseTables.WellFormed | Lectures/Lecture2/Assets/Scripts/MeshGenerator.cs:83-84 | What the generator relies on from `MarchingCubes.Tables`: 256 entries, at most five triangles each, with enough triangles listed, and every listed edge joining a non-negative corner to a negative one (the assertion at line 185). Its partners are `CaseTables.UniformCasesEmpty` and `CaseTables.SingleCornerSeparates`. |
| CaseTables.Count | Lectures/Lecture2/Assets/Scripts/MeshGenerator.cs:83 | A case lists at most five triangles. |
| CaseTables.Triangles | Lectures/Lecture2/Assets/Scripts/MeshGenerator.cs:83-84 | The generator reads exactly `Count` triangles. Each triangle's three edges join a set mask bit to a clear one. |
| CaseTables.AllOnes | Lectures/Lecture2/Assets/Scripts/MeshGenerator.cs:81-83 | Every bit below `n` of `2^n - 1` is set. |
| CaseTables.UniformCasesEmpty | Lectures/Lecture2/Assets/Scripts/MeshGenerator.cs:83-84 | In a well-formed table, masks 0 and 255 list no triangles. |
| CaseTables.SingleCornerSeparates | Lectures/Lecture2/Assets/Scripts/MeshGenerator.cs:83-84 | With only corner 0 non-negative (mask 1), exactly edges 0, 3 and 8 separate, so those are the only edges a well-formed table can use for mask 1. |
| Interpolation.Shift | Lectures/Lecture2/Assets/Scripts/MeshGenerator.cs:185-189 | Given endpoint values of opposite sign, the fraction lies in [0, 1], and the linear interpolant of the two values vanishes there. |
| Interpolation.ShiftIsStandard | Lectures/Lecture2/Assets/Scripts/MeshGenerator.cs:186 | The magnitude form `|v0 / (v1 - v0)|` equals `v0 / (v0 - v1)`. |
| Interpolation.ShiftSymmetric | Lectures/Lecture2/Assets/Scripts/MeshGenerator.cs:186 | Swapping the endpoints gives `1 - t`. |
| Interpolation.LerpReverse | Lectures/Lecture2/Assets/Scripts/MeshGenerator.cs:193 | Walking `1 - t` back from the far corner reaches the same point as walking `t` from the near one. |
| Interpolation.InterpolationSymmetric | Lectures/Lecture2/Assets/Scripts/MeshGenerator.cs:179-193 | The crossing point does not depend on the orientation of the edge. |
| Interpolation.MixBits | Lectures/Lecture2/Assets/Scripts/MeshGenerator.cs:193 | On one axis, interpolating between 0/1 coordinates stays in [0, 1]. It keeps an agreeing coordinate and moves a differing one by exactly `t`. |
| Interpolation.LerpAlongEdge | Lectures/Lecture2/Assets/Scripts/MeshGenerator.cs:191-193 | `c0 + (c1 - c0) * t` on a unit-cube edge stays in the unit cube and on the edge's line, at distance `t` from `c0`. |
| Interpolation.InterpolateOnEdge | Lectures/Lecture2/Assets/Scripts/MeshGenerator.cs:179-194 | For an edge whose endpoint values have opposite signs, the result lies in the unit cube and on the edge. It sits at a distance `t` in [0, 1] from the first corner, and there the linear interpolant of the endpoint values is zero. |
| Fields.DistSqrNonNegative | Lectures/Lecture2/Assets/Scripts/MeshGenerator.cs:153 | `sqrMagnitude` is never negative. |
| Fields.Falloff | Lectures/Lecture2/Assets/Scripts/MeshGenerator.cs:160 | A center not on the point contributes a strictly positive `r² / d²`. |
| Fields.Potential | Lectures/Lecture2/Assets/Scripts/MeshGenerator.cs:150-161 | The sum of falloffs is non-negative, and positive when there is at least one center. |
| Fields.Accumulate | Lectures/Lecture2/Assets/Scripts/MeshGenerator.cs:150-161 | The `foreach` loop with its `break`. Short of the sentinel, the result is never below the starting value. Its partner is `Fields.AccumulateIsPotential`. |
| Fields.AccumulateIsPotential | Lectures/Lecture2/Assets/Scripts/MeshGenerator.cs:150-161 | The `foreach` with early `break` yields the sentinel `1e9` when some center coincides with the point. Otherwise it yields the sum of all falloffs. |
| Fields.MarchingCubesFunction | Lectures/Lecture2/Assets/Scripts/MeshGenerator.cs:144-163 | The field is `1e9 - 1` on a center and `sum of 0.01 / d² - 1` elsewhere, so never below -1. |
| Fields.ComputeNormal | Lectures/Lecture2/Assets/Scripts/MeshGenerator.cs:196-205 | The per-axis central differences `f(p - d) - f(p + d)` with `d = coordStep / 10`, before `.normalized`. Its partner `Fields.AffineFieldNormal` shows it is `-coordStep / 5` times the gradient of an affine field. |
| Fields.AffineFieldNormal | Lectures/Lecture2/Assets/Scripts/MeshGenerator.cs:196-205 | For an affine field, the central differences with probe offset `step / 10` give the gradient scaled by `-step / 5`, before normalisation. |
| GridOrder.MulIsProduct | Lectures/Lecture2/Assets/Scripts/MeshGenerator.cs:48-53 | Repeated addition, from which positions are built, equals multiplication. |
| GridOrder.CellCount | Lectures/Lecture2/Assets/Scripts/MeshGenerator.cs:45-53 | The number of cells is `n³`. |
| GridOrder.NextCell | Lectures/Lecture2/Assets/Scripts/MeshGenerator.cs:52 | Advancing `ck` advances the visit position by one. |
| GridOrder.NextRow | Lectures/Lecture2/Assets/Scripts/MeshGenerator.cs:50-52 | The position after the last `ck` of row (`ci`, `cj`) is the first position of row (`ci`, `cj + 1`). |
| GridOrder.NextSlab | Lectures/Lecture2/Assets/Scripts/MeshGenerator.cs:48-50 | The position after the last row of slab `ci` is the first position of slab `ci + 1`. |
| GridOrder.VisitEnds | Lectures/Lecture2/Assets/Scripts/MeshGenerator.cs:48-53 | The visit starts at position 0, and the position after the last cell is `n³`. |
| GridOrder.IndexBelowCube | Lectures/Lecture2/Assets/Scripts/MeshGenerator.cs:48-53 | Every grid cell's position is below `n³`. |
| GridOrder.IndexMonotone | Lectures/Lecture2/Assets/Scripts/MeshGenerator.cs:48-53 | Cells earlier in lexicographic order are visited earlier. |
| GridOrder.VisitedPositions | Lectures/Lecture2/Assets/Scripts/MeshGenerator.cs:48-53 | In a visit built in order, where each new cell is a grid cell whose index equals the number of cells before it, position `idx` holds a grid cell whose index is `idx`. |
| GridOrder.VisitsEveryCellOnce | Lectures/Lecture2/Assets/Scripts/MeshGenerator.cs:48-53 | A visit in order that is `n³` long contains every cell exactly once, in strictly increasing lexicographic order. |
| MeshBuilder.Step | Lectures/Lecture2/Assets/Scripts/MeshGenerator.cs:46 | `coordStep = (max - min) / n`, never negative on a non-empty range. |
| MeshBuilder.SourceStep | Lectures/Lecture2/Assets/Scripts/MeshGenerator.cs:43-46 | The source's grid, [0, 1] with 100 cubes per axis, has step 0.01 and 1,000,000 cells. |
| MeshBuilder.CellOrigin | Lectures/Lecture2/Assets/Scripts/MeshGenerator.cs:54-57 | `cubeStartCoords = min + (ci, cj, ck) * coordStep`. Cell (0, 0, 0) starts at the grid's minimum corner. Its partner is `MeshProperties.CellBoxInsideGrid`. |
| MeshBuilder.Consistent | Lectures/Lecture2/Assets/Scripts/MeshGenerator.cs:98-100 | The buffer invariant of the builder: one normal per vertex, computed at that vertex, and `triangles[i] == i`. `MeshBuilder.EmitTriangle`, `MeshBuilder.EmitCell` and `MeshBuilder.BuildMesh` keep it. |
| MeshBuilder.SeparatesIffCrosses | Lectures/Lecture2/Assets/Scripts/MeshGenerator.cs:185 | An edge separates a set bit from a clear bit of the mask if and only if its endpoint values have opposite signs. So the assertion in `InterpolateOnEdge` follows from a well-formed table. |
| MeshBuilder.SeparatingTrianglesCross | Lectures/Lecture2/Assets/Scripts/MeshGenerator.cs:83-96 | Every edge of every triangle the table lists for a cube's mask has endpoint values of opposite signs. |
| MeshBuilder.TriangleVertices | Lectures/Lecture2/Assets/Scripts/MeshGenerator.cs:94-97 | One triangle emits three vertices. |
| MeshBuilder.CaseVertices | Lectures/Lecture2/Assets/Scripts/MeshGenerator.cs:91-97 | A list of triangles emits three vertices per triangle. |
| MeshBuilder.CellMask | Lectures/Lecture2/Assets/Scripts/MeshGenerator.cs:54-81 | A cube's case mask is below 256. |
| MeshBuilder.CellVertices | Lectures/Lecture2/Assets/Scripts/MeshGenerator.cs:83-97 | A cube emits `3 * CaseToTrianglesCount[mask]` vertices. In particular, a cube whose count is 0 emits nothing. |
| MeshBuilder.TotalTriangles | Lectures/Lecture2/Assets/Scripts/MeshGenerator.cs:83 | The triangles over a list of cubes number at most five per cube. |
| MeshBuilder.EmitAll | Lectures/Lecture2/Assets/Scripts/MeshGenerator.cs:48-100 | The vertices emitted over a list of cubes number three times the total triangle count. |
| MeshBuilder.EmitAllAppend | Lectures/Lecture2/Assets/Scripts/MeshGenerator.cs:48-53 | Visiting one more cube appends exactly that cube's vertices. |
| MeshBuilder.EmitTriangle | Lectures/Lecture2/Assets/Scripts/MeshGenerator.cs:94-100 | For one triangle of crossing edges, the loop appends that triangle's three vertices in edge order. Each vertex comes with one index equal to its position and one normal computed at it. |
| MeshBuilder.VisitNext | Lectures/Lecture2/Assets/Scripts/MeshGenerator.cs:48-53 | Visiting the grid cell whose index is the current visit length keeps the visit in order. |
| MeshBuilder.EmitCell | Lectures/Lecture2/Assets/Scripts/MeshGenerator.cs:54-110 | Processing one cube classifies it, then appends that cube's vertices in triangle and edge order. It appends one index, one vertex and one normal per corner, keeps index `i` equal to `i`, and computes each normal at its vertex. |
| MeshBuilder.BuildMesh | Lectures/Lecture2/Assets/Scripts/MeshGenerator.cs:43-113 | The build visits `n³` cells, position `idx` holding the cell with index `(ci * n + cj) * n + ck` equal to `idx`. Vertices and normals have equal length, and `triangles[i] == i` (so every index is below the vertex count). The vertices are those of the visited cubes in visit order, and the index buffer is three times the total triangle count long. |
| MeshProperties.PlaceWithin | Lectures/Lecture2/Assets/Scripts/MeshGenerator.cs:97 | A local point of the unit cube, placed at `origin + local * step`, lies in the cube's box. |
| MeshProperties.CaseVerticesWithin | Lectures/Lecture2/Assets/Scripts/MeshGenerator.cs:91-99 | Every vertex emitted for a cube lies in that cube's box. |
| MeshProperties.CellSpanWithinGrid | Lectures/Lecture2/Assets/Scripts/MeshGenerator.cs:43-57 | Cube `i` of `n`, from `min + i * step` to one step further, lies within [min, max]. |
| MeshProperties.CellBoxInsideGrid | Lectures/Lecture2/Assets/Scripts/MeshGenerator.cs:43-57 | A grid cube's box lies inside [min, max]³. |
| MeshProperties.CellVerticesWithinGrid | Lectures/Lecture2/Assets/Scripts/MeshGenerator.cs:54-99 | Every vertex of a grid cube lies in [min, max]³. |
| MeshProperties.EmitAllWithinGrid | Lectures/Lecture2/Assets/Scripts/MeshGenerator.cs:48-99 | Every vertex emitted over grid cubes lies in [min, max]³. |
| MeshProperties.CornerWithinGrid | Lectures/Lecture2/Assets/Scripts/MeshGenerator.cs:54-64 | Every corner at which a grid cell samples the field lies in [min, max]³. |
| MeshProperties.UniformFieldEmitsNothing | Lectures/Lecture2/Assets/Scripts/MeshGenerator.cs:59-100 | A field that is non-negative throughout [min, max]³, or negative throughout it, emits no triangles and no vertices over cells of the grid. Samples outside the box never matter. |
| MeshProperties.UniformEverywhereEmitsNothing | Lectures/Lecture2/Assets/Scripts/MeshGenerator.cs:59-100 | A field of one sign everywhere emits no triangles and no vertices over any cells. |
| MeshProperties.PlaneValuesAt | Lectures/Lecture2/Assets/Scripts/MeshGenerator.cs:149 | On a single unit cube, the field `0.5 - y` takes the value `0.5 - y` of the corner at every corner. |
| MeshProperties.PlaneCrossesVerticalEdges | Lectures/Lecture2/Assets/Scripts/MeshGenerator.cs:149 | For that field, exactly edges 0, 2, 4 and 6 (the ones along y) cross the surface. |
| MeshProperties.PlaneCrossingAtHalf | Lectures/Lecture2/Assets/Scripts/MeshGenerator.cs:149 | Each crossing of that field lies at height 0.5. |
| MeshProperties.PlaneVerticesAtHalfHeight | Lectures/Lecture2/Assets/Scripts/MeshGenerator.cs:149 | Whatever a well-formed case table lists for that cube, every emitted vertex lies on the plane y = 0.5. |
| MeshProperties.PlaneCaseAtHalf | Lectures/Lecture2/Assets/Scripts/MeshGenerator.cs:149 | Every vertex of a run of crossing triangles of that field has y = 0.5. |

## Left out

- The Unity lifecycle is not modelled. This covers `GetComponent`, `MarkDynamic` (lines 25-27) and `Update`, which hands the buffers to the engine (lines 168-177). `BuildMesh` returns the three buffers instead.
- `Debug.Log` calls (lines 69-76, 86-89, 101-108) are left out. They have no effect on the buffers.
- The random choice of the four centers (lines 29-37) is left out. The centers are an input list, and the builder takes the field as a parameter.
- Floating point is modelled by exact reals. Rounding is not modelled, so the `shift <= 1` assertion, which float rounding could in principle break, is proved for reals only.
- `ComputeNormal`: the `.normalized` call (line 205) is not modelled. The model stops at the difference vector, because normalisation of a zero vector and float square roots are outside exact real arithmetic.
- The contents of the case table (`MarchingCubes.Tables`) are not part of this model. The table is a parameter that must satisfy `CaseTables.WellFormed`. For that reason the plane scenario proves where the vertices lie, but not how many triangles the real table lists for the cube.
- `MeshBuilder.BuildMesh`: the source fixes the grid at [0, 1] with 100 cubes per axis (lines 43-46, `MeshBuilder.SourceGrid`, whose step `MeshBuilder.SourceStep` computes). The model takes any grid with at least one cube per axis.
- C# 32-bit `int` width is not modelled. The mask is at most 255 and the vertex count is unbounded.
- Assertion failures (lines 67, 81, 185, 188, 189) are not modelled as an error path. Each is proved never to fire: `SignMask.MaskStep`, `SignMask.CornerMask`, `MeshBuilder.SeparatesIffCrosses` and `Interpolation.Shift`.
- `Lectures/Lecture4/Assets/Scripts/CubemapToSphericalHarmonic.cs` is not part of this model. It is a separate GPU dispatch component.
