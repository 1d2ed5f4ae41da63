/** Properties of the built mesh: where its vertices lie, when it is empty,
    and the single-cube plane scenario of the commented-out test field
    `0.5 - y`. */
module MeshProperties {
  import opened Vectors
  import opened CubeTables
  import opened SignMask
  import opened CaseTables
  import opened Interpolation
  import opened Classifier
  import opened GridOrder
  import opened MeshBuilder

  /** `lo <= p <= hi` on every axis. */
  predicate Within(p: Vec3, lo: Vec3, hi: Vec3) {
    lo.x <= p.x <= hi.x && lo.y <= p.y <= hi.y && lo.z <= p.z <= hi.z
  }

  /** The grid's bounding box runs from `Lower(g)` to `Upper(g)`. */
  function Lower(g: Grid): Vec3 {
    Vec3(g.min, g.min, g.min)
  }

  function Upper(g: Grid): Vec3 {
    Vec3(g.max, g.max, g.max)
  }

  /** The corner of a cell opposite its origin. */
  function FarCorner(origin: Vec3, step: real): Vec3 {
    Vec3(origin.x + step, origin.y + step, origin.z + step)
  }

  lemma AxisWithin(o: real, a: real, s: real)
    requires 0.0 <= a <= 1.0 && s >= 0.0
    ensures o <= o + a * s <= o + s
  {
    assert a * s <= 1.0 * s;
  }

  /** A local point of the unit cube lands inside the cell's box. */
  lemma PlaceWithin(origin: Vec3, local: Vec3, step: real)
    requires InUnitCube(local) && step >= 0.0
    ensures Within(Place(origin, local, step), origin, FarCorner(origin, step))
  {
    var p := Place(origin, local, step);
    assert origin.x <= p.x <= origin.x + step by { AxisWithin(origin.x, local.x, step); }
    assert origin.y <= p.y <= origin.y + step by { AxisWithin(origin.y, local.y, step); }
    assert origin.z <= p.z <= origin.z + step by { AxisWithin(origin.z, local.z, step); }
  }

  /** Every vertex emitted for a case lies in the box of its cell. */
  lemma {:induction false} CaseVerticesWithin(values: seq<real>, tris: seq<Tri>, origin: Vec3, step: real)
    requires forall k :: 0 <= k < |tris| ==> TriCrosses(values, tris[k])
    requires step >= 0.0
    ensures forall i :: 0 <= i < |CaseVertices(values, tris, origin, step)| ==>
      Within(CaseVertices(values, tris, origin, step)[i], origin, FarCorner(origin, step))
  {
    if |tris| > 0 {
      var init := tris[..|tris| - 1];
      var last := tris[|tris| - 1];
      CaseVerticesWithin(values, init, origin, step);
      forall e | 0 <= e < 3
        ensures Within(TriangleVertices(values, last, origin, step)[e], origin, FarCorner(origin, step))
      {
        PlaceWithin(origin, InterpolateOnEdge(values, last.At(e)), step);
      }
    }
  }

  /** The far side of cube `i` stays below `hi` when `n` cubes of edge
      `s` span [lo, hi] and `i < n`. */
  lemma FarSideBound(i: nat, n: nat, s: real, lo: real, hi: real)
    requires i < n && s >= 0.0 && (n as real) * s == hi - lo
    ensures lo + ((i + 1) as real) * s <= hi
  {
    assert ((i + 1) as real) * s <= (n as real) * s;
  }

  lemma SuccTimes(i: nat, s: real)
    ensures ((i + 1) as real) * s == (i as real) * s + s
  {
  }

  /** The cube of grid cell index `i` lies within [min, max] on that axis. */
  lemma CellSpanWithinGrid(g: Grid, i: nat)
    requires g.n >= 1 && g.min <= g.max && i < g.n
    ensures g.min <= g.min + (i as real) * Step(g)
    ensures g.min + (i as real) * Step(g) + Step(g) <= g.max
  {
    var s := Step(g);
    assert (g.n as real) * s == g.max - g.min;
    FarSideBound(i, g.n, s, g.min, g.max);
    SuccTimes(i, s);
  }

  /** The box [lo, hi] lies inside the box [lo2, hi2]. */
  predicate BoxInside(lo: Vec3, hi: Vec3, lo2: Vec3, hi2: Vec3) {
    Within(lo, lo2, hi2) && Within(hi, lo2, hi2)
  }

  lemma WithinWiden(p: Vec3, lo: Vec3, hi: Vec3, lo2: Vec3, hi2: Vec3)
    requires Within(p, lo, hi) && BoxInside(lo, hi, lo2, hi2)
    ensures Within(p, lo2, hi2)
  {
  }

  /** The box of a grid cell lies inside [min, max]³. */
  lemma CellBoxInsideGrid(g: Grid, c: Cell)
    requires g.n >= 1 && g.min <= g.max && InGrid(g.n, c)
    ensures BoxInside(CellOrigin(g, c), FarCorner(CellOrigin(g, c), Step(g)), Lower(g), Upper(g))
  {
    CellSpanWithinGrid(g, c.i);
    CellSpanWithinGrid(g, c.j);
    CellSpanWithinGrid(g, c.k);
    CubeInside(CellOrigin(g, c), Step(g), g);
  }

  /** A cube whose extent lies in [min, max] on each axis lies in the grid's box. */
  lemma CubeInside(o: Vec3, s: real, g: Grid)
    requires g.min <= o.x && o.x + s <= g.max
    requires g.min <= o.y && o.y + s <= g.max
    requires g.min <= o.z && o.z + s <= g.max
    requires s >= 0.0
    ensures BoxInside(o, FarCorner(o, s), Lower(g), Upper(g))
  {
  }

  /** Every vertex of a grid cell lies in the bounding box [min, max]³. */
  lemma CellVerticesWithinGrid(table: CaseTable, field: Vec3 -> real, g: Grid, c: Cell)
    requires WellFormed(table) && g.n >= 1 && g.min <= g.max && InGrid(g.n, c)
    ensures forall i :: 0 <= i < |CellVertices(table, field, g, c)| ==>
      Within(CellVertices(table, field, g, c)[i], Lower(g), Upper(g))
  {
    var origin := CellOrigin(g, c);
    var far := FarCorner(origin, Step(g));
    var values := CornerValues(field, origin, Step(g));
    var tris := Triangles(table, CellMask(field, g, c));
    SeparatingTrianglesCross(values, tris);
    CaseVerticesWithin(values, tris, origin, Step(g));
    CellBoxInsideGrid(g, c);
    var vs := CellVertices(table, field, g, c);
    assert vs == CaseVertices(values, tris, origin, Step(g));
    forall i | 0 <= i < |vs|
      ensures Within(vs[i], Lower(g), Upper(g))
    {
      WithinWiden(vs[i], origin, far, Lower(g), Upper(g));
    }
  }

  /** Every vertex the build emits over cells of the grid lies in the
      bounding box [min, max]³. */
  lemma {:induction false} EmitAllWithinGrid(table: CaseTable, field: Vec3 -> real, g: Grid, cells: seq<Cell>)
    requires WellFormed(table) && g.n >= 1 && g.min <= g.max
    requires forall k :: 0 <= k < |cells| ==> InGrid(g.n, cells[k])
    ensures forall i :: 0 <= i < |EmitAll(table, field, g, cells)| ==>
      Within(EmitAll(table, field, g, cells)[i], Lower(g), Upper(g))
  {
    if |cells| > 0 {
      EmitAllWithinGrid(table, field, g, cells[..|cells| - 1]);
      CellVerticesWithinGrid(table, field, g, cells[|cells| - 1]);
    }
  }

  /** Corner `v` of a grid cell, where the generator samples the field,
      lies in the bounding box [min, max]³. */
  lemma CornerWithinGrid(g: Grid, c: Cell, v: nat)
    requires g.n >= 1 && g.min <= g.max && InGrid(g.n, c) && v < CornerCount
    ensures Within(CornerPosition(CellOrigin(g, c), Step(g), v), Lower(g), Upper(g))
  {
    var origin := CellOrigin(g, c);
    var local := Corner(v);
    PlaceWithin(origin, local, Step(g));
    CellBoxInsideGrid(g, c);
    WithinWiden(CornerPosition(origin, Step(g), v), origin, FarCorner(origin, Step(g)), Lower(g), Upper(g));
  }

  /** The field has one sign throughout the box [lo, hi]. */
  ghost predicate UniformIn(field: Vec3 -> real, lo: Vec3, hi: Vec3) {
    (forall p :: Within(p, lo, hi) ==> field(p) >= 0.0) || (forall p :: Within(p, lo, hi) ==> field(p) < 0.0)
  }

  /** A field that is non-negative throughout the grid's bounding box, or
      negative throughout it, produces no triangles over cells of the grid:
      only corner samples inside [min, max]³ decide the masks. */
  lemma {:induction false} UniformFieldEmitsNothing(table: CaseTable, field: Vec3 -> real, g: Grid, cells: seq<Cell>)
    requires WellFormed(table) && g.n >= 1 && g.min <= g.max
    requires forall k :: 0 <= k < |cells| ==> InGrid(g.n, cells[k])
    requires UniformIn(field, Lower(g), Upper(g))
    ensures TotalTriangles(table, field, g, cells) == 0
    ensures EmitAll(table, field, g, cells) == []
  {
    if |cells| > 0 {
      var init := cells[..|cells| - 1];
      assert forall k :: 0 <= k < |init| ==> init[k] == cells[k];
      UniformFieldEmitsNothing(table, field, g, init);
      var c := cells[|cells| - 1];
      var origin := CellOrigin(g, c);
      var values := CornerValues(field, origin, Step(g));
      forall v | 0 <= v < |values|
        ensures values[v] == field(CornerPosition(origin, Step(g), v))
        ensures Within(CornerPosition(origin, Step(g), v), Lower(g), Upper(g))
      {
        CornerWithinGrid(g, c, v);
      }
      UniformMask(values);
      UniformCasesEmpty(table);
      assert Pow2(8) - 1 == CaseCount - 1;
    }
  }

  /** A field that is non-negative everywhere, or negative everywhere,
      produces no triangles over any cells, in the grid or not. */
  lemma {:induction false} UniformEverywhereEmitsNothing(table: CaseTable, field: Vec3 -> real, g: Grid, cells: seq<Cell>)
    requires WellFormed(table) && g.n >= 1
    requires (forall p :: field(p) >= 0.0) || (forall p :: field(p) < 0.0)
    ensures TotalTriangles(table, field, g, cells) == 0
    ensures EmitAll(table, field, g, cells) == []
  {
    if |cells| > 0 {
      UniformEverywhereEmitsNothing(table, field, g, cells[..|cells| - 1]);
      var c := cells[|cells| - 1];
      var values := CornerValues(field, CellOrigin(g, c), Step(g));
      forall v | 0 <= v < |values|
        ensures values[v] == field(CornerPosition(CellOrigin(g, c), Step(g), v))
      {
      }
      UniformMask(values);
      UniformCasesEmpty(table);
      assert Pow2(8) - 1 == CaseCount - 1;
    }
  }

  /** The planar test field `0.5 - y`. */
  function PlaneField(): Vec3 -> real {
    (p: Vec3) => 0.5 - p.y
  }

  /** A single cube spanning [0, 1]. */
  const UnitGrid: Grid := Grid(0.0, 1.0, 1)

  function PlaneValues(): (values: seq<real>)
    ensures |values| == CornerCount
  {
    CornerValues(PlaneField(), CellOrigin(UnitGrid, Cell(0, 0, 0)), Step(UnitGrid))
  }

  /** On the single unit cube, corner `v` sits at `CubeVertices[v]`. */
  lemma UnitCorner(v: nat)
    requires v < CornerCount
    ensures CornerPosition(CellOrigin(UnitGrid, Cell(0, 0, 0)), Step(UnitGrid), v) == CubeVertices[v]
  {
    assert Step(UnitGrid) == 1.0;
    assert CellOrigin(UnitGrid, Cell(0, 0, 0)) == Vec3(0.0, 0.0, 0.0);
  }

  lemma PlaneValuesAt(v: nat)
    requires v < CornerCount
    ensures PlaneValues()[v] == 0.5 - CubeVertices[v].y
  {
    UnitCorner(v);
    assert PlaneValues()[v] == PlaneField()(CornerPosition(CellOrigin(UnitGrid, Cell(0, 0, 0)), Step(UnitGrid), v));
  }

  /** For the plane `0.5 - y` over one unit cube, exactly the four edges that
      run along y (0, 2, 4 and 6) cross the surface. */
  lemma PlaneCrossesVerticalEdges(e: int)
    requires 0 <= e < EdgeCount
    ensures Crosses(PlaneValues(), e) <==> (e == 0 || e == 2 || e == 4 || e == 6)
  {
    PlaneValuesAt(Edge(e).zero);
    PlaneValuesAt(Edge(e).one);
  }

  /** ... and every such crossing lies at height 0.5. */
  lemma PlaneCrossingAtHalf(e: int)
    requires Crosses(PlaneValues(), e)
    ensures InterpolateOnEdge(PlaneValues(), e).y == 0.5
  {
    PlaneCrossesVerticalEdges(e);
    var p := CubeVertices[Edge(e).zero];
    var q := CubeVertices[Edge(e).one];
    var r := InterpolateOnEdge(PlaneValues(), e);
    PlaneValuesAt(Edge(e).zero);
    PlaneValuesAt(Edge(e).one);
    assert p.x == q.x && p.z == q.z;
    assert r.x == p.x && r.z == p.z;
    var t := Abs(p.y - r.y);
    assert Manhattan(p, r) == t;
    assert InterpolantVanishes(0.5 - p.y, 0.5 - q.y, t);
    if p.y == 0.0 {
      assert q.y == 1.0;
      assert 0.5 - t == 0.0;
    } else {
      assert p.y == 1.0 && q.y == 0.0;
      assert -0.5 + t == 0.0;
    }
  }

  /** Whatever a well-formed case table lists for the plane's case, every
      vertex emitted for the cube lies on the plane y = 0.5. */
  lemma PlaneVerticesAtHalfHeight(table: CaseTable)
    requires WellFormed(table)
    ensures forall i :: 0 <= i < |CellVertices(table, PlaneField(), UnitGrid, Cell(0, 0, 0))| ==>
      CellVertices(table, PlaneField(), UnitGrid, Cell(0, 0, 0))[i].y == 0.5
  {
    var values := PlaneValues();
    var tris := Triangles(table, CellMask(PlaneField(), UnitGrid, Cell(0, 0, 0)));
    SeparatingTrianglesCross(values, tris);
    assert Step(UnitGrid) == 1.0;
    assert CellOrigin(UnitGrid, Cell(0, 0, 0)) == Vec3(0.0, 0.0, 0.0);
    PlaneCaseAtHalf(tris);
  }

  lemma {:induction false} PlaneCaseAtHalf(tris: seq<Tri>)
    requires forall k :: 0 <= k < |tris| ==> TriCrosses(PlaneValues(), tris[k])
    ensures forall i :: 0 <= i < |CaseVertices(PlaneValues(), tris, Vec3(0.0, 0.0, 0.0), 1.0)| ==>
      CaseVertices(PlaneValues(), tris, Vec3(0.0, 0.0, 0.0), 1.0)[i].y == 0.5
  {
    if |tris| > 0 {
      var last := tris[|tris| - 1];
      PlaneCaseAtHalf(tris[..|tris| - 1]);
      forall e | 0 <= e < 3
        ensures TriangleVertices(PlaneValues(), last, Vec3(0.0, 0.0, 0.0), 1.0)[e].y == 0.5
      {
        PlaneCrossingAtHalf(last.At(e));
      }
    }
  }
}
