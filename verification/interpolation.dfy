/** `InterpolateOnEdge`: the point on a cube edge where the linear
    interpolation of the two endpoint values is zero, in local cube
    coordinates. */
module Interpolation {
  import opened Vectors
  import opened CubeTables

  /** The endpoint values lie on opposite sides of zero: exactly one is
      non-negative. */
  predicate OppositeSigns(v0: real, v1: real) {
    (v0 >= 0.0) != (v1 >= 0.0)
  }

  /** The linear interpolant that is `v0` at 0 and `v1` at 1 vanishes at `t`. */
  predicate InterpolantVanishes(v0: real, v1: real, t: real) {
    v0 + (v1 - v0) * t == 0.0
  }

  /** `|v0 / (v1 - v0)|`: the fraction of the way from the first endpoint to
      the second at which the linear interpolant vanishes. */
  function Shift(v0: real, v1: real): (t: real)
    requires OppositeSigns(v0, v1)
    ensures 0.0 <= t <= 1.0
    ensures InterpolantVanishes(v0, v1, t)
  {
    var d := v1 - v0;
    var q := v0 / d;
    assert q * d == v0;
    if v0 >= 0.0 then
      assert d < 0.0 && q <= 0.0;
      assert -q * -d == v0 && -d >= v0;
      Abs(q)
    else
      assert d > 0.0 && q < 0.0;
      assert -q * d == -v0 && d >= -v0;
      Abs(q)
  }

  /** The magnitude form agrees with the usual `v0 / (v0 - v1)`. */
  lemma ShiftIsStandard(v0: real, v1: real)
    requires OppositeSigns(v0, v1)
    ensures Shift(v0, v1) == v0 / (v0 - v1)
  {
    var t := Shift(v0, v1);
    assert t * (v0 - v1) == v0;
  }

  /** Interpolating from the other end of the edge gives the same fraction,
      measured from the other corner. */
  lemma ShiftSymmetric(v0: real, v1: real)
    requires OppositeSigns(v0, v1)
    ensures Shift(v1, v0) == 1.0 - Shift(v0, v1)
  {
    ShiftIsStandard(v0, v1);
    ShiftIsStandard(v1, v0);
    var d := v0 - v1;
    assert v1 / (v1 - v0) == -v1 / d;
    assert v0 / d + -v1 / d == d / d;
    assert d / d == 1.0;
  }

  /** Walking `1 - t` back from `q` reaches the point `t` along from `p`. */
  lemma LerpReverse(p: Vec3, q: Vec3, t: real)
    ensures Lerp(q, p, 1.0 - t) == Lerp(p, q, t)
  {
    assert q.x + (p.x - q.x) * (1.0 - t) == p.x + (q.x - p.x) * t;
    assert q.y + (p.y - q.y) * (1.0 - t) == p.y + (q.y - p.y) * t;
    assert q.z + (p.z - q.z) * (1.0 - t) == p.z + (q.z - p.z) * t;
  }

  /** The crossing point does not depend on the orientation of the edge. */
  lemma InterpolationSymmetric(v0: real, v1: real, p: Vec3, q: Vec3)
    requires OppositeSigns(v0, v1)
    ensures Lerp(q, p, Shift(v1, v0)) == Lerp(p, q, Shift(v0, v1))
  {
    ShiftSymmetric(v0, v1);
    LerpReverse(p, q, Shift(v0, v1));
  }

  /** `r` agrees with `p` in every coordinate in which `p` and `q` agree:
      it lies on the line through the edge from `p` to `q`. */
  predicate KeepsFixedCoords(p: Vec3, q: Vec3, r: Vec3) {
    && (p.x == q.x ==> r.x == p.x)
    && (p.y == q.y ==> r.y == p.y)
    && (p.z == q.z ==> r.z == p.z)
  }

  /** One coordinate of a move from `p` towards `q` by a fraction `t` in
      [0,1], where both ends are 0 or 1. */
  lemma MixBits(p: real, q: real, t: real)
    requires IsZeroOrOne(p) && IsZeroOrOne(q) && 0.0 <= t <= 1.0
    ensures 0.0 <= Mix(p, q, t) <= 1.0
    ensures p == q ==> Mix(p, q, t) == p
    ensures p != q ==> Abs(p - Mix(p, q, t)) == t
  {
  }

  /** Moving a fraction `t` in [0,1] along a unit-cube edge from `p` to `q`
      stays in the cube, on the edge's line, and travels exactly `t`. */
  lemma LerpAlongEdge(p: Vec3, q: Vec3, t: real)
    requires OnUnitCubeVertex(p) && OnUnitCubeVertex(q) && DifferingAxes(p, q) == 1
    requires 0.0 <= t <= 1.0
    ensures InUnitCube(Lerp(p, q, t))
    ensures KeepsFixedCoords(p, q, Lerp(p, q, t))
    ensures Manhattan(p, Lerp(p, q, t)) == t
  {
    MixBits(p.x, q.x, t);
    MixBits(p.y, q.y, t);
    MixBits(p.z, q.z, t);
  }

  /** Edge `e` is an edge id whose endpoint values have opposite signs. */
  predicate Crosses(values: seq<real>, e: int) {
    && |values| == CornerCount
    && 0 <= e < EdgeCount
    && OppositeSigns(values[Edge(e).zero], values[Edge(e).one])
  }

  /** The crossing point on edge `edgeId`: it lies in the unit cube, on the
      line of the edge, at the distance `t` from the first corner at which
      the linear interpolant of the endpoint values is zero. */
  function InterpolateOnEdge(values: seq<real>, edgeId: int): (r: Vec3)
    requires Crosses(values, edgeId)
    ensures InUnitCube(r)
    ensures KeepsFixedCoords(CubeVertices[Edge(edgeId).zero], CubeVertices[Edge(edgeId).one], r)
    ensures
      var t := Manhattan(CubeVertices[Edge(edgeId).zero], r);
      var v0 := values[Edge(edgeId).zero];
      var v1 := values[Edge(edgeId).one];
      0.0 <= t <= 1.0 && InterpolantVanishes(v0, v1, t)
  {
    var e := Edge(edgeId);
    var p := Corner(e.zero);
    var q := Corner(e.one);
    var v0 := values[e.zero];
    var v1 := values[e.one];
    var t := Shift(v0, v1);
    LerpAlongEdge(p, q, t);
    var r := Lerp(p, q, t);
    r
  }
}
