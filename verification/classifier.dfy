/** Cell classification: sample the field at the eight corners of a cell and
    build the case mask, as the inner `vertexId` loop of the generator does. */
module Classifier {
  import opened Vectors
  import opened CubeTables
  import opened SignMask

  /** `origin + local * step`: a local cube coordinate placed in the world.
      The local origin lands on `origin` and the local far corner one step
      further on every axis. */
  function Place(origin: Vec3, local: Vec3, step: real): (p: Vec3)
    ensures local == Vec3(0.0, 0.0, 0.0) ==> p == origin
    ensures local == Vec3(1.0, 1.0, 1.0) ==> p == Vec3(origin.x + step, origin.y + step, origin.z + step)
  {
    Vec3(origin.x + local.x * step, origin.y + local.y * step, origin.z + local.z * step)
  }

  /** World position of corner `v` of the cell at `origin`. */
  function CornerPosition(origin: Vec3, step: real, v: nat): Vec3
    requires v < CornerCount
  {
    Place(origin, CubeVertices[v], step)
  }

  /** Every corner position is a vertex of the cell's box: on each axis it
      is the origin's coordinate or one step further. */
  lemma CornerOnCellBox(origin: Vec3, step: real, v: nat)
    requires v < CornerCount
    ensures var p := CornerPosition(origin, step, v);
      && (p.x == origin.x || p.x == origin.x + step)
      && (p.y == origin.y || p.y == origin.y + step)
      && (p.z == origin.z || p.z == origin.z + step)
  {
  }

  /** The field at the eight corners of the cell at `origin`, in corner order. */
  function CornerValues(field: Vec3 -> real, origin: Vec3, step: real): (values: seq<real>)
    ensures |values| == CornerCount
  {
    seq(CornerCount, v requires 0 <= v < CornerCount => field(CornerPosition(origin, step, v)))
  }

  /** Samples the corners and accumulates the mask with `&` checked and `|`
      applied per corner. The overlap check of each step and the final
      `mask < 256` check always pass, and the mask has bit `v` set exactly
      when corner `v`'s value is non-negative. */
  method Classify(field: Vec3 -> real, origin: Vec3, step: real) returns (values: seq<real>, mask: nat)
    ensures values == CornerValues(field, origin, step)
    ensures mask < 256
    ensures forall v :: 0 <= v < CornerCount ==> (Bit(mask, v) <==> values[v] >= 0.0)
    ensures mask == MaskOf(values)
  {
    values := [];
    mask := 0;
    for vertexId := 0 to CornerCount
      invariant |values| == vertexId
      invariant forall u :: 0 <= u < vertexId ==> values[u] == field(CornerPosition(origin, step, u))
      invariant mask == MaskOf(values)
    {
      var coords := CornerPosition(origin, step, vertexId);
      var value := field(coords);
      var delta := SignBit(value) * Pow2(vertexId);
      MaskStep(values, value);
      assert BitAnd(mask, delta) == 0;
      values := values + [value];
      mask := BitOr(mask, delta);
    }
    CornerMask(values);
  }
}
