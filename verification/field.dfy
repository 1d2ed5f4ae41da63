/** The reference scalar field (`MarchingCubesFunction`) and the
    finite-difference normal (`ComputeNormal`). The field is
    `sum of r² / |c - p|²` over the metaball centers, minus 1; the centers
    are an input rather than random draws. */
module Fields {
  import opened Vectors

  /** `radius * radius` with `radius = 0.1`. */
  const RadiusSqr: real := 0.01
  /** The value a sample takes when it falls exactly on a center. */
  const Sentinel: real := 1000000000.0

  function DistSqr(c: Vec3, p: Vec3): real {
    SqrMagnitude(Sub(c, p))
  }

  lemma DistSqrNonNegative(c: Vec3, p: Vec3)
    ensures DistSqr(c, p) >= 0.0
  {
    var d := Sub(c, p);
    assert d.x * d.x >= 0.0 && d.y * d.y >= 0.0 && d.z * d.z >= 0.0;
  }

  /** Some center lies exactly on `p`. */
  predicate Coincides(centers: seq<Vec3>, p: Vec3) {
    exists k :: 0 <= k < |centers| && DistSqr(centers[k], p) == 0.0
  }

  /** The falloff of one center that does not lie on `p`. */
  function Falloff(c: Vec3, p: Vec3): (f: real)
    requires DistSqr(c, p) != 0.0
    ensures f > 0.0
  {
    DistSqrNonNegative(c, p);
    RadiusSqr / DistSqr(c, p)
  }

  /** Sum of the falloffs of all centers, none of which lies on `p`. */
  function Potential(centers: seq<Vec3>, p: Vec3): (s: real)
    requires !Coincides(centers, p)
    ensures s >= 0.0
    ensures |centers| > 0 ==> s > 0.0
  {
    if |centers| == 0 then 0.0
    else
      assert !Coincides(centers[1..], p) by {
        forall k | 0 <= k < |centers[1..]| ensures DistSqr(centers[1..][k], p) != 0.0 {
          assert centers[1..][k] == centers[k + 1];
        }
      }
      Falloff(centers[0], p) + Potential(centers[1..], p)
  }

  /** The `foreach` loop: add each center's falloff to `acc`, or stop with
      the sentinel at the first center that lies on `p`. Short of the
      sentinel, the result never falls below the starting value. */
  function Accumulate(centers: seq<Vec3>, p: Vec3, acc: real): (r: real)
    ensures r == Sentinel || r >= acc
  {
    if |centers| == 0 then acc
    else if DistSqr(centers[0], p) == 0.0 then Sentinel
    else Accumulate(centers[1..], p, acc + Falloff(centers[0], p))
  }

  /** The loop yields the sentinel when a center coincides with `p`, and
      otherwise the starting value plus the sum of all falloffs. */
  lemma {:induction false} AccumulateIsPotential(centers: seq<Vec3>, p: Vec3, acc: real)
    ensures Coincides(centers, p) ==> Accumulate(centers, p, acc) == Sentinel
    ensures !Coincides(centers, p) ==> Accumulate(centers, p, acc) == acc + Potential(centers, p)
  {
    if |centers| > 0 && DistSqr(centers[0], p) != 0.0 {
      var rest := centers[1..];
      AccumulateIsPotential(rest, p, acc + Falloff(centers[0], p));
      if Coincides(centers, p) {
        var k :| 0 <= k < |centers| && DistSqr(centers[k], p) == 0.0;
        assert k > 0 && rest[k - 1] == centers[k];
      } else {
        assert !Coincides(rest, p) by {
          forall k | 0 <= k < |rest| ensures DistSqr(rest[k], p) != 0.0 {
            assert rest[k] == centers[k + 1];
          }
        }
      }
    }
  }

  /** `MarchingCubesFunction`: `1e9 - 1` on a center, otherwise the
      potential minus one; never below -1. */
  function MarchingCubesFunction(centers: seq<Vec3>, p: Vec3): (r: real)
    ensures Coincides(centers, p) ==> r == Sentinel - 1.0
    ensures !Coincides(centers, p) ==> r == Potential(centers, p) - 1.0
    ensures r >= -1.0
  {
    AccumulateIsPotential(centers, p, 0.0);
    Accumulate(centers, p, 0.0) - 1.0
  }

  /** The probe offset of the finite differences: a tenth of the cell size. */
  function ProbeOffset(step: real): real {
    step / 10.0
  }

  /** The unnormalised normal: per axis, the field a probe offset behind the
      point minus the field a probe offset ahead of it. */
  function ComputeNormal(field: Vec3 -> real, p: Vec3, step: real): Vec3 {
    var d := ProbeOffset(step);
    Vec3(
      field(Vec3(p.x - d, p.y, p.z)) - field(Vec3(p.x + d, p.y, p.z)),
      field(Vec3(p.x, p.y - d, p.z)) - field(Vec3(p.x, p.y + d, p.z)),
      field(Vec3(p.x, p.y, p.z - d)) - field(Vec3(p.x, p.y, p.z + d)))
  }

  /** An affine field `g . p + b`. */
  function Affine(g: Vec3, b: real): Vec3 -> real {
    q => Dot(g, q) + b
  }

  /** For an affine field the central differences are exact: the normal is
      the gradient scaled by `-2 * step / 10`, pointing from the
      non-negative side of the surface to the negative side. */
  lemma AffineFieldNormal(g: Vec3, b: real, p: Vec3, step: real)
    ensures ComputeNormal(Affine(g, b), p, step) == Scale(g, -step / 5.0)
  {
    var d := ProbeOffset(step);
    var f := Affine(g, b);
    assert f(Vec3(p.x - d, p.y, p.z)) - f(Vec3(p.x + d, p.y, p.z)) == -2.0 * d * g.x;
    assert f(Vec3(p.x, p.y - d, p.z)) - f(Vec3(p.x, p.y + d, p.z)) == -2.0 * d * g.y;
    assert f(Vec3(p.x, p.y, p.z - d)) - f(Vec3(p.x, p.y, p.z + d)) == -2.0 * d * g.z;
  }
}
