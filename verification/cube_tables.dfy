/** The two fixed tables of the generator: the eight canonical cube corners
    (`CubeVertices`) and the twelve cube edges as corner pairs
    (`EdgeIdToVertices`). The case table is indexed by this corner order. */
module CubeTables {
  import opened Vectors

  const CornerCount: nat := 8
  const EdgeCount: nat := 12

  /** Local offsets of the corners from a cell's minimum corner. */
  const CubeVertices: seq<Vec3> := [
    Vec3(0.0, 0.0, 0.0), // 0
    Vec3(0.0, 1.0, 0.0), // 1
    Vec3(1.0, 1.0, 0.0), // 2
    Vec3(1.0, 0.0, 0.0), // 3
    Vec3(0.0, 0.0, 1.0), // 4
    Vec3(0.0, 1.0, 1.0), // 5
    Vec3(1.0, 1.0, 1.0), // 6
    Vec3(1.0, 0.0, 1.0)  // 7
  ]

  /** An edge as the pair (`x`, `y`) of the corner ids it joins. */
  datatype EdgeEnds = EdgeEnds(zero: nat, one: nat)

  const EdgeIdToVertices: seq<EdgeEnds> := [
    EdgeEnds(0, 1), // 0
    EdgeEnds(1, 2), // 1
    EdgeEnds(2, 3), // 2
    EdgeEnds(3, 0), // 3
    EdgeEnds(4, 5), // 4
    EdgeEnds(5, 6), // 5
    EdgeEnds(6, 7), // 6
    EdgeEnds(7, 4), // 7
    EdgeEnds(0, 4), // 8
    EdgeEnds(1, 5), // 9
    EdgeEnds(2, 6), // 10
    EdgeEnds(3, 7)  // 11
  ]

  /** A coordinate of a unit-cube vertex: 0 or 1. */
  predicate IsZeroOrOne(r: real) {
    r == 0.0 || r == 1.0
  }

  /** A vertex of the unit cube: every coordinate is 0 or 1. */
  predicate OnUnitCubeVertex(p: Vec3) {
    IsZeroOrOne(p.x) && IsZeroOrOne(p.y) && IsZeroOrOne(p.z)
  }

  predicate InUnitCube(p: Vec3) {
    0.0 <= p.x <= 1.0 && 0.0 <= p.y <= 1.0 && 0.0 <= p.z <= 1.0
  }

  /** Number of coordinates in which `p` and `q` differ. */
  function DifferingAxes(p: Vec3, q: Vec3): nat {
    (if p.x != q.x then 1 else 0) + (if p.y != q.y then 1 else 0) + (if p.z != q.z then 1 else 0)
  }

  /** Corner `v` of the canonical order. */
  function Corner(v: nat): (c: Vec3)
    requires v < CornerCount
    ensures OnUnitCubeVertex(c)
  {
    CubeVertices[v]
  }

  /** The corner pair of edge `e`: two distinct corners one cube edge apart. */
  function Edge(e: int): (r: EdgeEnds)
    requires 0 <= e < EdgeCount
    ensures r.zero < CornerCount && r.one < CornerCount && r.zero != r.one
    ensures DifferingAxes(CubeVertices[r.zero], CubeVertices[r.one]) == 1
  {
    EdgeIdToVertices[e]
  }

  /** The eight corners are pairwise distinct, so they are exactly the eight
      vertices of the unit cube. */
  lemma CornersDistinct()
    ensures forall u, v :: 0 <= u < v < CornerCount ==> CubeVertices[u] != CubeVertices[v]
  {
  }

  /** No edge is listed twice, in either orientation: the table holds the
      twelve edges of the cube. */
  lemma EdgesDistinct()
    ensures forall e, f :: 0 <= e < f < EdgeCount ==>
      EdgeIdToVertices[e] != EdgeIdToVertices[f] &&
      EdgeIdToVertices[e] != EdgeEnds(EdgeIdToVertices[f].one, EdgeIdToVertices[f].zero)
  {
  }
}
