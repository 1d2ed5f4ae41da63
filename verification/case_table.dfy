/** The marching-cubes case table (`MarchingCubes.Tables`): for each of the
    256 sign masks, a triangle count and a list of triangles, each a triple
    of edge ids. Its contents are not part of this model; it is a parameter,
    and `WellFormed` states what the generator relies on. */
module CaseTables {
  import opened SignMask
  import opened CubeTables

  const CaseCount: nat := 256
  const MaxTriangles: nat := 5

  /** A triangle as the three edge ids (`int3`) whose crossing points are its corners. */
  datatype Tri = Tri(a: int, b: int, c: int) {
    function At(i: nat): int
      requires i < 3
    {
      if i == 0 then a else if i == 1 then b else c
    }
  }

  /** `CaseToTrianglesCount` and `CaseToVertices`. */
  datatype CaseTable = CaseTable(counts: seq<int>, triangles: seq<seq<Tri>>)

  /** Edge `e` is a real edge id and joins a corner whose mask bit is set to
      one whose bit is clear. */
  predicate Separates(mask: nat, e: int) {
    0 <= e < EdgeCount && Bit(mask, Edge(e).zero) != Bit(mask, Edge(e).one)
  }

  predicate TriSeparates(mask: nat, t: Tri) {
    Separates(mask, t.a) && Separates(mask, t.b) && Separates(mask, t.c)
  }

  predicate CaseWellFormed(table: CaseTable, m: nat)
    requires m < CaseCount && |table.counts| == CaseCount && |table.triangles| == CaseCount
  {
    && 0 <= table.counts[m] <= MaxTriangles
    && table.counts[m] <= |table.triangles[m]|
    && forall k :: 0 <= k < table.counts[m] ==> TriSeparates(m, table.triangles[m][k])
  }

  /** What the generator assumes of the table: one entry per mask, at most
      five triangles each, and only edges that separate a non-negative corner
      from a negative one. */
  predicate WellFormed(table: CaseTable) {
    && |table.counts| == CaseCount
    && |table.triangles| == CaseCount
    && forall m :: 0 <= m < CaseCount ==> CaseWellFormed(table, m)
  }

  /** `CaseToTrianglesCount[mask]`. */
  function Count(table: CaseTable, mask: nat): (n: nat)
    requires WellFormed(table) && mask < CaseCount
    ensures n <= MaxTriangles
  {
    assert CaseWellFormed(table, mask);
    table.counts[mask]
  }

  /** The triangles the generator reads for `mask`: the first `Count` of
      `CaseToVertices[mask]`. */
  function Triangles(table: CaseTable, mask: nat): (ts: seq<Tri>)
    requires WellFormed(table) && mask < CaseCount
    ensures |ts| == Count(table, mask)
    ensures forall k :: 0 <= k < |ts| ==> TriSeparates(mask, ts[k])
  {
    assert CaseWellFormed(table, mask);
    table.triangles[mask][..table.counts[mask]]
  }

  lemma {:induction false} AllOnes(n: nat, v: nat)
    requires v < n
    ensures Bit(Pow2(n) - 1, v)
  {
    if v > 0 {
      assert (Pow2(n) - 1) / 2 == Pow2(n - 1) - 1;
      AllOnes(n - 1, v - 1);
    }
  }

  /** A cell entirely inside (mask 255) or entirely outside (mask 0) the
      surface has no triangles in a well-formed table. */
  lemma UniformCasesEmpty(table: CaseTable)
    requires WellFormed(table)
    ensures Count(table, 0) == 0
    ensures Count(table, CaseCount - 1) == 0
  {
    assert CaseWellFormed(table, 0);
    assert CaseWellFormed(table, CaseCount - 1);
    if table.counts[0] > 0 {
      var e := Edge(table.triangles[0][0].a);
      NoBitsOfZero(e.zero);
      NoBitsOfZero(e.one);
      assert false;
    }
    if table.counts[CaseCount - 1] > 0 {
      var e := Edge(table.triangles[CaseCount - 1][0].a);
      assert Pow2(8) == CaseCount;
      AllOnes(8, e.zero);
      AllOnes(8, e.one);
      assert false;
    }
  }

  /** With only corner 0 non-negative (mask 1), exactly the three edges at
      corner 0 (ids 0, 3 and 8) separate, so a well-formed table can list
      for mask 1 only triangles over those edges. */
  lemma SingleCornerSeparates(e: int)
    ensures Separates(1, e) <==> (e == 0 || e == 3 || e == 8)
  {
    forall v: nat
      ensures Bit(1, v) <==> v == 0
    {
      if v > 0 {
        NoBitsOfZero(v - 1);
      }
    }
  }
}
