/** The order in which the generator's triple loop over `ci`, `cj`, `ck`
    visits the cells of an `n`×`n`×`n` grid. */
module GridOrder {

  datatype Cell = Cell(i: nat, j: nat, k: nat)

  predicate InGrid(n: nat, c: Cell) {
    c.i < n && c.j < n && c.k < n
  }

  /** `a * b` as repeated addition. Positions are built from it so that
      the verifier reasons about them with linear arithmetic;
      `MulIsProduct` ties it to `*`. */
  function Mul(a: nat, b: nat): nat {
    if a == 0 then 0 else Mul(a - 1, b) + b
  }

  lemma {:induction false} MulIsProduct(a: nat, b: nat)
    ensures Mul(a, b) == a * b
  {
    if a > 0 {
      MulIsProduct(a - 1, b);
    }
  }

  /** Position of a cell in the visiting order, `(i * n + j) * n + k`:
      `ci` outermost, `ck` innermost. */
  function Index(n: nat, c: Cell): nat {
    Mul(Mul(c.i, n) + c.j, n) + c.k
  }

  /** `n³`, the number of cells. */
  function CellCount(n: nat): (m: nat)
    ensures m == n * n * n
  {
    MulIsProduct(n, n);
    MulIsProduct(n * n, n);
    Mul(Mul(n, n), n)
  }

  /** Lexicographic order on (i, j, k). */
  predicate LexLess(a: Cell, b: Cell) {
    a.i < b.i || (a.i == b.i && (a.j < b.j || (a.j == b.j && a.k < b.k)))
  }

  lemma {:induction false} MulLe(a: nat, b: nat, n: nat)
    requires a <= b
    ensures Mul(a, n) <= Mul(b, n)
    decreases b - a
  {
    if a < b {
      MulLe(a, b - 1, n);
    }
  }

  /** Everything in the block of cells sharing the prefix `x` (that is,
      `x * n <= position < (x + 1) * n`) comes before the next block. */
  lemma BlockBound(x: nat, k: nat, n: nat)
    requires k < n
    ensures Mul(x, n) + k < Mul(x + 1, n)
  {
  }

  /** Advancing `ck` advances the visit position by one. */
  lemma NextCell(n: nat, i: nat, j: nat, k: nat)
    ensures Index(n, Cell(i, j, k + 1)) == Index(n, Cell(i, j, k)) + 1
  {
  }

  /** The end of row (`i`, `j`) is the start of row (`i`, `j + 1`). */
  lemma NextRow(n: nat, i: nat, j: nat)
    ensures Index(n, Cell(i, j, n)) == Index(n, Cell(i, j + 1, 0))
  {
  }

  /** The end of slab `i` is the start of slab `i + 1`. */
  lemma NextSlab(n: nat, i: nat)
    ensures Index(n, Cell(i, n, 0)) == Index(n, Cell(i + 1, 0, 0))
  {
  }

  /** The visit starts at position 0 and ends at position `n³`. */
  lemma VisitEnds(n: nat)
    ensures Index(n, Cell(0, 0, 0)) == 0
    ensures Index(n, Cell(n, 0, 0)) == CellCount(n)
  {
  }

  /** A cell of the grid has a position below `n³`. */
  lemma IndexBelowCube(n: nat, c: Cell)
    requires InGrid(n, c)
    ensures Index(n, c) < CellCount(n)
  {
    var x := Mul(c.i, n) + c.j;
    BlockBound(c.i, c.j, n);
    MulLe(c.i + 1, n, n);
    BlockBound(x, c.k, n);
    MulLe(x + 1, Mul(n, n), n);
  }

  /** Cells earlier in lexicographic order come earlier in the visit. */
  lemma IndexMonotone(n: nat, a: Cell, b: Cell)
    requires InGrid(n, a) && InGrid(n, b) && LexLess(a, b)
    ensures Index(n, a) < Index(n, b)
  {
    var xa := Mul(a.i, n) + a.j;
    var xb := Mul(b.i, n) + b.j;
    BlockBound(xa, a.k, n);
    if a.i < b.i {
      BlockBound(a.i, a.j, n);
      MulLe(a.i + 1, b.i, n);
    }
    if xa + 1 <= xb {
      MulLe(xa + 1, xb, n);
    }
  }

  /** The visit so far: each cell, when it was visited, was a grid cell
      whose position equalled the number of cells visited before it. */
  predicate VisitedInOrder(n: nat, visited: seq<Cell>) {
    |visited| == 0 ||
    (&& VisitedInOrder(n, visited[..|visited| - 1])
     && InGrid(n, visited[|visited| - 1])
     && Index(n, visited[|visited| - 1]) == |visited| - 1)
  }

  /** In a visit in order, position `idx` holds the grid cell whose index
      is `idx`. */
  lemma {:induction false} VisitedPositions(n: nat, visited: seq<Cell>)
    requires VisitedInOrder(n, visited)
    ensures forall idx :: 0 <= idx < |visited| ==> InGrid(n, visited[idx]) && Index(n, visited[idx]) == idx
  {
    if |visited| > 0 {
      var init := visited[..|visited| - 1];
      VisitedPositions(n, init);
      assert forall idx :: 0 <= idx < |init| ==> init[idx] == visited[idx];
    }
  }

  /** A complete visit in order, `n³` long, contains every cell of the grid
      exactly once, in strictly increasing lexicographic order. */
  lemma VisitsEveryCellOnce(n: nat, visited: seq<Cell>)
    requires |visited| == CellCount(n)
    requires VisitedInOrder(n, visited)
    ensures forall c :: InGrid(n, c) ==> Index(n, c) < |visited| && visited[Index(n, c)] == c
    ensures forall p, q :: 0 <= p < q < |visited| ==> LexLess(visited[p], visited[q])
  {
    VisitedPositions(n, visited);
    forall c | InGrid(n, c)
      ensures Index(n, c) < |visited| && visited[Index(n, c)] == c
    {
      IndexBelowCube(n, c);
      var d := visited[Index(n, c)];
      if d != c {
        if LexLess(c, d) {
          IndexMonotone(n, c, d);
        } else {
          IndexMonotone(n, d, c);
        }
      }
    }
    forall p, q | 0 <= p < q < |visited|
      ensures LexLess(visited[p], visited[q])
    {
      var a, b := visited[p], visited[q];
      if !LexLess(a, b) {
        if a == b {
        } else {
          IndexMonotone(n, b, a);
        }
      }
    }
  }
}
