/** The Namikawa count: `namikawa_P(n, m)` and `namikawa_total()`. */
module Namikawa {
  import opened Labels
  import opened Diagrams
  import opened Grid

  /** `namikawa_P(n, m)`: label sets of size n and m combined with the
      diagrams joining them. Defined where `label_set` is, 1 <= n, m <= 9. */
  function NamikawaP(n: int, m: int): nat
    requires 1 <= n <= 9 && 1 <= m <= 9
  {
    Product3(LabelSet(n), LabelSet(m), DiagramsAndBlocks(n, m))
  }

  function Product3(a: nat, b: nat, c: nat): nat
  {
    a * b * c
  }

  /** `namikawa_P` is symmetric and positive. */
  lemma NamikawaPSymmetricPositive(n: int, m: int)
    requires 1 <= n <= 9 && 1 <= m <= 9
    ensures NamikawaP(n, m) == NamikawaP(m, n)
    ensures NamikawaP(n, m) >= 1
  {
    DiagramsAndBlocksSymmetric(n, m);
    DiagramsAndBlocksPositive(n, m);
    PositiveProduct(LabelSet(n), LabelSet(m), DiagramsAndBlocks(n, m));
  }

  /** A product of three positive factors is positive and can be reordered. */
  lemma PositiveProduct(a: nat, b: nat, c: nat)
    requires a >= 1 && b >= 1 && c >= 1
    ensures a * b * c >= 1
    ensures a * b * c == b * a * c
  {
    assert a * b >= 1;
  }

  /** The smallest case: one curve on each side, one diagram. */
  lemma NamikawaPOneOne()
    ensures NamikawaP(1, 1) == 1
  {
    SingleBlockTerm(1, 1);
    assert DiagramsAndBlocks(1, 1) == ShapeSum(1, 1, 1);
    LabelTupleValues();
  }

  /** `namikawa_P` as a total function of two indices: its value on the
      9 x 9 grid, and 0 outside it, where `namikawa_total` never looks. */
  function NamikawaGrid(n: int, m: int): nat
  {
    if 1 <= n <= 9 && 1 <= m <= 9 then NamikawaP(n, m) else 0
  }

  /** The grid inherits the symmetry of `namikawa_P`. */
  lemma NamikawaGridSymmetric()
    ensures Symmetric(NamikawaGrid)
  {
    forall a, b ensures NamikawaGrid(a, b) == NamikawaGrid(b, a) {
      if 1 <= a <= 9 && 1 <= b <= 9 {
        NamikawaPSymmetricPositive(a, b);
      }
    }
  }

  /** `namikawa_total()`: for n = 1..9, twice `namikawa_P(n, m)` for each
      m < n, plus `namikawa_P(n, n)`. */
  function NamikawaTotal(): nat
  {
    TriangleSum(NamikawaGrid, 9)
  }

  /** `namikawa_total()` equals the sum of `namikawa_P(n, m)` over the full
      grid 1 <= n, m <= 9, and is positive. */
  lemma NamikawaTotalIsGridSum()
    ensures NamikawaTotal() == SquareSum(NamikawaGrid, 9)
    ensures NamikawaTotal() >= 1
  {
    NamikawaGridSymmetric();
    TriangleIsSquare(NamikawaGrid, 9);
    NamikawaPOneOne();
    TriangleAtLeastFirst(NamikawaGrid, 9);
  }
}
