/** Sums of a function of two indices over the triangle 1 <= m <= n <= size,
    as `namikawa_total` walks it (off-diagonal terms doubled), and over the
    full square 1 <= n, m <= size. */
module Grid {

  /** f gives the same value with its two indices exchanged. */
  ghost predicate Symmetric(f: (int, int) -> nat)
  {
    forall a, b :: f(a, b) == f(b, a)
  }

  /** Row n of the square, columns 1..k. */
  function RowSum(f: (int, int) -> nat, n: int, k: nat): nat
  {
    if k == 0 then 0 else RowSum(f, n, k - 1) + f(n, k)
  }

  /** Column m of the square, rows 1..k. */
  function ColumnSum(f: (int, int) -> nat, m: int, k: nat): nat
  {
    if k == 0 then 0 else ColumnSum(f, m, k - 1) + f(k, m)
  }

  /** Rows 1..j of the square, each over columns 1..k. */
  function RowsSum(f: (int, int) -> nat, j: nat, k: nat): nat
  {
    if j == 0 then 0 else RowsSum(f, j - 1, k) + RowSum(f, j, k)
  }

  /** The full square 1 <= n, m <= size. */
  function SquareSum(f: (int, int) -> nat, size: nat): nat
  {
    RowsSum(f, size, size)
  }

  /** The inner loop of `namikawa_total` for row n: 2 * f(n, m) for m = 1..k. */
  function DoubledRow(f: (int, int) -> nat, n: int, k: nat): nat
  {
    if k == 0 then 0 else DoubledRow(f, n, k - 1) + 2 * f(n, k)
  }

  /** The outer loop of `namikawa_total` for n = 1..upto: row n's terms left
      of the diagonal doubled, then the diagonal term once. */
  function TriangleSum(f: (int, int) -> nat, upto: nat): nat
  {
    if upto == 0 then 0
    else TriangleSum(f, upto - 1) + DoubledRow(f, upto, upto - 1) + f(upto, upto)
  }

  /** The doubled row is twice the plain row. */
  lemma {:induction false} DoubledRowIsTwice(f: (int, int) -> nat, n: int, k: nat)
    ensures DoubledRow(f, n, k) == 2 * RowSum(f, n, k)
  {
    if k > 0 {
      DoubledRowIsTwice(f, n, k - 1);
    }
  }

  /** For a symmetric f, a column sums to the same as the matching row. */
  lemma {:induction false} ColumnIsRow(f: (int, int) -> nat, n: int, k: nat)
    requires Symmetric(f)
    ensures ColumnSum(f, n, k) == RowSum(f, n, k)
  {
    if k > 0 {
      ColumnIsRow(f, n, k - 1);
      assert f(k, n) == f(n, k);
    }
  }

  /** Widening the first j rows by column k + 1 adds that column's first
      j entries. */
  lemma {:induction false} RowsSumWiden(f: (int, int) -> nat, j: nat, k: nat)
    ensures RowsSum(f, j, k + 1) == RowsSum(f, j, k) + ColumnSum(f, k + 1, j)
  {
    if j > 0 {
      RowsSumWiden(f, j - 1, k);
    }
  }

  /** For a symmetric f, the triangle with doubled off-diagonal terms sums to
      the full square. */
  lemma {:induction false} TriangleIsSquare(f: (int, int) -> nat, size: nat)
    requires Symmetric(f)
    ensures TriangleSum(f, size) == SquareSum(f, size)
  {
    if size > 0 {
      var k := size - 1;
      TriangleIsSquare(f, k);
      RowsSumWiden(f, k, k);
      ColumnIsRow(f, size, k);
      DoubledRowIsTwice(f, size, k);
      calc {
        SquareSum(f, size);
        RowsSum(f, k, size) + RowSum(f, size, size);
        RowsSum(f, k, k) + ColumnSum(f, size, k) + RowSum(f, size, size);
        SquareSum(f, k) + 2 * RowSum(f, size, k) + f(size, size);
        TriangleSum(f, k) + DoubledRow(f, size, k) + f(size, size);
        TriangleSum(f, size);
      }
    }
  }

  /** The triangle's total is never less than its first term f(1, 1). */
  lemma {:induction false} TriangleAtLeastFirst(f: (int, int) -> nat, upto: nat)
    requires upto >= 1
    ensures TriangleSum(f, upto) >= f(1, 1)
  {
    if upto > 1 {
      TriangleAtLeastFirst(f, upto - 1);
    }
  }
}
