/** Label assignments to Young-diagram block shapes:
    `aux_diagram_contribution`, `diagram_contribution` and
    `diagrams_and_blocks`. */
module Diagrams {
  import opened Arith
  import opened Partitions

  /** The source's loop `contrib = contrib // factorial(l[k])` over the
      parts, left to right, with floor division at every step. */
  function FloorChain(c: nat, l: seq<nat>): nat
  {
    if |l| == 0 then c else FloorChain(c / Factorial(l[0]), l[1..])
  }

  /** `aux_diagram_contribution(l, n)`: 1 when n is 1 or 2, otherwise n!
      floor-divided by the factorial of each part in turn. */
  function AuxDiagramContribution(l: seq<nat>, n: nat): nat
  {
    if n == 1 || n == 2 then 1 else FloorChain(Factorial(n), l)
  }

  /** `diagram_contribution`: row labels and column labels are chosen
      independently. */
  function DiagramContribution(l1: seq<nat>, l2: seq<nat>, n: nat, m: nat): nat
  {
    AuxDiagramContribution(l1, n) * AuxDiagramContribution(l2, m)
  }

  /** Starting from k * (m + Sum(l))!, each floor division by a part's
      factorial is exact, so the chain's result times the product of the
      parts' factorials gives back the start value. */
  lemma {:induction false} FloorChainExact(k: nat, m: nat, l: seq<nat>)
    ensures FloorChain(k * Factorial(m + Sum(l)), l) * FactorialProduct(l) == k * Factorial(m + Sum(l))
    decreases |l|
  {
    if |l| > 0 {
      var a := l[0];
      var t := l[1..];
      var s := Sum(t);
      var fa := Factorial(a);
      var rest := Factorial(m + s);
      var b := Binomial(a + (m + s), a);
      var kb := k * b;
      BinomialFactorial(a, m + s);
      assert m + Sum(l) == a + (m + s);
      var big := k * Factorial(m + Sum(l));
      RegroupScale(k, b, fa, rest, Factorial(m + Sum(l)));
      assert big == (kb * rest) * fa;
      DivExact(kb * rest, fa);
      assert FloorChain(big, l) == FloorChain(kb * rest, t);
      FloorChainExact(kb, m, t);
      var q := FloorChain(kb * rest, t);
      assert FactorialProduct(l) == fa * FactorialProduct(t);
      RegroupFactor(q, FactorialProduct(t), fa, kb * rest);
    }
  }

  /** Scaling the binomial identity b * a! * rest == N by k. */
  lemma RegroupScale(k: nat, b: nat, fa: nat, rest: nat, total: nat)
    requires b * fa * rest == total
    ensures k * total == (k * b * rest) * fa
  {
  }

  /** Multiplying an exact quotient back by one more factor. */
  lemma RegroupFactor(q: nat, pt: nat, fa: nat, x: nat)
    requires q * pt == x
    ensures q * (fa * pt) == x * fa
  {
  }

  /** For n other than 1 and 2, and parts adding up to n, the contribution
      is the multinomial coefficient n! / (l[0]! * l[1]! * ...), with no
      remainder; for n in {1, 2} it is 1 whatever l is. */
  lemma AuxDiagramContributionIsMultinomial(l: seq<nat>, n: nat)
    ensures n == 1 || n == 2 ==> AuxDiagramContribution(l, n) == 1
    ensures n != 1 && n != 2 && Sum(l) == n ==>
              AuxDiagramContribution(l, n) * FactorialProduct(l) == Factorial(n)
              && AuxDiagramContribution(l, n) == Multinomial(l)
  {
    if n != 1 && n != 2 && Sum(l) == n {
      FloorChainExact(1, 0, l);
      assert 1 * Factorial(0 + Sum(l)) == Factorial(n);
      MultinomialFactorial(l);
      MulCancel(AuxDiagramContribution(l, n), Multinomial(l), FactorialProduct(l));
    }
  }

  /** A single block takes all the labels in exactly one way. */
  lemma AuxDiagramContributionSingle(n: nat)
    ensures AuxDiagramContribution([n], n) == 1
  {
    if n != 1 && n != 2 {
      DivExact(1, Factorial(n));
      assert FloorChain(Factorial(n), [n]) == FloorChain(Factorial(n) / Factorial(n), []);
    }
  }

  /** Sum of the contributions of the given shapes of a side of n labels. */
  function Weight(ps: seq<seq<nat>>, n: nat): nat
  {
    if |ps| == 0 then 0 else AuxDiagramContribution(ps[0], n) + Weight(ps[1..], n)
  }

  /** The source's innermost loop: one row shape against every column shape. */
  function RowBlock(row: seq<nat>, cols: seq<seq<nat>>, n: nat, m: nat): nat
  {
    if |cols| == 0 then 0
    else DiagramContribution(row, cols[0], n, m) + RowBlock(row, cols[1..], n, m)
  }

  /** The source's two inner loops: every row shape against every column shape. */
  function BlockSum(rows: seq<seq<nat>>, cols: seq<seq<nat>>, n: nat, m: nat): nat
  {
    if |rows| == 0 then 0
    else RowBlock(rows[0], cols, n, m) + BlockSum(rows[1..], cols, n, m)
  }

  /** The source's outer loop: block counts r = 1..k. */
  function ShapeSum(n: nat, m: nat, k: nat): nat
  {
    if k == 0 then 0
    else ShapeSum(n, m, k - 1) + BlockSum(Partite(n, k), Partite(m, k), n, m)
  }

  function Min(a: nat, b: nat): nat
  {
    if a <= b then a else b
  }

  /** `diagrams_and_blocks(n, m)`: over every number r of blocks from 1 to
      min(n, m), every composition of n and every composition of m into r
      parts, the sum of the diagram contributions. */
  function DiagramsAndBlocks(n: nat, m: nat): nat
  {
    ShapeSum(n, m, Min(n, m))
  }

  /** One row shape against all column shapes is that row's contribution
      times the total column weight. */
  lemma {:induction false} RowBlockFactors(row: seq<nat>, cols: seq<seq<nat>>, n: nat, m: nat)
    ensures RowBlock(row, cols, n, m) == AuxDiagramContribution(row, n) * Weight(cols, m)
  {
    if |cols| > 0 {
      RowBlockFactors(row, cols[1..], n, m);
      var a := AuxDiagramContribution(row, n);
      calc {
        RowBlock(row, cols, n, m);
        a * AuxDiagramContribution(cols[0], m) + a * Weight(cols[1..], m);
        a * (AuxDiagramContribution(cols[0], m) + Weight(cols[1..], m));
        a * Weight(cols, m);
      }
    }
  }

  /** The double loop of the source separates: the sum over all pairs of
      shapes is the product of the row weight and the column weight. */
  lemma {:induction false} BlockSumFactors(rows: seq<seq<nat>>, cols: seq<seq<nat>>, n: nat, m: nat)
    ensures BlockSum(rows, cols, n, m) == Weight(rows, n) * Weight(cols, m)
  {
    if |rows| > 0 {
      BlockSumFactors(rows[1..], cols, n, m);
      RowBlockFactors(rows[0], cols, n, m);
      var w := Weight(cols, m);
      calc {
        BlockSum(rows, cols, n, m);
        AuxDiagramContribution(rows[0], n) * w + Weight(rows[1..], n) * w;
        (AuxDiagramContribution(rows[0], n) + Weight(rows[1..], n)) * w;
        Weight(rows, n) * w;
      }
    }
  }

  /** Exchanging the roles of rows and columns leaves each partial sum of
      the outer loop unchanged. */
  lemma {:induction false} ShapeSumSymmetric(n: nat, m: nat, k: nat)
    ensures ShapeSum(n, m, k) == ShapeSum(m, n, k)
  {
    if k > 0 {
      ShapeSumSymmetric(n, m, k - 1);
      BlockSumFactors(Partite(n, k), Partite(m, k), n, m);
      BlockSumFactors(Partite(m, k), Partite(n, k), m, n);
    }
  }

  /** `diagrams_and_blocks` is symmetric in its two arguments. */
  lemma DiagramsAndBlocksSymmetric(n: nat, m: nat)
    ensures DiagramsAndBlocks(n, m) == DiagramsAndBlocks(m, n)
  {
    ShapeSumSymmetric(n, m, Min(n, m));
    assert Min(n, m) == Min(m, n);
  }

  /** With a single block, the only shapes are [n] and [m], contributing 1 * 1. */
  lemma SingleBlockTerm(n: nat, m: nat)
    requires n >= 1 && m >= 1
    ensures ShapeSum(n, m, 1) == 1
  {
    PartiteEdgeCases(n, 1);
    PartiteEdgeCases(m, 1);
    AuxDiagramContributionSingle(n);
    AuxDiagramContributionSingle(m);
    assert ShapeSum(n, m, 1) == BlockSum([[n]], [[m]], n, m);
    assert BlockSum([[n]], [[m]], n, m) == RowBlock([n], [[m]], n, m) + BlockSum([], [[m]], n, m);
    assert RowBlock([n], [[m]], n, m) == DiagramContribution([n], [m], n, m) + RowBlock([n], [], n, m);
  }

  /** Adding further block counts never decreases the sum. */
  lemma {:induction false} ShapeSumGrows(n: nat, m: nat, k: nat)
    requires k >= 1
    ensures ShapeSum(n, m, k) >= ShapeSum(n, m, 1)
  {
    if k > 1 {
      ShapeSumGrows(n, m, k - 1);
    }
  }

  /** For n, m >= 1 there is at least the one-block diagram. */
  lemma DiagramsAndBlocksPositive(n: nat, m: nat)
    requires n >= 1 && m >= 1
    ensures DiagramsAndBlocks(n, m) >= 1
  {
    SingleBlockTerm(n, m);
    ShapeSumGrows(n, m, Min(n, m));
  }
}
