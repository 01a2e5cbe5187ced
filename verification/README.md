# Namikawa count, modelled in Dafny

A model of `articles/p0-NamikawaCount.py`. The program counts configurations of
disjoint (-1)-curves on a general rational elliptic surface up to automorphism.
It combines them into the "Namikawa count" `namikawa_P(n, m)` for
1 <= m <= n <= 9, plus a grand total `namikawa_total()`. Every step is exact
integer arithmetic over a fixed table and small enumerations. The model keeps
the program's structure, one module per stage:

- `Arith`: factorials, sums of parts, products of factorials, and binomial and
  multinomial coefficients. These are the mathematics behind the program's
  exact divisions. `Factorial` stands in for `math.factorial`.
- `Labels`: the `pezzo` table (`PezzoCurves`), the recurrence `label_tuple`
  (`LabelTuple`, with `TryLabelTuple` for its out-of-range exception), and
  `label_renormalized` and `label_set` (`LabelRenormalized`, `LabelSet`).
- `Partitions`: `partite` (`Partite`, with `PartiteFrom` for its loop over the
  last part). It enumerates the compositions of n into r positive parts.
- `Diagrams`: `aux_diagram_contribution` (`AuxDiagramContribution` over the
  floor-division chain `FloorChain`), `diagram_contribution`, and
  `diagrams_and_blocks`. That last function is `ShapeSum`, `BlockSum` and
  `RowBlock`, one per loop.
- `Grid`: the two loops of `namikawa_total` (`TriangleSum` and `DoubledRow`)
  for any function of two indices, and the reference sum over the full square
  (`SquareSum`).
- `Namikawa`: `namikawa_P` (`NamikawaP`), and `namikawa_total`
  (`NamikawaTotal`). The total is the `Grid` triangle sum of `NamikawaGrid`,
  which is `namikawa_P` on the 9 x 9 grid.

Main results:
- `label_tuple(n)` is a multiple of n! for every n in 1..9, so the floor
  divisions in `label_set` and `label_renormalized` are exact.
- `partite(n, r)` lists every composition of n into r >= 1 parts exactly once,
  and lists nothing else.
- For n outside {1, 2} and parts adding up to n, `aux_diagram_contribution` is
  the multinomial coefficient. Its chained floor divisions never drop a
  remainder.
- `diagrams_and_blocks` factors into row weights times column weights, so it
  is symmetric, and it is at least 1 for n, m >= 1.
- `namikawa_P` is symmetric and positive.
- The doubled triangle in `namikawa_total` equals the sum over the full
  9 x 9 grid.

## Model

| member | source | states |
|---|---|---|
| Labels.PezzoCurves | articles/p0-NamikawaCount.py:5-7 | the del Pezzo curve counts for degrees 1 to 7; the contract only bounds each entry below by 3 |
| Labels.LabelTuple | articles/p0-NamikawaCount.py:12-25 | on its domain 1..9 the recurrence always yields a positive count |
| Labels.TryLabelTuple | articles/p0-NamikawaCount.py:12-25 | the recurrence written with its exception branch (`None` for the raise) yields a value exactly for 1 <= n <= 9, and that value is the positive `label_tuple(n)` of the precondition-guarded model; every other argument reaches "Value out of range" |
| Labels.LabelTupleValues | articles/p0-NamikawaCount.py:12-23 | the recurrence gives 1, 120, 6720, 181440, 2903040, 29030400, 174182400, 522547200, 348364800 for n = 1..9, including 240 // 2 at n = 2 and label_tuple(7) * 2 at n = 9 |
| Labels.LabelTupleDivisible | articles/p0-NamikawaCount.py:12-37 | for every n in 1..9, `label_tuple(n)` is n! times a listed quotient, so dividing by n! leaves no remainder |
| Labels.LabelRenormalized | articles/p0-NamikawaCount.py:29-30 | the renormalized count times n! gives back `label_tuple(n)` exactly, and it is at least 1 |
| Labels.LabelSet | articles/p0-NamikawaCount.py:33-37 | for n other than 2 the set count times n! gives back `label_tuple(n)` exactly; for n = 2 it is the undivided `label_tuple(2)` = 120; always at least 1 |
| Labels.LabelSetVersusRenormalized | articles/p0-NamikawaCount.py:29-37 | `label_set` equals `label_renormalized` except at n = 2, where it is twice as large (120 against 60) |
| Partitions.PartiteEdgeCases | articles/p0-NamikawaCount.py:42-46 | nothing is listed when r <= 0 or r > n; exactly [[n]] is listed when r == 1 and n >= 1 |
| Partitions.PartiteFromCount | articles/p0-NamikawaCount.py:48-54 | the loop over last parts i, i+1, ..., n lists exactly the compositions of n into r parts whose last part is at least i, each once |
| Partitions.PartiteCount | articles/p0-NamikawaCount.py:39-54 | every sequence occurs in `partite(n, r)` once if it is a composition of n into r >= 1 positive parts, and not at all otherwise |
| Partitions.PartiteEnumeratesCompositions | articles/p0-NamikawaCount.py:39-54 | membership in `partite(n, r)` holds if and only if the sequence has r >= 1 positive parts summing to n; no entry is listed twice |
| Diagrams.FloorChainExact | articles/p0-NamikawaCount.py:62-66 | dividing k * (m + sum of parts)! by each part's factorial in turn is exact at every step, so the result times the product of the parts' factorials gives back the start value |
| Diagrams.AuxDiagramContributionIsMultinomial | articles/p0-NamikawaCount.py:58-66 | the contribution is 1 for n in {1, 2} whatever l is; for any other n and parts adding up to n, it times the product of the parts' factorials is n!, and it equals the multinomial coefficient |
| Diagrams.AuxDiagramContributionSingle | articles/p0-NamikawaCount.py:58-66 | a single block [n] has contribution 1 for every n |
| Diagrams.RowBlockFactors | articles/p0-NamikawaCount.py:68-80 | the innermost loop's sum for one row shape is that row's contribution times the summed contributions of the column shapes |
| Diagrams.BlockSumFactors | articles/p0-NamikawaCount.py:68-80 | the double loop over row and column shapes is the product of the summed row contributions and the summed column contributions |
| Diagrams.ShapeSumSymmetric | articles/p0-NamikawaCount.py:73-81 | every partial sum over block counts 1..k is unchanged when n and m are exchanged |
| Diagrams.DiagramsAndBlocksSymmetric | articles/p0-NamikawaCount.py:73-81 | `diagrams_and_blocks(n, m) == diagrams_and_blocks(m, n)` for all n, m |
| Diagrams.SingleBlockTerm | articles/p0-NamikawaCount.py:73-81 | the r = 1 term of the outer loop is exactly 1 * 1 = 1 for n, m >= 1 |
| Diagrams.ShapeSumGrows | articles/p0-NamikawaCount.py:73-81 | the running total of the outer loop never falls below its r = 1 value |
| Diagrams.DiagramsAndBlocksPositive | articles/p0-NamikawaCount.py:73-81 | `diagrams_and_blocks(n, m) >= 1` whenever n, m >= 1 |
| Namikawa.NamikawaPSymmetricPositive | articles/p0-NamikawaCount.py:83-84 | `namikawa_P(n, m) == namikawa_P(m, n)` and it is at least 1, for all 1 <= n, m <= 9 |
| Namikawa.NamikawaPOneOne | articles/p0-NamikawaCount.py:83-84 | `namikawa_P(1, 1) == 1` |
| Namikawa.NamikawaGridSymmetric | articles/p0-NamikawaCount.py:83-84 | the grid of `namikawa_P` values read by `namikawa_total` is symmetric in its two indices |
| Grid.DoubledRowIsTwice | articles/p0-NamikawaCount.py:89-90 | the inner loop of `namikawa_total` adds twice the plain row sum of its terms over m = 1..k |
| Grid.ColumnIsRow | articles/p0-NamikawaCount.py:86-92 | for a symmetric term function, summing down a column gives the same as summing along the matching row |
| Grid.RowsSumWiden | articles/p0-NamikawaCount.py:86-92 | widening the first j rows of the square by one column adds that column's first j entries |
| Grid.TriangleIsSquare | articles/p0-NamikawaCount.py:86-92 | for a symmetric term function, the loop over the triangle 1 <= m <= n <= size with off-diagonal terms doubled gives the sum over the full size x size square |
| Grid.TriangleAtLeastFirst | articles/p0-NamikawaCount.py:86-92 | the loop's total is never less than its first term, the one at (1, 1) |
| Namikawa.NamikawaTotalIsGridSum | articles/p0-NamikawaCount.py:86-92 | `namikawa_total()` equals the sum of `namikawa_P(n, m)` over the full grid 1 <= n, m <= 9, and is positive |

## Left out

- The output driver (articles/p0-NamikawaCount.py:96-102): console printing and `int(...)` casts, with no logic.
- `math.factorial` is a library call. It is replaced by the recursive `Arith.Factorial` on natural numbers.
- The `raise Exception` of `label_tuple` is a precondition `1 <= n <= 9` on `LabelTuple`, `LabelSet`, `LabelRenormalized` and `NamikawaP`. `TryLabelTuple` follows the full if-chain with the raising branch as `None`, and its contract shows that this raise happens exactly outside the precondition.
- The in-place `p.append(i)` in `partite` is the pure `p + [i]` (`Extend`). Each recursive call builds fresh lists, so no aliasing can be observed.
- Negative sizes are not modelled: `aux_diagram_contribution`, `diagram_contribution` and `diagrams_and_blocks` take natural numbers. For `aux_diagram_contribution` a negative n would make `math.factorial` raise. For `diagrams_and_blocks` a negative size makes `range(1, min(n, m) + 1)` empty, so the source returns 0, as the model does for size 0. No caller passes a negative size.
- Labels.PezzoCurves: the contract states only that each entry is at least 3; the individual values are the table itself and show up through `LabelTupleValues`.
- Diagrams.AuxDiagramContributionIsMultinomial: no closed form is stated for n >= 3 when the parts do not add up to n. The floor divisions are modelled exactly for that case, but the source never calls it that way.
- Partitions.PartiteCount: the empty composition of 0 into 0 parts is not listed. The source returns `[]` for every r <= 0, and the statement is restricted to r >= 1 to match.
- `NamikawaGrid` reads 0 outside the 9 x 9 grid, where `namikawa_P` is undefined. This only makes it a total function for `Grid`; `namikawa_total` never reads outside the grid.
- The concrete number `namikawa_total()` evaluates to is not computed in the model. Only its relation to the full-grid sum and its positivity are proved.
- The geometric justifications in the source's comments are outside the model. The clamp of `aux_diagram_contribution` to 1 for n in {1, 2} and the undivided `label_set(2)` are kept exactly as written.
