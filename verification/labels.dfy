/** Counting tuples and sets of disjoint (-1)-curves on a general rational
    elliptic surface, modulo its automorphisms: `pezzo`, `label_tuple`,
    `label_renormalized` and `label_set`. */
module Labels {
  import opened Arith

  datatype Option<+T> = None | Some(value: T)

  /** The `pezzo` table: the number of (-1)-curves on a smooth del Pezzo
      surface of the given degree (1 to 7). The source's placeholder at
      index 0 is never read and has no counterpart here. */
  function PezzoCurves(degree: int): (c: nat)
    requires 1 <= degree <= 7
    ensures c >= 3
  {
    [240, 56, 27, 16, 10, 6, 3][degree - 1]
  }

  /** Ordered n-tuples of disjoint (-1)-curves modulo automorphisms, by the
      source's piecewise recurrence. Arguments outside 1..9 raise in the
      source; `TryLabelTuple` models that branch. */
  function LabelTuple(n: int): (t: nat)
    requires 1 <= n <= 9
    ensures t >= 1
    decreases n
  {
    if n == 1 then 1
    else if n == 2 then LabelTuple(1) * PezzoCurves(1) / 2
    else if n <= 8 then LabelTuple(n - 1) * PezzoCurves(n - 1)
    else LabelTuple(7) * 2
  }

  /** `label_tuple` with its exception made explicit, following the
      source's if-chain branch by branch: `None` where the source raises
      "Value out of range". The contract shows that the raising recurrence
      fails exactly outside 1..9 and otherwise agrees with `LabelTuple`. */
  function TryLabelTuple(n: int): (r: Option<nat>)
    ensures r.Some? <==> 1 <= n <= 9
    ensures r.Some? ==> r.value >= 1 && r.value == LabelTuple(n)
    decreases if n < 0 then 0 else n
  {
    if n == 1 then Some(1)
    else if n == 2 then
      match TryLabelTuple(1)
      case Some(t) => Some(t * PezzoCurves(1) / 2)
      case None => Option<nat>.None
    else if n >= 3 && n <= 8 then
      match TryLabelTuple(n - 1)
      case Some(t) => Some(t * PezzoCurves(n - 1))
      case None => Option<nat>.None
    else if n == 9 then
      match TryLabelTuple(7)
      case Some(t) => Some(t * 2)
      case None => Option<nat>.None
    else None
  }

  /** The nine values the recurrence produces. */
  lemma LabelTupleValues()
    ensures LabelTuple(1) == 1
    ensures LabelTuple(2) == 120
    ensures LabelTuple(3) == 6720
    ensures LabelTuple(4) == 181440
    ensures LabelTuple(5) == 2903040
    ensures LabelTuple(6) == 29030400
    ensures LabelTuple(7) == 174182400
    ensures LabelTuple(8) == 522547200
    ensures LabelTuple(9) == 348364800
  {
  }

  /** The quotients of `label_tuple(n)` by n!, n = 1..9. */
  const Quotients: seq<nat> := [1, 60, 1120, 7560, 24192, 40320, 34560, 12960, 960]

  /** Every `label_tuple(n)` is an exact multiple of n!: the floor divisions
      in `label_renormalized` and `label_set` never drop a remainder. */
  lemma {:induction false} LabelTupleDivisible(n: int)
    requires 1 <= n <= 9
    ensures LabelTuple(n) == Quotients[n - 1] * Factorial(n)
    ensures LabelTuple(n) % Factorial(n) == 0
  {
    LabelTupleValues();
    assert Factorial(9) == 362880;
    assert Factorial(8) == 40320;
    assert Factorial(7) == 5040;
    assert Factorial(6) == 720;
    assert Factorial(5) == 120;
    assert Factorial(4) == 24;
    assert Factorial(3) == 6;
    assert Factorial(2) == 2;
    assert Factorial(1) == 1;
  }

  /** `label_renormalized`: tuples turned into sets by dividing out the
      n! orderings. */
  function LabelRenormalized(n: int): (q: nat)
    requires 1 <= n <= 9
    ensures q * Factorial(n) == LabelTuple(n)
    ensures q >= 1
  {
    LabelTupleDivisible(n);
    DivExact(Quotients[n - 1], Factorial(n));
    LabelTuple(n) / Factorial(n)
  }

  /** `label_set`: as `label_renormalized`, except that for pairs the
      automorphisms already identify (l1, l2) with (l2, l1), so the tuple
      count is returned undivided. */
  function LabelSet(n: int): (s: nat)
    requires 1 <= n <= 9
    ensures n != 2 ==> s * Factorial(n) == LabelTuple(n)
    ensures n == 2 ==> s == LabelTuple(2) == 120
    ensures s >= 1
  {
    LabelTupleDivisible(n);
    DivExact(Quotients[n - 1], Factorial(n));
    LabelTupleValues();
    if n == 2 then LabelTuple(2) else LabelTuple(n) / Factorial(n)
  }

  /** `label_set` agrees with `label_renormalized` except at n = 2, where it
      is twice as large. */
  lemma LabelSetVersusRenormalized(n: int)
    requires 1 <= n <= 9
    ensures n != 2 ==> LabelSet(n) == LabelRenormalized(n)
    ensures n == 2 ==> LabelSet(n) == 2 * LabelRenormalized(n) == 120
  {
    assert Factorial(2) == 2;
    if n != 2 {
      MulCancel(LabelSet(n), LabelRenormalized(n), Factorial(n));
    }
  }
}
