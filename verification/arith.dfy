/** Exact natural-number arithmetic the count is built from: factorials,
    sums of parts, products of factorials, and the binomial and multinomial
    coefficients that explain why the program's integer divisions are exact. */
module Arith {

  /** n!, the model of `math.factorial` on non-negative arguments. */
  function Factorial(n: nat): (f: nat)
    ensures f >= 1
  {
    if n == 0 then 1 else n * Factorial(n - 1)
  }

  /** Sum of the parts of a sequence. */
  function Sum(s: seq<nat>): nat
  {
    if |s| == 0 then 0 else s[0] + Sum(s[1..])
  }

  /** Appending a part adds it to the sum. */
  lemma {:induction false} SumSnoc(s: seq<nat>, x: nat)
    ensures Sum(s + [x]) == Sum(s) + x
  {
    if |s| == 0 {
      assert s + [x] == [x];
    } else {
      assert (s + [x])[1..] == s[1..] + [x];
      SumSnoc(s[1..], x);
    }
  }

  /** Every part is at least one. */
  predicate AllPositive(s: seq<nat>)
  {
    forall k :: 0 <= k < |s| ==> s[k] >= 1
  }

  /** A sequence of positive parts sums to at least its length. */
  lemma {:induction false} SumAtLeastLength(s: seq<nat>)
    requires AllPositive(s)
    ensures Sum(s) >= |s|
  {
    if |s| > 0 {
      assert AllPositive(s[1..]) by {
        forall k | 0 <= k < |s[1..]| ensures s[1..][k] >= 1 {
          assert s[1..][k] == s[k + 1];
        }
      }
      SumAtLeastLength(s[1..]);
    }
  }

  /** The product of the factorials of the parts, l[0]! * l[1]! * ... */
  function FactorialProduct(l: seq<nat>): (p: nat)
    ensures p >= 1
  {
    if |l| == 0 then 1 else Factorial(l[0]) * FactorialProduct(l[1..])
  }

  /** Binomial coefficient by Pascal's rule: plainly a natural number. */
  function Binomial(n: nat, k: nat): nat
  {
    if k == 0 then 1
    else if n == 0 then 0
    else Binomial(n - 1, k - 1) + Binomial(n - 1, k)
  }

  /** There is no way to choose more elements than there are. */
  lemma {:induction false} BinomialAbove(n: nat, k: nat)
    requires k > n
    ensures Binomial(n, k) == 0
  {
    if n > 0 {
      BinomialAbove(n - 1, k - 1);
      BinomialAbove(n - 1, k);
    }
  }

  /** There is exactly one way to choose everything. */
  lemma {:induction false} BinomialSelf(n: nat)
    ensures Binomial(n, n) == 1
  {
    if n > 0 {
      BinomialSelf(n - 1);
      BinomialAbove(n - 1, n);
    }
  }

  /** The factorial formula for binomials: (a+b)! == C(a+b, a) * a! * b!,
      so a! * b! divides (a+b)! exactly. */
  lemma {:induction false} BinomialFactorial(a: nat, b: nat)
    ensures Binomial(a + b, a) * Factorial(a) * Factorial(b) == Factorial(a + b)
    decreases a + b
  {
    if a == 0 {
    } else if b == 0 {
      BinomialSelf(a);
    } else {
      var n := a + b;
      BinomialFactorial(a - 1, b);
      BinomialFactorial(a, b - 1);
      var x := Binomial(n - 1, a - 1);
      var y := Binomial(n - 1, a);
      var fa := Factorial(a - 1);
      var fb := Factorial(b - 1);
      var f := Factorial(n - 1);
      assert Binomial(n, a) == x + y;
      assert Factorial(a) == a * fa;
      assert Factorial(b) == b * fb;
      assert Factorial(n) == n * f;
      PascalStep(x, y, a, b, fa, fb, f);
    }
  }

  /** The arithmetic of one Pascal step: if both smaller instances of the
      factorial formula hold, so does the larger one. */
  lemma PascalStep(x: nat, y: nat, a: nat, b: nat, fa: nat, fb: nat, f: nat)
    requires x * fa * (b * fb) == f
    requires y * (a * fa) * fb == f
    ensures (x + y) * (a * fa) * (b * fb) == (a + b) * f
  {
    calc {
      (x + y) * (a * fa) * (b * fb);
      x * (a * fa) * (b * fb) + y * (a * fa) * (b * fb);
      { assert x * (a * fa) * (b * fb) == a * (x * fa * (b * fb)); }
      a * (x * fa * (b * fb)) + y * (a * fa) * (b * fb);
      { assert y * (a * fa) * (b * fb) == b * (y * (a * fa) * fb); }
      a * (x * fa * (b * fb)) + b * (y * (a * fa) * fb);
      a * f + b * f;
    }
  }

  /** The multinomial coefficient (Sum(l) choose l[0], l[1], ...), built as a
      product of binomials so that it is evidently a natural number. */
  function Multinomial(l: seq<nat>): nat
  {
    if |l| == 0 then 1 else Binomial(Sum(l), l[0]) * Multinomial(l[1..])
  }

  /** The multinomial coefficient times the product of the parts' factorials
      is the factorial of the total. */
  lemma {:induction false} MultinomialFactorial(l: seq<nat>)
    ensures Multinomial(l) * FactorialProduct(l) == Factorial(Sum(l))
  {
    if |l| > 0 {
      var a := l[0];
      var t := l[1..];
      var s := Sum(t);
      MultinomialFactorial(t);
      BinomialFactorial(a, s);
      var b := Binomial(a + s, a);
      assert Multinomial(l) == b * Multinomial(t);
      assert FactorialProduct(l) == Factorial(a) * FactorialProduct(t);
      MultinomialStep(b, Multinomial(t), Factorial(a), FactorialProduct(t), Factorial(s), Factorial(a + s));
    }
  }

  /** The arithmetic of one multinomial step. */
  lemma MultinomialStep(b: nat, mt: nat, fa: nat, pt: nat, fs: nat, f: nat)
    requires mt * pt == fs
    requires b * fa * fs == f
    ensures (b * mt) * (fa * pt) == f
  {
    calc {
      (b * mt) * (fa * pt);
      (b * fa) * (mt * pt);
      (b * fa) * fs;
    }
  }

  /** Dividing an exact multiple leaves no remainder. */
  lemma DivExact(q: nat, d: nat)
    requires d > 0
    ensures (q * d) / d == q
    ensures (q * d) % d == 0
  {
    var x := q * d;
    var r := x / d;
    var m := x % d;
    assert x == d * r + m && 0 <= m < d;
    assert d * (q - r) == m;
    if r < q {
      MulAtLeast(d, q - r);
    } else if r > q {
      MulAtLeast(d, r - q);
    }
  }

  /** A positive multiple of d is at least d. */
  lemma MulAtLeast(d: nat, k: int)
    requires k >= 1
    ensures d * k >= d
  {
  }

  /** Cancelling a positive factor. */
  lemma MulCancel(a: nat, b: nat, c: nat)
    requires c > 0
    requires a * c == b * c
    ensures a == b
  {
  }
}
