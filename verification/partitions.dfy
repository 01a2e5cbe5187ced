/** `partite(n, r)`: the enumeration of the ways to write n as an ordered
    sequence of r positive parts (compositions), in the order the source's
    recursion produces them. */
module Partitions {
  import opened Arith

  /** c is a composition of n into r parts: r positive parts summing to n. */
  predicate IsComposition(c: seq<nat>, n: int, r: int)
  {
    |c| == r && AllPositive(c) && Sum(c) == n
  }

  /** No element occurs twice. */
  predicate NoDuplicates<T(==)>(s: seq<T>)
  {
    forall i, j :: 0 <= i < j < |s| ==> s[i] != s[j]
  }

  /** Appends the part i to every listed composition, keeping their order
      (the source's `p.append(i)` on each freshly built list). */
  function Extend(ps: seq<seq<nat>>, i: nat): seq<seq<nat>>
  {
    if |ps| == 0 then [] else [ps[0] + [i]] + Extend(ps[1..], i)
  }

  /** `partite(n, r)`: nothing when r <= 0 or r > n, the single list [n]
      when r == 1, and otherwise, for each last part i = 1..n in turn, the
      compositions of n - i into r - 1 parts extended by i. */
  function Partite(n: int, r: int): seq<seq<nat>>
    decreases r, 1, 0
  {
    if r <= 0 || r > n then []
    else if r == 1 then [[n]]
    else PartiteFrom(n, r, 1)
  }

  /** The source's loop over the last part, from i up to n. */
  function PartiteFrom(n: int, r: int, i: int): seq<seq<nat>>
    requires 2 <= r
    requires 1 <= i <= n + 1
    decreases r, 0, n + 1 - i
  {
    if i > n then []
    else Extend(Partite(n - i, r - 1), i) + PartiteFrom(n, r, i + 1)
  }

  /** The boundary cases of the enumeration. */
  lemma PartiteEdgeCases(n: int, r: int)
    ensures r <= 0 || r > n ==> Partite(n, r) == []
    ensures 1 <= n ==> Partite(n, 1) == [[n]]
  {
  }

  /** c occurs in Extend(ps, i) once for each occurrence in ps of c without
      its last part, provided that last part is i. */
  lemma {:induction false} ExtendCount(ps: seq<seq<nat>>, i: nat, c: seq<nat>)
    ensures multiset(Extend(ps, i))[c] ==
            if |c| > 0 && c[|c| - 1] == i then multiset(ps)[c[..|c| - 1]] else 0
  {
    if |ps| > 0 {
      ExtendCount(ps[1..], i, c);
      assert ps == [ps[0]] + ps[1..];
      assert ps[0] + [i] == c <==> (|c| > 0 && c[|c| - 1] == i && ps[0] == c[..|c| - 1]) by {
        if ps[0] + [i] == c {
          assert c[..|c| - 1] == ps[0];
        }
        if |c| > 0 && c[|c| - 1] == i && ps[0] == c[..|c| - 1] {
          assert c == c[..|c| - 1] + [c[|c| - 1]];
        }
      }
    }
  }

  /** A composition into r >= 1 parts is a composition of what remains into
      r - 1 parts followed by a positive last part. */
  lemma SnocComposition(c: seq<nat>, n: int, r: int)
    requires r >= 1 && |c| == r
    ensures IsComposition(c, n, r) <==>
            c[r - 1] >= 1 && IsComposition(c[..r - 1], n - c[r - 1], r - 1)
  {
    assert c == c[..r - 1] + [c[r - 1]];
    SumSnoc(c[..r - 1], c[r - 1]);
    if c[r - 1] >= 1 && AllPositive(c[..r - 1]) {
      forall k | 0 <= k < |c| ensures c[k] >= 1 {
        if k < r - 1 {
          assert c[k] == c[..r - 1][k];
        }
      }
    }
  }

  /** The loop from i onwards lists exactly the compositions whose last
      part is at least i, each once. */
  lemma {:induction false} PartiteFromCount(n: int, r: int, i: int, c: seq<nat>)
    requires 2 <= r
    requires 1 <= i <= n + 1
    ensures multiset(PartiteFrom(n, r, i))[c] ==
            if IsComposition(c, n, r) && i <= c[r - 1] then 1 else 0
    decreases r, 0, n + 1 - i
  {
    if i > n {
      if IsComposition(c, n, r) {
        SnocComposition(c, n, r);
        assert c[r - 1] <= n;
      }
    } else {
      var ps := Partite(n - i, r - 1);
      var here := multiset(Extend(ps, i))[c];
      var rest := multiset(PartiteFrom(n, r, i + 1))[c];
      assert multiset(PartiteFrom(n, r, i))[c] == here + rest;
      PartiteFromCount(n, r, i + 1, c);
      if |c| != r {
        WrongLengthNotExtended(n, r, i, c);
      } else {
        LastPartCount(n, r, i, c);
      }
    }
  }

  /** A candidate of the wrong length is never produced at step i. */
  lemma WrongLengthNotExtended(n: int, r: int, i: int, c: seq<nat>)
    requires 2 <= r && 1 <= i <= n && |c| != r
    ensures multiset(Extend(Partite(n - i, r - 1), i))[c] == 0
    decreases r, 0, 0
  {
    ExtendCount(Partite(n - i, r - 1), i, c);
    if |c| > 0 {
      PartiteCount(n - i, r - 1, c[..|c| - 1]);
    }
  }

  /** One step of the loop for a candidate of the right length: it is
      listed at step i exactly when it is a composition with last part i. */
  lemma LastPartCount(n: int, r: int, i: int, c: seq<nat>)
    requires 2 <= r && 1 <= i <= n && |c| == r
    ensures multiset(Extend(Partite(n - i, r - 1), i))[c] ==
            if IsComposition(c, n, r) && c[r - 1] == i then 1 else 0
    decreases r, 0, 0
  {
    ExtendCount(Partite(n - i, r - 1), i, c);
    SnocComposition(c, n, r);
    PartiteCount(n - i, r - 1, c[..r - 1]);
  }

  /** `partite(n, r)` lists every composition of n into r >= 1 parts exactly
      once and nothing else. (The empty composition of 0 into 0 parts is
      not listed: the source returns [] whenever r <= 0.) */
  lemma {:induction false} PartiteCount(n: int, r: int, c: seq<nat>)
    ensures multiset(Partite(n, r))[c] == if r >= 1 && IsComposition(c, n, r) then 1 else 0
    decreases r, 1, 0
  {
    if r <= 0 {
    } else if r > n {
      if IsComposition(c, n, r) {
        SumAtLeastLength(c);
      }
    } else if r == 1 {
      if IsComposition(c, n, r) {
        assert Sum(c) == c[0] + Sum(c[1..]);
        assert c == [n];
      }
      if c == [n] {
        assert Sum(c) == n + Sum([]);
      }
    } else {
      PartiteFromCount(n, r, 1, c);
    }
  }

  /** An element occurring twice has multiplicity at least two. */
  lemma CountAtMostOneNoDuplicates<T>(s: seq<T>)
    requires forall x :: multiset(s)[x] <= 1
    ensures NoDuplicates(s)
  {
    forall i, j | 0 <= i < j < |s| ensures s[i] != s[j] {
      if s[i] == s[j] {
        DuplicateCountsTwice(s, i, j);
      }
    }
  }

  /** Two equal entries at different positions make a multiplicity of two. */
  lemma DuplicateCountsTwice<T>(s: seq<T>, i: int, j: int)
    requires 0 <= i < j < |s| && s[i] == s[j]
    ensures multiset(s)[s[i]] >= 2
  {
    assert s == s[..j] + s[j..];
    assert s[i] in s[..j];
    assert s[j] in s[j..];
  }

  /** The members of `partite(n, r)` are exactly the compositions of n into
      r >= 1 parts: each has r positive parts summing to n, every such
      composition is present, and none is listed twice. */
  lemma PartiteEnumeratesCompositions(n: int, r: int)
    ensures forall c :: c in Partite(n, r) <==> r >= 1 && IsComposition(c, n, r)
    ensures NoDuplicates(Partite(n, r))
  {
    forall c ensures c in Partite(n, r) <==> r >= 1 && IsComposition(c, n, r) {
      PartiteCount(n, r, c);
    }
    forall c ensures multiset(Partite(n, r))[c] <= 1 {
      PartiteCount(n, r, c);
    }
    CountAtMostOneNoDuplicates(Partite(n, r));
  }
}
