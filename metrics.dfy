/**
 * The two graded-relevance metrics, `dcg` and `err`, on exact reals.
 *
 * A gain sequence lists the relevance grade of each ranked document, best
 * rank first; both metrics look at its first `k` entries only (the cutoff).
 * The logarithmic discount `log2(i + 2)` of position `i` is the parameter
 * `disc`, of which only `disc(0) == log2(2) == 1` and positivity are known.
 */
module Metrics {
  import opened Basics

  /** `2_i32.pow(n)`, without the 32-bit overflow the code hits from `n == 31` on. */
  function Pow2(n: nat): (p: nat)
    ensures p >= 1
  {
    if n == 0 then 1 else 2 * Pow2(n - 1)
  }

  /** The gain of grade `n`: `2^n - 1`. */
  function Gain(n: nat): nat {
    Pow2(n) - 1
  }

  /** What the model knows of `log2(i + 2)`. */
  ghost predicate DiscountOk(disc: nat -> real) {
    disc(0) == 1.0 && forall i: nat :: disc(i) > 0.0
  }

  /** The first `k` gains: `gain.iter().take(k)`. */
  function Take(g: seq<nat>, k: nat): (t: seq<nat>)
    ensures |t| == Min(k, |g|) && t == g[..|t|]
  {
    g[..Min(k, |g|)]
  }

  /** The discounted sum over all of `g`, position `i` weighted `1 / disc(i)`. */
  function DcgSum(g: seq<nat>, disc: nat -> real): (s: real)
    requires DiscountOk(disc)
    ensures s >= 0.0
    decreases |g|
  {
    if g == [] then 0.0
    else DcgSum(g[..|g| - 1], disc) + Gain(g[|g| - 1]) as real / disc(|g| - 1)
  }

  /** `dcg(k, gain)`: 0 for an empty gain list, else the discounted sum of the first `k` gains. */
  function Dcg(k: nat, g: seq<nat>, disc: nat -> real): real
    requires DiscountOk(disc)
  {
    if |g| < 1 then 0.0 else DcgSum(Take(g, k), disc)
  }

  /** The probability that grade `n` satisfies the user: `(2^n - 1) / 2^m`, `m` the largest grade. */
  function Prob(n: nat, m: nat): real {
    Gain(n) as real / Pow2(m) as real
  }

  /** What the document at 1-based `rank` adds to `score`: `r * decay / rank`. */
  function Discounted(r: real, decay: real, rank: nat): real
    requires rank > 0
  {
    r * decay / rank as real
  }

  /** `decay` after a document satisfying the user with probability `r`: `decay * (1 - r)`. */
  function Survive(decay: real, r: real): real {
    decay * (1.0 - r)
  }

  /** `decay` after all of `g`: the probability that no document of `g` satisfied the user. */
  function Decay(g: seq<nat>, m: nat): real
    decreases |g|
  {
    if g == [] then 1.0
    else Survive(Decay(g[..|g| - 1], m), Prob(g[|g| - 1], m))
  }

  /** `score` after all of `g`: each position adds its probability times `decay` so far, over its rank. */
  function ErrSum(g: seq<nat>, m: nat): real
    decreases |g|
  {
    if g == [] then 0.0
    else ErrSum(g[..|g| - 1], m) + Discounted(Prob(g[|g| - 1], m), Decay(g[..|g| - 1], m), |g|)
  }

  /** `err(k, gain, max_judgment)`: the expected reciprocal rank over the first `k` gains. */
  function Err(k: nat, g: seq<nat>, m: nat): real {
    ErrSum(Take(g, k), m)
  }

  /** The loop of `dcg`. */
  method ComputeDcg(k: nat, gain: seq<nat>, disc: nat -> real) returns (score: real)
    requires DiscountOk(disc)
    ensures score == Dcg(k, gain, disc)
  {
    if |gain| < 1 {
      return 0.0;
    }
    score := 0.0;
    var n := Min(k, |gain|);
    for i := 0 to n
      invariant score == DcgSum(gain[..i], disc)
    {
      assert gain[..i + 1][..i] == gain[..i];
      score := score + Gain(gain[i]) as real / disc(i);
    }
  }

  /** The loop of `err`. */
  method ComputeErr(k: nat, gain: seq<nat>, maxJudgment: nat) returns (score: real)
    ensures score == Err(k, gain, maxJudgment)
  {
    score := 0.0;
    var decay := 1.0;
    var n := Min(k, |gain|);
    for i := 0 to n
      invariant score == ErrSum(gain[..i], maxJudgment)
      invariant decay == Decay(gain[..i], maxJudgment)
    {
      var r := Gain(gain[i]) as real / Pow2(maxJudgment) as real;
      assert r == Prob(gain[i], maxJudgment);
      ErrUnfold(gain, i, maxJudgment);
      score := score + Discounted(r, decay, i + 1);
      decay := Survive(decay, r);
    }
  }

  /** One position more of the gains: the step the loop of `err` takes. */
  lemma ErrUnfold(g: seq<nat>, i: nat, m: nat)
    requires i < |g|
    ensures ErrSum(g[..i + 1], m) == ErrSum(g[..i], m) + Discounted(Prob(g[i], m), Decay(g[..i], m), i + 1)
    ensures Decay(g[..i + 1], m) == Survive(Decay(g[..i], m), Prob(g[i], m))
  {
    var h := g[..i + 1];
    assert h[..|h| - 1] == g[..i] && h[|h| - 1] == g[i];
  }

  // ---------------------------------------------------------------------
  // DCG

  /** No gains, or a cutoff of 0, give a DCG of 0. */
  lemma {:induction false} DcgZero(k: nat, g: seq<nat>, disc: nat -> real)
    requires DiscountOk(disc)
    requires g == [] || k == 0
    ensures Dcg(k, g, disc) == 0.0
  {
  }

  /** DCG looks at the first `min(k, |g|)` gains only: the rest may be anything. */
  lemma {:induction false} DcgIgnoresTail(k: nat, g: seq<nat>, h: seq<nat>, disc: nat -> real)
    requires DiscountOk(disc)
    requires k <= |g|
    ensures Dcg(k, g + h, disc) == Dcg(k, g, disc)
  {
    assert Take(g + h, k) == Take(g, k);
  }

  /** A cutoff at or beyond the end of the list is the same as the list's length. */
  lemma {:induction false} DcgCutoffBeyondLength(k: nat, g: seq<nat>, disc: nat -> real)
    requires DiscountOk(disc)
    requires k >= |g|
    ensures Dcg(k, g, disc) == Dcg(|g|, g, disc)
  {
  }

  /** DCG grows with the cutoff: a deeper cutoff only adds non-negative terms. */
  lemma {:induction false} DcgGrowsWithCutoff(k1: nat, k2: nat, g: seq<nat>, disc: nat -> real)
    requires DiscountOk(disc)
    requires k1 <= k2
    ensures Dcg(k1, g, disc) <= Dcg(k2, g, disc)
    decreases k2
  {
    if g != [] && k1 < k2 && k1 < |g| {
      var m := Min(k2, |g|);
      DcgSumPrefix(g[..m], Min(k1, |g|), disc);
      assert g[..m][..Min(k1, |g|)] == Take(g, k1);
    }
  }

  lemma {:induction false} DcgSumPrefix(g: seq<nat>, j: nat, disc: nat -> real)
    requires DiscountOk(disc)
    requires j <= |g|
    ensures DcgSum(g[..j], disc) <= DcgSum(g, disc)
    decreases |g|
  {
    if j < |g| {
      assert g[..j] == g[..|g| - 1][..j];
      DcgSumPrefix(g[..|g| - 1], j, disc);
    } else {
      assert g[..j] == g;
    }
  }

  lemma Pow2Three()
    ensures Pow2(1) == 2 && Pow2(2) == 4 && Pow2(3) == 8
  {
  }

  /** With the top grade first and a cutoff of 1, DCG is that grade's gain: `dcg(1, [3, 2, 1]) == 7`. */
  lemma {:induction false} DcgTopOnly(disc: nat -> real)
    requires DiscountOk(disc)
    ensures Dcg(1, [3, 2, 1], disc) == 7.0
  {
    Pow2Three();
    assert Take([3, 2, 1], 1) == [3];
    assert [3][..0] == [];
  }

  // ---------------------------------------------------------------------
  // ERR

  /** No gains, or a cutoff of 0, give an ERR of 0. */
  lemma {:induction false} ErrZero(k: nat, g: seq<nat>, m: nat)
    requires g == [] || k == 0
    ensures Err(k, g, m) == 0.0
  {
  }

  /** A cutoff at or beyond the end of the list is the same as the list's length. */
  lemma {:induction false} ErrCutoffBeyondLength(k: nat, g: seq<nat>, m: nat)
    requires k >= |g|
    ensures Err(k, g, m) == Err(|g|, g, m)
  {
  }

  /** The `err` test values, exactly: `err(1, [3, 2, 1], 3) == 7/8` and `err(3, [3, 2, 1], 3) == 1385/1536`. */
  lemma ErrExamples()
    ensures Err(1, [3, 2, 1], 3) == 7.0 / 8.0
    ensures Err(3, [3, 2, 1], 3) == 1385.0 / 1536.0
    ensures Err(5, [3, 2, 1], 3) == 1385.0 / 1536.0
  {
    Pow2Three();
    var g := [3, 2, 1];
    assert Take(g, 1) == [3] && Take(g, 3) == g && Take(g, 5) == g;
    assert g[..2] == [3, 2] && [3, 2][..1] == [3] && [3][..0] == [];
    assert Prob(3, 3) == 7.0 / 8.0 && Prob(2, 3) == 3.0 / 8.0 && Prob(1, 3) == 1.0 / 8.0;
    assert Decay([3], 3) == 1.0 / 8.0;
    assert Decay([3, 2], 3) == 5.0 / 64.0;
    assert ErrSum([3], 3) == 7.0 / 8.0;
    assert ErrSum([3, 2], 3) == 7.0 / 8.0 + 3.0 / 128.0;
  }

  lemma {:induction false} Pow2Monotone(n: nat, m: nat)
    requires n <= m
    ensures Pow2(n) <= Pow2(m)
    decreases m
  {
    if n < m {
      Pow2Monotone(n, m - 1);
    }
  }

  // Facts of real arithmetic the solver does not find alone.

  lemma MulNonneg(x: real, y: real)
    requires x >= 0.0 && y >= 0.0
    ensures x * y >= 0.0
  {
  }
  lemma MulPositive(x: real, y: real)
    requires x > 0.0 && y > 0.0
    ensures x * y > 0.0
  {
  }
  lemma DivNonneg(x: real, y: real)
    requires x >= 0.0 && y > 0.0
    ensures x / y >= 0.0
  {
    var q := x / y;
    assert q * y == x;
    if q < 0.0 {
      MulNonneg(-q, y);
    }
  }
  lemma DivSelf(x: real)
    requires x > 0.0
    ensures x / x == 1.0
  {
  }
  lemma DivShrinks(x: real, n: real)
    requires x >= 0.0 && n >= 1.0
    ensures 0.0 <= x / n <= x
  {
    var q := x / n;
    DivNonneg(x, n);
    assert q * n == x;
    MulNonneg(q, n - 1.0);
    assert q * (n - 1.0) == q * n - q;
  }
  lemma QuotientBelowOne(a: real, b: real)
    requires 0.0 <= a < b
    ensures 0.0 <= a / b < 1.0
  {
    var q := a / b;
    DivNonneg(a, b);
    assert q * b == a;
    assert (1.0 - q) * b == b - a;
    if 1.0 - q <= 0.0 {
      MulNonneg(q - 1.0, b);
    }
  }

  /** A grade no larger than the top grade gives a probability in [0, 1). */
  lemma ProbBounds(n: nat, m: nat)
    requires n <= m
    ensures 0.0 <= Prob(n, m) < 1.0
  {
    Pow2Monotone(n, m);
    QuotientBelowOne(Gain(n) as real, Pow2(m) as real);
  }

  /** All grades of `g` are at most `m`. */
  predicate GradesAtMost(g: seq<nat>, m: nat) {
    forall i :: 0 <= i < |g| ==> g[i] <= m
  }

  /** Grades in the order of an ideal ranking: highest first. */
  ghost predicate NonIncreasing(g: seq<nat>) {
    forall i, j :: 0 <= i < j < |g| ==> g[i] >= g[j]
  }

  /** Two highest-first lists of the same grades start with the same, largest, grade. */
  lemma SameLargest(a: seq<nat>, b: seq<nat>)
    requires a != [] && multiset(a) == multiset(b)
    requires NonIncreasing(a) && NonIncreasing(b)
    ensures b != [] && a[0] == b[0]
  {
    assert a[0] in multiset(b) && b[0] in multiset(a);
    var i :| 0 <= i < |b| && b[i] == a[0];
    var j :| 0 <= j < |a| && a[j] == b[0];
    assert a[0] >= a[j] && b[0] >= b[i];
  }

  /** Taking the same first grade off two lists of the same grades leaves lists of the same grades. */
  lemma SameRest(a: seq<nat>, b: seq<nat>)
    requires a != [] && b != [] && a[0] == b[0] && multiset(a) == multiset(b)
    ensures multiset(a[1..]) == multiset(b[1..])
  {
    assert a == [a[0]] + a[1..] && b == [b[0]] + b[1..];
    assert multiset(a) == multiset{a[0]} + multiset(a[1..]);
    assert multiset(b) == multiset{b[0]} + multiset(b[1..]);
    forall x ensures multiset(a[1..])[x] == multiset(b[1..])[x] {
      assert multiset(a)[x] == multiset(b)[x];
    }
  }

  /** There is one ideal order of a bag of grades: two highest-first lists of the same grades are equal. */
  lemma {:induction false} NonIncreasingUnique(a: seq<nat>, b: seq<nat>)
    requires multiset(a) == multiset(b)
    requires NonIncreasing(a) && NonIncreasing(b)
    ensures a == b
    decreases |a|
  {
    if a == [] {
      assert |multiset(b)| == 0;
    } else {
      SameLargest(a, b);
      SameRest(a, b);
      NonIncreasingUnique(a[1..], b[1..]);
      assert a == [a[0]] + a[1..] && b == [b[0]] + b[1..];
    }
  }


  /**
   * One step of the `err` loop, for a last grade at most `m`: `decay` stays
   * in (0, 1] and does not grow, `score` does not shrink, and `score + decay`
   * does not grow.
   */
  lemma {:induction false} ErrStep(g: seq<nat>, m: nat)
    requires g != [] && g[|g| - 1] <= m
    requires 0.0 < Decay(g[..|g| - 1], m) <= 1.0 && 0.0 <= ErrSum(g[..|g| - 1], m)
    ensures 0.0 < Decay(g, m) <= Decay(g[..|g| - 1], m)
    ensures ErrSum(g[..|g| - 1], m) <= ErrSum(g, m)
    ensures ErrSum(g, m) + Decay(g, m) <= ErrSum(g[..|g| - 1], m) + Decay(g[..|g| - 1], m)
  {
    var init := g[..|g| - 1];
    var r, d := Prob(g[|g| - 1], m), Decay(init, m);
    assert Decay(g, m) == Survive(d, r);
    assert ErrSum(g, m) == ErrSum(init, m) + Discounted(r, d, |g|);
    ProbBounds(g[|g| - 1], m);
    StepArithmetic(r, d, |g|);
  }

  /** The real arithmetic behind `ErrStep`. */
  lemma StepArithmetic(r: real, d: real, rank: nat)
    requires 0.0 <= r < 1.0 && 0.0 < d <= 1.0 && rank >= 1
    ensures 0.0 < Survive(d, r) <= d
    ensures 0.0 <= Discounted(r, d, rank)
    ensures Discounted(r, d, rank) + Survive(d, r) <= d
  {
    MulNonneg(r, d);
    DivShrinks(r * d, rank as real);
    assert d * (1.0 - r) == d - r * d;
    MulPositive(d, 1.0 - r);
  }

  /**
   * Over grades no larger than `m`, `decay` stays in (0, 1], `score` is
   * non-negative, and the two together never exceed 1.
   */
  lemma {:induction false} ErrInvariant(g: seq<nat>, m: nat)
    requires GradesAtMost(g, m)
    ensures 0.0 < Decay(g, m) <= 1.0
    ensures 0.0 <= ErrSum(g, m)
    ensures ErrSum(g, m) + Decay(g, m) <= 1.0
    decreases |g|
  {
    if g != [] {
      var init := g[..|g| - 1];
      ErrInvariant(init, m);
      ErrStep(g, m);
    }
  }

  /** ERR over grades no larger than the top grade is a probability below 1. */
  lemma {:induction false} ErrBounds(k: nat, g: seq<nat>, m: nat)
    requires GradesAtMost(g, m)
    ensures 0.0 <= Err(k, g, m) < 1.0
  {
    ErrInvariant(Take(g, k), m);
  }
}
