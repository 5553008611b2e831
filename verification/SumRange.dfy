/** How large the values grow on the way to an exact sum, compared with the magnitudes summed. */
module SumRange {
  import opened Binary64

  /** An addition grows the magnitudes by no more than one part in 2^52. */
  function Share(): (r: nat)
    ensures r >= 1
  {
    Pow2(PRECISION - 1)
  }

  /** The magnitudes of s together. */
  function Weight(s: seq<int>): nat {
    if s == [] then 0 else Weight(s[..|s| - 1]) + Abs(s[|s| - 1])
  }

  lemma WeightPush(s: seq<int>, x: int)
    ensures Weight(s + [x]) == Weight(s) + Abs(x)
  {
    assert (s + [x])[..|s|] == s;
  }

  lemma WeightUpTo(s: seq<int>, n: nat)
    requires n < |s|
    ensures Weight(s[..n + 1]) == Weight(s[..n]) + Abs(s[n])
  {
    assert s[..n + 1][..n] == s[..n];
  }

  lemma {:induction false} WeightFront(s: seq<int>)
    requires s != []
    ensures Weight(s) == Abs(s[0]) + Weight(s[1..])
  {
    var n := |s| - 1;
    if n == 0 {
      assert s[..0] == s[1..] == [];
    } else {
      WeightFront(s[..n]);
      assert s[..n][1..] == s[1..][..n - 1];
    }
  }

  /** After c additions, magnitudes that started as a come to s. */
  ghost predicate Within(s: nat, a: nat, c: nat) {
    Share() * s <= a * (Share() + 2 * c)
  }

  lemma WithinTwice(s: nat, a: nat, c: nat)
    requires Within(s, a, c) && 2 * c <= Share()
    ensures s <= 2 * a
  {
    assert a * (Share() + 2 * c) <= a * (2 * Share());
  }

  lemma {:induction false} WithinStep(s: nat, a: nat, c: nat, t: nat, error: nat)
    requires Within(s, a, c) && 2 * c <= Share()
    requires t <= s + 2 * error && 2 * Share() * error <= s
    ensures Within(t, a, c + 1)
  {
    hide Share;
    WithinTwice(s, a, c);
    Times(Share(), t, s, error);
    OneMoreShare(a, Share() + 2 * c);
  }

  lemma Times(k: nat, t: nat, s: nat, error: nat)
    requires t <= s + 2 * error
    ensures k * t <= k * s + 2 * k * error
  {
    assert k * (s + 2 * error - t) >= 0;
    assert k * (s + 2 * error - t) == k * s + 2 * k * error - k * t;
  }

  lemma OneMoreShare(a: nat, k: nat)
    ensures a * (k + 2) == a * k + 2 * a
  {
  }

  lemma WithinMore(s: nat, a: nat, c: nat, x: nat, d: nat)
    requires Within(s, a, c) && c <= d
    ensures Within(s + x, a + x, d)
  {
    assert (a + x) * (Share() + 2 * d) == a * (Share() + 2 * c) + a * (2 * (d - c)) + x * Share() + x * (2 * d);
    assert a * (2 * (d - c)) >= 0 && x * (2 * d) >= 0;
    assert Share() * (s + x) == Share() * s + x * Share();
  }

  /** The error of rounding is less than 2^-53 of the exact value. */
  lemma RelativeError(z: int)
    ensures 2 * Share() * Abs(z - Round(z)) <= Abs(z)
  {
    hide Share, Round, Exponent, Pow2;
    var e := Exponent(z);
    RoundBounds(z);
    ExponentBounds(z);
    if Round(z) != z {
      InexactIsCoarser(z, 0);
      SharePower(e - 1);
      Pow2Step(e - 1);
      Scaled(Abs(z - Round(z)), Pow2(e - 1));
    }
  }

  lemma Scaled(x: nat, y: nat)
    requires x <= y
    ensures 2 * Share() * x <= 2 * Share() * y
  {
    assert 2 * Share() * (y - x) >= 0;
  }

  lemma {:induction false} SharePower(e: nat)
    ensures Pow2(e + PRECISION) == 2 * Share() * Pow2(e)
  {
    if e == 0 {
      assert Pow2(0) == 1;
      Pow2Step(PRECISION - 1);
    } else {
      SharePower(e - 1);
      Pow2Step(e - 1 + PRECISION);
      Pow2Step(e - 1);
    }
  }

  lemma RoundAtMostTwice(z: int)
    ensures Abs(Round(z)) <= 2 * Abs(z) && Abs(z - Round(z)) <= Abs(z)
  {
    RelativeError(z);
  }

  function Max(m: nat, n: nat): (r: nat)
    ensures r >= m && r >= n && (r == m || r == n)
  {
    if m < n then n else m
  }

  /** The largest magnitude that the three operations of one step return. */
  function StepPeak(larger: int, smaller: int): nat {
    var hi := Round(larger + smaller);
    Max(Abs(hi), Max(Abs(Round(hi - larger)), Abs(Round(smaller - Round(hi - larger)))))
  }

  lemma StepPeakSmall(larger: int, smaller: int, a: nat)
    requires Abs(larger) + Abs(smaller) <= 2 * a
    ensures StepPeak(larger, smaller) <= 64 * a
  {
    hide Round;
    var hi := Round(larger + smaller);
    AtMostTwice(larger + smaller, 2 * a);
    AtMostTwice(hi - larger, 6 * a);
    AtMostTwice(smaller - Round(hi - larger), 14 * a);
  }

  lemma AtMostTwice(z: int, bound: nat)
    requires Abs(z) <= bound
    ensures Abs(Round(z)) <= 2 * bound
  {
    hide Round;
    RoundAtMostTwice(z);
  }

  /** One step of a pass: the magnitudes stay within their bound, and every operation with them. */
  lemma {:induction false} RangeStep(errors: seq<int>, x: int, rest: seq<int>, a: nat, c: nat)
    requires rest != [] && 2 * c <= Share()
    requires Within(Weight(errors) + Abs(x) + Weight(rest), a, c)
    ensures var y := rest[0]; var hi := Round(x + y); var lo := x + y - hi;
            && Within(Weight(if lo != 0 then errors + [lo] else errors) + Abs(hi) + Weight(rest[1..]), a, c + 1)
            && StepPeak(x, y) <= 64 * a && StepPeak(y, x) <= 64 * a
  {
    hide Round, StepPeak, Weight, Share, Within;
    var y := rest[0];
    var hi := Round(x + y);
    var lo := x + y - hi;
    var s := Weight(errors) + Abs(x) + Weight(rest);
    WeightFront(rest);
    WeightPush(errors, lo);
    RelativeError(x + y);
    assert 2 * Share() * Abs(lo) <= s;
    WithinStep(s, a, c, Weight(errors) + Abs(lo) + Abs(hi) + Weight(rest[1..]), Abs(lo));
    WithinTwice(s, a, c);
    StepPeakSmall(x, y, a);
    StepPeakSmall(y, x, a);
  }

  /** The correction at the end of a sum, after an inexact addition of z. */
  lemma CorrectionSmall(z: int, a: nat)
    requires Abs(z) <= 2 * a
    ensures var hi, y := Round(z), Round((z - Round(z)) * 2);
            Max(Abs(y), Max(Abs(Round(hi + y)), Abs(Round(Round(hi + y) - hi)))) <= 64 * a
  {
    hide Round;
    var hi, y := Round(z), Round((z - Round(z)) * 2);
    RoundAtMostTwice(z);
    AtMostTwice((z - hi) * 2, 4 * a);
    AtMostTwice(hi + y, 12 * a);
    AtMostTwice(Round(hi + y) - hi, 28 * a);
  }

  lemma SquareSteps(k: nat, n: nat)
    requires k < n
    ensures k * k + k <= (k + 1) * (k + 1) <= n * n
  {
    Product(k + 1, k + 1, n);
    Product(n, k + 1, n);
    Product(k + 1, k, k + 1);
  }

  lemma Product(x: nat, y: nat, z: nat)
    requires y <= z
    ensures x * y <= x * z
  {
    assert x * (z - y) >= 0;
  }

  /** Item number k of n brings in magnitude v, with p partials to add it to. */
  lemma {:induction false} RangeBefore(w: nat, m: nat, k: nat, n: nat, v: nat, p: nat)
    requires Within(w, m, k * k) && p <= k < n && 2 * (n * n) <= Share()
    ensures Within(w + v, m + v, k * k) && 2 * (k * k + p) <= Share()
    ensures Within(w, m + v, (k + 1) * (k + 1))
  {
    hide Share, Within;
    SquareSteps(k, n);
    WithinMore(w, m, k * k, v, k * k);
    WithinMore(w, m, k * k, v, (k + 1) * (k + 1));
    WithinLess(w, v, m + v, (k + 1) * (k + 1));
  }

  lemma WithinLess(w: nat, v: nat, a: nat, c: nat)
    requires Within(w + v, a, c)
    ensures Within(w, a, c)
  {
    assert Share() * (w + v) == Share() * w + Share() * v;
  }

  lemma RangeAfter(w: nat, a: nat, k: nat, p: nat)
    requires Within(w, a, k * k + p) && p <= k
    ensures Within(w, a, (k + 1) * (k + 1))
  {
    hide Share, Within;
    SquareSteps(k, k + 1);
    WithinMore(w, a, k * k + p, 0, (k + 1) * (k + 1));
  }
}
