/** Finite binary64 numbers, scaled by 2^1074 so that they are integers.

    The scaled value of a finite double is m * 2^e with |m| < 2^53 and 0 <= e; subnormal numbers
    are the ones with e == 0. Divisibility by a power of two is recursive, so that every argument
    below is linear. */
module Binary64 {
  const PRECISION: nat := 53

  function Pow2(e: nat): (r: nat)
    ensures r >= 1
  {
    if e == 0 then 1 else 2 * Pow2(e - 1)
  }

  function Abs(n: int): nat {
    if n < 0 then -n else n
  }

  /** The number of bits of n: the least e with n < 2^e. */
  function Bits(n: nat): nat {
    if n == 0 then 0 else 1 + Bits(n / 2)
  }

  /** 2^e divides n. */
  predicate Multiple(n: int, e: nat)
    decreases e
  {
    e == 0 || (n % 2 == 0 && Multiple(n / 2, e - 1))
  }

  /** The largest multiple of 2^e that is at most n. */
  function Down(n: int, e: nat): int
    decreases e
  {
    if e == 0 then n else 2 * Down(n / 2, e - 1)
  }

  /** The exponent of the last place of a significand for n. */
  function Exponent(n: int): nat {
    var b := Bits(Abs(n));
    if b <= PRECISION then 0 else b - PRECISION
  }

  predicate IsDouble(n: int) {
    Multiple(n, Exponent(n))
  }

  /** The sum, difference or product by two that the hardware returns for an exact result n:
      round to nearest, ties to an even significand. */
  function Round(n: int): int {
    var e := Exponent(n);
    var d := Down(n, e);
    var twice := 2 * (n - d);
    if twice < Pow2(e) then d
    else if twice > Pow2(e) then d + Pow2(e)
    else if Multiple(d, e + 1) then d
    else d + Pow2(e)
  }

  // ---------------------------------------------------------------- powers of two and divisibility

  lemma {:induction false} Pow2Monotone(a: nat, b: nat)
    requires a <= b
    ensures Pow2(a) <= Pow2(b)
    ensures a < b ==> 2 * Pow2(a) <= Pow2(b)
  {
    if a < b { Pow2Monotone(a, b - 1); }
  }

  lemma {:induction false} Pow2Step(e: nat)
    ensures Pow2(e + 1) == 2 * Pow2(e)
  {
  }

  lemma {:induction false} BitsBounds(n: nat)
    ensures n < Pow2(Bits(n))
    ensures n > 0 ==> Bits(n) > 0 && Pow2(Bits(n) - 1) <= n
  {
    if n > 1 { BitsBounds(n / 2); }
  }

  lemma {:induction false} BitsLeast(n: nat, e: nat)
    ensures n < Pow2(e) <==> Bits(n) <= e
  {
    BitsBounds(n);
    if Bits(n) <= e {
      Pow2Monotone(Bits(n), e);
    } else {
      Pow2Monotone(e, Bits(n) - 1);
    }
  }

  lemma {:induction false} BitsMonotone(m: nat, n: nat)
    requires m <= n
    ensures Bits(m) <= Bits(n)
  {
    BitsBounds(n);
    BitsLeast(m, Bits(n));
  }

  lemma {:induction false} MultipleMonotone(n: int, d: nat, e: nat)
    requires d <= e && Multiple(n, e)
    ensures Multiple(n, d)
    decreases d
  {
    if d > 0 { MultipleMonotone(n / 2, d - 1, e - 1); }
  }

  lemma {:induction false} MultipleAdd(m: int, n: int, e: nat)
    requires Multiple(m, e) && Multiple(n, e)
    ensures Multiple(m + n, e) && Multiple(-n, e) && Multiple(m - n, e)
    decreases e
  {
    if e > 0 {
      MultipleAdd(m / 2, n / 2, e - 1);
      assert (m + n) / 2 == m / 2 + n / 2 && (-n) / 2 == -(n / 2) && (m - n) / 2 == m / 2 - n / 2;
    }
  }

  lemma {:induction false} MultiplePow2(a: nat, e: nat)
    requires e <= a
    ensures Multiple(Pow2(a), e)
  {
    if e > 0 {
      MultiplePow2(a - 1, e - 1);
      Pow2Step(a - 1);
      Halved(Pow2(a), Pow2(a - 1));
      hide Pow2;
    }
  }

  lemma Halved(m: int, n: int)
    requires m == 2 * n
    ensures m % 2 == 0 && m / 2 == n
  {
  }

  lemma {:induction false} MultipleZero(e: nat)
    ensures Multiple(0, e)
  {
    if e > 0 { MultipleZero(e - 1); }
  }

  /** A nonzero multiple of 2^e is at least 2^e in magnitude. */
  lemma {:induction false} MultipleGap(n: int, e: nat)
    requires Multiple(n, e) && n != 0
    ensures Abs(n) >= Pow2(e)
    decreases e
  {
    if e > 0 { MultipleGap(n / 2, e - 1); }
  }

  /** Multiples of 2^e that are ordered strictly are at least 2^e apart. */
  lemma {:induction false} MultiplesApart(m: int, n: int, e: nat)
    requires Multiple(m, e) && Multiple(n, e) && m < n
    ensures m + Pow2(e) <= n
  {
    MultipleAdd(n, m, e);
    MultipleGap(n - m, e);
  }

  lemma {:induction false} DownBounds(n: int, e: nat)
    ensures Multiple(Down(n, e), e) && Down(n, e) <= n < Down(n, e) + Pow2(e)
    decreases e
  {
    if e > 0 { DownBounds(n / 2, e - 1); }
  }

  /** Of two adjacent multiples of 2^e exactly one is a multiple of 2^(e+1). */
  lemma {:induction false} OneIsEven(n: int, e: nat)
    requires Multiple(n, e)
    ensures Multiple(n, e + 1) <==> !Multiple(n + Pow2(e), e + 1)
    decreases e
  {
    if e > 0 {
      OneIsEven(n / 2, e - 1);
      assert (n + Pow2(e)) / 2 == n / 2 + Pow2(e - 1) && (n + Pow2(e)) % 2 == 0;
      assert Multiple(n, e + 1) <==> Multiple(n / 2, e);
      assert Multiple(n + Pow2(e), e + 1) <==> Multiple(n / 2 + Pow2(e - 1), e);
    } else {
      assert Multiple(n / 2, 0) && Multiple((n + 1) / 2, 0);
      assert Multiple(n, 1) <==> n % 2 == 0;
      assert Multiple(n + 1, 1) <==> (n + 1) % 2 == 0;
    }
  }

  // ---------------------------------------------------------------- doubles

  lemma {:induction false} ExponentBounds(n: int)
    ensures Abs(n) < Pow2(Exponent(n) + PRECISION)
    ensures Exponent(n) > 0 ==> Pow2(Exponent(n) + PRECISION - 1) <= Abs(n)
  {
    BitsBounds(Abs(n));
    BitsLeast(Abs(n), Exponent(n) + PRECISION);
  }

  lemma {:induction false} ExponentLeast(n: int, e: nat)
    requires Abs(n) < Pow2(e + PRECISION)
    ensures Exponent(n) <= e
  {
    BitsLeast(Abs(n), e + PRECISION);
  }

  lemma {:induction false} ExponentMonotone(m: int, n: int)
    requires Abs(m) <= Abs(n)
    ensures Exponent(m) <= Exponent(n)
  {
    ExponentBounds(n);
    ExponentLeast(m, Exponent(n));
  }

  /** A value between the two ends of a binade has that binade's exponent. */
  lemma {:induction false} ExponentUnique(n: int, e: nat)
    requires Abs(n) < Pow2(e + PRECISION)
    requires e > 0 ==> Pow2(e + PRECISION - 1) <= Abs(n)
    ensures Exponent(n) == e
  {
    ExponentLeast(n, e);
    if Exponent(n) < e {
      ExponentBounds(n);
      Pow2Monotone(Exponent(n) + PRECISION, e + PRECISION - 1);
    }
  }

  lemma {:induction false} DoubleIntro(n: int, e: nat)
    requires Multiple(n, e) && Abs(n) <= Pow2(e + PRECISION)
    ensures IsDouble(n)
  {
    hide Pow2, Multiple, Bits, Round;
    if Abs(n) < Pow2(e + PRECISION) {
      ExponentLeast(n, e);
      MultipleMonotone(n, Exponent(n), e);
    } else {
      Pow2Step(e + PRECISION);
      ExponentLeast(n, e + 1);
      MultiplePow2(e + PRECISION, e + 1);
      MultipleAdd(Pow2(e + PRECISION), Pow2(e + PRECISION), e + 1);
      MultipleMonotone(n, Exponent(n), e + 1);
    }
  }

  /** The doubles are exactly the integers m * 2^e with |m| < 2^53. */
  lemma {:induction false} DoubleCharacterized(n: int)
    ensures IsDouble(n) <==> exists e: nat :: Multiple(n, e) && Abs(n) < Pow2(e + PRECISION)
  {
    ExponentBounds(n);
    if IsDouble(n) {
      assert Multiple(n, Exponent(n)) && Abs(n) < Pow2(Exponent(n) + PRECISION);
    }
    if e: nat :| Multiple(n, e) && Abs(n) < Pow2(e + PRECISION) {
      DoubleIntro(n, e);
    }
  }

  // ---------------------------------------------------------------- rounding

  lemma {:induction false} RoundBounds(n: int)
    ensures Multiple(Round(n), Exponent(n)) && 2 * Abs(n - Round(n)) <= Pow2(Exponent(n))
  {
    var e := Exponent(n);
    DownBounds(n, e);
    MultiplePow2(e, e);
    MultipleAdd(Down(n, e), Pow2(e), e);
  }

  /** Rounding moves at most to the end of the binade. */
  lemma {:induction false} RoundInBinade(n: int)
    ensures Abs(Round(n)) <= Pow2(Exponent(n) + PRECISION)
  {
    var e, r := Exponent(n), Round(n);
    var top: int := Pow2(e + PRECISION);
    RoundBounds(n);
    ExponentBounds(n);
    MultiplePow2(e + PRECISION, e);
    MultipleZero(e);
    MultipleAdd(0, top, e);
    if r > top {
      MultiplesApart(top, r, e);
    } else if r < -top {
      MultiplesApart(r, -top, e);
    }
  }

  lemma {:induction false} RoundIsDouble(n: int)
    ensures IsDouble(Round(n))
  {
    RoundBounds(n);
    RoundInBinade(n);
    DoubleIntro(Round(n), Exponent(n));
  }

  /** A multiple of the last place that is closer than half of it is the rounded value. */
  lemma {:induction false} RoundUnique(n: int, r: int)
    requires Multiple(r, Exponent(n)) && 2 * Abs(n - r) < Pow2(Exponent(n))
    ensures Round(n) == r
  {
    RoundBounds(n);
    if Round(n) < r {
      MultiplesApart(Round(n), r, Exponent(n));
    } else if r < Round(n) {
      MultiplesApart(r, Round(n), Exponent(n));
    }
  }

  lemma {:induction false} RoundDouble(n: int)
    requires IsDouble(n)
    ensures Round(n) == n
  {
    RoundUnique(n, n);
  }

  /** Rounding keeps every power of two that divides the exact value. */
  lemma {:induction false} RoundMultiple(n: int, e: nat)
    requires Multiple(n, e)
    ensures Multiple(Round(n), e)
  {
    RoundBounds(n);
    if e <= Exponent(n) {
      MultipleMonotone(Round(n), e, Exponent(n));
    } else {
      MultipleMonotone(n, Exponent(n), e);
      RoundDouble(n);
    }
  }

  /** A value that no double has was rounded at a coarser grain than its own divisors. */
  lemma {:induction false} InexactIsCoarser(n: int, e: nat)
    requires Multiple(n, e) && Round(n) != n
    ensures e < Exponent(n)
  {
    if Exponent(n) <= e {
      MultipleMonotone(n, Exponent(n), e);
      RoundDouble(n);
    }
  }

  /** A double outside the grid of n lies in a lower binade, beyond the near end of n's own. */
  lemma {:induction false} BelowTheBinade(n: int, f: int) returns (end: int)
    requires IsDouble(f) && !Multiple(f, Exponent(n))
    ensures Multiple(end, Exponent(n)) && Abs(n - end) < Abs(n - f)
  {
    hide Pow2, Multiple, Bits, Round;
    var e := Exponent(n);
    if e <= Exponent(f) { MultipleMonotone(f, e, Exponent(f)); }
    ExponentBounds(f);
    ExponentBounds(n);
    Pow2Monotone(Exponent(f) + PRECISION, e + PRECISION - 1);
    end := Pow2(e + PRECISION - 1);
    MultiplePow2(e + PRECISION - 1, e);
    MultipleAdd(end, end, e);
    if n < 0 { end := -end; }
  }

  /** No double is closer to n than Round(n). */
  lemma {:induction false} RoundNearest(n: int, f: int)
    requires IsDouble(f)
    ensures Abs(n - Round(n)) <= Abs(n - f)
  {
    var g := f;
    if !Multiple(f, Exponent(n)) { g := BelowTheBinade(n, f); }
    RoundNearestOnGrid(n, g);
  }

  lemma {:induction false} RoundNearestOnGrid(n: int, f: int)
    requires Multiple(f, Exponent(n))
    ensures Abs(n - Round(n)) <= Abs(n - f)
  {
    RoundBounds(n);
    if Round(n) < f {
      MultiplesApart(Round(n), f, Exponent(n));
    } else if f < Round(n) {
      MultiplesApart(f, Round(n), Exponent(n));
    }
  }

  /** Between two doubles at the same distance, Round takes the one with the even significand. */
  lemma {:induction false} RoundTiesToEven(n: int, f: int)
    requires IsDouble(f) && f != Round(n) && Abs(n - f) == Abs(n - Round(n))
    ensures Multiple(Round(n), Exponent(n) + 1)
  {
    var e := Exponent(n);
    RoundBounds(n);
    if !Multiple(f, e) {
      var end := BelowTheBinade(n, f);
      RoundNearestOnGrid(n, end);
      assert false;
    }
    if Round(n) < f {
      MultiplesApart(Round(n), f, e);
    } else {
      MultiplesApart(f, Round(n), e);
    }
    DownBounds(n, e);
    OneIsEven(Down(n, e), e);
  }

  // ---------------------------------------------------------------- error-free addition

  /** The error of an addition is at most either operand, because that operand's partner
      is itself a candidate. */
  lemma {:induction false} ErrorAtMostOperand(x: int, y: int)
    requires IsDouble(x)
    ensures Abs(x + y - Round(x + y)) <= Abs(y)
  {
    RoundNearest(x + y, x);
  }

  /** A power of two that divides both operands divides the rounded sum and its error. */
  lemma {:induction false} AdditionMultiple(x: int, y: int, e: nat)
    requires Multiple(x, e) && Multiple(y, e)
    ensures Multiple(Round(x + y), e) && Multiple(x + y - Round(x + y), e)
  {
    MultipleAdd(x, y, e);
    RoundMultiple(x + y, e);
    MultipleAdd(x + y, Round(x + y), e);
  }

  /** The error of an addition of doubles is a double. */
  lemma {:induction false} ErrorIsDouble(x: int, y: int)
    requires IsDouble(x) && IsDouble(y) && Abs(y) <= Abs(x)
    ensures IsDouble(x + y - Round(x + y))
  {
    var e := Exponent(y);
    ExponentMonotone(y, x);
    MultipleMonotone(x, e, Exponent(x));
    AdditionMultiple(x, y, e);
    ErrorAtMostOperand(x, y);
    ExponentBounds(y);
    DoubleIntro(x + y - Round(x + y), e);
  }

  /** Subtracting the larger operand from the rounded sum is exact. */
  lemma {:induction false} RoundedMinusLargerIsDouble(x: int, y: int)
    requires IsDouble(x) && IsDouble(y) && Abs(y) <= Abs(x)
    ensures IsDouble(Round(x + y) - x)
  {
    if Round(x + y) == x + y { return; }
    if Exponent(x + y) <= Exponent(x) {
      DifferenceOnSumGrid(x, y);
    } else {
      DifferenceOnLargerGrid(x, y);
    }
  }

  lemma {:induction false} DifferenceOnSumGrid(x: int, y: int)
    requires IsDouble(x) && IsDouble(y) && Abs(y) <= Abs(x)
    requires Round(x + y) != x + y && Exponent(x + y) <= Exponent(x)
    ensures IsDouble(Round(x + y) - x)
  {
    hide Pow2, Multiple, Bits, Round;
    var z := x + y;
    var e := Exponent(z);
    RoundBounds(z);
    ExponentMonotone(y, x);
    MultipleMonotone(x, Exponent(y), Exponent(x));
    MultipleAdd(x, y, Exponent(y));
    InexactIsCoarser(z, Exponent(y));
    ExponentBounds(y);
    Pow2Monotone(Exponent(y) + PRECISION, e + PRECISION - 1);
    Pow2Monotone(e, e + PRECISION - 1);
    Pow2Step(e + PRECISION - 1);
    MultipleMonotone(x, e, Exponent(x));
    MultipleAdd(Round(z), x, e);
    DoubleIntro(Round(z) - x, e);
  }

  lemma {:induction false} DifferenceOnLargerGrid(x: int, y: int)
    requires IsDouble(x) && IsDouble(y) && Abs(y) <= Abs(x)
    requires Exponent(x + y) > Exponent(x)
    ensures IsDouble(Round(x + y) - x)
  {
    hide Pow2, Multiple, Bits, Round;
    var z, e := x + y, Exponent(x);
    RoundBounds(z);
    ExponentBounds(x);
    Pow2Step(e + PRECISION);
    ExponentLeast(z, e + 1);
    MultipleMonotone(Round(z), e, Exponent(z));
    MultipleAdd(Round(z), x, e);
    // the largest double of a binade is one last place below the end of the binade
    var top: int := Pow2(e + PRECISION);
    MultiplePow2(e + PRECISION, e);
    MultipleAdd(x, x, e);
    MultiplesApart(Abs(x), top, e);
    Pow2Step(e);
    assert Exponent(z) == e + 1;
    DoubleIntro(Round(z) - x, e);
  }

  /** Dekker's fast two-sum: with the larger operand first, the three rounded operations
      return the rounded sum and its exact error. */
  lemma {:induction false} FastTwoSum(x: int, y: int)
    requires IsDouble(x) && IsDouble(y) && (Abs(y) <= Abs(x) || x == 0)
    ensures var hi := Round(x + y);
            Round(hi - x) == hi - x && Round(y - Round(hi - x)) == x + y - hi
  {
    hide Round, IsDouble, Multiple, Exponent;
    var hi := Round(x + y);
    if x == 0 {
      RoundDouble(y);
      RoundDouble(0);
    } else {
      RoundedMinusLargerIsDouble(x, y);
      RoundDouble(hi - x);
      ErrorIsDouble(x, y);
      RoundDouble(x + y - hi);
      assert y - (hi - x) == x + y - hi;
    }
  }
}
