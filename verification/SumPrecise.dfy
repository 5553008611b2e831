/** The Math.sumPrecise polyfill: Shewchuk's summation over a list of partials that is rewritten
    in place, with one correct rounding at the end. */
module SumPrecise {
  import opened Binary64
  import opened SumRange

  /** What a JavaScript iterable may hold: a number, of which Finite(0) is +0, or something else. */
  datatype Number = NaN | PlusInfinity | MinusInfinity | MinusZero | Finite(value: int) | NotANumber

  datatype Outcome = TypeError | Returned(value: Number)

  predicate Valid(n: Number) {
    n.Finite? ==> IsDouble(n.value)
  }

  function Value(n: Number): int {
    if n.Finite? then n.value else 0
  }

  function Total(items: seq<Number>): int {
    if items == [] then 0 else Value(items[0]) + Total(items[1..])
  }

  function Sum(s: seq<int>): int {
    if s == [] then 0 else Sum(s[..|s| - 1]) + s[|s| - 1]
  }

  /** What Math.sumPrecise promises: the exact sum, rounded once. */
  function RoundedTotal(items: seq<Number>): Number {
    if NaN in items || (PlusInfinity in items && MinusInfinity in items) then NaN
    else if PlusInfinity in items then PlusInfinity
    else if MinusInfinity in items then MinusInfinity
    else if forall n <- items :: n == MinusZero then MinusZero
    else Finite(Round(Total(items)))
  }

  // ---------------------------------------------------------------- the promise, number by number

  /** IEEE 754 addition without the rounding. */
  function ExactPlus(a: Number, b: Number): Number {
    match a
    case NaN => NaN
    case NotANumber => NotANumber
    case PlusInfinity => if b == NaN || b == MinusInfinity then NaN else PlusInfinity
    case MinusInfinity => if b == NaN || b == PlusInfinity then NaN else MinusInfinity
    case MinusZero => b
    case Finite(x) =>
      match b
      case Finite(y) => Finite(x + y)
      case MinusZero => a
      case _ => b
  }

  /** The items added up one after the other, onto negative zero. */
  function ExactSum(items: seq<Number>): Number {
    if items == [] then MinusZero else ExactPlus(ExactSum(items[..|items| - 1]), items[|items| - 1])
  }

  predicate AllMinusZero(items: seq<Number>) {
    forall n <- items :: n == MinusZero
  }

  /** The sum when these specials are among the items and the rest adds up to total. */
  function Special(nan: bool, plus: bool, minus: bool, zeros: bool, total: int): Number {
    if nan || (plus && minus) then NaN
    else if plus then PlusInfinity
    else if minus then MinusInfinity
    else if zeros then MinusZero
    else Finite(total)
  }

  lemma NothingSpecial()
    ensures ExactSum([]) == Special(false, false, false, AllMinusZero([]), 0)
  {
  }

  lemma OneMore(nan: bool, plus: bool, minus: bool, zeros: bool, total: int, last: Number)
    requires last != NotANumber && (zeros ==> total == 0 && !nan && !plus && !minus)
    ensures ExactPlus(Special(nan, plus, minus, zeros, total), last) ==
            Special(nan || last == NaN, plus || last == PlusInfinity, minus || last == MinusInfinity,
                    zeros && last == MinusZero, total + Value(last))
  {
  }

  lemma {:induction false} ExactSumSpelled(items: seq<Number>)
    requires NotANumber !in items
    ensures ExactSum(items) ==
            Special(NaN in items, PlusInfinity in items, MinusInfinity in items, AllMinusZero(items), Total(items))
  {
    hide Special, ExactPlus;
    if items == [] {
      NothingSpecial();
    } else {
      var front, last := items[..|items| - 1], items[|items| - 1];
      assert items == front + [last];
      assert last in items && NotANumber !in front;
      ExactSumSpelled(front);
      TotalAppend(front, [last]);
      assert Total([last]) == Value(last) by { assert [last][1..] == []; }
      TotalOfZeros(front);
      OneMoreItem(front, last);
      hide Total, ExactSum, Value;
      OneMore(NaN in front, PlusInfinity in front, MinusInfinity in front, AllMinusZero(front), Total(front), last);
    }
  }

  lemma OneMoreItem(front: seq<Number>, last: Number)
    ensures forall n :: n in front + [last] <==> n in front || n == last
    ensures AllMinusZero(front + [last]) <==> AllMinusZero(front) && last == MinusZero
  {
    assert last in front + [last];
  }

  lemma {:induction false} TotalOfZeros(items: seq<Number>)
    ensures AllMinusZero(items) ==> Total(items) == 0
  {
    if items != [] {
      assert items[0] in items && forall n :: n in items[1..] ==> n in items;
      TotalOfZeros(items[1..]);
    }
  }

  /** What is promised is what adding the items up one by one gives, rounded only at the end: NaN and
      the infinities as in IEEE 754, and negative zero if nothing else is there. */
  lemma RoundedOnce(items: seq<Number>)
    requires NotANumber !in items
    ensures RoundedTotal(items) ==
            match ExactSum(items) case Finite(x) => Finite(Round(x)) case special => special
  {
    hide Round, Total;
    ExactSumSpelled(items);
  }

  /** Above(a, b): b is a multiple of a power of two that exceeds a in magnitude, so the bits of
      a and b do not overlap and b is the higher one. */
  predicate Above(a: int, b: int) {
    Multiple(b, Bits(Abs(a)))
  }

  /** The shape of the partials between items: doubles that do not overlap, of increasing
      magnitude, all of them nonzero except possibly the last. */
  predicate Expansion(p: seq<int>) {
    && (forall k :: 0 <= k < |p| ==> IsDouble(p[k]))
    && (forall k :: 0 <= k < |p| - 1 ==> p[k] != 0)
    && (forall j, k :: 0 <= j < k < |p| ==> Above(p[j], p[k]))
  }

  // ---------------------------------------------------------------- order independence

  lemma {:induction false} TotalAppend(a: seq<Number>, b: seq<Number>)
    ensures Total(a + b) == Total(a) + Total(b)
  {
    if a == [] {
      assert a + b == b;
    } else {
      TotalAppend(a[1..], b);
      assert (a + b)[0] == a[0] && (a + b)[1..] == a[1..] + b;
    }
  }

  lemma TakeOut(h: Number, t: seq<Number>, c: seq<Number>, d: seq<Number>)
    requires multiset([h] + t) == multiset(c + ([h] + d))
    ensures multiset(t) == multiset(c + d)
    ensures Total(c + ([h] + d)) == Value(h) + Total(c + d)
  {
    assert multiset(t) == multiset([h] + t) - multiset{h};
    assert multiset(c + d) == multiset(c + ([h] + d)) - multiset{h};
    TotalAppend(c, [h] + d);
    TotalAppend(c, d);
    assert ([h] + d)[1..] == d;
  }

  lemma SplitAt(h: Number, b: seq<Number>) returns (c: seq<Number>, d: seq<Number>)
    requires h in multiset(b)
    ensures b == c + ([h] + d)
  {
    assert h in b;
    var k :| 0 <= k < |b| && b[k] == h;
    c, d := b[..k], b[k + 1..];
  }

  lemma {:induction false} TotalOfPermutation(a: seq<Number>, b: seq<Number>)
    requires multiset(a) == multiset(b)
    ensures Total(a) == Total(b)
    decreases |a|
  {
    hide Value;
    if a == [] {
      assert |multiset(b)| == 0;
    } else {
      assert a[0] in multiset(a);
      var c, d := SplitAt(a[0], b);
      assert a == [a[0]] + a[1..];
      TakeOut(a[0], a[1..], c, d);
      TotalOfPermutation(a[1..], c + d);
    }
  }

  /** The promised result does not depend on the order of the items. */
  lemma OrderIndependent(a: seq<Number>, b: seq<Number>)
    requires multiset(a) == multiset(b)
    ensures RoundedTotal(a) == RoundedTotal(b)
  {
    TotalOfPermutation(a, b);
    assert forall n :: n in a <==> n in multiset(a);
    assert forall n :: n in b <==> n in multiset(b);
  }

  /** No double is nearer to the exact total than the promised result, and a tie goes to an even
      significand. */
  lemma NearestToTotal(items: seq<Number>, f: int)
    requires RoundedTotal(items).Finite? && IsDouble(f)
    ensures var r := RoundedTotal(items).value;
            && IsDouble(r) && Abs(Total(items) - r) <= Abs(Total(items) - f)
            && (f != r && Abs(Total(items) - r) == Abs(Total(items) - f)
                ==> Multiple(r, Exponent(Total(items)) + 1))
  {
    RoundIsDouble(Total(items));
    RoundNearest(Total(items), f);
    if f != Round(Total(items)) && Abs(Total(items) - f) == Abs(Total(items) - Round(Total(items))) {
      RoundTiesToEven(Total(items), f);
    }
  }

  // ---------------------------------------------------------------- one pass over the partials

  lemma SumPush(s: seq<int>, x: int)
    ensures Sum(s + [x]) == Sum(s) + x
  {
    assert (s + [x])[..|s|] == s;
  }

  /** The rounded error of an addition lies below the rounded sum. */
  lemma SumAboveError(z: int)
    ensures Above(z - Round(z), Round(z))
  {
    var e := Exponent(z);
    RoundBounds(z);
    assert Abs(z - Round(z)) < Pow2(e) by {
      if z == Round(z) {} else {}
    }
    BitsLeast(Abs(z - Round(z)), e);
    MultipleMonotone(Round(z), Bits(Abs(z - Round(z))), e);
  }

  /** What lies above y lies above anything no larger than y. */
  lemma AboveSmaller(lo: int, y: int, v: int)
    requires Abs(lo) <= Abs(y) && Above(y, v)
    ensures Above(lo, v)
  {
    BitsMonotone(Abs(lo), Abs(y));
    MultipleMonotone(v, Bits(Abs(lo)), Bits(Abs(y)));
  }

  /** No two values of s overlap, and later ones are higher. */
  ghost predicate Stacked(s: seq<int>) {
    forall j, k :: 0 <= j < k < |s| ==> Above(s[j], s[k])
  }

  /** Halfway through a pass: errors are the values already written back, x is the running sum,
      and rest are the partials still to be read. */
  ghost predicate PassInvariant(errors: seq<int>, x: int, rest: seq<int>) {
    && Stacked(errors + [x]) && Stacked(errors + rest)
    && (forall a :: 0 <= a < |errors| ==> IsDouble(errors[a]) && errors[a] != 0)
    && IsDouble(x)
    && Expansion(rest)
  }

  /** What one exact addition does to the values above and below it. */
  lemma AdditionAbove(x: int, y: int)
    requires IsDouble(x) && IsDouble(y)
    ensures var hi := Round(x + y); var lo := x + y - hi;
            && Above(lo, hi)
            && (forall a :: Above(a, x) && Above(a, y) ==> Above(a, hi) && Above(a, lo))
            && (forall v :: Above(y, v) ==> Above(lo, v))
  {
    hide Multiple, Bits, Pow2, Round;
    var lo := x + y - Round(x + y);
    SumAboveError(x + y);
    ErrorAtMostOperand(x, y);
    forall a | Above(a, x) && Above(a, y)
      ensures Above(a, Round(x + y)) && Above(a, lo)
    {
      AdditionMultiple(x, y, Bits(Abs(a)));
    }
    forall v | Above(y, v)
      ensures Above(lo, v)
    {
      AboveSmaller(lo, y, v);
    }
  }

  lemma StackedInsert(errors: seq<int>, lo: int, above: seq<int>)
    requires Stacked(errors + above)
    requires forall a :: 0 <= a < |errors| ==> Above(errors[a], lo)
    requires forall b :: 0 <= b < |above| ==> Above(lo, above[b])
    ensures Stacked((errors + [lo]) + above)
  {
    hide Above;
    var old_, s := errors + above, (errors + [lo]) + above;
    forall j, k | 0 <= j < k < |s|
      ensures Above(s[j], s[k])
    {
      var j', k' := if j > |errors| then j - 1 else j, if k > |errors| then k - 1 else k;
      if j != |errors| && k != |errors| {
        assert old_[j'] == s[j] && old_[k'] == s[k];
      }
    }
  }

  lemma PassStep(errors: seq<int>, x: int, rest: seq<int>)
    requires rest != [] && PassInvariant(errors, x, rest)
    ensures var hi := Round(x + rest[0]); var lo := x + rest[0] - hi;
            PassInvariant(if lo != 0 then errors + [lo] else errors, hi, rest[1..])
    ensures IsDouble(x) && IsDouble(rest[0])
  {
    hide Multiple, Bits, Pow2, Round, Above, IsDouble, Abs;
    var y := rest[0];
    var hi := Round(x + y);
    var lo := x + y - hi;
    RoundIsDouble(x + y);
    ErrorOfEither(x, y);
    AdditionAbove(x, y);
    forall a | 0 <= a < |errors|
      ensures Above(errors[a], hi) && Above(errors[a], lo)
    {
      assert (errors + [x])[a] == errors[a] && (errors + [x])[|errors|] == x;
      assert (errors + rest)[a] == errors[a] && (errors + rest)[|errors|] == y;
    }
    assert Stacked(errors + rest[1..]) by {
      forall j, k | 0 <= j < k < |errors + rest[1..]|
        ensures Above((errors + rest[1..])[j], (errors + rest[1..])[k])
      {
        var j', k' := if j < |errors| then j else j + 1, if k < |errors| then k else k + 1;
        assert (errors + rest)[j'] == (errors + rest[1..])[j];
        assert (errors + rest)[k'] == (errors + rest[1..])[k];
      }
    }
    assert Stacked(errors + [hi]) by {
      forall j, k | 0 <= j < k < |errors + [hi]|
        ensures Above((errors + [hi])[j], (errors + [hi])[k])
      {
        assert (errors + [x])[j] == errors[j];
        if k < |errors| { assert (errors + [x])[k] == errors[k]; }
      }
    }
    if lo != 0 {
      StackedInsert(errors, lo, rest[1..]);
      StackedInsert(errors, lo, [hi]);
    }
  }

  lemma PassStart(partials: seq<int>, item: int)
    requires Expansion(partials) && IsDouble(item)
    ensures PassInvariant([], item, partials)
  {
    assert [] + partials == partials;
  }

  lemma PassEnd(errors: seq<int>, x: int)
    requires PassInvariant(errors, x, [])
    ensures Expansion(errors + [x]) && Sum(errors + [x]) == Sum(errors) + x
  {
    SumPush(errors, x);
  }

  /** Add one item to the partials. peak is the largest magnitude that any operation returns; a and c
      tell how far the magnitudes have grown before. */
  method AddItem(partials: seq<int>, item: int, ghost a: nat, ghost c: nat) returns (grown: seq<int>, ghost peak: nat)
    requires Expansion(partials) && IsDouble(item)
    ensures Expansion(grown)
    ensures Sum(grown) == Sum(partials) + item
    ensures 0 < |grown| <= |partials| + 1
    ensures Within(Weight(partials) + Abs(item), a, c) && 2 * (c + |partials|) <= Share() ==>
              Within(Weight(grown), a, c + |partials|) && peak <= 64 * a
  {
    hide Multiple, Bits, Pow2, Round, Above, IsDouble, Stacked, PassInvariant, Sum, Expansion,
         Within, Weight, Share, StepPeak;
    grown, peak := partials, 0;
    ghost var small := Within(Weight(partials) + Abs(item), a, c) && 2 * (c + |partials|) <= Share();
    NoWeight();
    var x, i, k := item, 0, 0;
    PassStart(partials, item);
    while k < |grown|
      invariant |grown| == |partials| && 0 <= i <= k <= |grown|
      invariant grown[k..] == partials[k..]
      invariant PassInvariant(grown[..i], x, partials[k..])
      invariant Sum(grown[..i]) + x == item + Sum(partials[..k])
      invariant small ==> Within(Weight(grown[..i]) + Abs(x) + Weight(partials[k..]), a, c + k) && peak <= 64 * a
    {
      ghost var errors, rest := grown[..i], grown[k..];
      if small { RangeStep(errors, x, rest, a, c + k); }
      var y := grown[k];
      ghost var exact := x + y;
      assert rest[0] == y && partials[..k + 1] == partials[..k] + [y];
      SumPush(partials[..k], y);
      PassStep(errors, x, rest);
      if Abs(x) < Abs(y) { x, y := y, x; }
      FastTwoSum(x, y);
      peak := Max(peak, StepPeak(x, y));
      var hi := Round(x + y);
      var lo := Round(y - Round(hi - x));
      assert hi == Round(exact) && lo == exact - hi;
      if lo != 0 {
        grown := grown[i := lo];
        i := i + 1;
        assert grown[..i] == errors + [lo];
        SumPush(errors, lo);
      }
      x := hi;
      k := k + 1;
      assert grown[k..] == rest[1..] == partials[k..];
    }
    assert partials[..k] == partials && partials[k..] == [];
    PassEnd(grown[..i], x);
    WeightPush(grown[..i], x);
    grown := grown[..i] + [x];
  }

  lemma NoWeight()
    ensures Weight([]) == 0
  {
  }

  lemma ErrorOfEither(x: int, y: int)
    requires IsDouble(x) && IsDouble(y)
    ensures IsDouble(x + y - Round(x + y))
  {
    hide Multiple, Bits, Pow2, Round;
    assert x + y == y + x;
    if Abs(y) <= Abs(x) { ErrorIsDouble(x, y); } else { ErrorIsDouble(y, x); }
  }

  // ---------------------------------------------------------------- the final rounding

  /** Everything below a partial sums to less than that partial's power of two, and the sign of
      the topmost of them is the sign of that sum. */
  lemma {:induction false} SumBelow(p: seq<int>, n: nat)
    requires Expansion(p) && 0 < n < |p|
    ensures Abs(Sum(p[..n])) < Pow2(Bits(Abs(p[n - 1])))
    ensures p[n - 1] > 0 <==> Sum(p[..n]) > 0
    ensures p[n - 1] < 0 <==> Sum(p[..n]) < 0
  {
    hide Multiple, Bits, Pow2;
    var v := p[n - 1];
    assert p[..n][..n - 1] == p[..n - 1];
    BitsBounds(Abs(v));
    if n > 1 {
      var t, top := Bits(Abs(p[n - 2])), Bits(Abs(v));
      SumBelow(p, n - 1);
      assert Above(p[n - 2], v);
      MultipleGap(v, t);
      BitsLeast(Abs(v), t);
      MultiplePow2(top, t);
      MultipleAdd(v, v, t);
      MultiplesApart(Abs(v), Pow2(top), t);
    }
  }

  /** Adding less than the last place of z's divisors leaves z in its binade. */
  lemma SameBinade(z: int, rest: int, t: nat)
    requires Multiple(z, t) && Abs(rest) < Pow2(t) && Round(z) != z
    ensures Exponent(z + rest) == Exponent(z) > t
    ensures Pow2(Exponent(z) + PRECISION - 1) < Abs(z)
  {
    hide Multiple, Bits, Pow2, Round;
    var e := Exponent(z);
    InexactIsCoarser(z, t);
    ExponentBounds(z);
    var bottom, top: int := Pow2(e + PRECISION - 1), Pow2(e + PRECISION);
    MultiplePow2(e + PRECISION - 1, e);
    MultiplePow2(e + PRECISION - 1, t);
    MultiplePow2(e + PRECISION, t);
    MultipleAdd(z, z, t);
    MultiplesApart(Abs(z), top, t);
    if Abs(z) == bottom {
      MultipleAdd(bottom, bottom, e);
      RoundUnique(z, z);
    }
    MultiplesApart(bottom, Abs(z), t);
    ExponentUnique(z + rest, e);
  }

  /** How the partials below an inexact addition decide its rounding: only in an exact tie, and
      only when they push away from the rounded value. */
  lemma RestDecidesTie(z: int, rest: int, t: nat)
    requires Multiple(z, t) && Abs(rest) < Pow2(t) && Round(z) != z
    ensures var lo := z - Round(z);
            Round(z + rest) ==
            if 2 * Abs(lo) == Pow2(Exponent(z)) && ((lo < 0 && rest < 0) || (lo > 0 && rest > 0))
            then Round(z) + 2 * lo else Round(z)
  {
    hide Multiple, Bits, Pow2, Round;
    var e, hi := Exponent(z), Round(z);
    var lo := z - hi;
    SameBinade(z, rest, t);
    RoundBounds(z);
    MultiplePow2(e, e);
    MultipleAdd(hi, Pow2(e), e);
    RoundMultiple(z, t);
    MultipleAdd(z, hi, t);
    MultipleGap(lo, t);
    if rest == 0 {
    } else if 2 * Abs(lo) == Pow2(e) {
      RoundUnique(z + rest, if (lo < 0 && rest < 0) || (lo > 0 && rest > 0) then hi + 2 * lo else hi);
    } else {
      // half of the last place is itself a multiple of 2^t, so lo stays 2^t short of it
      Pow2Step(e - 1);
      MultiplePow2(e - 1, t);
      MultipleAdd(lo, lo, t);
      MultiplesApart(Abs(lo), Pow2(e - 1), t);
      RoundUnique(z + rest, hi);
    }
  }

  lemma DoubleTwice(n: int)
    requires IsDouble(n)
    ensures IsDouble(2 * n)
  {
    var e := Exponent(n);
    ExponentBounds(n);
    Pow2Step(e + PRECISION);
    assert (2 * n) / 2 == n && Multiple(2 * n, e + 1);
    DoubleIntro(2 * n, e + 1);
  }

  /** In an exact tie the other neighbour of z is a double, and the test reaches it exactly. */
  lemma TieNeighbour(z: int)
    requires Round(z) != z && 2 * Abs(z - Round(z)) == Pow2(Exponent(z))
    ensures var hi, y := Round(z), 2 * (z - Round(z));
            Round(hi + y) == hi + y && Round(y) == y
  {
    hide Multiple, Bits, Pow2, Round;
    var e, hi := Exponent(z), Round(z);
    var lo := z - hi;
    var top: int := Pow2(e + PRECISION);
    RoundBounds(z);
    ExponentBounds(z);
    MultiplePow2(e, e);
    MultiplePow2(e + PRECISION, e);
    Pow2Monotone(e, e + PRECISION);
    MultipleAdd(hi, Pow2(e), e);
    MultipleAdd(Pow2(e), Pow2(e), e);
    var n := hi + 2 * lo;
    if Abs(n) > top {
      MultipleAdd(n, n, e);
      MultiplesApart(top, Abs(n), e);
    }
    DoubleIntro(n, e);
    RoundDouble(n);
    DoubleIntro(2 * lo, e);
    RoundDouble(2 * lo);
  }

  /** Short of a tie, hi + 2 * lo stays in z's binade. */
  lemma DoubledErrorInBinade(z: int)
    requires Round(z) != z && 2 * Abs(z - Round(z)) < Pow2(Exponent(z))
    ensures Exponent(z) <= Exponent(Round(z) + 2 * (z - Round(z)))
  {
    hide Multiple, Bits, Pow2, Round;
    var e, hi := Exponent(z), Round(z);
    var n := hi + 2 * (z - hi);
    RoundBounds(z);
    assert Pow2(0) == 1 && Multiple(z, 0) by { PowerZero(z); }
    SameBinade(z, 0, 0);
    MultiplePow2(e + PRECISION - 1, e);
    MultipleAdd(hi, hi, e);
    var bottom: int := Pow2(e + PRECISION - 1);
    if Abs(hi) > bottom { MultiplesApart(bottom, Abs(hi), e); }
    assert bottom <= Abs(n);
    if Exponent(n) < e {
      ExponentBounds(n);
      Pow2Monotone(Exponent(n) + PRECISION, e + PRECISION - 1);
    }
  }

  /** The check with which the code recognizes an exact tie. */
  lemma TieTest(z: int)
    requires Round(z) != z
    ensures var hi, y := Round(z), 2 * (z - Round(z));
            && (y == Round(Round(hi + y) - hi) <==> Abs(y) == Pow2(Exponent(z)))
            && (Abs(y) == Pow2(Exponent(z)) ==> Round(hi + y) == hi + y)
  {
    hide Multiple, Bits, Pow2, Round;
    var e, hi := Exponent(z), Round(z);
    var y := 2 * (z - hi);
    RoundBounds(z);
    if Abs(y) == Pow2(e) {
      TieNeighbour(z);
    } else {
      DoubledErrorInBinade(z);
      var x := Round(hi + y);
      RoundBounds(hi + y);
      MultipleMonotone(x, e, Exponent(hi + y));
      MultipleAdd(x, hi, e);
      RoundMultiple(x - hi, e);
      if y == Round(x - hi) { MultipleGap(y, e); }
    }
  }

  lemma PowerZero(z: int)
    ensures Pow2(0) == 1 && Multiple(z, 0)
  {
  }

  /** One step down the partials: the addition's operands need no swap, and what is still below
      stays below. */
  lemma StepDown(partials: seq<int>, n: nat, x: int)
    requires Expansion(partials) && n < |partials| - 1 && IsDouble(x)
    requires forall j :: 0 <= j <= n ==> Above(partials[j], x)
    ensures var y := partials[n]; var hi := Round(x + y);
            && Round(y - Round(hi - x)) == x + y - hi
            && IsDouble(hi) && IsDouble(x + y - hi)
            && (forall j :: 0 <= j < n ==> Above(partials[j], x + y))
    ensures Sum(partials[..n + 1]) == Sum(partials[..n]) + partials[n]
  {
    hide Multiple, Bits, Pow2, Round;
    var y := partials[n];
    BitsBounds(Abs(y));
    assert Above(y, x);
    if x != 0 { MultipleGap(x, Bits(Abs(y))); }
    FastTwoSum(x, y);
    RoundIsDouble(x + y);
    ErrorOfEither(x, y);
    forall j | 0 <= j < n
      ensures Above(partials[j], x + y)
    {
      assert Above(partials[j], x) && Above(partials[j], y);
      MultipleAdd(x, y, Bits(Abs(partials[j])));
    }
    assert partials[..n + 1] == partials[..n] + [y];
    SumPush(partials[..n], y);
  }

  /** The partials below an inexact step, and the code's test of their sign. */
  lemma LastStep(partials: seq<int>, n: nat, z: int)
    requires Expansion(partials) && 0 < n < |partials|
    requires Above(partials[n - 1], z) && Round(z) != z && IsDouble(z - Round(z))
    ensures var hi, lo := Round(z), z - Round(z);
            var x := Round(hi + Round(lo * 2));
            Round(z + Sum(partials[..n])) ==
            if ((lo < 0 && partials[n - 1] < 0) || (lo > 0 && partials[n - 1] > 0)) && Round(lo * 2) == Round(x - hi)
            then x else hi
  {
    hide Multiple, Bits, Pow2, Round;
    SumBelow(partials, n);
    RestDecidesTie(z, Sum(partials[..n]), Bits(Abs(partials[n - 1])));
    TieTest(z);
    DoubleTwice(z - Round(z));
    RoundDouble(2 * (z - Round(z)));
    assert 2 * (z - Round(z)) == (z - Round(z)) * 2;
  }

  lemma TopPartial(partials: seq<int>)
    requires Expansion(partials) && partials != []
    ensures var n := |partials| - 1;
            && IsDouble(partials[n]) && (forall j :: 0 <= j < n ==> Above(partials[j], partials[n]))
            && partials[..n + 1] == partials
  {
  }

  /** Collapse the partials into one double, from the top, stopping at the first inexact step. */
  method RoundPartials(partials: seq<int>, ghost a: nat) returns (hi: int, ghost peak: nat)
    requires Expansion(partials)
    ensures hi == Round(Sum(partials))
    ensures Weight(partials) <= 2 * a ==> peak <= 64 * a
  {
    hide Multiple, Bits, Pow2, Round, IsDouble, Above, Weight, StepPeak, Expansion;
    var n := |partials|;
    hi, peak := 0, 0;
    var lo := 0;
    ghost var exact := 0;
    assert partials[..n] == partials;
    RoundDouble(0) by { ZeroIsDouble(); }
    if n > 0 {
      n := n - 1;
      hi := partials[n];
      exact := hi;
      TopPartial(partials);
      WeightUpTo(partials, n);
      while n > 0
        invariant 0 <= n < |partials| && lo == exact - hi == 0
        invariant exact + Sum(partials[..n]) == Sum(partials)
        invariant IsDouble(hi)
        invariant forall j :: 0 <= j < n ==> Above(partials[j], exact)
        invariant Abs(exact) + Weight(partials[..n]) <= Weight(partials)
        invariant Weight(partials) <= 2 * a ==> peak <= 64 * a
      {
        var x := hi;
        n := n - 1;
        var y := partials[n];
        StepDown(partials, n, x);
        WeightUpTo(partials, n);
        if Weight(partials) <= 2 * a { StepPeakSmall(x, y, a); }
        peak := Max(peak, StepPeak(x, y));
        hi := Round(x + y);
        lo := Round(y - Round(hi - x));
        exact := x + y;
        if lo != 0 { break; }
      }
      if lo == 0 { RoundDouble(hi); }
      if n > 0 { LastStep(partials, n, exact); }
      if n > 0 && ((lo < 0 && partials[n - 1] < 0) || (lo > 0 && partials[n - 1] > 0)) {
        var y := Round(lo * 2);
        var x := Round(hi + y);
        if Weight(partials) <= 2 * a { CorrectionSmall(exact, a); }
        peak := Max(peak, Max(Abs(y), Max(Abs(x), Abs(Round(x - hi)))));
        if y == Round(x - hi) { hi := x; }
      }
    }
  }

  /** The magnitudes of all items together. */
  function Magnitude(items: seq<Number>): nat {
    if items == [] then 0 else Magnitude(items[..|items| - 1]) + Abs(Value(items[|items| - 1]))
  }

  lemma {:induction false} MagnitudePush(items: seq<Number>, item: Number)
    ensures Magnitude(items + [item]) == Magnitude(items) + Abs(Value(item))
  {
    assert (items + [item])[..|items|] == items;
  }

  lemma {:induction false} MagnitudeFront(items: seq<Number>, k: nat)
    requires k <= |items|
    ensures Magnitude(items[..k]) <= Magnitude(items)
  {
    if k < |items| {
      MagnitudeFront(items[..|items| - 1], k);
      assert items[..|items| - 1][..k] == items[..k];
    } else {
      assert items[..k] == items;
    }
  }

  lemma {:induction false} NothingSummed()
    ensures Expansion([]) && Sum([]) == Total([]) && Within(Weight([]), Magnitude([]), 0)
  {
  }

  lemma {:induction false} ZeroIsDouble()
    ensures IsDouble(0)
  {
    MultipleZero(Exponent(0));
  }

  /** Math.sumPrecise. peak is the largest magnitude that any operation on the way returns: while it
      stays below 2^2098, which is 2^1024 before scaling, no operation overflows and the hardware's
      additions are the ones of this model. Fewer than 2^25 items whose magnitudes add up to less
      than 2^1018 never come near. */
  method SumPrecise(items: seq<Number>) returns (r: Outcome, ghost peak: nat)
    requires forall n <- items :: Valid(n)
    ensures r == if NotANumber in items then TypeError else Returned(RoundedTotal(items))
    ensures 2 * (|items| * |items|) <= Share() ==> peak <= 64 * Magnitude(items)
  {
    hide Share, Within, Weight, Magnitude, Expansion, IsDouble, Sum;
    var partials: seq<int> := [];
    peak := 0;
    ghost var small := 2 * (|items| * |items|) <= Share();
    NothingSummed();
    var allMinusZero, sawNaN, sawPlusInfinity, sawMinusInfinity := true, false, false, false;
    for k := 0 to |items|
      invariant Expansion(partials)
      invariant Sum(partials) == Total(items[..k])
      invariant allMinusZero <==> forall j :: 0 <= j < k ==> items[j] == MinusZero
      invariant sawNaN <==> NaN in items[..k]
      invariant sawPlusInfinity <==> PlusInfinity in items[..k]
      invariant sawMinusInfinity <==> MinusInfinity in items[..k]
      invariant |partials| <= k && NotANumber !in items[..k]
      invariant small ==> Within(Weight(partials), Magnitude(items[..k]), k * k) && peak <= 64 * Magnitude(items[..k])
    {
      var item := items[k];
      assert items[..k + 1] == items[..k] + [item];
      TotalAppend(items[..k], [item]);
      MagnitudePush(items[..k], item);
      ghost var a, v := Magnitude(items[..k + 1]), Abs(Value(item));
      if small { RangeBefore(Weight(partials), Magnitude(items[..k]), k, |items|, v, |partials|); }
      assert Valid(item);
      if item == NotANumber {
        MagnitudeFront(items, k);
        return TypeError, peak;
      }
      if item != MinusZero { allMinusZero := false; }
      if item == NaN {
        sawNaN := true;
      } else if item == PlusInfinity {
        sawPlusInfinity := true;
      } else if item == MinusInfinity {
        sawMinusInfinity := true;
      } else {
        ZeroIsDouble();
        ghost var n, p := |partials|, peak;
        partials, peak := AddItem(partials, Value(item), a, k * k);
        if small { RangeAfter(Weight(partials), a, k, n); }
        peak := Max(p, peak);
      }
    }
    assert items[..|items|] == items;
    if sawNaN || (sawPlusInfinity && sawMinusInfinity) { return Returned(NaN), peak; }
    if sawPlusInfinity { return Returned(PlusInfinity), peak; }
    if sawMinusInfinity { return Returned(MinusInfinity), peak; }
    if allMinusZero { return Returned(MinusZero), peak; }
    assert exists n :: n in items && n != MinusZero by {
      var j :| 0 <= j < |items| && items[j] != MinusZero;
      assert items[j] in items;
    }
    if small { WithinTwice(Weight(partials), Magnitude(items), |items| * |items|); }
    ghost var p := peak;
    var hi;
    hi, peak := RoundPartials(partials, Magnitude(items));
    peak := Max(p, peak);
    r := Returned(Finite(hi));
  }
}
