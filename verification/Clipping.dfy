/**
 The clipping of long exponents in strtod (so3/lib/strtod.c): for which numerals it leaves the rounding decision
 alone, and a text for which it does not.
 */
module Clipping {
  import opened Powers
  import opened Products
  import opened Rounding
  import opened NumeralParser
  import opened DigitComparison

  /** The largest mantissa, 2^53 - 1. */
  const MAX_MANTISSA := 0x1f_ffff_ffff_ffff

  /** v * 2^p2 is a finite double in its usual form. */
  predicate IsDouble(v: nat, p2: int) {
    v <= MAX_MANTISSA && -1074 <= p2 <= 971 && DoublePrecision(v, p2)
  }

  /** What the text says: its digits times ten to its exponent, rounded against v * 2^p2. */
  ghost predicate TextRoundsUp(n: Numeral, v: nat, p2: int)
    requires n.Valid()
  {
    RoundsUp(Dec(n.Digits()), n.Exponent() - |n.fraction|, v, p2)
  }

  /** The same with the exponent the parser works with. */
  ghost predicate ClippedRoundsUp(n: Numeral, v: nat, p2: int)
    requires n.Valid()
  {
    RoundsUp(Dec(n.Digits()), n.ClippedExponent() - |n.fraction|, v, p2)
  }

  // ---------------------------------------------------------------- one scale for all doubles

  /** Twice the midpoint above v * 2^p2, in units of 2^-1075. */
  ghost function Midpoint2(v: nat, p2: int): nat
    requires p2 >= -1074
  {
    (2 * v + 1) * Pow(2, p2 + 1074)
  }

  /** On that scale only the midpoint depends on the double. */
  ghost predicate Beyond(x: nat, y: nat, v: nat) {
    x > y || (x == y && v % 2 == 1)
  }

  lemma ScaledComparison(d: nat, b: nat, v: nat, f: nat)
    requires f > 0
    ensures Beyond(d, b, v) <==> Beyond(d * f, b * f, v)
  {
    if d > b {
      MulStrict(f, b, d);
    } else if d < b {
      MulStrict(f, d, b);
    }
  }

  lemma OneScale(whole: nat, e: int, v: nat, p2: int)
    requires p2 >= -1074
    ensures RoundsUp(whole, e, v, p2) <==>
      Beyond(whole * Pow(10, Above(e)) * Pow(2, 1075), Midpoint2(v, p2) * Pow(10, Above(-e)), v)
  {
    hide Pow;
    var k := 1075 - Above(1 - p2);
    var x, m, a := whole * Pow(10, Above(e)), 2 * v + 1, Pow(10, Above(-e));
    PowPositive(2, k);
    ScaledComparison(DecimalSide(whole, e, p2), BinarySide(v, e, p2), v, Pow(2, k));
    PowAdd(2, Above(1 - p2), k);
    PowAdd(2, Above(p2 - 1), k);
    MulAssoc(x, Pow(2, Above(1 - p2)), Pow(2, k));
    MulAssoc(m * a, Pow(2, Above(p2 - 1)), Pow(2, k));
    assert m * a * Pow(2, p2 + 1074) == m * Pow(2, p2 + 1074) * a;
  }

  /** Whatever moves the largest double up moves every double up. */
  lemma LargestDecides(whole: nat, e: int, v: nat, p2: int)
    requires IsDouble(v, p2) && RoundsUp(whole, e, MAX_MANTISSA, 971)
    ensures RoundsUp(whole, e, v, p2)
  {
    hide Pow, RoundsUp;
    OneScale(whole, e, MAX_MANTISSA, 971);
    OneScale(whole, e, v, p2);
    PowMonotone(2, p2 + 1074, 2045);
    PowPositive(2, 2045);
    PowPositive(10, Above(-e));
    MulMonotone(2 * v + 1, Pow(2, p2 + 1074), Pow(2, 2045));
    MulMonotone(Pow(2, 2045), 2 * v + 1, 2 * MAX_MANTISSA + 1);
    MulMonotone(Pow(10, Above(-e)), Midpoint2(v, p2), Midpoint2(MAX_MANTISSA, 971));
    if v < MAX_MANTISSA {
      MulStrict(Pow(2, 2045), 2 * v + 1, 2 * MAX_MANTISSA + 1);
      MulStrict(Pow(10, Above(-e)), Midpoint2(v, p2), Midpoint2(MAX_MANTISSA, 971));
    }
  }

  /** Whatever leaves zero alone leaves every double alone. */
  lemma SmallestDecides(whole: nat, e: int, v: nat, p2: int)
    requires IsDouble(v, p2) && !RoundsUp(whole, e, 0, -1074)
    ensures !RoundsUp(whole, e, v, p2)
  {
    hide Pow, RoundsUp;
    OneScale(whole, e, 0, -1074);
    OneScale(whole, e, v, p2);
    PowZero(2);
    PowPositive(2, p2 + 1074);
    PowPositive(10, Above(-e));
    MulMonotone(2 * v + 1, 1, Pow(2, p2 + 1074));
    MulMonotone(Pow(10, Above(-e)), 2 * v + 1, Midpoint2(v, p2));
    if v > 0 {
      MulStrict(Pow(10, Above(-e)), 1, 2 * v + 1);
    }
  }

  /** Ten to the 400 is beyond any quotient of doubles. */
  lemma FourHundred()
    ensures Pow(10, 400) >= Pow(2, 1200)
  {
    hide Pow;
    PowPower(2, 3, 400);
    Cube();
    BaseMonotone(8, 10, 400);
  }

  lemma Cube()
    ensures Pow(2, 3) == 8
  {
  }

  lemma {:induction false} BaseMonotone(b: nat, c: nat, e: nat)
    requires b <= c
    ensures Pow(b, e) <= Pow(c, e)
  {
    if e > 0 {
      BaseMonotone(b, c, e - 1);
      MulMonotone(b, Pow(b, e - 1), Pow(c, e - 1));
      MulMonotone(Pow(c, e - 1), b, c);
    }
  }

  lemma MantissaBound()
    ensures 2 * MAX_MANTISSA + 1 < Pow(2, 54)
  {
    hide Pow;
    assert Pow(2, 9) == 512 by { NinthPower(); }
    PowAdd(2, 9, 9);
    PowAdd(2, 18, 18);
    PowAdd(2, 36, 18);
  }

  lemma NinthPower()
    ensures Pow(2, 9) == 512
  {
    assert Pow(2, 4) == 16;
  }

  lemma LargestMidpoint()
    ensures Midpoint2(MAX_MANTISSA, 971) < Pow(2, 2275)
  {
    hide Pow;
    MantissaBound();
    PowPositive(2, 2045);
    MulStrict(Pow(2, 2045), 2 * MAX_MANTISSA + 1, Pow(2, 54));
    PowAdd(2, 54, 2045);
    PowMonotone(2, 2099, 2275);
  }

  lemma HugeValue(whole: nat, e: nat)
    requires whole > 0 && e >= 400
    ensures whole * Pow(10, e) * Pow(2, 1075) >= Pow(2, 2275)
  {
    hide Pow;
    FourHundred();
    PowMonotone(10, 400, e);
    MulMonotone(Pow(10, e), 1, whole);
    MulMonotone(Pow(2, 1075), Pow(2, 1200), whole * Pow(10, e));
    PowAdd(2, 1200, 1075);
  }

  lemma HugeRoundsUp(whole: nat, e: int)
    requires whole > 0 && e >= 400
    ensures RoundsUp(whole, e, MAX_MANTISSA, 971)
  {
    hide Pow, RoundsUp, Midpoint2;
    OneScale(whole, e, MAX_MANTISSA, 971);
    PowZero(10);
    LargestMidpoint();
    HugeValue(whole, e);
  }

  lemma TinyStays(whole: nat, e: int, k: nat)
    requires whole < Pow(10, k) && e + k + 400 <= 0
    ensures !RoundsUp(whole, e, 0, -1074)
  {
    hide Pow, RoundsUp;
    OneScale(whole, e, 0, -1074);
    PowZero(2);
    PowZero(10);
    PowAdd(10, k, 400);
    PowMonotone(10, k + 400, -e);
    FourHundred();
    PowMonotone(2, 1075, 1200);
    MulMonotone(Pow(10, k), Pow(2, 1075), Pow(10, 400));
    MulMonotone(Pow(2, 1075), whole, Pow(10, k));
  }

  // ---------------------------------------------------------------- the exact condition

  ghost predicate LongExponent(n: Numeral) {
    |n.expDigits| - LeadingZeros(n.expDigits) > 9
  }

  /** The value is at least the midpoint above the largest double. */
  ghost predicate Overflows(n: Numeral)
    requires n.Valid()
  {
    var e := n.Exponent() - |n.fraction|;
    Dec(n.Digits()) * Pow(10, Above(e)) >= 0x3f_ffff_ffff_ffff * Pow(10, Above(-e)) * Pow(2, 970)
  }

  /** The value is at most half the smallest double. */
  ghost predicate Vanishes(n: Numeral)
    requires n.Valid()
  {
    var e := n.Exponent() - |n.fraction|;
    Dec(n.Digits()) * Pow(10, Above(e)) * Pow(2, 1075) <= Pow(10, Above(-e))
  }

  /** The exponent is not clipped, or the value is zero or outside the range of the doubles anyway. */
  ghost predicate ClippingSafe(n: Numeral)
    requires n.Valid()
  {
    !LongExponent(n) || Dec(n.Digits()) == 0 || if n.expNegative then Vanishes(n) else Overflows(n)
  }

  /** Clipping changes the decision for no double. */
  ghost predicate ClippingKeeps(n: Numeral)
    requires n.Valid()
  {
    forall v: nat, p2: int :: IsDouble(v, p2) ==> (ClippedRoundsUp(n, v, p2) <==> TextRoundsUp(n, v, p2))
  }

  lemma Extremes(n: Numeral)
    requires n.Valid()
    ensures TextRoundsUp(n, MAX_MANTISSA, 971) <==> Overflows(n)
    ensures TextRoundsUp(n, 0, -1074) <==> !Vanishes(n)
  {
    hide Pow, Dec;
    PowZero(2);
  }

  /** A digit string without leading zero is at least the power of ten of its length less one. */
  lemma {:induction false} DecAtLeast(s: seq<char>)
    requires |s| > 0 && s[0] != '0' && forall i :: 0 <= i < |s| ==> IsDigit(s[i])
    ensures Dec(s) >= Pow(10, |s| - 1)
  {
    hide Pow, Dec;
    DecSnoc(s);
    if |s| == 1 {
      assert s[..0] == [];
      DecNone();
      PowZero(10);
    } else {
      DecAtLeast(s[..|s| - 1]);
      PowStep(10, |s| - 2);
    }
  }

  lemma LongIsLarge(n: Numeral)
    requires n.Valid() && LongExponent(n)
    ensures Dec(n.expDigits) >= 1_000_000_000
  {
    hide Pow, Dec, LeadingZeros;
    var z := LeadingZeros(n.expDigits);
    DecDropZeros(n.expDigits, z);
    DecAtLeast(n.expDigits[z..]);
    PowMonotone(10, 9, |n.expDigits| - z - 1);
    TenTo9();
  }

  lemma DigitsBelow(n: Numeral)
    requires n.Valid()
    ensures Dec(n.Digits()) < Pow(10, n.Significant())
  {
    hide Pow, Dec, LeadingZeros;
    var d, z := n.Digits(), LeadingZeros(n.Digits());
    DecDropZeros(d, z);
    DecBound(d[z..]);
  }

  /** At the clip value an accepted nonzero numeral is outside the range of the doubles. */
  lemma ClippedExtreme(n: Numeral)
    requires n.Valid() && !Unacceptable(n) && LongExponent(n) && Dec(n.Digits()) > 0
    ensures n.expNegative ==> !ClippedRoundsUp(n, 0, -1074)
    ensures !n.expNegative ==> ClippedRoundsUp(n, MAX_MANTISSA, 971)
  {
    hide Pow, Dec, LeadingZeros, RoundsUp;
    var e := n.ClippedExponent() - |n.fraction|;
    if n.expNegative {
      DigitsBelow(n);
      TinyStays(Dec(n.Digits()), e, n.Significant());
    } else {
      HugeRoundsUp(Dec(n.Digits()), e);
    }
  }

  lemma ZeroStays(e: int, v: nat, p2: int)
    ensures !RoundsUp(0, e, v, p2)
  {
    hide Pow;
    PowPositive(10, Above(-e));
    PowPositive(2, Above(p2 - 1));
    ProductPositive(2 * v + 1, Pow(10, Above(-e)));
    ProductPositive((2 * v + 1) * Pow(10, Above(-e)), Pow(2, Above(p2 - 1)));
  }

  lemma SafeKeeps(n: Numeral, v: nat, p2: int)
    requires n.Valid() && !Unacceptable(n) && ClippingSafe(n) && IsDouble(v, p2)
    ensures ClippedRoundsUp(n, v, p2) <==> TextRoundsUp(n, v, p2)
  {
    hide Pow, Dec, LeadingZeros, RoundsUp, Overflows, Vanishes, IsDouble;
    if LongExponent(n) {
      var d, e, c := Dec(n.Digits()), n.Exponent() - |n.fraction|, n.ClippedExponent() - |n.fraction|;
      if d == 0 {
        ZeroStays(e, v, p2);
        ZeroStays(c, v, p2);
      } else {
        Extremes(n);
        ClippedExtreme(n);
        if n.expNegative {
          SmallestDecides(d, e, v, p2);
          SmallestDecides(d, c, v, p2);
        } else {
          LargestDecides(d, e, v, p2);
          LargestDecides(d, c, v, p2);
        }
      }
    }
  }

  /**
   Clipping the exponent of an accepted numeral leaves the decision alone for every double exactly if the exponent
   has at most nine digits or the value is zero or out of range already.
   */
  lemma ClippingExact(n: Numeral)
    requires n.Valid() && !Unacceptable(n)
    ensures ClippingKeeps(n) <==> ClippingSafe(n)
  {
    hide Pow, Dec, LeadingZeros, ClippedRoundsUp, TextRoundsUp, Overflows, Vanishes, Unacceptable;
    if ClippingSafe(n) {
      forall v: nat, p2: int | IsDouble(v, p2)
        ensures ClippedRoundsUp(n, v, p2) <==> TextRoundsUp(n, v, p2)
      {
        SafeKeeps(n, v, p2);
      }
    } else {
      Extremes(n);
      ClippedExtreme(n);
      assert IsDouble(0, -1074) && IsDouble(MAX_MANTISSA, 971);
    }
  }

  /** With 400 digits less than the parser admits, clipping is safe whatever the exponent. */
  lemma FewerDigitsSafe(n: Numeral)
    requires n.Valid() && n.Significant() <= MAX_DIGITS - 400 && |n.fraction| <= MAX_DIGITS - 400
    ensures ClippingSafe(n)
  {
    hide Pow, Dec, LeadingZeros, RoundsUp, Overflows, Vanishes;
    if LongExponent(n) && Dec(n.Digits()) > 0 {
      var e := n.Exponent() - |n.fraction|;
      LongIsLarge(n);
      Extremes(n);
      if n.expNegative {
        DigitsBelow(n);
        TinyStays(Dec(n.Digits()), e, n.Significant());
      } else {
        HugeRoundsUp(Dec(n.Digits()), e);
      }
    }
  }

  // ---------------------------------------------------------------- a text that is clipped

  /** Where a run of digits ends. */
  lemma {:induction false} RunTo(t: seq<char>, i: nat, j: nat)
    requires Terminated(t) && i <= j < |t| && !IsDigit(t[j]) && forall k :: i <= k < j ==> IsDigit(t[k])
    ensures DigitRun(t, i) == j
    decreases j - i
  {
    if i < j {
      RunTo(t, i + 1, j);
    }
  }

  /** The number one, with a billion digits behind the point. */
  function LongOne(): (t: seq<char>)
    ensures Terminated(t)
  {
    ['.'] + seq(999_999_999, _ => '0') + "1e1000000000" + ['\0']
  }

  lemma LongOneAt()
    ensures var t := LongOne();
      |t| == 1_000_000_013 && t[0] == '.' && (forall i :: 1 <= i < 1_000_000_000 ==> t[i] == '0') &&
      t[1_000_000_000] == '1' && t[1_000_000_001] == 'e' && t[1_000_000_012] == '\0' &&
      t[1_000_000_002..1_000_000_012] == "1000000000"
  {
    assert LongOne()[1_000_000_000..] == "1e1000000000" + ['\0'];
  }

  lemma LongOneRuns()
    ensures var t := LongOne();
      |t| == 1_000_000_013 && DigitRun(t, 0) == 0 && DigitRun(t, 1) == 1_000_000_001 &&
      DigitRun(t, 1_000_000_002) == 1_000_000_012
  {
    hide DigitRun, LongOne;
    var t := LongOne();
    LongOneAt();
    RunTo(t, 0, 0);
    RunTo(t, 1, 1_000_000_001);
    TenDigits();
    assert forall k :: 1_000_000_002 <= k < 1_000_000_012 ==>
      t[k] == t[1_000_000_002..1_000_000_012][k - 1_000_000_002];
    RunTo(t, 1_000_000_002, 1_000_000_012);
  }

  lemma LongOneParts()
    ensures var n := Read(LongOne());
      n.whole == [] && |n.fraction| == 1_000_000_000 && n.fraction[999_999_999] == '1' &&
      (forall i :: 0 <= i < 999_999_999 ==> n.fraction[i] == '0') && !n.expNegative && n.expDigits == "1000000000"
  {
    hide DigitRun, LongOne;
    LongOneAt();
    LongOneRuns();
    assert LongOne()[1_000_000_002] == LongOne()[1_000_000_002..1_000_000_012][0] == '1';
  }

  lemma TenDigits()
    ensures forall i :: 0 <= i < 10 ==> IsDigit("1000000000"[i])
    ensures Dec("1000000000") == 1_000_000_000 && LeadingZeros("1000000000") == 0
  {
    hide Dec, Pow;
    var s := "1000000000";
    assert s[..1] == ['1'] && s[1..] == "000000000" && s == s[..1] + s[1..];
    DecSnoc(['1']);
    assert ['1'][..0] == [];
    DecNone();
    DecZeros(s[1..]);
    DecConcat(s[..1], s[1..]);
    TenTo9();
  }

  lemma LongOneDigits(n: Numeral)
    requires n.whole == [] && |n.fraction| == 1_000_000_000 && n.fraction[999_999_999] == '1' && n.Valid()
    requires forall i :: 0 <= i < 999_999_999 ==> n.fraction[i] == '0'
    ensures Dec(n.Digits()) == 1 && n.Significant() == 1
  {
    hide Dec, LeadingZeros, Pow;
    var d := n.Digits();
    assert d == n.fraction;
    LeadingZerosUnique(d, 999_999_999);
    DecDropZeros(d, 999_999_999);
    assert d[999_999_999..] == ['1'];
    DecSnoc(['1']);
    assert ['1'][..0] == [];
    DecNone();
  }

  /** It is accepted and its value is one, but with the exponent clipped it moves the double one up. */
  lemma ClippedText()
    ensures var n := Read(LongOne());
      !Unacceptable(n) && Dec(n.Digits()) == 1 && n.Exponent() == |n.fraction| && !ClippingSafe(n) &&
      IsDouble(0x10_0000_0000_0000, -52) &&
      !TextRoundsUp(n, 0x10_0000_0000_0000, -52) && ClippedRoundsUp(n, 0x10_0000_0000_0000, -52)
  {
    hide Dec, LeadingZeros, Pow, Read, RoundsUp, LongOne;
    var n, v := Read(LongOne()), 0x10_0000_0000_0000;
    LongOneParts();
    LongOneDigits(n);
    TenDigits();
    HugeRoundsUp(1, 100_000_000);
    LargestDecides(1, 100_000_000, v, -52);
    OneStays();
    if ClippingSafe(n) {
      SafeKeeps(n, v, -52);
    }
  }

  lemma OneStays()
    ensures !RoundsUp(1, 0, 0x10_0000_0000_0000, -52)
  {
    hide Pow;
    PowZero(10);
    PowZero(2);
    assert Pow(2, 53) == 0x20_0000_0000_0000 by {
      NinthPower();
      PowAdd(2, 9, 9);
      PowAdd(2, 18, 18);
      PowAdd(2, 36, 9);
      PowAdd(2, 45, 8);
      PowStep(2, 8);
    }
  }
}
