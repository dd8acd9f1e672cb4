/**
 The rounding decision of bigcomp (so3/lib/strtod.c), from an approximation's mantissa and
 exponent to the comparison of the numeral with the midpoint above it.
 */
module Rounding {
  import opened Powers
  import opened Words
  import opened Bits
  import opened Bigints
  import opened Products
  import opened Division
  import opened Scaling
  import opened DigitComparison

  function Above(x: int): nat {
    if x > 0 then x else 0
  }

  // ---------------------------------------------------------------- b := 2b + 1

  lemma OrOne(x: nat)
    requires x % 2 == 0
    ensures BitOr(x, 1) == x + 1
  {
    assert Pow(2, 1) == 2;
    BitOrDisjoint(x / 2, 1, 1);
  }

  /** Setting the low bit of an even number adds one. */
  lemma SetLowBit(s: seq<Word>, t: seq<Word>)
    requires |s| == |t| > 0 && s[1..] == t[1..] && t[0] as int == s[0] as int + 1
    ensures Val(t) == Val(s) + 1
  {
    hide Val, W;
    ValSplit(s, 1);
    ValSplit(t, 1);
    assert s[..1] == [s[0]] && t[..1] == [t[0]];
    ValSingle(s[0]);
    ValSingle(t[0]);
  }

  /** The parity of a number is the parity of its lowest word. */
  lemma LowBit(s: seq<Word>)
    requires |s| > 0
    ensures Val(s) % 2 == s[0] % 2
  {
    ValSplit(s, 1);
    assert s[..1] == [s[0]];
    ValSingle(s[0]);
    WStep(0);
    assert W(0) == 1;
    EvenMultiple(s[0], Val(s[1..]));
  }

  lemma EvenMultiple(x: int, y: int)
    ensures (x + 0x1_0000_0000 * y) % 2 == x % 2
  {
  }

  /** Twice b plus one: the midpoint above b, in half units. */
  method Midpoint(b: Bigint) returns (r: Bigint)
    requires b.Normal()
    modifies b.x
    ensures r.Normal() && r.Value() == 2 * old(b.Value()) + 1
    ensures r == b || (fresh(r) && fresh(r.x))
  {
    hide Val;
    r := LShift(b, 1);
    assert Pow(2, 1) == 2;
    ghost var s := r.x[..r.wds];
    LowBit(s);
    OrOne(r.x[0]);
    r.x[0] := BitOr(r.x[0], 1);
    SetLowBit(s, r.x[..r.wds]);
    assert r.wds > 1 ==> r.x[r.wds - 1] == s[r.wds - 1];
  }

  // ---------------------------------------------------------------- scaling to an integer ratio

  /** b and d = 1, the powers of five moved to the side where the exponent is non-negative. */
  method ScaleByFives(c: PowersOfFive, b0: Bigint, p5: int) returns (b: Bigint, d: Bigint)
    requires c.Valid() && b0.Normal() && Separate(c, b0)
    modifies c, b0, b0.x
    ensures c.Valid() && b.Normal() && d.Normal() && b != d && b.x != d.x && Separate(c, b)
    ensures fresh(d) && fresh(d.x) && (b == b0 || (fresh(b) && fresh(b.x)))
    ensures b.Value() == old(b0.Value()) * Pow(5, Above(-p5)) && d.Value() == Pow(5, Above(p5))
  {
    hide Val, Pow;
    PowZero(5);
    b := b0;
    d := FromInt(1);
    if p5 > 0 {
      d := Pow5Mult(c, d, p5);
    } else if p5 < 0 {
      b := Pow5Mult(c, b, -p5);
    }
  }

  /** Both operands shifted so that the divisor has four leading zero bits. */
  method ScaleByTwos(b0: Bigint, d0: Bigint, p2: int) returns (b: Bigint, d: Bigint, ghost sh: nat)
    requires b0 != d0 && b0.x != d0.x && b0.Normal() && d0.Normal() && d0.Value() > 0
    ensures b != d && b.x != d.x && b.Normal() && d.Normal() && FourLeadingZeros(d.x[..d.wds])
    ensures b == b0 || (fresh(b) && fresh(b.x))
    ensures b.Value() == b0.Value() * Pow(2, Above(p2) + sh) && d.Value() == d0.Value() * Pow(2, Above(-p2) + sh)
  {
    hide Val, Pow, FourLeadingZeros, Aligns;
    b, d := b0, d0;
    var b2, d2 := Above(p2), Above(-p2);
    IsZeroValue(d0.x[..d0.wds]);
    var i := DShift(d, d2);
    sh := i;
    PowZero(2);
    if b2 + i > 0 {
      b := LShift(b, b2 + i);
    }
    if d2 + i > 0 {
      d := LShift(d, d2 + i);
    }
    ShiftAligns(d0.x[..d0.wds], d2, i, d.x[..d.wds]);
  }

  // ---------------------------------------------------------------- numeral against midpoint

  /** whole * 10^e0, cleared of the denominators of both sides. */
  ghost function DecimalSide(whole: nat, e0: int, p2: int): nat {
    whole * Pow(10, Above(e0)) * Pow(2, Above(1 - p2))
  }

  /** (v + 1/2) * 2^p2, cleared of the denominators of both sides. */
  ghost function BinarySide(v: nat, e0: int, p2: int): nat {
    (2 * v + 1) * Pow(10, Above(-e0)) * Pow(2, Above(p2 - 1))
  }

  /** Equal ratios compare alike. */
  lemma SameRatio(u: nat, v: nat, x: nat, y: nat)
    requires u > 0 && v > 0 && x > 0 && y > 0 && u * y == v * x
    ensures SameSign(u - v, x - y)
  {
    if u > v && x <= y {
      MulStrict(y, v, u);
      MulMonotone(v, x, y);
    } else if u < v && x >= y {
      MulStrict(y, u, v);
      MulMonotone(v, y, x);
    } else if u == v {
      MulCancel(u, x, y);
      MulCancel(u, y, x);
    }
  }

  /** 5^a * 2^b. */
  ghost function FiveTwo(a: nat, b: nat): nat {
    Pow(5, a) * Pow(2, b)
  }

  lemma FiveTwoProduct(a: nat, b: nat, c: nat, d: nat)
    ensures FiveTwo(a, b) * FiveTwo(c, d) == FiveTwo(a + c, b + d)
  {
    PowAdd(5, a, c);
    PowAdd(2, b, d);
    MulShuffle(Pow(5, a), Pow(2, b), Pow(5, c), Pow(2, d));
  }

  lemma TenIsFiveTwo(n: nat)
    ensures Pow(10, n) == FiveTwo(n, n)
  {
    PowProduct(5, 2, n);
  }

  lemma FiveTwoPositive(a: nat, b: nat)
    ensures FiveTwo(a, b) > 0
  {
    PowPositive(5, a);
    PowPositive(2, b);
    ProductPositive(Pow(5, a), Pow(2, b));
  }

  /** The two ratios, numeral to midpoint and digits to b/d, are the same. */
  lemma ScalingKeepsRatio(whole: nat, v: nat, nd: nat, e0: int, p2: int, sh: nat, vb: nat, vd: nat)
    requires whole > 0
    requires vb == (2 * v + 1) * Pow(5, Above(-(nd + e0))) * Pow(2, Above(p2 - 1 - (nd + e0)) + sh)
    requires vd == Pow(5, Above(nd + e0)) * Pow(2, Above(-(p2 - 1 - (nd + e0))) + sh)
    ensures whole * vd > 0 && vb * Pow(10, nd) > 0 && DecimalSide(whole, e0, p2) > 0 && BinarySide(v, e0, p2) > 0
    ensures whole * vd * BinarySide(v, e0, p2) == vb * Pow(10, nd) * DecimalSide(whole, e0, p2)
  {
    hide Pow, FiveTwo;
    var p5 := nd + e0;
    var q2 := p2 - 1 - p5;
    var m := 2 * v + 1;
    var fb, fd := FiveTwo(Above(-p5), Above(q2) + sh), FiveTwo(Above(p5), Above(-q2) + sh);
    var gd, gb := FiveTwo(Above(e0), Above(e0) + Above(1 - p2)), FiveTwo(Above(-e0), Above(-e0) + Above(p2 - 1));
    var t := FiveTwo(nd, nd);
    assert vb == m * fb by { FiveTwoDef(Above(-p5), Above(q2) + sh, m); }
    assert vd == fd by { FiveTwoDef(Above(p5), Above(-q2) + sh, 1); }
    assert Pow(10, nd) == t by { TenIsFiveTwo(nd); }
    assert DecimalSide(whole, e0, p2) == whole * gd by { SideFactor(whole, Above(e0), Above(1 - p2)); }
    assert BinarySide(v, e0, p2) == m * gb by { SideFactor(m, Above(-e0), Above(p2 - 1)); }
    assert fd * gb == fb * t * gd by {
      FiveTwoProduct(Above(p5), Above(-q2) + sh, Above(-e0), Above(-e0) + Above(p2 - 1));
      FiveTwoProduct(Above(-p5), Above(q2) + sh, nd, nd);
      FiveTwoProduct(Above(-p5) + nd, Above(q2) + sh + nd, Above(e0), Above(e0) + Above(1 - p2));
    }
    FiveTwoPositive(Above(-p5), Above(q2) + sh);
    FiveTwoPositive(Above(p5), Above(-q2) + sh);
    FiveTwoPositive(Above(e0), Above(e0) + Above(1 - p2));
    FiveTwoPositive(Above(-e0), Above(-e0) + Above(p2 - 1));
    FiveTwoPositive(nd, nd);
    RatioArithmetic(whole, m, fb, fd, gd, gb, t);
  }

  lemma FiveTwoDef(a: nat, b: nat, m: nat)
    ensures m * Pow(5, a) * Pow(2, b) == m * FiveTwo(a, b)
    ensures Pow(5, a) * Pow(2, b) == FiveTwo(a, b)
  {
    MulAssoc(m, Pow(5, a), Pow(2, b));
  }

  lemma SideFactor(m: nat, a: nat, b: nat)
    ensures m * Pow(10, a) * Pow(2, b) == m * FiveTwo(a, a + b)
  {
    TenIsFiveTwo(a);
    PowAdd(2, a, b);
    MulAssoc(Pow(5, a), Pow(2, a), Pow(2, b));
    MulAssoc(m, Pow(10, a), Pow(2, b));
  }

  lemma RatioArithmetic(w: nat, m: nat, fb: nat, fd: nat, gd: nat, gb: nat, t: nat)
    requires w > 0 && m > 0 && fb > 0 && fd > 0 && gd > 0 && gb > 0 && t > 0
    requires fd * gb == fb * t * gd
    ensures w * fd > 0 && m * fb * t > 0 && w * gd > 0 && m * gb > 0
    ensures w * fd * (m * gb) == m * fb * t * (w * gd)
  {
    ProductPositive(w, fd);
    ProductPositive(m, fb);
    ProductPositive(m * fb, t);
    ProductPositive(w, gd);
    ProductPositive(m, gb);
    MulShuffle(w, fd, m, gb);
    MulAssoc(m, fb, t);
    MulShuffle(m, fb * t, w, gd);
    assert w * m == m * w;
  }

  // ---------------------------------------------------------------- a one-word divisor never meets an exact tie

  /** What sd2b promises about mantissa and exponent: full precision, or the smallest exponent. */
  predicate DoublePrecision(v: nat, p2: int) {
    v >= 0x10_0000_0000_0000 || p2 == -1074
  }

  lemma FiveToThe13(a: nat)
    requires Pow(5, a) < 0x1000_0000
    ensures a <= 12
  {
    assert Pow(5, 5) == 3125 && Pow(5, 3) == 125;
    PowAdd(5, 5, 5);
    PowAdd(5, 10, 3);
    if a >= 13 {
      PowMonotone(5, 13, a);
    }
  }

  lemma TenTo13()
    ensures Pow(10, 13) == 10_000_000_000_000
  {
    assert Pow(10, 5) == 100_000;
    PowAdd(10, 5, 5);
    assert Pow(10, 3) == 1000;
    PowAdd(10, 10, 3);
  }

  lemma HugePower()
    ensures Pow(2, 1075) >= 0x1000_0000 * 10_000_000_000_000
  {
    Pow2Of32();
    PowAdd(2, 32, 32);
    PowAdd(2, 64, 32);
    PowMonotone(2, 96, 1075);
  }

  /** A subnormal midpoint is far below every numeral whose scaled ratio fits one word. */
  lemma SubnormalTooSmall(whole: nat, m: nat, nd: nat, e0: int)
    requires nd > 0 && whole >= Pow(10, nd - 1) && m < 0x1000_0000 && -(nd + e0) <= 12
    ensures m * Pow(10, Above(-e0)) < whole * Pow(10, Above(e0)) * Pow(2, 1075)
  {
    hide Pow;
    HugePower();
    PowPositive(10, nd - 1);
    PowPositive(10, Above(e0));
    PowPositive(10, 13);
    TenTo13();
    var big, t, w := Pow(2, 1075), Pow(10, Above(e0)), Pow(10, nd - 1);
    PowAdd(10, nd - 1, 13);
    PowMonotone(10, Above(-e0), nd - 1 + 13);
    var u := Pow(10, Above(-e0));
    assert u <= w * 10_000_000_000_000;
    MulMonotone(m, u, w * 10_000_000_000_000);
    MulStrict(w, m * 10_000_000_000_000, big);
    assert m * (w * 10_000_000_000_000) == w * (m * 10_000_000_000_000);
    assert w * big <= whole * t * big by {
      MulAtLeast(whole, t);
      MulMonotone(big, w, whole * t);
    }
  }

  /** With a double's mantissa and exponent, one divisor word and an exact tie exclude each other. */
  lemma NoLostZero(whole: nat, v: nat, nd: nat, e0: int, p2: int, sh: nat, vb: nat, vd: nat)
    requires nd > 0 && Pow(10, nd - 1) <= whole < Pow(10, nd) && DoublePrecision(v, p2)
    requires vb == (2 * v + 1) * Pow(5, Above(-(nd + e0))) * Pow(2, Above(p2 - 1 - (nd + e0)) + sh)
    requires vd == Pow(5, Above(nd + e0)) * Pow(2, Above(-(p2 - 1 - (nd + e0))) + sh)
    requires vd < 0x1000_0000
    ensures whole * vd != vb * Pow(10, nd)
  {
    hide Pow, DecimalSide, BinarySide;
    if whole * vd == vb * Pow(10, nd) {
      PowPositive(10, nd - 1);
      ScalingKeepsRatio(whole, v, nd, e0, p2, sh, vb, vd);
      assert vb < vd by {
        PowPositive(10, nd);
        if vb >= vd {
          MulMonotone(Pow(10, nd), vd, vb);
          MulMonotone(vd, whole + 1, Pow(10, nd));
          PositiveFactor(whole, vd);
        }
      }
      SmallProduct(2 * v + 1, Pow(5, Above(-(nd + e0))), Pow(2, Above(p2 - 1 - (nd + e0)) + sh), vb);
      FiveToThe13(Above(-(nd + e0)));
      SameRatio(whole * vd, vb * Pow(10, nd), DecimalSide(whole, e0, p2), BinarySide(v, e0, p2));
      SubnormalSides(whole, v, e0);
      SubnormalTooSmall(whole, 2 * v + 1, nd, e0);
    }
  }

  lemma SubnormalSides(whole: nat, v: nat, e0: int)
    ensures DecimalSide(whole, e0, -1074) == whole * Pow(10, Above(e0)) * Pow(2, 1075)
    ensures BinarySide(v, e0, -1074) == (2 * v + 1) * Pow(10, Above(-e0))
  {
    hide Pow;
    PowZero(2);
  }

  lemma PositiveFactor(x: nat, y: nat)
    requires x * y > 0
    ensures y > 0
  {
  }

  lemma SmallProduct(m: nat, f: nat, t: nat, vb: nat)
    requires vb == m * f * t && 0 < m && 0 < vb
    ensures m <= vb && f <= vb
  {
    PositiveFactor(m * f, t);
    PositiveFactor(m, f);
    MulAtLeast(m * f, t);
    MulAtLeast(m, f);
    MulAtLeast(f, m);
  }

  // ---------------------------------------------------------------- bigcomp

  lemma FirstPrefix(s: seq<char>, nd0: nat, nd: nat)
    requires IsDigitString(s, nd0, nd) && nd > 0
    ensures Prefix(s, nd0, nd, 0) == 0 && Prefix(s, nd0, nd, 1) == DigitAt(s, nd0, nd, 0)
  {
  }

  /** A digit string without leading zero spells a number of exactly nd digits. */
  lemma DigitCount(s: seq<char>, nd0: nat, nd: nat)
    requires IsDigitString(s, nd0, nd) && nd > 0 && DigitAt(s, nd0, nd, 0) > 0
    ensures Pow(10, nd - 1) <= Prefix(s, nd0, nd, nd) < Pow(10, nd)
  {
    hide Pow, Prefix, DigitAt, IsDigitString;
    PrefixBounds(s, nd0, nd, 0, nd);
    PrefixBounds(s, nd0, nd, 1, nd);
    FirstPrefix(s, nd0, nd);
    MulMonotone(Pow(10, nd - 1), 1, Prefix(s, nd0, nd, 1));
  }

  /** The digit comparison on the scaled operands answers the original question. */
  lemma GapVerdict(s: seq<char>, nd0: nat, nd: nat, e0: int, v: nat, p2: int, sh: nat, vb: nat, vd: nat)
    requires IsDigitString(s, nd0, nd) && nd > 0 && DigitAt(s, nd0, nd, 0) > 0 && DoublePrecision(v, p2)
    requires vb == (2 * v + 1) * Pow(5, Above(-(nd + e0))) * Pow(2, Above(p2 - 1 - (nd + e0)) + sh)
    requires vd == Pow(5, Above(nd + e0)) * Pow(2, Above(-(p2 - 1 - (nd + e0))) + sh)
    ensures vd < 0x1000_0000 ==> Gap(s, nd0, nd, vb, vd) != 0
    ensures SameSign(Gap(s, nd0, nd, vb, vd),
                     DecimalSide(Prefix(s, nd0, nd, nd), e0, p2) - BinarySide(v, e0, p2))
  {
    hide Pow, Prefix, DecimalSide, BinarySide;
    var whole := Prefix(s, nd0, nd, nd);
    DigitCount(s, nd0, nd);
    PowPositive(10, nd - 1);
    ScalingKeepsRatio(whole, v, nd, e0, p2, sh, vb, vd);
    SameRatio(whole * vd, vb * Pow(10, nd), DecimalSide(whole, e0, p2), BinarySide(v, e0, p2));
    if vd < 0x1000_0000 {
      NoLostZero(whole, v, nd, e0, p2, sh, vb, vd);
    }
  }

  /** d with one word and four leading zero bits is below 2^28. */
  lemma OneWordDivisor(s: seq<Word>)
    requires FourLeadingZeros(s)
    ensures Val(s) > 0 && (|s| == 1 ==> Val(s) < 0x1000_0000)
  {
    TopWord(s);
    ValZero(s);
    if |s| == 1 {
      ValSingle(s[0]);
      assert s == [s[0]];
    }
  }

  /** Midpoint and one, scaled to an integer ratio with the divisor aligned for Quorem. */
  method ScaleOperands(c: PowersOfFive, b0: Bigint, p2: int, p5: int) returns (b: Bigint, d: Bigint, ghost sh: nat)
    requires c.Valid() && b0.Normal() && Separate(c, b0)
    modifies c, b0, b0.x
    ensures c.Valid() && Separate(c, b) && (b == b0 || (fresh(b) && fresh(b.x)))
    ensures b != d && b.x != d.x && b.Normal() && d.Normal() && FourLeadingZeros(d.x[..d.wds])
    ensures b.Value() == (2 * old(b0.Value()) + 1) * Pow(5, Above(-p5)) * Pow(2, Above(p2) + sh)
    ensures d.Value() == Pow(5, Above(p5)) * Pow(2, Above(-p2) + sh)
  {
    hide Val, Pow, FourLeadingZeros;
    b := Midpoint(b0);
    b, d := ScaleByFives(c, b, p5);
    PowPositive(5, Above(p5));
    b, d, sh := ScaleByTwos(b, d, p2);
  }

  /** Integer side of bigcomp: the exact sign of numeral minus midpoint. */
  method CompareWithMidpoint(c: PowersOfFive, b0: Bigint, p2: int, s: seq<char>, nd0: nat, nd: nat, e0: int)
    returns (dd: int)
    requires c.Valid() && b0.Normal() && Separate(c, b0) && DoublePrecision(b0.Value(), p2)
    requires IsDigitString(s, nd0, nd) && nd > 0
    requires DigitAt(s, nd0, nd, 0) > 0 && DigitAt(s, nd0, nd, nd - 1) > 0
    modifies c, b0, b0.x
    ensures c.Valid()
    ensures SameSign(dd, DecimalSide(Prefix(s, nd0, nd, nd), e0, p2) - BinarySide(old(b0.Value()), e0, p2))
  {
    hide Val, Pow, FourLeadingZeros, Prefix, DecimalSide, BinarySide, Gap;
    ghost var v := b0.Value();
    var p5 := nd + e0;
    var b, d, sh := ScaleOperands(c, b0, p2 - 1 - p5, p5);
    GapVerdict(s, nd0, nd, e0, v, p2, sh, b.Value(), d.Value());
    OneWordDivisor(d.x[..d.wds]);
    dd := CompareDigits(b, d, s, nd0, nd);
  }

  /** whole * 10^e0 rounds to (v + 1) * 2^p2 rather than v * 2^p2: nearest, ties to even. */
  ghost predicate RoundsUp(whole: nat, e0: int, v: nat, p2: int) {
    DecimalSide(whole, e0, p2) > BinarySide(v, e0, p2) ||
    (DecimalSide(whole, e0, p2) == BinarySide(v, e0, p2) && v % 2 == 1)
  }

  /**
   What the decision makes of a candidate with the numeral between v * 2^p2 and (v + 1) * 2^p2: the nearer of the two,
   and of two equally near ones the even one. On the scale of DecimalSide a unit of v is twice the factor below.
   */
  lemma NearestEven(whole: nat, e0: int, v: nat, p2: int)
    requires var k := Pow(10, Above(-e0)) * Pow(2, Above(p2 - 1));
      2 * v * k <= DecimalSide(whole, e0, p2) <= 2 * (v + 1) * k
    ensures var k := Pow(10, Above(-e0)) * Pow(2, Above(p2 - 1));
      var r := if RoundsUp(whole, e0, v, p2) then v + 1 else v;
      var error := DecimalSide(whole, e0, p2) - 2 * r * k;
      -k <= error <= k && (error == k || error == -k ==> r % 2 == 0)
  {
    hide Pow;
    var k := Pow(10, Above(-e0)) * Pow(2, Above(p2 - 1));
    PowPositive(10, Above(-e0));
    PowPositive(2, Above(p2 - 1));
    ProductPositive(Pow(10, Above(-e0)), Pow(2, Above(p2 - 1)));
    MulAssoc(2 * v + 1, Pow(10, Above(-e0)), Pow(2, Above(p2 - 1)));
    assert BinarySide(v, e0, p2) == 2 * v * k + k;
    assert 2 * (v + 1) * k == 2 * v * k + 2 * k;
  }

  /** Whether bigcomp moves the approximation v * 2^p2 one unit up: past the midpoint, or at it with v odd. */
  method Bigcomp(c: PowersOfFive, b: Bigint, p2: int, s: seq<char>, nd0: nat, nd: nat, e0: int)
    returns (roundUp: bool)
    requires c.Valid() && b.Normal() && Separate(c, b) && DoublePrecision(b.Value(), p2)
    requires IsDigitString(s, nd0, nd) && nd > 0
    requires DigitAt(s, nd0, nd, 0) > 0 && DigitAt(s, nd0, nd, nd - 1) > 0
    modifies c, b, b.x
    ensures c.Valid()
    ensures roundUp <==> RoundsUp(Prefix(s, nd0, nd, nd), e0, old(b.Value()), p2)
  {
    hide Val, Pow, FourLeadingZeros, Prefix, DecimalSide, BinarySide;
    LowBit(b.x[..b.wds]);
    var odd := b.x[0] % 2 == 1;
    var dd := CompareWithMidpoint(c, b, p2, s, nd0, nd, e0);
    roundUp := dd > 0 || (dd == 0 && odd);
  }
}
