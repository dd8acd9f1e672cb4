/**
 The search for a multiplier and a shift that convert between clock frequencies,
 clocks_calc_mult_shift in so3/kernel/timer.c.
 */
module Clocks {
  import opened Powers
  import opened Words

  /** A frequency or a number of seconds as the source holds it. */
  type U32 = x: int | 0 <= x < 0x1_0000_0000

  /** to / from scaled by 2^sft, rounded to the nearest integer. */
  function Scaled(from: U32, to: U32, sft: nat): (r: int)
    requires from > 0
  {
    (to * Pow(2, sft) + from / 2) / from
  }

  /** The accumulation limit: cycles in range are below 2^(64 - sftacc), and 32 - sftacc is as small as that allows. */
  ghost predicate RangeShift(range: nat, sftacc: nat) {
    sftacc <= 32 && range / 0x1_0000_0000 < Pow(2, 32 - sftacc) &&
    (sftacc < 32 ==> range / 0x1_0000_0000 >= Pow(2, 31 - sftacc))
  }

  /** A shift the search accepts. */
  ghost predicate Passes(from: U32, to: U32, sftacc: nat, sft: nat)
    requires from > 0
  {
    Scaled(from, to, sft) < Pow(2, sftacc)
  }

  // ---------------------------------------------------------------- arithmetic

  /** Halving tmp once more. */
  lemma Halve(tmp: nat, t: nat, k: nat)
    requires tmp * Pow(2, k) <= t < (tmp + 1) * Pow(2, k)
    ensures tmp / 2 * Pow(2, k + 1) <= t < (tmp / 2 + 1) * Pow(2, k + 1)
  {
    var p, h := Pow(2, k), tmp / 2;
    PowPositive(2, k);
    MulMonotone(p, 2 * h, tmp);
    MulMonotone(p, tmp + 1, 2 * h + 2);
    assert h * (2 * p) == p * (2 * h);
    assert (h + 1) * (2 * p) == p * (2 * h + 2);
    assert tmp * p == p * tmp && (tmp + 1) * p == p * (tmp + 1);
  }

  lemma BelowThirtyTwo(tmp: nat, t: nat, k: nat)
    requires tmp >= 1 && tmp * Pow(2, k) <= t < 0x1_0000_0000
    ensures k < 32
  {
    PowPositive(2, k);
    MulMonotone(Pow(2, k), 1, tmp);
    assert tmp * Pow(2, k) == Pow(2, k) * tmp;
    if k >= 32 {
      PowMonotone(2, 32, k);
      Pow2Of32();
    }
  }

  lemma ProductFits(a: U32, b: U32)
    ensures 0 <= a * b < 0x1_0000_0000_0000_0000
  {
    MulMonotone(a, b, 0xffff_ffff);
    MulMonotone(a, 0, b);
  }

  /** Rounding to nearest, ties up: at most half of from away, and less than half below. */
  lemma Nearest(from: U32, to: U32, sft: nat)
    requires from > 0
    ensures var m, t := Scaled(from, to, sft), to * Pow(2, sft);
      0 <= m && 2 * (m * from - t) <= from && 2 * (t - m * from) < from
  {
    PowPositive(2, sft);
    MulMonotone(to, 0, Pow(2, sft));
    var n := to * Pow(2, sft) + from / 2;
    var m, r := n / from, n % from;
    assert n == m * from + r;
    DivNonnegative(n, from);
  }

  /** No intermediate value leaves 64 bits. */
  lemma NumeratorFits(from: U32, to: U32, sft: nat)
    requires sft <= 32
    ensures 0 <= to * Pow(2, sft) + from / 2 < 0x1_0000_0000_0000_0000
  {
    PowPositive(2, sft);
    Pow2Of32();
    PowMonotone(2, sft, 32);
    MulMonotone(to, Pow(2, sft), 0x1_0000_0000);
    MulMonotone(to, 0, Pow(2, sft));
  }

  // ---------------------------------------------------------------- what an accepted pair gives

  /** Multiplying any cycle count in range by the multiplier stays within 64 bits. */
  lemma NoOverflow(range: nat, sftacc: nat, mult: nat, cycles: nat)
    requires RangeShift(range, sftacc) && mult < Pow(2, sftacc) && cycles <= range
    ensures cycles * mult < 0x1_0000_0000_0000_0000 && mult < 0x1_0000_0000
  {
    hide Pow;
    PowPositive(2, 32 - sftacc);
    PowPositive(2, sftacc);
    Pow2Of32();
    PowAdd(2, 32 - sftacc, sftacc);
    PowMonotone(2, sftacc, 32);
    InRange(range, Pow(2, 32 - sftacc), Pow(2, sftacc), mult, cycles);
  }

  lemma InRange(range: nat, p: nat, q: nat, mult: nat, cycles: nat)
    requires p * q == 0x1_0000_0000 && p > 0 && q > 0 && range / 0x1_0000_0000 < p && mult < q && cycles <= range
    ensures cycles * mult < 0x1_0000_0000_0000_0000
  {
    Expand(p, q);
    var top: nat := p * 0x1_0000_0000 - 1;
    assert range <= top;
    BothBelow(cycles, mult, top, q - 1);
  }

  lemma BothBelow(a: nat, b: nat, x: nat, y: nat)
    requires a <= x && b <= y
    ensures a * b <= y * x
  {
    MulMonotone(a, b, y);
    MulMonotone(y, a, x);
  }

  lemma Expand(p: nat, q: nat)
    requires p * q == 0x1_0000_0000 && p > 0 && q > 0
    ensures (q - 1) * (p * 0x1_0000_0000 - 1) < 0x1_0000_0000_0000_0000
  {
    MulAssoc(q, p, 0x1_0000_0000);
    assert q * p == p * q;
    assert (q - 1) * (p * 0x1_0000_0000 - 1) == q * (p * 0x1_0000_0000) - q - p * 0x1_0000_0000 + 1;
  }

  /** The scaled count is within cycles / 2^(shift + 1) of cycles * to / from, written without fractions. */
  lemma Accuracy(from: U32, to: U32, shift: nat, cycles: nat)
    requires from > 0
    ensures var m := Scaled(from, to, shift);
      var error := cycles * (m * from) - cycles * (to * Pow(2, shift));
      2 * error <= cycles * from && -2 * error <= cycles * from
  {
    hide Scaled, Pow;
    Nearest(from, to, shift);
    ErrorScales(cycles, Scaled(from, to, shift) * from, to * Pow(2, shift), from);
  }

  lemma ErrorScales(c: nat, a: int, t: int, d: int)
    requires 2 * (a - t) <= d && 2 * (t - a) <= d
    ensures 2 * (c * a - c * t) <= c * d && -2 * (c * a - c * t) <= c * d
  {
    var e := a - t;
    MulMonotone(c, 2 * e, d);
    MulMonotone(c, -2 * e, d);
    assert c * a - c * t == c * e;
    assert c * (2 * e) == 2 * (c * e) && c * (-2 * e) == -2 * (c * e);
  }

  /** A larger shift never gives a smaller multiplier, so the search finds something exactly when shift 1 passes. */
  lemma ScaledMonotone(from: U32, to: U32, a: nat, b: nat)
    requires from > 0 && a <= b
    ensures Scaled(from, to, a) <= Scaled(from, to, b)
  {
    PowMonotone(2, a, b);
    MulMonotone(to, Pow(2, a), Pow(2, b));
    QuotientMonotone(to * Pow(2, a) + from / 2, to * Pow(2, b) + from / 2, from);
  }

  lemma QuotientMonotone(m: int, n: int, d: nat)
    requires m <= n && d > 0
    ensures m / d <= n / d
  {
    var p, q := m / d, n / d;
    assert m == p * d + m % d && n == q * d + n % d;
    assert p > q ==> p * d >= q * d + d by {
      if p > q {
        MulMonotone(d, 1, p - q);
      }
    }
  }

  /** 2^k is the least power of two above x. */
  ghost predicate LeastPower(x: nat, k: nat) {
    x < Pow(2, k) && (k > 0 ==> x >= Pow(2, k - 1))
  }

  lemma LeastPowerUnique(x: nat, j: nat, k: nat)
    requires LeastPower(x, j) && LeastPower(x, k)
    ensures j == k
  {
    hide Pow;
    if j < k {
      PowMonotone(2, j, k - 1);
    } else if k < j {
      PowMonotone(2, k, j - 1);
    }
  }

  /** A shift is accepted exactly if its multiplier, times the least power of two above range / 2^32, is below 2^32. */
  lemma PassesExactly(from: U32, to: U32, range: nat, sftacc: nat, sft: nat, k: nat)
    requires from > 0 && RangeShift(range, sftacc) && LeastPower(range / 0x1_0000_0000, k)
    ensures Passes(from, to, sftacc, sft) <==> Scaled(from, to, sft) * Pow(2, k) < 0x1_0000_0000
  {
    hide Pow, Scaled, RangeShift, LeastPower;
    RangeIsLeast(range, sftacc);
    LeastPowerUnique(range / 0x1_0000_0000, k, 32 - sftacc);
    PowAdd(2, sftacc, k);
    Pow2Of32();
    PowPositive(2, k);
    ProductBelow(Scaled(from, to, sft), Pow(2, sftacc), Pow(2, k));
  }

  lemma RangeIsLeast(range: nat, sftacc: nat)
    requires RangeShift(range, sftacc)
    ensures sftacc <= 32 && range / 0x1_0000_0000 >= 0 && LeastPower(range / 0x1_0000_0000, 32 - sftacc)
  {
  }

  lemma ProductBelow(m: int, p: nat, q: nat)
    requires q > 0
    ensures m < p <==> m * q < p * q
  {
    if m < p {
      MulStrict(q, m, p);
    } else {
      MulMonotone(q, p, m);
    }
  }

  /** A shift that is not accepted would not do: its multiplier needs more than 32 bits, or its products reach 2^63. */
  lemma LargerOverflows(from: U32, to: U32, range: nat, sftacc: nat, sft: nat)
    requires from > 0 && RangeShift(range, sftacc) && !Passes(from, to, sftacc, sft)
    ensures Scaled(from, to, sft) >= 0x1_0000_0000 || range * Scaled(from, to, sft) >= 0x8000_0000_0000_0000
  {
    hide Pow, Scaled;
    Pow2Of32();
    if sftacc < 32 {
      var m := Scaled(from, to, sft);
      var h, p, q := range / 0x1_0000_0000, Pow(2, 31 - sftacc), Pow(2, sftacc);
      PowAdd(2, 31 - sftacc, sftacc);
      PowStep(2, 31);
      PowPositive(2, sftacc);
      BothBelow(p * 0x1_0000_0000, q, range, m);
      MulAssoc(0x1_0000_0000, p, q);
    }
  }

  // ---------------------------------------------------------------- the search

  method LimitShift(range: nat) returns (sftacc: nat)
    requires range < 0x1_0000_0000_0000_0000
    ensures RangeShift(range, sftacc)
  {
    hide Pow;
    var t := range / 0x1_0000_0000;
    var tmp := t;
    sftacc := 32;
    PowOne();
    while tmp != 0
      invariant 0 <= sftacc <= 32 && tmp >= 0 && tmp * Pow(2, 32 - sftacc) <= t < (tmp + 1) * Pow(2, 32 - sftacc)
      invariant tmp == 0 && sftacc < 32 ==> t >= Pow(2, 31 - sftacc)
      decreases tmp
    {
      BelowThirtyTwo(tmp, t, 32 - sftacc);
      Halve(tmp, t, 32 - sftacc);
      LastBit(tmp, t, 32 - sftacc);
      tmp := tmp / 2;
      sftacc := sftacc - 1;
    }
  }

  lemma PowOne()
    ensures Pow(2, 0) == 1
  {
  }

  lemma LastBit(tmp: nat, t: nat, k: nat)
    requires tmp >= 1 && tmp * Pow(2, k) <= t
    ensures t >= Pow(2, k)
  {
    PowPositive(2, k);
    MulMonotone(Pow(2, k), 1, tmp);
    assert tmp * Pow(2, k) == Pow(2, k) * tmp;
  }

  /** No shift passes for a clock of 1 Hz converted to the highest frequency there is. */
  lemma NothingPasses(sftacc: nat)
    requires sftacc <= 32
    ensures !Passes(1, 0xffff_ffff, sftacc, 1)
  {
    hide Pow;
    Pow2Of32();
    PowMonotone(2, sftacc, 32);
    PowTwo();
  }

  lemma PowTwo()
    ensures Pow(2, 1) == 2
  {
    assert Pow(2, 0) == 1;
  }

  /** Hence the search fails for such a pair whatever the range. */
  method FailingPair(maxsec: U32) returns (mult: int, shift: nat)
    ensures shift == 0 && mult == 0xffff_fffe
  {
    ghost var sftacc;
    mult, shift, sftacc := CalcMultShift(1, 0xffff_ffff, maxsec);
    assert sftacc <= 32;
    NothingPasses(sftacc);
    PowTwo();
  }

  /**
   clocks_calc_mult_shift. Found by the break: the largest shift up to 32 that passes, with its own multiplier.
   Otherwise the shift is 0 while the multiplier is the low word of the one for shift 1.
   */
  method CalcMultShift(from: U32, to: U32, maxsec: U32) returns (mult: int, shift: nat, ghost sftacc: nat)
    requires from > 0
    ensures maxsec * from >= 0 && RangeShift(maxsec * from, sftacc)
    ensures shift > 0 <==> Passes(from, to, sftacc, 1)
    ensures shift > 0 ==> shift <= 32 && Passes(from, to, sftacc, shift) && mult == Scaled(from, to, shift)
    ensures forall s :: shift < s <= 32 ==> !Passes(from, to, sftacc, s)
    ensures shift == 0 ==> mult == Scaled(from, to, 1) % 0x1_0000_0000
  {
    hide Scaled, RangeShift, Pow;
    ProductFits(maxsec, from);
    var acc := LimitShift(maxsec * from);
    sftacc := acc;
    var sft: nat, tmp := 32, 0;
    while sft > 0
      invariant sft <= 32 && (forall s :: sft < s <= 32 ==> !Passes(from, to, acc, s))
      invariant sft < 32 ==> tmp == Scaled(from, to, sft + 1)
    {
      NumeratorFits(from, to, sft);
      tmp := Scale(from, to, sft);
      if Vanishes(tmp, acc) {
        break;
      }
      sft := sft - 1;
    }
    if sft > 0 {
      ScaledMonotone(from, to, 1, sft);
      AcceptedFits(maxsec * from, acc, tmp);
    }
    mult := tmp % 0x1_0000_0000;
    shift := sft;
  }

  /** The rate to shifted left by sft, divided by from and rounded to the nearest. */
  method Scale(from: U32, to: U32, sft: nat) returns (tmp: int)
    requires from > 0 && sft <= 32
    ensures tmp == Scaled(from, to, sft) >= 0
  {
    Nearest(from, to, sft);
    tmp := to * Pow(2, sft);
    tmp := tmp + from / 2;
    tmp := tmp / from;
  }

  /** (tmp >> sftacc) == 0. */
  predicate Vanishes(tmp: int, sftacc: nat)
    ensures Vanishes(tmp, sftacc) <==> 0 <= tmp < Pow(2, sftacc)
  {
    PowPositive(2, sftacc);
    ZeroQuotient(tmp, Pow(2, sftacc));
    tmp / Pow(2, sftacc) == 0
  }

  lemma ZeroQuotient(n: int, d: nat)
    requires d > 0
    ensures n / d == 0 <==> 0 <= n < d
  {
    if 0 <= n < d {
      DivisionUnique(n, d, 0, n);
    }
  }

  lemma AcceptedFits(range: nat, sftacc: nat, mult: int)
    requires RangeShift(range, sftacc) && 0 <= mult < Pow(2, sftacc)
    ensures mult % 0x1_0000_0000 == mult
  {
    hide RangeShift, Pow;
    NoOverflow(range, sftacc, mult, 0);
  }
}
