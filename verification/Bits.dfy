/** Bitwise or, shifts and masks of machine words, on integers. */
module Bits {
  import opened Powers

  /** Bitwise or of two non-negative integers. */
  function BitOr(a: nat, b: nat): nat {
    if a == 0 && b == 0 then 0
    else 2 * BitOr(a / 2, b / 2) + (if a % 2 == 1 || b % 2 == 1 then 1 else 0)
  }

  lemma {:induction false} BitOrZero(a: nat)
    ensures BitOr(a, 0) == a && BitOr(0, a) == a
  {
    if a > 0 {
      BitOrZero(a / 2);
    }
  }

  /** Or-ing bits below position k onto a multiple of 2^k adds them. */
  lemma {:induction false} BitOrDisjoint(hi: nat, lo: nat, k: nat)
    requires lo < Pow(2, k)
    ensures BitOr(hi * Pow(2, k), lo) == hi * Pow(2, k) + lo
  {
    if k == 0 {
      BitOrZero(hi);
    } else {
      var p := Pow(2, k - 1);
      BitOrDisjoint(hi, lo / 2, k - 1);
      BitOrDouble(hi * p, lo);
      MulAssoc(2, hi, p);
      MulAssoc(hi, 2, p);
    }
  }

  lemma BitOrDouble(h: nat, lo: nat)
    ensures BitOr(2 * h, lo) == 2 * BitOr(h, lo / 2) + lo % 2
  {
  }

  predicate Bit(w: nat, i: nat)
    decreases i
  {
    if i == 0 then w % 2 == 1 else Bit(w / 2, i - 1)
  }

  /** w >> r. */
  function Shr(w: nat, r: nat): nat
    decreases r
  {
    if r == 0 then w else Shr(w / 2, r - 1)
  }

  /** w << r, not yet cut to the word. */
  function Shl(w: nat, r: nat): nat
    decreases r
  {
    if r == 0 then w else 2 * Shl(w, r - 1)
  }

  /** w & ((1 << r) - 1). */
  function Low(w: nat, r: nat): nat
    decreases r
  {
    if r == 0 then 0 else 2 * Low(w / 2, r - 1) + w % 2
  }

  /** The three operations in the terms of arithmetic. */
  lemma {:induction false} ShiftsAndMasks(w: nat, r: nat)
    ensures Pow(2, r) > 0 && Shr(w, r) == w / Pow(2, r) && Shl(w, r) == w * Pow(2, r) && Low(w, r) == w % Pow(2, r)
    decreases r
  {
    PowPositive(2, r);
    if r > 0 {
      ShiftsAndMasks(w / 2, r - 1);
      ShiftsAndMasks(w, r - 1);
      DivisionChain(w, 2, Pow(2, r - 1));
      MulAssoc(w, 2, Pow(2, r - 1));
      MulAssoc(2, w, Pow(2, r - 1));
    }
  }

  lemma {:induction false} ZeroBits(i: nat)
    ensures !Bit(0, i)
    decreases i
  {
    if i > 0 {
      ZeroBits(i - 1);
    }
  }

  lemma {:induction false} ShrBits(w: nat, r: nat, i: nat)
    ensures Bit(Shr(w, r), i) == Bit(w, i + r)
    decreases r
  {
    if r > 0 {
      ShrBits(w / 2, r - 1, i);
    }
  }

  lemma {:induction false} ShlBits(w: nat, r: nat, i: nat)
    ensures Bit(Shl(w, r), i) == (i >= r && Bit(w, i - r))
    decreases r
  {
    if r > 0 && i > 0 {
      ShlBits(w, r - 1, i - 1);
      assert 2 * Shl(w, r - 1) / 2 == Shl(w, r - 1);
    }
  }

  lemma {:induction false} LowBits(w: nat, r: nat, i: nat)
    ensures Bit(Low(w, r), i) == (i < r && Bit(w, i))
    decreases r
  {
    if r == 0 {
      ZeroBits(i);
    } else if i > 0 {
      LowBits(w / 2, r - 1, i - 1);
      assert (2 * Low(w / 2, r - 1) + w % 2) / 2 == Low(w / 2, r - 1);
    }
  }

  lemma OrHalf(v: nat, w: nat)
    ensures BitOr(v, w) / 2 == BitOr(v / 2, w / 2) && (BitOr(v, w) % 2 == 1 <==> v % 2 == 1 || w % 2 == 1)
  {
    if v == 0 && w == 0 {
      assert BitOr(0, 0) == 0;
    }
  }

  lemma {:induction false} OrBits(v: nat, w: nat, i: nat)
    ensures Bit(BitOr(v, w), i) == (Bit(v, i) || Bit(w, i))
    decreases i
  {
    hide BitOr;
    OrHalf(v, w);
    if i > 0 {
      OrBits(v / 2, w / 2, i - 1);
    }
  }

  lemma {:induction false} HighBitsZero(w: nat, b: nat, i: nat)
    requires w < Pow(2, b) && i >= b
    ensures !Bit(w, i)
    decreases i
  {
    if b == 0 {
      ZeroBits(i);
    } else if i > 0 {
      HighBitsZero(w / 2, b - 1, i - 1);
    }
  }

  // ---------------------------------------------------------------- bitwise and

  /** Bitwise and of two non-negative integers. */
  function BitAnd(a: nat, b: nat): nat {
    if a == 0 && b == 0 then 0
    else 2 * BitAnd(a / 2, b / 2) + (if a % 2 == 1 && b % 2 == 1 then 1 else 0)
  }

  lemma AndHalf(v: nat, w: nat)
    ensures BitAnd(v, w) == 2 * BitAnd(v / 2, w / 2) + if v % 2 == 1 && w % 2 == 1 then 1 else 0
  {
    if v == 0 && w == 0 {
      assert BitAnd(0, 0) == 0;
    }
  }

  /** And-ing with 2^n - 1 changes no number below 2^n. */
  lemma {:induction false} AndAllOnes(x: nat, n: nat)
    requires x < Pow(2, n)
    ensures Pow(2, n) > 0 && BitAnd(x, Pow(2, n) - 1) == x
    decreases n
  {
    hide BitAnd;
    PowPositive(2, n);
    AndHalf(x, Pow(2, n) - 1);
    if n > 0 {
      PowPositive(2, n - 1);
      AndAllOnes(x / 2, n - 1);
      assert (2 * Pow(2, n - 1) - 1) / 2 == Pow(2, n - 1) - 1;
    } else {
      AndZero();
    }
  }

  lemma AndZero()
    ensures BitAnd(0, 0) == 0
  {
  }

  /** Two's complement of 2^k as a mask of n bits clears the k low bits. */
  lemma {:induction false} AndNegative(x: nat, n: nat, k: nat)
    requires k <= n && x < Pow(2, n)
    ensures Pow(2, k) <= Pow(2, n) && BitAnd(x, Pow(2, n) - Pow(2, k)) == x - Low(x, k)
    decreases k
  {
    hide BitAnd;
    if k == 0 {
      AndAllOnes(x, n);
    } else {
      AndNegative(x / 2, n - 1, k - 1);
      AndHalf(x, Pow(2, n) - Pow(2, k));
    }
  }
}
