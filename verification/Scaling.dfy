/**
 The scaling steps of strtod (so3/lib/strtod.c): powers of five with their cache, leading zero bits, digit
 strings.
 */
module Scaling {
  import opened Powers
  import opened Words
  import opened Bigints
  import opened Products
  import Division

  /** A small number as a Bigint (i2b). */
  method FromInt(i: Word) returns (b: Bigint)
    ensures fresh(b) && fresh(b.x) && b.Normal() && b.Value() == i
  {
    b := new Bigint(1);
    b.x[0] := i;
    b.wds := 1;
    ValSingle(i);
    assert b.x[..1] == [i];
  }

  // ---------------------------------------------------------------- pow5mult

  /** What position i of the cache stands for: 5^(2^(i+2)). */
  ghost function CachedPower(i: nat): nat {
    Pow(5, Pow(2, i + 2))
  }

  lemma CachedPowerSquares(i: nat)
    ensures CachedPower(i + 1) == CachedPower(i) * CachedPower(i)
  {
    PowAdd(5, Pow(2, i + 2), Pow(2, i + 2));
    assert Pow(2, i + 3) == 2 * Pow(2, i + 2);
  }

  lemma CachedPowerFirst()
    ensures CachedPower(0) == 625
  {
    assert Pow(2, 2) == 4;
  }

  /** One bit of the exponent per round. */
  lemma PowHalve(p: nat, k: nat)
    ensures Pow(p, k) == (if k % 2 == 1 then p else 1) * Pow(p * p, k / 2)
  {
    PowProduct(p, p, k / 2);
    PowAdd(p, k / 2, k / 2);
    if k % 2 == 1 {
      assert k == 1 + (k / 2 + k / 2);
    } else {
      assert k == k / 2 + k / 2;
    }
  }

  /** The shared list p5s of powers of five. */
  class PowersOfFive {
    var p5s: seq<Bigint>

    ghost var Repr: set<object>

    /** Position i always holds 5^(2^(i+2)). */
    ghost predicate Valid()
      reads this, Repr
    {
      this in Repr &&
      forall i :: 0 <= i < |p5s| ==>
        p5s[i] in Repr && p5s[i].x in Repr && p5s[i].Normal() && p5s[i].Value() == CachedPower(i)
    }

    constructor ()
      ensures Valid() && p5s == [] && fresh(Repr)
    {
      p5s, Repr := [], {this};
    }

    /** Entry i, computed by squaring its predecessor if the list ends there. */
    method Entry(i: nat) returns (p: Bigint)
      requires Valid() && i <= |p5s|
      modifies this
      ensures Valid() && i < |p5s| && p5s[i] == p
      ensures old(p5s) <= p5s && fresh(Repr - old(Repr))
    {
      hide Pow, Val, CachedPower;
      if i < |p5s| {
        return p5s[i];
      }
      if i == 0 {
        p := FromInt(625);
        CachedPowerFirst();
      } else {
        p := Mult(p5s[i - 1], p5s[i - 1]);
        CachedPowerSquares(i - 1);
      }
      p5s, Repr := p5s + [p], Repr + {p, p.x};
    }
  }

  /** The digit 5, 25 or 125 that pow5mult multiplies by first. */
  const P05: seq<nat> := [5, 25, 125]

  lemma SmallPowersOfFive(i: nat)
    requires i < 4
    ensures i > 0 ==> P05[i - 1] == Pow(5, i)
    ensures i == 0 ==> Pow(5, i) == 1
  {
    assert Pow(5, 1) == 5 && Pow(5, 2) == 25;
    assert Pow(5, 3) == 5 * Pow(5, 2);
  }

  lemma SplitExponent(k: nat)
    ensures Pow(5, k) == Pow(5, k % 4) * Pow(CachedPower(0), k / 4)
  {
    PowPower(5, 4, k / 4);
    CachedPowerFirst();
    assert Pow(5, 4) == 625 by {
      SmallPowersOfFive(3);
    }
    PowAdd(5, k % 4, 4 * (k / 4));
  }

  /** b does not share storage with the cache. */
  ghost predicate Separate(c: PowersOfFive, b: Bigint)
    reads c
  {
    b !in c.Repr && b.x !in c.Repr
  }

  /** b * 5^k, extending the shared cache as needed. */
  method Pow5Mult(c: PowersOfFive, b: Bigint, k: nat) returns (r: Bigint)
    requires c.Valid() && b.Normal() && Separate(c, b)
    modifies c, b, b.x
    ensures c.Valid() && old(c.p5s) <= c.p5s && fresh(c.Repr - old(c.Repr))
    ensures r.Normal() && Separate(c, r) && (r == b || (fresh(r) && fresh(r.x)))
    ensures r.Value() == old(b.Value()) * Pow(5, k)
  {
    hide Pow, Val, CachedPower;
    r := b;
    SplitExponent(k);
    SmallPowersOfFive(k % 4);
    ghost var goal := b.Value() * Pow(5, k);
    MulAssoc(b.Value(), Pow(5, k % 4), Pow(CachedPower(0), k / 4));
    if k % 4 != 0 {
      r := MultAdd(b, P05[k % 4 - 1], 0);
    }
    r := Pow5Tail(c, r, k / 4, goal);
  }

  /** The squaring loop: r * 625^k. */
  method Pow5Tail(c: PowersOfFive, b: Bigint, k0: nat, ghost goal: nat) returns (r: Bigint)
    requires c.Valid() && b.Normal() && Separate(c, b)
    requires b.Value() * Pow(CachedPower(0), k0) == goal
    modifies c
    ensures c.Valid() && old(c.p5s) <= c.p5s && fresh(c.Repr - old(c.Repr))
    ensures r.Normal() && Separate(c, r) && (r == b || (fresh(r) && fresh(r.x)))
    ensures r.Value() == goal
  {
    hide Pow, Val, CachedPower;
    r := b;
    var k, i := k0, 0;
    while k != 0
      invariant c.Valid() && old(c.p5s) <= c.p5s && fresh(c.Repr - old(c.Repr)) && i <= |c.p5s|
      invariant r.Normal() && Separate(c, r) && (r == b || (fresh(r) && fresh(r.x)))
      invariant r.Value() * Pow(CachedPower(i), k) == goal
    {
      var p5 := c.Entry(i);
      PowHalve(CachedPower(i), k);
      CachedPowerSquares(i);
      ghost var v := r.Value();
      if k % 2 == 1 {
        r := Mult(r, p5);
        MulAssoc(v, CachedPower(i), Pow(CachedPower(i + 1), k / 2));
      }
      k, i := k / 2, i + 1;
    }
    PowZero(CachedPower(i));
  }

  // ---------------------------------------------------------------- leading zero bits

  /** x has k leading zero bits as a 32-bit word. */
  ghost predicate LeadingZeroBits(x: Word, k: nat) {
    if x == 0 then k == 32 else k < 32 && 0x8000_0000 <= x * Pow(2, k) < 0x1_0000_0000
  }

  /** x is x0 shifted left by k bits. */
  ghost predicate Shifted(x0: nat, k: nat, x: nat) {
    x == x0 * Pow(2, k)
  }

  lemma ShiftedZero(x: nat)
    ensures Shifted(x, 0, x)
  {
  }

  lemma ShiftMore(x0: nat, k: nat, x: nat, d: nat, f: nat)
    requires Shifted(x0, k, x) && f == Pow(2, d)
    ensures Shifted(x0, k + d, x * f)
  {
    PowAdd(2, k, d);
    MulAssoc(x0, Pow(2, k), f);
  }

  lemma ShiftedTopBit(x0: Word, k: nat, x: nat)
    requires Shifted(x0, k, x) && x < 0x1_0000_0000 && k < 32
    ensures x >= 0x8000_0000 ==> LeadingZeroBits(x0, k)
    ensures x == 0 ==> LeadingZeroBits(x0, 32)
  {
    PowPositive(2, k);
    if x0 > 0 {
      MulMonotone(x0, 1, Pow(2, k));
    }
  }

  lemma SmallPowersOfTwo()
    ensures Pow(2, 1) == 2 && Pow(2, 2) == 4 && Pow(2, 4) == 16 && Pow(2, 8) == 256 && Pow(2, 16) == 65536
  {
    PowAdd(2, 8, 8);
  }

  /** Leading zero bits by binary search; each test asks whether the top 16, 8, 4, 2 and 1 bits are clear. */
  method Hi0Bits(x0: Word) returns (k: nat)
    ensures LeadingZeroBits(x0, k)
  {
    hide Pow, Shifted, LeadingZeroBits;
    SmallPowersOfTwo();
    ShiftedZero(x0);
    k := 0;
    var x: nat := x0;
    if x / 0x1_0000 == 0 {
      ShiftMore(x0, k, x, 16, 0x1_0000);
      k, x := 16, x * 0x1_0000;
    }
    assert x == 0 || 0x1_0000 <= x < 0x1_0000_0000;
    if x / 0x100_0000 == 0 {
      ShiftMore(x0, k, x, 8, 0x100);
      k, x := k + 8, x * 0x100;
    }
    assert x == 0 || 0x100_0000 <= x < 0x1_0000_0000;
    k := Hi0InByte(x0, k, x);
  }

  /** The last three tests. */
  method Hi0InByte(ghost x0: Word, k0: nat, x1: nat) returns (k: nat)
    requires Shifted(x0, k0, x1) && k0 <= 24 && (x1 == 0 || 0x100_0000 <= x1 < 0x1_0000_0000)
    ensures LeadingZeroBits(x0, k)
  {
    hide Pow, Shifted, LeadingZeroBits;
    SmallPowersOfTwo();
    k := k0;
    var x := x1;
    if x / 0x1000_0000 == 0 {
      ShiftMore(x0, k, x, 4, 0x10);
      k, x := k + 4, x * 0x10;
    }
    assert x == 0 || 0x1000_0000 <= x < 0x1_0000_0000;
    if x / 0x4000_0000 == 0 {
      ShiftMore(x0, k, x, 2, 4);
      k, x := k + 2, x * 4;
    }
    assert x == 0 || 0x4000_0000 <= x < 0x1_0000_0000;
    ShiftedTopBit(x0, k, x);
    if x / 0x8000_0000 == 0 {
      ShiftMore(x0, k, x, 1, 2);
      k := k + 1;
      if x / 0x4000_0000 == 0 {
        return 32;
      }
      ShiftedTopBit(x0, k, x * 2);
    }
  }

  /** A normal number between lo and hi times W(m) has m+1 words and a top word between lo and hi. */
  lemma TopInRange(t: seq<Word>, m: nat, lo: nat, hi: nat)
    requires |t| >= 1 && (|t| == 1 || t[|t| - 1] != 0)
    requires 1 <= lo && hi <= 0x1_0000_0000 && lo * W(m) <= Val(t) < hi * W(m)
    ensures |t| == m + 1 && lo <= t[m] < hi
  {
    hide Val, W;
    assert W(m) <= Val(t) by { MulMonotone(W(m), 1, lo); }
    assert Val(t) < 0x1_0000_0000 * W(m) by { MulMonotone(W(m), hi, 0x1_0000_0000); }
    WStep(m);
    NormalSize(t);
    if |t| > m + 1 {
      WMonotone(m + 1, |t| - 1);
    } else if |t| < m + 1 {
      WMonotone(|t|, m);
    }
    TopWord(t);
    TopBetween(Val(t), t[m], W(m), lo, hi);
  }

  lemma TopBetween(v: nat, top: nat, w: nat, lo: nat, hi: nat)
    requires w > 0 && top * w <= v < (top + 1) * w && lo * w <= v < hi * w
    ensures lo <= top < hi
  {
    MulCancelStrict(w, lo, top + 1);
    MulCancelStrict(w, top, hi);
  }

  /** A number of n+1 words whose top word has z leading zeros has exactly 32(n+1) - z bits. */
  lemma BitLength(s: seq<Word>, z: nat)
    requires |s| >= 1 && s[|s| - 1] != 0 && LeadingZeroBits(s[|s| - 1], z)
    ensures z < 32 && Pow(2, 32 * |s| - z - 1) <= Val(s) < Pow(2, 32 * |s| - z)
  {
    hide Val, W, Pow;
    var n, top := |s| - 1, s[|s| - 1];
    Pow2Of32();
    TopWord(s);
    WeightIsPow2(n);
    BitLengthArithmetic(top, z, W(n), Val(s));
    PowAdd(2, 31 - z, 32 * n);
    PowAdd(2, 32 - z, 32 * n);
  }

  lemma BitLengthArithmetic(top: Word, z: nat, w: nat, v: nat)
    requires top != 0 && LeadingZeroBits(top, z)
    requires top * w <= v < (top + 1) * w
    ensures Pow(2, 31 - z) * w <= v < Pow(2, 32 - z) * w
  {
    hide Pow;
    var p, a, b := Pow(2, z), Pow(2, 31 - z), Pow(2, 32 - z);
    assert a <= top by {
      Pow2Of31();
      PowAdd(2, z, 31 - z);
      PowPositive(2, z);
      MulCancel(p, a, top);
    }
    assert top < b by {
      Pow2Of32();
      PowAdd(2, z, 32 - z);
      PowPositive(2, z);
      MulCancelStrict(p, top, b);
    }
    MulMonotone(w, a, top);
    MulMonotone(w, top + 1, b);
  }

  lemma Pow2Of31()
    ensures Pow(2, 31) == 0x8000_0000
  {
    Pow2Of32();
    assert Pow(2, 32) == 2 * Pow(2, 31);
  }

  /** i brings a shift by p2 to one that leaves four leading zero bits in the top word. */
  ghost predicate Aligns(top: Word, p2: nat, i: nat) {
    exists z: nat :: LeadingZeroBits(top, z) && i == (z - 4 - p2) % 32
  }

  /** Extra shift, less than a word, that together with p2 leaves the divisor four leading zeros. */
  method DShift(b: Bigint, p2: nat) returns (i: nat)
    requires b.Normal()
    ensures i < 32 && Aligns(b.x[b.wds - 1], p2, i)
  {
    var z := Hi0Bits(b.x[b.wds - 1]);
    var rv: int := z as int - 4;
    if p2 > 0 {
      rv := rv - p2;
    }
    i := rv % 32;  // rv & kmask
  }

  lemma AlignedBits(n: nat, z: nat, p2: nat, i: nat) returns (m: nat)
    requires z < 32 && n >= 1 && i == (z - 4 - p2) % 32
    ensures 32 * n - z + p2 + i == 32 * m + 28
  {
    var e := (z - 4 - p2) / 32;
    m := n - e - 1;
  }

  /** Shifting by p2 plus the computed amount leaves exactly four leading zero bits. */
  lemma ShiftAligns(s: seq<Word>, p2: nat, i: nat, t: seq<Word>)
    requires |s| >= 1 && s[|s| - 1] != 0 && Aligns(s[|s| - 1], p2, i)
    requires |t| >= 1 && (|t| == 1 || t[|t| - 1] != 0)
    requires Val(t) == Val(s) * Pow(2, p2 + i)
    ensures Division.FourLeadingZeros(t)
  {
    hide Val, W, Pow;
    var z: nat :| LeadingZeroBits(s[|s| - 1], z) && i == (z - 4 - p2) % 32;
    BitLength(s, z);
    var m := AlignedBits(|s|, z, p2, i);
    var sh := p2 + i;
    PowAdd(2, 32 * |s| - z - 1, sh);
    PowAdd(2, 32 * |s| - z, sh);
    PowPositive(2, sh);
    ScaleBounds(Pow(2, 32 * |s| - z - 1), Val(s), Pow(2, 32 * |s| - z), Pow(2, sh));
    assert Pow(2, 32 * m + 27) <= Val(t) < Pow(2, 32 * m + 28);
    PowAdd(2, 27, 32 * m);
    PowAdd(2, 28, 32 * m);
    Pow2Of27();
    WeightIsPow2(m);
    TopInRange(t, m, 0x800_0000, 0x1000_0000);
  }

  lemma ScaleBounds(lo: nat, v: nat, hi: nat, p: nat)
    requires lo <= v < hi && p > 0
    ensures lo * p <= v * p < hi * p
  {
    MulMonotone(p, lo, v);
    MulMonotone(p, v + 1, hi);
  }

  lemma Pow2Of27()
    ensures Pow(2, 27) == 0x800_0000 && Pow(2, 28) == 0x1000_0000
  {
    SmallPowersOfTwo();
    PowAdd(2, 16, 8);
    PowAdd(2, 24, 4);
    assert Pow(2, 28) == 2 * Pow(2, 27);
  }
}
