/**
 bigcomp (so3/lib/strtod.c): decides exactly on which side of the midpoint between two
 neighbouring doubles a decimal numeral lies, by long division compared digit by digit.
 */
module DigitComparison {
  import opened Powers
  import opened Words
  import opened Bigints
  import opened Products
  import opened Division

  // ---------------------------------------------------------------- digit strings

  predicate IsDigit(c: char) {
    '0' <= c <= '9'
  }

  function DigitValue(c: char): (d: nat)
    requires IsDigit(c)
    ensures d <= 9 && (d == 0 <==> c == '0')
  {
    c as int - '0' as int
  }

  /** Where digit i stands when the point is at index nd0. */
  function Place(nd0: nat, i: nat): nat {
    if i < nd0 then i else i + 1
  }

  /** nd digits with the decimal point, if any, at index nd0. */
  ghost predicate IsDigitString(s: seq<char>, nd0: nat, nd: nat) {
    nd0 <= nd && (if nd0 < nd then nd < |s| else nd <= |s|) &&
    forall i :: 0 <= i < nd ==> IsDigit(s[Place(nd0, i)])
  }

  /** Digit i, skipping the point. */
  function DigitAt(s: seq<char>, nd0: nat, nd: nat, i: nat): (d: nat)
    requires IsDigitString(s, nd0, nd) && i < nd
    ensures d <= 9
  {
    DigitValue(s[Place(nd0, i)])
  }

  /** The number that the first i digits spell. */
  function Prefix(s: seq<char>, nd0: nat, nd: nat, i: nat): nat
    requires IsDigitString(s, nd0, nd) && i <= nd
  {
    if i == 0 then 0 else 10 * Prefix(s, nd0, nd, i - 1) + DigitAt(s, nd0, nd, i - 1)
  }

  lemma {:induction false} PrefixBounds(s: seq<char>, nd0: nat, nd: nat, i: nat, j: nat)
    requires IsDigitString(s, nd0, nd) && i <= j <= nd
    ensures Prefix(s, nd0, nd, i) * Pow(10, j - i) <= Prefix(s, nd0, nd, j)
    ensures Prefix(s, nd0, nd, j) < (Prefix(s, nd0, nd, i) + 1) * Pow(10, j - i)
    ensures i < j && DigitAt(s, nd0, nd, j - 1) > 0 ==> Prefix(s, nd0, nd, i) * Pow(10, j - i) < Prefix(s, nd0, nd, j)
    decreases j - i
  {
    if i < j {
      PrefixBounds(s, nd0, nd, i, j - 1);
      TenFold(Prefix(s, nd0, nd, i), Pow(10, j - 1 - i));
    }
  }

  lemma TenFold(p: nat, t: nat)
    ensures p * (10 * t) == 10 * (p * t) && (p + 1) * (10 * t) == 10 * ((p + 1) * t)
  {
  }

  // ---------------------------------------------------------------- long division against the digits

  /** The digits so far equal the quotient so far. */
  lemma DivisionStep(vb: nat, t: nat, p: nat, vd: nat, rem: nat, q: nat, r: nat)
    requires vb * t == p * vd + rem && rem * 10 == q * vd + r
    ensures vb * (10 * t) == (10 * p + q) * vd + r
  {
    assert vb * (10 * t) == 10 * (vb * t);
    assert (10 * p + q) * vd == 10 * (p * vd) + q * vd;
  }

  /** Quotient prefix a with remainder r, digit prefix c: a larger digit prefix decides. */
  lemma LargerPrefix(whole: nat, c: nat, a: nat, r: nat, t: nat, vd: nat)
    requires t > 0 && r < vd && c * t <= whole && c > a
    ensures whole * vd > (a * vd + r) * t
  {
    MulMonotone(t, a + 1, c);
    MulMonotone(vd, (a + 1) * t, whole);
    assert (a + 1) * vd == a * vd + vd;
    MulStrict(t, a * vd + r, (a + 1) * vd);
    Reorder(a + 1, t, vd);
  }

  lemma SmallerPrefix(whole: nat, c: nat, a: nat, r: nat, t: nat, vd: nat)
    requires t > 0 && r < vd && whole < (c + 1) * t && c < a
    ensures whole * vd < (a * vd + r) * t
  {
    MulMonotone(t, c + 1, a);
    MulStrict(vd, whole, a * t);
    MulMonotone(t, a * vd, a * vd + r);
    Reorder(a, t, vd);
  }

  /** Equal prefixes and no remainder: any later nonzero digit decides. */
  lemma ExactPrefix(whole: nat, a: nat, t: nat, vd: nat)
    requires vd > 0 && whole > a * t
    ensures whole * vd > (a * vd + 0) * t
  {
    MulStrict(vd, a * t, whole);
    Reorder(a, t, vd);
  }

  lemma Reorder(a: int, t: int, vd: int)
    ensures a * t * vd == a * vd * t
  {
  }

  ghost predicate SameSign(x: int, y: int) {
    (x < 0 <==> y < 0) && (x > 0 <==> y > 0)
  }

  /** 0.s1...sn - vb/vd, cleared of denominators. */
  ghost function Gap(s: seq<char>, nd0: nat, nd: nat, vb: nat, vd: nat): int
    requires IsDigitString(s, nd0, nd)
  {
    Prefix(s, nd0, nd, nd) * vd - vb * Pow(10, nd)
  }

  /** Before digit i: the digits read so far are the quotient's, and rem is what is left of vb * 10^i. */
  ghost predicate Matched(s: seq<char>, nd0: nat, nd: nat, vb: nat, vd: nat, i: nat, rem: nat)
    requires IsDigitString(s, nd0, nd) && i <= nd
  {
    vb * Pow(10, i) == Prefix(s, nd0, nd, i) * vd + rem && rem < vd
  }

  /** What digit i says when the next quotient digit is q and leaves r. */
  lemma DigitDecides(s: seq<char>, nd0: nat, nd: nat, vb: nat, vd: nat, i: nat, rem: nat, q: nat, r: nat)
    requires IsDigitString(s, nd0, nd) && i < nd && Matched(s, nd0, nd, vb, vd, i, rem)
    requires rem * 10 == q * vd + r && r < vd
    requires DigitAt(s, nd0, nd, nd - 1) > 0
    ensures DigitAt(s, nd0, nd, i) > q ==> Gap(s, nd0, nd, vb, vd) > 0
    ensures DigitAt(s, nd0, nd, i) < q ==> Gap(s, nd0, nd, vb, vd) < 0
    ensures DigitAt(s, nd0, nd, i) == q ==> Matched(s, nd0, nd, vb, vd, i + 1, r)
    ensures DigitAt(s, nd0, nd, i) == q && r == 0 && i + 1 < nd ==> Gap(s, nd0, nd, vb, vd) > 0
  {
    hide Pow;
    var p, c, m := Prefix(s, nd0, nd, i), DigitAt(s, nd0, nd, i), nd - i - 1;
    var whole, t := Prefix(s, nd0, nd, nd), Pow(10, m);
    PowStep(10, i);
    DivisionStep(vb, Pow(10, i), p, vd, rem, q, r);
    PrefixBounds(s, nd0, nd, i + 1, nd);
    PowAdd(10, i + 1, m);
    PowPositive(10, m);
    MulAssoc(vb, Pow(10, i + 1), t);
    if c > q {
      LargerPrefix(whole, 10 * p + c, 10 * p + q, r, t, vd);
    } else if c < q {
      SmallerPrefix(whole, 10 * p + c, 10 * p + q, r, t, vd);
    } else if r == 0 && i + 1 < nd {
      ExactPrefix(whole, 10 * p + q, t, vd);
    }
  }

  lemma MatchedStart(s: seq<char>, nd0: nat, nd: nat, vb: nat, vd: nat)
    requires IsDigitString(s, nd0, nd) && vb < vd
    ensures Matched(s, nd0, nd, vb, vd, 0, vb)
  {
  }

  /** All digits matched: what is left is the gap. */
  lemma MatchedEnd(s: seq<char>, nd0: nat, nd: nat, vb: nat, vd: nat, rem: nat)
    requires IsDigitString(s, nd0, nd) && Matched(s, nd0, nd, vb, vd, nd, rem)
    ensures Gap(s, nd0, nd, vb, vd) == 0 - rem
  {
  }

  /** Once b >= d no fraction below one can reach b/d. */
  lemma RatioTooLarge(s: seq<char>, nd0: nat, nd: nat, vb: nat, vd: nat)
    requires IsDigitString(s, nd0, nd) && vb >= vd > 0
    ensures Gap(s, nd0, nd, vb, vd) < 0
  {
    PrefixBounds(s, nd0, nd, 0, nd);
    var t := Pow(10, nd);
    MulStrict(vd, Prefix(s, nd0, nd, nd), t);
    MulMonotone(t, vd, vb);
  }

  /** The comparison cannot come out right exactly here: a one-word divisor and a ratio that ends with the digits. */
  ghost predicate LostZero(s: seq<char>, nd0: nat, nd: nat, vb: nat, vd: nat, dWords: nat)
    requires IsDigitString(s, nd0, nd)
  {
    dWords == 1 && Gap(s, nd0, nd, vb, vd) == 0
  }

  /** The next quotient digit of b/d: 10*b = q*d + r. */
  method NextDigit(b: Bigint, d: Bigint) returns (r: Bigint, q: nat)
    requires b != d && b.x != d.x && b.NormalOrEmpty() && d.Normal() && FourLeadingZeros(d.x[..d.wds])
    requires b.Value() < d.Value()
    modifies b, b.x
    ensures r != d && r.x != d.x && r.NormalOrEmpty() && (r == b || (fresh(r) && fresh(r.x)))
    ensures d.Normal() && old(b.Value()) * 10 == q * d.Value() + r.Value() && r.Value() < d.Value()
    ensures r.wds == 0 <==> old(b.wds) == 0 || (d.wds == 1 && q > 0 && r.Value() == 0)
  {
    hide Val;
    r := MultAdd(b, 10, 0);
    q := Quorem(r, d);
  }

  /** The digit loop, for b < d. */
  method CompareLoop(b0: Bigint, d: Bigint, s: seq<char>, nd0: nat, nd: nat) returns (dd: int)
    requires IsDigitString(s, nd0, nd) && nd > 0 && DigitAt(s, nd0, nd, nd - 1) > 0
    requires b0 != d && b0.x != d.x && b0.Normal() && d.Normal() && FourLeadingZeros(d.x[..d.wds])
    requires b0.Value() < d.Value()
    modifies b0, b0.x
    ensures SameSign(dd, Gap(s, nd0, nd, old(b0.Value()), d.Value()))
       <==> !LostZero(s, nd0, nd, old(b0.Value()), d.Value(), d.wds)
    ensures LostZero(s, nd0, nd, old(b0.Value()), d.Value(), d.wds) ==> dd < 0
  {
    hide Val, Pow, Gap, Matched, DigitAt;
    var b := b0;
    ghost var vb, vd := b.Value(), d.Value();
    MatchedStart(s, nd0, nd, vb, vd);
    var i := 0;
    while i < nd
      invariant 0 <= i < nd && d.Normal() && d.Value() == vd
      invariant b != d && b.x != d.x && b.NormalOrEmpty() && (b == b0 || (fresh(b) && fresh(b.x)))
      invariant b.wds == 0 ==> d.wds == 1 && b.Value() == 0
      invariant b.Value() < vd && Matched(s, nd0, nd, vb, vd, i, b.Value())
    {
      ghost var rem := b.Value();
      var q: nat;
      b, q := NextDigit(b, d);
      DigitDecides(s, nd0, nd, vb, vd, i, rem, q, b.Value());
      dd := DigitAt(s, nd0, nd, i) - q;
      i := i + 1;
      if dd != 0 {
        return;
      }
      if i == nd {
        MatchedEnd(s, nd0, nd, vb, vd, b.Value());
      }
      if b.wds >= 1 {
        IsZeroValue(b.x[..b.wds]);
      }
      if IsZero(b) {
        dd := if i < nd then 1 else 0;
        return;
      }
      if !(i < nd) {
        return -1;
      }
    }
  }

  /** The sign of 0.s1...sn - b/d: exact for every b and d, except that LostZero reports "less" for "equal". */
  method CompareDigits(b: Bigint, d: Bigint, s: seq<char>, nd0: nat, nd: nat) returns (dd: int)
    requires IsDigitString(s, nd0, nd) && nd > 0 && DigitAt(s, nd0, nd, nd - 1) > 0
    requires b != d && b.x != d.x && b.Normal() && d.Normal() && FourLeadingZeros(d.x[..d.wds])
    modifies b, b.x
    ensures SameSign(dd, Gap(s, nd0, nd, old(b.Value()), d.Value()))
       <==> !LostZero(s, nd0, nd, old(b.Value()), d.Value(), d.wds)
    ensures LostZero(s, nd0, nd, old(b.Value()), d.Value(), d.wds) ==> dd < 0
  {
    hide Val, Gap;
    ValZero(d.x[..d.wds]);
    var c := Cmp(b, d);
    if c >= 0 {
      RatioTooLarge(s, nd0, nd, b.Value(), d.Value());
      dd := -1;
    } else {
      dd := CompareLoop(b, d, s, nd0, nd);
    }
  }

  /** The failing family is not empty: 0.5 against 2^26 / 2^27. */
  lemma LostZeroExample()
    ensures IsDigitString("5", 1, 1) && LostZero("5", 1, 1, 0x400_0000, 0x800_0000, 1)
  {
    assert Prefix("5", 1, 1, 0) == 0;
    assert Prefix("5", 1, 1, 1) == 5;
    assert Pow(10, 1) == 10;
  }

  // ---------------------------------------------------------------- s2b

  /** One multadd per digit, starting at digit i; p walks the string as the source's pointer does. */
  method AppendDigits(b0: Bigint, s: seq<char>, nd0: nat, nd: nat, from: nat, to: nat, p0: nat) returns (b: Bigint)
    requires IsDigitString(s, nd0, nd) && from <= to <= nd
    requires from < to ==> p0 == Place(nd0, from) && (to <= nd0 || from >= nd0)
    requires b0.Normal() && b0.Value() == Prefix(s, nd0, nd, from)
    modifies b0, b0.x
    ensures b.Normal() && b.Value() == Prefix(s, nd0, nd, to)
    ensures b == b0 || (fresh(b) && fresh(b.x))
  {
    hide Val;
    b := b0;
    var p := p0;
    for i := from to to
      invariant b.Normal() && b.Value() == Prefix(s, nd0, nd, i)
      invariant b == b0 || (fresh(b) && fresh(b.x))
      invariant i < to ==> p == Place(nd0, i)
    {
      b := MultAdd(b, 10, DigitValue(s[p]));
      p := p + 1;
    }
  }

  /** The digit string as a Bigint; y9 holds the first nine digits (or all of them). */
  method S2B(s: seq<char>, nd0: nat, nd: nat, y9: Word) returns (b: Bigint)
    requires IsDigitString(s, nd0, nd)
    requires y9 == Prefix(s, nd0, nd, if nd < 9 then nd else 9)
    ensures fresh(b) && fresh(b.x) && b.Normal() && b.Value() == Prefix(s, nd0, nd, nd)
  {
    hide Val;
    var x, k, y := (nd + 8) / 9, 0, 1;
    while x > y
      invariant y == Pow(2, k) && y > 0
      decreases x - y
    {
      y, k := 2 * y, k + 1;
    }
    b := new Bigint(k);
    b.x[0] := y9;
    b.wds := 1;
    ValSingle(y9);
    assert b.x[..1] == [y9];
    if nd <= 9 {
      return;
    }
    var split := if nd0 < 9 then 9 else nd0;
    b := AppendDigits(b, s, nd0, nd, 9, split, 9);
    b := AppendDigits(b, s, nd0, nd, split, nd, split + 1);
  }
}
