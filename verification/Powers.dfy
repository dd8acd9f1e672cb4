/** Integer powers, the only arithmetic the word-level models share. */
module Powers {

  function Pow(b: nat, e: nat): nat {
    if e == 0 then 1 else b * Pow(b, e - 1)
  }

  lemma PowZero(b: nat)
    ensures Pow(b, 0) == 1
  {
  }

  lemma PowStep(b: nat, i: nat)
    ensures Pow(b, i + 1) == b * Pow(b, i)
  {
  }

  lemma {:induction false} PowPositive(b: nat, e: nat)
    requires b > 0
    ensures Pow(b, e) > 0
  {
    if e > 0 {
      PowPositive(b, e - 1);
    }
  }

  lemma {:induction false} PowAdd(b: nat, d: nat, e: nat)
    ensures Pow(b, d + e) == Pow(b, d) * Pow(b, e)
  {
    if d == 0 {
    } else {
      PowAdd(b, d - 1, e);
      MulAssoc(b, Pow(b, d - 1), Pow(b, e));
    }
  }

  lemma MulAssoc(a: int, b: int, c: int)
    ensures a * (b * c) == (a * b) * c
  {
  }

  /** Powers of a product split into the powers of its factors. */
  lemma {:induction false} PowProduct(a: nat, b: nat, e: nat)
    ensures Pow(a * b, e) == Pow(a, e) * Pow(b, e)
  {
    if e > 0 {
      PowProduct(a, b, e - 1);
      MulShuffle(a, b, Pow(a, e - 1), Pow(b, e - 1));
    }
  }

  lemma MulShuffle(a: int, b: int, p: int, q: int)
    ensures (a * b) * (p * q) == (a * p) * (b * q)
  {
    MulAssoc(a * b, p, q);
    assert (a * b) * p == (a * p) * b;
    MulAssoc(a * p, b, q);
  }

  lemma {:induction false} PowPower(b: nat, d: nat, e: nat)
    ensures Pow(Pow(b, d), e) == Pow(b, d * e)
  {
    if e == 0 {
      assert d * e == 0;
    } else {
      PowPower(b, d, e - 1);
      PowAdd(b, d, d * (e - 1));
      assert d * e == d + d * (e - 1);
    }
  }

  lemma PowMonotone(b: nat, d: nat, e: nat)
    requires b > 0 && d <= e
    ensures Pow(b, d) <= Pow(b, e)
  {
    PowAdd(b, d, e - d);
    PowPositive(b, e - d);
    PowPositive(b, d);
    MulAtLeast(Pow(b, d), Pow(b, e - d));
  }

  lemma MulAtLeast(x: nat, y: nat)
    requires y >= 1
    ensures x * y >= x
  {
  }

  lemma MulMonotone(c: nat, x: int, y: int)
    requires x <= y
    ensures c * x <= c * y
  {
  }

  /** A quotient is determined by the interval the dividend falls into. */
  lemma DivisionUnique(n: int, d: int, q: int, r: int)
    requires d > 0 && n == q * d + r && 0 <= r < d
    ensures n / d == q && n % d == r
  {
    var q', r' := n / d, n % d;
    assert q' * d + r' == q * d + r;
    assert (q' - q) * d == r - r';
    if q' > q {
      MulMonotone(d, 1, q' - q);
    } else if q' < q {
      MulMonotone(d, 1, q - q');
    }
  }

  /** Dividing twice is dividing by the product. */
  lemma DivisionChain(n: nat, c: nat, d: nat)
    requires c > 0 && d > 0
    ensures c * d > 0
    ensures n / c / d == n / (c * d)
    ensures n % (c * d) == n / c % d * c + n % c
  {
    var q, r := n / c, n % c;
    var q2, r2 := q / d, q % d;
    assert n == q * c + r;
    assert q == q2 * d + r2;
    assert q2 * d * c + r2 * c + r == n by {
      assert (q2 * d + r2) * c == q2 * d * c + r2 * c;
    }
    assert r2 * c + r < c * d by {
      MulMonotone(c, r2, d - 1);
      assert c * (d - 1) == c * d - c;
    }
    assert q2 * (c * d) == q2 * d * c;
    DivisionUnique(n, c * d, q2, r2 * c + r);
  }

  lemma DivNonnegative(n: nat, d: nat)
    requires d > 0
    ensures n / d >= 0
  {
    if n / d < 0 {
      MulMonotone(d, n / d, -1);
    }
  }

  lemma MulCancel(c: nat, x: int, y: int)
    requires c > 0 && c * x <= c * y
    ensures x <= y
  {
    if x > y {
      MulMonotone(c, y + 1, x);
    }
  }

  lemma MulCancelStrict(c: nat, x: int, y: int)
    requires c > 0 && c * x < c * y
    ensures x < y
  {
    if x >= y {
      MulMonotone(c, y, x);
    }
  }

  lemma MulStrict(c: nat, x: int, y: int)
    requires c > 0 && x < y
    ensures c * x < c * y
  {
    MulMonotone(c, x + 1, y);
  }
}
