/** From the text of a numeral to the rounding decision: the parser's result handed to bigcomp (so3/lib/strtod.c). */
module Strtod {
  import opened Powers
  import opened Words
  import opened Bigints
  import opened Products
  import opened Scaling
  import opened DigitComparison
  import opened Rounding
  import opened NumeralParser
  import opened Clipping

  lemma CrossProducts(n: nat, m: nat, t: nat, u: nat, a: nat, b: nat, c: nat, d: nat, k: nat)
    requires k * a * d == b * c
    ensures n * k * a * t * (m * d * u) == m * b * u * (n * c * t)
  {
    MulShuffle(n * k * a, t, m * d, u);
    MulShuffle(m * b, u, n * c, t);
    assert t * u == u * t;
    assert n * k * a * (m * d) == n * m * (k * a * d) by {
      MulAssoc(n, k, a);
      MulShuffle(n, k * a, m, d);
    }
    assert m * b * (n * c) == n * m * (b * c) by {
      MulShuffle(m, b, n, c);
    }
  }

  lemma SplitPower(k: nat, e: int)
    ensures Pow(10, k) * Pow(10, Above(e)) * Pow(10, Above(-(e + k))) == Pow(10, Above(-e)) * Pow(10, Above(e + k))
  {
    hide Pow;
    PowAdd(10, k, Above(e));
    PowAdd(10, k + Above(e), Above(-(e + k)));
    PowAdd(10, Above(-e), Above(e + k));
  }

  /** A power of ten may sit in the digits or in the exponent. */
  lemma RoundsUpScale(n: nat, k: nat, e: int, v: nat, p2: int)
    requires n > 0
    ensures RoundsUp(n * Pow(10, k), e, v, p2) <==> RoundsUp(n, e + k, v, p2)
  {
    hide Pow;
    var m, t, u := 2 * v + 1, Pow(2, Above(1 - p2)), Pow(2, Above(p2 - 1));
    var a, b, c, d := Pow(10, Above(e)), Pow(10, Above(-e)), Pow(10, Above(e + k)), Pow(10, Above(-(e + k)));
    SplitPower(k, e);
    CrossProducts(n, m, t, u, a, b, c, d, Pow(10, k));
    PowPositive(10, k);
    ProductPositive(n, Pow(10, k));
    SidesPositive(n * Pow(10, k), v, e, p2);
    SidesPositive(n, v, e + k, p2);
    SameRatio(n * Pow(10, k) * a * t, m * b * u, n * c * t, m * d * u);
  }

  lemma SidesPositive(n: nat, v: nat, e: int, p2: int)
    requires n > 0
    ensures DecimalSide(n, e, p2) > 0 && BinarySide(v, e, p2) > 0
  {
    hide Pow;
    var m, t, u := 2 * v + 1, Pow(2, Above(1 - p2)), Pow(2, Above(p2 - 1));
    var a, b := Pow(10, Above(e)), Pow(10, Above(-e));
    PowPositive(10, Above(e));
    PowPositive(10, Above(-e));
    PowPositive(2, Above(1 - p2));
    PowPositive(2, Above(p2 - 1));
    ProductPositive(n, a);
    ProductPositive(n * a, t);
    ProductPositive(m, b);
    ProductPositive(m * b, u);
  }

  /** The parser's summary rounds as the clipped exponent says, and as the text does wherever clipping is safe. */
  lemma SummaryRounds(t: seq<char>, n: Numeral, s0: nat, nd0: nat, nd: nat, e: int, v: nat, p2: int)
    requires n.Valid() && StandsFor(t, n, s0, nd0, nd, e)
    ensures RoundsUp(Prefix(t[s0..], nd0, nd, nd), e, v, p2) <==> ClippedRoundsUp(n, v, p2)
    ensures !Unacceptable(n) && ClippingSafe(n) && IsDouble(v, p2) ==>
      (RoundsUp(Prefix(t[s0..], nd0, nd, nd), e, v, p2) <==> TextRoundsUp(n, v, p2))
  {
    hide Pow, Dec, RoundsUp, ClippingSafe, IsDouble, Unacceptable, TextRoundsUp;
    var scale := n.ClippedExponent() - |n.fraction|;
    DigitCount(t[s0..], nd0, nd);
    PowPositive(10, nd - 1);
    RoundsUpScale(Prefix(t[s0..], nd0, nd, nd), e - scale, scale, v, p2);
    if !Unacceptable(n) && ClippingSafe(n) && IsDouble(v, p2) {
      SafeKeeps(n, v, p2);
    }
  }

  /** A text that yields a number is not zero. */
  lemma NumberIsPositive(t: seq<char>, n: Numeral, s0: nat, nd0: nat, nd: nat, e: int)
    requires n.Valid() && StandsFor(t, n, s0, nd0, nd, e)
    ensures Dec(n.Digits()) > 0
  {
    hide Pow, Dec;
    var scale := n.ClippedExponent() - |n.fraction|;
    DigitCount(t[s0..], nd0, nd);
    PowPositive(10, nd - 1);
    PowPositive(10, e - scale);
    ProductPositive(Prefix(t[s0..], nd0, nd, nd), Pow(10, e - scale));
  }

  /**
   Parse, then bigcomp: for an accepted nonzero numeral the decision is the text's own wherever clipping is safe,
   and that of the clipped exponent in any case.
   */
  method DecideRounding(c: PowersOfFive, b: Bigint, p2: int, t: seq<char>) returns (r: Parsed, roundUp: bool)
    requires Terminated(t)
    requires c.Valid() && b.Normal() && Separate(c, b) && DoublePrecision(b.Value(), p2)
    modifies c, b, b.x
    ensures c.Valid()
    ensures r.Rejected? <==> Unacceptable(Read(t))
    ensures !r.Rejected? ==> r.negative == Read(t).negative && r.end == Read(t).end
    ensures !r.Rejected? ==> (r.Zero? <==> Dec(Read(t).Digits()) == 0)
    ensures r.Number? ==> StandsFor(t, Read(t), r.s0, r.nd0, r.nd, r.e)
    ensures r.Number? ==> (roundUp <==> ClippedRoundsUp(Read(t), old(b.Value()), p2))
    ensures r.Number? && ClippingSafe(Read(t)) && IsDouble(old(b.Value()), p2) ==>
      (roundUp <==> TextRoundsUp(Read(t), old(b.Value()), p2))
  {
    hide Val, Prefix, TextRoundsUp, ClippedRoundsUp, ClippingSafe, IsDouble, RoundsUp;
    r := Parse(t);
    roundUp := false;
    if r.Number? {
      NumberIsPositive(t, Read(t), r.s0, r.nd0, r.nd, r.e);
      SummaryRounds(t, Read(t), r.s0, r.nd0, r.nd, r.e, b.Value(), p2);
      roundUp := Bigcomp(c, b, p2, t[r.s0..], r.nd0, r.nd, r.e);
    }
  }
}
