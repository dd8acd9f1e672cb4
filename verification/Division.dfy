/** quorem (so3/lib/strtod.c): one digit of long division, with a single correction step. */
module Division {
  import opened Powers
  import opened Words
  import opened Bigints

  /** S's top word in [2^27, 2^28): its top four bits are clear and bit 27 is set. */
  ghost predicate FourLeadingZeros(s: seq<Word>) {
    |s| > 0 && 0x800_0000 <= s[|s| - 1] < 0x1000_0000
  }

  /** b < 10*s occupies no more words than s. */
  lemma TenTimesFits(b: seq<Word>, s: seq<Word>)
    requires FourLeadingZeros(s) && Val(b) < 10 * Val(s)
    ensures Val(b) < W(|s|)
    ensures |b| > 1 && b[|b| - 1] != 0 ==> |b| <= |s|
  {
    hide Val, W;
    var n := |s| - 1;
    TopWord(s);
    LargerTop(Val(s), 0x1000_0000 * W(n), s[n], 0x1000_0000, W(n));
    WStep(n);
    if |b| > 1 && b[|b| - 1] != 0 && |b| > |s| {
      TopWord(b);
      WMonotone(|s|, |b| - 1);
    }
  }

  /** The quotient guessed from the top words is never too big, and too small by at most one. */
  lemma QuotientEstimate(b: seq<Word>, s: seq<Word>, q: nat)
    requires |b| == |s| && FourLeadingZeros(s)
    requires q == b[|b| - 1] as int / (s[|s| - 1] as int + 1)
    requires Val(b) < 10 * Val(s)
    ensures q <= 9
    ensures q * Val(s) <= Val(b) < (q + 2) * Val(s)
  {
    hide Val, W;
    var n := |s| - 1;
    TopWord(b);
    TopWord(s);
    EstimateArithmetic(Val(b), Val(s), b[n], s[n], W(n), q);
  }

  lemma EstimateArithmetic(vb: nat, vs: nat, tb: nat, ts: nat, w: nat, q: nat)
    requires tb * w <= vb < (tb + 1) * w
    requires ts * w <= vs < (ts + 1) * w
    requires ts > 10 && vb < 10 * vs && q == tb / (ts + 1)
    ensures q <= 9
    ensures q * vs <= vb < (q + 2) * vs
  {
    var r := tb % (ts + 1);
    assert q * (ts + 1) + r == tb && 0 <= r <= ts;
    EstimateLow(vb, vs, tb, ts, w, q);
    if q >= 10 {
      MulMonotone(vs, 10, q);
    }
    EstimateHigh(vb, vs, tb, ts, w, q);
  }

  lemma EstimateLow(vb: nat, vs: nat, tb: nat, ts: nat, w: nat, q: nat)
    requires tb * w <= vb && vs < (ts + 1) * w && q * (ts + 1) <= tb
    ensures q * vs <= vb
  {
    MulMonotone(q, vs, (ts + 1) * w);
    MulAssoc(q, ts + 1, w);
    MulMonotone(w, q * (ts + 1), tb);
  }

  lemma EstimateHigh(vb: nat, vs: nat, tb: nat, ts: nat, w: nat, q: nat)
    requires vb < (tb + 1) * w && ts * w <= vs && tb <= q * (ts + 1) + ts && q + 1 <= ts
    ensures vb < (q + 2) * vs
  {
    assert tb + 1 <= (q + 2) * ts by {
      assert q * (ts + 1) == q * ts + q;
      assert (q + 2) * ts == q * ts + 2 * ts;
    }
    MulMonotone(w, tb + 1, (q + 2) * ts);
    MulAssoc(q + 2, ts, w);
    MulMonotone(q + 2, ts * w, vs);
  }

  /** One decimal digit of long division: b := b mod S, returning b div S, for b < 10*S. */
  method Quorem(b: Bigint, S: Bigint) returns (q: nat)
    requires b != S && b.x != S.x
    requires b.NormalOrEmpty() && S.Normal() && FourLeadingZeros(S.x[..S.wds])
    requires b.Value() < 10 * S.Value()
    modifies b`wds, b.x
    ensures b.NormalOrEmpty() && S.Normal()
    ensures q <= 9 && old(b.Value()) == q * S.Value() + b.Value() && b.Value() < S.Value()
    ensures b.wds == 0 <==> old(b.wds) == 0 || (S.wds == 1 && q > 0 && b.Value() == 0)
  {
    hide Val, W, DiffWord, ProductWords;
    ghost var s := S.x[..S.wds];
    ghost var v0 := b.Value();
    TopWord(s);
    TenTimesFits(b.x[..b.wds], s);
    var n := S.wds;
    if b.wds < n {
      LongerIsLarger(b.x[..b.wds], s);
      return 0;
    }
    n := n - 1;
    var sTop: int, bTop: int := S.x[n], b.x[n];
    DivNonnegative(bTop, sTop + 1);
    q := bTop / (sTop + 1);
    QuotientEstimate(b.x[..n + 1], s, q);
    ghost var vs, p := S.Value(), q * S.Value();
    assert v0 < p + 2 * vs;
    if q != 0 {
      SubtractAndTrim(b, S, q);
    }
    assert b.Value() == v0 - p && S.Value() == vs;
    var c := Cmp(b, S);
    if c >= 0 {
      if b.wds < S.wds {
        LongerIsLarger(b.x[..b.wds], s);
      }
      q := q + 1;
      SubtractAndTrim(b, S, 1);
      assert q * vs == p + vs;
    }
  }

  /** b -= S*q, then drop leading zero words. */
  method SubtractAndTrim(b: Bigint, S: Bigint, q: nat)
    requires b != S && b.x != S.x && b.Valid() && S.Valid() && b.wds == S.wds > 0
    requires 0 < q <= 9 && q * S.Value() <= b.Value()
    modifies b`wds, b.x
    ensures b.NormalOrEmpty() && b.wds <= S.wds
    ensures b.Value() == old(b.Value()) - q * S.Value()
    ensures b.wds == 0 <==> S.wds == 1 && b.Value() == 0
  {
    hide Val, W, DiffWord, ProductWords;
    var n := S.wds;
    ghost var b0 := b.x[..n];
    SubtractMultiple(b.x, S.x, n, q);
    SubtractedValue(b0, S.x[..n], q, q * S.Value(), b.x[..n]);
    DropLeadingZeros(b, n - 1);
    ValZero(b.x[..1]);
  }
}
