/** Base 2^32 words and the number a word sequence stands for (least significant word first). */
module Words {
  import opened Powers


  type Word = w: int | 0 <= w < 0x1_0000_0000

  /** Weight of word i. */
  function W(i: nat): (r: nat)
    ensures r > 0
  {
    PowPositive(0x1_0000_0000, i);
    Pow(0x1_0000_0000, i)
  }

  lemma WStep(i: nat)
    ensures W(i + 1) == 0x1_0000_0000 * W(i)
  {
  }

  lemma WMonotone(i: nat, j: nat)
    requires i <= j
    ensures W(i) <= W(j)
  {
    PowMonotone(0x1_0000_0000, i, j);
  }

  function Val(s: seq<Word>): nat {
    if |s| == 0 then 0 else Val(s[..|s| - 1]) + s[|s| - 1] * W(|s| - 1)
  }

  lemma ValSingle(w: Word)
    ensures Val([w]) == w
  {
    assert W(0) == 1;
  }

  /** One more word on top of a prefix. */
  lemma ValSnoc(s: seq<Word>, i: nat)
    requires i < |s|
    ensures Val(s[..i + 1]) == Val(s[..i]) + s[i] * W(i)
    ensures W(i + 1) == 0x1_0000_0000 * W(i)
  {
    assert s[..i + 1][..i] == s[..i];
  }

  lemma {:induction false} ValBound(s: seq<Word>)
    ensures Val(s) < W(|s|)
  {
    if |s| > 0 {
      var n := |s| - 1;
      ValBound(s[..n]);
      TopBound(Val(s[..n]), s[n], W(n));
    }
  }

  lemma TopBound(v: nat, c: Word, w: nat)
    requires v < w
    ensures v + c * w < 0x1_0000_0000 * w
  {
    MulMonotone(w, c, 0xffff_ffff);
  }

  /** Words above a prefix weigh a multiple of the prefix's weight. */
  lemma {:induction false} ValSplit(s: seq<Word>, i: nat)
    requires i <= |s|
    ensures Val(s) == Val(s[..i]) + W(i) * Val(s[i..])
    decreases |s|
  {
    var n := |s| - 1;
    if i == |s| {
      assert s[..i] == s;
    } else {
      ValSplit(s[..n], i);
      assert s[..n][..i] == s[..i] && s[..n][i..] == s[i..][..n - i];
      PowAdd(0x1_0000_0000, i, n - i);
      SplitStep(Val(s[i..][..n - i]), W(i), W(n - i), s[n]);
    }
  }

  lemma SplitStep(v: nat, w: nat, t: nat, c: nat)
    ensures w * v + c * (w * t) == w * (v + c * t)
  {
    MulAssoc(c, w, t);
    MulAssoc(w, c, t);
  }

  /** A word sequence reaches the weight of its top word exactly when that word is nonzero. */
  lemma TopWord(s: seq<Word>)
    requires |s| > 0
    ensures s[|s| - 1] * W(|s| - 1) <= Val(s) < (s[|s| - 1] + 1) * W(|s| - 1)
    ensures s[|s| - 1] != 0 <==> Val(s) >= W(|s| - 1)
  {
    var n := |s| - 1;
    ValBound(s[..n]);
    assert (s[n] + 1) * W(n) == s[n] * W(n) + W(n);
    if s[n] != 0 {
      MulMonotone(W(n), 1, s[n]);
    }
  }

  lemma {:induction false} ValZero(s: seq<Word>)
    ensures Val(s) == 0 <==> forall i :: 0 <= i < |s| ==> s[i] == 0
  {
    if |s| > 0 {
      var n := |s| - 1;
      ValZero(s[..n]);
      if s[n] != 0 {
        MulMonotone(W(n), 1, s[n]);
      }
      assert (forall i :: 0 <= i < |s| ==> s[i] == 0) <==> s[n] == 0 && forall i :: 0 <= i < n ==> s[..n][i] == 0;
    }
  }

  /** Leading zero words do not count. */
  lemma {:induction false} ValDropZeros(s: seq<Word>, n: nat)
    requires n <= |s|
    requires forall i :: n <= i < |s| ==> s[i] == 0
    ensures Val(s) == Val(s[..n])
  {
    ValSplit(s, n);
    ValZero(s[n..]);
  }

  /** Equally long sequences with the same value are the same sequence. */
  lemma {:induction false} ValInjective(s: seq<Word>, t: seq<Word>)
    requires |s| == |t| && Val(s) == Val(t)
    ensures s == t
  {
    if |s| > 0 {
      var n := |s| - 1;
      ValBound(s[..n]);
      ValBound(t[..n]);
      TopUnique(Val(s[..n]), s[n], Val(t[..n]), t[n], W(n));
      ValInjective(s[..n], t[..n]);
      assert s == s[..n] + [s[n]] && t == t[..n] + [t[n]];
    }
  }

  lemma TopUnique(v: nat, c: nat, v': nat, c': nat, w: nat)
    requires v < w && v' < w && v + c * w == v' + c' * w
    ensures v == v' && c == c'
  {
    DivisionUnique(v + c * w, w, c, v);
    DivisionUnique(v' + c' * w, w, c', v');
  }

  lemma Pow2Of32()
    ensures Pow(2, 32) == 0x1_0000_0000
  {
    assert Pow(2, 8) == 256;
    PowAdd(2, 8, 8);
    PowAdd(2, 16, 16);
  }

  /** Word weights are powers of two. */
  lemma WeightIsPow2(n: nat)
    ensures W(n) == Pow(2, 32 * n)
  {
    Pow2Of32();
    PowPower(2, 32, n);
  }
}
