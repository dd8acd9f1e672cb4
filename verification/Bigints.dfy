/**
 The arbitrary-precision kernel of strtod (so3/lib/strtod.c).  A Bigint is a word
 array used in place; every operation is proved against natural-number arithmetic
 on the value the words stand for.
 */
module Bigints {
  import opened Powers
  import opened Words

  class Bigint {
    const k: nat
    const x: array<Word>   // 2^k words of storage (maxwds in the source)
    var sign: int
    var wds: nat           // words in use

    ghost predicate Valid()
      reads this
    {
      x.Length == Pow(2, k) && wds <= x.Length
    }

    /** The documented normal form: at least one word, no leading zero word except for zero itself. */
    ghost predicate Normal()
      reads this, x
    {
      Valid() && wds >= 1 && (wds == 1 || x[wds - 1] != 0)
    }

    /** Normal, or the empty zero that Quorem can leave behind. */
    ghost predicate NormalOrEmpty()
      reads this, x
    {
      Normal() || (Valid() && wds == 0 && x.Length > 0 && x[0] == 0)
    }

    ghost function Value(): (v: nat)
      requires Valid()
      reads this, x
    {
      Val(x[..wds])
    }

    /** Fresh storage for 2^k words (Balloc). */
    constructor (k: nat)
      ensures this.k == k && Valid() && wds == 0 && sign == 0
      ensures fresh(x)
    {
      this.k := k;
      this.x := new Word[Pow(2, k)];
      this.wds := 0;
      this.sign := 0;
    }
  }

  // ---------------------------------------------------------------- normal form and order

  /** A normal number is at least the weight of its top word. */
  lemma NormalSize(s: seq<Word>)
    requires |s| >= 1 && (|s| == 1 || s[|s| - 1] != 0)
    ensures |s| > 1 ==> Val(s) >= W(|s| - 1)
    ensures Val(s) < W(|s|)
  {
    TopWord(s);
    ValBound(s);
  }

  /** More words in normal form means a larger number. */
  lemma LongerIsLarger(s: seq<Word>, t: seq<Word>)
    requires |s| < |t| && |t| >= 1 && (|t| == 1 || t[|t| - 1] != 0)
    requires |t| == 1 ==> Val(t) > 0
    ensures Val(s) < Val(t)
  {
    ValBound(s);
    NormalSize(t);
    if |t| > 1 {
      WMonotone(|s|, |t| - 1);
    }
  }

  // ---------------------------------------------------------------- rows: c + s*m + a, one column at a time

  /** The carry into column i of c + s*m + a. */
  function RowCarry(s: seq<Word>, m: Word, c: seq<Word>, a: Word, i: nat): Word
    requires i <= |s| && i <= |c|
  {
    if i == 0 then a
    else
      RowBound(s[i - 1], m, c[i - 1], RowCarry(s, m, c, a, i - 1));
      (s[i - 1] * m + c[i - 1] + RowCarry(s, m, c, a, i - 1)) / 0x1_0000_0000
  }

  /** Word i of c + s*m + a. */
  function RowWord(s: seq<Word>, m: Word, c: seq<Word>, a: Word, i: nat): Word
    requires i < |s| && i < |c|
  {
    (s[i] * m + c[i] + RowCarry(s, m, c, a, i)) % 0x1_0000_0000
  }

  /** A column fits 64 bits and its carry fits a word. */
  lemma RowBound(x: Word, m: Word, c: Word, carry: Word)
    ensures 0 <= x * m + c + carry < 0x1_0000_0000_0000_0000
    ensures 0 <= (x * m + c + carry) / 0x1_0000_0000 < 0x1_0000_0000
  {
    var p := x * m;
    assert 0 <= p;
    assert p <= m * 0xffff_ffff by { MulMonotone(m, x, 0xffff_ffff); }
    ProductBound(p, m, c + carry);
  }

  lemma ProductBound(p: int, m: Word, c: nat)
    requires 0 <= p <= m * 0xffff_ffff && c <= 2 * 0xffff_ffff
    ensures 0 <= p + c < 0x1_0000_0000_0000_0000
    ensures 0 <= (p + c) / 0x1_0000_0000 < 0x1_0000_0000
  {
  }

  lemma RowColumn(s: seq<Word>, m: Word, c: seq<Word>, a: Word, i: nat)
    requires i < |s| && i < |c|
    ensures s[i] * m + c[i] + RowCarry(s, m, c, a, i)
         == RowWord(s, m, c, a, i) + 0x1_0000_0000 * RowCarry(s, m, c, a, i + 1)
  {
    var y := s[i] * m + c[i] + RowCarry(s, m, c, a, i);
    assert y == y % 0x1_0000_0000 + 0x1_0000_0000 * (y / 0x1_0000_0000);
  }

  /** The defining equations of the row functions, for proofs that hide their bodies. */
  lemma RowDef(s: seq<Word>, m: Word, c: seq<Word>, a: Word, i: nat)
    requires i < |s| && i < |c|
    ensures RowWord(s, m, c, a, i) == (s[i] * m + c[i] + RowCarry(s, m, c, a, i)) % 0x1_0000_0000
    ensures RowCarry(s, m, c, a, i + 1) == (s[i] * m + c[i] + RowCarry(s, m, c, a, i)) / 0x1_0000_0000
  {
  }

  lemma RowStart(s: seq<Word>, m: Word, c: seq<Word>, a: Word)
    ensures RowCarry(s, m, c, a, 0) == a
  {
  }

  lemma RowStep(v: nat, v0: nat, vc: nat, w: nat, x: nat, m: nat, c: nat, carry: nat, a: nat, lo: nat, hi: nat)
    requires v + carry * w == vc + v0 * m + a
    requires x * m + c + carry == lo + 0x1_0000_0000 * hi
    ensures (v + lo * w) + hi * (0x1_0000_0000 * w) == (vc + c * w) + (v0 + x * w) * m + a
  {
    assert lo * w + hi * (0x1_0000_0000 * w) == (lo + 0x1_0000_0000 * hi) * w;
    assert (x * m + c + carry) * w == x * m * w + c * w + carry * w;
    assert (v0 + x * w) * m == v0 * m + x * w * m;
    assert x * m * w == x * w * m;
  }

  /** Column by column, the words and the last carry spell out c + s*m + a. */
  lemma {:induction false} RowValue(s: seq<Word>, m: Word, c: seq<Word>, a: Word, t: seq<Word>, n: nat)
    requires n <= |s| && n <= |c| && n <= |t|
    requires forall j :: 0 <= j < n ==> t[j] == RowWord(s, m, c, a, j)
    ensures Val(t[..n]) + RowCarry(s, m, c, a, n) * W(n) == Val(c[..n]) + Val(s[..n]) * m + a
  {
    if n > 0 {
      var i := n - 1;
      RowValue(s, m, c, a, t, i);
      ValSnoc(s, i);
      ValSnoc(t, i);
      ValSnoc(c, i);
      RowColumn(s, m, c, a, i);
      RowStep(Val(t[..i]), Val(s[..i]), Val(c[..i]), W(i), s[i], m, c[i], RowCarry(s, m, c, a, i), a,
              t[i], RowCarry(s, m, c, a, n));
    }
  }

  function Zeros(n: nat): (z: seq<Word>)
    ensures |z| == n && forall i :: 0 <= i < n ==> z[i] == 0
    ensures Val(z) == 0
  {
    var z := seq(n, _ => 0);
    ValZero(z);
    z
  }

  // ---------------------------------------------------------------- multadd

  /** The words multadd leaves: exact value, and normal form kept when m > 0. */
  lemma MultAddResult(s: seq<Word>, n: nat, m: Word, a: Word, t: seq<Word>)
    requires 1 <= n <= |s|
    requires |t| == n + (if RowCarry(s, m, Zeros(|s|), a, n) == 0 then 0 else 1)
    requires forall j :: 0 <= j < n ==> t[j] == RowWord(s, m, Zeros(|s|), a, j)
    requires |t| > n ==> t[n] == RowCarry(s, m, Zeros(|s|), a, n)
    ensures Val(t) == Val(s[..n]) * m + a
    ensures m > 0 && (n == 1 || s[n - 1] != 0) ==> |t| == 1 || t[|t| - 1] != 0
  {
    RowValue(s, m, Zeros(|s|), a, t, n);
    assert Zeros(|s|)[..n] == Zeros(n);
    if |t| == n {
      assert t[..n] == t;
      if m > 0 && n > 1 && s[n - 1] != 0 {
        NormalSize(s[..n]);
        MulAtLeast(Val(s[..n]), m);
        TopWord(t);
      }
    } else {
      ValSnoc(t, n);
      assert t[..n + 1] == t;
    }
  }

  /** The column loop of multadd over the first n words, at least one. */
  method MultAddColumns(x: array<Word>, n: nat, m: Word, a: Word) returns (carry: Word)
    requires 1 <= n <= x.Length
    modifies x
    ensures x[n..] == old(x[n..])
    ensures carry == RowCarry(old(x[..]), m, Zeros(x.Length), a, n)
    ensures forall j :: 0 <= j < n ==> x[j] == RowWord(old(x[..]), m, Zeros(x.Length), a, j)
  {
    hide RowWord, RowCarry;
    ghost var s := x[..];
    ghost var z := Zeros(x.Length);
    RowStart(s, m, z, a);
    carry := a;
    for i := 0 to n
      invariant x[i..] == s[i..]
      invariant carry == RowCarry(s, m, z, a, i)
      invariant forall j :: 0 <= j < i ==> x[j] == RowWord(s, m, z, a, j)
    {
      var xi := x[i];
      var y := xi * m + carry;
      RowBound(xi, m, 0, carry);
      RowDef(s, m, z, a, i);
      carry, x[i] := y / 0x1_0000_0000, y % 0x1_0000_0000;
    }
  }

  /** A copy of b in storage twice the size. */
  method Enlarged(b: Bigint) returns (r: Bigint)
    requires b.Valid()
    ensures fresh(r) && fresh(r.x) && r.Valid() && r.k == b.k + 1 && r.sign == b.sign && r.wds == b.wds < r.x.Length
    ensures forall j :: 0 <= j < b.wds ==> r.x[j] == b.x[j]
  {
    r := new Bigint(b.k + 1);
    PowPositive(2, b.k);
    forall j | 0 <= j < b.wds { r.x[j] := b.x[j]; }
    r.sign, r.wds := b.sign, b.wds;
  }

  /** b*m + a in place, or in a copy twice the size when the last carry does not fit. */
  method MultAdd(b: Bigint, m: nat, a: nat) returns (r: Bigint)
    requires b.NormalOrEmpty()
    requires m < 0x8000_0000 && a < 0x8000_0000
    requires b.wds == 0 ==> a == 0
    modifies b, b.x
    ensures r.Valid() && r.Value() == old(b.Value()) * m + a
    ensures old(b.Normal()) && m > 0 ==> r.Normal()
    ensures old(b.wds) == 0 ==> r.wds == 0 && r.NormalOrEmpty()
    ensures r == b || (fresh(r) && fresh(r.x))
  {
    hide W;
    var wds := b.wds;
    ghost var s := b.x[..];
    // the source's do-while visits word 0 even when wds is 0
    var carry := MultAddColumns(b.x, if wds == 0 then 1 else wds, m, a);
    r := b;
    if carry != 0 {
      if wds >= b.x.Length {
        r := Enlarged(b);
      }
      r.x[wds] := carry;
      r.wds := wds + 1;
    }
    if wds > 0 {
      MultAddResult(s, wds, m, a, r.x[..r.wds]);
    }
  }

  // ---------------------------------------------------------------- cmp

  /** The highest differing word decides. */
  lemma HighestDifference(s: seq<Word>, t: seq<Word>, k: nat)
    requires |s| == |t| && k < |s| && s[k + 1..] == t[k + 1..] && s[k] < t[k]
    ensures Val(s) < Val(t)
  {
    hide Val, W;
    ValSplit(s, k + 1);
    ValSplit(t, k + 1);
    var s', t' := s[..k + 1], t[..k + 1];
    TopWord(s');
    TopWord(t');
    LargerTop(Val(s'), Val(t'), s'[k], t'[k], W(k));
  }

  lemma LargerTop(vs: nat, vt: nat, cs: nat, ct: nat, w: nat)
    requires vs < (cs + 1) * w && ct * w <= vt && cs < ct
    ensures vs < vt
  {
    MulMonotone(w, cs + 1, ct);
  }

  /** Three-way comparison; only the sign of the result means anything. */
  method Cmp(a: Bigint, b: Bigint) returns (r: int)
    requires a.NormalOrEmpty() && b.Normal()
    requires a.wds == 0 ==> b.Value() > 0
    ensures r < 0 <==> a.Value() < b.Value()
    ensures r == 0 <==> a.Value() == b.Value()
    ensures r > 0 <==> a.Value() > b.Value()
  {
    hide Val;
    ghost var s, t := a.x[..a.wds], b.x[..b.wds];
    if a.wds != b.wds {
      if a.wds < b.wds {
        LongerIsLarger(s, t);
      } else {
        LongerIsLarger(t, s);
      }
      return a.wds - b.wds;
    }
    var i := a.wds;
    while i > 0
      invariant 0 <= i <= a.wds
      invariant s[i..] == t[i..]
    {
      i := i - 1;
      if a.x[i] != b.x[i] {
        if a.x[i] < b.x[i] {
          HighestDifference(s, t, i);
          return -1;
        }
        HighestDifference(t, s, i);
        return 1;
      }
    }
    assert s == t;
    return 0;
  }

  // ---------------------------------------------------------------- subtraction with borrow

  /** The borrow into column i of b - t. */
  function Borrow(b: seq<Word>, t: seq<Word>, i: nat): (r: nat)
    requires i <= |b| && i <= |t|
    ensures r <= 1
  {
    if i == 0 then 0 else if b[i - 1] - t[i - 1] - Borrow(b, t, i - 1) < 0 then 1 else 0
  }

  function DiffWord(b: seq<Word>, t: seq<Word>, i: nat): Word
    requires i < |b| && i < |t|
  {
    (b[i] - t[i] - Borrow(b, t, i)) % 0x1_0000_0000
  }

  /** Reading the borrow from bit 32 of the wrapped 64-bit difference is exact. */
  lemma WrappedDifference(d: int)
    requires -0x1_0000_0000 <= d < 0x1_0000_0000
    ensures (d % 0x1_0000_0000_0000_0000) / 0x1_0000_0000 % 2 == if d < 0 then 1 else 0
    ensures (d % 0x1_0000_0000_0000_0000) % 0x1_0000_0000 == d % 0x1_0000_0000
  {
    if d < 0 {
      DivisionUnique(d, 0x1_0000_0000_0000_0000, -1, d + 0x1_0000_0000_0000_0000);
      DivisionUnique(d, 0x1_0000_0000, -1, d + 0x1_0000_0000);
    }
  }

  lemma BorrowDef(b: seq<Word>, t: seq<Word>, i: nat)
    requires i < |b| && i < |t|
    ensures DiffWord(b, t, i) == (b[i] - t[i] - Borrow(b, t, i)) % 0x1_0000_0000
    ensures Borrow(b, t, i + 1) == if b[i] - t[i] - Borrow(b, t, i) < 0 then 1 else 0
    ensures DiffWord(b, t, i) + t[i] + Borrow(b, t, i) == b[i] + 0x1_0000_0000 * Borrow(b, t, i + 1)
  {
  }

  lemma BorrowStart(b: seq<Word>, t: seq<Word>)
    ensures Borrow(b, t, 0) == 0
  {
  }

  lemma BorrowStep(v: int, vt: int, vb: int, w: int, lo: int, t: int, b: int, c: int, c': int)
    requires v + vt == vb + c * w
    requires lo + t + c == b + 0x1_0000_0000 * c'
    ensures (v + lo * w) + (vt + t * w) == (vb + b * w) + c' * (0x1_0000_0000 * w)
  {
    assert (lo + t + c) * w == lo * w + t * w + c * w;
    assert (b + 0x1_0000_0000 * c') * w == b * w + c' * (0x1_0000_0000 * w);
  }

  /** The difference words and the last borrow spell out b - t. */
  lemma {:induction false} DiffValue(b: seq<Word>, t: seq<Word>, r: seq<Word>, n: nat)
    requires n <= |b| && n <= |t| && n <= |r|
    requires forall j :: 0 <= j < n ==> r[j] == DiffWord(b, t, j)
    ensures Val(r[..n]) + Val(t[..n]) == Val(b[..n]) + Borrow(b, t, n) * W(n)
    ensures Val(t[..n]) <= Val(b[..n]) ==> Borrow(b, t, n) == 0
  {
    if n > 0 {
      var i := n - 1;
      DiffValue(b, t, r, i);
      ValSnoc(b, i);
      ValSnoc(t, i);
      ValSnoc(r, i);
      BorrowDef(b, t, i);
      BorrowStep(Val(r[..i]), Val(t[..i]), Val(b[..i]), W(i), r[i], t[i], b[i], Borrow(b, t, i), Borrow(b, t, n));
      ValBound(r[..n]);
    }
  }

  /** The words of s*q, without the last carry. */
  ghost function ProductWords(s: seq<Word>, q: Word): (t: seq<Word>)
    ensures |t| == |s|
    ensures forall j :: 0 <= j < |s| ==> t[j] == RowWord(s, q, Zeros(|s|), 0, j)
  {
    seq(|s|, j requires 0 <= j < |s| => RowWord(s, q, Zeros(|s|), 0, j))
  }

  lemma ProductWordsValue(s: seq<Word>, q: Word, p: nat)
    requires p == Val(s) * q && p < W(|s|)
    ensures Val(ProductWords(s, q)) == p
  {
    hide RowCarry, RowWord, Zeros, ProductWords, Val, W;
    var n, t := |s|, ProductWords(s, q);
    RowValue(s, q, Zeros(n), 0, t, n);
    assert t[..n] == t && s[..n] == s && Zeros(n)[..n] == Zeros(n);
    NoCarry(Val(t), RowCarry(s, q, Zeros(n), 0, n), W(n), p);
  }

  lemma NoCarry(v: nat, c: nat, w: nat, bound: nat)
    requires v + c * w <= bound < w
    ensures c == 0
  {
    if c > 0 {
      MulMonotone(w, 1, c);
    }
  }

  /** When s*q does not exceed b, subtracting it column by column leaves exactly b - s*q. */
  lemma SubtractedValue(b: seq<Word>, s: seq<Word>, q: Word, p: nat, r: seq<Word>)
    requires |b| == |s| == |r| && p == Val(s) * q && p <= Val(b)
    requires forall j :: 0 <= j < |s| ==> r[j] == DiffWord(b, ProductWords(s, q), j)
    ensures Val(r) == Val(b) - p
  {
    hide DiffWord, Borrow, ProductWords, Val, W;
    var n, t := |s|, ProductWords(s, q);
    ValBound(b);
    ProductWordsValue(s, q, p);
    DiffValue(b, t, r, n);
    assert t[..n] == t && b[..n] == b && r[..n] == r;
  }

  /** bx -= sx * q over n words, in one pass with a multiplication carry and a subtraction borrow. */
  method SubtractMultiple(bx: array<Word>, sx: array<Word>, n: nat, q: Word)
    requires bx != sx && n <= bx.Length && n <= sx.Length
    modifies bx
    ensures bx[n..] == old(bx[n..])
    ensures forall j :: 0 <= j < n ==> bx[j] == DiffWord(old(bx[..n]), ProductWords(sx[..n], q), j)
  {
    hide RowCarry, RowWord, DiffWord, Borrow, ProductWords, Zeros;
    ghost var b, s := bx[..n], sx[..n];
    ghost var t, z := ProductWords(s, q), Zeros(n);
    var carry: Word, borrow: nat := 0, 0;
    RowStart(s, q, z, 0);
    BorrowStart(b, t);
    for i := 0 to n
      invariant carry == RowCarry(s, q, z, 0, i) && borrow == Borrow(b, t, i)
      invariant bx[n..] == old(bx[n..]) && forall j :: i <= j < n ==> bx[j] == b[j]
      invariant forall j :: 0 <= j < i ==> bx[j] == DiffWord(b, t, j)
    {
      RowDef(s, q, z, 0, i);
      BorrowDef(b, t, i);
      assert sx[i] == s[i] && bx[i] == b[i];
      RowBound(sx[i], q, 0, carry);
      var ys := sx[i] * q + carry;
      carry := ys / 0x1_0000_0000;
      var d := bx[i] - ys % 0x1_0000_0000 - borrow;
      WrappedDifference(d);
      var y := d % 0x1_0000_0000_0000_0000;
      borrow := y / 0x1_0000_0000 % 2;
      bx[i] := y % 0x1_0000_0000;
    }
  }

  /** Drops leading zero words after word n, leaving at least one word unless n is 0. */
  method DropLeadingZeros(b: Bigint, n: nat)
    requires b.Valid() && b.wds == n + 1
    modifies b`wds
    ensures b.wds <= n + 1 && b.Value() == old(b.Value())
    ensures b.NormalOrEmpty()
    ensures b.wds == 0 <==> n == 0 && b.x[0] == 0
  {
    if b.x[n] == 0 {
      var m, e := n, n - 1;
      while e > 0 && b.x[e] == 0
        invariant 0 <= m <= n && e == m - 1 && (n > 0 ==> m > 0)
        invariant forall j :: m <= j <= n ==> b.x[j] == 0
      {
        m, e := m - 1, e - 1;
      }
      ValDropZeros(b.x[..n + 1], m);
      assert b.x[..n + 1][..m] == b.x[..m];
      b.wds := m;
    }
  }
}
