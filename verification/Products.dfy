/** Multiplication, left shift and subtraction of Bigints (so3/lib/strtod.c). */
module Products {
  import opened Powers
  import opened Words
  import opened Bits
  import opened Bigints

  // ---------------------------------------------------------------- mult

  /** t holds the words of c + s*m below its last carry. */
  ghost predicate IsRow(s: seq<Word>, m: Word, c: seq<Word>, t: seq<Word>)
    requires |s| == |c| == |t|
  {
    forall i :: 0 <= i < |s| ==> t[i] == RowWord(s, m, c, 0, i)
  }

  /** Adds ax times y to cx from word j on, over wa words; the carry lands in the word above, which must be zero. */
  method AddRow(cx: array<Word>, j: nat, ax: array<Word>, wa: nat, y: Word)
    requires cx != ax && wa <= ax.Length && j + wa < cx.Length
    modifies cx
    ensures forall i :: 0 <= i < j || j + wa < i < cx.Length ==> cx[i] == old(cx[i])
    ensures IsRow(ax[..wa], y, old(cx[j..j + wa]), cx[j..j + wa])
    ensures cx[j + wa] == RowCarry(ax[..wa], y, old(cx[j..j + wa]), 0, wa)
  {
    hide RowCarry, RowWord;
    ghost var a, c := ax[..wa], cx[j..j + wa];
    RowStart(a, y, c, 0);
    var carry: Word := 0;
    for i := 0 to wa
      invariant forall k :: 0 <= k < j || j + wa < k < cx.Length ==> cx[k] == old(cx[k])
      invariant carry == RowCarry(a, y, c, 0, i)
      invariant forall k :: 0 <= k < i ==> cx[j..j + wa][k] == RowWord(a, y, c, 0, k)
      invariant forall k :: i <= k < wa ==> cx[j..j + wa][k] == c[k]
    {
      RowDef(a, y, c, 0, i);
      assert ax[i] == a[i] && cx[j + i] == cx[j..j + wa][i] == c[i];
      RowBound(ax[i], y, cx[j + i], carry);
      var z := ax[i] * y + cx[j + i] + carry;
      carry := z / 0x1_0000_0000;
      cx[j + i] := z % 0x1_0000_0000;
    }
    cx[j + wa] := carry;
  }

  /** Adding one row adds a*y at weight W(j). */
  lemma AddRowValue(c: seq<Word>, c': seq<Word>, j: nat, a: seq<Word>, y: Word)
    requires |c'| == |c| && j + |a| < |c|
    requires forall i :: j + |a| <= i < |c| ==> c[i] == 0
    requires forall i :: 0 <= i < j || j + |a| < i < |c| ==> c'[i] == c[i]
    requires IsRow(a, y, c[j..j + |a|], c'[j..j + |a|])
    requires c'[j + |a|] == RowCarry(a, y, c[j..j + |a|], 0, |a|)
    ensures Val(c') == Val(c) + W(j) * (Val(a) * y)
  {
    hide Val, W, RowWord, RowCarry;
    var n := |a|;
    var d, d' := c[j..], c'[j..];
    assert c'[..j] == c[..j];
    ValSplit(c, j);
    ValSplit(c', j);
    ValDropZeros(d, n);
    assert d[..n] == c[j..j + n];
    assert d'[..n] == c'[j..j + n];
    RowValue(a, y, d[..n], 0, d'[..n], n);
    assert d[..n][..n] == d[..n] && d'[..n][..n] == d'[..n] && a[..n] == a;
    ValDropZeros(d', n + 1);
    ValSnoc(d', n);
    assert Val(d') == Val(d) + Val(a) * y;
    Distribute(W(j), Val(d), Val(a) * y);
  }

  lemma Distribute(w: int, x: int, y: int)
    ensures w * (x + y) == w * x + w * y
  {
  }

  lemma ProductStep(w: nat, va: nat, vb: nat, y: nat)
    ensures va * (vb + y * w) == va * vb + w * (va * y)
  {
    assert va * (y * w) == w * (va * y);
  }

  lemma ProductPositive(x: nat, y: nat)
    requires x > 0 && y > 0
    ensures x * y > 0
  {
  }

  predicate IsZero(b: Bigint)
    requires b.x.Length > 0
    reads b, b.x
  {
    b.x[0] == 0 && b.wds == 1
  }

  lemma IsZeroValue(s: seq<Word>)
    requires |s| >= 1 && (|s| == 1 || s[|s| - 1] != 0)
    ensures |s| == 1 && s[0] == 0 <==> Val(s) == 0
  {
    ValZero(s);
  }

  lemma PrefixSlice(x: array<Word>, n: nat, i: nat, j: nat)
    requires i <= j <= n <= x.Length
    ensures x[..n][i..j] == x[i..j]
  {
  }

  /** The schoolbook rows: after j rows, c holds a times the low j words of b. */
  method MultRows(cx: array<Word>, wc: nat, ax: array<Word>, wa: nat, bx: array<Word>, wb: nat)
    requires cx != ax && cx != bx && wa <= ax.Length && wb <= bx.Length && wc == wa + wb <= cx.Length
    requires forall i :: 0 <= i < wc ==> cx[i] == 0
    modifies cx
    ensures Val(cx[..wc]) == Val(ax[..wa]) * Val(bx[..wb])
  {
    hide Val, W, RowCarry, RowWord;
    ghost var a, b := ax[..wa], bx[..wb];
    ValZero(cx[..wc]);
    ValZero(b[..0]);
    for j := 0 to wb
      invariant Val(cx[..wc]) == Val(a) * Val(b[..j])
      invariant forall i :: j + wa <= i < wc ==> cx[i] == 0
    {
      var y := bx[j];
      ghost var c := cx[..wc];
      ValSnoc(b, j);
      ProductStep(W(j), Val(a), Val(b[..j]), y);
      if y != 0 {
        PrefixSlice(cx, wc, j, j + wa);
        AddRow(cx, j, ax, wa, y);
        PrefixSlice(cx, wc, j, j + wa);
        AddRowValue(c, cx[..wc], j, a, y);
      }
    }
    assert b[..wb] == b;
  }

  /** Sets wds to wc less the leading zero words. */
  method TrimProduct(c: Bigint, wc0: nat)
    requires c.Valid() && wc0 <= c.x.Length && Val(c.x[..wc0]) > 0
    modifies c`wds
    ensures c.Normal() && c.Value() == Val(c.x[..wc0])
  {
    hide Val, W;
    var wc := wc0;
    ghost var full := c.x[..wc];
    ValZero(full);
    while wc > 0 && c.x[wc - 1] == 0
      invariant 0 <= wc <= |full|
      invariant forall j :: wc <= j < |full| ==> full[j] == 0
    {
      wc := wc - 1;
    }
    ValDropZeros(full, wc);
    assert full[..wc] == c.x[..wc];
    c.wds := wc;
  }

  /** The product of two nonzero numbers, the longer one first; its storage always suffices. */
  method MultNonzero(a: Bigint, b: Bigint) returns (c: Bigint)
    requires a.Normal() && b.Normal() && a.wds >= b.wds && a.Value() > 0 && b.Value() > 0
    ensures fresh(c) && fresh(c.x)
    ensures c.Normal() && c.Value() == a.Value() * b.Value()
  {
    hide Val, W;
    var k, wc := a.k, a.wds + b.wds;
    if wc > a.x.Length {
      k := k + 1;
    }
    c := new Bigint(k);
    for i := 0 to wc
      invariant forall j :: 0 <= j < i ==> c.x[j] == 0
      modifies c.x
    {
      c.x[i] := 0;
    }
    MultRows(c.x, wc, a.x, a.wds, b.x, b.wds);
    ProductPositive(a.Value(), b.Value());
    TrimProduct(c, wc);
  }

  /** a*b in a new Bigint. */
  method Mult(a: Bigint, b: Bigint) returns (c: Bigint)
    requires a.Normal() && b.Normal()
    ensures fresh(c) && fresh(c.x)
    ensures c.Normal() && c.Value() == a.Value() * b.Value()
  {
    hide Val, W;
    IsZeroValue(a.x[..a.wds]);
    IsZeroValue(b.x[..b.wds]);
    if IsZero(a) || IsZero(b) {
      c := new Bigint(0);
      c.wds := 1;
      c.x[0] := 0;
      ValZero(c.x[..1]);
    } else if a.wds < b.wds {
      c := MultNonzero(b, a);
    } else {
      c := MultNonzero(a, b);
    }
  }

  // ---------------------------------------------------------------- lshift

  /** Shifting a word left by k and or-ing in the bits from below is one column of a multiplication by 2^k. */
  lemma ShiftColumn(x: Word, z: nat, k: nat)
    requires 0 < k < 32 && z < Pow(2, k)
    ensures Pow(2, k) < 0x1_0000_0000 && Pow(2, 32 - k) > 0
    ensures BitOr(x * Pow(2, k) % 0x1_0000_0000, z) == (x * Pow(2, k) + z) % 0x1_0000_0000
    ensures x / Pow(2, 32 - k) == (x * Pow(2, k) + z) / 0x1_0000_0000
    ensures 0 <= x / Pow(2, 32 - k) < Pow(2, k)
  {
    hide Pow;
    Pow2Of32();
    PowAdd(2, k, 32 - k);
    PowPositive(2, k);
    PowPositive(2, 32 - k);
    var p, q := Pow(2, k), Pow(2, 32 - k);
    PowAtLeast2(32 - k);
    MulMonotone(p, 2, q);
    SplitShift(x, z, p, q);
    BitOrDisjoint(x % q, z, k);
  }

  lemma PowAtLeast2(k: nat)
    requires k > 0
    ensures Pow(2, k) >= 2
  {
    PowPositive(2, k - 1);
  }

  lemma SplitProduct(x: nat, p: nat, q: nat, hi: int, lo: int)
    requires x == hi * q + lo && 0 <= lo < q
    ensures x * p == hi * (p * q) + lo * p && 0 <= lo * p && lo * p + p <= p * q
  {
    assert x * p == hi * q * p + lo * p;
    MulAssoc(hi, q, p);
    MulMonotone(p, lo + 1, q);
    MulMonotone(p, 0, lo);
  }

  lemma SplitShift(x: nat, z: nat, p: nat, q: nat)
    requires p > 0 && q > 0 && p * q == 0x1_0000_0000 && z < p && x < 0x1_0000_0000
    ensures x * p % 0x1_0000_0000 == x % q * p
    ensures (x * p + z) % 0x1_0000_0000 == x % q * p + z
    ensures (x * p + z) / 0x1_0000_0000 == x / q
    ensures 0 <= x / q < p
  {
    var hi, lo := x / q, x % q;
    DivNonnegative(x, q);
    SplitProduct(x, p, q, hi, lo);
    DivisionUnique(x * p, 0x1_0000_0000, hi, lo * p);
    DivisionUnique(x * p + z, 0x1_0000_0000, hi, lo * p + z);
    if hi >= p {
      MulMonotone(q, p, hi);
    }
  }

  /** The bit-shifting loop: n zero words, then the words of s * 2^k and its carry. */
  method ShiftWords(x1: array<Word>, n: nat, x: array<Word>, wds: nat, k: nat)
    requires x1 != x && 0 < wds <= x.Length && n + wds < x1.Length && 0 < k < 32
    requires Pow(2, k) < 0x1_0000_0000
    modifies x1
    ensures x1[..n] == old(x1[..n])
    ensures IsRow(x[..wds], Pow(2, k), Zeros(wds), x1[n..n + wds])
    ensures x1[n + wds] == RowCarry(x[..wds], Pow(2, k), Zeros(wds), 0, wds)
  {
    hide RowCarry, RowWord, Zeros;
    ghost var s, p: Word, c := x[..wds], Pow(2, k), Zeros(wds);
    RowStart(s, p, c, 0);
    PowPositive(2, k);
    var z: Word := 0;
    for i := 0 to wds
      invariant x1[..n] == old(x1[..n])
      invariant 0 <= z < Pow(2, k) && z == RowCarry(s, p, c, 0, i)
      invariant forall j :: 0 <= j < i ==> x1[n..n + wds][j] == RowWord(s, p, c, 0, j)
    {
      RowDef(s, p, c, 0, i);
      ShiftColumn(x[i], z, k);
      assert x[i] == s[i];
      x1[n + i] := BitOr(x[i] * Pow(2, k) % 0x1_0000_0000, z);
      z := x[i] / Pow(2, 32 - k);
    }
    x1[n + wds] := z;
  }

  /** n zero words below t multiply its value by 2^(32n). */
  lemma ZeroWordsBelow(full: seq<Word>, n: nat)
    requires n <= |full| && forall i :: 0 <= i < n ==> full[i] == 0
    ensures Val(full) == Val(full[n..]) * Pow(2, 32 * n)
  {
    hide Val, W, Pow;
    ValSplit(full, n);
    ValZero(full[..n]);
    WeightIsPow2(n);
  }

  lemma ShiftedValue(full: seq<Word>, s: seq<Word>, n: nat, k: nat)
    requires |full| == n + |s| + 1 && (forall i :: 0 <= i < n ==> full[i] == 0)
    requires Pow(2, k) < 0x1_0000_0000
    requires IsRow(s, Pow(2, k), Zeros(|s|), full[n..n + |s|])
    requires full[n + |s|] == RowCarry(s, Pow(2, k), Zeros(|s|), 0, |s|)
    ensures Val(full) == Val(s) * Pow(2, 32 * n + k)
  {
    hide Val, W, RowCarry, RowWord, Pow, Zeros;
    var t, m := full[n..], |s|;
    ZeroWordsBelow(full, n);
    assert t[..m] == full[n..n + m];
    RowValue(s, Pow(2, k), Zeros(m), 0, t[..m], m);
    assert s[..m] == s && t[..m][..m] == t[..m] && Zeros(m)[..m] == Zeros(m);
    ValSnoc(t, m);
    assert t[..m + 1] == t;
    PowAdd(2, k, 32 * n);
    MulAssoc(Val(s), Pow(2, k), Pow(2, 32 * n));
  }

  /** With no carry out, the word below is the nonzero top word. */
  lemma ShiftedNormal(full: seq<Word>, s: seq<Word>, n: nat, k: nat)
    requires |s| >= 1 && |full| == n + |s| + 1 && full[n + |s|] == 0
    requires Val(s) > 0 && (|s| == 1 || s[|s| - 1] != 0)
    requires Val(full) == Val(s) * Pow(2, 32 * n + k)
    ensures full[n + |s| - 1] != 0
  {
    hide Val, W, Pow;
    var m := n + |s|;
    assert Val(s) >= W(|s| - 1) by {
      NormalSize(s);
      WeightIsPow2(0);
      PowZero(2);
    }
    assert Val(full) >= W(m - 1) by {
      PowMonotone(2, 32 * n, 32 * n + k);
      WeightIsPow2(n);
      WeightIsPow2(|s| - 1);
      WeightIsPow2(m - 1);
      PowAdd(2, 32 * (|s| - 1), 32 * n);
      assert 32 * (|s| - 1) + 32 * n == 32 * (m - 1);
      MulMonotone(Val(s), W(n), Pow(2, 32 * n + k));
      MulMonotone(W(n), W(|s| - 1), Val(s));
    }
    ValDropZeros(full, m);
    TopWord(full[..m]);
  }

  /** Room for n1 words: the exponent the doubling loop of lshift ends with. */
  method RoomFor(k: nat, n1: nat) returns (k1: nat)
    ensures k1 >= k && n1 <= Pow(2, k1)
  {
    k1 := k;
    var i := Pow(2, k);
    PowPositive(2, k);
    while n1 > i
      invariant k1 >= k && i == Pow(2, k1) && i > 0
      decreases n1 - i
    {
      i := 2 * i;
      k1 := k1 + 1;
    }
  }

  /** Shift by n words and 0 < k < 32 bits into r, whose low n words are already zero. */
  method ShiftBits(r: Bigint, b: Bigint, n: nat, k: nat)
    requires r != b && r.x != b.x && r.Valid() && b.Normal() && b.Value() > 0
    requires n + b.wds + 1 <= r.x.Length && 0 < k < 32
    requires forall j :: 0 <= j < n ==> r.x[j] == 0
    modifies r`wds, r.x
    ensures r.Normal() && r.Value() == b.Value() * Pow(2, 32 * n + k)
  {
    hide Val, W, RowCarry, RowWord, Zeros, IsRow, Pow;
    var n1 := n + b.wds + 1;
    ghost var s, low := b.x[..b.wds], r.x[..n];
    PowPositive(2, k);
    ShiftColumn(0, 0, k);
    ShiftWords(r.x, n, b.x, b.wds, k);
    ghost var full := r.x[..n1];
    assert forall j :: 0 <= j < n ==> full[j] == low[j];
    PrefixSlice(r.x, n1, n, n + b.wds);
    ShiftedValue(full, s, n, k);
    if r.x[n + b.wds] != 0 {
      n1 := n1 + 1;
    } else {
      ShiftedNormal(full, s, n, k);
      ValDropZeros(full, n1 - 1);
    }
    r.wds := n1 - 1;
    assert r.x[..n1 - 1] == full[..n1 - 1];
  }

  /** Shift by n whole words. */
  method ShiftByWords(r: Bigint, b: Bigint, n: nat)
    requires r != b && r.x != b.x && r.Valid() && b.Normal() && b.Value() > 0
    requires n + b.wds + 1 <= r.x.Length
    requires forall j :: 0 <= j < n ==> r.x[j] == 0
    modifies r`wds, r.x
    ensures r.Normal() && r.Value() == b.Value() * Pow(2, 32 * n)
  {
    hide Val, W;
    for i := 0 to b.wds
      invariant forall j :: 0 <= j < n ==> r.x[j] == 0
      invariant r.x[n..n + i] == b.x[..i]
      modifies r.x
    {
      r.x[n + i] := b.x[i];
    }
    r.wds := n + b.wds;
    ZeroWordsBelow(r.x[..r.wds], n);
    assert r.x[..r.wds][n..] == b.x[..b.wds];
    IsZeroValue(b.x[..b.wds]);
    assert r.x[r.wds - 1] == r.x[n..r.wds][b.wds - 1];
  }

  /** b * 2^k: b itself when there is nothing to shift, otherwise a new Bigint. */
  method LShift(b: Bigint, k: nat) returns (r: Bigint)
    requires b.Normal()
    ensures r.Normal() && r.Value() == b.Value() * Pow(2, k)
    ensures r == b || (fresh(r) && fresh(r.x))
  {
    hide Val;
    IsZeroValue(b.x[..b.wds]);
    if k == 0 || IsZero(b) {
      return b;
    }
    var n := k / 32;
    var k1 := RoomFor(b.k, n + b.wds + 1);
    r := new Bigint(k1);
    for i := 0 to n
      invariant forall j :: 0 <= j < i ==> r.x[j] == 0
      modifies r.x
    {
      r.x[i] := 0;
    }
    if k % 32 != 0 {
      ShiftBits(r, b, n, k % 32);
    } else {
      ShiftByWords(r, b, n);
    }
  }

  // ---------------------------------------------------------------- diff

  /** The difference of ax and bx, with bx read as zero above its wb words. */
  method DiffWords(cx: array<Word>, ax: array<Word>, wa: nat, bx: array<Word>, wb: nat)
    requires cx != ax && cx != bx && wb <= wa <= ax.Length && wb <= bx.Length && wa <= cx.Length
    modifies cx
    ensures forall j :: 0 <= j < wa ==> cx[j] == DiffWord(ax[..wa], bx[..wb] + Zeros(wa - wb), j)
  {
    hide DiffWord, Borrow, Zeros;
    ghost var a, t := ax[..wa], bx[..wb] + Zeros(wa - wb);
    BorrowStart(a, t);
    var borrow: nat := 0;
    for i := 0 to wb
      invariant borrow == Borrow(a, t, i)
      invariant forall j :: 0 <= j < i ==> cx[j] == DiffWord(a, t, j)
    {
      BorrowDef(a, t, i);
      WrappedDifference(ax[i] as int - bx[i] - borrow);
      var y := (ax[i] as int - bx[i] - borrow) % 0x1_0000_0000_0000_0000;
      borrow := y / 0x1_0000_0000 % 2;
      cx[i] := y % 0x1_0000_0000;
    }
    for i := wb to wa
      invariant borrow == Borrow(a, t, i)
      invariant forall j :: 0 <= j < i ==> cx[j] == DiffWord(a, t, j)
    {
      BorrowDef(a, t, i);
      WrappedDifference(ax[i] as int - borrow);
      var y := (ax[i] as int - borrow) % 0x1_0000_0000_0000_0000;
      borrow := y / 0x1_0000_0000 % 2;
      cx[i] := y % 0x1_0000_0000;
    }
  }

  lemma PaddedValue(s: seq<Word>, n: nat)
    ensures Val(s + Zeros(n)) == Val(s)
  {
    var t := s + Zeros(n);
    assert t[..|s|] == s;
    ValDropZeros(t, |s|);
  }

  /** a - b for a > b, with the sign the caller determined. */
  method DiffLarger(a: Bigint, b: Bigint, sign: int) returns (c: Bigint)
    requires a.Normal() && b.Normal() && a.Value() > b.Value()
    ensures fresh(c) && fresh(c.x) && c.Normal() && c.sign == sign
    ensures c.Value() == a.Value() - b.Value()
  {
    hide Val, W, DiffWord, Borrow, Zeros;
    if a.wds < b.wds {
      LongerIsLarger(a.x[..a.wds], b.x[..b.wds]);
    }
    c := new Bigint(a.k);
    c.sign := sign;
    DiffWords(c.x, a.x, a.wds, b.x, b.wds);
    ghost var s, t, r := a.x[..a.wds], b.x[..b.wds] + Zeros(a.wds - b.wds), c.x[..a.wds];
    PaddedValue(b.x[..b.wds], a.wds - b.wds);
    DiffValue(s, t, r, a.wds);
    assert s[..a.wds] == s && t[..a.wds] == t && r[..a.wds] == r;
    TrimProduct(c, a.wds);
  }

  /** |a - b| in a new Bigint whose sign says whether a < b. */
  method Diff(a: Bigint, b: Bigint) returns (c: Bigint)
    requires a.Normal() && b.Normal()
    ensures fresh(c) && fresh(c.x) && c.Normal()
    ensures c.sign == if a.Value() < b.Value() then 1 else 0
    ensures if c.sign == 1 then c.Value() == b.Value() - a.Value() else c.Value() == a.Value() - b.Value()
  {
    hide Val;
    var i := Cmp(a, b);
    if i == 0 {
      c := new Bigint(0);
      c.wds := 1;
      c.x[0] := 0;
      ValZero(c.x[..1]);
    } else if i < 0 {
      c := DiffLarger(b, a, 1);
    } else {
      c := DiffLarger(a, b, 0);
    }
  }
}
