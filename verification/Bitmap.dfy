/**
 The logical shifts of so3/kernel/bitmap.c on arrays of machine words. Words are natural numbers of
 b bits, b being BITS_PER_LONG; a bitmap of a given number of bits ignores the rest of its last word.
 */
module Bitmap {
  import opened Powers
  import opened Bits

  // ---------------------------------------------------------------- bits of a bitmap

  /** BITS_TO_LONGS. */
  function Longs(bits: nat, b: nat): (r: nat)
    requires b > 0
  {
    DivNonnegative(bits + b - 1, b);
    (bits + b - 1) / b
  }

  /** Bit i of word k of a bitmap. */
  predicate WordBit(s: seq<nat>, k: nat, i: nat) {
    k < |s| && Bit(s[k], i)
  }

  /** Whether position (k, i) lies within the bitmap: full words before the last, left bits of the last one. */
  predicate Inside(lim: nat, left: nat, k: nat, i: nat) {
    k + 1 < lim || (k + 1 == lim && (left == 0 || i < left))
  }

  /** Word k without its don't-care bits. */
  function Clip(w: nat, k: nat, lim: nat, left: nat): nat {
    if left > 0 && k + 1 == lim then Low(w, left) else w
  }

  lemma ClipBits(w: nat, k: nat, lim: nat, left: nat, i: nat)
    requires k < lim
    ensures Bit(Clip(w, k, lim, left), i) == (Inside(lim, left, k, i) && Bit(w, i))
  {
    LowBits(w, left, i);
  }

  /** A bitmap of some number of bits in words of b bits, to be shifted by off words and rem bits. */
  datatype Geometry = Geometry(b: nat, lim: nat, left: nat, off: nat, rem: nat)

  function Measure(shift: nat, bits: nat, b: nat): (g: Geometry)
    requires b > 0
    ensures g.b == b && g.left < b && g.rem < b
  {
    DivNonnegative(shift, b);
    Geometry(b, Longs(bits, b), bits % b, shift / b, shift % b)
  }

  ghost predicate Words(s: seq<nat>, b: nat) {
    forall k :: 0 <= k < |s| ==> s[k] < Pow(2, b)
  }

  // ---------------------------------------------------------------- shift right, word by word

  /** What the loop computes for dst[k]. */
  function RightWord(s: seq<nat>, g: Geometry, k: nat): nat
    requires g.lim <= |s| && g.rem < g.b && g.off + k < g.lim
  {
    var upper := if g.rem == 0 || g.off + k + 1 >= g.lim then 0
                 else Clip(s[g.off + k + 1], g.off + k + 1, g.lim, g.left);
    var lower := Clip(s[g.off + k], g.off + k, g.lim, g.left);
    Clip(BitOr(Low(Shl(upper, g.b - g.rem), g.b), Shr(lower, g.rem)), k, g.lim, g.left)
  }

  function RightResult(s: seq<nat>, g: Geometry, k: nat): nat
    requires g.lim <= |s| && g.rem < g.b
  {
    if g.off + k < g.lim then RightWord(s, g, k) else 0
  }

  /** The bit of the source that position (k, i) receives. */
  ghost predicate MovedDown(s: seq<nat>, g: Geometry, k: nat, i: nat) {
    if i + g.rem < g.b then Inside(g.lim, g.left, g.off + k, i + g.rem) && WordBit(s, g.off + k, i + g.rem)
    else Inside(g.lim, g.left, g.off + k + 1, i + g.rem - g.b) && WordBit(s, g.off + k + 1, i + g.rem - g.b)
  }

  lemma ClipWord(w: nat, k: nat, g: Geometry)
    requires k < g.lim && w < Pow(2, g.b) && g.left < g.b
    ensures forall i :: i >= g.b ==> !Bit(Clip(w, k, g.lim, g.left), i)
  {
    forall i | i >= g.b
      ensures !Bit(Clip(w, k, g.lim, g.left), i)
    {
      ClipBits(w, k, g.lim, g.left, i);
      HighBitsZero(w, g.b, i);
    }
  }

  lemma RightWordBits(s: seq<nat>, g: Geometry, k: nat, i: nat)
    requires Words(s, g.b) && g.lim <= |s| && g.rem < g.b && g.left < g.b && g.off + k < g.lim && i < g.b
    ensures Bit(RightWord(s, g, k), i) == MovedDown(s, g, k, i)
  {
    hide Clip, Low, Shl, Shr, BitOr, Bit;
    var hasUpper := g.rem > 0 && g.off + k + 1 < g.lim;
    var upper := if hasUpper then Clip(s[g.off + k + 1], g.off + k + 1, g.lim, g.left) else 0;
    var lower := Clip(s[g.off + k], g.off + k, g.lim, g.left);
    var x, y := Low(Shl(upper, g.b - g.rem), g.b), Shr(lower, g.rem);
    ClipBits(BitOr(x, y), k, g.lim, g.left, i);
    OrBits(x, y, i);
    LowBits(Shl(upper, g.b - g.rem), g.b, i);
    ShlBits(upper, g.b - g.rem, i);
    ShrBits(lower, g.rem, i);
    ClipBits(s[g.off + k], g.off + k, g.lim, g.left, i + g.rem);
    ClipWord(s[g.off + k], g.off + k, g);
    if i + g.rem >= g.b {
      if hasUpper {
        ClipBits(s[g.off + k + 1], g.off + k + 1, g.lim, g.left, i + g.rem - g.b);
      } else {
        ZeroBits(i + g.rem - g.b);
      }
    }
  }

  // ---------------------------------------------------------------- shift left, word by word

  function LeftWord(s: seq<nat>, g: Geometry, k: nat): nat
    requires g.lim <= |s| && g.rem < g.b && g.off + k < g.lim
  {
    var lower := if g.rem > 0 && k > 0 then s[k - 1] else 0;
    var upper := Clip(s[k], k, g.lim, g.left);
    Clip(BitOr(Shr(lower, g.b - g.rem), Low(Shl(upper, g.rem), g.b)), k + g.off, g.lim, g.left)
  }

  function LeftResult(s: seq<nat>, g: Geometry, k: nat): nat
    requires g.lim <= |s| && g.rem < g.b && k < g.lim
  {
    if k < g.off then 0 else LeftWord(s, g, k - g.off)
  }

  /** The bit of the source that position (k, i) receives. */
  ghost predicate MovedUp(s: seq<nat>, g: Geometry, k: nat, i: nat)
    requires g.rem < g.b
  {
    Inside(g.lim, g.left, k, i) &&
    if i >= g.rem then k >= g.off && WordBit(s, k - g.off, i - g.rem)
    else k > g.off && WordBit(s, k - g.off - 1, i + g.b - g.rem)
  }

  lemma LeftWordBits(s: seq<nat>, g: Geometry, k: nat, i: nat)
    requires Words(s, g.b) && g.lim <= |s| && g.rem < g.b && g.left < g.b && g.off + k < g.lim && i < g.b
    ensures Bit(LeftWord(s, g, k), i) == MovedUp(s, g, k + g.off, i)
  {
    hide Clip, Low, Shl, Shr, BitOr, Bit;
    var lower := if g.rem > 0 && k > 0 then s[k - 1] else 0;
    var upper := Clip(s[k], k, g.lim, g.left);
    var x, y := Shr(lower, g.b - g.rem), Low(Shl(upper, g.rem), g.b);
    ClipBits(BitOr(x, y), k + g.off, g.lim, g.left, i);
    OrBits(x, y, i);
    LowBits(Shl(upper, g.rem), g.b, i);
    ShlBits(upper, g.rem, i);
    ShrBits(lower, g.b - g.rem, i);
    if i >= g.rem {
      ClipBits(s[k], k, g.lim, g.left, i - g.rem);
      if lower == 0 {
        ZeroBits(i + g.b - g.rem);
      } else {
        HighBitsZero(lower, g.b, i + g.b - g.rem);
      }
    } else if k == 0 {
      ZeroBits(i + g.b - g.rem);
    }
  }

  // ---------------------------------------------------------------- flat positions

  /** Bit j of a bitmap. */
  ghost predicate BitAt(s: seq<nat>, b: nat, j: nat)
    requires b > 0
  {
    DivNonnegative(j, b);
    WordBit(s, j / b, j % b)
  }

  lemma SplitIndex(j: nat, b: nat)
    requires b > 0
    ensures j / b >= 0 && j == j / b * b + j % b && 0 <= j % b < b
  {
    DivNonnegative(j, b);
  }

  /** Position j is inside a bitmap of some bits exactly when j < bits; the last word in use is lim - 1. */
  lemma InsideIff(j: nat, shift: nat, bits: nat, b: nat)
    requires b > 0
    ensures j / b >= 0 && j % b >= 0
    ensures var g := Measure(shift, bits, b); Inside(g.lim, g.left, j / b, j % b) <==> j < bits
  {
    SplitIndex(j, b);
    SplitIndex(bits, b);
    LongsIs(bits, b);
    Lexicographic(j / b, j % b, bits / b, bits % b, b);
  }

  lemma Lexicographic(k: nat, i: nat, q: nat, l: nat, b: nat)
    requires i < b && l < b
    ensures k * b + i < q * b + l <==> k < q || (k == q && i < l)
  {
    if k < q {
      MulMonotone(b, k + 1, q);
      Distribute(k, b);
      Distribute(q, b);
    } else if q < k {
      MulMonotone(b, q + 1, k);
      Distribute(k, b);
      Distribute(q, b);
    }
  }

  lemma Distribute(k: nat, b: nat)
    ensures b * (k + 1) == k * b + b && b * k == k * b
  {
  }

  lemma LongsIs(bits: nat, b: nat)
    requires b > 0
    ensures Longs(bits, b) == bits / b + if bits % b == 0 then 0 else 1
  {
    SplitIndex(bits, b);
    var q, left := bits / b, bits % b;
    if left == 0 {
      DivisionUnique(bits + b - 1, b, q, b - 1);
    } else {
      Distribute(q, b);
      assert (q + 1) * b == q * b + b;
      DivisionUnique(bits + b - 1, b, q + 1, left - 1);
    }
  }

  /** Where j + shift lies. */
  lemma AddIndex(j: nat, shift: nat, b: nat)
    requires b > 0
    ensures j / b >= 0 && shift / b >= 0
    ensures j % b + shift % b < b ==> (j + shift) / b == j / b + shift / b && (j + shift) % b == j % b + shift % b
    ensures j % b + shift % b >= b ==>
      (j + shift) / b == j / b + shift / b + 1 && (j + shift) % b == j % b + shift % b - b
  {
    SplitIndex(j, b);
    SplitIndex(shift, b);
    var k, off, r := j / b, shift / b, j % b + shift % b;
    assert (k + off) * b == k * b + off * b;
    assert (k + off + 1) * b == k * b + off * b + b;
    if r < b {
      DivisionUnique(j + shift, b, k + off, r);
    } else {
      DivisionUnique(j + shift, b, k + off + 1, r - b);
    }
  }

  /** Bit by bit: position j receives position j + shift if that is in the bitmap, and zero otherwise. */
  ghost predicate ShiftedRight(s: seq<nat>, r: seq<nat>, shift: nat, bits: nat, b: nat)
    requires b > 0
  {
    forall j: nat :: InRange(j, Longs(bits, b), b) ==> (BitAt(r, b, j) <==> j + shift < bits && BitAt(s, b, j + shift))
  }

  /** Position j of the words in use receives position j - shift; bits past the bitmap are zero. */
  ghost predicate ShiftedLeft(s: seq<nat>, r: seq<nat>, shift: nat, bits: nat, b: nat)
    requires b > 0
  {
    forall j: nat :: InRange(j, Longs(bits, b), b) ==>
      (BitAt(r, b, j) <==> j < bits && j >= shift && BitAt(s, b, j - shift))
  }

  ghost predicate InRange(j: nat, lim: nat, b: nat)
    requires b > 0
  {
    j / b < lim
  }

  lemma RightBits(s: seq<nat>, r: seq<nat>, shift: nat, bits: nat, b: nat)
    requires b > 0 && Words(s, b) && Longs(bits, b) <= |s| && Longs(bits, b) <= |r|
    requires forall k :: 0 <= k < Longs(bits, b) ==> r[k] == RightResult(s, Measure(shift, bits, b), k)
    ensures ShiftedRight(s, r, shift, bits, b)
  {
    hide RightWord, MovedDown, Bit, Longs;
    var g := Measure(shift, bits, b);
    forall j: nat | InRange(j, Longs(bits, b), b)
      ensures BitAt(r, b, j) <==> j + shift < bits && BitAt(s, b, j + shift)
    {
      RightBit(s, r, shift, bits, b, j);
    }
  }

  lemma RightBit(s: seq<nat>, r: seq<nat>, shift: nat, bits: nat, b: nat, j: nat)
    requires b > 0 && Words(s, b) && Longs(bits, b) <= |s| && Longs(bits, b) <= |r| && InRange(j, Longs(bits, b), b)
    requires forall k :: 0 <= k < Longs(bits, b) ==> r[k] == RightResult(s, Measure(shift, bits, b), k)
    ensures BitAt(r, b, j) <==> j + shift < bits && BitAt(s, b, j + shift)
  {
    hide RightWord, Bit, Longs, Words;
    var g := Measure(shift, bits, b);
    SplitIndex(j, b);
    var k, i := j / b, j % b;
    InsideIff(j + shift, shift, bits, b);
    AddIndex(j, shift, b);
    if g.off + k < g.lim {
      RightWordBits(s, g, k, i);
    } else {
      ZeroBits(i);
    }
  }

  lemma LeftBit(s: seq<nat>, r: seq<nat>, shift: nat, bits: nat, b: nat, j: nat)
    requires b > 0 && Words(s, b) && Longs(bits, b) <= |s| && Longs(bits, b) <= |r| && InRange(j, Longs(bits, b), b)
    requires forall k :: 0 <= k < Longs(bits, b) ==> r[k] == LeftResult(s, Measure(shift, bits, b), k)
    ensures BitAt(r, b, j) <==> j < bits && j >= shift && BitAt(s, b, j - shift)
  {
    hide LeftWord, Bit, Longs, Words;
    var g := Measure(shift, bits, b);
    SplitIndex(j, b);
    SplitIndex(shift, b);
    var k, i := j / b, j % b;
    InsideIff(j, shift, bits, b);
    if k >= g.off {
      LeftWordBits(s, g, k - g.off, i);
    } else {
      ZeroBits(i);
    }
    SubIndex(j, shift, b);
  }

  /** Where j - shift lies. */
  lemma SubIndex(j: nat, shift: nat, b: nat)
    requires b > 0
    ensures j / b >= 0 && shift / b >= 0
    ensures j >= shift <==> (j / b > shift / b || (j / b == shift / b && j % b >= shift % b))
    ensures j >= shift && j % b >= shift % b ==>
      (j - shift) / b == j / b - shift / b && (j - shift) % b == j % b - shift % b
    ensures j >= shift && j % b < shift % b ==>
      (j - shift) / b == j / b - shift / b - 1 && (j - shift) % b == j % b + b - shift % b
  {
    SplitIndex(j, b);
    SplitIndex(shift, b);
    Lexicographic(j / b, j % b, shift / b, shift % b, b);
    if j >= shift {
      SplitIndex(j - shift, b);
      AddIndex(j - shift, shift, b);
    }
  }

  lemma LeftBits(s: seq<nat>, r: seq<nat>, shift: nat, bits: nat, b: nat)
    requires b > 0 && Words(s, b) && Longs(bits, b) <= |s| && Longs(bits, b) <= |r|
    requires forall k :: 0 <= k < Longs(bits, b) ==> r[k] == LeftResult(s, Measure(shift, bits, b), k)
    ensures ShiftedLeft(s, r, shift, bits, b)
  {
    hide LeftWord, Bit, Longs;
    forall j: nat | InRange(j, Longs(bits, b), b)
      ensures BitAt(r, b, j) <==> j < bits && j >= shift && BitAt(s, b, j - shift)
    {
      LeftBit(s, r, shift, bits, b, j);
    }
  }

  // ---------------------------------------------------------------- the shifts themselves, also in place

  /** memset to zero. */
  method Clear(dst: array<nat>, from: nat, to: nat)
    requires from <= to <= dst.Length
    modifies dst
    ensures forall k :: 0 <= k < dst.Length ==> dst[k] == if from <= k < to then 0 else old(dst[k])
  {
    for k := from to to
      invariant forall i :: 0 <= i < dst.Length ==> dst[i] == if from <= i < k then 0 else old(dst[i])
    {
      dst[k] := 0;
    }
  }

  lemma OffsetFits(shift: nat, bits: nat, b: nat)
    requires b > 0 && shift <= bits
    ensures Measure(shift, bits, b).off <= Measure(shift, bits, b).lim
  {
    SplitIndex(shift, b);
    SplitIndex(bits, b);
    LongsIs(bits, b);
    Lexicographic(bits / b, bits % b, shift / b, shift % b, b);
  }

  /** The words of the result before the memset. */
  method RightLoop(dst: array<nat>, src: array<nat>, g: Geometry, ghost s: seq<nat>)
    requires g.lim <= dst.Length && g.lim <= src.Length && g.rem < g.b && s == src[..]
    modifies dst
    ensures forall k :: 0 <= k < dst.Length && g.off + k < g.lim ==> dst[k] == RightWord(s, g, k)
    ensures forall k :: 0 <= k < dst.Length && g.off + k >= g.lim ==> dst[k] == old(dst[k])
  {
    hide Clip, Low, Shl, Shr, BitOr;
    var k := 0;
    while g.off + k < g.lim
      invariant forall i :: 0 <= i < k && i < dst.Length && g.off + i < g.lim ==> dst[i] == RightWord(s, g, i)
      invariant forall i :: k <= i < dst.Length ==> dst[i] == old(dst[i])
      invariant forall i :: k <= i < src.Length ==> src[i] == s[i]
      invariant g.off + k >= g.lim ==> forall i :: 0 <= i < dst.Length && g.off + i >= g.lim ==> dst[i] == old(dst[i])
      invariant k <= g.lim && (k > 0 ==> g.off + k <= g.lim)
    {
      var upper := 0;
      if g.rem != 0 && g.off + k + 1 < g.lim {
        upper := src[g.off + k + 1];
        upper := Clip(upper, g.off + k + 1, g.lim, g.left);
      }
      var lower := src[g.off + k];
      lower := Clip(lower, g.off + k, g.lim, g.left);
      dst[k] := BitOr(Low(Shl(upper, g.b - g.rem), g.b), Shr(lower, g.rem));
      dst[k] := Clip(dst[k], k, g.lim, g.left);
      k := k + 1;
    }
  }

  /** __bitmap_shift_right: dst may be src. */
  method ShiftRight(dst: array<nat>, src: array<nat>, shift: nat, bits: nat, b: nat)
    requires b > 0 && shift <= bits && Longs(bits, b) <= dst.Length && Longs(bits, b) <= src.Length && Words(src[..], b)
    modifies dst
    ensures ShiftedRight(old(src[..]), dst[..], shift, bits, b)
    ensures forall k :: Longs(bits, b) <= k < dst.Length ==> dst[k] == old(dst[k])
  {
    hide RightWord, Longs;
    var g := Measure(shift, bits, b);
    ghost var s := src[..];
    OffsetFits(shift, bits, b);
    RightLoop(dst, src, g, s);
    Clear(dst, g.lim - g.off, g.lim);
    RightBits(s, dst[..], shift, bits, b);
  }

  method LeftLoop(dst: array<nat>, src: array<nat>, g: Geometry, ghost s: seq<nat>)
    requires g.lim <= dst.Length && g.lim <= src.Length && g.rem < g.b && g.off <= g.lim && s == src[..]
    modifies dst
    ensures forall k :: g.off <= k < g.lim ==> dst[k] == LeftWord(s, g, k - g.off)
    ensures forall k :: 0 <= k < dst.Length && !(g.off <= k < g.lim) ==> dst[k] == old(dst[k])
  {
    hide Clip, Low, Shl, Shr, BitOr;
    var k := g.lim - g.off - 1;
    while k >= 0
      invariant -1 <= k < g.lim - g.off
      invariant forall i :: k + g.off < i < g.lim ==> dst[i] == LeftWord(s, g, i - g.off)
      invariant forall i :: 0 <= i < dst.Length && !(k + g.off < i < g.lim) ==> dst[i] == old(dst[i])
      invariant forall i :: 0 <= i <= k ==> src[i] == s[i]
    {
      var lower := 0;
      if g.rem != 0 && k > 0 {
        lower := src[k - 1];
      }
      var upper := src[k];
      upper := Clip(upper, k, g.lim, g.left);
      dst[k + g.off] := BitOr(Shr(lower, g.b - g.rem), Low(Shl(upper, g.rem), g.b));
      dst[k + g.off] := Clip(dst[k + g.off], k + g.off, g.lim, g.left);
      k := k - 1;
    }
  }

  /** __bitmap_shift_left: dst may be src. */
  method ShiftLeft(dst: array<nat>, src: array<nat>, shift: nat, bits: nat, b: nat)
    requires b > 0 && shift <= bits && Longs(bits, b) <= dst.Length && Longs(bits, b) <= src.Length && Words(src[..], b)
    modifies dst
    ensures ShiftedLeft(old(src[..]), dst[..], shift, bits, b)
    ensures forall k :: Longs(bits, b) <= k < dst.Length ==> dst[k] == old(dst[k])
  {
    hide LeftWord, Longs;
    var g := Measure(shift, bits, b);
    ghost var s := src[..];
    OffsetFits(shift, bits, b);
    LeftLoop(dst, src, g, s);
    Clear(dst, 0, g.off);
    LeftBits(s, dst[..], shift, bits, b);
  }

  /** Shifting right and back left by as much clears the low bits and keeps the others. */
  lemma DownAndUp(s: seq<nat>, r: seq<nat>, t: seq<nat>, shift: nat, bits: nat, b: nat, j: nat)
    requires b > 0 && ShiftedRight(s, r, shift, bits, b) && ShiftedLeft(r, t, shift, bits, b) && j < bits
    ensures BitAt(t, b, j) <==> j >= shift && BitAt(s, b, j)
  {
    hide BitAt, InRange, Longs;
    BitsInRange(j, bits, b);
    if j >= shift {
      BitsInRange(j - shift, bits, b);
    }
  }

  lemma BitsInRange(j: nat, bits: nat, b: nat)
    requires b > 0 && j < bits
    ensures InRange(j, Longs(bits, b), b)
  {
    InsideIff(j, 0, bits, b);
  }
}
