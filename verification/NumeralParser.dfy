/** The decimal parser at the top of strtod (so3/lib/strtod.c), against the numeral it reads. */
module NumeralParser {
  import opened Powers
  import opened DigitComparison

  const MAX_DIGITS := 1_000_000_000
  const MAX_ABS_EXP := 1_100_000_000

  /** A C string: the text up to its terminator. */
  predicate Terminated(t: seq<char>) {
    |t| > 0 && t[|t| - 1] == '\0'
  }

  // ---------------------------------------------------------------- what the text means

  /** End of the run of digits starting at i. */
  function DigitRun(t: seq<char>, i: nat): (j: nat)
    requires Terminated(t) && i < |t|
    ensures i <= j < |t| && !IsDigit(t[j]) && forall k :: i <= k < j ==> IsDigit(t[k])
    decreases |t| - i
  {
    if IsDigit(t[i]) then DigitRun(t, i + 1) else i
  }

  /** The number a digit sequence spells. */
  ghost function Dec(s: seq<char>): nat
    requires forall i :: 0 <= i < |s| ==> IsDigit(s[i])
  {
    if |s| == 0 then 0 else 10 * Dec(s[..|s| - 1]) + DigitValue(s[|s| - 1])
  }

  lemma {:induction false} DecConcat(a: seq<char>, b: seq<char>)
    requires forall i :: 0 <= i < |a| ==> IsDigit(a[i])
    requires forall i :: 0 <= i < |b| ==> IsDigit(b[i])
    ensures Dec(a + b) == Dec(a) * Pow(10, |b|) + Dec(b)
  {
    hide Pow, Dec, DigitValue;
    if |b| == 0 {
      assert a + b == a && b == [];
      DecNone();
      PowZero(10);
    } else {
      var b', v := b[..|b| - 1], DigitValue(b[|b| - 1]);
      DecConcat(a, b');
      assert (a + b)[..|a + b| - 1] == a + b';
      DecSnoc(a + b);
      DecSnoc(b);
      PowStep(10, |b| - 1);
      TenTimes(Dec(a), Pow(10, |b| - 1), Pow(10, |b|), Dec(b'), v);
    }
  }

  lemma DecNone()
    ensures Dec([]) == 0
  {
  }

  lemma DecSnoc(s: seq<char>)
    requires |s| > 0 && forall i :: 0 <= i < |s| ==> IsDigit(s[i])
    ensures Dec(s) == 10 * Dec(s[..|s| - 1]) + DigitValue(s[|s| - 1])
  {
  }

  lemma TenTimes(x: nat, p: nat, p': nat, d: nat, v: int)
    requires p' == 10 * p
    ensures 10 * (x * p + d) + v == x * p' + (10 * d + v)
  {
  }

  lemma {:induction false} DecZeros(s: seq<char>)
    requires forall i :: 0 <= i < |s| ==> s[i] == '0'
    ensures Dec(s) == 0
  {
    if |s| > 0 {
      DecZeros(s[..|s| - 1]);
    }
  }

  /** Number of leading zeros. */
  ghost function LeadingZeros(s: seq<char>): (n: nat)
    ensures n <= |s| && (forall i :: 0 <= i < n ==> s[i] == '0') && (n < |s| ==> s[n] != '0')
  {
    if |s| == 0 || s[0] != '0' then 0 else 1 + LeadingZeros(s[1..])
  }

  lemma LeadingZerosUnique(s: seq<char>, n: nat)
    requires n <= |s| && (forall i :: 0 <= i < n ==> s[i] == '0') && (n < |s| ==> s[n] != '0')
    ensures LeadingZeros(s) == n
  {
  }

  /** A numeral as written: sign, digits around the point, exponent digits, and where it ends. */
  datatype Numeral = Numeral(negative: bool, whole: seq<char>, fraction: seq<char>,
                             expNegative: bool, expDigits: seq<char>, end: nat)
  {
    ghost predicate Valid() {
      (forall i :: 0 <= i < |whole| ==> IsDigit(whole[i])) &&
      (forall i :: 0 <= i < |fraction| ==> IsDigit(fraction[i])) &&
      (forall i :: 0 <= i < |expDigits| ==> IsDigit(expDigits[i]))
    }

    /** All digits of the significand, the point left out. */
    ghost function Digits(): (d: seq<char>)
      ensures Valid() ==> forall i :: 0 <= i < |d| ==> IsDigit(d[i])
    {
      whole + fraction
    }

    /** Digits left when leading zeros are ignored. */
    ghost function Significant(): nat {
      |Digits()| - LeadingZeros(Digits())
    }

    ghost function Exponent(): int
      requires Valid()
    {
      if expNegative then 0 - Dec(expDigits) else Dec(expDigits)
    }

    /** The exponent the parser works with: exponents of ten or more digits are clipped. */
    ghost function ClippedExponent(): int
      requires Valid()
    {
      if |expDigits| - LeadingZeros(expDigits) > 9 then (if expNegative then -MAX_ABS_EXP else MAX_ABS_EXP)
      else Exponent()
    }
  }

  predicate IsSign(c: char) {
    c == '-' || c == '+'
  }

  function AfterSign(t: seq<char>, i: nat): (j: nat)
    requires Terminated(t) && i < |t|
    ensures i <= j < |t|
  {
    if IsSign(t[i]) then i + 1 else i
  }

  /** End of the significand that starts at a. */
  function SignificandEnd(t: seq<char>, a: nat): (j: nat)
    requires Terminated(t) && a < |t|
    ensures DigitRun(t, a) <= j < |t|
  {
    var i := DigitRun(t, a);
    if t[i] == '.' then DigitRun(t, i + 1) else i
  }

  /** The numeral at the start of t. */
  ghost function Read(t: seq<char>): (n: Numeral)
    requires Terminated(t)
    ensures n.Valid()
  {
    var a := AfterSign(t, 0);
    var j := SignificandEnd(t, a);
    var n := Numeral(t[0] == '-', t[a..DigitRun(t, a)], FractionAt(t, a), false, [], j);
    if t[j] == 'e' || t[j] == 'E' then
      var k := AfterSign(t, j + 1);
      var l := DigitRun(t, k);
      if l > k then n.(expNegative := t[j + 1] == '-', expDigits := t[k..l], end := l) else n
    else n
  }

  // ---------------------------------------------------------------- scanning

  method SkipZeros(t: seq<char>, i: nat) returns (j: nat)
    requires Terminated(t) && i < |t|
    ensures i <= j < |t| && t[j] != '0' && forall k :: i <= k < j ==> t[k] == '0'
  {
    j := i;
    while t[j] == '0'
      invariant i <= j < |t| && forall k :: i <= k < j ==> t[k] == '0'
      decreases |t| - j
    {
      j := j + 1;
    }
  }

  method SkipDigits(t: seq<char>, i: nat) returns (j: nat)
    requires Terminated(t) && i < |t|
    ensures j == DigitRun(t, i)
  {
    j := i;
    while IsDigit(t[j])
      invariant i <= j < |t| && DigitRun(t, j) == DigitRun(t, i)
      decreases |t| - j
    {
      j := j + 1;
    }
  }

  lemma {:induction false} DigitRunFrom(t: seq<char>, i: nat, j: nat)
    requires Terminated(t) && i <= j < |t| && forall k :: i <= k < j ==> IsDigit(t[k])
    ensures DigitRun(t, i) == DigitRun(t, j)
    decreases j - i
  {
    if i < j {
      DigitRunFrom(t, i + 1, j);
    }
  }

  /** nd characters from s0 on, with the point at nd0 left out. */
  ghost function Picked(t: seq<char>, s0: nat, nd0: nat, nd: nat): seq<char>
    requires s0 + (if nd0 < nd then nd + 1 else nd) <= |t|
  {
    seq(nd, i requires 0 <= i < nd => t[s0 + Place(nd0, i)])
  }

  /** Position of the point among the digits, or their end when no digit precedes it. */
  function PointPlace(nd: nat, fraclen: nat): nat {
    if nd <= fraclen then nd else nd - fraclen
  }

  /** The fraction digits of the significand at a. */
  ghost function FractionAt(t: seq<char>, a: nat): (d: seq<char>)
    requires Terminated(t) && a < |t|
    ensures forall i :: 0 <= i < |d| ==> IsDigit(d[i])
  {
    var i := DigitRun(t, a);
    if t[i] == '.' then t[i + 1..SignificandEnd(t, a)] else []
  }

  /** All digits of the significand at a. */
  ghost function DigitsAt(t: seq<char>, a: nat): seq<char>
    requires Terminated(t) && a < |t|
  {
    t[a..DigitRun(t, a)] + FractionAt(t, a)
  }

  /** s0 is the first significant digit, or where one would be: before the point ... */
  ghost predicate StartsBeforePoint(t: seq<char>, a: nat, s0: nat)
    requires Terminated(t) && a < |t|
  {
    var i := DigitRun(t, a);
    a <= s0 <= i && t[s0] != '0' && (forall k :: a <= k < s0 ==> t[k] == '0') && (s0 < i || t[i] != '.')
  }

  /** ... or after it. */
  ghost predicate StartsAfterPoint(t: seq<char>, a: nat, s0: nat)
    requires Terminated(t) && a < |t|
  {
    var i := DigitRun(t, a);
    t[i] == '.' && (forall k :: a <= k < i ==> t[k] == '0') &&
    i < s0 <= SignificandEnd(t, a) && t[s0] != '0' && (forall k :: i < k < s0 ==> t[k] == '0')
  }

  /** Leading zeros skipped, digits counted before and after the point. */
  method ScanSignificand(t: seq<char>, a: nat) returns (s0: nat, ndigits: nat, fraclen: nat, lz: bool, end: nat)
    requires Terminated(t) && a < |t|
    ensures end == SignificandEnd(t, a) && fraclen == |FractionAt(t, a)|
    ensures StartsBeforePoint(t, a, s0) || StartsAfterPoint(t, a, s0)
    ensures StartsBeforePoint(t, a, s0) ==> ndigits == DigitRun(t, a) - s0 + fraclen && lz == (s0 > a)
    ensures StartsAfterPoint(t, a, s0) ==> ndigits == end - s0 && lz == (s0 > a + 1)
  {
    var s1 := SkipZeros(t, a);
    lz := s1 != a;
    s0 := s1;
    var s := SkipDigits(t, s1);
    DigitRunFrom(t, a, s1);
    ndigits, fraclen := s - s1, 0;
    if t[s] == '.' {
      s := s + 1;
      if ndigits == 0 {
        s1 := s;
        s := SkipZeros(t, s);
        DigitRunFrom(t, s1, s);
        lz := lz || s != s1;
        fraclen := fraclen + (s - s1);
        s0 := s;
      }
      s1 := s;
      s := SkipDigits(t, s);
      ndigits := ndigits + (s - s1);
      fraclen := fraclen + (s - s1);
    }
    end := s;
  }

  /** What was scanned, in terms of the digits alone. */
  lemma ScannedBefore(t: seq<char>, a: nat, s0: nat)
    requires Terminated(t) && a < |t| && StartsBeforePoint(t, a, s0)
    ensures var d, f := DigitsAt(t, a), FractionAt(t, a);
            var n := DigitRun(t, a) - s0 + |f|;
            LeadingZeros(d) == s0 - a && n == |d| - LeadingZeros(d) &&
            s0 + (if PointPlace(n, |f|) < n then n + 1 else n) <= |t| &&
            Picked(t, s0, PointPlace(n, |f|), n) == d[LeadingZeros(d)..]
  {
    hide LeadingZeros, DigitRun;
    var d, f, i := DigitsAt(t, a), FractionAt(t, a), DigitRun(t, a);
    var n, l := i - s0 + |f|, s0 - a;
    LeadingZerosUnique(d, l);
    var p := PointPlace(n, |f|);
    assert p == i - s0 || p == n;
    assert s0 + (if p < n then n + 1 else n) <= |t|;
    forall k | 0 <= k < n
      ensures Picked(t, s0, p, n)[k] == d[l + k]
    {
      assert d[l + k] == if k < i - s0 then t[s0 + k] else f[k - (i - s0)];
    }
  }

  lemma ScannedAfter(t: seq<char>, a: nat, s0: nat)
    requires Terminated(t) && a < |t| && StartsAfterPoint(t, a, s0)
    ensures var d, f := DigitsAt(t, a), FractionAt(t, a);
            var n := SignificandEnd(t, a) - s0;
            LeadingZeros(d) == s0 - a - 1 && n == |d| - LeadingZeros(d) &&
            PointPlace(n, |f|) == n && s0 + n <= |t| && Picked(t, s0, n, n) == d[LeadingZeros(d)..]
  {
    hide DigitRun, LeadingZeros, Picked, DigitsAt, SignificandEnd;
    var i, e, d := DigitRun(t, a), SignificandEnd(t, a), DigitsAt(t, a);
    DigitsAround(t, a, i, e);
    AroundZeros(t, a, i, e, s0, d);
    PickedAll(t, s0, e - s0);
  }

  lemma DigitsAround(t: seq<char>, a: nat, i: nat, e: nat)
    requires Terminated(t) && a < |t| && i == DigitRun(t, a) && t[i] == '.' && e == SignificandEnd(t, a)
    ensures i < e && DigitsAt(t, a) == t[a..i] + t[i + 1..e] && |FractionAt(t, a)| == e - i - 1
  {
  }

  lemma AroundZeros(t: seq<char>, a: nat, i: nat, e: nat, s0: nat, d: seq<char>)
    requires a <= i < s0 <= e < |t| && d == t[a..i] + t[i + 1..e]
    requires (forall k :: a <= k < i ==> t[k] == '0') && (forall k :: i < k < s0 ==> t[k] == '0') && t[s0] != '0'
    ensures LeadingZeros(d) == s0 - a - 1 && d[s0 - a - 1..] == t[s0..e]
  {
    hide LeadingZeros;
    var z := s0 - a - 1;
    assert d[..z] == t[a..i] + t[i + 1..s0];
    assert d[z..] == t[s0..e];
    assert forall k :: 0 <= k < z ==> d[k] == d[..z][k];
    if z < |d| {
      assert d[z] == d[z..][0] == t[s0];
    }
    LeadingZerosUnique(d, z);
  }

  lemma PickedAll(t: seq<char>, s0: nat, n: nat)
    requires s0 + n <= |t|
    ensures Picked(t, s0, n, n) == t[s0..s0 + n]
  {
  }

  // ---------------------------------------------------------------- exponent

  lemma {:induction false} DecBound(s: seq<char>)
    requires forall i :: 0 <= i < |s| ==> IsDigit(s[i])
    ensures Dec(s) < Pow(10, |s|)
  {
    if |s| > 0 {
      DecBound(s[..|s| - 1]);
    }
  }

  lemma DecDropZeros(s: seq<char>, n: nat)
    requires (forall i :: 0 <= i < |s| ==> IsDigit(s[i])) && n <= |s| && forall i :: 0 <= i < n ==> s[i] == '0'
    ensures Dec(s) == Dec(s[n..])
  {
    DecZeros(s[..n]);
    DecConcat(s[..n], s[n..]);
    assert s[..n] + s[n..] == s;
  }

  lemma TenTo9()
    ensures Pow(10, 9) == 1_000_000_000
  {
    assert Pow(10, 3) == 1000;
    PowAdd(10, 3, 3);
    PowAdd(10, 6, 3);
  }

  /** The exponent digits in 32-bit arithmetic: right modulo 2^32. */
  method ScanAbsExponent(t: seq<char>, s1: nat) returns (absExp: nat, s: nat)
    requires Terminated(t) && s1 < |t|
    ensures s == DigitRun(t, s1) && absExp == Dec(t[s1..s]) % 0x1_0000_0000
  {
    hide Dec, DigitRun, DigitValue;
    s, absExp := s1, 0;
    assert t[s1..s] == [];
    DecNone();
    while IsDigit(t[s])
      invariant s1 <= s < |t| && DigitRun(t, s) == DigitRun(t, s1)
      invariant forall k :: s1 <= k < s ==> IsDigit(t[k])
      invariant absExp == Dec(t[s1..s]) % 0x1_0000_0000
      decreases |t| - s
    {
      OneMoreDigit(t, s1, s);
      WrapStep(Dec(t[s1..s]), DigitValue(t[s]));
      absExp := (10 * absExp + DigitValue(t[s])) % 0x1_0000_0000;
      s := s + 1;
    }
    RunEnds(t, s);
  }

  lemma OneMoreDigit(t: seq<char>, i: nat, j: nat)
    requires Terminated(t) && i <= j < |t| && forall k :: i <= k <= j ==> IsDigit(t[k])
    ensures j + 1 < |t| && Dec(t[i..j + 1]) == 10 * Dec(t[i..j]) + DigitValue(t[j])
    ensures DigitRun(t, j + 1) == DigitRun(t, j)
  {
    assert t[i..j + 1][..j - i] == t[i..j];
    DecSnoc(t[i..j + 1]);
  }

  lemma RunEnds(t: seq<char>, i: nat)
    requires Terminated(t) && i < |t| && !IsDigit(t[i])
    ensures DigitRun(t, i) == i
  {
  }

  lemma WrapStep(x: nat, d: nat)
    ensures (10 * (x % 0x1_0000_0000) + d) % 0x1_0000_0000 == (10 * x + d) % 0x1_0000_0000
  {
    var q, r := x / 0x1_0000_0000, x % 0x1_0000_0000;
    var y := 10 * r + d;
    assert 10 * x + d == y + 0x1_0000_0000 * (10 * q);
    DivisionUnique(10 * x + d, 0x1_0000_0000, y / 0x1_0000_0000 + 10 * q, y % 0x1_0000_0000);
  }

  /** With at most nine digits after the leading zeros, the 32-bit value is the value. */
  lemma NineDigitExponent(digits: seq<char>, z: nat, absExp: nat)
    requires (forall i :: 0 <= i < |digits| ==> IsDigit(digits[i])) && z <= |digits|
    requires (forall i :: 0 <= i < z ==> digits[i] == '0') && (z < |digits| ==> digits[z] != '0')
    requires absExp == Dec(digits[z..]) % 0x1_0000_0000
    ensures LeadingZeros(digits) == z
    ensures |digits| - z <= 9 ==> absExp == Dec(digits) && absExp < 1_000_000_000
  {
    hide Dec, LeadingZeros, Pow;
    LeadingZerosUnique(digits, z);
    DecDropZeros(digits, z);
    if |digits| - z <= 9 {
      DecBound(digits[z..]);
      TenTo9();
      PowMonotone(10, |digits| - z, 9);
    }
  }

  /** The exponent after an 'e' at j, and where the numeral ends. */
  method ScanExponent(t: seq<char>, j: nat) returns (e: int, end: nat)
    requires Terminated(t) && j < |t| && (t[j] == 'e' || t[j] == 'E')
    ensures var k := AfterSign(t, j + 1);
            var l := DigitRun(t, k);
            end == (if l > k then l else j) &&
            e == Numeral(false, [], [], t[j + 1] == '-', t[k..l], end).ClippedExponent()
  {
    hide Dec, LeadingZeros, DigitRun;
    var s := j + 1;
    var negative := t[s] == '-';
    s := AfterSign(t, s);
    ghost var k := s;
    var s1 := s;
    s := SkipZeros(t, s);
    var lz := s != s1;
    s1 := s;
    DigitRunFrom(t, k, s1);
    var absExp;
    absExp, s := ScanAbsExponent(t, s1);
    ghost var digits := t[k..s];
    assert digits[s1 - k..] == t[s1..s];
    NineDigitExponent(digits, s1 - k, absExp);
    if s - s1 > 9 || absExp > MAX_ABS_EXP {
      e := MAX_ABS_EXP;
    } else {
      e := absExp;
    }
    if negative {
      e := -e;
    }
    end := s;
    if s == s1 && !lz {
      end := j;
    }
  }

  // ---------------------------------------------------------------- the parser

  /** s0, nd0, nd, e as strtod hands them on, or why there is nothing to hand on. */
  datatype Parsed =
    | Rejected
    | Zero(negative: bool, end: nat)
    | Number(negative: bool, s0: nat, nd0: nat, nd: nat, e: int, end: nat)

  /** Trailing zeros dropped, scanning back over the digits at s0. */
  method StripZeros(t: seq<char>, s0: nat, nd0: nat, nd: nat) returns (i: nat)
    requires s0 + (if nd0 < nd then nd + 1 else nd) <= |t|
    ensures i <= nd
    ensures forall k :: i <= k < nd ==> Picked(t, s0, nd0, nd)[k] == '0'
    ensures i > 0 ==> Picked(t, s0, nd0, nd)[i - 1] != '0'
  {
    i := nd;
    ghost var sig := Picked(t, s0, nd0, nd);
    while i > 0
      invariant i <= nd && forall k :: i <= k < nd ==> sig[k] == '0'
    {
      i := i - 1;
      if t[s0 + Place(nd0, i)] != '0' {
        i := i + 1;
        break;
      }
    }
  }

  /** The digits at s0 spell what their sequence spells. */
  lemma {:induction false} PrefixIsDec(t: seq<char>, s0: nat, nd0: nat, nd: nat, sig: seq<char>, j: nat)
    requires nd0 <= nd && s0 + (if nd0 < nd then nd + 1 else nd) <= |t| && j <= nd <= |sig|
    requires forall i :: 0 <= i < nd ==> IsDigit(sig[i]) && sig[i] == t[s0 + Place(nd0, i)]
    ensures IsDigitString(t[s0..], nd0, nd)
    ensures Prefix(t[s0..], nd0, nd, j) == Dec(sig[..j])
  {
    assert forall i :: 0 <= i < nd ==> t[s0..][Place(nd0, i)] == sig[i];
    if j > 0 {
      PrefixIsDec(t, s0, nd0, nd, sig, j - 1);
      assert sig[..j][..j - 1] == sig[..j - 1];
    }
  }

  /** The digits kept, times the power of ten that was dropped, are all the digits. */
  lemma KeptDigits(t: seq<char>, s0: nat, nd0: nat, nd: nat, digits: seq<char>, i: nat)
    requires forall k :: 0 <= k < |digits| ==> IsDigit(digits[k])
    requires s0 + (if nd0 < nd then nd + 1 else nd) <= |t| && 0 < i <= nd && 0 < nd0 <= nd
    requires LeadingZeros(digits) + nd == |digits| && Picked(t, s0, nd0, nd) == digits[LeadingZeros(digits)..]
    requires forall k :: i <= k < nd ==> Picked(t, s0, nd0, nd)[k] == '0'
    requires Picked(t, s0, nd0, nd)[i - 1] != '0'
    ensures var p := if nd0 > i then i else nd0;
            IsDigitString(t[s0..], p, i) && DigitAt(t[s0..], p, i, 0) > 0 && DigitAt(t[s0..], p, i, i - 1) > 0 &&
            Dec(digits) == Prefix(t[s0..], p, i, i) * Pow(10, nd - i)
  {
    hide Dec, LeadingZeros, Prefix, Pow;
    var z, sig, p := LeadingZeros(digits), Picked(t, s0, nd0, nd), if nd0 > i then i else nd0;
    DecDropZeros(digits, z);
    assert forall k :: 0 <= k < i ==> Place(p, k) == Place(nd0, k);
    assert forall k :: 0 <= k < i ==> IsDigit(sig[k]) && sig[k] == t[s0 + Place(p, k)];
    PrefixIsDec(t, s0, p, i, sig, i);
    DecZeros(sig[i..]);
    DecConcat(sig[..i], sig[i..]);
    assert sig[..i] + sig[i..] == sig;
    assert sig[0] == digits[z];
    assert t[s0..][Place(p, 0)] == sig[0] && t[s0..][Place(p, i - 1)] == sig[i - 1];
  }

  /** s0, nd0, nd, e stand for the numeral n: nd digits without outer zeros, times 10^e, is its absolute value. */
  ghost predicate StandsFor(t: seq<char>, n: Numeral, s0: nat, nd0: nat, nd: nat, e: int)
    requires n.Valid()
  {
    var scale := n.ClippedExponent() - |n.fraction|;
    s0 <= |t| && IsDigitString(t[s0..], nd0, nd) && 1 <= nd0 <= nd &&
    DigitAt(t[s0..], nd0, nd, 0) > 0 && DigitAt(t[s0..], nd0, nd, nd - 1) > 0 &&
    e >= scale && Dec(n.Digits()) == Prefix(t[s0..], nd0, nd, nd) * Pow(10, e - scale)
  }

  /** Too few digits, or too many. */
  ghost predicate Unacceptable(n: Numeral) {
    |n.Digits()| == 0 || n.Significant() > MAX_DIGITS || |n.fraction| > MAX_DIGITS
  }

  lemma ReadParts(t: seq<char>)
    requires Terminated(t)
    ensures Read(t).negative == (t[0] == '-') && Read(t).fraction == FractionAt(t, AfterSign(t, 0))
    ensures Read(t).Digits() == DigitsAt(t, AfterSign(t, 0))
  {
  }

  /** The exponent part, if there is one, after a significand ending at j. */
  method ScanTail(t: seq<char>, j: nat) returns (e: int, end: nat)
    requires Terminated(t) && j == SignificandEnd(t, AfterSign(t, 0))
    ensures e == Read(t).ClippedExponent() && end == Read(t).end
    ensures -MAX_ABS_EXP <= e <= MAX_ABS_EXP
  {
    hide DigitRun, Read, SignificandEnd;
    e, end := 0, j;
    ReadTail(t);
    if t[j] == 'e' || t[j] == 'E' {
      e, end := ScanExponent(t, j);
    }
    ClippedBound(Read(t));
  }

  /** What the numeral says about its exponent, in terms of the text. */
  lemma ReadTail(t: seq<char>)
    requires Terminated(t)
    ensures var j := SignificandEnd(t, AfterSign(t, 0));
      if t[j] == 'e' || t[j] == 'E' then
        var k := AfterSign(t, j + 1);
        var l := DigitRun(t, k);
        Read(t).end == (if l > k then l else j) &&
        Read(t).ClippedExponent() == Numeral(false, [], [], t[j + 1] == '-', t[k..l], Read(t).end).ClippedExponent()
      else Read(t).end == j && Read(t).ClippedExponent() == 0
  {
    hide DigitRun, SignificandEnd;
  }

  lemma ClippedBound(n: Numeral)
    requires n.Valid()
    ensures -MAX_ABS_EXP <= n.ClippedExponent() <= MAX_ABS_EXP
  {
    var d, z := n.expDigits, LeadingZeros(n.expDigits);
    if |d| - z <= 9 {
      NineDigitExponent(d, z, Dec(d[z..]) % 0x1_0000_0000);
    }
  }

  /** The digits found, in terms of the numeral. */
  ghost predicate Located(t: seq<char>, digits: seq<char>, fraclen: nat, s0: nat, nd: nat) {
    var nd0 := PointPlace(nd, fraclen);
    nd + LeadingZeros(digits) == |digits| && s0 + (if nd0 < nd then nd + 1 else nd) <= |t| &&
    Picked(t, s0, nd0, nd) == digits[LeadingZeros(digits)..]
  }

  method LocateDigits(t: seq<char>) returns (s0: nat, nd: nat, fraclen: nat, lz: bool, end: nat)
    requires Terminated(t)
    ensures end == SignificandEnd(t, AfterSign(t, 0)) && fraclen == |Read(t).fraction|
    ensures Located(t, Read(t).Digits(), fraclen, s0, nd) && lz == (LeadingZeros(Read(t).Digits()) > 0)
  {
    hide LeadingZeros, DigitRun, Read, Picked, SignificandEnd;
    var a := AfterSign(t, 0);
    ReadParts(t);
    s0, nd, fraclen, lz, end := ScanSignificand(t, a);
    if StartsBeforePoint(t, a, s0) {
      ScannedBefore(t, a, s0);
    } else {
      ScannedAfter(t, a, s0);
    }
  }

  method Parse(t: seq<char>) returns (r: Parsed)
    requires Terminated(t)
    ensures r.Rejected? <==> Unacceptable(Read(t))
    ensures !r.Rejected? ==> r.negative == Read(t).negative && r.end == Read(t).end
    ensures r.Zero? ==> Dec(Read(t).Digits()) == 0
    ensures r.Number? ==> StandsFor(t, Read(t), r.s0, r.nd0, r.nd, r.e) && -0x8000_0000 <= r.e < 0x8000_0000
  {
    hide Dec, LeadingZeros, DigitRun, Prefix, Pow, Read, Picked, IsDigitString, SignificandEnd, IsDigit, AfterSign,
         Numeral.ClippedExponent, Numeral.Valid, DigitAt;
    ReadParts(t);
    ghost var digits := Read(t).Digits();
    var s0, nd, fraclen, lz, s := LocateDigits(t);
    if nd == 0 && !lz {
      return Rejected;
    }
    if nd > MAX_DIGITS || fraclen > MAX_DIGITS {
      return Rejected;
    }
    var e: int;
    e, s := ScanTail(t, s);
    e := e - fraclen;
    var nd0 := PointPlace(nd, fraclen);
    if nd == 0 {
      DecZeros(digits);
      return Zero(t[0] == '-', s);
    }
    var i := StripZeros(t, s0, nd0, nd);
    FirstIsNonzero(t, digits, fraclen, s0, nd, i);
    KeptDigits(t, s0, nd0, nd, digits, i);
    r := Number(t[0] == '-', s0, if nd0 > i then i else nd0, i, e + (nd - i), s);
  }

  lemma FirstIsNonzero(t: seq<char>, digits: seq<char>, fraclen: nat, s0: nat, nd: nat, i: nat)
    requires Located(t, digits, fraclen, s0, nd) && nd > 0
    requires forall k :: i <= k < nd ==> Picked(t, s0, PointPlace(nd, fraclen), nd)[k] == '0'
    ensures i > 0
  {
    var sig := Picked(t, s0, PointPlace(nd, fraclen), nd);
    assert sig[0] == digits[LeadingZeros(digits)] != '0';
  }
}
