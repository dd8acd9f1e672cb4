/**
 Numerals written out and read back: the parser of strtod (so3/lib/strtod.c) on texts put together from their parts,
 with numbers spelled as vsprintf (so3/lib/vsprintf.c) spells them.
 */
module NumeralTexts {
  import opened Powers
  import opened DigitComparison
  import opened NumeralParser
  import Clipping
  import NumberText

  datatype Sign = Bare | Plus | Minus

  function Written(sign: Sign): string {
    match sign
    case Bare => ""
    case Plus => "+"
    case Minus => "-"
  }

  ghost predicate AllDigits(s: string) {
    forall i :: 0 <= i < |s| ==> IsDigit(s[i])
  }

  /** Sign, digits and, if there is one, the point with the digits behind it. */
  function Significand(sign: Sign, whole: string, pointed: bool, fraction: string): string {
    Written(sign) + whole + PointText(pointed, fraction)
  }

  function PointText(pointed: bool, fraction: string): string {
    if pointed then "." + fraction else ""
  }

  /** A significand with at least one digit, and none behind a missing point. */
  ghost predicate IsSignificand(whole: string, pointed: bool, fraction: string) {
    AllDigits(whole) && AllDigits(fraction) && whole + fraction != [] && (fraction != [] ==> pointed)
  }

  // ---------------------------------------------------------------- reading what was written

  /** One piece of a text taken off. */
  lemma Peel(t: string, i: nat, p: string, q: string)
    requires i <= |t| && t[i..] == p + q
    ensures i + |p| <= |t| && t[i..i + |p|] == p && t[i + |p|..] == q
  {
    assert t[i..][..|p|] == p && t[i..][|p|..] == q;
  }

  lemma NotEmpty(t: string)
    requires Terminated(t)
    ensures t != []
  {
  }

  lemma HeadIs(t: string, i: nat, q: string)
    requires i <= |t| && t[i..] == q && q != []
    ensures i < |t| && t[i] == q[0]
  {
  }

  lemma TakeDigits(t: string, i: nat, d: string, q: string)
    requires Terminated(t) && i <= |t| && t[i..] == d + q && AllDigits(d) && q != [] && !IsDigit(q[0])
    ensures i + |d| < |t| && DigitRun(t, i) == i + |d| && t[i..i + |d|] == d && t[i + |d|..] == q && t[i + |d|] == q[0]
  {
    Peel(t, i, d, q);
    HeadIs(t, i + |d|, q);
    forall k | i <= k < i + |d|
      ensures IsDigit(t[k])
    {
      assert t[k] == t[i..i + |d|][k - i];
    }
    Clipping.RunTo(t, i, i + |d|);
  }

  lemma TakeSign(t: string, i: nat, sign: Sign, q: string)
    requires Terminated(t) && i <= |t| && t[i..] == Written(sign) + q && q != [] && !IsSign(q[0])
    ensures var j := i + |Written(sign)|;
      i <= j < |t| && AfterSign(t, i) == j && (t[i] == '-' <==> sign.Minus?) && t[j..] == q && t[j] == q[0]
  {
    var j := i + |Written(sign)|;
    Peel(t, i, Written(sign), q);
    HeadIs(t, j, q);
    assert t[i] == t[i..][0];
  }

  lemma TakePoint(t: string, i: nat, pointed: bool, fraction: string, rest: string)
    requires Terminated(t) && i < |t| && t[i..] == PointText(pointed, fraction) + rest && AllDigits(fraction)
    requires rest != [] && !IsDigit(rest[0]) && (pointed || (rest[0] != '.' && fraction == []))
    ensures var j := i + |PointText(pointed, fraction)|;
      !IsDigit(t[i]) && j < |t| && t[j..] == rest && t[j] == rest[0] && (t[i] == '.' <==> pointed) &&
      (pointed ==> i + 1 <= j && DigitRun(t, i + 1) == j && t[i + 1..j] == fraction)
  {
    hide *;
    PointFirst(pointed, fraction, rest);
    if pointed {
      Peel(t, i, ".", fraction + rest);
      HeadIs(t, i, "." + (fraction + rest));
      TakeDigits(t, i + 1, fraction, rest);
    } else {
      HeadIs(t, i, rest);
    }
  }

  lemma PointFirst(pointed: bool, fraction: string, rest: string)
    requires rest != []
    ensures pointed ==> PointText(pointed, fraction) + rest == "." + (fraction + rest)
    ensures pointed ==> ("." + (fraction + rest))[0] == '.' && |PointText(pointed, fraction)| == 1 + |fraction|
    ensures !pointed ==> PointText(pointed, fraction) + rest == rest && PointText(pointed, fraction) == []
    ensures !IsDigit('.')
  {
  }

  /** The significand is read as it was written, up to what follows it. */
  lemma TakeSignificand(t: string, sign: Sign, whole: string, pointed: bool, fraction: string, rest: string)
    requires t == Significand(sign, whole, pointed, fraction) + rest && Terminated(rest)
    requires IsSignificand(whole, pointed, fraction) && !IsDigit(rest[0]) && (pointed || rest[0] != '.')
    ensures var a, j := |Written(sign)|, |Significand(sign, whole, pointed, fraction)|;
      Terminated(t) && (t[0] == '-' <==> sign.Minus?) && AfterSign(t, 0) == a < |t| && j < |t| &&
      t[a..DigitRun(t, a)] == whole && FractionAt(t, a) == fraction && SignificandEnd(t, a) == j && t[j..] == rest
  {
    hide *;
    var q := PointText(pointed, fraction) + rest;
    NotEmpty(rest);
    InPieces(t, sign, whole, pointed, fraction, rest);
    StartsNumeral(whole, pointed, fraction, rest);
    NoDigitNext(pointed, fraction, rest);
    TakeWhole(t, sign, whole, q);
    TakeEnd(t, |Written(sign)|, |whole|, pointed, fraction, rest, q);
  }

  lemma TakeEnd(t: string, a: nat, n: nat, pointed: bool, fraction: string, rest: string, q: string)
    requires Terminated(t) && a + n < |t| && DigitRun(t, a) == a + n && t[a + n..] == q
    requires q == PointText(pointed, fraction) + rest && AllDigits(fraction) && rest != [] && !IsDigit(rest[0])
    requires pointed || (rest[0] != '.' && fraction == [])
    ensures var j := a + n + |PointText(pointed, fraction)|;
      j < |t| && FractionAt(t, a) == fraction && SignificandEnd(t, a) == j && t[j..] == rest
  {
    hide *;
    var i := a + n;
    PointFirst(pointed, fraction, rest);
    TakePoint(t, i, pointed, fraction, rest);
    EndsAt(t, a, i, i + |PointText(pointed, fraction)|, pointed, fraction);
  }

  lemma TakeWhole(t: string, sign: Sign, whole: string, q: string)
    requires Terminated(t) && t[0..] == Written(sign) + (whole + q) && AllDigits(whole)
    requires q != [] && !IsDigit(q[0]) && !IsSign((whole + q)[0])
    ensures var a := |Written(sign)|;
      t[0..] == t && (t[0] == '-' <==> sign.Minus?) && AfterSign(t, 0) == a && a + |whole| < |t| &&
      DigitRun(t, a) == a + |whole| && t[a..a + |whole|] == whole && t[a + |whole|..] == q
  {
    hide *;
    TakeSign(t, 0, sign, whole + q);
    TakeDigits(t, |Written(sign)|, whole, q);
  }

  lemma InPieces(t: string, sign: Sign, whole: string, pointed: bool, fraction: string, rest: string)
    requires t == Significand(sign, whole, pointed, fraction) + rest && Terminated(rest)
    requires IsSignificand(whole, pointed, fraction)
    ensures Terminated(t) && t[0..] == Written(sign) + (whole + (PointText(pointed, fraction) + rest))
    ensures |Significand(sign, whole, pointed, fraction)| ==
      |Written(sign)| + |whole| + |PointText(pointed, fraction)|
    ensures AllDigits(whole) && AllDigits(fraction) && (pointed || fraction == [])
  {
    hide AllDigits, Written, PointText;
    Grouped(Written(sign), whole, PointText(pointed, fraction), rest);
  }

  lemma Grouped(a: string, b: string, c: string, d: string)
    requires d != []
    ensures (a + b + c + d)[0..] == a + (b + (c + d)) && |a + b + c| == |a| + |b| + |c|
    ensures (a + b + c + d)[|a + b + c + d| - 1] == d[|d| - 1]
  {
    assert (a + b + c + d)[0..] == a + b + c + d;
  }

  lemma EndsAt(t: string, a: nat, i: nat, j: nat, pointed: bool, fraction: string)
    requires Terminated(t) && a <= i < |t| && i <= j < |t| && DigitRun(t, a) == i && (t[i] == '.' <==> pointed)
    requires pointed ==> i + 1 < |t| && DigitRun(t, i + 1) == j && i + 1 <= j && t[i + 1..j] == fraction
    requires !pointed ==> j == i && fraction == []
    ensures SignificandEnd(t, a) == j && FractionAt(t, a) == fraction
  {
  }

  lemma StartsNumeral(whole: string, pointed: bool, fraction: string, rest: string)
    requires IsSignificand(whole, pointed, fraction)
    ensures var q := whole + (PointText(pointed, fraction) + rest); q != [] && !IsSign(q[0])
  {
    var q := whole + (PointText(pointed, fraction) + rest);
    if whole != [] {
      assert q[0] == whole[0];
    } else {
      assert q[0] == '.';
    }
  }

  lemma NoDigitNext(pointed: bool, fraction: string, rest: string)
    requires rest != [] && !IsDigit(rest[0])
    ensures var q := PointText(pointed, fraction) + rest; q != [] && !IsDigit(q[0])
  {
  }

  /** rest is not an exponent: no mark, or no digit behind it. */
  ghost predicate NoExponent(rest: string)
    requires Terminated(rest)
  {
    (rest[0] == 'e' || rest[0] == 'E') ==> !IsDigit(rest[AfterSign(rest, 1)])
  }

  lemma NoTail(t: string, j: nat, rest: string)
    requires Terminated(t) && Terminated(rest) && j < |t| && t[j..] == rest && NoExponent(rest)
    ensures t[j] == rest[0]
    ensures t[j] == 'e' || t[j] == 'E' ==>
      j + 1 < |t| && AfterSign(t, j + 1) < |t| && DigitRun(t, AfterSign(t, j + 1)) == AfterSign(t, j + 1)
  {
    assert forall i :: 0 <= i < |rest| ==> t[j + i] == rest[i];
    if t[j] == 'e' || t[j] == 'E' {
      RunEnds(t, AfterSign(t, j + 1));
    }
  }

  /** Without an exponent the numeral is the significand, and ends with it. */
  lemma ReadPlain(sign: Sign, whole: string, pointed: bool, fraction: string, rest: string)
    requires IsSignificand(whole, pointed, fraction) && Terminated(rest) && !IsDigit(rest[0])
    requires (pointed || rest[0] != '.') && NoExponent(rest)
    ensures var s := Significand(sign, whole, pointed, fraction);
      Terminated(s + rest) && Read(s + rest) == Numeral(sign.Minus?, whole, fraction, false, [], |s|)
  {
    hide DigitRun, SignificandEnd, FractionAt, Significand, Written, AfterSign, IsSignificand, NoExponent, IsDigit;
    var s := Significand(sign, whole, pointed, fraction);
    TakeSignificand(s + rest, sign, whole, pointed, fraction, rest);
    NoTail(s + rest, |s|, rest);
  }

  function Mark(capital: bool): string {
    if capital then "E" else "e"
  }

  lemma TakeExponent(t: string, j: nat, capital: bool, expSign: Sign, exp: string, rest: string)
    requires Terminated(t) && AllDigits(exp) && exp != [] && rest != [] && !IsDigit(rest[0])
    requires j <= |t| && t[j..] == Mark(capital) + (Written(expSign) + (exp + rest))
    ensures var k := j + 1 + |Written(expSign)|;
      j + 1 < |t| && k < |t| && (t[j] == 'e' || t[j] == 'E') && (t[j + 1] == '-' <==> expSign.Minus?) &&
      AfterSign(t, j + 1) == k && DigitRun(t, k) == k + |exp| && t[k..k + |exp|] == exp
  {
    hide *;
    TakeMark(t, j, capital, Written(expSign) + (exp + rest));
    DigitNoSign(exp, rest);
    TakeSign(t, j + 1, expSign, exp + rest);
    TakeDigits(t, j + 1 + |Written(expSign)|, exp, rest);
  }

  lemma TakeMark(t: string, j: nat, capital: bool, q: string)
    requires j <= |t| && t[j..] == Mark(capital) + q && q != []
    ensures j + 1 < |t| && (t[j] == 'e' || t[j] == 'E') && t[j + 1..] == q
  {
    Peel(t, j, Mark(capital), q);
    HeadIs(t, j, Mark(capital) + q);
  }

  lemma DigitNoSign(exp: string, rest: string)
    requires AllDigits(exp) && exp != []
    ensures exp + rest != [] && !IsSign((exp + rest)[0])
  {
    assert (exp + rest)[0] == exp[0];
  }

  /** With an exponent, in either case of the mark, its sign and digits are read too. */
  lemma ReadExponent(sign: Sign, whole: string, pointed: bool, fraction: string, capital: bool, expSign: Sign,
                     exp: string, rest: string)
    requires IsSignificand(whole, pointed, fraction) && AllDigits(exp) && exp != []
    requires Terminated(rest) && !IsDigit(rest[0])
    ensures var s := Significand(sign, whole, pointed, fraction) + Mark(capital) + Written(expSign) + exp;
      Terminated(s + rest) && Read(s + rest) == Numeral(sign.Minus?, whole, fraction, expSign.Minus?, exp, |s|)
  {
    hide *;
    var m, w := Significand(sign, whole, pointed, fraction), Written(expSign);
    var s, tail := m + Mark(capital) + w + exp, Mark(capital) + (w + (exp + rest));
    NotEmpty(rest);
    Regroup(m, Mark(capital), w, exp, rest);
    MarkFirst(capital, w + (exp + rest), rest);
    TakeSignificand(s + rest, sign, whole, pointed, fraction, tail);
    TakeExponent(s + rest, |m|, capital, expSign, exp, rest);
    MarkLength(capital);
    ReadIs(s + rest, |Written(sign)|, |m|, |m| + 1 + |w|, |s|);
  }

  lemma Regroup(a: string, b: string, c: string, d: string, e: string)
    ensures a + b + c + d + e == a + (b + (c + (d + e))) && |a + b + c + d| == |a| + |b| + |c| + |d|
    ensures e != [] ==> b + (c + (d + e)) != [] && (b + (c + (d + e)))[|b + (c + (d + e))| - 1] == e[|e| - 1]
  {
  }

  lemma MarkLength(capital: bool)
    ensures |Mark(capital)| == 1
  {
  }

  lemma MarkFirst(capital: bool, q: string, rest: string)
    requires Terminated(rest) && Mark(capital) + q != []
    requires (Mark(capital) + q)[|Mark(capital) + q| - 1] == rest[|rest| - 1]
    ensures var t := Mark(capital) + q; Terminated(t) && !IsDigit(t[0]) && t[0] != '.'
  {
  }

  /** The numeral from the places of its parts, when an exponent is there. */
  lemma ReadIs(t: string, a: nat, j: nat, k: nat, l: nat)
    requires Terminated(t) && AfterSign(t, 0) == a < |t| && SignificandEnd(t, a) == j && (t[j] == 'e' || t[j] == 'E')
    requires j + 1 < |t| && AfterSign(t, j + 1) == k < |t| && DigitRun(t, k) == l > k
    ensures Read(t) ==
      Numeral(t[0] == '-', t[a..DigitRun(t, a)], FractionAt(t, a), t[j + 1] == '-', t[k..l], l)
  {
    hide DigitRun, SignificandEnd, FractionAt, AfterSign;
  }

  // ---------------------------------------------------------------- what the exponent is worth

  /** A number as vsprintf spells it in decimal. */
  function Spelled(n: nat): string {
    NumberText.DigitText(n, 10, true)
  }

  /** The digits of a number spell that number. */
  lemma {:induction false} SpelledValue(n: nat)
    ensures AllDigits(Spelled(n)) && Spelled(n) != [] && Dec(Spelled(n)) == n
    ensures LeadingZeros(Spelled(n)) == if n == 0 then 1 else 0
  {
    hide Dec, LeadingZeros;
    SpelledDigits(n);
    NumberText.FirstDigit(n, 10, true);
    LeadingZerosUnique(Spelled(n), if n == 0 then 1 else 0);
  }

  lemma {:induction false} SpelledDigits(n: nat)
    ensures AllDigits(Spelled(n)) && Dec(Spelled(n)) == n
  {
    hide Dec;
    if n < 10 {
      var c := NumberText.HexChr(n, true);
      assert Spelled(n) == [c];
      DecSnoc([c]);
      assert [c][..0] == [];
      DecNone();
    } else {
      SpelledDigits(n / 10);
      var s, c := Spelled(n / 10), NumberText.HexChr(n % 10, true);
      assert Spelled(n) == s + [c] && (s + [c])[..|s|] == s;
      DecSnoc(s + [c]);
    }
  }

  /** Fewer than ten digits below 10^9, so no clipping. */
  lemma SpelledShort(n: nat)
    requires n < 1_000_000_000
    ensures AllDigits(Spelled(n)) && |Spelled(n)| - LeadingZeros(Spelled(n)) <= 9
  {
    hide Dec, LeadingZeros, Pow;
    SpelledValue(n);
    if n > 0 {
      var s := Spelled(n);
      Clipping.DecAtLeast(s);
      if |s| > 9 {
        PowMonotone(10, 9, |s| - 1);
        TenTo9();
      }
    }
  }

  /** The text with exponent k of the given sign behind a significand. */
  function WithExponent(body: string, capital: bool, expSign: Sign, k: nat): string {
    body + Mark(capital) + Written(expSign) + Spelled(k)
  }

  /** An exponent k counts as k, behind a minus sign as -k, and the rest of the numeral does not depend on it. */
  lemma ExponentIs(sign: Sign, whole: string, pointed: bool, fraction: string, capital: bool, expSign: Sign, k: nat,
                   rest: string)
    requires IsSignificand(whole, pointed, fraction) && Terminated(rest) && !IsDigit(rest[0])
    ensures var t := WithExponent(Significand(sign, whole, pointed, fraction), capital, expSign, k) + rest;
      Terminated(t) && Read(t).Exponent() == (if expSign.Minus? then -1 else 1) * k &&
      (k < 1_000_000_000 ==> Read(t).ClippedExponent() == Read(t).Exponent()) &&
      Read(t).Digits() == whole + fraction && Read(t).fraction == fraction
  {
    hide Dec, LeadingZeros, Read, Spelled, Significand;
    SpelledValue(k);
    ReadExponent(sign, whole, pointed, fraction, capital, expSign, Spelled(k), rest);
    if k < 1_000_000_000 {
      SpelledShort(k);
    }
  }

  // ---------------------------------------------------------------- what the parser makes of it

  /** Numbers without a factor ten are told apart by their power of ten. */
  lemma {:induction false} PowerUnique(a: nat, i: nat, b: nat, j: nat)
    requires a % 10 != 0 && b % 10 != 0 && a * Pow(10, i) == b * Pow(10, j)
    ensures i == j
    decreases i + j
  {
    hide Pow;
    if i > 0 && j > 0 {
      PowStep(10, i - 1);
      PowStep(10, j - 1);
      MulAssoc(a, 10, Pow(10, i - 1));
      MulAssoc(b, 10, Pow(10, j - 1));
      TenfoldEqual(a, Pow(10, i - 1), b, Pow(10, j - 1));
      PowerUnique(a, i - 1, b, j - 1);
    } else if i > 0 {
      NotTenfold(a, i, b);
    } else if j > 0 {
      NotTenfold(b, j, a);
    }
  }

  lemma TenfoldEqual(a: nat, p: nat, b: nat, q: nat)
    requires a * (10 * p) == b * (10 * q)
    ensures a * p == b * q
  {
    assert a * (10 * p) == 10 * (a * p) && b * (10 * q) == 10 * (b * q);
  }

  lemma NotTenfold(a: nat, i: nat, b: nat)
    requires i > 0 && b % 10 != 0
    ensures a * Pow(10, i) != b * Pow(10, 0)
  {
    hide Pow;
    PowZero(10);
    PowStep(10, i - 1);
    var p := Pow(10, i - 1);
    assert a * (10 * p) == 10 * (a * p);
    assert (10 * (a * p)) % 10 == 0;
  }

  /** The last of the digits kept is the last digit of their number. */
  lemma LastKept(s: seq<char>, nd0: nat, nd: nat)
    requires IsDigitString(s, nd0, nd) && nd > 0 && DigitAt(s, nd0, nd, nd - 1) > 0
    ensures Prefix(s, nd0, nd, nd) % 10 != 0
  {
    hide DigitAt;
    var p, d := Prefix(s, nd0, nd, nd - 1), DigitAt(s, nd0, nd, nd - 1);
    assert Prefix(s, nd0, nd, nd) == 10 * p + d;
    assert (10 * p + d) % 10 == d;
  }

  /** Two texts with the same digits: the exponents the parser hands on differ as those of the texts do. */
  lemma ExponentsDiffer(t: string, n: Numeral, s0: nat, nd0: nat, nd: nat, e: int,
                        t': string, n': Numeral, s0': nat, nd0': nat, nd': nat, e': int)
    requires n.Valid() && StandsFor(t, n, s0, nd0, nd, e) && n'.Valid() && StandsFor(t', n', s0', nd0', nd', e')
    requires n.Digits() == n'.Digits() && |n.fraction| == |n'.fraction|
    ensures e' - e == n'.ClippedExponent() - n.ClippedExponent()
  {
    hide Dec, Pow, Prefix, DigitAt, IsDigitString, LeadingZeros;
    var f := |n.fraction|;
    LastKept(t[s0..], nd0, nd);
    LastKept(t'[s0'..], nd0', nd');
    PowerUnique(Prefix(t[s0..], nd0, nd, nd), e - (n.ClippedExponent() - f),
                Prefix(t'[s0'..], nd0', nd', nd'), e' - (n'.ClippedExponent() - f));
  }

  /** The same significand without an exponent, with exponent k and with exponent -k: e, e + k and e - k. */
  method ParseThree(sign: Sign, whole: string, pointed: bool, fraction: string, capital: bool, k: nat)
    returns (plain: Parsed, up: Parsed, down: Parsed)
    requires IsSignificand(whole, pointed, fraction) && k < 1_000_000_000
    ensures plain.Rejected? <==>
      |whole + fraction| - LeadingZeros(whole + fraction) > MAX_DIGITS || |fraction| > MAX_DIGITS
    ensures up.Rejected? <==> plain.Rejected?
    ensures down.Rejected? <==> plain.Rejected?
    ensures plain.Number? && up.Number? && down.Number? ==> up.e == plain.e + k && down.e == plain.e - k
  {
    hide Dec, LeadingZeros, Read, Spelled, Significand, StandsFor, Numeral.ClippedExponent, Numeral.Exponent;
    var body, end := Significand(sign, whole, pointed, fraction), "\0";
    var t := body + end;
    var t1, t2 := WithExponent(body, capital, Bare, k) + end, WithExponent(body, capital, Minus, k) + end;
    ReadPlain(sign, whole, pointed, fraction, end);
    ExponentIs(sign, whole, pointed, fraction, capital, Bare, k, end);
    ExponentIs(sign, whole, pointed, fraction, capital, Minus, k, end);
    NoExponentIsZero(Read(t));
    plain := Parse(t);
    up := Parse(t1);
    down := Parse(t2);
    if plain.Number? && up.Number? && down.Number? {
      ExponentsDiffer(t, Read(t), plain.s0, plain.nd0, plain.nd, plain.e,
                      t1, Read(t1), up.s0, up.nd0, up.nd, up.e);
      ExponentsDiffer(t, Read(t), plain.s0, plain.nd0, plain.nd, plain.e,
                      t2, Read(t2), down.s0, down.nd0, down.nd, down.e);
    }
  }

  lemma NoExponentIsZero(n: Numeral)
    requires n.Valid() && n.expDigits == [] && !n.expNegative
    ensures n.ClippedExponent() == 0
  {
    DecNone();
  }
}
