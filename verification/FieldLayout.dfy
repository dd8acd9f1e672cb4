/** What the texts of number in so3/lib/vsprintf.c look like: which characters stand where. */
module FieldLayout {
  import opened DecimalDigits
  import opened NumberText

  ghost predicate All(t: seq<char>, c: char) {
    forall i :: 0 <= i < |t| ==> t[i] == c
  }

  /** No 16-bit subtraction or decrement of the width wraps: the condition of TextWidth. */
  ghost predicate NoWrap(num: nat, spec: Spec)
    requires num < 0x1_0000_0000_0000_0000 && ValidSpec(spec)
  {
    spec.width - Needed(num, spec) >= -0x8000 + Margin(spec.left, spec.zeropad)
  }

  /** The characters by which the field is wider than its contents. */
  ghost function Excess(num: nat, spec: Spec): nat
    requires num < 0x1_0000_0000_0000_0000 && ValidSpec(spec)
  {
    if spec.width > Needed(num, spec) then spec.width - Needed(num, spec) else 0
  }

  /** The digits, filled up with zeros to the precision. */
  ghost predicate IsNumeral(num: nat, spec: Spec, t: seq<char>)
    requires num < 0x1_0000_0000_0000_0000 && ValidSpec(spec)
  {
    var digits := DigitText(Magnitude(num, spec), spec.base, spec.small);
    |t| == Precision(|digits|, spec) && t[|t| - |digits|..] == digits && All(t[..|t| - |digits|], '0')
  }

  /** t in its parts: lead, sign, prefix, gap, numeral and trail. */
  ghost predicate Parts(num: nat, spec: Spec, t: seq<char>, lead: seq<char>, gap: seq<char>, numeral: seq<char>,
                        trail: seq<char>)
    requires num < 0x1_0000_0000_0000_0000 && ValidSpec(spec)
  {
    t == lead + SignText(num, spec) + PrefixText(num, spec) + gap + numeral + trail && IsNumeral(num, spec, numeral)
  }

  lemma AssembleParts(slack: int, left: bool, zeropad: bool, sign: seq<char>, prefix: seq<char>, zeros: nat,
                      digits: seq<char>)
    returns (lead: seq<char>, gap: seq<char>, trail: seq<char>)
    requires -0x8000 + Margin(left, zeropad) <= slack < 0x8000
    ensures Assemble(slack, left, zeropad, sign, prefix, zeros, digits) ==
      lead + sign + prefix + gap + (Fill('0', zeros) + digits) + trail
    ensures var pad := if slack > 0 then slack else 0;
      |lead| == (if !left && !zeropad then pad else 0) && All(lead, ' ') &&
      |gap| == (if !left && zeropad then pad else 0) && All(gap, '0') &&
      |trail| == (if left then pad else 0) && All(trail, ' ')
  {
    var pad := if slack > 0 then slack else 0;
    lead := Fill(' ', if !left && !zeropad then pad else 0);
    gap := Fill('0', if !left && zeropad then pad else 0);
    trail := Fill(' ', if left then pad else 0);
    var w1 := if !left && !zeropad then Left(slack) else slack;
    var w2 := if !left then Left(w1) else w1;
    var c := if zeropad && !left then '0' else ' ';
    assert Fill(c, if !left then Runs(w1) else 0) == gap;
    assert Fill(' ', Runs(w2)) == trail;
    assert Fill(' ', if !left && !zeropad then Runs(slack) else 0) == lead;
    Associate(lead + sign + prefix + gap, Fill('0', zeros), digits, trail);
  }

  lemma Associate(a: seq<char>, b: seq<char>, c: seq<char>, d: seq<char>)
    ensures a + b + c + d == a + (b + c) + d
  {
  }

  /**
   Without LEFT and ZEROPAD the field is filled with blanks before the sign, with ZEROPAD by zeros between prefix and
   digits, with LEFT by blanks at the end; nowhere else and with nothing else.
   */
  lemma FieldIs(num: nat, spec: Spec) returns (lead: seq<char>, gap: seq<char>, numeral: seq<char>, trail: seq<char>)
    requires num < 0x1_0000_0000_0000_0000 && ValidSpec(spec) && NoWrap(num, spec)
    ensures Parts(num, spec, Text(num, spec), lead, gap, numeral, trail)
    ensures |lead| == (if !spec.left && !spec.zeropad then Excess(num, spec) else 0) && All(lead, ' ')
    ensures |gap| == (if !spec.left && spec.zeropad then Excess(num, spec) else 0) && All(gap, '0')
    ensures |trail| == (if spec.left then Excess(num, spec) else 0) && All(trail, ' ')
  {
    hide DigitText, SignText, PrefixText, Assemble, S16, Magnitude, All;
    var digits := DigitText(Magnitude(num, spec), spec.base, spec.small);
    var precision := Precision(|digits|, spec);
    PieceLengths(num, spec);
    DigitCount(Magnitude(num, spec), spec.base, spec.small);
    SlackIs(num, spec, precision);
    lead, gap, trail := AssembleParts(Slack(num, spec, precision), spec.left, spec.zeropad, SignText(num, spec),
      PrefixText(num, spec), precision - |digits|, digits);
    numeral := Fill('0', precision - |digits|) + digits;
    NumeralIs(precision - |digits|, digits);
  }

  lemma NumeralIs(zeros: nat, digits: seq<char>)
    ensures var t := Fill('0', zeros) + digits;
      |t| == zeros + |digits| && t[zeros..] == digits && All(t[..zeros], '0')
  {
  }

  /** The sign: a minus for negative numbers, otherwise what PLUS or SPACE ask for, and nothing without SIGN. */
  lemma SignIs(num: nat, spec: Spec)
    requires num < 0x1_0000_0000_0000_0000
    ensures spec.sign && Signed(num) < 0 ==> SignText(num, spec) == "-" && Magnitude(num, spec) == 0 - Signed(num)
    ensures spec.sign && Signed(num) >= 0 ==>
      SignText(num, spec) == (if spec.plus then "+" else if spec.space then " " else "") &&
      Magnitude(num, spec) == Signed(num)
    ensures !spec.sign ==> SignText(num, spec) == "" && Magnitude(num, spec) == num
  {
  }

  predicate IsUpper(c: char) {
    'A' <= c <= 'Z'
  }

  predicate IsLower(c: char) {
    'a' <= c <= 'z'
  }

  /** Letters come in one case only, that of SMALL. */
  ghost predicate OneCase(t: seq<char>, small: bool) {
    forall i :: 0 <= i < |t| ==> if small then !IsUpper(t[i]) else !IsLower(t[i])
  }

  lemma {:induction false} DigitCase(n: nat, base: nat, small: bool)
    requires 2 <= base <= 16
    ensures OneCase(DigitText(n, base, small), small)
    decreases n
  {
    if n >= base {
      Smaller(n, base);
      DigitCase(n / base, base, small);
    }
  }

  lemma LetterCase(num: nat, spec: Spec)
    requires num < 0x1_0000_0000_0000_0000 && ValidSpec(spec)
    ensures OneCase(Text(num, spec), spec.small)
  {
    hide *;
    BaseIs(spec);
    var digits := DigitText(Magnitude(num, spec), spec.base, spec.small);
    DigitCase(Magnitude(num, spec), spec.base, spec.small);
    TextPieces(num, spec, digits);
    SignCase(num, spec);
    AssembleCase(Slack(num, spec, Precision(|digits|, spec)), spec.left, spec.zeropad, SignText(num, spec),
      PrefixText(num, spec), Precision(|digits|, spec) - |digits|, digits, spec.small);
  }

  lemma BaseIs(spec: Spec)
    requires ValidSpec(spec)
    ensures 8 <= spec.base <= 16
  {
  }

  lemma TextPieces(num: nat, spec: Spec, digits: seq<char>)
    requires num < 0x1_0000_0000_0000_0000 && ValidSpec(spec) && 2 <= spec.base <= 16
    requires digits == DigitText(Magnitude(num, spec), spec.base, spec.small)
    ensures Precision(|digits|, spec) >= |digits|
    ensures Text(num, spec) == Assemble(Slack(num, spec, Precision(|digits|, spec)), spec.left, spec.zeropad,
                                        SignText(num, spec), PrefixText(num, spec),
                                        Precision(|digits|, spec) - |digits|, digits)
  {
    hide DigitText, Assemble, Slack, SignText, PrefixText, Magnitude;
  }

  lemma SignCase(num: nat, spec: Spec)
    ensures OneCase(SignText(num, spec), spec.small) && OneCase(PrefixText(num, spec), spec.small)
  {
  }

  lemma CaseConcat(s: seq<char>, t: seq<char>, small: bool)
    requires OneCase(s, small) && OneCase(t, small)
    ensures OneCase(s + t, small)
  {
  }

  lemma FillCase(c: char, n: nat, small: bool)
    requires c == ' ' || c == '0'
    ensures OneCase(Fill(c, n), small)
  {
  }

  lemma AssembleCase(slack: int, left: bool, zeropad: bool, sign: seq<char>, prefix: seq<char>, zeros: nat,
                     digits: seq<char>, small: bool)
    requires OneCase(sign, small) && OneCase(prefix, small) && OneCase(digits, small)
    ensures OneCase(Assemble(slack, left, zeropad, sign, prefix, zeros, digits), small)
  {
    hide OneCase, Fill, Runs, Left;
    var w1 := if !left && !zeropad then Left(slack) else slack;
    var w2 := if !left then Left(w1) else w1;
    var c := if zeropad && !left then '0' else ' ';
    var a, b := Fill(' ', if !left && !zeropad then Runs(slack) else 0), Fill(c, if !left then Runs(w1) else 0);
    var z, e := Fill('0', zeros), Fill(' ', Runs(w2));
    FillCase(' ', if !left && !zeropad then Runs(slack) else 0, small);
    FillCase(c, if !left then Runs(w1) else 0, small);
    FillCase('0', zeros, small);
    FillCase(' ', Runs(w2), small);
    CaseConcat(a, sign, small);
    CaseConcat(a + sign, prefix, small);
    CaseConcat(a + sign + prefix, b, small);
    CaseConcat(a + sign + prefix + b, z, small);
    CaseConcat(a + sign + prefix + b + z, digits, small);
    CaseConcat(a + sign + prefix + b + z + digits, e, small);
  }

  /** The prefix of SPECIAL: 0 for a nonzero octal number, 0x or 0X for every hexadecimal one. */
  lemma PrefixIs(num: nat, spec: Spec)
    requires ValidSpec(spec)
    ensures PrefixText(num, spec) ==
      if spec.special && spec.base == 8 && num > 0 then "0"
      else if spec.special && spec.base == 16 then (if spec.small then "0x" else "0X")
      else ""
  {
  }
}
