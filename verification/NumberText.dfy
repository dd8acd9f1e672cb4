/**
 number and simple_strtoull of so3/lib/vsprintf.c: integers to text with sign, prefix, precision and
 field width, and text back to integers.
 */
module NumberText {
  import opened DecimalDigits
  import opened Powers
  import Words

  // ---------------------------------------------------------------- digits as text, highest first

  function HexChr(d: nat, small: bool): char
    requires d < 16
  {
    if d < 10 then ('0' as int + d) as char else ((if small then 'a' else 'A') as int + (d - 10)) as char
  }

  /** The digits of n in the base, highest first. */
  function DigitText(n: nat, base: nat, small: bool): (r: seq<char>)
    requires 2 <= base <= 16
    ensures |r| > 0
    decreases n
  {
    if n < base then [HexChr(n, small)]
    else
      Smaller(n, base);
      DigitText(n / base, base, small) + [HexChr(n % base, small)]
  }

  /** The digits of n in the base, lowest first: the order in which they are produced. */
  function RevText(n: nat, base: nat, small: bool): (r: seq<char>)
    requires 2 <= base <= 16
    ensures |r| > 0
    decreases n
  {
    if n < base then [HexChr(n, small)]
    else
      Smaller(n, base);
      [HexChr(n % base, small)] + RevText(n / base, base, small)
  }

  function Reversed(t: seq<char>): (r: seq<char>)
    ensures |r| == |t|
  {
    if t == [] then [] else Reversed(t[1..]) + [t[0]]
  }

  lemma {:induction false} DigitTextIsReversed(n: nat, base: nat, small: bool)
    requires 2 <= base <= 16
    ensures Reversed(RevText(n, base, small)) == DigitText(n, base, small)
    decreases n
  {
    if n < base {
      assert [HexChr(n, small)][1..] == [];
    } else {
      Smaller(n, base);
      DigitTextIsReversed(n / base, base, small);
      assert RevText(n, base, small)[1..] == RevText(n / base, base, small);
    }
  }

  /** put_dec's output, in the alphabet of number. */
  lemma {:induction false} DecimalText(n: nat, small: bool)
    ensures Decimal(RevDigits(n, 10)) && Chars(RevDigits(n, 10)) == RevText(n, 10, small)
    decreases n
  {
    if n >= 10 {
      DecimalText(n / 10, small);
      CharsConcat([n % 10], RevDigits(n / 10, 10));
    }
  }

  // ---------------------------------------------------------------- reading digits

  /** The value of a hexadecimal digit, -1 for any other character. */
  function XValue(c: char): int {
    if '0' <= c <= '9' then c as int - '0' as int
    else if 'A' <= c <= 'F' then c as int - 'A' as int + 10
    else if 'a' <= c <= 'f' then c as int - 'a' as int + 10
    else -1
  }

  predicate IsDigitOf(c: char, base: nat) {
    0 <= XValue(c) < base
  }

  lemma HexChrValue(d: nat, small: bool)
    requires d < 16
    ensures XValue(HexChr(d, small)) == d
  {
  }

  ghost predicate AllDigits(t: seq<char>, base: nat) {
    forall i :: 0 <= i < |t| ==> IsDigitOf(t[i], base)
  }

  /** The number a string of digits denotes. */
  function Horner(t: seq<char>, base: nat): int
  {
    if t == [] then 0 else Horner(t[..|t| - 1], base) * base + XValue(t[|t| - 1])
  }

  lemma HornerSnoc(t: seq<char>, c: char, base: nat)
    ensures Horner(t + [c], base) == Horner(t, base) * base + XValue(c)
  {
    assert (t + [c])[..|t|] == t;
  }

  /** Reading the digits of n gives n. */
  lemma {:induction false} HornerOfDigits(n: nat, base: nat, small: bool)
    requires 2 <= base <= 16
    ensures AllDigits(DigitText(n, base, small), base) && Horner(DigitText(n, base, small), base) == n
    decreases n
  {
    hide Horner, XValue, HexChr;
    if n < base {
      HexChrValue(n, small);
      HornerOne(HexChr(n, small), base);
    } else {
      Smaller(n, base);
      HornerOfDigits(n / base, base, small);
      HexChrValue(n % base, small);
      HornerDigit(DigitText(n / base, base, small), HexChr(n % base, small), base, n / base, n % base);
    }
  }

  lemma HornerOne(c: char, base: nat)
    requires IsDigitOf(c, base)
    ensures AllDigits([c], base) && Horner([c], base) == XValue(c)
  {
    HornerSnoc([], c, base);
    assert [] + [c] == [c];
  }

  lemma HornerDigit(t: seq<char>, c: char, base: nat, q: nat, d: nat)
    requires AllDigits(t, base) && Horner(t, base) == q && XValue(c) == d < base
    ensures AllDigits(t + [c], base) && Horner(t + [c], base) == d + base * q
  {
    HornerSnoc(t, c, base);
    assert q * base == base * q;
  }

  /** No leading zero, so no accidental prefix, unless n is 0. */
  lemma {:induction false} FirstDigit(n: nat, base: nat, small: bool)
    requires 2 <= base <= 16
    ensures n > 0 ==> DigitText(n, base, small)[0] != '0'
    ensures n == 0 ==> DigitText(n, base, small) == ['0']
    decreases n
  {
    if n >= base {
      Smaller(n, base);
      FirstDigit(n / base, base, small);
    }
  }

  // ---------------------------------------------------------------- simple_strtoull

  /** The character at i of a null-terminated string. */
  function At(s: seq<char>, i: nat): char {
    if i < |s| then s[i] else '\0'
  }

  predicate IsX(c: char) {
    c == 'x' || c == 'X'
  }

  /** Where the digits start and the base they are read in. */
  function Prefix(s: seq<char>, base: nat): (nat, nat) {
    if base == 0 then
      if At(s, 0) != '0' then (0, 10)
      else if IsX(At(s, 1)) && XValue(At(s, 2)) >= 0 then (2, 16)
      else (1, 8)
    else if base == 16 && At(s, 0) == '0' && IsX(At(s, 1)) then (2, 16)
    else (0, base)
  }

  /** The digits of the base from i on stop at end. */
  ghost predicate DigitsUpTo(s: seq<char>, i: nat, end: nat, base: nat) {
    i <= end <= |s| && AllDigits(s[i..end], base) && !IsDigitOf(At(s, end), base)
  }

  /** result is the value, modulo 2^64, of the longest run of digits after the prefix, which ends at endp. */
  ghost predicate ReadAs(s: seq<char>, base0: nat, result: int, endp: nat) {
    var p := Prefix(s, base0);
    DigitsUpTo(s, p.0, endp, p.1) && result == Horner(s[p.0..endp], p.1) % 0x1_0000_0000_0000_0000
  }

  /** simple_strtoull. */
  method StrToULL(s: seq<char>, base0: nat) returns (result: nat, endp: nat)
    ensures ReadAs(s, base0, result, endp)
  {
    hide Horner, AllDigits;
    var cp: nat, base: nat := 0, base0;
    if base == 0 {
      base := 10;
      if At(s, cp) == '0' {
        base := 8;
        cp := cp + 1;
        if IsX(At(s, cp)) && XValue(At(s, cp + 1)) >= 0 {
          cp := cp + 1;
          base := 16;
        }
      }
    } else if base == 16 {
      if At(s, 0) == '0' && IsX(At(s, 1)) {
        cp := cp + 2;
      }
    }
    ghost var i := cp;
    assert (i, base) == Prefix(s, base0);
    result := 0;
    NoDigits(s, i, base);
    while IsDigitOf(At(s, cp), base)
      invariant i <= cp <= |s| && AllDigits(s[i..cp], base) &&
        result == Horner(s[i..cp], base) % 0x1_0000_0000_0000_0000
      decreases |s| - cp
    {
      OneMore(s, i, cp, base, result);
      result := (result * base + XValue(At(s, cp))) % 0x1_0000_0000_0000_0000;
      cp := cp + 1;
    }
    endp := cp;
  }

  lemma NoDigits(s: seq<char>, i: nat, base: nat)
    requires i <= |s|
    ensures AllDigits(s[i..i], base) && Horner(s[i..i], base) == 0
  {
  }

  lemma OneMore(s: seq<char>, i: nat, cp: nat, base: nat, result: nat)
    requires i <= cp < |s| && AllDigits(s[i..cp], base) && IsDigitOf(s[cp], base)
    requires result == Horner(s[i..cp], base) % 0x1_0000_0000_0000_0000
    ensures AllDigits(s[i..cp + 1], base)
    ensures Horner(s[i..cp + 1], base) % 0x1_0000_0000_0000_0000 ==
            (result * base + XValue(s[cp])) % 0x1_0000_0000_0000_0000
  {
    assert s[i..cp + 1] == s[i..cp] + [s[cp]];
    HornerSnoc(s[i..cp], s[cp], base);
    ModStep(Horner(s[i..cp], base), base, XValue(s[cp]));
  }

  lemma ModStep(h: int, base: nat, v: int)
    ensures (h * base + v) % 0x1_0000_0000_0000_0000 ==
            (h % 0x1_0000_0000_0000_0000 * base + v) % 0x1_0000_0000_0000_0000
  {
    var m := 0x1_0000_0000_0000_0000;
    var q, r := h / m, h % m;
    assert h == q * m + r;
    assert h * base + v == q * base * m + (r * base + v) by {
      assert (q * m + r) * base == q * base * m + r * base;
    }
    var k := q * base;
    assert (k * m + (r * base + v)) % m == (r * base + v) % m;
  }

  // ---------------------------------------------------------------- there and back

  /** What follows the digits does not continue them. */
  ghost predicate Stops(rest: seq<char>, base: nat) {
    !IsDigitOf(At(rest, 0), base) && !IsX(At(rest, 0))
  }

  lemma DigitsEnd(s: seq<char>, i: nat, end: nat, end': nat, base: nat)
    requires DigitsUpTo(s, i, end, base) && DigitsUpTo(s, i, end', base)
    ensures end == end'
  {
    hide AllDigits;
    if end < end' {
      DigitInside(s, i, end', end, base);
    } else if end' < end {
      DigitInside(s, i, end, end', base);
    }
  }

  lemma DigitInside(s: seq<char>, i: nat, end: nat, k: nat, base: nat)
    requires i <= k < end <= |s| && AllDigits(s[i..end], base)
    ensures IsDigitOf(s[k], base)
  {
    assert s[i..end][k - i] == s[k];
  }

  /** The digits of any 64-bit n in base 8, 10 or 16, read in that base, give n and end where they end. */
  lemma RoundTrip(n: nat, base: nat, small: bool, rest: seq<char>, result: nat, endp: nat)
    requires n < 0x1_0000_0000_0000_0000 && (base == 8 || base == 10 || base == 16) && Stops(rest, base)
    requires ReadAs(DigitText(n, base, small) + rest, base, result, endp)
    ensures result == n && endp == |DigitText(n, base, small)|
  {
    hide Horner, AllDigits, DigitText, Prefix, IsDigitOf, At;
    var t := DigitText(n, base, small);
    var s := t + rest;
    HornerOfDigits(n, base, small);
    NoPrefix(n, base, small, rest);
    OwnDigits(t, rest, base);
    DigitsEnd(s, 0, |t|, endp, base);
    SmallRemainder(n);
  }

  lemma SmallRemainder(n: nat)
    requires n < 0x1_0000_0000_0000_0000
    ensures n % 0x1_0000_0000_0000_0000 == n
  {
  }

  lemma OwnDigits(t: seq<char>, rest: seq<char>, base: nat)
    requires AllDigits(t, base) && Stops(rest, base)
    ensures DigitsUpTo(t + rest, 0, |t|, base) && (t + rest)[0..|t|] == t
  {
    assert (t + rest)[0..|t|] == t;
  }

  lemma NoPrefix(n: nat, base: nat, small: bool, rest: seq<char>)
    requires (base == 8 || base == 10 || base == 16) && Stops(rest, base)
    ensures Prefix(DigitText(n, base, small) + rest, base) == (0, base)
  {
    hide DigitText;
    FirstDigit(n, base, small);
    var s := DigitText(n, base, small) + rest;
    assert s[0] == DigitText(n, base, small)[0];
    if n == 0 {
      assert At(s, 1) == At(rest, 0);
    }
  }

  // ---------------------------------------------------------------- number

  /** width and precision are signed 16-bit fields. */
  datatype Spec = Spec(zeropad: bool, sign: bool, plus: bool, space: bool, left: bool, small: bool, special: bool,
                       base: nat, width: int, precision: int)

  ghost predicate ValidSpec(spec: Spec) {
    (spec.base == 8 || spec.base == 10 || spec.base == 16) &&
    -0x8000 <= spec.width < 0x8000 && -0x8000 <= spec.precision < 0x8000
  }

  function S16(x: int): (r: int)
    ensures -0x8000 <= r < 0x8000 && (-0x8000 <= x < 0x8000 ==> r == x)
  {
    (x + 0x8000) % 0x1_0000 - 0x8000
  }

  /** The magnitude printed and the sign character in front of it. */
  function Magnitude(num: nat, spec: Spec): (r: nat)
    requires num < 0x1_0000_0000_0000_0000
    ensures r <= num && (r == num || r <= 0x8000_0000_0000_0000)
  {
    if spec.sign && num >= 0x8000_0000_0000_0000 then 0x1_0000_0000_0000_0000 - num else num
  }

  function SignText(num: nat, spec: Spec): seq<char> {
    if !spec.sign then []
    else if num >= 0x8000_0000_0000_0000 then ['-']
    else if spec.plus then ['+']
    else if spec.space then [' ']
    else []
  }

  function PrefixText(num: nat, spec: Spec): seq<char> {
    if !spec.special || spec.base == 10 then []
    else if spec.base == 16 then ['0', if spec.small then 'x' else 'X']
    else if num != 0 then ['0'] else []
  }

  function Fill(c: char, n: nat): (r: seq<char>)
    ensures |r| == n && forall i :: 0 <= i < n ==> r[i] == c
  {
    seq(n, _ => c)
  }

  /** How many times a loop on --width >= 0 runs, and the width it leaves; the field wraps below -0x8000. */
  function Runs(width: int): nat {
    if width >= 0 then width else if width == -0x8000 then 0x8000 else 0
  }

  function Left(width: int): int {
    if width >= 0 || width == -0x8000 then -1 else width - 1
  }

  /** The width left for padding once sign, prefix and digits are accounted for, each subtraction in 16 bits. */
  function Slack(num: nat, spec: Spec, precision: int): int {
    S16(S16(S16(spec.width - |SignText(num, spec)|) - |PrefixText(num, spec)|) - precision)
  }

  /** Padding, sign, prefix, zeros of the precision and digits in their order; slack is the width left over. */
  function Assemble(slack: int, left: bool, zeropad: bool, sign: seq<char>, prefix: seq<char>, zeros: nat,
                    digits: seq<char>): seq<char> {
    var w1 := if !left && !zeropad then Left(slack) else slack;
    var w2 := if !left then Left(w1) else w1;
    Fill(' ', if !left && !zeropad then Runs(slack) else 0) + sign + prefix +
    Fill(if zeropad && !left then '0' else ' ', if !left then Runs(w1) else 0) +
    Fill('0', zeros) + digits + Fill(' ', Runs(w2))
  }

  /** The number of digits printed at least. */
  function Precision(digits: nat, spec: Spec): int {
    if digits > spec.precision then digits else spec.precision
  }

  /** The text number produces. */
  function Text(num: nat, spec: Spec): seq<char>
    requires num < 0x1_0000_0000_0000_0000 && ValidSpec(spec)
  {
    var digits := DigitText(Magnitude(num, spec), spec.base, spec.small);
    var precision := Precision(|digits|, spec);
    Assemble(Slack(num, spec, precision), spec.left, spec.zeropad, SignText(num, spec), PrefixText(num, spec),
             precision - |digits|, digits)
  }

  // ---------------------------------------------------------------- writing it

  /** The part of text that fits below end is in o, from start on. */
  ghost predicate Shown(o: seq<char>, start: nat, end: nat, text: seq<char>) {
    end <= |o| && forall k :: start <= k < end && k - start < |text| ==> o[k] == text[k - start]
  }

  /** Nothing outside [start, end) has changed. */
  ghost predicate KeptOutside(o: seq<char>, o': seq<char>, start: nat, end: nat) {
    |o| == |o'| && forall k :: 0 <= k < |o| && !(start <= k < end) ==> o'[k] == o[k]
  }

  /** Writes c if there is room, and counts it either way. */
  method Put(out: array<char>, pos: nat, end: nat, c: char, ghost start: nat, ghost text: seq<char>) returns (next: nat)
    requires pos == start + |text| && Shown(out[..], start, end, text)
    modifies out
    ensures next == start + |text + [c]| && Shown(out[..], start, end, text + [c]) &&
      KeptOutside(old(out[..]), out[..], start, end)
  {
    if pos < end {
      out[pos] := c;
    }
    next := pos + 1;
  }

  /** while (--width >= 0) put c. */
  method PutFill(out: array<char>, pos: nat, end: nat, c: char, width: int, ghost start: nat, ghost text: seq<char>)
    returns (next: nat, left: int)
    requires pos == start + |text| && Shown(out[..], start, end, text) && -0x8000 <= width < 0x8000
    modifies out
    ensures left == Left(width) && next == start + |text + Fill(c, Runs(width))|
    ensures Shown(out[..], start, end, text + Fill(c, Runs(width))) && KeptOutside(old(out[..]), out[..], start, end)
  {
    hide Shown, KeptOutside;
    ghost var e: nat := 0;
    next, left := pos, width;
    assert text + Fill(c, 0) == text;
    KeptRefl(out[..], start, end);
    while true
      invariant next == start + |text + Fill(c, e)| && Shown(out[..], start, end, text + Fill(c, e))
      invariant KeptOutside(old(out[..]), out[..], start, end)
      invariant Counting(width, left, e)
      decreases Runs(width) - e
    {
      CountStep(width, left, e);
      left := S16(left - 1);
      if left < 0 {
        break;
      }
      ghost var before := out[..];
      next := Put(out, next, end, c, start, text + Fill(c, e));
      FillMore(text, c, e);
      KeptTrans(old(out[..]), before, out[..], start, end);
      e := e + 1;
    }
  }

  /** After e rounds of the loop. */
  predicate Counting(width: int, left: int, e: nat) {
    if width >= 0 then left == width - e && left >= 0
    else if width == -0x8000 && e > 0 then left == 0x8000 - e && left >= 0
    else e == 0 && left == width
  }

  lemma CountStep(width: int, left: int, e: nat)
    requires Counting(width, left, e) && -0x8000 <= width < 0x8000
    ensures S16(left - 1) < 0 ==> e == Runs(width) && S16(left - 1) == Left(width)
    ensures S16(left - 1) >= 0 ==> e < Runs(width) && Counting(width, S16(left - 1), e + 1)
  {
  }

  lemma FillMore(text: seq<char>, c: char, e: nat)
    ensures text + Fill(c, e) + [c] == text + Fill(c, e + 1)
  {
  }

  lemma KeptRefl(o: seq<char>, start: nat, end: nat)
    ensures KeptOutside(o, o, start, end)
  {
  }

  lemma KeptTrans(o: seq<char>, o': seq<char>, o'': seq<char>, start: nat, end: nat)
    requires KeptOutside(o, o', start, end) && KeptOutside(o', o'', start, end)
    ensures KeptOutside(o, o'', start, end)
  {
  }

  lemma {:induction false} RevTextLength(n: nat, base: nat, small: bool, k: nat)
    requires 2 <= base <= 16 && k > 0 && n < Pow(2, k)
    ensures |RevText(n, base, small)| <= k
    decreases n
  {
    if n >= base && k > 1 {
      Smaller(n, base);
      HalfEnough(n, base, Pow(2, k - 1));
      RevTextLength(n / base, base, small, k - 1);
    }
  }

  lemma HalfEnough(n: nat, base: nat, p: nat)
    requires 2 <= base && n < 2 * p
    ensures n / base < p
  {
    var q := n / base;
    assert n == q * base + n % base;
    if q >= p {
      MulMonotone(base, p, q);
      MulMonotone(p, 2, base);
    }
  }

  lemma SixtyFourBits()
    ensures Pow(2, 64) == 0x1_0000_0000_0000_0000
  {
    Words.Pow2Of32();
    PowAdd(2, 32, 32);
  }

  lemma ByteMask(n: nat)
    ensures n % 256 % 8 == n % 8 && n % 256 % 16 == n % 16
  {
    var a, b := n / 256, n % 256;
    DivisionUnique(n, 8, 32 * a + b / 8, b % 8);
    DivisionUnique(n, 16, 16 * a + b / 16, b % 16);
  }

  /** The digits of num into tmp, lowest first. */
  method GenerateDigits(tmp: array<char>, num0: nat, base: nat, small: bool) returns (i: nat)
    requires tmp.Length == 66 && num0 < 0x1_0000_0000_0000_0000 && (base == 8 || base == 10 || base == 16)
    modifies tmp
    ensures i <= 64 && tmp[..i] == RevText(num0, base, small)
  {
    hide RevText, Pow;
    var num := num0;
    SixtyFourBits();
    RevTextLength(num0, base, small, 64);
    i := 0;
    if num < base {
      RevTextOne(num, base, small);
      tmp[i] := HexChr(num, small);
      i := i + 1;
    } else if base != 10 {
      assert tmp[..0] + RevText(num, base, small) == RevText(num, base, small);
      while true
        invariant i < 64 && 0 <= num < 0x1_0000_0000_0000_0000 &&
          tmp[..i] + RevText(num, base, small) == RevText(num0, base, small)
        decreases num
      {
        ByteMask(num);
        ghost var before := tmp[..i];
        ghost var d := HexChr(num % base, small);
        tmp[i] := HexChr(num % 256 % base, small);
        i := i + 1;
        assert tmp[..i] == before + [d];
        RevTextStep(num, base, small, before);
        num := if base == 16 then num / 16 else num / 8;
        if num == 0 {
          break;
        }
      }
    } else {
      i := PutDec(tmp, 0, num);
      DecimalText(num, small);
      assert tmp[0..i] == tmp[..i];
    }
  }

  lemma RevTextOne(n: nat, base: nat, small: bool)
    requires 2 <= base <= 16 && n < base
    ensures RevText(n, base, small) == [HexChr(n, small)]
  {
  }

  lemma RevTextMore(n: nat, base: nat, small: bool)
    requires 2 <= base <= 16 && n >= base
    ensures n / base >= 0 && RevText(n, base, small) == [HexChr(n % base, small)] + RevText(n / base, base, small)
  {
  }

  /** One digit moved from the number to the text. */
  lemma RevTextStep(n: nat, base: nat, small: bool, before: seq<char>)
    requires base == 8 || base == 16 || base == 10
    ensures n % base < 16
    ensures var d := HexChr(n % base, small);
      if n < base then before + RevText(n, base, small) == before + [d]
      else n / base > 0 && before + RevText(n, base, small) == (before + [d]) + RevText(n / base, base, small)
  {
    hide RevText;
    if n < base {
      DivisionUnique(n, base, 0, n);
      RevTextOne(n, base, small);
    } else {
      hide HexChr;
      Smaller(n, base);
      var d, r := HexChr(n % base, small), RevText(n / base, base, small);
      RevTextMore(n, base, small);
      assert before + ([d] + r) == (before + [d]) + r;
    }
  }

  /** Padding that is only there under a condition. */
  method PutFillIf(out: array<char>, pos: nat, end: nat, c: char, width: int, when: bool, ghost start: nat,
                   ghost text: seq<char>)
    returns (next: nat, left: int)
    requires pos == start + |text| && Shown(out[..], start, end, text) && -0x8000 <= width < 0x8000
    modifies out
    ensures left == if when then Left(width) else width
    ensures next == start + |text + Fill(c, if when then Runs(width) else 0)|
    ensures Shown(out[..], start, end, text + Fill(c, if when then Runs(width) else 0)) &&
      KeptOutside(old(out[..]), out[..], start, end)
  {
    hide Shown, KeptOutside;
    if when {
      next, left := PutFill(out, pos, end, c, width, start, text);
    } else {
      next, left := pos, width;
      KeptRefl(out[..], start, end);
      assert text + Fill(c, 0) == text;
    }
  }

  /** A constant piece of text, character by character. */
  method PutText(out: array<char>, pos: nat, end: nat, t: seq<char>, ghost start: nat, ghost text: seq<char>)
    returns (next: nat)
    requires pos == start + |text| && Shown(out[..], start, end, text)
    modifies out
    ensures next == start + |text + t| && Shown(out[..], start, end, text + t) &&
      KeptOutside(old(out[..]), out[..], start, end)
  {
    hide Shown, KeptOutside;
    next := pos;
    assert text + t[..0] == text;
    KeptRefl(out[..], start, end);
    for i := 0 to |t|
      invariant next == start + |text + t[..i]| && Shown(out[..], start, end, text + t[..i])
      invariant KeptOutside(old(out[..]), out[..], start, end)
    {
      ghost var before := out[..];
      next := Put(out, next, end, t[i], start, text + t[..i]);
      assert text + t[..i] + [t[i]] == text + t[..i + 1];
      KeptTrans(old(out[..]), before, out[..], start, end);
    }
    assert t[..|t|] == t;
  }

  lemma ReversedFrom(t: seq<char>, k: nat)
    requires 0 < k <= |t|
    ensures Reversed(t[k - 1..]) == Reversed(t[k..]) + [t[k - 1]]
  {
    assert t[k - 1..][1..] == t[k..];
  }

  /** The zeros of the precision and the digits of tmp from the last to the first. */
  method PutDigits(out: array<char>, pos: nat, end: nat, tmp: array<char>, count: nat, precision0: int,
                   ghost start: nat, ghost text: seq<char>)
    returns (next: nat)
    requires pos == start + |text| && Shown(out[..], start, end, text) && out != tmp
    requires count <= tmp.Length && count <= precision0 < 0x8000
    modifies out
    ensures next == start + |text + Fill('0', precision0 - count) + Reversed(tmp[..count])|
    ensures Shown(out[..], start, end, text + Fill('0', precision0 - count) + Reversed(tmp[..count]))
    ensures KeptOutside(old(out[..]), out[..], start, end)
  {
    hide Shown, KeptOutside;
    var precision, i := precision0, count;
    ghost var e: nat := 0;
    next := pos;
    assert text + Fill('0', 0) == text;
    KeptRefl(out[..], start, end);
    while true
      invariant count <= precision == precision0 - e
      invariant next == start + |text + Fill('0', e)| && Shown(out[..], start, end, text + Fill('0', e))
      invariant KeptOutside(old(out[..]), out[..], start, end)
      decreases precision
    {
      precision := precision - 1;
      if !(i <= precision) {
        break;
      }
      ghost var before := out[..];
      next := Put(out, next, end, '0', start, text + Fill('0', e));
      FillMore(text, '0', e);
      KeptTrans(old(out[..]), before, out[..], start, end);
      e := e + 1;
    }
    ghost var text1, t := text + Fill('0', precision0 - count), tmp[..count];
    assert t[count..] == [] && text1 + Reversed([]) == text1;
    while i > 0
      invariant 0 <= i <= count && t == tmp[..count]
      invariant next == start + |text1 + Reversed(t[i..])| && Shown(out[..], start, end, text1 + Reversed(t[i..]))
      invariant KeptOutside(old(out[..]), out[..], start, end)
    {
      ghost var before := out[..];
      ReversedFrom(t, i);
      i := i - 1;
      next := Put(out, next, end, tmp[i], start, text1 + Reversed(t[i + 1..]));
      assert text1 + Reversed(t[i + 1..]) + [t[i]] == text1 + Reversed(t[i..]);
      KeptTrans(old(out[..]), before, out[..], start, end);
    }
    assert t[0..] == t;
  }

  /** The pieces of the text in their order. */
  method Layout(out: array<char>, start: nat, end: nat, slack: int, left: bool, zeropad: bool, sign: seq<char>,
                prefix: seq<char>, tmp: array<char>, count: nat, precision: int)
    returns (pos: nat)
    requires end <= out.Length && -0x8000 <= slack < 0x8000 && out != tmp && count <= tmp.Length &&
      count <= precision < 0x8000
    modifies out
    ensures var text := Assemble(slack, left, zeropad, sign, prefix, precision - count, Reversed(old(tmp[..count])));
      pos == start + |text| && Shown(out[..], start, end, text)
    ensures KeptOutside(old(out[..]), out[..], start, end)
  {
    hide Shown, KeptOutside, Reversed, Fill, Runs;
    pos := start;
    ShownNothing(out[..], start, end);
    var width := slack;
    ghost var o0, none: seq<char> := out[..], [];
    var spaced := !left && !zeropad;
    ghost var t0 := none + Fill(' ', if spaced then Runs(width) else 0);
    pos, width := PutFillIf(out, pos, end, ' ', width, spaced, start, none);
    ghost var o1 := out[..];
    pos := PutText(out, pos, end, sign, start, t0);
    ghost var o2 := out[..];
    pos := PutText(out, pos, end, prefix, start, t0 + sign);
    ghost var o3 := out[..];
    var c := if zeropad && !left then '0' else ' ';
    ghost var t1 := t0 + sign + prefix + Fill(c, if !left then Runs(width) else 0);
    pos, width := PutFillIf(out, pos, end, c, width, !left, start, t0 + sign + prefix);
    ghost var o4 := out[..];
    pos := PutDigits(out, pos, end, tmp, count, precision, start, t1);
    ghost var o5 := out[..];
    ghost var t2 := t1 + Fill('0', precision - count) + Reversed(tmp[..count]);
    pos, width := PutFill(out, pos, end, ' ', width, start, t2);
    KeptAll(o0, o1, o2, o3, o4, o5, out[..], start, end);
    assert none + Fill(' ', if spaced then Runs(slack) else 0) == Fill(' ', if spaced then Runs(slack) else 0);
  }

  /** number: the text, cut off at end. */
  method Number(out: array<char>, start: nat, end: nat, num0: nat, spec: Spec) returns (pos: nat)
    requires end <= out.Length && num0 < 0x1_0000_0000_0000_0000 && ValidSpec(spec)
    modifies out
    ensures pos == start + |Text(num0, spec)| && Shown(out[..], start, end, Text(num0, spec))
    ensures KeptOutside(old(out[..]), out[..], start, end)
  {
    hide Shown, KeptOutside, DigitText, RevText, Reversed, Assemble, S16, SignText, PrefixText, Magnitude;
    var sign, prefix := SignText(num0, spec), PrefixText(num0, spec);
    var num := Magnitude(num0, spec);
    var width := S16(S16(spec.width - |sign|) - |prefix|);
    var tmp := new char[66];
    var i := GenerateDigits(tmp, num, spec.base, spec.small);
    DigitTextIsReversed(num, spec.base, spec.small);
    var precision := if i > spec.precision then i else spec.precision;
    width := S16(width - precision);
    pos := Layout(out, start, end, width, spec.left, spec.zeropad, sign, prefix, tmp, i, precision);
  }

  lemma ShownNothing(o: seq<char>, start: nat, end: nat)
    requires end <= |o|
    ensures Shown(o, start, end, [])
  {
  }

  lemma KeptAll(o0: seq<char>, o1: seq<char>, o2: seq<char>, o3: seq<char>, o4: seq<char>, o5: seq<char>, o6: seq<char>,
                start: nat, end: nat)
    requires KeptOutside(o0, o1, start, end) && KeptOutside(o1, o2, start, end) && KeptOutside(o2, o3, start, end)
    requires KeptOutside(o3, o4, start, end) && KeptOutside(o4, o5, start, end) && KeptOutside(o5, o6, start, end)
    ensures KeptOutside(o0, o6, start, end)
  {
  }

  // ---------------------------------------------------------------- what the text looks like

  /** The parser finds the base the prefix stands for. */
  lemma PrefixSeen(n: nat, spec: Spec, t: seq<char>)
    requires spec.special && spec.base in {8, 10, 16} && t != [] && IsDigitOf(t[0], spec.base)
    requires n == 0 ==> spec.base == 16
    requires spec.base == 10 ==> t[0] != '0'
    requires spec.base == 8 ==> !IsX(t[0])
    ensures Prefix(PrefixText(n, spec) + t, 0) == (|PrefixText(n, spec)|, spec.base)
  {
    var p := PrefixText(n, spec);
    assert (p + t)[|p|] == t[0];
  }

  /** With the prefix the SPECIAL flag asks for, the base need not be known: read in base 0 the number comes back. */
  lemma PrefixedRoundTrip(n: nat, spec: Spec, result: nat, endp: nat)
    requires n < 0x1_0000_0000_0000_0000 && ValidSpec(spec) && spec.special
    requires ReadAs(PrefixText(n, spec) + DigitText(n, spec.base, spec.small), 0, result, endp)
    ensures result == n && endp == |PrefixText(n, spec) + DigitText(n, spec.base, spec.small)|
  {
    hide Horner, AllDigits, DigitText;
    var p, t := PrefixText(n, spec), DigitText(n, spec.base, spec.small);
    var s := p + t;
    FirstDigit(n, spec.base, spec.small);
    HornerOfDigits(n, spec.base, spec.small);
    FirstIsDigit(t, spec.base);
    SmallRemainder(n);
    if n == 0 && spec.base != 16 {
      assert s == ['0'];
      assert endp == 1;
      NoDigits(s, 1, 8);
    } else {
      PrefixSeen(n, spec, t);
      assert s[|p|..|s|] == t;
      assert DigitsUpTo(s, |p|, |s|, spec.base);
      DigitsEnd(s, |p|, |s|, endp, spec.base);
    }
  }

  /** Told the base, the prefix does no harm either. */
  lemma PrefixedOwnBase(n: nat, spec: Spec, result: nat, endp: nat)
    requires n < 0x1_0000_0000_0000_0000 && ValidSpec(spec) && spec.special
    requires ReadAs(PrefixText(n, spec) + DigitText(n, spec.base, spec.small), spec.base, result, endp)
    ensures result == n && endp == |PrefixText(n, spec) + DigitText(n, spec.base, spec.small)|
  {
    hide Horner, AllDigits, DigitText;
    var p, t := PrefixText(n, spec), DigitText(n, spec.base, spec.small);
    var s := p + t;
    HornerOfDigits(n, spec.base, spec.small);
    SmallRemainder(n);
    FirstDigit(n, spec.base, spec.small);
    if spec.base == 16 {
      assert s[2..|s|] == t;
      DigitsEnd(s, 2, |s|, endp, 16);
    } else {
      assert s[0..|s|] == s;
      ZeroInFront(p, t, spec.base);
      DigitsEnd(s, 0, |s|, endp, spec.base);
    }
  }

  lemma ZeroInFront(p: seq<char>, t: seq<char>, base: nat)
    requires (p == [] || p == ['0']) && AllDigits(t, base) && base >= 8
    ensures AllDigits(p + t, base) && Horner(p + t, base) == Horner(t, base)
  {
    if p == [] {
      assert p + t == t;
    } else {
      LeadingZero(t, base);
    }
  }

  lemma {:induction false} LeadingZero(t: seq<char>, base: nat)
    requires AllDigits(t, base) && base >= 8
    ensures AllDigits(['0'] + t, base) && Horner(['0'] + t, base) == Horner(t, base)
  {
    var s := ['0'] + t;
    if t == [] {
      assert s[..0] == [];
      assert Horner(s, base) == 0 * base + XValue('0');
    } else {
      LeadingZero(t[..|t| - 1], base);
      assert s[..|s| - 1] == ['0'] + t[..|t| - 1];
    }
  }

  lemma FirstIsDigit(t: seq<char>, base: nat)
    requires t != [] && AllDigits(t, base)
    ensures IsDigitOf(t[0], base)
  {
  }

  lemma DigitCount(n: nat, base: nat, small: bool)
    requires n < 0x1_0000_0000_0000_0000 && 2 <= base <= 16
    ensures |DigitText(n, base, small)| <= 64
  {
    hide DigitText, RevText;
    DigitTextIsReversed(n, base, small);
    SixtyFourBits();
    RevTextLength(n, base, small, 64);
  }

  lemma PieceLengths(num: nat, spec: Spec)
    ensures |SignText(num, spec)| <= 1 && |PrefixText(num, spec)| <= 2
  {
  }

  /** How many of the padding loops decrement the width. */
  function Margin(left: bool, zeropad: bool): nat {
    if left then 1 else if zeropad then 2 else 3
  }

  /** All padding together: the slack, nothing below zero, but 0x8000 when a decrement wraps. */
  function Padding(slack: int, left: bool, zeropad: bool): nat {
    if slack > 0 then slack else if slack >= -0x8000 + Margin(left, zeropad) then 0 else 0x8000
  }

  lemma AssembleLength(slack: int, left: bool, zeropad: bool, sign: seq<char>, prefix: seq<char>, zeros: nat,
                       digits: seq<char>)
    requires -0x8000 <= slack < 0x8000
    ensures |Assemble(slack, left, zeropad, sign, prefix, zeros, digits)| ==
      Padding(slack, left, zeropad) + |sign| + |prefix| + zeros + |digits|
    ensures Padding(slack, left, zeropad) == 0 && zeros == 0 ==>
      Assemble(slack, left, zeropad, sign, prefix, zeros, digits) == sign + prefix + digits
    ensures forall c :: c in sign ==> c in Assemble(slack, left, zeropad, sign, prefix, zeros, digits)
  {
  }

  /** Only the total matters: the 16-bit subtractions may wrap in between. */
  lemma SlackIs(num: nat, spec: Spec, precision: int)
    ensures Slack(num, spec, precision) == S16(spec.width - |SignText(num, spec)| - |PrefixText(num, spec)| - precision)
  {
    hide SignText, PrefixText, S16;
    var s, p := |SignText(num, spec)|, |PrefixText(num, spec)|;
    S16Less(spec.width - s, p);
    S16Less(spec.width - s - p, precision);
  }

  lemma S16Less(x: int, y: int)
    ensures S16(S16(x) - y) == S16(x - y)
  {
    var k := (x + 0x8000) / 0x1_0000;
    assert S16(x) == x - 0x1_0000 * k;
    assert (x - 0x1_0000 * k - y + 0x8000) % 0x1_0000 == (x - y + 0x8000) % 0x1_0000;
  }

  /** The bytes the number needs without padding. */
  function Needed(num: nat, spec: Spec): int
    requires num < 0x1_0000_0000_0000_0000 && ValidSpec(spec)
  {
    |SignText(num, spec)| + |PrefixText(num, spec)| +
    Precision(|DigitText(Magnitude(num, spec), spec.base, spec.small)|, spec)
  }

  lemma TextLength(num: nat, spec: Spec)
    requires num < 0x1_0000_0000_0000_0000 && ValidSpec(spec)
    ensures |Text(num, spec)| ==
            Padding(S16(spec.width - Needed(num, spec)), spec.left, spec.zeropad) + Needed(num, spec)
  {
    hide DigitText, Assemble, SignText, PrefixText, S16, Padding;
    var digits := DigitText(Magnitude(num, spec), spec.base, spec.small);
    var precision := Precision(|digits|, spec);
    SlackIs(num, spec, precision);
    AssembleLength(Slack(num, spec, precision), spec.left, spec.zeropad, SignText(num, spec), PrefixText(num, spec),
      precision - |digits|, digits);
  }

  /** The text is as long as the wider of field and content, except exactly where a 16-bit width wraps. */
  lemma TextWidth(num: nat, spec: Spec)
    requires num < 0x1_0000_0000_0000_0000 && ValidSpec(spec)
    ensures |Text(num, spec)| == (if spec.width > Needed(num, spec) then spec.width else Needed(num, spec))
       <==> !(-0x1_0000 < spec.width - Needed(num, spec) < -0x8000 + Margin(spec.left, spec.zeropad))
  {
    hide DigitText, SignText, PrefixText, Text;
    TextLength(num, spec);
    PieceLengths(num, spec);
    DigitCount(Magnitude(num, spec), spec.base, spec.small);
  }

  /** The wrapping case arises: the largest precision in a field without width doubles the text. */
  lemma WidthWraps()
    ensures var spec := Spec(false, true, false, false, false, false, false, 10, -1, 0x7fff);
      ValidSpec(spec) && Needed(7, spec) == 0x7fff && |Text(7, spec)| == 0xffff
  {
    hide Text;
    var spec := Spec(false, true, false, false, false, false, false, 10, -1, 0x7fff);
    assert |DigitText(7, 10, false)| == 1;
    TextLength(7, spec);
  }

  /** No padding of any kind: neither precision nor width ask for more than the number needs. */
  ghost predicate Unpadded(num: nat, spec: Spec)
    requires num < 0x1_0000_0000_0000_0000 && ValidSpec(spec)
  {
    var n := |DigitText(Magnitude(num, spec), spec.base, spec.small)|;
    spec.precision <= n &&
    -0x8000 + Margin(spec.left, spec.zeropad) <= spec.width - |SignText(num, spec)| - |PrefixText(num, spec)| - n <= 0
  }

  /** Exactly then the text is sign, prefix and digits. */
  lemma UnpaddedText(num: nat, spec: Spec)
    requires num < 0x1_0000_0000_0000_0000 && ValidSpec(spec)
    ensures Text(num, spec) ==
            SignText(num, spec) + PrefixText(num, spec) + DigitText(Magnitude(num, spec), spec.base, spec.small)
       <==> Unpadded(num, spec)
  {
    hide DigitText, Assemble, SignText, PrefixText;
    var digits := DigitText(Magnitude(num, spec), spec.base, spec.small);
    var precision := Precision(|digits|, spec);
    PieceLengths(num, spec);
    DigitCount(Magnitude(num, spec), spec.base, spec.small);
    SlackIs(num, spec, precision);
    AssembleLength(Slack(num, spec, precision), spec.left, spec.zeropad, SignText(num, spec), PrefixText(num, spec),
      precision - |digits|, digits);
  }

  /** A plain conversion: the digits and nothing else. */
  ghost predicate Plain(num: nat, spec: Spec)
    requires num < 0x1_0000_0000_0000_0000 && ValidSpec(spec)
  {
    SignText(num, spec) == [] && PrefixText(num, spec) == [] && Unpadded(num, spec)
  }

  lemma PlainText(num: nat, spec: Spec)
    requires num < 0x1_0000_0000_0000_0000 && ValidSpec(spec)
    ensures Text(num, spec) == DigitText(num, spec.base, spec.small) <==> Plain(num, spec)
  {
    hide DigitText, Text, PrefixText, Unpadded;
    UnpaddedText(num, spec);
    if num >= 0x8000_0000_0000_0000 && spec.sign {
      MinusShows(num, spec);
    } else {
      TextLength(num, spec);
    }
    var digits := DigitText(num, spec.base, spec.small);
    assert [] + [] + digits == digits;
  }

  /** A minus sign is no digit. */
  lemma MinusShows(num: nat, spec: Spec)
    requires num < 0x1_0000_0000_0000_0000 && ValidSpec(spec) && SignText(num, spec) == ['-']
    ensures Text(num, spec) != DigitText(num, spec.base, spec.small)
  {
    hide DigitText, Assemble, SignText, PrefixText, S16, Padding;
    var digits := DigitText(Magnitude(num, spec), spec.base, spec.small);
    var precision := Precision(|digits|, spec);
    AssembleLength(Slack(num, spec, precision), spec.left, spec.zeropad, SignText(num, spec), PrefixText(num, spec),
      precision - |digits|, digits);
    assert '-' in SignText(num, spec);
    HornerOfDigits(num, spec.base, spec.small);
    assert !IsDigitOf('-', spec.base);
  }

  // ---------------------------------------------------------------- print and read

  /** What number prints plainly, simple_strtoull reads back. */
  lemma PrintThenRead(num: nat, spec: Spec, result: nat, endp: nat)
    requires num < 0x1_0000_0000_0000_0000 && ValidSpec(spec) && Plain(num, spec)
    requires ReadAs(Text(num, spec), spec.base, result, endp)
    ensures result == num && endp == |Text(num, spec)|
  {
    hide DigitText, Text, ReadAs, Plain;
    PlainText(num, spec);
    assert DigitText(num, spec.base, spec.small) + [] == Text(num, spec);
    RoundTrip(num, spec.base, spec.small, [], result, endp);
  }

  /** What number prints with its prefix, simple_strtoull reads back without being told the base. */
  lemma PrintThenReadAny(num: nat, spec: Spec, result: nat, endp: nat)
    requires num < 0x1_0000_0000_0000_0000 && ValidSpec(spec) && Unpadded(num, spec) && SignText(num, spec) == [] &&
      spec.special
    requires ReadAs(Text(num, spec), 0, result, endp)
    ensures result == num && endp == |Text(num, spec)|
  {
    hide DigitText, Text, ReadAs, Unpadded, PrefixText;
    UnpaddedText(num, spec);
    assert [] + PrefixText(num, spec) == PrefixText(num, spec);
    PrefixedRoundTrip(num, spec, result, endp);
  }

  /** number in base 8, 10 or 16 without padding, then simple_strtoull: the number comes back. */
  method PrintAndRead(num: nat, spec: Spec) returns (text: seq<char>, result: nat, endp: nat)
    requires num < 0x1_0000_0000_0000_0000 && ValidSpec(spec) && Plain(num, spec)
    ensures text == Text(num, spec) && ReadAs(text, spec.base, result, endp)
    ensures result == num && endp == |text|
  {
    hide DigitText, Text, Shown, ReadAs, Plain;
    PlainText(num, spec);
    DigitCount(num, spec.base, spec.small);
    var out := new char[64];
    var pos := Number(out, 0, 64, num, spec);
    ShownAll(out[..], pos, Text(num, spec));
    text := out[..pos];
    result, endp := StrToULL(text, spec.base);
    PrintThenRead(num, spec, result, endp);
  }

  lemma ShownAll(o: seq<char>, pos: nat, text: seq<char>)
    requires pos == |text| <= |o| && Shown(o, 0, |o|, text)
    ensures o[..pos] == text
  {
  }

  // ---------------------------------------------------------------- signed numbers

  /** The value of a 64-bit word read as a signed number. */
  function Signed(num: nat): int {
    if num >= 0x8000_0000_0000_0000 then num - 0x1_0000_0000_0000_0000 else num
  }

  /** Minus u in 64-bit arithmetic. */
  function Negated(u: int): nat {
    (0 - u) % 0x1_0000_0000_0000_0000
  }

  /** The unsigned number after an optional minus sign, negated in 64 bits if there is one. */
  ghost predicate ReadAsSigned(s: seq<char>, base: nat, result: int, endp: nat) {
    if At(s, 0) == '-' then
      exists u: nat, e: nat :: ReadAs(s[1..], base, u, e) && endp == 1 + e && result == Signed(Negated(u))
    else exists u: nat :: ReadAs(s, base, u, endp) && result == Signed(u)
  }

  /** simple_strtoll. */
  method StrToLL(s: seq<char>, base: nat) returns (result: int, endp: nat)
    ensures ReadAsSigned(s, base, result, endp)
  {
    hide ReadAs;
    if At(s, 0) == '-' {
      var u, e := StrToULL(s[1..], base);
      result, endp := Signed(Negated(u)), 1 + e;
    } else {
      var u, e := StrToULL(s, base);
      result, endp := Signed(u), e;
    }
  }

  /** A signed conversion with nothing but a minus sign in front of the digits. */
  ghost predicate PlainSigned(num: nat, spec: Spec)
    requires num < 0x1_0000_0000_0000_0000 && ValidSpec(spec)
  {
    spec.sign && !spec.plus && !spec.space && PrefixText(num, spec) == [] && Unpadded(num, spec)
  }

  /** What number prints with the SIGN flag, simple_strtoll reads back, the most negative number included. */
  lemma PrintThenReadSigned(num: nat, spec: Spec, result: int, endp: nat)
    requires num < 0x1_0000_0000_0000_0000 && ValidSpec(spec) && PlainSigned(num, spec)
    requires ReadAsSigned(Text(num, spec), spec.base, result, endp)
    ensures result == Signed(num) && endp == |Text(num, spec)|
  {
    hide DigitText, Text, ReadAs, Unpadded, PrefixText;
    UnpaddedText(num, spec);
    var m, s := Magnitude(num, spec), Text(num, spec);
    var t := DigitText(m, spec.base, spec.small);
    assert t + [] == t;
    DigitIsNoSign(m, spec.base, spec.small);
    if num >= 0x8000_0000_0000_0000 {
      assert s == ['-'] + t && s[1..] == t;
      var u: nat, e: nat :| ReadAs(s[1..], spec.base, u, e) && endp == 1 + e && result == Signed(Negated(u));
      RoundTrip(m, spec.base, spec.small, [], u, e);
      NegatedBack(num);
    } else {
      assert s == t;
      var u: nat :| ReadAs(s, spec.base, u, endp) && result == Signed(u);
      RoundTrip(m, spec.base, spec.small, [], u, endp);
    }
  }

  method PrintAndReadSigned(num: nat, spec: Spec) returns (text: seq<char>, result: int, endp: nat)
    requires num < 0x1_0000_0000_0000_0000 && ValidSpec(spec) && PlainSigned(num, spec)
    ensures text == Text(num, spec) && ReadAsSigned(text, spec.base, result, endp)
    ensures result == Signed(num) && endp == |text|
  {
    hide DigitText, Text, Shown, ReadAsSigned, Unpadded, PrefixText;
    UnpaddedText(num, spec);
    PieceLengths(num, spec);
    DigitCount(Magnitude(num, spec), spec.base, spec.small);
    var out := new char[65];
    var pos := Number(out, 0, 65, num, spec);
    ShownAll(out[..], pos, Text(num, spec));
    text := out[..pos];
    result, endp := StrToLL(text, spec.base);
    PrintThenReadSigned(num, spec, result, endp);
  }

  lemma NegatedBack(num: nat)
    requires 0 < num < 0x1_0000_0000_0000_0000
    ensures Negated(0x1_0000_0000_0000_0000 - num) == num
  {
    DivisionUnique(num - 0x1_0000_0000_0000_0000, 0x1_0000_0000_0000_0000, -1, num);
  }

  lemma DigitIsNoSign(n: nat, base: nat, small: bool)
    requires 2 <= base <= 16
    ensures DigitText(n, base, small)[0] != '-'
  {
    HornerOfDigits(n, base, small);
    FirstIsDigit(DigitText(n, base, small), base);
  }
}
