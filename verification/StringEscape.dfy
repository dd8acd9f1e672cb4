/**
 Escaping and unescaping of byte strings in so3/lib/string_helpers.c.
 */
module StringEscape {
  import opened Queues

  type Byte = b: int | 0 <= b < 256

  const BACKSLASH: Byte := 0x5c

  datatype UnescapeFlags = UnescapeFlags(space: bool, octal: bool, hex: bool, special: bool)
  datatype EscapeFlags = EscapeFlags(space: bool, special: bool, nul: bool, octal: bool, np: bool, hex: bool)

  /** The byte an escape sequence stands for, and the length of the sequence after its backslash. */
  datatype Unescaped = Unescaped(c: Byte, len: nat)

  /** Byte i of a null-terminated string. */
  function At(s: seq<Byte>, i: nat): Byte {
    if i < |s| then s[i] else 0
  }

  predicate IsOctal(c: Byte) {
    0x30 <= c <= 0x37
  }

  /** hex_to_bin. */
  function HexToBin(c: Byte): int {
    if 0x30 <= c <= 0x39 then c - 0x30
    else if 0x41 <= c <= 0x46 then c - 0x41 + 10
    else if 0x61 <= c <= 0x66 then c - 0x61 + 10
    else -1
  }

  // ---------------------------------------------------------------- unescaping, on values

  function UnescapeSpace(q: seq<Byte>): Option<Unescaped> {
    match At(q, 0)
    case 0x6e => Some(Unescaped(0x0a, 1))
    case 0x72 => Some(Unescaped(0x0d, 1))
    case 0x74 => Some(Unescaped(0x09, 1))
    case 0x76 => Some(Unescaped(0x0b, 1))
    case 0x66 => Some(Unescaped(0x0c, 1))
    case _ => None
  }

  /** Up to three octal digits, as long as the value fits a byte. */
  function UnescapeOctal(q: seq<Byte>): Option<Unescaped> {
    if !IsOctal(At(q, 0)) then None
    else
      var a := At(q, 0) % 8;
      if !IsOctal(At(q, 1)) then Some(Unescaped(a, 1))
      else
        var b := a * 8 + At(q, 1) % 8;
        if b >= 32 || !IsOctal(At(q, 2)) then Some(Unescaped(b, 2))
        else Some(Unescaped(b * 8 + At(q, 2) % 8, 3))
  }

  function UnescapeHex(q: seq<Byte>): Option<Unescaped> {
    if At(q, 0) != 0x78 || HexToBin(At(q, 1)) < 0 then None
    else if HexToBin(At(q, 2)) < 0 then Some(Unescaped(HexToBin(At(q, 1)), 2))
    else Some(Unescaped(HexToBin(At(q, 1)) * 16 + HexToBin(At(q, 2)), 3))
  }

  function UnescapeSpecial(q: seq<Byte>): Option<Unescaped> {
    match At(q, 0)
    case 0x22 => Some(Unescaped(0x22, 1))
    case 0x5c => Some(Unescaped(0x5c, 1))
    case 0x61 => Some(Unescaped(0x07, 1))
    case 0x65 => Some(Unescaped(0x1b, 1))
    case _ => None
  }

  /** What follows a backslash, tried class by class. */
  function UnescapeOne(q: seq<Byte>, f: UnescapeFlags): Option<Unescaped> {
    if f.space && UnescapeSpace(q).Some? then UnescapeSpace(q)
    else if f.octal && UnescapeOctal(q).Some? then UnescapeOctal(q)
    else if f.hex && UnescapeHex(q).Some? then UnescapeHex(q)
    else if f.special then UnescapeSpecial(q)
    else None
  }

  lemma UnescapeOneLength(q: seq<Byte>, f: UnescapeFlags)
    requires forall i :: 0 <= i < |q| ==> q[i] != 0
    ensures UnescapeOne(q, f).Some? ==> 1 <= UnescapeOne(q, f).value.len <= |q|
  {
  }

  /** --size on an unsigned word: 0 becomes the largest value. */
  function Dec(size: nat): nat {
    if size == 0 then 0xffff_ffff_ffff_ffff else size - 1
  }

  ghost predicate NoNul(s: seq<Byte>) {
    forall i :: 0 <= i < |s| ==> s[i] != 0
  }

  /** The unescaped form of a string without nulls, with the budget size. */
  function Unescape(s: seq<Byte>, size: nat, f: UnescapeFlags): seq<Byte>
    requires NoNul(s)
    decreases |s|
  {
    if s == [] || Dec(size) == 0 then []
    else if s[0] == BACKSLASH && |s| > 1 && Dec(size) > 1 then
      UnescapeOneLength(s[1..], f);
      match UnescapeOne(s[1..], f)
      case Some(u) => [u.c] + Unescape(s[1 + u.len..], Dec(size) - 1, f)
      case None => [BACKSLASH, s[1]] + Unescape(s[2..], Dec(size) - 1, f)
    else [s[0]] + Unescape(s[1..], Dec(size), f)
  }

  /** The output is never longer than the input: unescaping can be done in place. */
  lemma {:induction false} UnescapeShorter(s: seq<Byte>, size: nat, f: UnescapeFlags)
    requires NoNul(s)
    ensures |Unescape(s, size, f)| <= |s|
    decreases |s|
  {
    if s != [] && Dec(size) != 0 {
      if s[0] == BACKSLASH && |s| > 1 && Dec(size) > 1 {
        UnescapeOneLength(s[1..], f);
        match UnescapeOne(s[1..], f)
        case Some(u) => UnescapeShorter(s[1 + u.len..], Dec(size) - 1, f);
        case None => UnescapeShorter(s[2..], Dec(size) - 1, f);
      } else {
        UnescapeShorter(s[1..], Dec(size), f);
      }
    }
  }

  // ---------------------------------------------------------------- escaping, on values

  /** isprint, by the kernel's table: it includes the upper half of Latin-1. */
  predicate IsPrint(c: Byte) {
    0x20 <= c <= 0x7e || 0xa0 <= c
  }

  function SpaceLetter(c: Byte): Option<Byte> {
    match c
    case 0x0a => Some(0x6e)
    case 0x0d => Some(0x72)
    case 0x09 => Some(0x74)
    case 0x0b => Some(0x76)
    case 0x0c => Some(0x66)
    case _ => None
  }

  function SpecialLetter(c: Byte): Option<Byte> {
    match c
    case 0x5c => Some(0x5c)
    case 0x07 => Some(0x61)
    case 0x1b => Some(0x65)
    case _ => None
  }

  function OctalEscape(c: Byte): seq<Byte> {
    [BACKSLASH, 0x30 + c / 64 % 8, 0x30 + c / 8 % 8, 0x30 + c % 8]
  }

  function HexDigit(d: int): Byte
    requires 0 <= d < 16
  {
    if d < 10 then 0x30 + d else 0x61 + d - 10
  }

  function HexEscape(c: Byte): seq<Byte> {
    [BACKSLASH, 0x78, HexDigit(c / 16), HexDigit(c % 16)]
  }

  /** Whether c goes to the output as it is, before any class is tried. */
  predicate Spared(c: Byte, f: EscapeFlags, esc: seq<Byte>) {
    (f.np && IsPrint(c)) || (esc != [] && !(c == 0 || c in esc))
  }

  /** The escaped form of one byte. */
  function EscapeOne(c: Byte, f: EscapeFlags, esc: seq<Byte>): (r: seq<Byte>)
    ensures 1 <= |r| <= 4
  {
    if Spared(c, f, esc) then [c]
    else if f.space && SpaceLetter(c).Some? then [BACKSLASH, SpaceLetter(c).value]
    else if f.special && SpecialLetter(c).Some? then [BACKSLASH, SpecialLetter(c).value]
    else if f.nul && c == 0 then [BACKSLASH, 0x30]
    else if f.octal then OctalEscape(c)
    else if f.hex then HexEscape(c)
    else [c]
  }

  /** The room the classes tried on c ask for: two bytes even if the class then does not apply. */
  function Room(c: Byte, f: EscapeFlags, esc: seq<Byte>): (r: nat)
    ensures |EscapeOne(c, f, esc)| <= r <= 4
  {
    if Spared(c, f, esc) then 1
    else if f.space && SpaceLetter(c).Some? then 2
    else if f.special && SpecialLetter(c).Some? then 2
    else if f.nul && c == 0 then 2
    else if f.octal || f.hex then 4
    else if f.space || f.special || f.nul then 2
    else 1
  }

  function Escape(s: seq<Byte>, f: EscapeFlags, esc: seq<Byte>): seq<Byte> {
    if s == [] then [] else Escape(s[..|s| - 1], f, esc) + EscapeOne(s[|s| - 1], f, esc)
  }

  lemma EscapeSnoc(s: seq<Byte>, k: nat, f: EscapeFlags, esc: seq<Byte>)
    requires k < |s|
    ensures Escape(s[..k + 1], f, esc) == Escape(s[..k], f, esc) + EscapeOne(s[k], f, esc)
  {
    assert s[..k + 1][..k] == s[..k];
  }

  // ---------------------------------------------------------------- there and back

  const ANY: UnescapeFlags := UnescapeFlags(true, true, true, true)

  /** Flags that leave no byte as it is. */
  predicate Complete(f: EscapeFlags) {
    (f.octal || f.hex) && !f.np
  }

  lemma {:induction false} EscapeCons(c: Byte, s: seq<Byte>, f: EscapeFlags, esc: seq<Byte>)
    ensures Escape([c] + s, f, esc) == EscapeOne(c, f, esc) + Escape(s, f, esc)
    decreases |s|
  {
    hide EscapeOne;
    var t := [c] + s;
    if s == [] {
      assert t[..0] == [];
    } else {
      assert t[..|s|] == [c] + s[..|s| - 1];
      EscapeCons(c, s[..|s| - 1], f, esc);
    }
  }

  lemma OctalBack(c: Byte, rest: seq<Byte>)
    ensures NoNul(OctalEscape(c)) && UnescapeOne(OctalEscape(c)[1..] + rest, ANY) == Some(Unescaped(c, 3))
  {
    var q := OctalEscape(c)[1..] + rest;
    assert q[0] == 0x30 + c / 64 % 8 && q[1] == 0x30 + c / 8 % 8 && q[2] == 0x30 + c % 8;
    OctalDigits(c);
  }

  lemma HexBack(c: Byte, rest: seq<Byte>)
    ensures NoNul(HexEscape(c)) && UnescapeOne(HexEscape(c)[1..] + rest, ANY) == Some(Unescaped(c, 3))
  {
    var q := HexEscape(c)[1..] + rest;
    assert q[0] == 0x78 && q[1] == HexDigit(c / 16) && q[2] == HexDigit(c % 16);
  }

  /**
   No byte comes out as a bare backslash or null, and no bare octal digit can follow the short escape of null.
   Only three kinds of bytes have to be looked at, with the flags and the dictionary of the call.
   */
  predicate Safe(f: EscapeFlags, esc: seq<Byte>) {
    EscapeOne(BACKSLASH, f, esc) != [BACKSLASH] && EscapeOne(0, f, esc) != [0] &&
    (EscapeOne(0, f, esc) == SHORT_NUL ==> forall d: Byte :: IsOctal(d) ==> EscapeOne(d, f, esc) != [d])
  }

  const SHORT_NUL: seq<Byte> := [BACKSLASH, 0x30]

  /** A byte comes out as it is, or as a sequence that starts with a backslash. */
  lemma OneShape(c: Byte, f: EscapeFlags, esc: seq<Byte>)
    requires Safe(f, esc)
    ensures var e := EscapeOne(c, f, esc);
      NoNul(e) && if |e| == 1 then e == [c] && c != BACKSLASH else e[0] == BACKSLASH
  {
    if |EscapeOne(c, f, esc)| == 4 {
      OctalBack(c, []);
      HexBack(c, []);
    }
  }

  /** Two-character escapes; that of null is the one that could swallow a following digit. */
  lemma LetterBack(c: Byte, f: EscapeFlags, esc: seq<Byte>, rest: seq<Byte>)
    requires |EscapeOne(c, f, esc)| == 2
    requires EscapeOne(c, f, esc) == SHORT_NUL ==> !IsOctal(At(rest, 0))
    ensures UnescapeOne(EscapeOne(c, f, esc)[1..] + rest, ANY) == Some(Unescaped(c, 1))
  {
    var e := EscapeOne(c, f, esc);
    var q := e[1..] + rest;
    assert q[0] == e[1] && At(q, 1) == At(rest, 0);
  }

  /** The escape of one byte, read back whatever follows it. */
  lemma OneBack(c: Byte, f: EscapeFlags, esc: seq<Byte>, rest: seq<Byte>)
    requires |EscapeOne(c, f, esc)| > 1
    requires EscapeOne(c, f, esc) == SHORT_NUL ==> !IsOctal(At(rest, 0))
    ensures var e := EscapeOne(c, f, esc); UnescapeOne(e[1..] + rest, ANY) == Some(Unescaped(c, |e| - 1))
  {
    hide UnescapeOne, NoNul;
    if |EscapeOne(c, f, esc)| == 2 {
      LetterBack(c, f, esc, rest);
    } else if f.octal {
      OctalBack(c, rest);
    } else {
      HexBack(c, rest);
    }
  }

  lemma OctalDigits(c: Byte)
    ensures var a, b, d := c / 64 % 8, c / 8 % 8, c % 8;
      (0x30 + a) % 8 == a <= 3 && (0x30 + b) % 8 == b && (0x30 + d) % 8 == d && (a * 8 + b) * 8 + d == c
  {
    assert c / 8 / 8 == c / 64;
  }

  /** What a size argument allows; 0 stands for no limit. */
  function Budget(size: nat): nat {
    if size == 0 then 0x1_0000_0000_0000_0000 else size
  }

  lemma {:induction false} EscapeNoNul(s: seq<Byte>, f: EscapeFlags, esc: seq<Byte>)
    requires Safe(f, esc)
    ensures NoNul(Escape(s, f, esc))
  {
    hide EscapeOne, Safe;
    if s != [] {
      EscapeNoNul(s[..|s| - 1], f, esc);
      OneShape(s[|s| - 1], f, esc);
    }
  }

  /** What may follow the short escape of null. */
  lemma EscapeStart(s: seq<Byte>, f: EscapeFlags, esc: seq<Byte>)
    requires Safe(f, esc) && EscapeOne(0, f, esc) == SHORT_NUL
    ensures !IsOctal(At(Escape(s, f, esc), 0))
  {
    hide Escape;
    if s == [] {
      EscapeNone(f, esc);
    } else {
      assert s == [s[0]] + s[1..];
      EscapeCons(s[0], s[1..], f, esc);
      OneShape(s[0], f, esc);
    }
  }

  /** One escape sequence off the front. */
  lemma UnescapeStep(e: seq<Byte>, rest: seq<Byte>, c: Byte, size: nat)
    requires |e| >= 2 && e[0] == BACKSLASH && NoNul(e) && NoNul(rest) && Dec(size) > 1
    requires UnescapeOne(e[1..] + rest, ANY) == Some(Unescaped(c, |e| - 1))
    ensures NoNul(e + rest) && Unescape(e + rest, size, ANY) == [c] + Unescape(rest, Dec(size) - 1, ANY)
  {
    hide UnescapeOne;
    assert (e + rest)[1..] == e[1..] + rest && (e + rest)[|e|..] == rest;
  }

  lemma PlainStep(c: Byte, rest: seq<Byte>, size: nat)
    requires c != BACKSLASH && c != 0 && NoNul(rest) && Dec(size) > 0
    ensures NoNul([c] + rest) && Unescape([c] + rest, size, ANY) == [c] + Unescape(rest, Dec(size), ANY)
  {
    assert ([c] + rest)[1..] == rest;
  }

  /** Escaping with safe flags and unescaping everything gives the bytes back. */
  lemma {:induction false} RoundTrip(s: seq<Byte>, f: EscapeFlags, esc: seq<Byte>, size: nat)
    requires Safe(f, esc) && Budget(size) > |Escape(s, f, esc)|
    ensures NoNul(Escape(s, f, esc)) && Unescape(Escape(s, f, esc), size, ANY) == s
    decreases |s|
  {
    hide EscapeOne, UnescapeOne, Escape, Unescape, NoNul, Safe, IsOctal;
    EscapeNoNul(s, f, esc);
    if s == [] {
      EscapeNone(f, esc);
      UnescapeNothing(size);
    } else {
      var c, t := s[0], s[1..];
      var e, rest := EscapeOne(c, f, esc), Escape(t, f, esc);
      assert s == [c] + t;
      EscapeCons(c, t, f, esc);
      EscapeNoNul(t, f, esc);
      OneShape(c, f, esc);
      if |e| == 1 {
        NotNul(c);
        PlainStep(c, rest, size);
        RoundTrip(t, f, esc, Dec(size));
      } else {
        if e == SHORT_NUL {
          ShortIsNul(c, f, esc);
          EscapeStart(t, f, esc);
        }
        OneBack(c, f, esc, rest);
        UnescapeStep(e, rest, c, size);
        RoundTrip(t, f, esc, Dec(size) - 1);
      }
    }
  }

  lemma NotNul(c: Byte)
    requires NoNul([c])
    ensures c != 0
  {
    assert [c][0] == c;
  }

  /** Only a null byte is escaped as the short escape of null. */
  lemma ShortIsNul(c: Byte, f: EscapeFlags, esc: seq<Byte>)
    requires EscapeOne(c, f, esc) == SHORT_NUL
    ensures c == 0
  {
  }

  lemma UnescapeNothing(size: nat)
    ensures Unescape([], size, ANY) == []
  {
  }

  lemma EscapeTwo(c: Byte, d: Byte, f: EscapeFlags, esc: seq<Byte>)
    ensures Escape([c, d], f, esc) == EscapeOne(c, f, esc) + EscapeOne(d, f, esc)
  {
    hide EscapeOne;
    var t: seq<Byte>, u: seq<Byte> := [c, d], [c];
    assert u[..0] == [] && Escape(u, f, esc) == EscapeOne(c, f, esc);
    assert t[..1] == u && t[1] == d;
  }

  /** Every byte string whose escaped form a 64-bit size can count comes back. */
  ghost predicate RoundTrips(f: EscapeFlags, esc: seq<Byte>) {
    forall s: seq<Byte> :: |Escape(s, f, esc)| < 0x1_0000_0000_0000_0000 ==> Returns(s, f, esc)
  }

  ghost predicate Returns(s: seq<Byte>, f: EscapeFlags, esc: seq<Byte>) {
    NoNul(Escape(s, f, esc)) && Unescape(Escape(s, f, esc), 0, ANY) == s
  }

  /** A null that comes out as it is ends the text. */
  lemma BareNul(f: EscapeFlags, esc: seq<Byte>)
    requires EscapeOne(0, f, esc) == [0]
    ensures |Escape([0], f, esc)| == 1 && !Returns([0], f, esc)
  {
    hide EscapeOne;
    var z: seq<Byte> := [0];
    assert z[..0] == [] && Escape(z, f, esc) == z;
    assert z[0] == 0;
  }

  /** Two backslashes that come out as they are read as one. */
  lemma BareBackslash(f: EscapeFlags, esc: seq<Byte>)
    requires EscapeOne(BACKSLASH, f, esc) == [BACKSLASH]
    ensures |Escape([BACKSLASH, BACKSLASH], f, esc)| == 2 && !Returns([BACKSLASH, BACKSLASH], f, esc)
  {
    hide EscapeOne, Escape, Unescape;
    var e: seq<Byte> := [BACKSLASH, BACKSLASH];
    EscapeTwo(BACKSLASH, BACKSLASH, f, esc);
    assert Escape([BACKSLASH, BACKSLASH], f, esc) == e;
    assert UnescapeOne([BACKSLASH], ANY) == Some(Unescaped(BACKSLASH, 1));
    assert e[1..] + [] == [BACKSLASH] && e + [] == e;
    UnescapeStep(e, [], BACKSLASH, 0);
    UnescapeNothing(0xffff_ffff_ffff_fffe);
    assert Unescape(e, 0, ANY) == [BACKSLASH];
  }

  /** An octal digit that comes out as it is becomes part of the short escape of null before it. */
  lemma NulThenDigit(f: EscapeFlags, esc: seq<Byte>, d: Byte)
    requires EscapeOne(0, f, esc) == SHORT_NUL && IsOctal(d) && EscapeOne(d, f, esc) == [d]
    ensures |Escape([0, d], f, esc)| == 3 && NoNul(Escape([0, d], f, esc))
    ensures Unescape(Escape([0, d], f, esc), 0, ANY) == [d - 0x30] && !Returns([0, d], f, esc)
  {
    hide EscapeOne, Escape, Unescape;
    var e: seq<Byte> := [BACKSLASH, 0x30, d];
    EscapeTwo(0, d, f, esc);
    assert Escape([0, d], f, esc) == e;
    assert UnescapeOne([0x30, d], ANY) == Some(Unescaped(d - 0x30, 2));
    assert e[1..] + [] == [0x30, d] && e + [] == e;
    UnescapeStep(e, [], d - 0x30, 0);
    UnescapeNothing(0xffff_ffff_ffff_fffe);
    assert Unescape(e, 0, ANY) == [d - 0x30];
  }

  /** The exact condition, for every set of flags and every dictionary. */
  lemma RoundTripExact(f: EscapeFlags, esc: seq<Byte>)
    ensures RoundTrips(f, esc) <==> Safe(f, esc)
  {
    hide EscapeOne, Escape, Unescape, IsOctal;
    if Safe(f, esc) {
      hide Safe;
      forall s: seq<Byte> | |Escape(s, f, esc)| < 0x1_0000_0000_0000_0000
        ensures Returns(s, f, esc)
      {
        RoundTrip(s, f, esc, 0);
      }
    } else if EscapeOne(BACKSLASH, f, esc) == [BACKSLASH] {
      BareBackslash(f, esc);
    } else if EscapeOne(0, f, esc) == [0] {
      BareNul(f, esc);
    } else {
      var d: Byte :| IsOctal(d) && EscapeOne(d, f, esc) == [d];
      NulThenDigit(f, esc, d);
    }
  }

  /** Without a dictionary that is: OCTAL or HEX, and not NP. */
  lemma CompleteIsSafe(f: EscapeFlags)
    ensures Safe(f, []) <==> Complete(f)
  {
    if !Complete(f) && EscapeOne(0, f, []) == SHORT_NUL {
      assert IsOctal(0x31) && EscapeOne(0x31, f, []) == [0x31];
    }
  }

  // ---------------------------------------------------------------- string_unescape, also in place

  /** The next n source bytes at i, and the terminating null after them, are s. */
  ghost predicate SourceIs(src: array<Byte>, i: nat, s: seq<Byte>)
    reads src
  {
    i + |s| < src.Length && src[i..i + |s|] == s && src[i + |s|] == 0
  }

  lemma ReadAt(src: array<Byte>, i: nat, s: seq<Byte>, k: nat)
    requires SourceIs(src, i, s) && k <= |s|
    ensures i + k < src.Length && src[i + k] == At(s, k)
  {
    if k < |s| {
      assert src[i..i + |s|][k] == s[k];
    }
  }

  lemma SourceRest(src: array<Byte>, i: nat, s: seq<Byte>, k: nat)
    requires SourceIs(src, i, s) && k <= |s|
    ensures SourceIs(src, i + k, s[k..])
  {
  }

  /** The octal loop of unescape_octal. */
  method OctalAt(src: array<Byte>, i: nat, ghost q: seq<Byte>) returns (ok: bool, num: Byte, j: nat)
    requires SourceIs(src, i, q) && NoNul(q)
    ensures ok == UnescapeOctal(q).Some?
    ensures ok ==> j > i && UnescapeOctal(q) == Some(Unescaped(num, j - i))
  {
    num, j := 0, i;
    ReadAt(src, i, q, 0);
    if !IsOctal(src[i]) {
      return false, 0, i;
    }
    ok := true;
    num, j := src[i] % 8, i + 1;
    while num < 32 && IsOctal(src[j]) && j - i < 3
      invariant i < j <= i + 3 && j - i <= |q|
      invariant j - i == 1 ==> num == At(q, 0) % 8
      invariant j - i == 2 ==> IsOctal(At(q, 1)) && num == At(q, 0) % 8 * 8 + At(q, 1) % 8
      invariant j - i == 3 ==> UnescapeOctal(q) == Some(Unescaped(num, 3))
      decreases i + 3 - j
    {
      ReadAt(src, i, q, j - i);
      num := num * 8 + src[j] % 8;
      j := j + 1;
    }
    ReadAt(src, i, q, j - i);
  }

  method HexAt(src: array<Byte>, i: nat, ghost q: seq<Byte>) returns (ok: bool, num: Byte, j: nat)
    requires SourceIs(src, i, q) && NoNul(q) && q != []
    ensures ok == UnescapeHex(q).Some?
    ensures ok ==> j > i && UnescapeHex(q) == Some(Unescaped(num, j - i))
  {
    num, j := 0, i;
    ReadAt(src, i, q, 0);
    if src[j] != 0x78 {
      return false, 0, i;
    }
    j := j + 1;
    ReadAt(src, i, q, 1);
    var digit := HexToBin(src[j]);
    if digit < 0 {
      return false, 0, i;
    }
    j := j + 1;
    num := digit;
    ReadAt(src, i, q, 2);
    digit := HexToBin(src[j]);
    if digit >= 0 {
      j := j + 1;
      num := num * 16 + digit;
    }
    ok := true;
  }

  /** The four classes in their order, for what follows a backslash at i. */
  method TryClasses(src: array<Byte>, i: nat, f: UnescapeFlags, ghost q: seq<Byte>) returns (ok: bool, c: Byte, j: nat)
    requires SourceIs(src, i, q) && NoNul(q) && q != []
    ensures ok == UnescapeOne(q, f).Some?
    ensures ok ==> i < j <= i + |q| && UnescapeOne(q, f) == Some(Unescaped(c, j - i))
  {
    hide UnescapeOctal, UnescapeHex;
    UnescapeOneLength(q, f);
    ReadAt(src, i, q, 0);
    ok, c, j := false, 0, i;
    if f.space {
      match src[i] {
        case 0x6e => return true, 0x0a, i + 1;
        case 0x72 => return true, 0x0d, i + 1;
        case 0x74 => return true, 0x09, i + 1;
        case 0x76 => return true, 0x0b, i + 1;
        case 0x66 => return true, 0x0c, i + 1;
        case _ =>
      }
    }
    if f.octal {
      ok, c, j := OctalAt(src, i, q);
      if ok {
        return;
      }
    }
    if f.hex {
      ok, c, j := HexAt(src, i, q);
      if ok {
        return;
      }
    }
    if f.special {
      match src[i] {
        case 0x22 => return true, 0x22, i + 1;
        case 0x5c => return true, 0x5c, i + 1;
        case 0x61 => return true, 0x07, i + 1;
        case 0x65 => return true, 0x1b, i + 1;
        case _ =>
      }
    }
    ok := false;
  }

  /** Stores one byte of output, which is behind the source position j. */
  method Store(src: array<Byte>, dst: array<Byte>, o: nat, c: Byte, ghost j: nat, ghost rest: seq<Byte>,
               ghost done: seq<Byte>)
    requires o < dst.Length && o < j && SourceIs(src, j, rest) && dst[..o] == done
    modifies dst
    ensures SourceIs(src, j, rest) && dst[..o + 1] == done + [c]
  {
    dst[o] := c;
  }

  /** The unescaped form of what follows a backslash. */
  ghost function AfterBackslash(q: seq<Byte>, size: nat, f: UnescapeFlags): seq<Byte>
    requires NoNul(q) && q != []
  {
    UnescapeOneLength(q, f);
    match UnescapeOne(q, f)
    case Some(u) => [u.c] + Unescape(q[u.len..], size, f)
    case None => [BACKSLASH, q[0]] + Unescape(q[1..], size, f)
  }

  lemma UnescapeUnfold(s: seq<Byte>, size: nat, f: UnescapeFlags)
    requires NoNul(s) && s != [] && Dec(size) != 0
    ensures Unescape(s, size, f) ==
      if s[0] == BACKSLASH && |s| > 1 && Dec(size) > 1 then AfterBackslash(s[1..], Dec(size) - 1, f)
      else [s[0]] + Unescape(s[1..], Dec(size), f)
  {
    hide UnescapeOne;
    if s[0] == BACKSLASH && |s| > 1 && Dec(size) > 1 {
      UnescapeOneLength(s[1..], f);
      assert s[1..][1..] == s[2..];
      assert UnescapeOne(s[1..], f).Some? ==>
        s[1..][UnescapeOne(s[1..], f).value.len..] == s[1 + UnescapeOne(s[1..], f).value.len..];
    }
  }

  lemma UnescapeStops(s: seq<Byte>, size: nat, f: UnescapeFlags)
    requires NoNul(s) && (s == [] || Dec(size) == 0)
    ensures Unescape(s, size, f) == []
  {
  }

  /** string_unescape: dst may be src itself, and the answer is the same. */
  method StringUnescape(src: array<Byte>, dst: array<Byte>, size0: nat, f: UnescapeFlags, ghost s: seq<Byte>)
    returns (len: nat)
    requires SourceIs(src, 0, s) && NoNul(s) && |Unescape(s, size0, f)| < dst.Length
    modifies dst
    ensures len == |Unescape(s, size0, f)| && dst[..len] == Unescape(s, size0, f) && dst[len] == 0
  {
    hide UnescapeOne, SourceIs, Unescape, AfterBackslash;
    ghost var total := Unescape(s, size0, f);
    var i, o, size: nat := 0, 0, size0;
    ghost var done: seq<Byte> := [];
    assert s[0..] == s && done + total == total;
    while true
      invariant 0 <= o <= i <= |s| && o == |done| <= |total| && total == done + Unescape(s[i..], size, f)
      invariant SourceIs(src, i, s[i..]) && dst[..o] == done
      decreases |s| - i
    {
      ghost var rest := s[i..];
      SourceReads(src, i, rest);
      if src[i] == 0 {
        UnescapeStops(rest, size, f);
        break;
      }
      if Dec(size) == 0 {
        UnescapeStops(rest, size, f);
        break;
      }
      UnescapeUnfold(rest, size, f);
      assert rest[1..] == s[i + 1..];
      size := Dec(size);
      if src[i] == BACKSLASH && src[i + 1] != 0 && size > 1 {
        size := size - 1;
        i, o, done := OneSequence(src, dst, i, o, f, s, done, total, size);
      } else {
        SourceRest(src, i, rest, 1);
        assert done + ([rest[0]] + Unescape(s[i + 1..], size, f)) == (done + [rest[0]]) + Unescape(s[i + 1..], size, f);
        Store(src, dst, o, src[i], i + 1, s[i + 1..], done);
        done := done + [rest[0]];
        i, o := i + 1, o + 1;
      }
    }
    assert done == total;
    dst[o] := 0;
    len := o;
  }

  lemma SourceReads(src: array<Byte>, i: nat, rest: seq<Byte>)
    requires SourceIs(src, i, rest) && NoNul(rest)
    ensures i < src.Length && src[i] == At(rest, 0) && (src[i] == 0 <==> rest == [])
    ensures rest != [] ==> i + 1 < src.Length && src[i + 1] == At(rest, 1) && (src[i + 1] == 0 <==> |rest| == 1)
  {
    ReadAt(src, i, rest, 0);
    if rest != [] {
      ReadAt(src, i, rest, 1);
    }
  }

  /** A backslash and what follows it. */
  method OneSequence(src: array<Byte>, dst: array<Byte>, i: nat, o: nat, f: UnescapeFlags,
                     ghost s: seq<Byte>, ghost done: seq<Byte>, ghost total: seq<Byte>, ghost size: nat)
    returns (i': nat, o': nat, ghost done': seq<Byte>)
    requires NoNul(s) && o <= i && i + 1 < |s| && s[i] == BACKSLASH && size > 0
    requires SourceIs(src, i, s[i..]) && o == |done| <= |total| < dst.Length && dst[..o] == done
    requires total == done + AfterBackslash(s[i + 1..], size, f)
    modifies dst
    ensures i < i' <= |s| && o' <= i' && o' == |done'| <= |total| && total == done' + Unescape(s[i'..], size, f)
    ensures SourceIs(src, i', s[i'..]) && dst[..o'] == done'
  {
    hide UnescapeOne, SourceIs, Unescape, AfterBackslash, NoNul;
    ghost var q := s[i + 1..];
    NoNulRest(s, i + 1);
    SourceRest(src, i, s[i..], 1);
    assert s[i..][1..] == q;
    AfterCases(q, size, f);
    var ok, c, j := TryClasses(src, i + 1, f, q);
    if ok {
      SourceRest(src, i + 1, q, j - i - 1);
      assert q[j - i - 1..] == s[j..];
      NoNulRest(s, j);
      assert total == (done + [c]) + Unescape(s[j..], size, f);
      Store(src, dst, o, c, j, s[j..], done);
      return j, o + 1, done + [c];
    }
    assert q[1..] == s[i + 2..];
    NoNulRest(s, i + 2);
    done' := StoreBoth(src, dst, i, o, s, done, q);
    assert total == done' + Unescape(s[i + 2..], size, f);
    return i + 2, o + 2, done';
  }

  /** A backslash that starts no sequence stays, with the byte after it. */
  method StoreBoth(src: array<Byte>, dst: array<Byte>, i: nat, o: nat, ghost s: seq<Byte>, ghost done: seq<Byte>,
                   ghost q: seq<Byte>)
    returns (ghost done': seq<Byte>)
    requires i + 1 < |s| && q == s[i + 1..] && o <= i && o == |done| && o + 1 < dst.Length
    requires NoNul(q) && SourceIs(src, i + 1, q) && dst[..o] == done
    modifies dst
    ensures done' == done + [BACKSLASH, q[0]] && SourceIs(src, i + 2, s[i + 2..]) && dst[..o + 2] == done'
  {
    hide SourceIs, NoNul;
    Store(src, dst, o, BACKSLASH, i + 1, q, done);
    SourceReads(src, i + 1, q);
    SourceRest(src, i + 1, q, 1);
    assert q[1..] == s[i + 2..];
    Store(src, dst, o + 1, src[i + 1], i + 2, s[i + 2..], done + [BACKSLASH]);
    done' := done + [BACKSLASH] + [q[0]];
  }

  lemma NoNulRest(s: seq<Byte>, i: nat)
    requires NoNul(s) && i <= |s|
    ensures NoNul(s[i..])
  {
  }

  lemma AfterCases(q: seq<Byte>, size: nat, f: UnescapeFlags)
    requires NoNul(q) && q != []
    ensures NoNul(q[1..])
    ensures var u := UnescapeOne(q, f);
      if u.None? then AfterBackslash(q, size, f) == [BACKSLASH, q[0]] + Unescape(q[1..], size, f)
      else
        u.value.len <= |q| && NoNul(q[u.value.len..]) &&
        AfterBackslash(q, size, f) == [u.value.c] + Unescape(q[u.value.len..], size, f)
  {
    UnescapeOneLength(q, f);
  }

  // ---------------------------------------------------------------- string_escape_mem

  /** The bytes processed before the room runs out. */
  function Processed(s: seq<Byte>, f: EscapeFlags, esc: seq<Byte>, room: nat): (k: nat)
    ensures k <= |s|
  {
    if s == [] || Room(s[0], f, esc) > room then 0
    else 1 + Processed(s[1..], f, esc, room - |EscapeOne(s[0], f, esc)|)
  }

  /** Four times the size is always enough. */
  lemma {:induction false} FourTimes(s: seq<Byte>, f: EscapeFlags, esc: seq<Byte>, room: nat)
    requires room >= 4 * |s|
    ensures Processed(s, f, esc, room) == |s|
    decreases |s|
  {
    if s != [] {
      FourTimes(s[1..], f, esc, room - |EscapeOne(s[0], f, esc)|);
    }
  }

  /** A class that stores two bytes: letter tells what c becomes in the class. */
  method EscapeLetter(dst: array<Byte>, p: nat, osz: nat, letter: Option<Byte>) returns (ret: int, p': nat, osz': nat)
    requires p + osz <= dst.Length
    modifies dst
    ensures osz < 2 ==> ret == -12
    ensures osz >= 2 ==> ret == if letter.Some? then 1 else 0
    ensures ret == 1 ==> dst[..p + 2] == old(dst[..p]) + [BACKSLASH, letter.value] && p' == p + 2 && osz' == osz - 2
    ensures ret != 1 ==> dst[..] == old(dst[..]) && p' == p && osz' == osz
  {
    p', osz' := p, osz;
    if osz < 2 {
      return -12, p, osz;
    }
    if letter.None? {
      return 0, p, osz;
    }
    dst[p] := BACKSLASH;
    dst[p + 1] := letter.value;
    return 1, p + 2, osz - 2;
  }

  /** escape_octal and escape_hex. */
  method EscapeFour(dst: array<Byte>, p: nat, osz: nat, e: seq<Byte>) returns (ret: int, p': nat, osz': nat)
    requires p + osz <= dst.Length && |e| == 4
    modifies dst
    ensures ret == if osz < 4 then -12 else 1
    ensures ret == 1 ==> dst[..p + 4] == old(dst[..p]) + e && p' == p + 4 && osz' == osz - 4
    ensures ret != 1 ==> dst[..] == old(dst[..]) && p' == p && osz' == osz
  {
    if osz < 4 {
      return -12, p, osz;
    }
    dst[p], dst[p + 1], dst[p + 2], dst[p + 3] := e[0], e[1], e[2], e[3];
    return 1, p + 4, osz - 4;
  }

  method EscapePassthrough(dst: array<Byte>, p: nat, osz: nat, c: Byte) returns (ret: int, p': nat, osz': nat)
    requires p + osz <= dst.Length
    modifies dst
    ensures ret == if osz < 1 then -12 else 1
    ensures ret == 1 ==> dst[..p + 1] == old(dst[..p]) + [c] && p' == p + 1 && osz' == osz - 1
    ensures ret != 1 ==> dst[..] == old(dst[..]) && p' == p && osz' == osz
  {
    if osz < 1 {
      return -12, p, osz;
    }
    dst[p] := c;
    return 1, p + 1, osz - 1;
  }

  /** The body of the loop: ret is negative exactly when the room the classes ask for is missing. */
  method EscapeByte(dst: array<Byte>, p: nat, osz: nat, c: Byte, f: EscapeFlags, esc: seq<Byte>)
    returns (ret: int, p': nat, osz': nat)
    requires p + osz <= dst.Length
    modifies dst
    ensures ret == if Room(c, f, esc) > osz then -12 else 1
    ensures ret == 1 ==>
      var e := EscapeOne(c, f, esc); p' == p + |e| && osz' == osz - |e| && dst[..p'] == old(dst[..p]) + e
    ensures ret != 1 ==> dst[..] == old(dst[..]) && p' == p && osz' == osz
  {
    hide SpaceLetter, SpecialLetter, OctalEscape, HexEscape, IsPrint;
    p', osz' := p, osz;
    if !Spared(c, f, esc) {
      if f.space {
        ret, p', osz' := EscapeLetter(dst, p, osz, SpaceLetter(c));
        if ret != 0 {
          return;
        }
      }
      if f.special {
        ret, p', osz' := EscapeLetter(dst, p, osz, SpecialLetter(c));
        if ret != 0 {
          return;
        }
      }
      if f.nul {
        ret, p', osz' := EscapeLetter(dst, p, osz, if c == 0 then Some(0x30) else None);
        if ret != 0 {
          return;
        }
      }
      if f.octal {
        FourLong(c);
        ret, p', osz' := EscapeFour(dst, p, osz, OctalEscape(c));
        return;
      }
      if f.hex {
        FourLong(c);
        ret, p', osz' := EscapeFour(dst, p, osz, HexEscape(c));
        return;
      }
    }
    ret, p', osz' := EscapePassthrough(dst, p, osz, c);
  }

  lemma FourLong(c: Byte)
    ensures |OctalEscape(c)| == 4 && |HexEscape(c)| == 4
  {
  }

  /** string_escape_mem: the escaped form of as many bytes as fit; an error says that not all did. */
  method StringEscapeMem(src: array<Byte>, isz: nat, dst: array<Byte>, at: nat, osz0: nat, f: EscapeFlags,
                         esc: seq<Byte>)
    returns (ret: int, p: nat)
    requires src != dst && isz <= src.Length && at + osz0 <= dst.Length
    modifies dst
    ensures var k := Processed(src[..isz], f, esc, osz0); var e := Escape(src[..k], f, esc);
      p == at + |e| <= at + osz0 && dst[at..p] == e && ret == if k == isz then |e| else -12
    ensures dst[..at] == old(dst[..at])
  {
    hide EscapeOne, Room, Escape;
    var i, osz := 0, osz0;
    p, ret := at, 0;
    ghost var s := src[..isz];
    assert s[0..] == s && src[..0] == [];
    EscapeNone(f, esc);
    while i < isz
      invariant 0 <= i <= isz && s == src[..isz] && at <= p && p + osz == at + osz0
      invariant Processed(s, f, esc, osz0) == i + Processed(s[i..], f, esc, osz)
      invariant p == at + |Escape(s[..i], f, esc)| && dst[..p] == old(dst[..at]) + Escape(s[..i], f, esc)
    {
      var c := src[i];
      assert s[i..][0] == c && s[i..][1..] == s[i + 1..];
      EscapeSnoc(s, i, f, esc);
      ret, p, osz := EscapeByte(dst, p, osz, c, f, esc);
      if ret < 0 {
        break;
      }
      i := i + 1;
    }
    assert s[..i] == src[..i];
    assert dst[at..p] == dst[..p][at..];
    if ret >= 0 {
      ret := p - at;
    }
  }

  lemma EscapeNone(f: EscapeFlags, esc: seq<Byte>)
    ensures Escape([], f, esc) == []
  {
  }

  /** A whole buffer escaped, terminated and unescaped in place: its bytes and its length come back. */
  method EscapeAndBack(src: array<Byte>, f: EscapeFlags, esc: seq<Byte>)
    returns (escaped: seq<Byte>, buf: array<Byte>, len: nat)
    requires Safe(f, esc) && src.Length < 0x1000_0000_0000_0000
    ensures escaped == Escape(src[..], f, esc) && NoNul(escaped)
    ensures len == |Unescape(escaped, 0, ANY)| <= buf.Length && buf[..len] == Unescape(escaped, 0, ANY) == src[..]
  {
    hide Escape, Unescape, NoNul, Processed, Safe;
    var n := src.Length;
    buf := new Byte[4 * n + 1];
    ghost var s := src[..];
    assert src[..n] == s;
    FourTimes(s, f, esc, 4 * n);
    var ret, p := StringEscapeMem(src, n, buf, 0, 4 * n, f, esc);
    escaped := buf[..p];
    buf[p] := 0;
    RoundTrip(s, f, esc, 0);
    assert buf[0..p] == escaped;
    assert s == src[..];
    len := StringUnescape(buf, buf, 0, ANY, escaped);
  }
}
