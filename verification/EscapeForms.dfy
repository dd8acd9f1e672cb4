/** The escape sequences string_unescape of so3/lib/string_helpers.c knows, one form at a time. */
module EscapeForms {
  import opened Queues
  import opened StringEscape

  /** A hexadecimal digit in either case. */
  function HexIn(d: int, upper: bool): Byte
    requires 0 <= d < 16
  {
    if d < 10 then 0x30 + d else (if upper then 0x41 else 0x61) + d - 10
  }

  function OctalIn(d: int): Byte
    requires 0 <= d < 8
  {
    0x30 + d
  }

  lemma HexInBack(d: int, upper: bool)
    requires 0 <= d < 16
    ensures HexToBin(HexIn(d, upper)) == d
  {
  }

  /** A hexadecimal sequence has one digit or two, in either case, and takes the second whenever there is one. */
  lemma HexForms(a: int, b: int, upperA: bool, upperB: bool, rest: seq<Byte>, f: UnescapeFlags)
    requires 0 <= a < 16 && 0 <= b < 16 && f.hex
    ensures UnescapeOne([0x78, HexIn(a, upperA), HexIn(b, upperB)] + rest, f) == Some(Unescaped(16 * a + b, 3))
    ensures HexToBin(At(rest, 0)) < 0 ==> UnescapeOne([0x78, HexIn(a, upperA)] + rest, f) == Some(Unescaped(a, 2))
  {
    HexInBack(a, upperA);
    HexInBack(b, upperB);
    var q, p := [0x78, HexIn(a, upperA), HexIn(b, upperB)] + rest, [0x78, HexIn(a, upperA)] + rest;
    assert q[0] == 0x78 && q[1] == HexIn(a, upperA) && q[2] == HexIn(b, upperB);
    assert p[0] == 0x78 && p[1] == HexIn(a, upperA) && At(p, 2) == At(rest, 0);
  }

  /** An octal sequence goes on for up to three digits while its value stays below 32. */
  lemma OctalForms(a: int, b: int, c: int, rest: seq<Byte>, f: UnescapeFlags)
    requires 0 <= a < 8 && 0 <= b < 8 && 0 <= c < 8 && f.octal
    ensures a <= 3 ==>
      UnescapeOne([OctalIn(a), OctalIn(b), OctalIn(c)] + rest, f) == Some(Unescaped(64 * a + 8 * b + c, 3))
    ensures a >= 4 || !IsOctal(At(rest, 0)) ==>
      UnescapeOne([OctalIn(a), OctalIn(b)] + rest, f) == Some(Unescaped(8 * a + b, 2))
    ensures !IsOctal(At(rest, 0)) ==> UnescapeOne([OctalIn(a)] + rest, f) == Some(Unescaped(a, 1))
  {
    var q, p, o := [OctalIn(a), OctalIn(b), OctalIn(c)] + rest, [OctalIn(a), OctalIn(b)] + rest, [OctalIn(a)] + rest;
    assert q[0] == OctalIn(a) && q[1] == OctalIn(b) && q[2] == OctalIn(c);
    assert p[0] == OctalIn(a) && p[1] == OctalIn(b) && At(p, 2) == At(rest, 0);
    assert o[0] == OctalIn(a) && At(o, 1) == At(rest, 0);
    OctalInBack(a);
    OctalInBack(b);
    OctalInBack(c);
  }

  lemma OctalInBack(d: int)
    requires 0 <= d < 8
    ensures OctalIn(d) % 8 == d && IsOctal(OctalIn(d)) && UnescapeSpace([OctalIn(d)]).None?
  {
  }

  /** The letters of SPACE and SPECIAL, and the byte each stands for. */
  const LETTERS: seq<(char, Byte)> := [('n', 10), ('r', 13), ('t', 9), ('v', 11), ('f', 12)]
  const SPECIALS: seq<(char, Byte)> := [('"', 0x22), ('\\', 0x5c), ('a', 7), ('e', 0x1b)]

  lemma LetterForms(k: nat, rest: seq<Byte>, f: UnescapeFlags)
    ensures forall i :: 0 <= i < |LETTERS| ==> (LETTERS[i].0 as int) < 256
    ensures forall i :: 0 <= i < |SPECIALS| ==> (SPECIALS[i].0 as int) < 256
    ensures k < |LETTERS| && f.space ==>
      UnescapeOne([LETTERS[k].0 as int] + rest, f) == Some(Unescaped(LETTERS[k].1, 1))
    ensures k < |SPECIALS| && f.special ==>
      UnescapeOne([SPECIALS[k].0 as int] + rest, f) == Some(Unescaped(SPECIALS[k].1, 1))
  {
    if k < |LETTERS| {
      assert ([LETTERS[k].0 as int] + rest)[0] == LETTERS[k].0 as int;
    }
    if k < |SPECIALS| {
      assert ([SPECIALS[k].0 as int] + rest)[0] == SPECIALS[k].0 as int;
    }
  }

  /** Whether c opens a sequence of the classes asked for, with d behind it. */
  predicate Opens(c: Byte, d: Byte, f: UnescapeFlags) {
    (f.space && exists i :: 0 <= i < |LETTERS| && c == LETTERS[i].0 as int) ||
    (f.octal && IsOctal(c)) ||
    (f.hex && c == 'x' as int && HexToBin(d) >= 0) ||
    (f.special && exists i :: 0 <= i < |SPECIALS| && c == SPECIALS[i].0 as int)
  }

  lemma OpensExactly(q: seq<Byte>, f: UnescapeFlags)
    ensures UnescapeOne(q, f).Some? <==> Opens(At(q, 0), At(q, 1), f)
  {
    var c := At(q, 0);
    assert LETTERS[0].0 == 'n' && LETTERS[1].0 == 'r' && LETTERS[2].0 == 't' && LETTERS[3].0 == 'v';
    assert LETTERS[4].0 == 'f';
    assert SPECIALS[0].0 == '"' && SPECIALS[1].0 == '\\' && SPECIALS[2].0 == 'a' && SPECIALS[3].0 == 'e';
    assert UnescapeSpace(q).Some? <==> exists i :: 0 <= i < |LETTERS| && c == LETTERS[i].0 as int;
    assert UnescapeSpecial(q).Some? <==> exists i :: 0 <= i < |SPECIALS| && c == SPECIALS[i].0 as int;
  }

  /** A backslash that opens no sequence stays, with the byte behind it; a byte that is none is copied. */
  lemma KeptBackslash(c: Byte, rest: seq<Byte>, f: UnescapeFlags, size: nat)
    requires c != 0 && NoNul(rest) && Budget(size) > 2
    ensures NoNul([BACKSLASH, c] + rest) && NoNul([c] + rest)
    ensures !Opens(c, At(rest, 0), f) ==>
      Unescape([BACKSLASH, c] + rest, size, f) == [BACKSLASH, c] + Unescape(rest, Dec(size) - 1, f)
    ensures c != BACKSLASH ==> Unescape([c] + rest, size, f) == [c] + Unescape(rest, Dec(size), f)
  {
    hide UnescapeOne, Opens;
    var s := [BACKSLASH, c] + rest;
    assert s[1..] == [c] + rest && s[2..] == rest && ([c] + rest)[1..] == rest;
    assert At(s[1..], 0) == c && At(s[1..], 1) == At(rest, 0);
    OpensExactly(s[1..], f);
  }

  // ---------------------------------------------------------------- the budget of unescaping

  /** What is written, with its terminator, fits the size given. */
  lemma {:induction false} UnescapeFits(s: seq<Byte>, size: nat, f: UnescapeFlags)
    requires NoNul(s) && size <= 0xffff_ffff_ffff_ffff
    ensures |Unescape(s, size, f)| < Budget(size)
    decreases |s|
  {
    hide UnescapeOne;
    if s != [] && Dec(size) != 0 {
      if s[0] == BACKSLASH && |s| > 1 && Dec(size) > 1 {
        UnescapeOneLength(s[1..], f);
        match UnescapeOne(s[1..], f)
        case Some(u) => UnescapeFits(s[1 + u.len..], Dec(size) - 1, f);
        case None => UnescapeFits(s[2..], Dec(size) - 1, f);
      } else {
        UnescapeFits(s[1..], Dec(size), f);
      }
    }
  }

  // ---------------------------------------------------------------- the forms escaping produces

  /** A byte of a class with letters comes out as its letter, null as \0, any other in octal or hexadecimal digits. */
  lemma EscapeForm(c: Byte, f: EscapeFlags, esc: seq<Byte>)
    ensures Spared(c, f, esc) ==> EscapeOne(c, f, esc) == [c]
    ensures !Spared(c, f, esc) ==>
      var e := EscapeOne(c, f, esc);
      if f.space && exists i :: 0 <= i < |LETTERS| && c == LETTERS[i].1 then
        exists i :: 0 <= i < |LETTERS| && c == LETTERS[i].1 && e == [BACKSLASH, LETTERS[i].0 as int]
      else if f.special && c != 0x22 && exists i :: 0 <= i < |SPECIALS| && c == SPECIALS[i].1 then
        exists i :: 0 <= i < |SPECIALS| && c == SPECIALS[i].1 && e == [BACKSLASH, SPECIALS[i].0 as int]
      else if f.nul && c == 0 then e == [BACKSLASH, '0' as int]
      else if f.octal then
        exists x, y, z ::
          InOctal(x, y, z) && 64 * x + 8 * y + z == c && e == [BACKSLASH, OctalIn(x), OctalIn(y), OctalIn(z)]
      else if f.hex then
        exists x, y :: InHex(x, y) && 16 * x + y == c && e == [BACKSLASH, 'x' as int, HexIn(x, false), HexIn(y, false)]
      else e == [c]
  {
    hide SpaceLetter, SpecialLetter, OctalEscape, HexEscape, Spared;
    SpaceLetterIs(c);
    SpecialLetterIs(c);
    OctalEscapeIs(c);
    HexEscapeIs(c);
  }

  lemma SpaceLetterIs(c: Byte)
    ensures SpaceLetter(c).Some? <==> exists i :: 0 <= i < |LETTERS| && c == LETTERS[i].1
    ensures SpaceLetter(c).Some? ==>
      exists i :: 0 <= i < |LETTERS| && c == LETTERS[i].1 && SpaceLetter(c).value == LETTERS[i].0 as int
  {
    assert LETTERS[0].1 == 10 && LETTERS[1].1 == 13 && LETTERS[2].1 == 9 && LETTERS[3].1 == 11 && LETTERS[4].1 == 12;
  }

  lemma SpecialLetterIs(c: Byte)
    ensures SpecialLetter(c).Some? <==> c != 0x22 && exists i :: 0 <= i < |SPECIALS| && c == SPECIALS[i].1
    ensures SpecialLetter(c).Some? ==>
      exists i :: 0 <= i < |SPECIALS| && c == SPECIALS[i].1 && SpecialLetter(c).value == SPECIALS[i].0 as int
  {
    assert SPECIALS[0].1 == 0x22 && SPECIALS[1].1 == 0x5c && SPECIALS[2].1 == 7 && SPECIALS[3].1 == 0x1b;
  }

  lemma OctalEscapeIs(c: Byte)
    ensures exists x, y, z ::
      InOctal(x, y, z) && 64 * x + 8 * y + z == c && OctalEscape(c) == [BACKSLASH, OctalIn(x), OctalIn(y), OctalIn(z)]
  {
    OctalDigits(c);
    assert InOctal(c / 64 % 8, c / 8 % 8, c % 8);
  }

  lemma HexEscapeIs(c: Byte)
    ensures exists x, y ::
      InHex(x, y) && 16 * x + y == c && HexEscape(c) == [BACKSLASH, 'x' as int, HexIn(x, false), HexIn(y, false)]
  {
    assert InHex(c / 16, c % 16);
  }

  /** What is never escaped: with NP the printable bytes, with a dictionary all bytes but null that are not in it. */
  lemma SparedIs(c: Byte, f: EscapeFlags, esc: seq<Byte>)
    ensures c == 0 ==> !Spared(c, f, esc)
    ensures f.np && (0x20 <= c < 0x7f || c >= 0xa0) ==> Spared(c, f, esc)
    ensures !f.np || c < 0x20 || 0x7f <= c < 0xa0 ==> (Spared(c, f, esc) <==> esc != [] && c != 0 && c !in esc)
  {
  }

  predicate InOctal(x: int, y: int, z: int) {
    0 <= x < 8 && 0 <= y < 8 && 0 <= z < 8
  }

  predicate InHex(x: int, y: int) {
    0 <= x < 16 && 0 <= y < 16
  }

  /** The room asked for is more than what is written exactly for a byte copied after a class of two bytes was tried. */
  lemma RoomExact(c: Byte, f: EscapeFlags, esc: seq<Byte>)
    ensures var n := |EscapeOne(c, f, esc)|;
      Room(c, f, esc) == if n == 1 && !Spared(c, f, esc) && (f.space || f.special || f.nul) then 2 else n
  {
  }

  /** As many bytes are escaped as find their room, each after all before it. */
  lemma {:induction false} ProcessedIs(s: seq<Byte>, f: EscapeFlags, esc: seq<Byte>, osz: nat)
    ensures var k := Processed(s, f, esc, osz);
      k <= |s| && |Escape(s[..k], f, esc)| <= osz &&
      (k < |s| ==> Room(s[k], f, esc) > osz - |Escape(s[..k], f, esc)|)
    decreases |s|
  {
    hide EscapeOne, Room, Escape;
    var k := Processed(s, f, esc, osz);
    if s == [] || Room(s[0], f, esc) > osz {
      EscapeNone(f, esc);
      assert s[..0] == [];
    } else {
      var n := |EscapeOne(s[0], f, esc)|;
      ProcessedIs(s[1..], f, esc, osz - n);
      assert s[..k] == [s[0]] + s[1..][..k - 1];
      EscapeCons(s[0], s[1..][..k - 1], f, esc);
    }
  }
}
