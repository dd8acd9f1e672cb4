/**
 Division-free decimal conversion: put_dec and its helpers in so3/lib/vsprintf.c. The shifted
 products stand for quotients by 10 and 10000; digits are written lowest first.
 */
module DecimalDigits {
  import opened Powers

  // ---------------------------------------------------------------- positional notation, lowest digit first

  function RevDigits(n: nat, base: nat): (r: seq<nat>)
    requires base >= 2
    ensures |r| > 0
    decreases n
  {
    if n < base then [n] else Smaller(n, base); [n % base] + RevDigits(n / base, base)
  }

  lemma Smaller(n: nat, base: nat)
    requires base >= 2 && n >= base
    ensures 0 < n / base < n && n == n % base + base * (n / base)
  {
    var q, r := n / base, n % base;
    assert n == q * base + r;
    DivNonnegative(n, base);
    MulMonotone(q, 2, base);
  }

  function RevValue(ds: seq<nat>, base: nat): nat {
    if ds == [] then 0 else ds[0] + base * RevValue(ds[1..], base)
  }

  /** Digits of the base, and no leading zero unless it is the only digit. */
  ghost predicate Canonical(ds: seq<nat>, base: nat) {
    |ds| > 0 && (forall i :: 0 <= i < |ds| ==> ds[i] < base) && (|ds| > 1 ==> ds[|ds| - 1] != 0)
  }

  lemma {:induction false} RevDigitsCanonical(n: nat, base: nat)
    requires base >= 2
    ensures RevValue(RevDigits(n, base), base) == n && Canonical(RevDigits(n, base), base)
    ensures n > 0 ==> RevDigits(n, base)[|RevDigits(n, base)| - 1] != 0
    decreases n
  {
    if n < base {
      assert [n][1..] == [];
    } else {
      Smaller(n, base);
      RevDigitsCanonical(n / base, base);
      CanonicalCons(n % base, RevDigits(n / base, base), base);
    }
  }

  lemma CanonicalCons(d: nat, r: seq<nat>, base: nat)
    requires d < base && Canonical(r, base) && r[|r| - 1] != 0
    ensures Canonical([d] + r, base) && RevValue([d] + r, base) == d + base * RevValue(r, base)
  {
    assert ([d] + r)[1..] == r;
  }

  /** Canonical digits are determined by their value. */
  lemma {:induction false} CanonicalUnique(ds: seq<nat>, base: nat)
    requires base >= 2 && Canonical(ds, base)
    ensures ds == RevDigits(RevValue(ds, base), base)
    ensures ds[|ds| - 1] != 0 ==> RevValue(ds, base) > 0
    decreases |ds|
  {
    var n := RevValue(ds, base);
    if |ds| == 1 {
      assert ds[1..] == [];
    } else {
      var rest := ds[1..];
      assert rest[|rest| - 1] == ds[|ds| - 1];
      CanonicalUnique(rest, base);
      var v := RevValue(rest, base);
      Quotient(v, base, ds[0]);
      assert ds == [ds[0]] + rest;
    }
  }

  lemma Quotient(v: nat, base: nat, d: nat)
    requires base >= 2 && d < base && v > 0
    ensures (d + base * v) / base == v && (d + base * v) % base == d && d + base * v >= base
  {
    assert v * base == base * v;
    DivisionUnique(d + base * v, base, v, d);
    MulMonotone(base, 1, v);
  }

  /** The k lowest decimal digits of q, zeros included. */
  function Pad(q: nat, k: nat): (r: seq<nat>)
    ensures |r| == k && forall i :: 0 <= i < k ==> r[i] < 10
    decreases k
  {
    if k == 0 then [] else [q % 10] + Pad(q / 10, k - 1)
  }

  // ---------------------------------------------------------------- exact multiply-and-shift quotients

  lemma TenthOf4(q: nat)
    requires q < 10000
    ensures q * 0xccd / 0x8000 == q / 10 && q * 0xccd < 0x1_0000_0000
    ensures q * 0x199a / 0x1_0000 == q / 10 && q * 0x199a < 0x1_0000_0000
  {
  }

  lemma TenthOf3(q: nat)
    requires q < 1000
    ensures q * 0xcd / 0x800 == q / 10 && q * 0xcd < 0x1_0000_0000
  {
  }

  lemma TenthOf8(r: nat)
    requires r < 100_000_000
    ensures r * 0x1999999a / 0x1_0000_0000 == r / 10 && r * 0x1999999a < 0x1_0000_0000_0000_0000
  {
  }

  /** The bound of the source's comment, exactly: the first x for which the product is off. */
  lemma TenThousandth(x: nat)
    requires x < 1_128_869_999
    ensures x * 0x346DC5D7 / 0x800_0000_0000 == x / 10000 && x * 0x346DC5D7 < 0x1_0000_0000_0000_0000
  {
  }

  lemma TenThousandthFails()
    ensures var x := 1_128_869_999; x * 0x346DC5D7 / 0x800_0000_0000 != x / 10000
  {
  }

  // ---------------------------------------------------------------- splitting off low digits

  /** Four digits at a time. */
  lemma FourDigits(q: nat)
    ensures Pad(q, 4) == [q % 10, q / 10 % 10, q / 100 % 10, q / 1000 % 10]
  {
    assert q / 10 / 10 == q / 100 && q / 10 / 10 / 10 == q / 1000;
    assert Pad(q / 10 / 10 / 10 / 10, 0) == [];
    assert Pad(q / 10 / 10 / 10, 1) == [q / 1000 % 10];
    assert Pad(q / 10 / 10, 2) == [q / 100 % 10, q / 1000 % 10];
    assert Pad(q / 10, 3) == [q / 10 % 10, q / 100 % 10, q / 1000 % 10];
  }

  lemma RevStep(n: nat)
    requires n >= 10
    ensures RevDigits(n, 10) == [n % 10] + RevDigits(n / 10, 10)
  {
  }

  /** The low four digits and the rest. */
  lemma RevFour(n: nat)
    requires n >= 10000
    ensures RevDigits(n, 10) == Pad(n % 10000, 4) + RevDigits(n / 10000, 10)
  {
    hide RevDigits, Pad;
    var m := n % 10000;
    FourDigits(m);
    RevStep(n);
    RevStep(n / 10);
    RevStep(n / 10 / 10);
    RevStep(n / 10 / 10 / 10);
    assert n / 10 / 10 / 10 / 10 == n / 10000;
    LowDigits(n);
  }

  lemma LowDigits(n: nat)
    ensures var m := n % 10000;
      m % 10 == n % 10 && m / 10 % 10 == n / 10 % 10 && m / 100 % 10 == n / 10 / 10 % 10 &&
      m / 1000 % 10 == n / 10 / 10 / 10 % 10
  {
    var a, m := n / 10000, n % 10000;
    assert n == 10000 * a + m;
    assert n / 10 == 1000 * a + m / 10;
    assert n / 10 / 10 == 100 * a + m / 100;
    assert n / 10 / 10 / 10 == 10 * a + m / 1000;
  }

  // ---------------------------------------------------------------- the buffer

  function Chr(d: nat): char
    requires d < 10
  {
    ('0' as int + d) as char
  }

  function Chars(ds: seq<nat>): (r: seq<char>)
    requires forall i :: 0 <= i < |ds| ==> ds[i] < 10
    ensures |r| == |ds|
  {
    seq(|ds|, i requires 0 <= i < |ds| => Chr(ds[i]))
  }

  method Tenth4(q: nat) returns (r: nat)
    requires q < 10000
    ensures 0 <= q - 10 * r < 10 && r < 1000
  {
    TenthOf4(q);
    r := q * 0xccd / 0x8000;
  }

  method Tenth3(q: nat) returns (r: nat)
    requires q < 1000
    ensures 0 <= q - 10 * r < 10 && r < 100
  {
    TenthOf3(q);
    r := q * 0xcd / 0x800;
  }

  /** a, b and c are q divided by 10 once, twice and three times. */
  ghost predicate Tenths(q: int, a: int, b: int, c: int) {
    0 <= q - 10 * a < 10 && 0 <= a - 10 * b < 10 && 0 <= b - 10 * c < 10 && c >= 0
  }

  lemma TenthsAre(q: nat, a: nat, b: nat, c: nat)
    requires Tenths(q, a, b, c)
    ensures a == q / 10 && b == q / 10 / 10 && c == q / 10 / 10 / 10
  {
  }

  lemma FourSteps(q: nat, a: nat, b: nat, c: nat)
    requires q < 10000 && Tenths(q, a, b, c)
    ensures c < 10 && Pad(q, 4) == [q - 10 * a, a - 10 * b, b - 10 * c, c]
  {
    TenthsAre(q, a, b, c);
    FourDigits(q);
  }

  /** The four quotients and remainders of put_dec_full4. */
  method Digits4(q0: nat) returns (d0: nat, d1: nat, d2: nat, d3: nat)
    requires q0 < 10000
    ensures d0 < 10 && d1 < 10 && d2 < 10 && d3 < 10 && [d0, d1, d2, d3] == Pad(q0, 4)
  {
    hide Pad;
    var a := Tenth4(q0);
    d0 := q0 - 10 * a;
    var b := Tenth3(a);
    d1 := a - 10 * b;
    var c := Tenth3(b);
    d2 := b - 10 * c;
    d3 := c;
    FourSteps(q0, a, b, c);
  }

  /** Four digits of q, lowest first. */
  method PutDecFull4(buf: array<char>, at: nat, q: nat)
    requires q < 10000 && at + 4 <= buf.Length
    modifies buf
    ensures buf[at..at + 4] == Chars(Pad(q, 4))
    ensures buf[..at] == old(buf[..at]) && buf[at + 4..] == old(buf[at + 4..])
  {
    hide Pad;
    var d0, d1, d2, d3 := Digits4(q);
    buf[at] := ('0' as int + d0) as char;
    buf[at + 1] := ('0' as int + d1) as char;
    buf[at + 2] := ('0' as int + d2) as char;
    buf[at + 3] := ('0' as int + d3) as char;
    assert buf[at..at + 4] == [Chr(d0), Chr(d1), Chr(d2), Chr(d3)] == Chars([d0, d1, d2, d3]);
  }

  /** The low four digits go to the buffer, the rest is returned. */
  method PutDecHelper4(buf: array<char>, at: nat, x: nat) returns (q: nat)
    requires x < 1_128_869_999 && at + 4 <= buf.Length
    modifies buf
    ensures q == x / 10000 && buf[at..at + 4] == Chars(Pad(x % 10000, 4))
    ensures buf[..at] == old(buf[..at]) && buf[at + 4..] == old(buf[at + 4..])
  {
    TenThousandth(x);
    q := x * 0x346DC5D7 / 0x800_0000_0000;
    PutDecFull4(buf, at, x - q * 10000);
  }

  ghost predicate Decimal(ds: seq<nat>) {
    forall i :: 0 <= i < |ds| ==> ds[i] < 10
  }

  /** Writes one digit and moves on. */
  method PutDigit(buf: array<char>, ghost at: nat, pos: nat, d: nat, ghost ds: seq<nat>) returns (next: nat)
    requires at <= pos < buf.Length && d < 10 && Decimal(ds) && buf[at..pos] == Chars(ds)
    modifies buf
    ensures next == pos + 1 && Decimal(ds + [d]) && buf[at..next] == Chars(ds + [d])
    ensures buf[..at] == old(buf[..at])
  {
    buf[pos] := ('0' as int + d) as char;
    next := pos + 1;
    assert buf[at..next] == old(buf[at..pos]) + [Chr(d)];
    assert Chars(ds + [d]) == Chars(ds) + [Chr(d)];
  }

  /** One digit off, a being r divided by 10. */
  lemma RevCons(r: nat, a: nat)
    requires 0 <= r - 10 * a < 10
    ensures RevDigits(r, 10) == if a == 0 then [r] else [r - 10 * a] + RevDigits(a, 10)
  {
    if a > 0 {
      RevStep(r);
    }
  }

  /** One digit moved from the number to the output. */
  lemma MoveDigit(ds: seq<nat>, r: nat, a: nat)
    requires 0 <= r - 10 * a < 10
    ensures ds + RevDigits(r, 10) == if a == 0 then ds + [r] else (ds + [r - 10 * a]) + RevDigits(a, 10)
  {
    hide RevDigits;
    RevCons(r, a);
    if a > 0 {
      assert ds + ([r - 10 * a] + RevDigits(a, 10)) == (ds + [r - 10 * a]) + RevDigits(a, 10);
    }
  }

  /** The last one to four digits, with the early returns. */
  method PutTail(buf: array<char>, ghost at: nat, pos: nat, r0: nat, ghost ds: seq<nat>) returns (end: nat)
    requires at <= pos && pos + 4 <= buf.Length && r0 < 10000 && Decimal(ds) && buf[at..pos] == Chars(ds)
    modifies buf
    ensures pos < end <= pos + 4 && Decimal(ds + RevDigits(r0, 10)) && buf[at..end] == Chars(ds + RevDigits(r0, 10))
    ensures buf[..at] == old(buf[..at])
  {
    hide RevDigits, Chars, Decimal;
    var a := TenthTail(r0);
    MoveDigit(ds, r0, a);
    end := PutDigit(buf, at, pos, r0 - 10 * a, ds);
    if a != 0 {
      end := PutThree(buf, at, end, a, ds + [r0 - 10 * a]);
    }
  }

  /** The last one to three of them. */
  method PutThree(buf: array<char>, ghost at: nat, pos: nat, a: nat, ghost ds: seq<nat>) returns (end: nat)
    requires at <= pos && pos + 3 <= buf.Length && 0 < a < 1000 && Decimal(ds) && buf[at..pos] == Chars(ds)
    modifies buf
    ensures pos < end <= pos + 3 && Decimal(ds + RevDigits(a, 10)) && buf[at..end] == Chars(ds + RevDigits(a, 10))
    ensures buf[..at] == old(buf[..at])
  {
    hide RevDigits, Chars, Decimal;
    var b := Tenth3(a);
    MoveDigit(ds, a, b);
    end := PutDigit(buf, at, pos, a - 10 * b, ds);
    if b == 0 {
      return;
    }
    ghost var d2 := ds + [a - 10 * b];
    var c := Tenth3(b);
    MoveDigit(d2, b, c);
    end := PutDigit(buf, at, end, b - 10 * c, d2);
    if c == 0 {
      return;
    }
    ghost var d3 := d2 + [b - 10 * c];
    MoveDigit(d3, c, 0);
    end := PutDigit(buf, at, end, c, d3);
  }

  method TenthTail(r: nat) returns (q: nat)
    requires r < 10000
    ensures 0 <= r - 10 * q < 10 && q < 1000
  {
    TenthOf4(r);
    q := r * 0x199a / 0x1_0000;
  }

  /** 10^(8 - k). */
  function Limit(k: nat): nat {
    if k == 0 then 100_000_000
    else if k == 1 then 10_000_000
    else if k == 2 then 1_000_000
    else if k == 3 then 100_000
    else 10_000
  }

  /** All digits of r, lowest first, without leading zeros. */
  method PutDecTrunc8(buf: array<char>, at: nat, r0: nat) returns (end: nat)
    requires r0 < 100_000_000 && at + 8 <= buf.Length
    modifies buf
    ensures at < end <= at + 8 && Decimal(RevDigits(r0, 10)) && buf[at..end] == Chars(RevDigits(r0, 10))
    ensures buf[..at] == old(buf[..at])
  {
    hide RevDigits, Chars;
    var r: nat, pos: nat := r0, at;
    ghost var ds: seq<nat> := [];
    NoChars(buf, at);
    assert ds + RevDigits(r, 10) == RevDigits(r0, 10);
    while r >= 10000
      invariant at <= pos <= at + 4 && r < Limit(pos - at) && Decimal(ds) && buf[at..pos] == Chars(ds)
      invariant ds + RevDigits(r, 10) == RevDigits(r0, 10) && buf[..at] == old(buf[..at])
      decreases r
    {
      RevStep(r);
      TenthOf8(r);
      var q := r * 0x1999999a / 0x1_0000_0000;
      assert ds + ([r % 10] + RevDigits(q, 10)) == (ds + [r % 10]) + RevDigits(q, 10);
      pos := PutDigit(buf, at, pos, r - 10 * q, ds);
      ds := ds + [r % 10];
      r := q;
    }
    end := PutTail(buf, at, pos, r, ds);
  }

  lemma NoChars(buf: array<char>, at: nat)
    requires at <= buf.Length
    ensures buf[at..at] == Chars([])
  {
  }

  // ---------------------------------------------------------------- put_dec

  /**
   The sixteen-bit parts of n regrouped by powers of 10000; no intermediate value reaches the limit of the
   quotient.
   */
  lemma Regroup(n: nat, d0: nat, d1: nat, d2: nat, d3: nat, q0: nat, q1: nat, q2: nat, q3: nat)
    requires n == d0 + 0x1_0000 * d1 + 0x1_0000_0000 * d2 + 0x1_0000_0000_0000 * d3
    requires d0 < 0x1_0000 && d1 < 0x1_0000 && d2 < 0x1_0000 && d3 < 0x1_0000
    requires q0 == 656 * d3 + 7296 * d2 + 5536 * d1 + d0
    requires q1 == q0 / 10000 + 7671 * d3 + 9496 * d2 + 6 * d1
    requires q2 == q1 / 10000 + 4749 * d3 + 42 * d2
    requires q3 == q2 / 10000 + 281 * d3
    ensures n == q0 % 10000 + 10000 * (q1 % 10000) + 100_000_000 * (q2 % 10000) + 1_000_000_000_000 * q3
    ensures q0 <= 1_125_520_955 && q1 <= 1_125_520_955 && q2 <= 1_125_520_955 && q3 < 100_000_000
  {
  }

  /** The largest value asked of the helper is reached. */
  lemma LargestAsked()
    ensures var d := 0xffff; (656 * d + 7296 * d + 5536 * d + d) / 10000 + 7671 * d + 9496 * d + 6 * d == 1_125_520_955
  {
  }

  lemma Groups(n: nat, r0: nat, m: nat)
    requires n == r0 + 10000 * m && r0 < 10000 && m > 0
    ensures RevDigits(n, 10) == Pad(r0, 4) + RevDigits(m, 10)
  {
    hide RevDigits, Pad;
    RevFour(n);
  }

  lemma FourGroups(n: nat, r0: nat, r1: nat, r2: nat, m: nat)
    requires n == r0 + 10000 * r1 + 100_000_000 * r2 + 1_000_000_000_000 * m && r0 < 10000 && r1 < 10000 &&
      r2 < 10000 && m > 0
    ensures RevDigits(n, 10) == Pad(r0, 4) + Pad(r1, 4) + Pad(r2, 4) + RevDigits(m, 10)
  {
    hide RevDigits, Pad;
    Groups(n, r0, r1 + 10000 * r2 + 100_000_000 * m);
    Groups(r1 + 10000 * r2 + 100_000_000 * m, r1, r2 + 10000 * m);
    Groups(r2 + 10000 * m, r2, m);
    Regrouped(Pad(r0, 4), Pad(r1, 4), Pad(r2, 4), RevDigits(m, 10));
  }

  lemma ThreeGroups(n: nat, r0: nat, r1: nat, r2: nat)
    requires n == r0 + 10000 * r1 + 100_000_000 * r2 && r0 < 10000 && r1 < 10000 && 0 < r2 < 10000
    ensures RevDigits(n, 10) == Pad(r0, 4) + Pad(r1, 4) + RevDigits(r2, 10)
  {
    hide RevDigits, Pad;
    Groups(n, r0, r1 + 10000 * r2);
    Groups(r1 + 10000 * r2, r1, r2);
    Regrouped(Pad(r0, 4), Pad(r1, 4), RevDigits(r2, 10), []);
  }

  lemma Regrouped(a: seq<nat>, b: seq<nat>, c: seq<nat>, d: seq<nat>)
    ensures a + (b + (c + d)) == a + b + c + d == a + b + (c + d) && a + (b + c) == a + b + c
  {
  }

  ghost predicate Zeros(ds: seq<nat>) {
    forall i :: 0 <= i < |ds| ==> ds[i] == 0
  }

  /** Padding only adds leading zeros. */
  lemma PadIsRev(r: nat) returns (z: seq<nat>)
    requires 0 < r < 10000
    ensures Pad(r, 4) == RevDigits(r, 10) + z && Zeros(z)
  {
    hide RevDigits;
    var a, b, c := r / 10, r / 10 / 10, r / 10 / 10 / 10;
    FourSteps(r, a, b, c);
    RevCons(r, a);
    RevCons(a, b);
    RevCons(b, c);
    RevCons(c, 0);
    z := Pad(r, 4)[|RevDigits(r, 10)|..];
  }

  /** Steps back over the leading zeros of a number that is not zero. */
  method DropZeros(buf: array<char>, at: nat, end0: nat, ghost ds: seq<nat>, ghost z: seq<nat>) returns (end: nat)
    requires at <= end0 <= buf.Length && Decimal(ds) && Decimal(z) && Zeros(z) && ds != [] && ds[|ds| - 1] != 0
    requires buf[at..end0] == Chars(ds + z)
    ensures end == at + |ds| <= end0 && buf[at..end] == Chars(ds)
  {
    end := end0;
    ghost var t := buf[at..end0];
    assert |t| == |ds| + |z|;
    assert buf[at + |ds| - 1] == t[|ds| - 1] == Chr(ds[|ds| - 1]);
    assert forall i :: |ds| <= i < |t| ==> buf[at + i] == t[i] == Chr((ds + z)[i]) == '0';
    while buf[end - 1] == '0'
      invariant at + |ds| <= end <= end0
      decreases end
    {
      end := end - 1;
    }
    ghost var k := end - 1 - at;
    assert buf[at + k] != '0';
    assert buf[at..end] == t[..|ds|] == Chars(ds);
  }

  lemma CharsConcat(a: seq<nat>, b: seq<nat>)
    requires Decimal(a) && Decimal(b)
    ensures Decimal(a + b) && Chars(a + b) == Chars(a) + Chars(b)
  {
  }

  /** Adjoining stretches of the buffer. */
  lemma Adjoin(buf: array<char>, at: nat, mid: nat, end: nat, a: seq<nat>, b: seq<nat>)
    requires at <= mid <= end <= buf.Length && Decimal(a) && Decimal(b)
    requires buf[at..mid] == Chars(a) && buf[mid..end] == Chars(b)
    ensures Decimal(a + b) && buf[at..end] == Chars(a + b)
  {
    hide Chars;
    CharsConcat(a, b);
    assert buf[at..end] == buf[at..mid] + buf[mid..end];
  }

  lemma SlicePrefix(buf: array<char>, at: nat, mid: nat, before: seq<char>)
    requires at <= mid <= buf.Length && |before| == mid && buf[..mid] == before
    ensures buf[at..mid] == before[at..] && buf[..at] == before[..at]
  {
  }

  /** The three groups of four below 10^12, and the rest. */
  method PutTwelve(buf: array<char>, at: nat, n: nat) returns (ghost r0: nat, ghost r1: nat, ghost r2: nat, q: nat)
    requires n < 0x1_0000_0000_0000_0000 && at + 12 <= buf.Length
    modifies buf
    ensures n == r0 + 10000 * r1 + 100_000_000 * r2 + 1_000_000_000_000 * q
    ensures r0 < 10000 && r1 < 10000 && r2 < 10000 && q < 100_000_000
    ensures Decimal(Pad(r0, 4) + Pad(r1, 4) + Pad(r2, 4)) &&
      buf[at..at + 12] == Chars(Pad(r0, 4) + Pad(r1, 4) + Pad(r2, 4))
    ensures buf[..at] == old(buf[..at])
  {
    hide Chars, Pad;
    var d0, d1, d2, d3 := SixteenBits(n);
    var q0 := 656 * d3 + 7296 * d2 + 5536 * d1 + d0;
    ghost var q1: nat := q0 / 10000 + 7671 * d3 + 9496 * d2 + 6 * d1;
    ghost var q2: nat := q1 / 10000 + 4749 * d3 + 42 * d2;
    Regroup(n, d0, d1, d2, d3, q0, q1, q2, q2 / 10000 + 281 * d3);
    r0, r1, r2 := q0 % 10000, q1 % 10000, q2 % 10000;
    q := PutGroup(buf, at, at, q0, []);
    assert [] + Pad(r0, 4) == Pad(r0, 4);
    q := q + 7671 * d3 + 9496 * d2 + 6 * d1;
    q := PutGroup(buf, at, at + 4, q, Pad(r0, 4));
    q := q + 4749 * d3 + 42 * d2;
    q := PutGroup(buf, at, at + 8, q, Pad(r0, 4) + Pad(r1, 4));
    q := q + 281 * d3;
  }

  method SixteenBits(n: nat) returns (d0: nat, d1: nat, d2: nat, d3: nat)
    requires n < 0x1_0000_0000_0000_0000
    ensures n == d0 + 0x1_0000 * d1 + 0x1_0000_0000 * d2 + 0x1_0000_0000_0000 * d3
    ensures d0 < 0x1_0000 && d1 < 0x1_0000 && d2 < 0x1_0000 && d3 < 0x1_0000
  {
    Parts(n);
    d1 := n % 0x1_0000_0000 / 0x1_0000;
    var h := n / 0x1_0000_0000;
    d2, d3, d0 := h % 0x1_0000, h / 0x1_0000, n % 0x1_0000_0000 % 0x1_0000;
  }

  lemma Parts(n: nat)
    requires n < 0x1_0000_0000_0000_0000
    ensures var h := n / 0x1_0000_0000;
      n == n % 0x1_0000_0000 % 0x1_0000 + 0x1_0000 * (n % 0x1_0000_0000 / 0x1_0000) +
           0x1_0000_0000 * (h % 0x1_0000) + 0x1_0000_0000_0000 * (h / 0x1_0000)
    ensures n % 0x1_0000_0000 / 0x1_0000 < 0x1_0000 && n / 0x1_0000_0000 / 0x1_0000 < 0x1_0000
  {
  }

  /** put_dec_helper4 after what is already in the buffer. */
  method PutGroup(buf: array<char>, ghost at: nat, pos: nat, x: nat, ghost ds: seq<nat>) returns (q: nat)
    requires at <= pos && pos + 4 <= buf.Length && x < 1_128_869_999 && Decimal(ds)
    requires pos == at + |ds| && (ds == [] || buf[at..pos] == Chars(ds))
    modifies buf
    ensures q == x / 10000 && Decimal(ds + Pad(x % 10000, 4)) && buf[at..pos + 4] == Chars(ds + Pad(x % 10000, 4))
    ensures buf[..at] == old(buf[..at])
  {
    hide Chars, Pad;
    ghost var before := buf[..pos];
    ghost var d := Pad(x % 10000, 4);
    q := PutDecHelper4(buf, pos, x);
    SlicePrefix(buf, at, pos, before);
    if ds == [] {
      assert ds + d == d;
    } else {
      Adjoin(buf, at, pos, pos + 4, ds, d);
    }
  }

  /** put_dec: exactly the decimal digits of n, lowest first, for every 64-bit n. */
  method PutDec(buf: array<char>, at: nat, n: nat) returns (end: nat)
    requires n < 0x1_0000_0000_0000_0000 && at + 20 <= buf.Length
    modifies buf
    ensures at < end <= at + 20 && Decimal(RevDigits(n, 10)) && buf[at..end] == Chars(RevDigits(n, 10))
    ensures buf[..at] == old(buf[..at])
  {
    hide RevDigits, Chars, Pad;
    if n < 100_000_000 {
      end := PutDecTrunc8(buf, at, n);
      return;
    }
    var r0, r1, r2, q := PutTwelve(buf, at, n);
    if q != 0 {
      FourGroups(n, r0, r1, r2, q);
      ghost var low := Pad(r0, 4) + Pad(r1, 4) + Pad(r2, 4);
      ghost var before := buf[..at + 12];
      assert before[at..] == buf[at..at + 12];
      end := PutDecTrunc8(buf, at + 12, q);
      SlicePrefix(buf, at, at + 12, before);
      Adjoin(buf, at, at + 12, end, low, RevDigits(q, 10));
    } else {
      ThreeGroups(n, r0, r1, r2);
      RevDigitsCanonical(n, 10);
      ghost var z := PadIsRev(r2);
      Regrouped(Pad(r0, 4), Pad(r1, 4), RevDigits(r2, 10), z);
      end := DropZeros(buf, at, at + 12, RevDigits(n, 10), z);
    }
  }
}
