/** Decimal numerals: `atoi` and `strtoul` as the C library reads them on a platform
    with 64-bit `long` and 32-bit `int`, and `%d` as it prints them. */
module Numerals {

  const INT_RANGE := 0x1_0000_0000
  const LONG_MAX := 0x7FFF_FFFF_FFFF_FFFF
  const ULONG_MAX := 0xFFFF_FFFF_FFFF_FFFF

  predicate Space(c: char) { c == ' ' || '\t' <= c <= '\r' }

  predicate Digit(c: char) { '0' <= c <= '9' }

  function Face(n: nat): char
    requires n < 10
  {
    '0' + n as char
  }

  function Worth(c: char): nat
    requires Digit(c)
  {
    (c - '0') as nat
  }

  /** The digits at the head of `s`, read after the value `acc`. */
  function Digits(s: string, acc: nat): nat {
    if s == "" || !Digit(s[0]) then acc else Digits(s[1..], 10 * acc + Worth(s[0]))
  }

  function SkipSpace(s: string): string {
    if s != "" && Space(s[0]) then SkipSpace(s[1..]) else s
  }

  datatype Number = Number(negative: bool, magnitude: nat)

  /** White space, an optional sign, digits; what follows is ignored. */
  function Scan(s: string): Number {
    var t := SkipSpace(s);
    if t != "" && t[0] == '-' then Number(true, Digits(t[1..], 0))
    else if t != "" && t[0] == '+' then Number(false, Digits(t[1..], 0))
    else Number(false, Digits(t, 0))
  }

  function Strtol(s: string): int {
    var n := Scan(s);
    if n.negative then (if n.magnitude > LONG_MAX + 1 then -LONG_MAX - 1 else -(n.magnitude as int))
    else if n.magnitude > LONG_MAX then LONG_MAX
    else n.magnitude
  }

  /** `(int)strtol(s)`: the low 32 bits, as a signed value. */
  function Atoi(s: string): int {
    var low := Strtol(s) % INT_RANGE;
    if low >= INT_RANGE / 2 then low - INT_RANGE else low
  }

  function Strtoul(s: string): nat {
    var n := Scan(s);
    if n.magnitude > ULONG_MAX then ULONG_MAX
    else if n.negative then (ULONG_MAX + 1 - n.magnitude) % (ULONG_MAX + 1)
    else n.magnitude
  }

  function Decimal(n: nat): (s: string)
    ensures s != "" && forall c <- s :: Digit(c)
  {
    if n < 10 then [Face(n)] else Decimal(n / 10) + [Face(n % 10)]
  }

  lemma {:induction false} DigitsAppend(s: string, c: char, junk: string, acc: nat)
    requires (forall d <- s :: Digit(d)) && Digit(c) && (junk == "" || !Digit(junk[0]))
    ensures Digits(s + [c] + junk, acc) == 10 * Digits(s, acc) + Worth(c)
    decreases |s|
  {
    var t := s + [c] + junk;
    if s == "" {
      assert t[1..] == junk;
    } else {
      assert t[1..] == s[1..] + [c] + junk;
      DigitsAppend(s[1..], c, junk, 10 * acc + Worth(s[0]));
    }
  }

  lemma {:induction false} DigitsOfDecimal(n: nat, junk: string)
    requires junk == "" || !Digit(junk[0])
    ensures Digits(Decimal(n) + junk, 0) == n
  {
    if n >= 10 {
      DigitsOfDecimal(n / 10, "");
      assert Decimal(n / 10) + "" == Decimal(n / 10);
      DigitsAppend(Decimal(n / 10), Face(n % 10), junk, 0);
    } else {
      assert (Decimal(n) + junk)[1..] == junk;
    }
  }

  lemma {:induction false} SkipsSpace(w: string, s: string)
    requires (forall c <- w :: Space(c)) && (s == "" || !Space(s[0]))
    ensures SkipSpace(w + s) == s
    decreases |w|
  {
    if w != "" {
      assert (w + s)[1..] == w[1..] + s;
      SkipsSpace(w[1..], s);
    } else {
      assert w + s == s;
    }
  }

  /** Reading a numeral after white space and before anything but a digit. */
  lemma NumeralReads(w: string, n: nat, junk: string)
    requires (forall c <- w :: Space(c)) && (junk == "" || !Digit(junk[0]))
    ensures Scan(w + (Decimal(n) + junk)) == Number(false, n)
    ensures Scan(w + (['-'] + (Decimal(n) + junk))) == Number(true, n)
    ensures Scan(w + (['+'] + (Decimal(n) + junk))) == Number(false, n)
  {
    var d := Decimal(n) + junk;
    assert d[0] == Decimal(n)[0] && Digit(d[0]);
    DigitsOfDecimal(n, junk);
    SkipsSpace(w, d);
    SkipsSpace(w, ['-'] + d);
    SkipsSpace(w, ['+'] + d);
    assert (['-'] + d)[1..] == d && (['+'] + d)[1..] == d;
  }

  /** `atoi` and `strtoul` on such texts: exact in range, and a negative number read as
      unsigned counts down from the top. */
  lemma NumberReads(w: string, n: nat, junk: string)
    requires (forall c <- w :: Space(c)) && (junk == "" || !Digit(junk[0]))
    ensures n < INT_RANGE / 2 ==> Atoi(w + (Decimal(n) + junk)) == n
    ensures n <= INT_RANGE / 2 ==> Atoi(w + (['-'] + (Decimal(n) + junk))) == -(n as int)
    ensures Strtoul(w + (Decimal(n) + junk)) == if n <= ULONG_MAX then n else ULONG_MAX
    ensures 0 < n <= ULONG_MAX ==> Strtoul(w + (['-'] + (Decimal(n) + junk))) + n == ULONG_MAX + 1
  {
    NumeralReads(w, n, junk);
    hide Scan, Decimal, Atoi, Strtoul;
    NumberOf(w + (Decimal(n) + junk));
    NumberOf(w + (['-'] + (Decimal(n) + junk)));
  }

  lemma NumberOf(s: string)
    ensures var n := Scan(s);
      && (!n.negative && n.magnitude < INT_RANGE / 2 ==> Atoi(s) == n.magnitude)
      && (n.negative && n.magnitude <= INT_RANGE / 2 ==> Atoi(s) == -(n.magnitude as int))
      && (!n.negative ==> Strtoul(s) == if n.magnitude <= ULONG_MAX then n.magnitude else ULONG_MAX)
      && (n.negative && 0 < n.magnitude <= ULONG_MAX ==> Strtoul(s) + n.magnitude == ULONG_MAX + 1)
  {
    hide Scan;
  }

  /** Without a digit where the number should be, it is 0. */
  lemma NoNumber(w: string, junk: string)
    requires forall c <- w :: Space(c)
    requires junk == "" || !(Digit(junk[0]) || Space(junk[0]) || junk[0] == '-' || junk[0] == '+')
    ensures Atoi(w + junk) == 0 && Strtoul(w + junk) == 0
  {
    SkipsSpace(w, junk);
  }

  /** Printing and reading are inverse within the range of the type read. */
  lemma DecimalReads(n: nat)
    ensures n < INT_RANGE / 2 ==> Atoi(Decimal(n)) == n
    ensures n <= ULONG_MAX ==> Strtoul(Decimal(n)) == n
  {
    NumeralReads("", n, "");
    assert "" + (Decimal(n) + "") == Decimal(n);
  }

  lemma DecimalInjective(m: nat, n: nat)
    ensures Decimal(m) == Decimal(n) <==> m == n
  {
    DigitsOfDecimal(m, "");
    DigitsOfDecimal(n, "");
    assert Decimal(m) + "" == Decimal(m) && Decimal(n) + "" == Decimal(n);
  }
}
