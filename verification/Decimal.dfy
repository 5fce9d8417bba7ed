/** Decimal numbers as the protocol writes them ("%ld") and reads them (atol). */
module Decimal {
  predicate IsDigit(c: char) { '0' <= c <= '9' }

  function Digit(n: nat): (c: char)
    requires n < 10
    ensures IsDigit(c) && ValueOf(c) == n
  {
    '0' + n as char
  }

  function ValueOf(c: char): nat
    requires IsDigit(c)
  {
    (c - '0') as int
  }

  function Digits(n: nat): (s: string)
    ensures s != [] && forall c :: c in s ==> IsDigit(c)
  {
    if n < 10 then [Digit(n)] else Digits(n / 10) + [Digit(n % 10)]
  }

  function Print(n: int): string {
    if n < 0 then "-" + Digits(-n) else Digits(n)
  }

  /** The value of the leading digits of `s`, after `acc`. */
  function ReadDigits(s: string, acc: nat): nat
    decreases |s|
  {
    if s == [] || !IsDigit(s[0]) then acc else ReadDigits(s[1..], acc * 10 + ValueOf(s[0]))
  }

  /** White space as the C library has it: blank, tab, line feed, vertical tab, form feed, carriage return. */
  predicate IsSpace(c: char) {
    c == ' ' || '\t' <= c <= '\r'
  }

  function SkipBlanks(s: string): string {
    if s != [] && IsSpace(s[0]) then SkipBlanks(s[1..]) else s
  }

  /** Leading white space, an optional sign, digits; anything else reads as zero. */
  function Atol(s: string): int {
    var t := SkipBlanks(s);
    if t != [] && t[0] == '-' then 0 - (ReadDigits(t[1..], 0) as int)
    else if t != [] && t[0] == '+' then ReadDigits(t[1..], 0)
    else ReadDigits(t, 0)
  }

  lemma {:induction false} ReadAppend(a: string, b: string, acc: nat)
    requires forall c :: c in a ==> IsDigit(c)
    ensures ReadDigits(a + b, acc) == ReadDigits(b, ReadDigits(a, acc))
    decreases |a|
  {
    if a == [] {
      assert a + b == b;
    } else {
      assert a[0] in a;
      assert (a + b)[1..] == a[1..] + b;
      ReadAppend(a[1..], b, acc * 10 + ValueOf(a[0]));
    }
  }

  lemma {:induction false} ReadPrinted(n: nat)
    ensures ReadDigits(Digits(n), 0) == n
  {
    if n < 10 {
      assert [Digit(n)][1..] == [];
    } else {
      ReadPrinted(n / 10);
      ReadAppend(Digits(n / 10), [Digit(n % 10)], 0);
      assert [Digit(n % 10)][1..] == [];
    }
  }

  /** A printed number reads back, whatever follows it but a digit. */
  lemma AtolPrint(n: int, rest: string)
    requires rest == [] || !IsDigit(rest[0])
    ensures Atol(Print(n) + rest) == n
  {
    var d := Digits(if n < 0 then -n else n);
    assert IsDigit(d[0]) by { assert d[0] in d; }
    ReadPrinted(if n < 0 then -n else n);
    ReadAppend(d, rest, 0);
    if n < 0 {
      assert ("-" + d + rest)[1..] == d + rest;
    }
  }

  /** Numbers are written as usual: the ten digits, one more for each power of ten, a sign in front. */
  lemma PrintedAsUsual(n: int, d: nat)
    requires 0 < n && d < 10
    ensures Print(d) == ["0123456789"[d]] && Print(10 * n + d) == Print(n) + Print(d) && Print(-n) == "-" + Print(n)
  {
    assert (10 * n + d) / 10 == n && (10 * n + d) % 10 == d;
  }

  /** White space in front of a number, and a plus sign, make no difference; what begins with no digit reads as zero. */
  lemma AtolSkips(c: char, s: string, n: nat)
    ensures c == ' ' || 9 <= c as int <= 13 ==> Atol([c] + s) == Atol(s)
    ensures Atol("+" + Print(n)) == n
    ensures !IsDigit(c) && c !in " \t\n\r+-" && c as int > 32 ==> Atol([c] + s) == 0
  {
    assert ([c] + s)[1..] == s && ("+" + Print(n))[1..] == Print(n);
    ReadPrinted(n);
  }

  /** A printed number is short and has neither line end in it. */
  lemma {:induction false} PrintPlain(n: nat, width: nat, bound: nat)
    requires width >= 1 && n < bound && bound == Power10(width)
    ensures |Print(n)| <= width
    ensures forall c :: c in Print(n) ==> IsDigit(c)
  {
    if n >= 10 {
      PrintPlain(n / 10, width - 1, Power10(width - 1));
    }
  }

  function Power10(k: nat): (p: nat)
    ensures p >= 1
  {
    if k == 0 then 1 else 10 * Power10(k - 1)
  }
}
