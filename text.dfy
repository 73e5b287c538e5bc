/**
 * The two pieces of C text handling the decoder relies on: printf-style
 * rendering of an unsigned number in lowercase hexadecimal ("%x") or decimal
 * ("%d"), and atoi(), which the FIXn format uses to read its digit count.
 */
module Text {

  const HEX_DIGITS: string := "0123456789abcdef"

  predicate IsDecimalDigit(c: char) {
    '0' <= c <= '9'
  }

  predicate IsLowerHexDigit(c: char) {
    IsDecimalDigit(c) || 'a' <= c <= 'f'
  }

  function DigitChar(d: nat): (c: char)
    requires d < 16
    ensures IsLowerHexDigit(c)
  {
    HEX_DIGITS[d]
  }

  function DigitValue(c: char): (d: nat)
    requires IsLowerHexDigit(c)
    ensures d < 16
  {
    if IsDecimalDigit(c) then (c - '0') as nat else (c - 'a') as nat + 10
  }

  lemma DigitValueOfChar(d: nat)
    requires d < 16
    ensures DigitValue(DigitChar(d)) == d
  {
  }

  /** A digit of the given radix (10 or 16): lowercase only, as printf emits them. */
  predicate IsDigitOf(c: char, radix: nat) {
    IsLowerHexDigit(c) && DigitValue(c) < radix
  }

  predicate AllDigitsOf(s: string, radix: nat) {
    forall i :: 0 <= i < |s| ==> IsDigitOf(s[i], radix)
  }

  /**
   * printf's rendering of n in radix 10 or 16: at least one digit, no
   * leading zero unless n is zero.
   */
  function Render(n: nat, radix: nat): (s: string)
    requires radix == 10 || radix == 16
    ensures |s| >= 1 && AllDigitsOf(s, radix)
    ensures s[0] == '0' <==> n == 0
    decreases n
  {
    DigitValueOfChar(n % radix);
    if n < radix then [DigitChar(n)]
    else Render(n / radix, radix) + [DigitChar(n % radix)]
  }

  /** "%x" on an unsigned value. */
  function Hex(n: nat): string {
    Render(n, 16)
  }

  /** "%d" on a non-negative value. */
  function Dec(n: nat): string {
    Render(n, 10)
  }

  /** The value a string of digits denotes in the given radix. */
  function ParseDigits(s: string, radix: nat): nat
    requires AllDigitsOf(s, radix)
  {
    if s == [] then 0
    else ParseDigits(s[..|s| - 1], radix) * radix + DigitValue(s[|s| - 1])
  }

  lemma ParseDigitsSnoc(s: string, c: char, radix: nat)
    requires AllDigitsOf(s, radix) && IsDigitOf(c, radix)
    ensures AllDigitsOf(s + [c], radix)
    ensures ParseDigits(s + [c], radix) == ParseDigits(s, radix) * radix + DigitValue(c)
  {
    assert (s + [c])[..|s|] == s;
  }

  lemma DivMod(n: nat, radix: nat)
    requires radix == 10 || radix == 16
    ensures n == (n / radix) * radix + n % radix
  {
    if radix == 10 { } else { }
  }

  /** Rendering is invertible: reading the digits back gives the number. */
  lemma {:induction false} ParseRender(n: nat, radix: nat)
    requires radix == 10 || radix == 16
    ensures ParseDigits(Render(n, radix), radix) == n
    decreases n
  {
    if n >= radix {
      var q, d := n / radix, n % radix;
      RenderStep(n, radix);
      ParseRender(q, radix);
      DigitValueOfChar(d);
      ParseDigitsSnoc(Render(q, radix), DigitChar(d), radix);
      DivMod(n, radix);
    } else {
      DigitValueOfChar(n);
      assert [DigitChar(n)] == [] + [DigitChar(n)];
      ParseDigitsSnoc([], DigitChar(n), radix);
    }
  }

  /** The last digit of a multi-digit rendering is the remainder. */
  lemma RenderStep(n: nat, radix: nat)
    requires (radix == 10 || radix == 16) && n >= radix
    ensures Render(n, radix) == Render(n / radix, radix) + [DigitChar(n % radix)]
  {
  }

  /** So "%x" and "%d" never print two numbers the same way. */
  lemma RenderInjective(a: nat, b: nat, radix: nat)
    requires radix == 10 || radix == 16
    requires Render(a, radix) == Render(b, radix)
    ensures a == b
  {
    ParseRender(a, radix);
    ParseRender(b, radix);
  }

  // ---------------------------------------------------------------- atoi

  /** isspace() in the C locale: space, \t, \n, \v, \f, \r. */
  predicate IsCSpace(c: char) {
    c == ' ' || c == '\t' || c == '\n' || c == '\r' || c as int == 11 || c as int == 12
  }

  function SkipSpaces(s: string): (t: string)
    ensures t == [] || !IsCSpace(t[0])
  {
    if s != [] && IsCSpace(s[0]) then SkipSpaces(s[1..]) else s
  }

  /** The longest prefix of decimal digits. */
  function DigitRun(s: string): (d: string)
    ensures AllDigitsOf(d, 10)
  {
    if s != [] && IsDecimalDigit(s[0]) then [s[0]] + DigitRun(s[1..]) else []
  }

  /**
   * atoi(): leading white space, an optional sign, then as many decimal
   * digits as follow; 0 when there are none.
   */
  function Atoi(s: string): int {
    var t := SkipSpaces(s);
    if t != [] && t[0] == '-' then -(ParseDigits(DigitRun(t[1..]), 10) as int)
    else if t != [] && t[0] == '+' then ParseDigits(DigitRun(t[1..]), 10)
    else ParseDigits(DigitRun(t), 10)
  }

  lemma {:induction false} DigitRunOfDigits(d: string, rest: string)
    requires AllDigitsOf(d, 10)
    requires rest == [] || !IsDecimalDigit(rest[0])
    ensures DigitRun(d + rest) == d
  {
    if d != [] {
      assert (d + rest)[1..] == d[1..] + rest;
      DigitRunOfDigits(d[1..], rest);
    } else {
      assert d + rest == rest;
    }
  }

  lemma AtoiOfDigits(d: string, rest: string)
    requires d != [] && AllDigitsOf(d, 10)
    requires rest == [] || !IsDecimalDigit(rest[0])
    ensures Atoi(d + rest) == ParseDigits(d, 10)
  {
    var s := d + rest;
    assert IsDigitOf(d[0], 10);
    assert s[0] == d[0] && IsDecimalDigit(s[0]);
    assert SkipSpaces(s) == s;
    DigitRunOfDigits(d, rest);
    assert DigitRun(s) == d;
    assert s[0] != '-' && s[0] != '+';
    assert Atoi(s) == ParseDigits(d, 10);
  }

  /** atoi reads back what "%d" printed, whatever non-digit text follows. */
  lemma AtoiOfDec(n: nat, rest: string)
    requires rest == [] || !IsDecimalDigit(rest[0])
    ensures Atoi(Dec(n) + rest) == n
  {
    AtoiOfDigits(Dec(n), rest);
    ParseRender(n, 10);
  }

  /** ... and a leading minus sign negates it. */
  lemma AtoiOfNegativeDec(n: nat)
    ensures Atoi("-" + Dec(n)) == -(n as int)
  {
    var s := "-" + Dec(n);
    assert SkipSpaces(s) == s;
    assert s[1..] == Dec(n) + [];
    DigitRunOfDigits(Dec(n), []);
    ParseRender(n, 10);
  }

  /** Text that does not start with a sign or a digit reads as 0. */
  lemma AtoiNoDigits(s: string)
    requires s == [] || (!IsCSpace(s[0]) && !IsDecimalDigit(s[0]) && s[0] != '-' && s[0] != '+')
    ensures Atoi(s) == 0
  {
  }
}
