/**
 * The C library number handling the parsers rely on: `strtol(s, NULL, 10)`
 * and `atoi(s)` read a decimal prefix, and `%` truncates toward zero.
 */
module CNumbers {

  /** The characters `isspace` accepts in the "C" locale. */
  predicate IsSpace(c: char)
  {
    c == ' ' || c == '\t' || c == '\n' || c == '\U{0B}' || c == '\U{0C}' || c == '\r'
  }

  predicate IsDigit(c: char)
  {
    '0' <= c <= '9'
  }

  /** What is left of `s` once its leading white space is skipped. */
  function SkipSpace(s: string): (t: string)
    ensures |t| <= |s| && t == s[|s| - |t|..]
    ensures t == [] || !IsSpace(t[0])
    ensures forall k | 0 <= k < |s| - |t| :: IsSpace(s[k])
    decreases |s|
  {
    if |s| > 0 && IsSpace(s[0]) then SkipSpace(s[1..]) else s
  }

  /** The longest prefix of `s` made of decimal digits. */
  function DigitRun(s: string): (ds: string)
    ensures |ds| <= |s| && ds == s[..|ds|]
    ensures forall k | 0 <= k < |ds| :: IsDigit(ds[k])
    ensures |ds| == |s| || !IsDigit(s[|ds|])
    decreases |s|
  {
    if |s| > 0 && IsDigit(s[0]) then [s[0]] + DigitRun(s[1..]) else []
  }

  /** The value of one decimal digit. */
  function DigitValue(c: char): (v: nat)
    requires IsDigit(c)
    ensures v < 10
  {
    c as int - '0' as int
  }

  /** The number a string of decimal digits denotes, most significant first. */
  function DigitsValue(ds: string): nat
    requires forall k | 0 <= k < |ds| :: IsDigit(ds[k])
  {
    if ds == [] then 0
    else DigitsValue(ds[..|ds| - 1]) * 10 + DigitValue(ds[|ds| - 1])
  }

  /**
   * `strtol(s, NULL, 10)`, which is also what `atoi(s)` computes: skip white
   * space, read an optional sign and then as many decimal digits as there are.
   * Without digits the result is 0.
   */
  function ParseLong(s: string): int
  {
    var t := SkipSpace(s);
    if |t| > 0 && t[0] == '-' then 0 - ParseUnsigned(t[1..])
    else if |t| > 0 && t[0] == '+' then ParseUnsigned(t[1..])
    else ParseUnsigned(t)
  }

  /** The value of the decimal digits `s` starts with, 0 when it starts with none. */
  function ParseUnsigned(s: string): nat
  {
    DigitsValue(DigitRun(s))
  }

  /** The decimal digits of `m`, most significant first, without leading zeros. */
  function Digits(m: nat): (ds: string)
    ensures |ds| >= 1
    ensures forall k | 0 <= k < |ds| :: IsDigit(ds[k])
  {
    if m < 10 then [('0' as int + m) as char]
    else Digits(m / 10) + [('0' as int + m % 10) as char]
  }

  /** How `printf("%d", n)` writes `n`. */
  function Render(n: int): (s: string)
    ensures |s| >= 1 && (IsDigit(s[0]) || s[0] == '-')
  {
    if n < 0 then "-" + Digits(-n) else Digits(n)
  }

  /** C's `a / b` for a positive `b`: the quotient is truncated toward zero. */
  function TruncQuot(a: int, b: int): int
    requires b > 0
  {
    if a >= 0 then a / b else -((-a) / b)
  }

  /**
   * C's `a % b` for a positive `b`: the remainder that goes with the truncated
   * quotient (Dafny's own `%` is never negative).
   */
  function TruncRem(a: int, b: int): int
    requires b > 0
  {
    if a >= 0 then a % b else -((-a) % b)
  }

  /**
   * The truncated quotient and remainder divide `a` by `b`: the remainder is
   * smaller than `b` in size and has the sign of `a`.
   */
  lemma TruncDivision(a: int, b: int)
    requires b > 0
    ensures -b < TruncRem(a, b) < b
    ensures a >= 0 ==> TruncRem(a, b) >= 0
    ensures a < 0 ==> TruncRem(a, b) <= 0
    ensures TruncQuot(a, b) * b + TruncRem(a, b) == a
  {
    if a < 0 {
      assert (-a) / b * b + (-a) % b == -a;
    }
  }

  lemma {:induction false} DigitsValueOfDigits(m: nat)
    ensures DigitsValue(Digits(m)) == m
  {
    if m >= 10 {
      var ds := Digits(m);
      assert ds[..|ds| - 1] == Digits(m / 10);
      DigitsValueOfDigits(m / 10);
    }
  }

  /** Reading digits stops exactly where the digits of a number end. */
  lemma {:induction false} DigitRunOfDigits(ds: string, tail: string)
    requires forall k | 0 <= k < |ds| :: IsDigit(ds[k])
    requires tail == [] || !IsDigit(tail[0])
    ensures DigitRun(ds + tail) == ds
    decreases |ds|
  {
    if ds != [] {
      assert (ds + tail)[1..] == ds[1..] + tail;
      DigitRunOfDigits(ds[1..], tail);
    }
  }

  lemma SkipNothing(s: string)
    requires |s| >= 1 && !IsSpace(s[0])
    ensures SkipSpace(s) == s
  {
  }

  /** Unsigned digits followed by a non-digit parse as their value. */
  lemma ParseDigits(ds: string, tail: string)
    requires |ds| >= 1 && forall k | 0 <= k < |ds| :: IsDigit(ds[k])
    requires tail == [] || !IsDigit(tail[0])
    ensures ParseLong(ds + tail) == DigitsValue(ds)
  {
    var s := ds + tail;
    assert s[0] == ds[0];
    LeadingDigit(s);
    UnsignedDigits(ds, tail);
  }

  /** Text that starts with a digit has no space or sign for `strtol` to skip. */
  lemma LeadingDigit(s: string)
    requires |s| >= 1 && IsDigit(s[0])
    ensures ParseLong(s) == ParseUnsigned(s)
  {
    SkipNothing(s);
  }

  /** Digits followed by a non-digit read as their value. */
  lemma UnsignedDigits(ds: string, tail: string)
    requires forall k | 0 <= k < |ds| :: IsDigit(ds[k])
    requires tail == [] || !IsDigit(tail[0])
    ensures ParseUnsigned(ds + tail) == DigitsValue(ds)
  {
    DigitRunOfDigits(ds, tail);
  }

  /** A minus sign and digits followed by a non-digit parse as the negated value. */
  lemma ParseNegatedDigits(ds: string, tail: string)
    requires |ds| >= 1 && forall k | 0 <= k < |ds| :: IsDigit(ds[k])
    requires tail == [] || !IsDigit(tail[0])
    ensures ParseLong("-" + ds + tail) == 0 - DigitsValue(ds)
  {
    var u := ds + tail;
    var s := "-" + u;
    assert s == "-" + ds + tail;
    assert s[0] == '-';
    LeadingMinus(s);
    assert s[1..] == u;
    UnsignedDigits(ds, tail);
  }

  /** Text that starts with a minus sign reads as the negated digits after it. */
  lemma LeadingMinus(s: string)
    requires |s| >= 1 && s[0] == '-'
    ensures ParseLong(s) == 0 - ParseUnsigned(s[1..])
  {
    SkipNothing(s);
  }

  /**
   * `strtol` reads back what `%d` writes, whatever non-digit text follows:
   * the decimal parser is the inverse of the decimal rendering.
   */
  lemma ParseRender(n: int, tail: string)
    requires tail == [] || !IsDigit(tail[0])
    ensures ParseLong(Render(n) + tail) == n
  {
    if n < 0 {
      var ds := Digits(-n);
      assert Render(n) + tail == "-" + ds + tail;
      ParseNegatedDigits(ds, tail);
      DigitsValueOfDigits(-n);
    } else {
      var ds := Digits(n);
      assert Render(n) + tail == ds + tail;
      ParseDigits(ds, tail);
      DigitsValueOfDigits(n);
    }
  }

  /** Text with no decimal digit in it, the empty string among them, parses as 0. */
  lemma NonzeroNeedsDigit(s: string)
    requires forall k | 0 <= k < |s| :: !IsDigit(s[k])
    ensures ParseLong(s) == 0
  {
    var t := SkipSpace(s);
    var skipped := |s| - |t|;
    assert forall k | 0 <= k < |t| :: t[k] == s[skipped + k];
    if |t| > 0 && (t[0] == '-' || t[0] == '+') {
      var u := t[1..];
      assert |u| > 0 ==> u[0] == s[skipped + 1];
      NoLeadingDigit(u);
    } else {
      assert |t| > 0 ==> t[0] == s[skipped];
      NoLeadingDigit(t);
    }
  }

  /** Text that does not start with a digit has no digits to read. */
  lemma NoLeadingDigit(u: string)
    requires |u| == 0 || !IsDigit(u[0])
    ensures ParseUnsigned(u) == 0
  {
    assert DigitRun(u) == [];
  }
}
