/** The parts of JavaScript's number-to-text conversion the renderer uses:
    `code.toString(16)` for byte values and the template literal `${n}` for
    invocation codes, on integers. */
module Strings {

  /** The digit character for `d` in bases up to 16, lower case as
      JavaScript writes it. */
  function DigitChar(d: nat): char
    requires d < 16
  {
    if d < 10 then ('0' as int + d) as char else ('a' as int + d - 10) as char
  }

  predicate IsDigitChar(c: char, base: nat)
  {
    ('0' <= c <= '9' && (c as int - '0' as int) < base) ||
    ('a' <= c <= 'f' && (c as int - 'a' as int) + 10 < base)
  }

  function DigitValue(c: char): nat
  {
    if '0' <= c <= '9' then c as int - '0' as int
    else if 'a' <= c <= 'f' then c as int - 'a' as int + 10
    else 0
  }

  /** Dividing by a base of at least 2 makes a number of at least that
      base smaller, and leaves a remainder below the base. */
  lemma DivMod(n: nat, base: nat)
    requires 2 <= base <= n
    ensures n / base < n && n % base < base
    ensures n == (n / base) * base + n % base
  {
  }

  /** `n` written in `base` without leading zeros ("0" for zero). */
  function Digits(n: nat, base: nat): (s: string)
    requires 2 <= base <= 16
    ensures |s| >= 1
    ensures forall i :: 0 <= i < |s| ==> IsDigitChar(s[i], base)
    decreases n
  {
    if n < base then [DigitChar(n)]
    else
      DivMod(n, base);
      Digits(n / base, base) + [DigitChar(n % base)]
  }

  /** The value of a string of digits in `base`. */
  function DigitsValue(s: string, base: nat): nat
  {
    if s == [] then 0
    else DigitsValue(s[..|s| - 1], base) * base + DigitValue(s[|s| - 1])
  }

  lemma DigitCharValue(d: nat)
    requires d < 16
    ensures DigitValue(DigitChar(d)) == d
  {
  }

  /** One more low digit multiplies the value by the base and adds the
      digit. */
  lemma {:induction false} DigitsValueStep(n: nat, base: nat, front: string, s: string)
    requires 2 <= base <= n && base <= 16
    requires s == front + [DigitChar(n % base)] && DigitsValue(front, base) == n / base
    ensures DigitsValue(s, base) == n
  {
    DivMod(n, base);
    assert s[..|s| - 1] == front;
    DigitCharValue(n % base);
  }

  /** Reading the digits back gives the number. */
  lemma {:induction false} DigitsRoundTrip(n: nat, base: nat)
    requires 2 <= base <= 16
    ensures DigitsValue(Digits(n, base), base) == n
    decreases n
  {
    if n < base {
      assert Digits(n, base)[..0] == [];
      DigitCharValue(n);
    } else {
      DigitsRoundTrip(n / base, base);
      DigitsValueStep(n, base, Digits(n / base, base), Digits(n, base));
    }
  }

  /** One hex digit below 16, two from 16 to 255. */
  lemma HexDigitsLength(n: nat)
    requires n < 256
    ensures |Digits(n, 16)| == if n < 16 then 1 else 2
  {
    if n >= 16 {
      assert n / 16 < 16;
    }
  }

  /** The template literal of an integer: decimal digits, with a minus sign
      when negative. */
  function NumberText(n: int): string
  {
    if n < 0 then "-" + Digits(-n, 10) else Digits(n, 10)
  }

  /** Reads an integer written by `NumberText`. */
  function ParseNumber(s: string): int
  {
    if |s| > 0 && s[0] == '-' then -(DigitsValue(s[1..], 10) as int) else DigitsValue(s, 10)
  }

  lemma NumberRoundTrip(n: int)
    ensures ParseNumber(NumberText(n)) == n
    ensures forall i :: 0 <= i < |NumberText(n)| ==>
      NumberText(n)[i] == '-' || IsDigitChar(NumberText(n)[i], 10)
  {
    if n < 0 {
      DigitsRoundTrip(-n, 10);
      assert NumberText(n)[1..] == Digits(-n, 10);
    } else {
      DigitsRoundTrip(n, 10);
    }
  }
}
