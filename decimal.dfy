/** Decimal rendering of integers, as Python's f-string formatting
    (`f"{window}"`, `f"hour_{h}"`) produces it. Column names are built from
    these strings, so the model needs to know that distinct numbers give
    distinct names. */
module Decimal {

  function DigitChar(d: nat): char
    requires d < 10
  {
    "0123456789"[d]
  }

  /** Base-10 digits of `n`, most significant first, without leading zeros. */
  function NatToString(n: nat): (s: string)
    ensures 1 <= |s|
    ensures n < 10 <==> |s| == 1
    decreases n
  {
    if n < 10 then [DigitChar(n)] else NatToString(n / 10) + [DigitChar(n % 10)]
  }

  /** `str(i)` for a Python int: a leading '-' for negative numbers. */
  function IntToString(i: int): (s: string)
    ensures 1 <= |s|
  {
    if i < 0 then "-" + NatToString(-i) else NatToString(i)
  }

  lemma DigitCharInjective(a: nat, b: nat)
    requires a < 10 && b < 10 && DigitChar(a) == DigitChar(b)
    ensures a == b
  {
  }

  lemma {:induction false} NatToStringInjective(a: nat, b: nat)
    requires NatToString(a) == NatToString(b)
    ensures a == b
    decreases a
  {
    var s := NatToString(a);
    assert s[|s| - 1] == DigitChar(a % 10);
    assert s[|s| - 1] == DigitChar(b % 10);
    DigitCharInjective(a % 10, b % 10);
    if a >= 10 && b >= 10 {
      assert NatToString(a / 10) == s[..|s| - 1] == NatToString(b / 10);
      NatToStringInjective(a / 10, b / 10);
    }
  }

  /** No digit string starts with '-', so the sign never collides with a digit. */
  lemma {:induction false} NatToStringStartsWithDigit(n: nat)
    ensures NatToString(n)[0] != '-'
    decreases n
  {
    if n >= 10 {
      NatToStringStartsWithDigit(n / 10);
    }
  }

  lemma IntToStringInjective(a: int, b: int)
    requires IntToString(a) == IntToString(b)
    ensures a == b
  {
    if a < 0 && b < 0 {
      assert NatToString(-a) == IntToString(a)[1..] == NatToString(-b);
      NatToStringInjective(-a, -b);
    } else if a < 0 {
      NatToStringStartsWithDigit(b);
    } else if b < 0 {
      NatToStringStartsWithDigit(a);
    } else {
      NatToStringInjective(a, b);
    }
  }
}
