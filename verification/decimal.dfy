/**
 Decimal text of a natural number, as Python's `str` renders a non-negative
 `int` inside an f-string: ASCII digits, most significant first, no sign and
 no leading zeros. Python's limit on the number of digits it converts is not
 modelled: `Dec` renders every natural number. `Parse` is the inverse used to
 prove that the rendering loses nothing, so two nonces never share a text.
 */
module Decimal {

  predicate IsDigit(c: char) {
    '0' <= c <= '9'
  }

  predicate AllDigits(s: string) {
    forall i :: 0 <= i < |s| ==> IsDigit(s[i])
  }

  /** The shape `str(n)` always has: at least one digit, and a leading zero only in "0" itself. */
  predicate Canonical(s: string) {
    && |s| >= 1
    && AllDigits(s)
    && (|s| > 1 ==> s[0] != '0')
  }

  function DigitChar(k: nat): (c: char)
    requires k < 10
    ensures IsDigit(c)
    ensures c == '0' <==> k == 0
  {
    (48 + k) as char
  }

  function DigitValue(c: char): (k: nat)
    requires IsDigit(c)
    ensures k < 10
    ensures DigitChar(k) == c
  {
    c as int - 48
  }

  /** `str(n)` for a non-negative `n`, without Python's digit-count limit. */
  function Dec(n: nat): (s: string)
    ensures Canonical(s)
    ensures s[0] == '0' ==> n == 0
    decreases n
  {
    if n < 10 then [DigitChar(n)]
    else Dec(n / 10) + [DigitChar(n % 10)]
  }

  /** Reads a string of digits back as a number, most significant digit first. */
  function Parse(s: string): (n: nat)
    requires AllDigits(s)
    decreases |s|
  {
    if |s| == 0 then 0
    else 10 * Parse(s[..|s| - 1]) + DigitValue(s[|s| - 1])
  }

  /** Parsing the decimal text of `n` gives back `n`. */
  lemma {:induction false} ParseDec(n: nat)
    ensures Parse(Dec(n)) == n
    decreases n
  {
    var s := Dec(n);
    if n < 10 {
      assert s[..|s| - 1] == [];
    } else {
      assert s[..|s| - 1] == Dec(n / 10);
      ParseDec(n / 10);
    }
  }

  /** A canonical text of two or more digits denotes a number of at least 10. */
  lemma {:induction false} ParseLowerBound(s: string)
    requires Canonical(s)
    ensures s[0] != '0' ==> Parse(s) >= 1
    ensures |s| > 1 ==> Parse(s) >= 10
    decreases |s|
  {
    if |s| > 1 {
      var t := s[..|s| - 1];
      assert t[0] == s[0];
      ParseLowerBound(t);
    } else {
      assert s[..|s| - 1] == [];
    }
  }

  /** Every canonical digit string is the decimal text of the number it denotes. */
  lemma {:induction false} DecParse(s: string)
    requires Canonical(s)
    ensures Dec(Parse(s)) == s
    decreases |s|
  {
    var t := s[..|s| - 1];
    if |s| == 1 {
      assert t == [];
      assert [s[0]] == s;
    } else {
      assert t[0] == s[0];
      ParseLowerBound(s);
      DecParse(t);
      assert t + [s[|s| - 1]] == s;
    }
  }

  /** Distinct numbers have distinct decimal texts. */
  lemma DecInjective(n: nat, m: nat)
    ensures Dec(n) == Dec(m) <==> n == m
  {
    if Dec(n) == Dec(m) {
      ParseDec(n);
      ParseDec(m);
    }
  }
}
