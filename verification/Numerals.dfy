/** Numbers as text: the station's own `itoa` with its in-place reversal, and the positional
    reading that undoes it. */
module Numerals {
  import opened CArith

  // ---------------------------------------------------------------------------------------
  // Positional notation
  // ---------------------------------------------------------------------------------------

  /** The character `itoa` writes for a remainder; a negative remainder lands below '0'. */
  function DigitChar(rem: int): char
    requires -36 < rem < 36
  {
    if rem > 9 then ((rem - 10) + 'a' as int) as char else (rem + '0' as int) as char
  }

  function DigitValue(c: char): int {
    if '0' <= c <= '9' then c as int - '0' as int
    else if 'a' <= c <= 'z' then c as int - 'a' as int + 10
    else -1
  }

  /** The digits in order. */
  lemma DigitAlphabet(d: nat)
    requires d < 36
    ensures DigitChar(d) == "0123456789abcdefghijklmnopqrstuvwxyz"[d]
    ensures DigitValue("0123456789abcdefghijklmnopqrstuvwxyz"[d]) == d
  {
  }

  predicate IsDigit(c: char, base: int) {
    0 <= DigitValue(c) < base
  }

  predicate IsNumeral(s: string, base: int) {
    |s| > 0 && forall i :: 0 <= i < |s| ==> IsDigit(s[i], base)
  }

  predicate NoLeadingZero(s: string) {
    |s| > 1 ==> s[0] != '0'
  }

  /** Reads a text of digits in the given base, most significant first. */
  function Value(s: string, base: int): int {
    if |s| == 0 then 0 else Value(s[..|s| - 1], base) * base + DigitValue(s[|s| - 1])
  }

  /** The numeral of n. */
  function Numeral(n: nat, base: int): (s: string)
    requires 2 <= base <= 36
    ensures |s| > 0
    decreases n
  {
    if n < base then [DigitChar(n)]
    else
      Shrinks(n, base);
      Numeral(n / base, base) + [DigitChar(n % base)]
  }

  lemma Shrinks(n: int, base: int)
    requires n > 0 && base >= 2
    ensures 0 <= n / base < n
    ensures n == (n / base) * base + n % base
  {
    assert n == base * (n / base) + n % base;
    MulBounds(base, n / base);
  }

  /** Reading a numeral gives the number back, and a numeral has no leading zero. */
  lemma {:induction false} ValueOfNumeral(n: nat, base: int)
    requires 2 <= base <= 36
    ensures Value(Numeral(n, base), base) == n
    ensures IsNumeral(Numeral(n, base), base) && NoLeadingZero(Numeral(n, base))
    ensures Numeral(n, base)[0] == '0' <==> n == 0
    decreases n
  {
    if n < base {
      var s := Numeral(n, base);
      assert s[..|s| - 1] == [];
    } else {
      Shrinks(n, base);
      var q := n / base;
      var high := Numeral(q, base);
      ValueOfNumeral(q, base);
      MulBounds(base, q);
      var s := high + [DigitChar(n % base)];
      assert s[..|s| - 1] == high;
    }
  }

  lemma {:induction false} ValueNonNegative(s: string, base: int)
    requires 2 <= base <= 36 && forall i :: 0 <= i < |s| ==> IsDigit(s[i], base)
    ensures Value(s, base) >= 0
    ensures |s| > 0 && s[0] != '0' ==> Value(s, base) > 0
    decreases |s|
  {
    if |s| > 0 {
      var t := s[..|s| - 1];
      ValueNonNegative(t, base);
      MulBounds(base, Value(t, base));
      assert |t| > 0 ==> t[0] == s[0];
    }
  }

  /** A text of digits without a leading zero is the numeral of its value: numerals are
      unique. */
  lemma {:induction false} NumeralUnique(s: string, base: int)
    requires 2 <= base <= 36
    requires IsNumeral(s, base) && NoLeadingZero(s)
    ensures Value(s, base) >= 0 && s == Numeral(Value(s, base), base)
    decreases |s|
  {
    var t, c := s[..|s| - 1], s[|s| - 1];
    var d := DigitValue(c);
    assert s == t + [c] && IsDigit(c, base);
    assert DigitChar(d) == c;
    if |t| > 0 {
      assert t[0] == s[0];
      ValueNonNegative(t, base);
      NumeralUnique(t, base);
      MulBounds(base, Value(t, base));
      DivModUnique(Value(s, base), base, Value(t, base), d);
    }
  }

  /** The first of two digits counts for the base, the second for one. */
  lemma TwoDigits(a: char, b: char, base: int)
    ensures Value([a, b], base) == base * DigitValue(a) + DigitValue(b)
  {
    assert [a, b][..1] == [a] && [a][..0] == "";
    assert Value([a], base) == DigitValue(a);
  }
}
