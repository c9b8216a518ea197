/** The station's own `itoa`: digits are written least significant first and the text is then
    reversed in place. */
module Itoa {
  import opened CArith
  import opened CText
  import opened Numerals

  function Reversed(s: string): string {
    seq(|s|, i requires 0 <= i < |s| => s[|s| - 1 - i])
  }

  lemma Halving(num: int, base: int)
    requires num != 0 && 2 <= base <= 36
    ensures Abs(CDiv(num, base)) < Abs(num)
    ensures -base < CRem(num, base) < base
    ensures num > 0 ==> CDiv(num, base) == num / base && CRem(num, base) == num % base
    ensures num > 0 ==> num / base >= 0
  {
    Shrinks(Abs(num), base);
  }

  /** The characters the digit loop writes, in the order it writes them. */
  function Remainders(num: int, base: int): string
    requires 2 <= base <= 36
    decreases Abs(num)
  {
    if num == 0 then []
    else
      Halving(num, base);
      [DigitChar(CRem(num, base))] + Remainders(CDiv(num, base), base)
  }

  /** The text `itoa` leaves, before its terminator. */
  function Text(num: int, base: int): string
    requires 2 <= base <= 36
  {
    if num == 0 then "0"
    else if num < 0 && base == 10 then Reversed(Remainders(-num, base) + "-")
    else Reversed(Remainders(num, base))
  }

  lemma {:induction false} RemaindersAreNumeral(num: int, base: int)
    requires num > 0 && 2 <= base <= 36
    ensures Reversed(Remainders(num, base)) == Numeral(num, base)
    decreases num
  {
    Halving(num, base);
    Shrinks(num, base);
    var c := DigitChar(num % base);
    var q := num / base;
    var rest := Remainders(q, base);
    assert Remainders(num, base) == [c] + rest;
    assert Reversed([c] + rest) == Reversed(rest) + [c];
    if num < base {
      DivModUnique(num, base, 0, num);
      assert Reversed(rest) == [];
    } else {
      MulBounds(base, q);
      RemaindersAreNumeral(q, base);
    }
  }

  /** For every number that is not negative, and for negative numbers in base ten, the text
      is the numeral, with '-' before it when negative. */
  lemma TextIsNumeral(num: int, base: int)
    requires 2 <= base <= 36
    ensures num >= 0 ==> Text(num, base) == Numeral(num, base)
    ensures num < 0 && base == 10 ==> Text(num, base) == "-" + Numeral(-num, base)
  {
    if num > 0 {
      RemaindersAreNumeral(num, base);
    } else if num < 0 && base == 10 {
      RemaindersAreNumeral(-num, base);
      assert Reversed(Remainders(-num, base) + "-") == "-" + Reversed(Remainders(-num, base));
    }
  }

  lemma {:induction false} RemaindersNoNul(num: int, base: int)
    requires 2 <= base <= 36
    ensures NoNul(Remainders(num, base))
    ensures num != 0 ==> |Remainders(num, base)| > 0
    decreases Abs(num)
  {
    if num != 0 {
      Halving(num, base);
      RemaindersNoNul(CDiv(num, base), base);
    }
  }

  /** One turn of the digit loop on a number and on its negation. */
  lemma NegativeTurn(num: int, base: int)
    requires num > 0 && 2 <= base <= 36
    ensures CDiv(-num, base) == -CDiv(num, base) && CDiv(num, base) == num / base
    ensures 0 <= CRem(num, base) < base && CRem(-num, base) == -CRem(num, base)
    ensures DigitChar(-CRem(num, base)) as int == '0' as int - DigitValue(DigitChar(CRem(num, base)))
  {
    Halving(num, base);
    var q := num / base;
    assert CDiv(-num, base) == -q;
    assert base * -q == -(base * q);
    hide CDiv, CRem;
    assert CRem(num, base) == num % base;
  }

  lemma {:induction false} NegativeRemainders(num: int, base: int)
    requires num > 0 && 2 <= base <= 36
    ensures |Remainders(-num, base)| == |Remainders(num, base)|
    ensures forall i :: 0 <= i < |Remainders(num, base)| ==>
              Remainders(-num, base)[i] as int == '0' as int - DigitValue(Remainders(num, base)[i])
    decreases num
  {
    NegativeTurn(num, base);
    Halving(num, base);
    Halving(-num, base);
    hide CDiv, CRem, DigitChar, DigitValue;
    Shrinks(num, base);
    var q := num / base;
    assert -num != 0;
    if q > 0 {
      NegativeRemainders(q, base);
    }
  }

  /** A negative number in a base other than ten has no sign: it has the places of its
      magnitude's numeral, and at each the character as far below '0' as the digit counts. */
  lemma NegativeText(num: int, base: int)
    requires num < 0 && 2 <= base <= 36 && base != 10
    ensures |Text(num, base)| == |Numeral(-num, base)|
    ensures forall i :: 0 <= i < |Text(num, base)| ==>
              Text(num, base)[i] as int == '0' as int - DigitValue(Numeral(-num, base)[i])
  {
    hide Remainders;
    NegativeRemainders(-num, base);
    RemaindersAreNumeral(-num, base);
  }

  method WriteRemainders(num: int, str: array<char>, base: int) returns (i: nat)
    requires 2 <= base <= 36 && |Remainders(num, base)| <= str.Length
    modifies str
    ensures i == |Remainders(num, base)| && str[..i] == Remainders(num, base)
    ensures forall k :: i <= k < str.Length ==> str[k] == old(str[k])
  {
    i := 0;
    var n := num;
    ghost var digits := Remainders(num, base);
    while n != 0
      invariant i <= |digits| && str[..i] == digits[..i]
      invariant digits[i..] == Remainders(n, base)
      invariant forall k :: |digits| <= k < str.Length ==> str[k] == old(str[k])
      decreases Abs(n)
    {
      Halving(n, base);
      var rem := CRem(n, base);
      assert digits[i..] == [DigitChar(rem)] + Remainders(CDiv(n, base), base);
      str[i] := if rem > 9 then ((rem - 10) + 'a' as int) as char else (rem + '0' as int) as char;
      i := i + 1;
      n := CDiv(n, base);
    }
  }

  method Itoa(num: int, str: array<char>, base: int)
    requires INT32_MIN < num <= INT32_MAX && 2 <= base <= 36
    requires |Text(num, base)| < str.Length
    modifies str
    ensures HoldsAt(str[..], 0, Text(num, base))
    ensures forall k :: |Text(num, base)| < k < str.Length ==> str[k] == old(str[k])
  {
    if num == 0 {
      str[0] := '0';
      str[1] := NUL;
      return;
    }
    var isNegative := num < 0 && base == 10;
    var n := if isNegative then -num else num;
    RemaindersNoNul(n, base);
    ghost var digits := Remainders(n, base);
    hide Remainders;
    var i := WriteRemainders(n, str, base);
    if isNegative {
      str[i] := '-';
      i := i + 1;
    }
    str[i] := NUL;
    ghost var all := digits + if isNegative then "-" else "";
    assert str[..][0..i] == all;
    ReverseText(str, all);
  }

  /** Reverses the text a buffer holds. */
  method ReverseText(str: array<char>, ghost text: string)
    requires HoldsAt(str[..], 0, text) && NoNul(text) && |text| > 0
    modifies str
    ensures HoldsAt(str[..], 0, Reversed(text))
    ensures forall k :: |text| < k < str.Length ==> str[k] == old(str[k])
  {
    assert str[..][0..|text|] == str[..|text|] == text;
    assert str[|text|] in str[..];
    var len := StrLen(str);
    FirstNulUnique(str[..], len, |text|);
    ReverseString(str, 0, len - 1);
    assert str[..][0..len] == Reversed(text);
  }

  /** Swaps inward from position i; started at 0 it reverses positions 0 to len. */
  method ReverseString(str: array<char>, i: nat, len: nat)
    requires len < str.Length && i <= len / 2
    modifies str
    ensures forall k :: i <= k <= len - i ==> str[k] == old(str[len - k])
    ensures forall k :: 0 <= k < str.Length && !(i <= k <= len - i) ==> str[k] == old(str[k])
    decreases len / 2 - i
  {
    var temp := str[i];
    str[i] := str[len - i];
    str[len - i] := temp;
    if i == len / 2 {
      return;
    }
    ReverseString(str, i + 1, len);
  }
}
