/** Bitwise `&` and `|` on unsigned words, as functions on natural numbers that work one bit
    at a time, and what they do to words built from fields. A shift by k is written as the
    product or the quotient with two to the power k. */
module Bits {
  import opened CArith

  type byte = x: int | 0 <= x < 256

  function And(a: nat, b: nat): nat {
    if a == 0 || b == 0 then 0
    else 2 * And(a / 2, b / 2) + if a % 2 == 1 && b % 2 == 1 then 1 else 0
  }

  function Or(a: nat, b: nat): nat
    decreases a + b
  {
    if a == 0 then b else if b == 0 then a
    else 2 * Or(a / 2, b / 2) + if a % 2 == 1 || b % 2 == 1 then 1 else 0
  }

  /** The store into a `uint8_t`. */
  function U8(a: nat): byte {
    a % 256
  }

  /** k zeros appended to the bits of a. */
  function Shl(a: nat, k: nat): nat
    decreases k
  {
    if k == 0 then a else 2 * Shl(a, k - 1)
  }

  /** The bits of a without the low k. */
  function Shr(a: nat, k: nat): nat
    decreases k
  {
    if k == 0 then a else Shr(a / 2, k - 1)
  }

  /** The mask of k low ones. */
  function Ones(k: nat): nat
    decreases k
  {
    if k == 0 then 0 else 2 * Ones(k - 1) + 1
  }

  /** The low k bits. */
  function Low(a: nat, k: nat): nat
    decreases k
  {
    if k == 0 then 0 else 2 * Low(a / 2, k - 1) + a % 2
  }

  /** A mask of k low ones keeps the low k bits. */
  lemma {:induction false} AndLowMask(a: nat, k: nat)
    ensures And(a, Ones(k)) == Low(a, k)
    decreases k
  {
    if k > 0 {
      AndLowMask(a / 2, k - 1);
      LowOfZero(k);
    }
  }

  lemma LowOfZero(k: nat)
    ensures Low(0, k) == 0
  {
  }

  lemma ZeroShifted(k: nat)
    ensures Shl(0, k) == 0 && Shr(0, k) == 0
  {
  }

  /** A mask with k low zeros looks only at the bits above them. */
  lemma {:induction false} AndHighMask(a: nat, m: nat, k: nat)
    ensures And(a, Shl(m, k)) == Shl(And(Shr(a, k), m), k)
    decreases k
  {
    if k > 0 {
      AndHighMask(a / 2, m, k - 1);
      ZeroShifted(k);
      if a > 0 && Shl(m, k) > 0 {
        assert Shl(m, k) / 2 == Shl(m, k - 1) && Shl(m, k) % 2 == 0;
      } else if a > 0 {
        ShiftedToZero(m, k);
      }
    }
  }

  lemma {:induction false} ShiftedToZero(m: nat, k: nat)
    ensures Shl(m, k) == 0 ==> m == 0
    decreases k
  {
    if k > 0 {
      ShiftedToZero(m, k - 1);
    }
  }

  /** `|` of a shifted word and a value below the shift is their sum. */
  lemma {:induction false} OrDisjoint(a: nat, b: nat, k: nat)
    requires Shr(b, k) == 0
    ensures Or(Shl(a, k), b) == Shl(a, k) + b
    decreases k
  {
    if k > 0 {
      OrDisjoint(a, b / 2, k - 1);
    }
  }

  /** A word is its high part and its low bits, for any cut. */
  lemma {:induction false} Split(a: nat, k: nat)
    ensures a == Shl(Shr(a, k), k) + Low(a, k) && Low(a, k) <= Ones(k)
    decreases k
  {
    if k > 0 {
      Split(a / 2, k - 1);
    }
  }

  lemma {:induction false} ShiftIsProduct(a: nat, k: nat)
    ensures Shl(a, k) == a * Shl(1, k) && Ones(k) + 1 == Shl(1, k)
    decreases k
  {
    if k > 0 {
      ShiftIsProduct(a, k - 1);
      assert a * (2 * Shl(1, k - 1)) == 2 * (a * Shl(1, k - 1));
    }
  }

  /** Shifts and low bits are products, quotients and remainders of the power of two. */
  lemma At(a: nat, k: nat, p: nat)
    requires p == Shl(1, k)
    ensures p > 0 && Shl(a, k) == a * p && Ones(k) == p - 1
    ensures Shr(a, k) == a / p && Low(a, k) == a % p
  {
    Split(a, k);
    ShiftIsProduct(a, k);
    ShiftIsProduct(Shr(a, k), k);
    DivModUnique(a, p, Shr(a, k), Low(a, k));
  }

  lemma ShiftBack(x: nat, k: nat)
    ensures Shr(Shl(x, k), k) == x
    decreases k
  {
  }

  /** A mask of low ones keeps a remainder. */
  lemma MaskLow(x: nat, k: nat, p: nat, mask: nat)
    requires p == Shl(1, k) && mask == p - 1
    ensures p > 0 && And(x, mask) == x % p
  {
    At(x, k, p);
    AndLowMask(x, k);
  }

  /** A value moved up and masked at its new place keeps its own low bits. */
  lemma MaskMoved(x: nat, k: nat, w: nat, p: nat, m: nat, mask: nat)
    requires p == Shl(1, k) && m == Shl(1, w) && mask == (m - 1) * p
    ensures m > 0 && And(x * p, mask) == x % m * p
  {
    At(x, k, p);
    At(Ones(w), k, p);
    At(x, w, m);
    At(x % m, k, p);
    AndHighMask(Shl(x, k), Ones(w), k);
    ShiftBack(x, k);
    AndLowMask(x, w);
  }

  /** A mask with low zeros clears the bits below it. */
  lemma MaskHigh(x: nat, k: nat, w: nat, p: nat, m: nat, mask: nat)
    requires p == Shl(1, k) && m == Shl(1, w) && mask == (m - 1) * p
    ensures p > 0 && m > 0 && And(x, mask) == x / p % m * p
  {
    At(x, k, p);
    At(Ones(w), k, p);
    At(x / p, w, m);
    At(x / p % m, k, p);
    AndHighMask(x, Ones(w), k);
    AndLowMask(x / p, w);
  }

  /** `|` joins a value moved up and a value below it into their sum. */
  lemma Join(high: nat, low: nat, k: nat, p: nat)
    requires p == Shl(1, k) && low < p
    ensures Or(high * p, low) == high * p + low
  {
    At(low, k, p);
    At(high, k, p);
    DivModUnique(low, p, 0, low);
    OrDisjoint(high, low, k);
  }

  /** A slice of a word, cut out between what is above it and what is below. */
  lemma Slice(x: nat, k: nat, m: nat, high: nat, mid: nat, low: nat)
    requires k > 0 && m > 0 && x == (high * m + mid) * k + low && low < k && mid < m
    ensures x / k % m == mid
  {
    DivModUnique(x, k, high * m + mid, low);
    DivModUnique(high * m + mid, m, high, mid);
  }

  lemma {:induction false} ShlSum(j: nat, k: nat)
    ensures Shl(1, j + k) == Shl(1, j) * Shl(1, k)
    decreases j
  {
    if j > 0 {
      ShlSum(j - 1, k);
      assert Shl(1, j) == 2 * Shl(1, j - 1) && Shl(1, j + k) == 2 * Shl(1, j - 1 + k);
      hide Shl;
      TwiceProduct(Shl(1, j - 1), Shl(1, k));
    }
  }

  lemma TwiceProduct(p: nat, q: nat)
    ensures 2 * (p * q) == (2 * p) * q
  {
  }

  lemma LargePowers()
    ensures Shl(1, 16) == 65536 && Shl(1, 17) == 131072 && Shl(1, 38) == 0x40_0000_0000
  {
    Powers();
    ShlSum(1, 16);
    ShlSum(16, 22);
  }

  lemma Powers()
    ensures Shl(1, 1) == 2 && Shl(1, 2) == 4 && Shl(1, 3) == 8 && Shl(1, 4) == 16
    ensures Shl(1, 5) == 32 && Shl(1, 6) == 64 && Shl(1, 7) == 128 && Shl(1, 8) == 256
    ensures Shl(1, 11) == 2048 && Shl(1, 13) == 8192 && Shl(1, 15) == 32768 && Shl(1, 16) == 65536
    ensures Shl(1, 21) == 0x20_0000 && Shl(1, 22) == 0x40_0000 && Shl(1, 23) == 0x80_0000
  {
  }
}
