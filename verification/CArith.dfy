/** The pieces of C arithmetic that Dafny's `int` and `real` do not have: division and
    casts that truncate toward zero, and the narrowing of a wide integer to `int`. */
module CArith {

  const INT32_MIN := -0x8000_0000
  const INT32_MAX := 0x7FFF_FFFF

  function Abs(x: int): nat {
    if x < 0 then -x else x
  }

  function Min(a: int, b: int): int {
    if a <= b then a else b
  }

  function Max(a: int, b: int): int {
    if a >= b then a else b
  }

  /** C's `/` on integers: truncates toward zero. */
  function CDiv(a: int, b: int): int
    requires b != 0
  {
    if (a < 0) == (b < 0) then Abs(a) / Abs(b) else -(Abs(a) / Abs(b))
  }

  /** C's `%`: the remainder carries the sign of the dividend. */
  function CRem(a: int, b: int): int
    requires b != 0
  {
    a - b * CDiv(a, b)
  }

  /** The conversion of a `double` to an integer type: truncates toward zero. */
  function CTrunc(x: real): int {
    if x >= 0.0 then x.Floor else -((-x).Floor)
  }

  /** The conversion of a wider integer to `int`: keeps the low 32 bits. */
  function Wrap32(x: int): int {
    (x - INT32_MIN) % 0x1_0000_0000 + INT32_MIN
  }

  /** A product with a positive factor keeps the sign of the other and is no smaller. */
  lemma MulBounds(m: int, d: int)
    requires m > 0
    ensures d == 0 ==> m * d == 0
    ensures d > 0 ==> m * d >= m && m * d >= d && (m >= 2 ==> m * d >= 2 * d)
    ensures d < 0 ==> m * d <= -m
  {
    if d > 0 {
      assert m * d == m + m * (d - 1);
      assert m * d == d + (m - 1) * d;
      assert m >= 2 ==> m * d == 2 * d + (m - 2) * d;
    } else {
      assert m * d == -m - m * (-d - 1);
    }
  }

  lemma DivModUnique(a: int, m: int, q: int, r: int)
    requires m > 0 && a == m * q + r && 0 <= r < m
    ensures a / m == q && a % m == r
  {
    var d := a / m - q;
    assert a == m * (a / m) + a % m;
    assert m * d == r - a % m by {
      assert m * (a / m) - m * q == m * d;
    }
    MulBounds(m, d);
  }

  /** The bits above the low 32 do not survive the narrowing. */
  lemma WrapDropsHighWord(x: int, k: int)
    ensures Wrap32(x + 0x1_0000_0000 * k) == Wrap32(x)
  {
    var m := 0x1_0000_0000;
    var q, r := (x - INT32_MIN) / m, (x - INT32_MIN) % m;
    assert x + m * k - INT32_MIN == m * (q + k) + r;
  }

  lemma WrapRange(x: int)
    ensures INT32_MIN <= Wrap32(x) <= INT32_MAX
    ensures Wrap32(x) == x <==> INT32_MIN <= x <= INT32_MAX
  {
  }

  /** A whole number divided as a double and floored is integer division. */
  lemma FloorOfQuotient(a: int)
    ensures (a as real / 4.0).Floor == a / 4
    ensures (a as real / 100.0).Floor == a / 100
    ensures (a as real / 400.0).Floor == a / 400
  {
    FloorIs(a as real / 4.0, a / 4);
    FloorIs(a as real / 100.0, a / 100);
    FloorIs(a as real / 400.0, a / 400);
  }

  /** The same quotient under a cast is C's integer division. */
  lemma TruncOfQuotient(a: int)
    ensures CTrunc(a as real / 4.0) == CDiv(a, 4)
    ensures CTrunc(a as real / 100.0) == CDiv(a, 100)
  {
    FloorOfQuotient(Abs(a));
    if a < 0 {
      assert -(a as real / 4.0) == Abs(a) as real / 4.0;
      assert -(a as real / 100.0) == Abs(a) as real / 100.0;
    }
  }

  /** Truncation and flooring differ by one, on negative non-multiples. */
  lemma TruncVersusFloor(n: int)
    ensures CDiv(n, 4) == n / 4 + if n < 0 && n % 4 != 0 then 1 else 0
    ensures CDiv(n, 100) == n / 100 + if n < 0 && n % 100 != 0 then 1 else 0
    ensures CDiv(n, 400) == n / 400 + if n < 0 && n % 400 != 0 then 1 else 0
  {
    assert CDiv(n, 4) == if n < 0 then -(-n / 4) else n / 4;
    assert CDiv(n, 100) == if n < 0 then -(-n / 100) else n / 100;
    assert CDiv(n, 400) == if n < 0 then -(-n / 400) else n / 400;
  }

  lemma FloorIs(x: real, n: int)
    requires n as real <= x < (n + 1) as real
    ensures x.Floor == n
  {
  }
}
