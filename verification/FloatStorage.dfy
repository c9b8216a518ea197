/** The store of a double into a `float`: the nearest number with a 24-bit significand. */
module FloatStorage {
  import opened CArith
  import opened Bits

  /** Two to the power k, as a real. */
  function Power(k: nat): (p: real)
    ensures p >= 1.0
  {
    ShiftIsProduct(1, k);
    Shl(1, k) as real
  }

  /** A value counted in units of two to the -k. */
  function Units(x: real, k: nat): real {
    x * Power(k)
  }

  ghost predicate IsFraction(f: real, m: int, k: nat) {
    Units(f, k) == m as real
  }

  ghost predicate IsMultiple(f: real, m: int, k: nat) {
    f == m as real * Power(k)
  }

  /** A finite single-precision number: a 24-bit significand times a power of two. */
  ghost predicate IsFloat(f: real) {
    exists m: int, k: nat ::
      -0x100_0000 < m < 0x100_0000 && ((k <= 149 && IsFraction(f, m, k)) || (k <= 104 && IsMultiple(f, m, k)))
  }

  function Distance(x: real, y: real): real {
    if x >= y then x - y else y - x
  }

  /** The store of a double into a `float`: a nearest single-precision number. */
  ghost predicate StoredAs(x: real, f: real) {
    IsFloat(f) && forall g :: IsFloat(g) ==> Distance(x, f) <= Distance(x, g)
  }

  const FLOAT_ERROR := 1.0 / 131072.0

  /** Angles have a single-precision number close by: the nearest multiple of two to the -16. */
  lemma FloatNearby(x: real) returns (g: real)
    requires -255.0 <= x <= 255.0
    ensures IsFloat(g) && Distance(x, g) <= FLOAT_ERROR
  {
    var scaled := x * 65536.0 + 0.5;
    var m := scaled.Floor;
    g := m as real / 65536.0;
    assert m as real <= scaled < m as real + 1.0;
    assert -0x100_0000 < m < 0x100_0000;
    Powers();
    assert Power(16) == 65536.0;
    hide Power;
    assert g * 65536.0 == m as real;
    assert IsFraction(g, m, 16);
  }

  /** The store moves an angle by at most two to the -17 degree. */
  lemma FloatStorageError(x: real, f: real)
    requires -255.0 <= x <= 255.0 && StoredAs(x, f)
    ensures Distance(x, f) <= FLOAT_ERROR
  {
    hide IsFloat;
    var g := FloatNearby(x);
  }

  // ---------------------------------------------------------------------------------------
  // The spacing of the floats
  // ---------------------------------------------------------------------------------------

  lemma PowerSum(j: nat, k: nat)
    ensures Power(j + k) == Power(j) * Power(k)
  {
    hide Shl;
    ShlSum(j, k);
    ProductOfTwo(Shl(1, j), Shl(1, k));
  }

  lemma ProductOfTwo(p: int, q: int)
    ensures (p * q) as real == p as real * q as real
  {
  }

  const SIGNIFICAND := 0x80_0000  // the least significand of 24 bits

  lemma MultipleOfSpacing(f: real, n: int, j: nat, k: nat) returns (m: int)
    requires IsMultiple(f, n, j)
    ensures f * Power(k) == m as real
  {
    m := n * (Shl(1, j) * Shl(1, k));
    ProductOfWholes(n, Shl(1, j), Shl(1, k));
  }

  lemma CoarseFraction(f: real, n: int, j: nat, k: nat) returns (m: int)
    requires j <= k && IsFraction(f, n, j)
    ensures f * Power(k) == m as real
  {
    PowerSum(j, k - j);
    var p := Shl(1, k - j);
    assert Power(k - j) == p as real;
    m := n * p;
    hide Shl, Power;
    assert f * (Power(j) * p as real) == (f * Power(j)) * p as real;
    ProductOfTwo(n, p);
  }

  /** A fraction finer than the spacing has too small a significand to be so large. */
  lemma FineFraction(f: real, n: int, j: nat, k: nat)
    requires j > k && IsFraction(f, n, j) && -0x100_0000 < n < 0x100_0000
    ensures -(SIGNIFICAND as real) < f * Power(k) < SIGNIFICAND as real
  {
    PowerSum(k, j - k);
    AtLeastTwo(j - k);
    hide Power;
    assert f * (Power(k) * Power(j - k)) == (f * Power(k)) * Power(j - k);
    TwiceAsFar(f * Power(k), Power(j - k));
  }

  /** Every float from a power of two upward is a multiple of the spacing there. */
  lemma FloatIsMultiple(f: real, k: nat) returns (m: int)
    requires IsFloat(f) && Distance(Units(f, k), 0.0) >= SIGNIFICAND as real
    ensures Units(f, k) == m as real
  {
    hide Power;
    var n: int, j: nat :|
      -0x100_0000 < n < 0x100_0000 && ((j <= 149 && IsFraction(f, n, j)) || (j <= 104 && IsMultiple(f, n, j)));
    hide IsFraction, IsMultiple;
    if j <= 104 && IsMultiple(f, n, j) {
      m := MultipleOfSpacing(f, n, j, k);
    } else {
      if j > k {
        FineFraction(f, n, j, k);
      }
      m := CoarseFraction(f, n, j, k);
    }
  }

  lemma ProductOfWholes(n: int, p: int, q: int)
    ensures (n as real * p as real) * q as real == (n * (p * q)) as real
  {
    assert (p * q) as real == p as real * q as real;
    assert (n * (p * q)) as real == n as real * (p * q) as real;
  }

  lemma AtLeastTwo(k: nat)
    requires k > 0
    ensures Power(k) >= 2.0
  {
    PowerSum(1, k - 1);
    assert Power(1) == 2.0;
  }

  lemma TwiceAsFar(s: real, t: real)
    requires t >= 2.0
    ensures s >= SIGNIFICAND as real ==> s * t >= 0x100_0000 as real
    ensures s <= -(SIGNIFICAND as real) ==> s * t <= -(0x100_0000 as real)
  {
    if s >= SIGNIFICAND as real {
      assert s * t >= s * 2.0;
    } else if s <= -(SIGNIFICAND as real) {
      assert s * t <= s * 2.0;
    }
  }

  lemma FromUnits(n: real, k: nat) returns (g: real)
    ensures Units(g, k) == n
  {
    hide Power;
    g := n / Power(k);
    assert g * Power(k) == n;
  }

  lemma ZeroIsFloat()
    ensures IsFloat(0.0)
  {
    assert IsMultiple(0.0, 0, 0);
  }

  lemma UnitsDouble(x: real, k: nat)
    ensures Units(x, k + 1) == 2.0 * Units(x, k)
  {
    assert Power(k + 1) == 2.0 * Power(k);
    hide Power;
    assert x * (2.0 * Power(k)) == 2.0 * (x * Power(k));
  }

  /** A multiple of the spacing up to the next power of two is a float, that power included. */
  lemma MultipleIsFloat(n: int, k: nat) returns (g: real)
    requires 1 <= k <= 149 && -0x100_0000 <= n <= 0x100_0000
    ensures IsFloat(g) && Units(g, k) == n as real
  {
    hide Units;
    g := FromUnits(n as real, k);
    if -0x100_0000 < n < 0x100_0000 {
      assert IsFraction(g, n, k);
    } else {
      UnitsDouble(g, k - 1);
      assert IsFraction(g, if n > 0 then SIGNIFICAND else -SIGNIFICAND, k - 1);
    }
  }

  /** Where the floats are multiples of a spacing, a value is stored as its nearest multiple. */
  lemma StoredAsNearestMultiple(a: real, f: real, k: nat) returns (r: int)
    requires 1 <= k <= 149 && StoredAs(a, f)
    requires SIGNIFICAND as real <= Distance(Units(a, k), 0.0) <= 0x100_0000 as real
    ensures Units(f, k) == r as real && Distance(Units(a, k), r as real) <= 0.5
  {
    hide Units, StoredAs;
    var n := NearestWhole(Units(a, k));
    NoneCloser(a, f, n, k);
    NoneCloser(a, f, if Units(a, k) > 0.0 then SIGNIFICAND else -SIGNIFICAND, k);
    StoredIsFloat(a, f);
    r := FloatIsMultiple(f, k);
  }

  lemma StoredIsFloat(a: real, f: real)
    requires StoredAs(a, f)
    ensures IsFloat(f)
  {
  }

  lemma StoredIsNearest(a: real, f: real, g: real)
    requires StoredAs(a, f) && IsFloat(g)
    ensures Distance(a, f) <= Distance(a, g)
  {
    hide IsFloat;
  }

  lemma NearestWhole(s: real) returns (n: int)
    requires Distance(s, 0.0) <= 0x100_0000 as real
    ensures -0x100_0000 <= n <= 0x100_0000 && Distance(s, n as real) <= 0.5
  {
    n := (s + 0.5).Floor;
    assert n as real <= s + 0.5 < n as real + 1.0;
  }

  /** No multiple of the spacing is closer than the stored float. */
  lemma NoneCloser(a: real, f: real, n: int, k: nat)
    requires 1 <= k <= 149 && StoredAs(a, f) && -0x100_0000 <= n <= 0x100_0000
    ensures Distance(Units(a, k), Units(f, k)) <= Distance(Units(a, k), n as real)
  {
    hide *;
    var g := MultipleIsFloat(n, k);
    StoredIsNearest(a, f, g);
    UnitsScale(a, f, k);
    UnitsScale(a, g, k);
    Monotone(Distance(a, f), Distance(a, g), Power(k));
  }

  lemma Monotone(x: real, y: real, p: real)
    requires p >= 1.0 && x <= y
    ensures x * p <= y * p
  {
  }

  /** Distances scale with the units. */
  lemma UnitsScale(x: real, y: real, k: nat)
    ensures Distance(Units(x, k), Units(y, k)) == Distance(x, y) * Power(k)
  {
    hide Power;
    var p := Power(k);
    if x >= y {
      assert x * p - y * p == (x - y) * p;
      assert (x - y) * p >= 0.0;
    } else {
      assert y * p - x * p == (y - x) * p;
      assert (y - x) * p > 0.0;
    }
  }

  /** There is a nearest float: the nearest multiple of the spacing is no further than any. */
  lemma NearestExists(a: real, k: nat) returns (f: real)
    requires 1 <= k <= 149 && SIGNIFICAND as real <= Distance(Units(a, k), 0.0) <= 0x100_0000 as real
    ensures StoredAs(a, f)
  {
    hide Units, IsFloat, Distance, Power;
    var n := NearestWhole(Units(a, k));
    f := MultipleIsFloat(n, k);
    forall g | IsFloat(g)
      ensures Distance(a, f) <= Distance(a, g)
    {
      NotCloser(a, g, n, k);
      UnitsScale(a, f, k);
      UnitsScale(a, g, k);
      SmallerFactor(Distance(a, f), Distance(a, g), Power(k));
    }
  }

  /** No float is closer than the nearest multiple of the spacing. */
  lemma NotCloser(a: real, g: real, n: int, k: nat)
    requires IsFloat(g) && SIGNIFICAND as real <= Distance(Units(a, k), 0.0)
    requires Distance(Units(a, k), n as real) <= 0.5
    ensures Distance(Units(a, k), n as real) <= Distance(Units(a, k), Units(g, k))
  {
    hide Units, IsFloat;
    if Distance(Units(g, k), 0.0) >= SIGNIFICAND as real {
      var m := FloatIsMultiple(g, k);
      NearerThan(Units(a, k), n, m);
    } else {
      NearerThan(Units(a, k), n, if Units(a, k) > 0.0 then SIGNIFICAND else -SIGNIFICAND);
    }
  }

  /** A whole number within a half is a nearest one. */
  lemma NearerThan(s: real, n: int, m: int)
    requires Distance(s, n as real) <= 0.5
    ensures Distance(s, n as real) <= Distance(s, m as real)
  {
    var d := m as real - n as real;
    assert d == (m - n) as real;
    assert m == n || d >= 1.0 || d <= -1.0;
  }

  lemma SmallerFactor(x: real, y: real, p: real)
    requires p >= 1.0 && x * p <= y * p
    ensures x <= y
  {
    assert (y - x) * p == y * p - x * p;
  }
}
