/** Aircraft positions as a receiver gets them: decoded, with both angles stored in
    single-precision floats. */
module PositionStorage {
  import opened CArith
  import opened Bits
  import opened FloatStorage
  import opened PositionCodec

  /** The position that leaves the decoder, its angles stored in floats. */
  ghost predicate StoredPosition(c: Compact, q: Position)
    requires c.Valid()
  {
    var p := Decompress(c);
    StoredAs(p.lat, q.lat) && StoredAs(p.lon, q.lon) && q.altitude == p.altitude && q.timestamp == p.timestamp
  }

  /** Decoding to floats and encoding again gives back the seven bytes and the timestamp, for
      every code. */
  lemma FloatRoundTrip(c: Compact, q: Position)
    requires c.Valid() && StoredPosition(c, q)
    ensures Encodable(q) && Compress(q) == c
  {
    hide And, Or, UnpackLon, UnpackLat, UnpackAlt, PackCodes, Swap32, StoredAs;
    PackOfUnpack(c.compos);
    var p := Decompress(c);
    FloatStorageError(p.lat, q.lat);
    FloatStorageError(p.lon, q.lon);
    ReencodingStable(c, q);
  }

  // ---------------------------------------------------------------------------------------
  // What a receiver is off by
  // ---------------------------------------------------------------------------------------

  /** No mask drops a bit; each angle arrives within half a grid step and the error of its
      store, the altitude rounded down to a multiple of 25, the timestamp as it was. */
  lemma LossyBound(p: Position, q: Position)
    requires OnGrid(p) && Encodable(p) && StoredPosition(Compress(p), q)
    ensures LonCode(p) == CastU32(Scaled(p.lon, 180.0))
    ensures LatCode(p) == CastU32(Scaled(p.lat, 90.0))
    ensures AltCode(p) == p.altitude / 25
    ensures Distance(q.lon, p.lon) <= HALF_STEP + FLOAT_ERROR
    ensures Distance(q.lat, p.lat) <= HALF_STEP + FLOAT_ERROR
    ensures q.altitude == p.altitude - p.altitude % 25 && q.timestamp == p.timestamp
  {
    hide And, Or, UnpackLon, UnpackLat, UnpackAlt, PackCodes, Swap32, StoredAs, LonCode, LatCode, AltCode;
    CodesOnGrid(p);
    DecodedNear(p);
    var d := Decompress(Compress(p));
    FloatStorageError(d.lat, q.lat);
    FloatStorageError(d.lon, q.lon);
  }

  // ---------------------------------------------------------------------------------------
  // When half a grid step is enough
  // ---------------------------------------------------------------------------------------

  predicate IsWhole(x: real) {
    x.Floor as real == x
  }

  /** Whether an angle stays within half a grid step once its grid angle is stored, told from
      how many spacings of the floats at the grid angle lie between the two. Half a grid step
      is 2^k / 46600 spacings of 2^-k. A float just below a power of two may lie halfway
      between two multiples of the spacing above it. */
  predicate KeepsHalfStep(x: real, grid: real, k: nat) {
    var spacings := Distance(Units(x, k), Units(grid, k));
    if IsWhole(Units(x, k)) then spacings < (Shl(1, k) / 46600) as real + 0.5
    else spacings < ((Shl(1, k) - 23300) / 46600 + 1) as real
  }

  /** No grid angle lies halfway between two floats, because 5825 is odd. */
  lemma NeverHalfway(r: int, t: int)
    ensures 23300 * r - 4 * t != 11650 && 23300 * r - 4 * t != -11650
  {
  }

  lemma WithinQuotient(d: nat, p: int, m: int)
    requires p >= 0 && m > 0
    ensures m * d <= p <==> d <= p / m
  {
    DivModUnique(p, m, p / m, p % m);
    MulBounds(m, p / m - d);
    assert m * (p / m - d) == m * (p / m) - m * d;
  }

  /** Whole steps are counted by their rounded distance. */
  lemma RoundedCount(d: int, e: int, n: int)
    requires -11650 < e < 11650 && n >= 0
    ensures Abs(d) <= n <==> Abs(23300 * d + e) < 23300 * n + 11650
  {
  }

  /** Odd numbers of half steps are counted by the whole steps below their distance. */
  lemma TruncatedCount(y: int, e: int, n: int)
    requires -11650 < e < 11650 && n >= -1 && y % 2 == 1
    ensures Abs(y) <= 2 * n + 1 <==> Abs(11650 * y + e) < 23300 * (n + 1)
  {
    var j := y / 2;
    assert y == 2 * j + 1;
  }

  /** On multiples of the spacing: t is a quarter of the grid angle in 1/23300 spacings. */
  lemma WholeSpacings(x: int, r: int, t: int, p: nat)
    requires Abs(23300 * r - 4 * t) <= 11650
    ensures 46600 * Abs(x - r) <= p <==> Abs(23300 * x - 4 * t) < 23300 * (p / 46600) + 11650
  {
    NeverHalfway(r, t);
    WithinQuotient(Abs(x - r), p, 46600);
    RoundedCount(x - r, 23300 * r - 4 * t, p / 46600);
  }

  /** Halfway between multiples of the spacing: y is odd and counts half spacings. */
  lemma HalfSpacings(y: int, r: int, t: int, p: nat)
    requires y % 2 == 1 && Abs(23300 * r - 4 * t) <= 11650
    ensures 23300 * Abs(y - 2 * r) <= p <==> Abs(11650 * y - 4 * t) < 23300 * ((p - 23300) / 46600 + 1)
  {
    NeverHalfway(r, t);
    OddWithinQuotient(Abs(y - 2 * r), p);
    TruncatedCount(y - 2 * r, 23300 * r - 4 * t, (p - 23300) / 46600);
  }

  lemma OddWithinQuotient(d: nat, p: nat)
    requires d % 2 == 1
    ensures 23300 * d <= p <==> d <= 2 * ((p - 23300) / 46600) + 1
  {
    assert d == 2 * (d / 2) + 1;
  }

  lemma WholeOrHalf(s: real, y: int)
    requires 2.0 * s == y as real
    ensures IsWhole(s) <==> y % 2 == 0
    ensures IsWhole(s) ==> s == (y / 2) as real
  {
    if y % 2 == 0 {
      FloorIs(s, y / 2);
    } else {
      FloorIs(s, y / 2);
      assert y == 2 * (y / 2) + 1;
    }
  }

  /** The decision in spacings: s is the angle, g its grid angle and r the stored one. */
  lemma Decide(s: real, g: real, r: int, y: int, t: int, p: nat)
    requires 2.0 * s == y as real && 23300.0 * g == (4 * t) as real && Distance(r as real, g) <= 0.5
    ensures 46600.0 * Distance(s, r as real) <= p as real
       <==> if IsWhole(s) then Distance(s, g) < (p / 46600) as real + 0.5
            else Distance(s, g) < ((p - 23300) / 46600 + 1) as real
  {
    WholeOrHalf(s, y);
    assert Abs(23300 * r - 4 * t) <= 11650;
    hide IsWhole;
    if y % 2 == 0 {
      var x := y / 2;
      WholeSpacings(x, r, t, p);
      assert 23300.0 * Distance(s, g) == Abs(23300 * x - 4 * t) as real;
      assert Distance(s, r as real) == Abs(x - r) as real;
    } else {
      HalfSpacings(y, r, t, p);
      assert 23300.0 * Distance(s, g) == Abs(11650 * y - 4 * t) as real;
      assert 2.0 * Distance(s, r as real) == Abs(y - 2 * r) as real;
    }
  }

  /** Half a grid step, measured in spacings. */
  lemma InSpacings(x: real, f: real, k: nat)
    ensures Distance(x, f) <= HALF_STEP <==> 46600.0 * Distance(Units(x, k), Units(f, k)) <= Shl(1, k) as real
  {
    UnitsScale(x, f, k);
    PowerIsWhole(k);
    hide Power, Shl, Distance, Units;
    var d, p := Distance(x, f), Power(k);
    var gap := 1.0 - 46600.0 * d;
    assert gap * p == p - 46600.0 * (d * p);
    assert gap >= 0.0 ==> gap * p >= 0.0;
    assert gap < 0.0 ==> gap * p < 0.0;
  }

  lemma PowerIsWhole(k: nat)
    ensures Power(k) == Shl(1, k) as real
  {
  }

  /** An angle whose grid angle is `steps` steps from zero, where the floats at the grid angle
      have the spacing 2^-k, and which is itself a multiple of half that spacing. */
  lemma KeptInBinade(x: real, steps: int, a: real, f: real, k: nat, y: int)
    requires 2 <= k <= 149 && a * GRID == steps as real && StoredAs(a, f)
    requires SIGNIFICAND as real <= Distance(Units(a, k), 0.0) <= 0x100_0000 as real
    requires Units(x, k + 1) == y as real
    ensures Distance(x, f) <= HALF_STEP <==> KeepsHalfStep(x, a, k)
  {
    hide Units, StoredAs, IsWhole, Distance, Shl;
    var r := StoredAsNearestMultiple(a, f, k);
    Symmetric(Units(a, k), r as real);
    GridInSpacings(a, steps, k);
    UnitsDouble(x, k);
    InSpacings(x, f, k);
    Decide(Units(x, k), Units(a, k), r, y, steps * Shl(1, k - 2), Shl(1, k));
  }

  lemma Symmetric(x: real, y: real)
    ensures Distance(x, y) == Distance(y, x)
  {
  }

  lemma GridInSpacings(a: real, steps: int, k: nat)
    requires k >= 2 && a * GRID == steps as real
    ensures 23300.0 * Units(a, k) == (4 * (steps * Shl(1, k - 2))) as real
  {
    assert Shl(1, k) == 4 * Shl(1, k - 2);
    var q := Shl(1, k - 2);
    assert Power(k) == 4.0 * q as real;
    hide Power, Shl;
    assert (steps * q) as real == steps as real * q as real;
    assert 23300.0 * (a * (4.0 * q as real)) == 4.0 * ((a * GRID) * q as real);
  }

  /** The spacing of the floats at an angle that is not zero: two to the minus this power. */
  ghost function Binade(a: real): (k: nat)
    requires 1.0 / 32768.0 <= Distance(a, 0.0) < 256.0
    ensures 16 <= k <= 38
    ensures SIGNIFICAND as real <= Distance(Units(a, k), 0.0) < 0x100_0000 as real
  {
    BinadeBounds(a);
    BinadeFrom(a, 16)
  }

  ghost function BinadeFrom(a: real, k: nat): (b: nat)
    requires 16 <= k <= 38
    requires Distance(Units(a, k), 0.0) < 0x100_0000 as real && Distance(Units(a, 38), 0.0) >= SIGNIFICAND as real
    ensures 16 <= b <= 38
    ensures SIGNIFICAND as real <= Distance(Units(a, b), 0.0) < 0x100_0000 as real
    decreases 38 - k
  {
    if Distance(Units(a, k), 0.0) >= SIGNIFICAND as real then k
    else
      UnitsDouble(a, k);
      BinadeFrom(a, k + 1)
  }

  lemma BinadeBounds(a: real)
    requires 1.0 / 32768.0 <= Distance(a, 0.0) < 256.0
    ensures Distance(Units(a, 16), 0.0) < 0x100_0000 as real
    ensures Distance(Units(a, 38), 0.0) >= SIGNIFICAND as real
  {
    LargePowers();
    hide Shl;
    assert Power(16) == 65536.0 && Power(38) == 274877906944.0;
    hide Power;
  }

  /** The grid angle an angle on the grid is rounded to. */
  function GridAngle(x: real, offset: int): real
    requires Castable(Scaled(x, offset as real))
  {
    Angle(CastU32(Scaled(x, offset as real)), offset as real)
  }

  /** How many grid steps that is from zero. */
  function GridSteps(x: real, offset: int): int
    requires Castable(Scaled(x, offset as real))
  {
    CastU32(Scaled(x, offset as real)) - 23300 * offset
  }

  /** Whether an angle stays within half a grid step of what arrives. */
  ghost predicate Kept(x: real, offset: int)
    requires Castable(Scaled(x, offset as real)) && 0 <= offset <= 180 && -(offset as real) <= x <= 200.0
  {
    var grid := GridAngle(x, offset);
    GridAngleSteps(x, offset);
    grid == 0.0 || KeepsHalfStep(x, grid, Binade(grid))
  }

  /** A grid angle is a whole number of steps from zero, so it is zero or not too close to it. */
  lemma GridAngleSteps(x: real, offset: int)
    requires Castable(Scaled(x, offset as real)) && 0 <= offset <= 180 && -(offset as real) <= x <= 200.0
    ensures GridAngle(x, offset) * GRID == GridSteps(x, offset) as real
    ensures GridAngle(x, offset) == 0.0 || 1.0 / 23300.0 <= Distance(GridAngle(x, offset), 0.0) < 256.0
    ensures Distance(GridAngle(x, offset), x) <= HALF_STEP
  {
    RoundsNear(x, offset as real);
  }

  /** An angle near its grid angle is a multiple of half the spacing of the floats there. */
  lemma NearbyFloat(x: real, a: real, k: nat) returns (y: int)
    requires IsFloat(x) && Distance(a, x) <= HALF_STEP && 1.0 / 23300.0 <= Distance(a, 0.0)
    requires SIGNIFICAND as real <= Distance(Units(a, k), 0.0)
    ensures Units(x, k + 1) == y as real
  {
    hide IsFloat, Units;
    UnitsOrder(a, x, k);
    y := FloatIsMultiple(x, k + 1);
  }

  lemma UnitsOrder(a: real, x: real, k: nat)
    requires Distance(a, 0.0) <= 2.0 * Distance(x, 0.0)
    ensures Distance(Units(a, k), 0.0) <= Distance(Units(x, k + 1), 0.0)
  {
    UnitsOfZero(k);
    UnitsScale(a, 0.0, k);
    UnitsScale(x, 0.0, k);
    UnitsDouble(x, k);
    var p := Power(k);
    hide Units, Power, Distance;
    Monotone(Distance(a, 0.0), 2.0 * Distance(x, 0.0), p);
    Doubled(Units(x, k), Units(x, k + 1));
    assert 2.0 * Distance(x, 0.0) * p == 2.0 * (Distance(x, 0.0) * p);
  }

  lemma Doubled(s: real, t: real)
    requires t == 2.0 * s
    ensures Distance(t, 0.0) == 2.0 * Distance(s, 0.0)
  {
  }

  lemma UnitsOfZero(k: nat)
    ensures Units(0.0, k) == 0.0
  {
  }

  /** For an angle that is itself a float, what arrives is within half a grid step of it exactly
      when few enough spacings lie between it and its grid angle. */
  lemma HalfStepExactly(x: real, offset: int, f: real)
    requires Castable(Scaled(x, offset as real)) && 0 <= offset <= 180 && -(offset as real) <= x <= 200.0
    requires IsFloat(x) && StoredAs(GridAngle(x, offset), f)
    ensures Distance(f, x) <= HALF_STEP <==> Kept(x, offset)
  {
    hide IsFloat, StoredAs, GridAngle, KeepsHalfStep, Units, Distance;
    var a := GridAngle(x, offset);
    GridAngleSteps(x, offset);
    if a == 0.0 {
      ZeroIsStored(f);
    } else {
      var k := Binade(a);
      var y := NearbyFloat(x, a, k);
      KeptInBinade(x, GridSteps(x, offset), a, f, k, y);
    }
    Symmetric(x, f);
  }

  lemma ZeroIsStored(f: real)
    requires StoredAs(0.0, f)
    ensures f == 0.0
  {
    ZeroIsFloat();
    StoredIsNearest(0.0, f, 0.0);
  }

  /** Every code has a position that a receiver may store. */
  lemma EveryCodeIsStored(c: Compact) returns (q: Position)
    requires c.Valid()
    ensures StoredPosition(c, q)
  {
    hide And, Or, UnpackLon, UnpackLat, UnpackAlt, PackCodes, Swap32, StoredAs;
    PackOfUnpack(c.compos);
    var p := Decompress(c);
    var lat := CodeIsStored(UnpackLat(c.compos), 90);
    var lon := CodeIsStored(UnpackLon(c.compos), 180);
    q := p.(lat := lat, lon := lon);
  }

  lemma CodeIsStored(code: nat, offset: nat) returns (f: real)
    requires code < 0x80_0000 && offset <= 180
    requires offset == 180 || code < 0x40_0000
    ensures StoredAs(Angle(code, offset as real), f)
  {
    hide IsFloat;
    var a := Angle(code, offset as real);
    assert a * GRID == code as real - offset as real * GRID;
    assert a * GRID == (code - 23300 * offset) as real;
    if a == 0.0 {
      ZeroIsFloat();
      f := 0.0;
    } else {
      f := NearestExists(a, Binade(a));
    }
  }

  /** The same for a whole position whose angles are floats, as the encoder's are. */
  lemma HalfStepKeptExactly(p: Position, q: Position)
    requires OnGrid(p) && Encodable(p) && IsFloat(p.lon) && IsFloat(p.lat) && StoredPosition(Compress(p), q)
    ensures Distance(q.lon, p.lon) <= HALF_STEP <==> Kept(p.lon, 180)
    ensures Distance(q.lat, p.lat) <= HALF_STEP <==> Kept(p.lat, 90)
  {
    hide And, Or, UnpackLon, UnpackLat, UnpackAlt, PackCodes, Swap32, StoredAs, IsFloat, Kept, Compress, Decompress;
    DecodedNear(p);
    HalfStepExactly(p.lon, 180, q.lon);
    HalfStepExactly(p.lat, 90, q.lat);
  }

  /** Where half a grid step is less than half a spacing more than a whole number of spacings,
      every multiple of the spacing is kept. */
  lemma MultiplesKept(x: real, offset: int)
    requires Castable(Scaled(x, offset as real)) && 0 <= offset <= 180 && -(offset as real) <= x <= 200.0
    requires var a := GridAngle(x, offset);
             1.0 / 32768.0 <= Distance(a, 0.0) < 256.0
             && IsWhole(Units(x, Binade(a))) && Shl(1, Binade(a)) % 46600 < 23300
    ensures Kept(x, offset)
  {
    hide Units, Distance, GridAngle, IsWhole;
    var a := GridAngle(x, offset);
    var k := Binade(a);
    GridAngleSteps(x, offset);
    InSpacings(a, x, k);
    Symmetric(Units(a, k), Units(x, k));
    QuotientBelow(Distance(Units(x, k), Units(a, k)), Shl(1, k));
  }

  lemma QuotientBelow(d: real, p: nat)
    requires 46600.0 * d <= p as real && p % 46600 < 23300
    ensures d < (p / 46600) as real + 0.5
  {
    assert p == 46600 * (p / 46600) + p % 46600;
  }

  /** So every float longitude from 129 degrees on, east or west, is kept. */
  lemma FarLongitudesKept(x: real)
    requires IsFloat(x) && 129.0 <= Distance(x, 0.0) <= 180.0
    ensures Castable(Scaled(x, 180.0)) && Kept(x, 180)
  {
    LargePowers();
    hide IsFloat, Shl, Kept, GridAngle;
    assert Power(16) == 65536.0;
    hide Power;
    GridAngleSteps(x, 180);
    assert Binade(GridAngle(x, 180)) == 16;
    var m := FloatIsMultiple(x, 16);
    FloorIs(Units(x, 16), m);
    MultiplesKept(x, 180);
  }

  /** A float latitude that arrives off by more than half a grid step. */
  const FAR_LATITUDE := -8944328.0 / 131072.0

  lemma HalfStepExceeded(q: Position)
    requires var p := Position(FAR_LATITUDE, 0.0, 0, 0);
             OnGrid(p) && Encodable(p) && StoredPosition(Compress(p), q)
    ensures IsFloat(FAR_LATITUDE) && Distance(q.lat, FAR_LATITUDE) > HALF_STEP
  {
    hide And, Or, UnpackLon, UnpackLat, UnpackAlt, PackCodes, Swap32, StoredAs, Compress, Decompress;
    var p := Position(FAR_LATITUDE, 0.0, 0, 0);
    LargePowers();
    hide Shl;
    assert Power(16) == 65536.0 && Power(17) == 131072.0;
    hide Power;
    assert IsFraction(FAR_LATITUDE, -8944328, 17);
    hide IsFloat;
    DecodedNear(p);
    FloorIs(Scaled(FAR_LATITUDE, 90.0), 507012);
    var a := GridAngle(FAR_LATITUDE, 90);
    assert a * GRID == -1589988.0;
    assert Binade(a) == 17;
    FloorIs(Units(FAR_LATITUDE, 17), -8944328);
    assert !Kept(FAR_LATITUDE, 90);
    HalfStepExactly(FAR_LATITUDE, 90, q.lat);
  }
}
