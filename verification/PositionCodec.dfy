/** An aircraft position in 56 bits: longitude and latitude on a grid of 1/23300 degree,
    altitude in steps of 25. */
module PositionCodec {
  import opened CArith
  import opened Bits
  import opened FloatStorage

  type uint32 = x: int | 0 <= x < 0x1_0000_0000

  datatype Position = Position(lat: real, lon: real, altitude: uint32, timestamp: uint32)

  datatype Compact = Compact(compos: seq<byte>, timestamp: uint32) {
    predicate Valid() {
      |compos| == 7
    }
  }

  const GRID := 23300.0

  /** Half a grid step, in degrees. */
  const HALF_STEP := 1.0 / 46600.0

  /** The operand of a cast to `uint32_t` that the cast can represent. */
  predicate Castable(x: real) {
    -1.0 < x < 0x1_0000_0000 as real
  }

  function CastU32(x: real): uint32
    requires Castable(x)
  {
    CTrunc(x)
  }

  function Scaled(degrees: real, offset: real): real {
    (degrees + offset) * GRID + 0.5
  }

  predicate Encodable(p: Position) {
    Castable(Scaled(p.lon, 180.0)) && Castable(Scaled(p.lat, 90.0))
  }

  /** `csp_hton32` and `csp_ntoh32` on a little-endian host. */
  function Swap32(x: uint32): uint32 {
    0x100_0000 * (x % 256) + 0x1_0000 * (x / 0x100 % 256) + 0x100 * (x / 0x1_0000 % 256) + x / 0x100_0000 % 256
  }

  // ---------------------------------------------------------------------------------------
  // Compression
  // ---------------------------------------------------------------------------------------

  function PackCodes(lon: nat, lat: nat, alt: nat): (c: seq<byte>)
    ensures |c| == 7
  {
    [U8(lon / 32768),
     U8(lon / 128),
     U8(Or(lon * 2, lat / 0x20_0000)),
     U8(lat / 8192),
     U8(lat / 32),
     U8(Or(lat * 8, alt / 256)),
     U8(And(alt, 0xFF))]
  }

  function LonCode(p: Position): nat
    requires Encodable(p)
  {
    And(CastU32(Scaled(p.lon, 180.0)), 0x7F_FFFF)
  }

  function LatCode(p: Position): nat
    requires Encodable(p)
  {
    And(CastU32(Scaled(p.lat, 90.0)), 0x3F_FFFF)
  }

  function AltCode(p: Position): nat {
    And(CastU32((p.altitude / 25) as real + 0.5), 0x7FF)
  }

  function Compress(p: Position): (c: Compact)
    requires Encodable(p)
    ensures c.Valid()
  {
    Compact(PackCodes(LonCode(p), LatCode(p), AltCode(p)), Swap32(p.timestamp))
  }

  // ---------------------------------------------------------------------------------------
  // Decompression
  // ---------------------------------------------------------------------------------------

  function UnpackLon(c: seq<byte>): nat
    requires |c| == 7
  {
    var c0: nat, c1: nat, c2: nat := c[0], c[1], c[2];
    Or(Or(c0 * 32768, c1 * 128), c2 / 2)
  }

  function UnpackLat(c: seq<byte>): nat
    requires |c| == 7
  {
    var c2: nat, c3: nat, c4: nat, c5: nat := c[2], c[3], c[4], c[5];
    Or(Or(Or(And(c2, 1) * 0x20_0000, c3 * 8192), c4 * 32), And(c5, 0xF8) / 8)
  }

  function UnpackAlt(c: seq<byte>): nat
    requires |c| == 7
  {
    var c5: nat, c6: nat := c[5], c[6];
    Or(And(c5, 0x7) * 256, c6)
  }

  /** The position of a code, before its angles are stored as single-precision floats. */
  function Decompress(c: Compact): Position
    requires c.Valid()
  {
    AltitudeFits(c.compos);
    Position(UnpackLat(c.compos) as real / GRID - 90.0, UnpackLon(c.compos) as real / GRID - 180.0,
             UnpackAlt(c.compos) * 25, Swap32(c.timestamp))
  }

  lemma AltitudeFits(c: seq<byte>)
    requires |c| == 7
    ensures UnpackAlt(c) < 2048
  {
    UnpackedValues(c);
  }

  // ---------------------------------------------------------------------------------------
  // Bytes and codes
  // ---------------------------------------------------------------------------------------

  lemma UnpackedLon(c0: nat, c1: nat, c2: nat)
    requires c0 < 256 && c1 < 256 && c2 < 256
    ensures Or(Or(c0 * 32768, c1 * 128), c2 / 2) == 32768 * c0 + 128 * c1 + c2 / 2
  {
    hide Or;
    Powers();
    Join(c0, c1 * 128, 15, 32768);
    Join(256 * c0 + c1, c2 / 2, 7, 128);
    assert c0 * 32768 + c1 * 128 == (256 * c0 + c1) * 128;
  }

  lemma UnpackedLat(c2: nat, c3: nat, c4: nat, c5: nat)
    requires c2 < 256 && c3 < 256 && c4 < 256 && c5 < 256
    ensures Or(Or(Or(And(c2, 1) * 0x20_0000, c3 * 8192), c4 * 32), And(c5, 0xF8) / 8)
         == 0x20_0000 * (c2 % 2) + 8192 * c3 + 32 * c4 + c5 / 8
  {
    hide Or, And;
    Powers();
    MaskLow(c2, 1, 2, 1);
    MaskHigh(c5, 3, 5, 8, 32, 0xF8);
    assert And(c5, 0xF8) / 8 == c5 / 8 % 32 == c5 / 8;
    Join(c2 % 2, c3 * 8192, 21, 0x20_0000);
    assert c2 % 2 * 0x20_0000 + c3 * 8192 == (256 * (c2 % 2) + c3) * 8192;
    Join(256 * (c2 % 2) + c3, c4 * 32, 13, 8192);
    assert (256 * (c2 % 2) + c3) * 8192 + c4 * 32 == (65536 * (c2 % 2) + 256 * c3 + c4) * 32;
    Join(65536 * (c2 % 2) + 256 * c3 + c4, c5 / 8, 5, 32);
  }

  lemma UnpackedAlt(c5: nat, c6: nat)
    requires c5 < 256 && c6 < 256
    ensures Or(And(c5, 0x7) * 256, c6) == 256 * (c5 % 8) + c6
  {
    hide Or, And;
    Powers();
    MaskLow(c5, 3, 8, 0x7);
    Join(c5 % 8, c6, 8, 256);
  }

  lemma UnpackedValues(c: seq<byte>)
    requires |c| == 7
    ensures UnpackLon(c) == 32768 * c[0] as int + 128 * c[1] as int + c[2] as int / 2
    ensures UnpackLat(c) == 0x20_0000 * (c[2] as int % 2) + 8192 * c[3] as int + 32 * c[4] as int + c[5] as int / 8
    ensures UnpackAlt(c) == 256 * (c[5] as int % 8) + c[6] as int
  {
    hide Or, And;
    UnpackedLon(c[0], c[1], c[2]);
    UnpackedLat(c[2], c[3], c[4], c[5]);
    UnpackedAlt(c[5], c[6]);
  }

  /** The seven bytes of three codes that fit their fields. */
  lemma PackedValues(lon: nat, lat: nat, alt: nat)
    requires lon < 0x80_0000 && lat < 0x40_0000 && alt < 0x800
    ensures PackCodes(lon, lat, alt)
         == [lon / 32768, lon / 128 % 256, lon % 128 * 2 + lat / 0x20_0000, lat / 8192 % 256, lat / 32 % 256,
             lat % 32 * 8 + alt / 256, alt % 256]
  {
    hide Or, And;
    Powers();
    Join(lon, lat / 0x20_0000, 1, 2);
    DivModUnique(lon * 2 + lat / 0x20_0000, 256, lon / 128, lon % 128 * 2 + lat / 0x20_0000);
    Join(lat, alt / 256, 3, 8);
    DivModUnique(lat * 8 + alt / 256, 256, lat / 32, lat % 32 * 8 + alt / 256);
    MaskLow(alt, 8, 256, 0xFF);
  }

  /** Codes survive the bytes. */
  lemma UnpackOfPack(lon: nat, lat: nat, alt: nat)
    requires lon < 0x80_0000 && lat < 0x40_0000 && alt < 0x800
    ensures var c := PackCodes(lon, lat, alt);
            UnpackLon(c) == lon && UnpackLat(c) == lat && UnpackAlt(c) == alt
  {
    hide UnpackLon, UnpackLat, UnpackAlt;
    PackedValues(lon, lat, alt);
    var c := PackCodes(lon, lat, alt);
    UnpackedValues(c);
    hide PackCodes;
    DivModUnique(lon % 128 * 2 + lat / 0x20_0000, 2, lon % 128, lat / 0x20_0000);
    DivModUnique(lat % 32 * 8 + alt / 256, 8, lat % 32, alt / 256);
    LonPieces(lon);
    LatPieces(lat);
  }

  lemma LonPieces(x: nat)
    requires x < 0x80_0000
    ensures 32768 * (x / 32768) + 128 * (x / 128 % 256) + x % 128 == x
  {
    assert x / 32768 == x / 128 / 256;
  }

  lemma LatPieces(x: nat)
    requires x < 0x40_0000
    ensures 0x20_0000 * (x / 0x20_0000) + 8192 * (x / 8192 % 256) + 32 * (x / 32 % 256) + x % 32 == x
  {
    assert x / 8192 == x / 32 / 256;
    assert x / 0x20_0000 == x / 8192 / 256;
  }

  /** Bytes survive the codes: all 56 bits are used. */
  lemma PackOfUnpack(c: seq<byte>)
    requires |c| == 7
    ensures UnpackLon(c) < 0x80_0000 && UnpackLat(c) < 0x40_0000 && UnpackAlt(c) < 0x800
    ensures PackCodes(UnpackLon(c), UnpackLat(c), UnpackAlt(c)) == c
  {
    hide UnpackLon, UnpackLat, UnpackAlt, PackCodes;
    UnpackedValues(c);
    var c0: nat, c1: nat, c2: nat, c3: nat, c4: nat, c5: nat, c6: nat := c[0], c[1], c[2], c[3], c[4], c[5], c[6];
    var lon, lat, alt := UnpackLon(c), UnpackLat(c), UnpackAlt(c);
    PackedValues(lon, lat, alt);
    DivModUnique(lon, 32768, c0, 128 * c1 + c2 / 2);
    Slice(lon, 128, 256, c0, c1, c2 / 2);
    DivModUnique(lon, 128, 256 * c0 + c1, c2 / 2);
    DivModUnique(lat, 0x20_0000, c2 % 2, 8192 * c3 + 32 * c4 + c5 / 8);
    Slice(lat, 8192, 256, c2 % 2, c3, 32 * c4 + c5 / 8);
    Slice(lat, 32, 256, 256 * (c2 % 2) + c3, c4, c5 / 8);
    DivModUnique(lat, 32, 65536 * (c2 % 2) + 256 * c3 + c4, c5 / 8);
    DivModUnique(alt, 256, c5 % 8, c6);
  }

  /** The four bytes of a timestamp are sent and received in the opposite order. */
  lemma SwapReversesBytes(x: uint32)
    ensures var y := Swap32(x);
            && y % 256 == x / 0x100_0000 && y / 0x100 % 256 == x / 0x1_0000 % 256
            && y / 0x1_0000 % 256 == x / 0x100 % 256 && y / 0x100_0000 == x % 256
  {
    var a, b, c, d := x % 256, x / 0x100 % 256, x / 0x1_0000 % 256, x / 0x100_0000 % 256;
    var y := Swap32(x);
    Slice(y, 1, 256, 0x1_0000 * a + 0x100 * b + c, d, 0);
    Slice(y, 0x100, 256, 0x100 * a + b, c, d);
    Slice(y, 0x1_0000, 256, a, b, 0x100 * c + d);
    DivModUnique(y, 0x100_0000, a, 0x1_0000 * b + 0x100 * c + d);
  }

  lemma SwapTwice(x: uint32)
    ensures Swap32(Swap32(x)) == x
  {
    var a, b, c, d := x % 256, x / 0x100 % 256, x / 0x1_0000 % 256, x / 0x100_0000 % 256;
    var y := Swap32(x);
    FourBytes(x);
    Slice(y, 1, 256, 0x1_0000 * a + 0x100 * b + c, d, 0);
    Slice(y, 0x100, 256, 0x100 * a + b, c, d);
    Slice(y, 0x1_0000, 256, a, b, 0x100 * c + d);
    Slice(y, 0x100_0000, 256, 0, a, 0x1_0000 * b + 0x100 * c + d);
  }

  lemma FourBytes(x: uint32)
    ensures x == x % 256 + 0x100 * (x / 0x100 % 256) + 0x1_0000 * (x / 0x1_0000 % 256) + 0x100_0000 * (x / 0x100_0000 % 256)
  {
    assert x / 0x1_0000 == x / 0x100 / 256;
    assert x / 0x100_0000 == x / 0x1_0000 / 256;
  }

  // ---------------------------------------------------------------------------------------
  // Rounding to the grid
  // ---------------------------------------------------------------------------------------

  /** The angle of a code. */
  function Angle(code: nat, offset: real): real {
    code as real / GRID - offset
  }

  /** An angle off a grid point rounds back to it exactly when it is off by less than half a
      step, or by exactly half a step downward. At the first grid point the cast truncates
      upward, so there any castable angle below rounds back too. */
  lemma RoundsBack(code: nat, offset: real, e: real)
    requires Castable(Scaled(Angle(code, offset) + e, offset))
    ensures CastU32(Scaled(Angle(code, offset) + e, offset)) == code
       <==> (code == 0 || -HALF_STEP <= e) && e < HALF_STEP
  {
    var x := Scaled(Angle(code, offset) + e, offset);
    assert x == code as real + e * GRID + 0.5;
    if x < 0.0 {
      FloorIs(-x, 0);
    } else if -HALF_STEP <= e < HALF_STEP {
      FloorIs(x, code);
    }
  }

  /** The angle of the rounded code is within half a step of the angle. */
  lemma RoundsNear(degrees: real, offset: real)
    requires degrees >= -offset && Castable(Scaled(degrees, offset))
    ensures -HALF_STEP <= Angle(CastU32(Scaled(degrees, offset)), offset) - degrees <= HALF_STEP
  {
    var x := Scaled(degrees, offset);
    var n := CastU32(x);
    assert n as real <= x < n as real + 1.0;
    assert Angle(n, offset) - degrees == (n as real + 0.5 - x) / GRID;
  }

  /** Half a unit more, cast down, leaves a whole number as it is. */
  lemma AltitudeRounds(altitude: uint32)
    ensures CastU32((altitude / 25) as real + 0.5) == altitude / 25
  {
    FloorIs((altitude / 25) as real + 0.5, altitude / 25);
  }

  // ---------------------------------------------------------------------------------------
  // Re-encoding is stable
  // ---------------------------------------------------------------------------------------

  predicate Within(x: real, y: real, bound: real) {
    -bound < x - y < bound
  }

  lemma CodeIsStable(code: nat, offset: real, degrees: real, limit: nat)
    requires code < limit <= 0x80_0000 && Within(degrees, Angle(code, offset), HALF_STEP)
    ensures Castable(Scaled(degrees, offset)) && CastU32(Scaled(degrees, offset)) == code
  {
    var e := degrees - Angle(code, offset);
    var x := Scaled(degrees, offset);
    assert x == code as real + e * GRID + 0.5;
    assert Scaled(Angle(code, offset) + e, offset) == x;
    RoundsBack(code, offset, e);
  }

  /** Every 7-byte code is reproduced when its position is compressed again, with any error
      below half a grid step in either angle. */
  lemma ReencodingStable(c: Compact, q: Position)
    requires c.Valid()
    requires var p := Decompress(c);
             && Within(q.lat, p.lat, HALF_STEP) && Within(q.lon, p.lon, HALF_STEP)
             && q.altitude == p.altitude && q.timestamp == p.timestamp
    ensures Encodable(q) && Compress(q) == c
  {
    hide And, Or, UnpackLon, UnpackLat, UnpackAlt, PackCodes, Swap32, Scaled;
    var lon, lat, alt := UnpackLon(c.compos), UnpackLat(c.compos), UnpackAlt(c.compos);
    PackOfUnpack(c.compos);
    CodeIsStable(lon, 180.0, q.lon, 0x80_0000);
    CodeIsStable(lat, 90.0, q.lat, 0x40_0000);
    AltitudeRounds(q.altitude);
    assert q.altitude / 25 == alt;
    NothingMasked(lon, lat, alt);
    SwapTwice(c.timestamp);
  }

  /** A code that fits its field passes its mask. */
  lemma NothingMasked(lon: nat, lat: nat, alt: nat)
    ensures And(lon, 0x7F_FFFF) == lon <==> lon < 0x80_0000
    ensures And(lat, 0x3F_FFFF) == lat <==> lat < 0x40_0000
    ensures And(alt, 0x7FF) == alt <==> alt < 0x800
  {
    hide And;
    Powers();
    MaskLow(lon, 23, 0x80_0000, 0x7F_FFFF);
    MaskLow(lat, 22, 0x40_0000, 0x3F_FFFF);
    MaskLow(alt, 11, 0x800, 0x7FF);
  }

  // ---------------------------------------------------------------------------------------
  // What compression loses
  // ---------------------------------------------------------------------------------------

  /** Positions whose three codes fit their fields. */
  predicate OnGrid(p: Position) {
    && p.lon >= -180.0 && Scaled(p.lon, 180.0) < 0x80_0000 as real
    && p.lat >= -90.0 && Scaled(p.lat, 90.0) < 0x40_0000 as real
    && p.altitude < 51200
  }

  /** Every position on the globe below 51200 is on the grid. */
  lemma GlobeIsOnGrid(p: Position)
    requires -180.0 <= p.lon <= 180.0 && -90.0 <= p.lat <= 90.0 && p.altitude < 51200
    ensures OnGrid(p)
  {
  }

  lemma CodesOnGrid(p: Position)
    requires OnGrid(p)
    ensures Encodable(p)
    ensures LonCode(p) == CastU32(Scaled(p.lon, 180.0)) < 0x80_0000
    ensures LatCode(p) == CastU32(Scaled(p.lat, 90.0)) < 0x40_0000
    ensures AltCode(p) == p.altitude / 25 < 0x800
  {
    hide And;
    AltitudeRounds(p.altitude);
    NothingMasked(CastU32(Scaled(p.lon, 180.0)), CastU32(Scaled(p.lat, 90.0)), p.altitude / 25);
  }

  /** Bytes read as one number, the first the most significant. */
  function BigEndian(c: seq<byte>): nat {
    if |c| == 0 then 0 else 256 * BigEndian(c[..|c| - 1]) + c[|c| - 1]
  }

  lemma OneMoreByte(c: seq<byte>, n: nat)
    requires n < |c|
    ensures BigEndian(c[..n + 1]) == 256 * BigEndian(c[..n]) + c[n]
  {
    assert c[..n + 1][..n] == c[..n];
  }

  lemma SevenBytes(c: seq<byte>)
    requires |c| == 7
    ensures var c0: nat, c1: nat, c2: nat, c3: nat, c4: nat, c5: nat, c6: nat
              := c[0], c[1], c[2], c[3], c[4], c[5], c[6];
            BigEndian(c) == 0x1_0000_0000 * (0x1_0000 * c0 + 0x100 * c1 + c2)
                            + (0x100_0000 * c3 + 0x1_0000 * c4 + 0x100 * c5 + c6)
  {
    FirstThree(c);
    hide BigEndian;
    var high := BigEndian(c[..3]);
    OneMoreByte(c, 3);
    OneMoreByte(c, 4);
    OneMoreByte(c, 5);
    OneMoreByte(c, 6);
    assert c[..7] == c;
    var c3: nat, c4: nat, c5: nat, c6: nat := c[3], c[4], c[5], c[6];
    hide *;
    assert 256 * (256 * (256 * (256 * high + c3) + c4) + c5) + c6
        == 0x1_0000_0000 * high + (0x100_0000 * c3 + 0x1_0000 * c4 + 0x100 * c5 + c6);
  }

  lemma FirstThree(c: seq<byte>)
    requires |c| >= 3
    ensures var c0: nat, c1: nat, c2: nat := c[0], c[1], c[2];
            BigEndian(c[..3]) == 0x1_0000 * c0 + 0x100 * c1 + c2
  {
    assert BigEndian(c[..0]) == 0;
    hide BigEndian;
    OneMoreByte(c, 0);
    OneMoreByte(c, 1);
    OneMoreByte(c, 2);
  }

  /** The seven bytes are one big-endian number of 56 bits: 23 of longitude, 22 of latitude and
      11 of altitude. */
  lemma PackedWord(lon: nat, lat: nat, alt: nat)
    requires lon < 0x80_0000 && lat < 0x40_0000 && alt < 0x800
    ensures BigEndian(PackCodes(lon, lat, alt)) == 0x2_0000_0000 * lon + 0x800 * lat + alt
  {
    hide PackCodes, BigEndian;
    PackedValues(lon, lat, alt);
    SevenBytes(PackCodes(lon, lat, alt));
    LonPieces(lon);
    LatPieces(lat);
  }

  /** What is sent for any position the encoder can cast, on the grid or off it: each code
      modulo the size of its field, and the timestamp's bytes in the opposite order. */
  lemma SentForm(p: Position)
    requires Encodable(p)
    ensures var c := Compress(p);
            && BigEndian(c.compos) == 0x2_0000_0000 * (CastU32(Scaled(p.lon, 180.0)) % 0x80_0000)
                                      + 0x800 * (CastU32(Scaled(p.lat, 90.0)) % 0x40_0000)
                                      + p.altitude / 25 % 0x800
            && c.timestamp % 256 == p.timestamp / 0x100_0000
            && c.timestamp / 0x100 % 256 == p.timestamp / 0x1_0000 % 256
            && c.timestamp / 0x1_0000 % 256 == p.timestamp / 0x100 % 256
            && c.timestamp / 0x100_0000 == p.timestamp % 256
  {
    hide And, PackCodes, BigEndian, Swap32, Scaled;
    MasksAreRemainders(p);
    PackedWord(LonCode(p), LatCode(p), AltCode(p));
    SwapReversesBytes(p.timestamp);
  }

  lemma MasksAreRemainders(p: Position)
    requires Encodable(p)
    ensures LonCode(p) == CastU32(Scaled(p.lon, 180.0)) % 0x80_0000
    ensures LatCode(p) == CastU32(Scaled(p.lat, 90.0)) % 0x40_0000
    ensures AltCode(p) == p.altitude / 25 % 0x800
  {
    hide And;
    Powers();
    AltitudeRounds(p.altitude);
    MaskLow(CastU32(Scaled(p.lon, 180.0)), 23, 0x80_0000, 0x7F_FFFF);
    MaskLow(CastU32(Scaled(p.lat, 90.0)), 22, 0x40_0000, 0x3F_FFFF);
    MaskLow(p.altitude / 25, 11, 0x800, 0x7FF);
  }

  /** And what is received: the position whose codes the 56 bits are, the timestamp's bytes in
      the opposite order. */
  lemma ReceivedForm(c: Compact)
    requires c.Valid()
    ensures var q := Decompress(c);
            var lon, lat, alt := (q.lon + 180.0) * GRID, (q.lat + 90.0) * GRID, q.altitude / 25;
            && BigEndian(c.compos) as real == 8589934592.0 * lon + 2048.0 * lat + alt as real
            && lon == lon.Floor as real && 0.0 <= lon < 8388608.0
            && lat == lat.Floor as real && 0.0 <= lat < 4194304.0
            && q.altitude == 25 * alt && alt < 2048
            && q.timestamp % 256 == c.timestamp / 0x100_0000
            && q.timestamp / 0x100 % 256 == c.timestamp / 0x1_0000 % 256
            && q.timestamp / 0x1_0000 % 256 == c.timestamp / 0x100 % 256
            && q.timestamp / 0x100_0000 == c.timestamp % 256
  {
    hide And, Or, UnpackLon, UnpackLat, UnpackAlt, PackCodes, Swap32, BigEndian;
    PackOfUnpack(c.compos);
    PackedWord(UnpackLon(c.compos), UnpackLat(c.compos), UnpackAlt(c.compos));
    SwapReversesBytes(c.timestamp);
    var q := Decompress(c);
    assert (q.lon + 180.0) * GRID == UnpackLon(c.compos) as real;
    assert (q.lat + 90.0) * GRID == UnpackLat(c.compos) as real;
  }

  /** Off the grid the altitude is the first thing lost: it comes back rounded down to a
      multiple of 25 if and only if it is below 51200. */
  lemma AltitudeSurvives(p: Position)
    requires Encodable(p)
    ensures Decompress(Compress(p)).altitude == p.altitude - p.altitude % 25 <==> p.altitude < 51200
  {
    hide And, Or, UnpackLon, UnpackLat, UnpackAlt, PackCodes, Swap32, Scaled, LonCode, LatCode, AltCode;
    MasksAreRemainders(p);
    UnpackOfPack(LonCode(p), LatCode(p), AltCode(p));
  }

  /** No mask drops a bit, and before they are stored both angles are within half a grid step;
      the altitude is rounded down to a multiple of 25, the timestamp is as it was. */
  lemma DecodedNear(p: Position)
    requires OnGrid(p)
    ensures Encodable(p)
    ensures var q := Decompress(Compress(p));
            && q.lon == Angle(CastU32(Scaled(p.lon, 180.0)), 180.0)
            && q.lat == Angle(CastU32(Scaled(p.lat, 90.0)), 90.0)
            && Distance(q.lon, p.lon) <= HALF_STEP && Distance(q.lat, p.lat) <= HALF_STEP
            && q.altitude == p.altitude - p.altitude % 25
            && q.timestamp == p.timestamp
  {
    hide And, Or, UnpackLon, UnpackLat, UnpackAlt, PackCodes, Swap32, LonCode, LatCode, AltCode;
    CodesOnGrid(p);
    UnpackOfPack(LonCode(p), LatCode(p), AltCode(p));
    RoundsNear(p.lon, 180.0);
    RoundsNear(p.lat, 90.0);
    SwapTwice(p.timestamp);
  }
}
