/** The six bytes in front of a packet file: the 32-bit CSP 1.x identifier, packed byte by
    byte on the way down, unpacked into decimal text on the way up, and read back. */
module CspHeader {
  import opened CArith
  import opened Bits
  import opened Numerals

  /** The fields of an identifier as the downlink writes them. */
  datatype Id = Id(prio: byte, src: byte, dst: byte, dport: byte, sport: byte, reserve: byte, flags: byte)

  type Length = n: int | 0 <= n < 0x1_0000

  // ---------------------------------------------------------------------------------------
  // Packing
  // ---------------------------------------------------------------------------------------

  function Byte0(h: Id): byte {
    U8(Or(Or(And(h.prio * 64, 0xC0), And(h.src * 2, 0x3E)), And(h.dst / 16, 0x01)))
  }

  function Byte1(h: Id): byte {
    U8(Or(And(h.dst * 16, 0xF0), And(h.dport / 4, 0x0F)))
  }

  function Byte2(h: Id): byte {
    U8(Or(And(h.dport * 64, 0xC0), And(h.sport, 0x3F)))
  }

  function Byte3(h: Id): byte {
    U8(Or(And(h.reserve * 16, 0xF0), And(h.flags, 0x0F)))
  }

  function Pack(h: Id, length: Length): (b: seq<byte>)
    ensures |b| == 6
  {
    [Byte0(h), Byte1(h), Byte2(h), Byte3(h), U8(length / 256), U8(length)]
  }

  /** The big-endian word of four bytes. */
  function Word(b0: nat, b1: nat, b2: nat, b3: nat): nat {
    0x100_0000 * b0 + 0x1_0000 * b1 + 0x100 * b2 + b3
  }

  function Word32(b: seq<byte>): nat
    requires |b| >= 4
  {
    Word(b[0], b[1], b[2], b[3])
  }

  /** The identifier as CSP 1.x lays it out: two bits of priority, five of source, five of
      destination, six of destination port, six of source port, eight of flags. */
  function Layout(h: Id): nat {
    0x4000_0000 * (h.prio % 4) + 0x200_0000 * (h.src % 32) + 0x10_0000 * (h.dst % 32)
    + 0x4000 * (h.dport % 64) + 0x100 * (h.sport % 64) + 0x10 * (h.reserve % 16) + h.flags % 16
  }

  method FillHeader(h: Id, length: Length, header: array<byte>)
    requires header.Length == 6
    modifies header
    ensures header[..] == Pack(h, length)
    ensures Word32(header[..]) == Layout(h)
    ensures header[4] == length / 256 && header[5] == length % 256
  {
    hide Byte0, Byte1, Byte2, Byte3, Layout, Word;
    header[0] := Byte0(h);
    header[1] := Byte1(h);
    header[2] := Byte2(h);
    header[3] := Byte3(h);
    header[4] := U8(length / 256);
    header[5] := U8(length);
    assert header[..] == Pack(h, length);
    PackFollowsLayout(h, length);
  }

  lemma Byte0High(h: Id)
    ensures Or(And(h.prio * 64, 0xC0), And(h.src * 2, 0x3E)) == (h.prio % 4 * 32 + h.src % 32) * 2
  {
    Powers();
    MaskMoved(h.prio, 6, 2, 64, 4, 0xC0);
    MaskMoved(h.src, 1, 5, 2, 32, 0x3E);
    Join(h.prio % 4, h.src % 32 * 2, 6, 64);
  }

  lemma Byte0Value(h: Id)
    ensures Byte0(h) == 64 * (h.prio % 4) + 2 * (h.src % 32) + h.dst / 16 % 2
  {
    hide And, Or;
    Powers();
    var p, s, d := h.prio % 4, h.src % 32, h.dst / 16 % 2;
    Byte0High(h);
    MaskLow(h.dst / 16, 1, 2, 0x01);
    Join(p * 32 + s, d, 1, 2);
  }

  lemma Byte1Value(h: Id)
    ensures Byte1(h) == 16 * (h.dst % 16) + h.dport / 4 % 16
  {
    Powers();
    MaskMoved(h.dst, 4, 4, 16, 16, 0xF0);
    MaskLow(h.dport / 4, 4, 16, 0x0F);
    Join(h.dst % 16, h.dport / 4 % 16, 4, 16);
  }

  lemma Byte2Value(h: Id)
    ensures Byte2(h) == 64 * (h.dport % 4) + h.sport % 64
  {
    Powers();
    MaskMoved(h.dport, 6, 2, 64, 4, 0xC0);
    MaskLow(h.sport, 6, 64, 0x3F);
    Join(h.dport % 4, h.sport % 64, 6, 64);
  }

  lemma Byte3Value(h: Id)
    ensures Byte3(h) == 16 * (h.reserve % 16) + h.flags % 16
  {
    Powers();
    MaskMoved(h.reserve, 4, 4, 16, 16, 0xF0);
    MaskLow(h.flags, 4, 16, 0x0F);
    Join(h.reserve % 16, h.flags % 16, 4, 16);
  }

  lemma FiveBits(x: nat)
    ensures x % 32 == 16 * (x / 16 % 2) + x % 16
  {
  }

  lemma SixBits(x: nat)
    ensures x % 64 == 4 * (x / 4 % 16) + x % 4
  {
  }

  /** The packed bytes are the CSP identifier, for any field values: what does not fit a
      field's width is cut off and disturbs no other field. */
  lemma PackFollowsLayout(h: Id, length: Length)
    ensures Word32(Pack(h, length)) == Layout(h)
  {
    Byte0Value(h);
    Byte1Value(h);
    Byte2Value(h);
    Byte3Value(h);
    FiveBits(h.dst);
    SixBits(h.dport);
  }

  // ---------------------------------------------------------------------------------------
  // Unpacking
  // ---------------------------------------------------------------------------------------

  datatype Params = Params(pri: nat, src: nat, dst: nat, dstPort: nat, srcPort: nat,
                           hmac: nat, xtea: nat, rdp: nat, crc: nat, dataLength: nat)

  function Decode(b: seq<byte>): Params
    requires |b| == 6
  {
    var b0: nat, b1: nat, b2: nat, b3: nat, b5: nat := b[0], b[1], b[2], b[3], b[5];
    Params(
      And(b0 / 64, 0x03),
      And(b0 / 2, 0x1F),
      And(Or(b0 * 256, b1) / 16, 0x1F),
      And(Or(b1 * 256, b2) / 64, 0x3F),
      And(Or(b1 * 256, b2), 0x3F),
      And(b3 / 8, 0x01),
      And(b3 / 4, 0x01),
      And(b3 / 2, 0x01),
      And(b3, 0x01),
      And(b5, 0xFF))
  }

  /** What the shifts and masks read, in terms of the bytes. */
  function BytesDecoded(b0: nat, b1: nat, b2: nat, b3: nat, b5: nat): Params {
    Params(b0 / 64 % 4, b0 / 2 % 32, (b0 * 256 + b1) / 16 % 32, (b1 * 256 + b2) / 64 % 64,
           (b1 * 256 + b2) % 64, b3 / 8 % 2, b3 / 4 % 2, b3 / 2 % 2, b3 % 2, b5 % 256)
  }

  lemma AddressesDecoded(b0: nat, b1: nat)
    requires b0 < 256 && b1 < 256
    ensures And(b0 / 64, 0x03) == b0 / 64 % 4 && And(b0 / 2, 0x1F) == b0 / 2 % 32
    ensures And(Or(b0 * 256, b1) / 16, 0x1F) == (b0 * 256 + b1) / 16 % 32
  {
    Powers();
    MaskLow(b0 / 64, 2, 4, 0x03);
    MaskLow(b0 / 2, 5, 32, 0x1F);
    Join(b0, b1, 8, 256);
    MaskLow((b0 * 256 + b1) / 16, 5, 32, 0x1F);
  }

  lemma PortsDecoded(b1: nat, b2: nat)
    requires b1 < 256 && b2 < 256
    ensures And(Or(b1 * 256, b2) / 64, 0x3F) == (b1 * 256 + b2) / 64 % 64
    ensures And(Or(b1 * 256, b2), 0x3F) == (b1 * 256 + b2) % 64
  {
    Powers();
    Join(b1, b2, 8, 256);
    MaskLow((b1 * 256 + b2) / 64, 6, 64, 0x3F);
    MaskLow(b1 * 256 + b2, 6, 64, 0x3F);
  }

  lemma FlagsDecoded(b3: nat)
    requires b3 < 256
    ensures And(b3 / 8, 0x01) == b3 / 8 % 2 && And(b3 / 4, 0x01) == b3 / 4 % 2
    ensures And(b3 / 2, 0x01) == b3 / 2 % 2 && And(b3, 0x01) == b3 % 2
  {
    Powers();
    MaskLow(b3 / 8, 1, 2, 0x01);
    MaskLow(b3 / 4, 1, 2, 0x01);
    MaskLow(b3 / 2, 1, 2, 0x01);
    MaskLow(b3, 1, 2, 0x01);
  }

  lemma DecodeValues(b: seq<byte>)
    requires |b| == 6
    ensures Decode(b) == BytesDecoded(b[0], b[1], b[2], b[3], b[5])
  {
    hide And, Or;
    AddressesDecoded(b[0], b[1]);
    PortsDecoded(b[1], b[2]);
    FlagsDecoded(b[3]);
    Powers();
    MaskLow(b[5], 8, 256, 0xFF);
  }

  // ---------------------------------------------------------------------------------------
  // The trip through decimal text
  // ---------------------------------------------------------------------------------------

  /** The header the uplink sends with, each field narrowed to a byte. */
  datatype UplinkHeader = UplinkHeader(priority: byte, src: byte, dst: byte, dstPort: byte, srcPort: byte,
                                       hmac: byte, xtea: byte, rdp: byte, crc: byte)

  /** `sprintf` with "%d". */
  function Printed(n: nat): string {
    Numeral(n, 10)
  }

  /** `atoi`, on the digits `sprintf` writes. */
  function Atoi(s: string): int {
    Value(s, 10)
  }

  function Narrowed(n: nat): byte {
    Atoi(Printed(n)) % 256
  }

  function Reread(p: Params): UplinkHeader {
    UplinkHeader(Narrowed(p.pri), Narrowed(p.src), Narrowed(p.dst), Narrowed(p.dstPort), Narrowed(p.srcPort),
                 Narrowed(p.hmac), Narrowed(p.xtea), Narrowed(p.rdp), Narrowed(p.crc))
  }

  function RereadLength(p: Params): int {
    Atoi(Printed(p.dataLength))
  }

  lemma NarrowedIs(n: nat)
    ensures Narrowed(n) == n % 256 && Atoi(Printed(n)) == n
  {
    ValueOfNumeral(n, 10);
  }

  lemma PrintedLength(n: nat)
    ensures |Printed(n)| <= 1 <==> n < 10
    ensures |Printed(n)| <= 2 <==> n < 100
    ensures |Printed(n)| <= 3 <==> n < 1000
  {
    assert Numeral(n, 10) == if n < 10 then [DigitChar(n)] else Numeral(n / 10, 10) + [DigitChar(n % 10)];
    if n >= 100 {
      assert Numeral(n / 10, 10) == Numeral(n / 100, 10) + [DigitChar(n / 10 % 10)];
      if n >= 1000 {
        assert |Numeral(n / 100, 10)| > 1;
      }
    }
  }

  /** Every decoded field, with its terminator, fits the buffer it is printed into: three
      characters for the priority, six for each of the others. */
  lemma TextsFitBuffers(b: seq<byte>)
    requires |b| == 6
    ensures var p := Decode(b);
            && |Printed(p.pri)| < 3 && |Printed(p.src)| < 6 && |Printed(p.dst)| < 6
            && |Printed(p.dstPort)| < 6 && |Printed(p.srcPort)| < 6
            && |Printed(p.hmac)| < 6 && |Printed(p.xtea)| < 6 && |Printed(p.rdp)| < 6
            && |Printed(p.crc)| < 6 && |Printed(p.dataLength)| < 6
  {
    DecodeValues(b);
    var p := Decode(b);
    PrintedLength(p.pri); PrintedLength(p.src); PrintedLength(p.dst);
    PrintedLength(p.dstPort); PrintedLength(p.srcPort); PrintedLength(p.hmac);
    PrintedLength(p.xtea); PrintedLength(p.rdp); PrintedLength(p.crc); PrintedLength(p.dataLength);
  }

  lemma RereadIs(p: Params)
    requires p.pri < 256 && p.src < 256 && p.dst < 256 && p.dstPort < 256 && p.srcPort < 256
    requires p.hmac < 256 && p.xtea < 256 && p.rdp < 256 && p.crc < 256
    ensures Reread(p) == UplinkHeader(p.pri, p.src, p.dst, p.dstPort, p.srcPort, p.hmac, p.xtea, p.rdp, p.crc)
    ensures RereadLength(p) == p.dataLength
  {
    hide Value, Numeral;
    NarrowedIs(p.pri); NarrowedIs(p.src); NarrowedIs(p.dst); NarrowedIs(p.dstPort); NarrowedIs(p.srcPort);
    NarrowedIs(p.hmac); NarrowedIs(p.xtea); NarrowedIs(p.rdp); NarrowedIs(p.crc); NarrowedIs(p.dataLength);
  }

  /** The header fields of the identifier, each cut to its width. */
  function Cut(h: Id): UplinkHeader {
    UplinkHeader(h.prio % 4, h.src % 32, h.dst % 32, h.dport % 64, h.sport % 64,
                 h.flags / 8 % 2, h.flags / 4 % 2, h.flags / 2 % 2, h.flags % 2)
  }

  /** Four bytes built from fields: the destination and its port straddle two bytes each. */
  lemma BytesOfFields(p: nat, s: nat, d1: nat, d0: nat, q1: nat, q0: nat, t: nat,
                      r: nat, f3: nat, f2: nat, f1: nat, f0: nat, b5: nat)
    requires p < 4 && s < 32 && d1 < 2 && d0 < 16 && q1 < 16 && q0 < 4 && t < 64
    requires r < 16 && f3 < 2 && f2 < 2 && f1 < 2 && f0 < 2
    ensures BytesDecoded(64 * p + 2 * s + d1, 16 * d0 + q1, 64 * q0 + t,
                         16 * r + (8 * f3 + 4 * f2 + 2 * f1 + f0), b5)
         == Params(p, s, 16 * d1 + d0, 4 * q1 + q0, t, f3, f2, f1, f0, b5 % 256)
  {
    var b0, b1, b2, b3 := 64 * p + 2 * s + d1, 16 * d0 + q1, 64 * q0 + t, 16 * r + (8 * f3 + 4 * f2 + 2 * f1 + f0);
    Slice(b0, 64, 4, 0, p, 2 * s + d1);
    Slice(b0, 2, 32, p, s, d1);
    Slice(b0 * 256 + b1, 16, 32, 32 * p + s, 16 * d1 + d0, q1);
    Slice(b1 * 256 + b2, 64, 64, d0, 4 * q1 + q0, t);
    Slice(b1 * 256 + b2, 1, 64, 64 * d0 + 4 * q1 + q0, t, 0);
    Slice(b3, 8, 2, r, f3, 4 * f2 + 2 * f1 + f0);
    Slice(b3, 4, 2, 2 * r + f3, f2, 2 * f1 + f0);
    Slice(b3, 2, 2, 4 * r + 2 * f3 + f2, f1, f0);
    Slice(b3, 1, 2, 8 * r + 4 * f3 + 2 * f2 + f1, f0, 0);
  }

  lemma FourBits(x: nat)
    ensures x % 16 == 8 * (x / 8 % 2) + 4 * (x / 4 % 2) + 2 * (x / 2 % 2) + x % 2
  {
    var y := x / 2;
    var z := y / 2;
    assert x / 4 == z && x / 8 == z / 2;
  }

  /** The parameters of an identifier, each field cut to its width. */
  function CutParams(h: Id, length: Length): Params {
    Params(h.prio % 4, h.src % 32, h.dst % 32, h.dport % 64, h.sport % 64,
           h.flags / 8 % 2, h.flags / 4 % 2, h.flags / 2 % 2, h.flags % 2, length % 256)
  }

  lemma DecodePacked(h: Id, length: Length)
    ensures Decode(Pack(h, length)) == CutParams(h, length)
  {
    hide And, Or, Byte0, Byte1, Byte2, Byte3, Decode, BytesDecoded;
    var b := Pack(h, length);
    DecodeValues(b);
    Byte0Value(h); Byte1Value(h); Byte2Value(h); Byte3Value(h);
    FiveBits(h.dst); SixBits(h.dport); FourBits(h.flags);
    BytesOfFields(h.prio % 4, h.src % 32, h.dst / 16 % 2, h.dst % 16, h.dport / 4 % 16, h.dport % 4, h.sport % 64,
                  h.reserve % 16, h.flags / 8 % 2, h.flags / 4 % 2, h.flags / 2 % 2, h.flags % 2, b[5]);
  }

  /** What the downlink packs, the uplink reads back: every field, cut to its width, and the
      length modulo 256, for any values of the fields. */
  lemma HeaderRoundTrip(h: Id, length: Length)
    ensures Reread(Decode(Pack(h, length))) == Cut(h)
    ensures RereadLength(Decode(Pack(h, length))) == length % 256
  {
    hide And, Or;
    DecodePacked(h, length);
    RereadIs(CutParams(h, length));
  }

  /** The length survives exactly when it fits the one byte that is read. */
  lemma LengthSurvives(h: Id, length: Length)
    ensures RereadLength(Decode(Pack(h, length))) == length <==> length < 256
  {
    hide *;
    HeaderRoundTrip(h, length);
  }

  /** The identifier that decoded fields and a reserve nibble stand for. */
  function IdOf(p: UplinkHeader, reserve: nat): Id {
    var hmac: nat, xtea: nat, rdp: nat, crc: nat := p.hmac, p.xtea, p.rdp, p.crc;
    Id(p.priority, p.src, p.dst, p.dstPort, p.srcPort, U8(reserve), U8(8 * hmac + 4 * xtea + 2 * rdp + crc))
  }

  lemma LayoutInRange(h: Id)
    requires h.prio < 4 && h.src < 32 && h.dst < 32 && h.dport < 64 && h.sport < 64
    requires h.reserve < 16 && h.flags < 16
    ensures Layout(h) == 0x4000_0000 * h.prio + 0x200_0000 * h.src + 0x10_0000 * h.dst
                         + 0x4000 * h.dport + 0x100 * h.sport + 0x10 * h.reserve + h.flags
  {
  }

  lemma WordInjective(a: seq<byte>, b: seq<byte>)
    requires |a| >= 4 && |b| >= 4 && Word32(a) == Word32(b)
    ensures a[0] == b[0] && a[1] == b[1] && a[2] == b[2] && a[3] == b[3]
  {
  }

  lemma ByteParts(b0: nat, b1: nat, b2: nat)
    requires b0 < 256 && b1 < 256 && b2 < 256
    ensures b0 == 64 * (b0 / 64) + 2 * (b0 / 2 % 32) + b0 % 2
    ensures b1 == 16 * (b1 / 16) + b1 % 16 && b2 == 64 * (b2 / 64) + b2 % 64
    ensures b0 / 64 < 4 && b1 / 16 < 16 && b2 / 64 < 4
  {
  }

  /** The fields that four bytes hold, as quotients and remainders. */
  lemma BytesAreFields(b0: nat, b1: nat, b2: nat, b3: nat, b5: nat)
    requires b0 < 256 && b1 < 256 && b2 < 256 && b3 < 256 && b5 < 256
    ensures var p := BytesDecoded(b0, b1, b2, b3, b5);
            && p.pri < 4 && p.src < 32 && p.dst < 32 && p.dstPort < 64 && p.srcPort < 64
            && p.hmac < 2 && p.xtea < 2 && p.rdp < 2 && p.crc < 2 && p.dataLength == b5
            && Word(b0, b1, b2, b3)
            == 0x4000_0000 * p.pri + 0x200_0000 * p.src + 0x10_0000 * p.dst + 0x4000 * p.dstPort
               + 0x100 * p.srcPort + 0x10 * (b3 / 16) + (8 * p.hmac + 4 * p.xtea + 2 * p.rdp + p.crc)
  {
    hide BytesDecoded;
    FourBits(b3);
    ByteParts(b0, b1, b2);
    BytesOfFields(b0 / 64, b0 / 2 % 32, b0 % 2, b1 / 16, b1 % 16, b2 / 64, b2 % 64,
                  b3 / 16, b3 / 8 % 2, b3 / 4 % 2, b3 / 2 % 2, b3 % 2, b5);
  }

  /** The other way round: six bytes of a packet file, read as an uplink header, pack to the
      same six bytes, given the reserve nibble and the length byte that are not read. */
  lemma BytesRoundTrip(b: seq<byte>, length: Length)
    requires |b| == 6 && length / 256 == b[4] && length % 256 == b[5]
    ensures Pack(IdOf(Reread(Decode(b)), b[3] / 16), length) == b
    ensures RereadLength(Decode(b)) == length % 256
  {
    hide And, Or, Byte0, Byte1, Byte2, Byte3, BytesDecoded, Decode, Reread, Layout, Word;
    DecodeValues(b);
    BytesAreFields(b[0], b[1], b[2], b[3], b[5]);
    RereadIs(Decode(b));
    var h := IdOf(Reread(Decode(b)), b[3] / 16);
    LayoutInRange(h);
    PackFollowsLayout(h, length);
    WordInjective(Pack(h, length), b);
  }
}
