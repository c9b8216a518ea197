/** The second construction of the CSP header: five binary numerals, padded with zeros and
    concatenated into 32 characters. */
module HeaderText {
  import opened CArith
  import opened Bits
  import opened CText
  import opened Numerals
  import Itoa
  import CspHeader
  import HexCodec

  const ADDR_BITS := 5
  const PORT_BITS := 6
  const LENGTH_BITS := 8

  function Zeros(n: nat): string {
    seq(n, _ => '0')
  }

  /** The binary text of a field, padded to its width. */
  function Padded(v: int, width: nat): (s: string)
    requires |Itoa.Text(v, 2)| <= width
    ensures |s| == width
  {
    Zeros(width - |Itoa.Text(v, 2)|) + Itoa.Text(v, 2)
  }

  /** A `char` argument, whose binary numeral has at most that many digits. */
  predicate Fits(v: int, width: nat) {
    -128 <= v < 128 && |Itoa.Text(v, 2)| <= width
  }

  function HeaderString(dest: int, src: int, srcPort: int, destPort: int): string
    requires Fits(dest, ADDR_BITS) && Fits(src, ADDR_BITS)
    requires Fits(srcPort, PORT_BITS) && Fits(destPort, PORT_BITS)
  {
    "00" + Padded(src, ADDR_BITS) + Padded(dest, ADDR_BITS)
    + Padded(destPort, PORT_BITS) + Padded(srcPort, PORT_BITS) + "00000000"
  }

  // ---------------------------------------------------------------------------------------
  // The construction in character buffers
  // ---------------------------------------------------------------------------------------

  method Strcat(buf: array<char>, text: string, ghost held: string)
    requires HoldsAt(buf[..], 0, held) && NoNul(held) && NoNul(text)
    requires |held| + |text| < buf.Length
    modifies buf
    ensures HoldsAt(buf[..], 0, held + text) && NoNul(held + text)
  {
    assert buf[..][0..|held|] == buf[..|held|];
    assert buf[|held|] in buf[..];
    var n := StrLen(buf);
    FirstNulUnique(buf[..], n, |held|);
    var i := 0;
    while i < |text|
      invariant 0 <= i <= |text|
      invariant buf[..n] == held && buf[n..n + i] == text[..i]
    {
      buf[n + i] := text[i];
      i := i + 1;
    }
    buf[n + |text|] := NUL;
    assert buf[..][0..n + |text|] == buf[..n] + buf[n..n + |text|];
  }

  /** Appends a field's digits, with zeros in front of them unless the width is already met.
      The counter runs down to zero and stops there because the digits fit. */
  method AppendPadded(buf: array<char>, digits: string, width: nat, ghost held: string)
    requires HoldsAt(buf[..], 0, held) && NoNul(held) && NoNul(digits)
    requires |digits| <= width && |held| + width < buf.Length
    modifies buf
    ensures HoldsAt(buf[..], 0, held + (Zeros(width - |digits|) + digits))
    ensures NoNul(held + (Zeros(width - |digits|) + digits))
  {
    ghost var zeros := "";
    if |digits| == width {
      assert held + digits == held + (Zeros(0) + digits);
      Strcat(buf, digits, held);
    } else {
      var count := width - |digits|;
      assert held + zeros == held;
      while count != 0
        invariant 0 <= count && count + |zeros| == width - |digits|
        invariant zeros == Zeros(|zeros|) && NoNul(held + zeros)
        invariant HoldsAt(buf[..], 0, held + zeros)
        decreases count
      {
        Strcat(buf, "0", held + zeros);
        assert held + zeros + "0" == held + (zeros + "0");
        zeros := zeros + "0";
        count := count - 1;
      }
      Strcat(buf, digits, held + zeros);
      assert held + zeros + digits == held + (zeros + digits);
    }
  }

  /** Appends a value's binary text, padded to its field's width. */
  method AppendField(buf: array<char>, digits: string, v: int, width: nat, ghost held: string)
    returns (ghost now: string)
    requires HoldsAt(buf[..], 0, held) && NoNul(held) && NoNul(digits)
    requires digits == Itoa.Text(v, 2) && |digits| <= width && |held| + width < buf.Length
    modifies buf
    ensures now == held + Padded(v, width) && HoldsAt(buf[..], 0, now) && NoNul(now)
  {
    hide HoldsAt, NoNul, Itoa.Text, Zeros;
    AppendPadded(buf, digits, width, held);
    now := held + Padded(v, width);
  }

  /** The binary text of a `char`, through `itoa` and its buffer. */
  method BinaryText(v: int) returns (text: string)
    requires -128 <= v < 128
    ensures text == Itoa.Text(v, 2) && NoNul(text)
  {
    ShortText(v);
    var buf := new char[20];
    Itoa.Itoa(v, buf, 2);
    HeldText(buf[..], Itoa.Text(v, 2));
    text := UpToNul(buf[..]);
  }

  method AssembleHeader(dest: int, src: int, srcPort: int, destPort: int) returns (text: string)
    requires Fits(dest, ADDR_BITS) && Fits(src, ADDR_BITS)
    requires Fits(srcPort, PORT_BITS) && Fits(destPort, PORT_BITS)
    ensures text == HeaderString(dest, src, srcPort, destPort)
  {
    var destText := BinaryText(dest);
    var srcText := BinaryText(src);
    var srcPortText := BinaryText(srcPort);
    var destPortText := BinaryText(destPort);
    var temp := new char[100];
    temp[0], temp[1], temp[2] := '0', '0', NUL;
    ghost var held := "00";
    assert HoldsAt(temp[..], 0, held) && NoNul(held) && NoNul("00000000");
    hide HoldsAt, NoNul, UpToNul, Itoa.Text, Zeros, Padded;
    held := AppendField(temp, srcText, src, ADDR_BITS, held);
    held := AppendField(temp, destText, dest, ADDR_BITS, held);
    held := AppendField(temp, destPortText, destPort, PORT_BITS, held);
    held := AppendField(temp, srcPortText, srcPort, PORT_BITS, held);
    Strcat(temp, "00000000", held);
    held := held + "00000000";
    HeldText(temp[..], held);
    text := UpToNul(temp[..]);
  }

  // ---------------------------------------------------------------------------------------
  // What the text spells
  // ---------------------------------------------------------------------------------------

  lemma {:induction false} RemaindersShort(num: int, k: nat)
    requires Abs(num) < Shl(1, k)
    ensures |Itoa.Remainders(num, 2)| <= k
    decreases k
  {
    if num != 0 && k > 0 {
      Itoa.Halving(num, 2);
      assert Abs(CDiv(num, 2)) == Abs(num) / 2;
      RemaindersShort(CDiv(num, 2), k - 1);
    }
  }

  /** The text of a `char` in base two is short and holds no terminator. */
  lemma ShortText(v: int)
    requires -128 <= v < 128
    ensures |Itoa.Text(v, 2)| <= 8 && NoNul(Itoa.Text(v, 2))
  {
    Powers();
    RemaindersShort(v, 8);
    Itoa.RemaindersNoNul(v, 2);
  }

  /** A binary numeral has at most k digits exactly when its number is below two to the k. */
  lemma {:induction false} BinaryLength(n: nat, k: nat)
    requires k > 0
    ensures |Numeral(n, 2)| <= k <==> n < Shl(1, k)
    decreases k
  {
    if n < 2 {
      PowerAtLeastTwo(k);
    } else if k == 1 {
      assert Numeral(n, 2) == Numeral(n / 2, 2) + [DigitChar(n % 2)];
    } else {
      BinaryLength(n / 2, k - 1);
    }
  }

  lemma PowerAtLeastTwo(k: nat)
    requires k > 0
    ensures Shl(1, k) >= 2
    decreases k
  {
  }

  /** A negative number has as many binary digits as its magnitude; the first is the character
      below '0'. */
  lemma BinaryDigits(v: int)
    ensures |Itoa.Text(v, 2)| == |Numeral(Abs(v), 2)|
    ensures v < 0 ==> |Itoa.Text(v, 2)| > 0 && Itoa.Text(v, 2)[0] == '/'
  {
    Itoa.TextIsNumeral(Abs(v), 2);
    if v < 0 {
      ValueOfNumeral(-v, 2);
      hide Numeral, Value, Itoa.Text;
      Itoa.NegativeText(v, 2);
    }
  }

  /** The padding counter after a number of turns of its loop. */
  function CountAfter(count: int, turns: nat): int
    decreases turns
  {
    if turns == 0 then count else CountAfter(count - 1, turns - 1)
  }

  lemma {:induction false} CountsDown(count: int, turns: nat)
    ensures CountAfter(count, turns) == count - turns
    decreases turns
  {
    if turns > 0 {
      CountsDown(count - 1, turns - 1);
    }
  }

  /** The padding loop, which runs until its counter is exactly zero, ends if and only if the
      value fits its field. */
  lemma PaddingTerminates(v: int, width: nat, count: int)
    requires width > 0 && count == width - |Itoa.Text(v, 2)|
    ensures (exists turns: nat :: CountAfter(count, turns) == 0) <==> Abs(v) < Shl(1, width)
  {
    BinaryDigits(v);
    BinaryLength(Abs(v), width);
    if count >= 0 {
      CountsDown(count, count);
    }
    forall turns: nat
      ensures CountAfter(count, turns) == count - turns
    {
      CountsDown(count, turns);
    }
  }

  lemma Doubled(x: int, p: int)
    ensures x * (2 * p) == 2 * (x * p)
  {
  }

  lemma {:induction false} ValueOfConcat(s: string, t: string)
    ensures Value(s + t, 2) == Value(s, 2) * Shl(1, |t|) + Value(t, 2)
    decreases |t|
  {
    if |t| == 0 {
      assert s + t == s;
    } else {
      var u := t[..|t| - 1];
      assert (s + t)[..|s + t| - 1] == s + u;
      ValueOfConcat(s, u);
      Doubled(Value(s, 2), Shl(1, |u|));
      assert Shl(1, |t|) == 2 * Shl(1, |u|);
    }
  }

  lemma {:induction false} ValueOfZeros(n: nat)
    ensures Value(Zeros(n), 2) == 0
    ensures n > 0 ==> IsNumeral(Zeros(n), 2)
    decreases n
  {
    if n > 0 {
      assert Zeros(n)[..n - 1] == Zeros(n - 1);
      ValueOfZeros(n - 1);
    }
  }

  /** A field's padded text has the field's width, binary digits only, and its value. */
  lemma PaddedField(v: nat, width: nat)
    requires v < 128 && width > 0 && v < Shl(1, width)
    ensures Fits(v, width)
    ensures |Padded(v, width)| == width && IsNumeral(Padded(v, width), 2)
    ensures Value(Padded(v, width), 2) == v
  {
    hide Value, Numeral, Itoa.Text, IsDigit, Shl;
    Itoa.TextIsNumeral(v, 2);
    BinaryLength(v, width);
    ValueOfNumeral(v, 2);
    var n := width - |Numeral(v, 2)|;
    ValueOfZeros(n);
    ValueOfConcat(Zeros(n), Numeral(v, 2));
    assert Padded(v, width) == Zeros(n) + Numeral(v, 2);
  }

  /** The addresses and ports of a header, in range. */
  predicate InRange(dest: int, src: int, srcPort: int, destPort: int) {
    0 <= dest < 32 && 0 <= src < 32 && 0 <= srcPort < 64 && 0 <= destPort < 64
  }

  /** The two constructions agree: the text is 32 binary digits, and read as a number it is
      the word of the bit-packed header with priority, reserve and flags zero. */
  lemma ConstructionsAgree(dest: nat, src: nat, srcPort: nat, destPort: nat, length: CspHeader.Length)
    requires InRange(dest, src, srcPort, destPort)
    ensures Fits(dest, ADDR_BITS) && Fits(src, ADDR_BITS) && Fits(srcPort, PORT_BITS) && Fits(destPort, PORT_BITS)
    ensures var text := HeaderString(dest, src, srcPort, destPort);
            && |text| == 32 && IsNumeral(text, 2)
            && Value(text, 2) == CspHeader.Word32(CspHeader.Pack(CspHeader.Id(0, src, dest, destPort, srcPort, 0, 0), length))
  {
    hide Value, Numeral, Itoa.Text, Padded, CspHeader.Pack, CspHeader.Word32, CspHeader.Layout, IsDigit, DigitValue;
    Powers();
    PaddedField(dest, ADDR_BITS);
    PaddedField(src, ADDR_BITS);
    PaddedField(srcPort, PORT_BITS);
    PaddedField(destPort, PORT_BITS);
    var a := Padded(src, ADDR_BITS);
    var b := Padded(dest, ADDR_BITS);
    var c := Padded(destPort, PORT_BITS);
    var d := Padded(srcPort, PORT_BITS);
    ValueOfZeros(2);
    assert Zeros(2) == "00";
    ValueOfZeros(8);
    assert Zeros(8) == "00000000";
    ValueOfConcat("00", a);
    ValueOfConcat("00" + a, b);
    ValueOfConcat("00" + a + b, c);
    ValueOfConcat("00" + a + b + c, d);
    ValueOfConcat("00" + a + b + c + d, "00000000");
    var h := CspHeader.Id(0, src, dest, destPort, srcPort, 0, 0);
    CspHeader.LayoutInRange(h);
    CspHeader.PackFollowsLayout(h, length);
  }

  // ---------------------------------------------------------------------------------------
  // What reaches the caller
  // ---------------------------------------------------------------------------------------

  predicate IsBinary(s: string) {
    forall i :: 0 <= i < |s| ==> IsDigit(s[i], 2)
  }

  /** The digits a text begins with, which is where `strtol` in base two stops. */
  function Leading(s: string): (t: string)
    ensures IsBinary(t)
  {
    if |s| == 0 || !IsDigit(s[0], 2) then "" else [s[0]] + Leading(s[1..])
  }

  lemma {:induction false} LeadingStops(s: string, t: string)
    requires IsBinary(s) && (|t| > 0 ==> !IsDigit(t[0], 2))
    ensures Leading(s + t) == s
    decreases |s|
  {
    if |s| == 0 {
      assert s + t == t;
    } else {
      assert (s + t)[1..] == s[1..] + t;
      LeadingStops(s[1..], t);
    }
  }

  /** How many zeros are put in front of a value's digits. */
  function Blank(v: int, width: nat): nat
    requires |Itoa.Text(v, 2)| <= width
  {
    width - |Itoa.Text(v, 2)|
  }

  /** The number the header's text is read as. The digits of a negative field begin with a
      character that is no digit, and nothing from there on is read. */
  function Spelled(dest: int, src: int, srcPort: int, destPort: int): nat
    requires Fits(dest, ADDR_BITS) && Fits(src, ADDR_BITS)
    requires Fits(srcPort, PORT_BITS) && Fits(destPort, PORT_BITS)
  {
    if src < 0 then 0
    else if dest < 0 then Shl(src, Blank(dest, ADDR_BITS))
    else if destPort < 0 then Shl(32 * src + dest, Blank(destPort, PORT_BITS))
    else if srcPort < 0 then Shl(2048 * src + 64 * dest + destPort, Blank(srcPort, PORT_BITS))
    else 0x100 * (64 * (2048 * src + 64 * dest + destPort) + srcPort)
  }

  /** What is held so far: binary digits and their value. */
  ghost predicate Holds(held: string, value: int) {
    IsBinary(held) && Value(held, 2) == value
  }

  lemma FitsBelow(v: int, width: nat)
    requires Fits(v, width) && width > 0
    ensures Abs(v) < Shl(1, width)
  {
    BinaryDigits(v);
    BinaryLength(Abs(v), width);
  }

  /** A field that is not negative adds its digits. */
  lemma FieldHeld(held: string, value: int, v: int, width: nat, p: nat)
    requires Holds(held, value) && Fits(v, width) && v >= 0 && width > 0 && p == Shl(1, width)
    ensures Holds(held + Padded(v, width), value * p + v) && v < p
  {
    hide Value, Numeral, Itoa.Text, IsDigit, Shl, Padded;
    FitsBelow(v, width);
    PaddedField(v, width);
    ValueOfConcat(held, Padded(v, width));
  }

  /** A negative field ends the reading. */
  lemma FieldStops(held: string, value: int, v: int, width: nat, rest: string)
    requires Holds(held, value) && value >= 0 && Fits(v, width) && v < 0
    ensures Value(Leading(held + Padded(v, width) + rest), 2) == Shl(value, Blank(v, width))
  {
    hide Value, Numeral, Itoa.Text, Shl;
    BinaryDigits(v);
    var zeros := Zeros(Blank(v, width));
    var after := Itoa.Text(v, 2) + rest;
    ValueOfZeros(|zeros|);
    ValueOfConcat(held, zeros);
    ShiftIsProduct(value, |zeros|);
    assert held + Padded(v, width) + rest == (held + zeros) + after;
    LeadingStops(held + zeros, after);
  }

  /** How the text of the header is read, for all values that fit their fields. */
  lemma HeaderReads(dest: int, src: int, srcPort: int, destPort: int)
    requires Fits(dest, ADDR_BITS) && Fits(src, ADDR_BITS)
    requires Fits(srcPort, PORT_BITS) && Fits(destPort, PORT_BITS)
    ensures Value(Leading(HeaderString(dest, src, srcPort, destPort)), 2) == Spelled(dest, src, srcPort, destPort)
  {
    hide Value, Numeral, Itoa.Text, IsDigit, Padded, Holds, Leading, Blank;
    Powers();
    hide Shl;
    var a, b := Padded(src, ADDR_BITS), Padded(dest, ADDR_BITS);
    var c, d := Padded(destPort, PORT_BITS), Padded(srcPort, PORT_BITS);
    var text := HeaderString(dest, src, srcPort, destPort);
    TwoZeros();
    if src < 0 {
      FieldStops("00", 0, src, ADDR_BITS, b + c + d + "00000000");
      assert text == "00" + a + (b + c + d + "00000000");
      ZeroShifted(Blank(src, ADDR_BITS));
      return;
    }
    FieldHeld("00", 0, src, ADDR_BITS, 32);
    if dest < 0 {
      FieldStops("00" + a, src, dest, ADDR_BITS, c + d + "00000000");
      assert text == ("00" + a) + b + (c + d + "00000000");
      return;
    }
    FieldHeld("00" + a, src, dest, ADDR_BITS, 32);
    if destPort < 0 {
      FieldStops("00" + a + b, 32 * src + dest, destPort, PORT_BITS, d + "00000000");
      assert text == ("00" + a + b) + c + (d + "00000000");
      return;
    }
    FieldHeld("00" + a + b, 32 * src + dest, destPort, PORT_BITS, 64);
    if srcPort < 0 {
      FieldStops("00" + a + b + c, 2048 * src + 64 * dest + destPort, srcPort, PORT_BITS, "00000000");
      return;
    }
    FieldHeld("00" + a + b + c, 2048 * src + 64 * dest + destPort, srcPort, PORT_BITS, 64);
    FlagsHeld("00" + a + b + c + d, 64 * (2048 * src + 64 * dest + destPort) + srcPort);
  }

  lemma TwoZeros()
    ensures Holds("00", 0)
  {
    ValueOfZeros(2);
    assert Zeros(2) == "00";
  }

  lemma FlagsHeld(held: string, value: int)
    requires Holds(held, value)
    ensures Value(Leading(held + "00000000"), 2) == 256 * value
  {
    hide Value;
    Powers();
    ValueOfZeros(8);
    assert Zeros(8) == "00000000";
    ValueOfConcat(held, "00000000");
    LeadingStops(held + "00000000", "");
    assert held + "00000000" + "" == held + "00000000";
  }

  /** `sprintf` with "%X" of the number narrowed to a `char`, which is negative from 128 on. */
  function Printed(n: nat): string {
    if n % 256 < 16 then [HexCodec.HEX_DIGITS[n % 256]]
    else if n % 256 < 128 then HexCodec.Hex2(n % 256)
    else "FFFFFF" + HexCodec.Hex2(n % 256)
  }

  /** What the number becomes as a `char` and then as an unsigned int. */
  function AsUnsigned(n: nat): nat {
    if n % 256 < 128 then n % 256 else 0x1_0000_0000 - 256 + n % 256
  }

  /** It is printed as its hexadecimal numeral in upper case. */
  lemma PrintedIsNumeral(n: nat)
    ensures HexCodec.Lowercase(Printed(n)) == Numeral(AsUnsigned(n), 16)
  {
    var b := n % 256;
    HexCodec.LowerDigit(b % 16);
    HexCodec.LowerHex2(b);
    LowercaseFs();
    HexCodec.LowercaseOfConcat("FFFFFF", HexCodec.Hex2(b));
    hide HexCodec.Lowercase, HexCodec.Hex2;
    if b < 16 {
      OnePlace(b);
    } else if b < 128 {
      TwoPlaces(b);
    } else {
      SignExtended(b);
    }
  }

  lemma LowercaseFs()
    ensures HexCodec.Lowercase("FFFFFF") == "ffffff"
  {
  }

  lemma OnePlace(b: nat)
    requires b < 16
    ensures Numeral(b, 16) == [DigitChar(b)]
  {
  }

  lemma TwoPlaces(b: nat)
    requires 16 <= b < 256
    ensures Numeral(b, 16) == [DigitChar(b / 16), DigitChar(b % 16)]
  {
    assert Numeral(b / 16, 16) == [DigitChar(b / 16)];
  }

  lemma SignExtended(b: nat)
    requires 128 <= b < 256
    ensures Numeral(0xFFFF_FF00 + b, 16) == "ffffff" + [DigitChar(b / 16), DigitChar(b % 16)]
  {
    hide Numeral;
    TwoPlaces(0xFF);
    NextPlace(0xFFF);
    NextPlace(0xFFFF);
    NextPlace(0xF_FFFF);
    NextPlace(0xFF_FFFF);
    assert Numeral(0xFF_FFFF, 16) == "ffffff";
    NextPlace(0xFFF_FFF0 + b / 16);
    NextPlace(0xFFFF_FF00 + b);
  }

  lemma NextPlace(n: nat)
    requires n >= 16
    ensures Numeral(n, 16) == Numeral(n / 16, 16) + [DigitChar(n % 16)]
  {
  }

  /** The word is narrowed to a `char` before it is printed. Its low eight bits are the flags,
      which are zero, so no address and no port reaches the output, except in front of the first
      negative one. The length follows in two digits, a negative one as zero. */
  method GenerateCspHeader(dest: int, src: int, srcPort: int, destPort: int, dataLength: int)
    returns (output: string)
    requires Fits(dest, ADDR_BITS) && Fits(src, ADDR_BITS)
    requires Fits(srcPort, PORT_BITS) && Fits(destPort, PORT_BITS)
    requires -128 <= dataLength < 128
    ensures output == Printed(Spelled(dest, src, srcPort, destPort)) + HexCodec.Hex2(Max(dataLength, 0))
    ensures src < 0 || (dest >= 0 && destPort >= 0 && srcPort >= 0) ==>
              output == "0" + HexCodec.Hex2(Max(dataLength, 0))
  {
    HeaderReads(dest, src, srcPort, destPort);
    FlagsAreZero(dest, src, srcPort, destPort);
    var header := AssembleHeader(dest, src, srcPort, destPort);
    var value := Value(Leading(header), 2);
    output := Printed(value);
    var value2 := LengthValue(dataLength);
    output := output + HexCodec.Hex2(value2);
  }

  /** The length, through its own padded text and back. */
  method LengthValue(dataLength: int) returns (value: int)
    requires -128 <= dataLength < 128
    ensures value == Max(dataLength, 0)
  {
    LengthReads(dataLength);
    var text := BinaryText(dataLength);
    var padded := new char[10];
    padded[0] := NUL;
    assert padded[..][0..0] == "";
    AppendPadded(padded, text, LENGTH_BITS, "");
    assert "" + Padded(dataLength, LENGTH_BITS) == Padded(dataLength, LENGTH_BITS);
    HeldText(padded[..], Padded(dataLength, LENGTH_BITS));
    value := Value(Leading(UpToNul(padded[..])), 2);
  }

  lemma LengthReads(v: int)
    requires -128 <= v < 128
    ensures Fits(v, LENGTH_BITS) && Value(Leading(Padded(v, LENGTH_BITS)), 2) == Max(v, 0)
  {
    ShortText(v);
    Powers();
    hide Numeral, Itoa.Text, Padded, Shl, Leading, Value;
    assert Holds("", 0) by {
      EmptyValue();
    }
    var text := Padded(v, LENGTH_BITS);
    assert "" + text == text && text + "" == text;
    if v < 0 {
      FieldStops("", 0, v, LENGTH_BITS, "");
      ZeroShifted(Blank(v, LENGTH_BITS));
    } else {
      FieldHeld("", 0, v, LENGTH_BITS, 256);
      LeadingStops(text, "");
    }
  }

  lemma EmptyValue()
    ensures Value("", 2) == 0
  {
  }

  /** When every field is read, or none is, the low eight bits are zero. */
  lemma FlagsAreZero(dest: int, src: int, srcPort: int, destPort: int)
    requires Fits(dest, ADDR_BITS) && Fits(src, ADDR_BITS)
    requires Fits(srcPort, PORT_BITS) && Fits(destPort, PORT_BITS)
    ensures src < 0 || (dest >= 0 && destPort >= 0 && srcPort >= 0) ==>
              Spelled(dest, src, srcPort, destPort) % 256 == 0
  {
    hide Fits;
    if src >= 0 && dest >= 0 && destPort >= 0 && srcPort >= 0 {
      DivModUnique(Spelled(dest, src, srcPort, destPort), 256, 64 * (2048 * src + 64 * dest + destPort) + srcPort, 0);
    }
  }
}
