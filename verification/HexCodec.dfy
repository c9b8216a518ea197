/** Bytes as hexadecimal text: the rotator's bounded dump and the GUI backend's decoder. */
module HexCodec {
  import opened Bits
  import opened CArith
  import opened CText
  import opened Numerals

  const HEX_DIGITS: string := "0123456789ABCDEF"

  // ---------------------------------------------------------------------------------------
  // bytes_to_hex
  // ---------------------------------------------------------------------------------------

  /** `sprintf` with "%02X". */
  function Hex2(b: byte): (s: string)
    ensures |s| == 2
  {
    [HEX_DIGITS[b / 16], HEX_DIGITS[b % 16]]
  }

  /** One step of the dump: two digits, and a space unless it is the last byte. */
  function Piece(data: seq<byte>, i: nat): string
    requires i < |data|
  {
    Hex2(data[i]) + if i + 1 < |data| then " " else ""
  }

  /** The whole dump from byte i on. */
  function HexText(data: seq<byte>, i: nat): string
    requires i <= |data|
    decreases |data| - i
  {
    if i == |data| then "" else Piece(data, i) + HexText(data, i + 1)
  }

  lemma PieceText(data: seq<byte>, i: nat)
    requires i < |data|
    ensures |Piece(data, i)| == if i + 1 < |data| then 3 else 2
    ensures NoNul(Piece(data, i))
  {
    HexDigit(data[i] / 16);
    HexDigit(data[i] % 16);
  }

  lemma {:induction false} HexTextLength(data: seq<byte>, i: nat)
    requires i <= |data|
    ensures |HexText(data, i)| == if i == |data| then 0 else 3 * (|data| - i) - 1
    ensures NoNul(HexText(data, i))
    decreases |data| - i
  {
    hide Piece;
    if i < |data| {
      PieceText(data, i);
      HexTextLength(data, i + 1);
    }
  }

  predicate HasAt(s: string, at: nat, part: string) {
    at + |part| <= |s| && s[at..at + |part|] == part
  }

  lemma HasBehind(head: string, s: string, at: nat, part: string)
    ensures HasAt(s, at, part) ==> HasAt(head + s, |head| + at, part)
    ensures HasAt(head + s, 0, head)
  {
    assert at + |part| <= |s| ==> (head + s)[|head| + at..|head| + at + |part|] == s[at..at + |part|];
  }

  lemma {:induction false} PieceAt(data: seq<byte>, i: nat, k: nat)
    requires i <= k < |data|
    ensures HasAt(HexText(data, i), 3 * (k - i), Piece(data, k))
    decreases |data| - i
  {
    HexTextStep(data, i);
    PieceText(data, i);
    hide HexText, Piece, HasAt;
    if i < k {
      PieceAt(data, i + 1, k);
      HasBehind(Piece(data, i), HexText(data, i + 1), 3 * (k - i - 1), Piece(data, k));
    } else {
      HasBehind(Piece(data, i), HexText(data, i + 1), 0, "");
    }
  }

  /** Each byte's two digits stand at three times its place, and a space behind all but the
      last. */
  lemma DumpPlaces(data: seq<byte>, k: nat)
    requires k < |data|
    ensures |HexText(data, 0)| == 3 * |data| - 1 && HexText(data, 0)[3 * k..3 * k + 2] == Hex2(data[k])
    ensures k + 1 < |data| ==> HexText(data, 0)[3 * k + 2] == ' '
  {
    HexTextLength(data, 0);
    PieceAt(data, 0, k);
    hide HexText, Hex2;
    var s := HexText(data, 0);
    var piece := s[3 * k..3 * k + |Piece(data, k)|];
    assert piece[..2] == s[3 * k..3 * k + 2];
    assert k + 1 < |data| ==> piece[2] == s[3 * k + 2];
  }

  /** Dumps as much as fits: the output is a terminated prefix of the full dump, and the whole
      dump when three characters a byte are given. */
  method BytesToHex(data: seq<byte>, out: array<char>, outLen: nat)
    requires outLen <= out.Length
    modifies out
    ensures outLen == 0 ==> out[..] == old(out[..])
    ensures outLen > 0 ==> HoldsAt(out[..], 0, HexText(data, 0)[..Min(|HexText(data, 0)|, outLen - 1)])
    ensures forall k :: outLen <= k < out.Length ==> out[k] == old(out[k])
  {
    if outLen == 0 {
      return;
    }
    out[0] := NUL;
    var pos: nat := 0;
    var i := 0;
    ghost var full := HexText(data, 0);
    assert full[..0] == "";
    hide HexText, Piece;
    while i < |data| && pos + 1 < outLen
      invariant i <= |data| && Progress(out[..], outLen, full, pos, HexText(data, i))
      invariant forall k :: outLen <= k < out.Length ==> out[k] == old(out[k])
      decreases |data| - i
    {
      HexTextStep(data, i);
      var fits, next := AppendPiece(out, outLen, pos, Piece(data, i), full, HexText(data, i + 1));
      if !fits {
        out[outLen - 1] := NUL;
        return;
      }
      pos := next;
      i := i + 1;
    }
    HexTextEnd(data);
  }

  lemma HexTextStep(data: seq<byte>, i: nat)
    requires i < |data|
    ensures HexText(data, i) == Piece(data, i) + HexText(data, i + 1)
  {
  }

  lemma HexTextEnd(data: seq<byte>)
    ensures HexText(data, |data|) == ""
  {
  }

  // ---------------------------------------------------------------------------------------
  // hex_to_bytes
  // ---------------------------------------------------------------------------------------

  /** `toupper` in the C locale. */
  function ToUpper(c: char): char {
    if 'a' <= c <= 'z' then (c as int - 'a' as int + 'A' as int) as char else c
  }

  predicate IsXDigit(c: char) {
    '0' <= c <= '9' || 'a' <= c <= 'f' || 'A' <= c <= 'F'
  }

  /** The place of a character among the hexadecimal digits, either case. */
  function Nibble(c: char): int {
    if '0' <= c <= '9' then c as int - '0' as int
    else if 'a' <= c <= 'f' then c as int - 'a' as int + 10
    else if 'A' <= c <= 'F' then c as int - 'A' as int + 10
    else -1
  }

  predicate IsHexText(hex: string) {
    forall i :: 0 <= i < |hex| ==> IsXDigit(hex[i])
  }

  function HexByte(hex: string, i: nat): byte
    requires 2 * i + 1 < |hex| && IsHexText(hex)
  {
    16 * Nibble(hex[2 * i]) + Nibble(hex[2 * i + 1])
  }

  function DecodedHex(hex: string): (bytes: seq<byte>)
    requires IsHexText(hex)
    ensures |bytes| == |hex| / 2
  {
    seq(|hex| / 2, i requires 0 <= i < |hex| / 2 => HexByte(hex, i))
  }

  function Lowercase(s: string): string {
    seq(|s|, i requires 0 <= i < |s| => if 'A' <= s[i] <= 'Z' then (s[i] as int - 'A' as int + 'a' as int) as char else s[i])
  }

  /** A byte is the value of its two digits, read in base sixteen. */
  lemma HexByteIsValue(hex: string, i: nat)
    requires 2 * i + 1 < |hex| && IsHexText(hex)
    ensures HexByte(hex, i) == Value(Lowercase(hex[2 * i..2 * i + 2]), 16)
  {
    var a, b := hex[2 * i], hex[2 * i + 1];
    assert hex[2 * i..2 * i + 2] == [a, b];
    var s := Lowercase([a, b]);
    assert s == [s[0], s[1]];
    TwoDigits(s[0], s[1], 16);
  }

  lemma LowercaseOfConcat(s: string, t: string)
    ensures Lowercase(s + t) == Lowercase(s) + Lowercase(t)
  {
  }

  lemma LowerDigit(n: nat)
    requires n < 16
    ensures Lowercase([HEX_DIGITS[n]]) == [DigitChar(n)]
    ensures '0' <= HEX_DIGITS[n] <= '9' || 'A' <= HEX_DIGITS[n] <= 'F'
  {
  }

  lemma LowerHex2(b: byte)
    ensures Lowercase(Hex2(b)) == [DigitChar(b / 16), DigitChar(b % 16)]
  {
    LowerDigit(b / 16);
    LowerDigit(b % 16);
    assert Lowercase([HEX_DIGITS[b / 16]])[0] == Lowercase(Hex2(b))[0];
    assert Lowercase([HEX_DIGITS[b % 16]])[0] == Lowercase(Hex2(b))[1];
  }

  /** And the dump of a byte is two upper-case digits of that value. */
  lemma Hex2IsValue(b: byte)
    ensures Value(Lowercase(Hex2(b)), 16) == b
    ensures forall i :: 0 <= i < 2 ==> '0' <= Hex2(b)[i] <= '9' || 'A' <= Hex2(b)[i] <= 'F'
  {
    HexDigit(b / 16);
    HexDigit(b % 16);
    HexByteIsValue(Hex2(b), 0);
    assert Hex2(b)[0..2] == Hex2(b);
  }

  /** Accepts exactly the nonempty texts of an even number of hexadecimal digits, when there
      is memory for the bytes, and returns the bytes they spell. */
  method HexToBytes(hex: string, mallocSucceeds: bool) returns (status: int, bytes: seq<byte>)
    ensures status == 0 || status == -1
    ensures status == 0 <==> |hex| > 0 && |hex| % 2 == 0 && mallocSucceeds && IsHexText(hex)
    ensures status == 0 ==> bytes == DecodedHex(hex)
    ensures status == 0 ==> |bytes| == |hex| / 2
    ensures status == 0 ==> forall i :: 0 <= i < |bytes| ==> bytes[i] == Value(Lowercase(hex[2 * i..2 * i + 2]), 16)
    ensures status != 0 ==> bytes == []
  {
    bytes := [];
    var len := |hex|;
    if len % 2 != 0 || len == 0 {
      return -1, [];
    }
    if !mallocSucceeds {
      return -1, [];
    }
    var buffer := new byte[len / 2];
    var i := 0;
    while i < len / 2
      invariant 0 <= i <= len / 2
      invariant IsHexText(hex[..2 * i])
      invariant forall k :: 0 <= k < i ==> buffer[k] as int == 16 * Nibble(hex[2 * k]) + Nibble(hex[2 * k + 1])
    {
      var high := ToUpper(hex[2 * i]);
      var low := ToUpper(hex[2 * i + 1]);
      if !IsXDigit(high) || !IsXDigit(low) {
        return -1, [];
      }
      var h := if high <= '9' then high as int - '0' as int else high as int - 'A' as int + 10;
      var l := if low <= '9' then low as int - '0' as int else low as int - 'A' as int + 10;
      NibblesJoin(h, l);
      buffer[i] := U8(Or(h * 16, l));
      assert hex[..2 * (i + 1)] == hex[..2 * i] + [hex[2 * i], hex[2 * i + 1]];
      i := i + 1;
    }
    assert hex[..2 * i] == hex;
    status := 0;
    bytes := buffer[..];
    forall k | 0 <= k < |bytes|
      ensures bytes[k] == Value(Lowercase(hex[2 * k..2 * k + 2]), 16)
    {
      HexByteIsValue(hex, k);
    }
  }

  lemma NibblesJoin(h: nat, l: nat)
    requires h < 16 && l < 16
    ensures U8(Or(h * 16, l)) == 16 * h + l
  {
    hide Or;
    Powers();
    Join(h, l, 4, 16);
  }

  // ---------------------------------------------------------------------------------------
  // The two undo each other
  // ---------------------------------------------------------------------------------------

  function WithoutSpaces(s: string): string {
    if |s| == 0 then "" else (if s[0] == ' ' then "" else [s[0]]) + WithoutSpaces(s[1..])
  }

  function Uppercase(s: string): string {
    seq(|s|, i requires 0 <= i < |s| => ToUpper(s[i]))
  }

  lemma HexDigit(n: nat)
    requires n < 16
    ensures IsXDigit(HEX_DIGITS[n]) && Nibble(HEX_DIGITS[n]) == n
  {
  }

  /** The digits of the bytes, two by two. */
  function Digits(data: seq<byte>): string {
    if |data| == 0 then "" else Hex2(data[0]) + Digits(data[1..])
  }

  lemma {:induction false} SpacesOut(data: seq<byte>, i: nat)
    requires i <= |data|
    ensures WithoutSpaces(HexText(data, i)) == Digits(data[i..])
    decreases |data| - i
  {
    if i < |data| {
      var s := HexText(data, i);
      var rest := HexText(data, i + 1);
      HexDigit(data[i] / 16);
      HexDigit(data[i] % 16);
      assert s == Hex2(data[i]) + (if i + 1 < |data| then " " else "") + rest;
      assert WithoutSpaces(s) == [s[0]] + ([s[1]] + WithoutSpaces(s[2..])) by {
        assert s[1..][1..] == s[2..];
      }
      if i + 1 < |data| {
        assert s[2..][1..] == rest;
      } else {
        assert s[2..] == rest;
      }
      assert data[i..][1..] == data[i + 1..];
      SpacesOut(data, i + 1);
    }
  }

  lemma {:induction false} DigitsAt(data: seq<byte>, k: nat)
    requires k < |data|
    ensures |Digits(data)| == 2 * |data|
    ensures Digits(data)[2 * k] == HEX_DIGITS[data[k] / 16]
    ensures Digits(data)[2 * k + 1] == HEX_DIGITS[data[k] % 16]
    decreases |data|
  {
    if |data| > 1 {
      DigitsAt(data[1..], if k > 0 then k - 1 else 0);
    }
  }

  lemma DigitsAreHex(data: seq<byte>)
    ensures |Digits(data)| == 2 * |data| && IsHexText(Digits(data))
  {
    if |data| > 0 {
      DigitsAt(data, 0);
    }
    forall j | 0 <= j < |Digits(data)|
      ensures IsXDigit(Digits(data)[j])
    {
      DigitsAt(data, j / 2);
      HexDigit(data[j / 2] / 16);
      HexDigit(data[j / 2] % 16);
    }
  }

  /** Decoding a dump with its spaces taken out gives the bytes back. */
  lemma DecodeOfDump(data: seq<byte>)
    ensures IsHexText(WithoutSpaces(HexText(data, 0)))
    ensures DecodedHex(WithoutSpaces(HexText(data, 0))) == data
  {
    SpacesOut(data, 0);
    assert data[0..] == data;
    DigitsAreHex(data);
    forall k | 0 <= k < |data|
      ensures HexByte(Digits(data), k) == data[k]
    {
      DigitsAt(data, k);
      HexDigit(data[k] / 16);
      HexDigit(data[k] % 16);
    }
  }

  lemma HexByteParts(hex: string, k: nat)
    requires 2 * k + 1 < |hex| && IsHexText(hex)
    ensures HEX_DIGITS[HexByte(hex, k) / 16] == ToUpper(hex[2 * k])
    ensures HEX_DIGITS[HexByte(hex, k) % 16] == ToUpper(hex[2 * k + 1])
  {
    NibbleDigit(hex[2 * k]);
    NibbleDigit(hex[2 * k + 1]);
    DivModUnique(HexByte(hex, k), 16, Nibble(hex[2 * k]), Nibble(hex[2 * k + 1]));
  }

  lemma DigitRoundTrip(hex: string, j: nat)
    requires |hex| % 2 == 0 && IsHexText(hex) && j < |hex|
    ensures |Digits(DecodedHex(hex))| == |hex|
    ensures Digits(DecodedHex(hex))[j] == ToUpper(hex[j])
  {
    hide Nibble, ToUpper, IsXDigit, Digits;
    var data, k := DecodedHex(hex), j / 2;
    DigitsAt(data, k);
    HexByteParts(hex, k);
    assert j == 2 * k || j == 2 * k + 1;
  }

  /** Dumping decoded bytes gives the text back in upper case, so case is all that decoding
      forgets. */
  lemma DumpOfDecode(hex: string)
    requires |hex| % 2 == 0 && IsHexText(hex)
    ensures WithoutSpaces(HexText(DecodedHex(hex), 0)) == Uppercase(hex)
  {
    hide HexText, WithoutSpaces, DecodedHex, ToUpper, Digits;
    var data := DecodedHex(hex);
    SpacesOut(data, 0);
    assert data[0..] == data;
    DigitsAreHex(data);
    forall j | 0 <= j < |hex|
      ensures |Digits(data)| == |hex| && Digits(data)[j] == ToUpper(hex[j])
    {
      DigitRoundTrip(hex, j);
    }
    if |hex| == 0 {
      assert |DecodedHex(hex)| == 0;
    }
  }

  lemma NibbleDigit(c: char)
    requires IsXDigit(c)
    ensures 0 <= Nibble(c) < 16 && HEX_DIGITS[Nibble(c)] == ToUpper(c)
  {
  }

  /** Two texts decode to the same bytes exactly when they differ in case only. */
  lemma CaseIsIgnored(a: string, b: string)
    requires |a| % 2 == 0 && IsHexText(a) && |b| % 2 == 0 && IsHexText(b)
    ensures DecodedHex(a) == DecodedHex(b) <==> Uppercase(a) == Uppercase(b)
  {
    DumpOfDecode(a);
    DumpOfDecode(b);
    if Uppercase(a) == Uppercase(b) {
      DecodeOfDump(DecodedHex(a));
      DecodeOfDump(DecodedHex(b));
    }
  }
}
