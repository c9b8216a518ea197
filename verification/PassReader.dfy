/** Reads a pass schedule back out of its JSON text (RFC 8259): texts with their escapes, whole
    numbers, and the members of each pass in the order in which they are written. */
module PassReader {
  import Hex = HexCodec
  import opened CArith
  import opened Numerals
  import opened Options
  import opened PassJson

  /** The rest of a text after an expected beginning. */
  function Expect(s: string, start: string): (r: Option<string>)
    ensures r.Some? ==> |r.value| + |start| == |s|
  {
    if |start| <= |s| && s[..|start|] == start then Some(s[|start|..]) else None
  }

  // ---------------------------------------------------------------------------------------
  // Texts (section 7 of RFC 8259)
  // ---------------------------------------------------------------------------------------

  /** A character that stands for itself. */
  predicate Unescaped(c: char) {
    c >= ' ' && c != '"' && c != '\\'
  }

  predicate Plain(s: string) {
    forall i :: 0 <= i < |s| ==> Unescaped(s[i])
  }

  /** Four hexadecimal digits. */
  function ReadHex4(s: string): (r: Option<(int, string)>)
    ensures r.Some? ==> 0 <= r.value.0 < 65536 && |r.value.1| + 4 == |s|
  {
    if |s| >= 4 && forall i :: 0 <= i < 4 ==> Hex.Nibble(s[i]) >= 0 then
      Some((4096 * Hex.Nibble(s[0]) + 256 * Hex.Nibble(s[1]) + 16 * Hex.Nibble(s[2]) + Hex.Nibble(s[3]), s[4..]))
    else None
  }

  /** A code point, or two halves of one; a half alone is refused. */
  function ReadUnicode(s: string): (r: Option<(char, string)>)
    ensures r.Some? ==> |r.value.1| < |s|
  {
    var (high, t) :- ReadHex4(s);
    if !(0xD800 <= high < 0xE000) then Some((high as char, t))
    else
      var u :- Expect(t, "\\u");
      var (low, rest) :- ReadHex4(u);
      if high < 0xDC00 <= low < 0xE000 then
        Some(((0x10000 + 1024 * (high - 0xD800) + (low - 0xDC00)) as char, rest))
      else None
  }

  /** What follows a backslash. */
  function ReadEscape(s: string): (r: Option<(char, string)>)
    ensures r.Some? ==> |r.value.1| < |s|
  {
    if |s| == 0 then None
    else match s[0] {
      case '"' => Some(('"', s[1..]))
      case '\\' => Some(('\\', s[1..]))
      case '/' => Some(('/', s[1..]))
      case 'b' => Some(('\U{8}', s[1..]))
      case 'f' => Some(('\U{c}', s[1..]))
      case 'n' => Some(('\n', s[1..]))
      case 'r' => Some(('\r', s[1..]))
      case 't' => Some(('\t', s[1..]))
      case 'u' => ReadUnicode(s[1..])
      case _ => None
    }
  }

  /** A text up to its closing quotation mark, and the rest from that mark on. It takes at least
      one character for each it stands for, and more if any is not plain. */
  function ReadChars(s: string): (r: Option<(string, string)>)
    ensures r.Some? ==> |r.value.0| + |r.value.1| <= |s|
    ensures r.Some? && |r.value.0| + |r.value.1| == |s| ==> Plain(r.value.0)
    decreases |s|
  {
    if |s| == 0 then None
    else if s[0] == '"' then Some(("", s))
    else
      var (c, t) :- if s[0] == '\\' then ReadEscape(s[1..])
                    else if Unescaped(s[0]) then Some((s[0], s[1..]))
                    else None;
      var (text, rest) :- ReadChars(t);
      Some(([c] + text, rest))
  }

  /** The value of a key: a text in quotation marks. */
  function ReadText(s: string, key: string): (r: Option<(string, string)>)
    ensures r.Some? ==> |key| + |r.value.0| + |r.value.1| <= |s|
    ensures r.Some? && |key| + |r.value.0| + |r.value.1| == |s| ==> Plain(r.value.0)
  {
    var t :- Expect(s, key);
    ReadChars(t)
  }

  // ---------------------------------------------------------------------------------------
  // Whole numbers (section 6 of RFC 8259)
  // ---------------------------------------------------------------------------------------

  /** How many digits a text begins with. */
  function Digits(s: string): (n: nat)
    ensures n <= |s| && forall i :: 0 <= i < n ==> IsDigit(s[i], 10)
  {
    if |s| == 0 || !IsDigit(s[0], 10) then 0 else 1 + Digits(s[1..])
  }

  /** The value of a key: digits without a leading zero, which are the numeral of their value. */
  function ReadNumber(s: string, key: string): (r: Option<(nat, string)>)
    ensures r.Some? ==> |key| + |Numeral(r.value.0, 10)| + |r.value.1| == |s|
  {
    var t :- Expect(s, key);
    var digits := t[..Digits(t)];
    if |digits| > 0 && NoLeadingZero(digits) then
      NumeralUnique(digits, 10);
      Some((Value(digits, 10), t[|digits|..]))
    else None
  }

  // ---------------------------------------------------------------------------------------
  // Times
  // ---------------------------------------------------------------------------------------

  /** A whole number with its sign, without leading zeros. */
  function ReadYear(s: string): (r: Option<int>)
    ensures r.Some? ==> s == YearText(r.value)
  {
    var digits := if |s| > 0 && s[0] == '-' then s[1..] else s;
    if !IsNumeral(digits, 10) || !NoLeadingZero(digits) then None
    else
      NumeralUnique(digits, 10);
      var n := Value(digits, 10);
      if digits == s then Some(n)
      else if n > 0 then
        assert s == "-" + digits;
        Some(-n)
      else None
  }

  /** Two digits at a place. */
  function ReadTwo(s: string, at: nat): (r: Option<Field>)
    requires at + 2 <= |s|
    ensures r.Some? ==> s[at..at + 2] == Two(r.value)
  {
    var tens, ones := DigitValue(s[at]), DigitValue(s[at + 1]);
    if 0 <= tens < 10 && 0 <= ones < 10 then
      DivModUnique(10 * tens + ones, 10, tens, ones);
      Some(10 * tens + ones)
    else None
  }

  /** A year, month, day, hour, minute and second, as ISO 8601 writes them: "-MM-DDThh:mm:ssZ"
      behind the year. No text at all is no time. */
  function ReadTime(s: string): (r: Option<Utc>)
    ensures r.Some? ==> s == TimeText(r.value)
  {
    var n := |s| - 16;
    if s == "" then Some(NoTime)
    else if n < 0 then None
    else if s[n] != '-' || s[n + 3] != '-' || s[n + 6] != 'T' || s[n + 9] != ':' || s[n + 12] != ':' || s[n + 15] != 'Z' then
      None
    else
      var year :- ReadYear(s[..n]);
      var month :- ReadTwo(s, n + 1);
      var day :- ReadTwo(s, n + 4);
      var hour :- ReadTwo(s, n + 7);
      var minute :- ReadTwo(s, n + 10);
      var second :- ReadTwo(s, n + 13);
      var t := Utc(year, month, day, hour, minute, second);
      TimePieces(s, n, t);
      Some(t)
  }

  lemma TimePieces(s: string, n: nat, t: Utc)
    requires t.Utc? && |s| == n + 16 && s[..n] == YearText(t.year)
    requires s[n] == '-' && s[n + 3] == '-' && s[n + 6] == 'T' && s[n + 9] == ':' && s[n + 12] == ':' && s[n + 15] == 'Z'
    requires s[n + 1..n + 3] == Two(t.month) && s[n + 4..n + 6] == Two(t.day) && s[n + 7..n + 9] == Two(t.hour)
    requires s[n + 10..n + 12] == Two(t.minute) && s[n + 13..n + 15] == Two(t.second)
    ensures s == TimeText(t)
  {
    hide YearText, Two;
    assert s[n..] == AfterYear(t);
    assert s == s[..n] + s[n..];
  }

  lemma TwoReads(s: string, n: nat, after: string, k: nat, f: Field)
    requires n <= |s| && s[n..] == after && k + 2 <= |after| && after[k..k + 2] == Two(f)
    ensures n + k + 2 <= |s| && ReadTwo(s, n + k) == Some(f)
  {
    assert s[n..][k] == Two(f)[0] && s[n..][k + 1] == Two(f)[1];
  }

  lemma YearReads(year: int)
    ensures ReadYear(YearText(year)) == Some(year)
  {
    var n: nat := if year < 0 then -year else year;
    ValueOfNumeral(n, 10);
    hide Numeral, Value;
    var digits := Numeral(n, 10);
    if year < 0 {
      assert ("-" + digits)[1..] == digits;
      assert |"-" + digits| == |digits| + 1;
    } else {
      assert IsDigit(digits[0], 10);
      assert digits[0] != '-';
    }
  }

  /** Every time printed reads back: each field stands at its own place. */
  lemma TimeReads(t: Utc)
    ensures ReadTime(TimeText(t)) == Some(t)
  {
    if t.Utc? {
      var s, n, after := TimeText(t), |YearText(t.year)|, AfterYear(t);
      FieldPlaces(t);
      hide YearText, AfterYear, Two, ReadTwo, ReadYear, ReadTime;
      assert s[..n] == YearText(t.year) && s[n..] == after;
      hide TimeText;
      TwoReads(s, n, after, 1, t.month);
      TwoReads(s, n, after, 4, t.day);
      TwoReads(s, n, after, 7, t.hour);
      TwoReads(s, n, after, 10, t.minute);
      TwoReads(s, n, after, 13, t.second);
      YearReads(t.year);
      SeparatorsMoved(s, n, after);
      FieldsReadTogether(s, n, t);
    }
  }

  lemma FieldsReadTogether(s: string, n: nat, t: Utc)
    requires t.Utc? && |s| == n + 16
    requires s[n] == '-' && s[n + 3] == '-' && s[n + 6] == 'T' && s[n + 9] == ':' && s[n + 12] == ':' && s[n + 15] == 'Z'
    requires ReadYear(s[..n]) == Some(t.year)
    requires ReadTwo(s, n + 1) == Some(t.month) && ReadTwo(s, n + 4) == Some(t.day)
    requires ReadTwo(s, n + 7) == Some(t.hour) && ReadTwo(s, n + 10) == Some(t.minute)
    requires ReadTwo(s, n + 13) == Some(t.second)
    ensures ReadTime(s) == Some(t)
  {
    hide ReadYear, ReadTwo, TimeText;
  }

  lemma SeparatorsMoved(s: string, n: nat, after: string)
    requires n <= |s| && s[n..] == after && |after| == 16
    ensures s[n] == after[0] && s[n + 3] == after[3] && s[n + 6] == after[6]
    ensures s[n + 9] == after[9] && s[n + 12] == after[12] && s[n + 15] == after[15]
  {
  }

  lemma FieldPlaces(t: Utc)
    requires t.Utc?
    ensures var a := AfterYear(t);
            && |a| == 16 && a[0] == '-' && a[3] == '-' && a[6] == 'T' && a[9] == ':' && a[12] == ':' && a[15] == 'Z'
            && a[1..3] == Two(t.month) && a[4..6] == Two(t.day) && a[7..9] == Two(t.hour)
            && a[10..12] == Two(t.minute) && a[13..15] == Two(t.second)
  {
  }

  // ---------------------------------------------------------------------------------------
  // Passes
  // ---------------------------------------------------------------------------------------

  const START_KEY := "{\"name\":\""
  const AOS_KEY := "\",\"aos\":\""
  const LOS_KEY := "\",\"los\":\""
  const DURATION_KEY := "\",\"duration_sec\":"
  const PEAK_KEY := ",\"peak_elevation_deg\":"

  /** The shortest text of a pass. */
  function PassLength(p: Pass): nat {
    |START_KEY| + |p.name| + |AOS_KEY| + |TimeText(p.aos)| + |LOS_KEY| + |TimeText(p.los)|
    + |DURATION_KEY| + |Numeral(p.durationSec, 10)| + |PEAK_KEY| + |Numeral(p.peakElevationDeg, 10)| + 1
  }

  function ReadPass(s: string): (r: Option<(Pass, string)>)
    ensures r.Some? ==> PassLength(r.value.0) + |r.value.1| <= |s|
    ensures r.Some? && PassLength(r.value.0) + |r.value.1| == |s| ==> Plain(r.value.0.name)
  {
    var (name, t1) :- ReadText(s, START_KEY);
    var (aosText, t2) :- ReadText(t1, AOS_KEY);
    var (losText, t3) :- ReadText(t2, LOS_KEY);
    var aos :- ReadTime(aosText);
    var los :- ReadTime(losText);
    var (duration, t4) :- ReadNumber(t3, DURATION_KEY);
    var (peak, t5) :- ReadNumber(t4, PEAK_KEY);
    var t6 :- Expect(t5, "}");
    Some((Pass(name, aos, los, duration, peak), t6))
  }

  /** The shortest text of passes, each with the comma or bracket behind it. */
  function PassesLength(passes: seq<Pass>): nat {
    if passes == [] then 0 else PassLength(passes[0]) + 1 + PassesLength(passes[1..])
  }

  predicate AllPlain(passes: seq<Pass>) {
    forall i :: 0 <= i < |passes| ==> Plain(passes[i].name)
  }

  /** The passes up to the closing bracket, which must end the text. */
  function ReadPasses(s: string): (r: Option<seq<Pass>>)
    ensures r.Some? ==> PassesLength(r.value) <= |s|
    ensures r.Some? && PassesLength(r.value) == |s| ==> AllPlain(r.value)
    decreases |s|
  {
    var (pass, rest) :- ReadPass(s);
    if rest == "]" then
      Some([pass])
    else
      var more :- Expect(rest, ",");
      var passes :- ReadPasses(more);
      assert ([pass] + passes)[1..] == passes;
      Some([pass] + passes)
  }

  function ReadArray(s: string): Option<seq<Pass>> {
    if s == "[]" then Some([])
    else
      var t :- Expect(s, "[");
      ReadPasses(t)
  }

  // ---------------------------------------------------------------------------------------
  // Reading what was written
  // ---------------------------------------------------------------------------------------

  lemma ExpectFinds(start: string, rest: string)
    ensures Expect(start + rest, start) == Some(rest)
  {
  }

  lemma {:induction false} PlainReads(text: string, rest: string)
    requires Plain(text) && |rest| > 0 && rest[0] == '"'
    ensures ReadChars(text + rest) == Some((text, rest))
    decreases |text|
  {
    if |text| > 0 {
      assert (text + rest)[1..] == text[1..] + rest;
      PlainReads(text[1..], rest);
      assert text == [text[0]] + text[1..];
    } else {
      assert text + rest == rest;
    }
  }

  lemma {:induction false} DigitsFinds(digits: string, rest: string)
    requires forall i :: 0 <= i < |digits| ==> IsDigit(digits[i], 10)
    requires |rest| > 0 && !IsDigit(rest[0], 10)
    ensures Digits(digits + rest) == |digits|
    decreases |digits|
  {
    if |digits| > 0 {
      assert (digits + rest)[1..] == digits[1..] + rest;
      DigitsFinds(digits[1..], rest);
    } else {
      assert digits + rest == rest;
    }
  }

  lemma TextReads(key: string, text: string, rest: string)
    requires Plain(text) && |rest| > 0 && rest[0] == '"'
    ensures ReadText(key + (text + rest), key) == Some((text, rest))
  {
    ExpectFinds(key, text + rest);
    PlainReads(text, rest);
  }

  lemma NumberReads(key: string, n: nat, rest: string)
    requires |rest| > 0 && !IsDigit(rest[0], 10)
    ensures ReadNumber(key + (Numeral(n, 10) + rest), key) == Some((n, rest))
  {
    hide Numeral, Value, Digits;
    ExpectFinds(key, Numeral(n, 10) + rest);
    ValueOfNumeral(n, 10);
    DigitsFinds(Numeral(n, 10), rest);
    assert (Numeral(n, 10) + rest)[..|Numeral(n, 10)|] == Numeral(n, 10);
  }

  lemma TimeIsPlain(t: Utc)
    ensures Plain(TimeText(t))
  {
    TimeIsInner(t);
    hide TimeText;
  }

  /** An entry and what follows it, with the parts of the entry lined up behind their keys. */
  lemma EntryByKeys(p: Pass, rest: string)
    ensures Entry(p) + rest
         == START_KEY + (p.name + (AOS_KEY + (TimeText(p.aos) + (LOS_KEY + (TimeText(p.los) + (DURATION_KEY
            + (Numeral(p.durationSec, 10) + (PEAK_KEY + (Numeral(p.peakElevationDeg, 10) + ("}" + rest))))))))))
  {
    hide Numeral, TimeText;
    var number, more := Numeral(p.durationSec, 10), Numeral(p.peakElevationDeg, 10);
    var aos, los := TimeText(p.aos), TimeText(p.los);
    var head := AOS_KEY + aos + LOS_KEY + los;
    assert AfterName(p) == head + (DURATION_KEY + (number + (PEAK_KEY + (more + "}"))));
    Regroup(head, DURATION_KEY, number, PEAK_KEY, more, rest);
    var tail := DURATION_KEY + (number + (PEAK_KEY + (more + ("}" + rest))));
    RegroupHead(AOS_KEY, aos, LOS_KEY, los, tail);
    RegroupName(START_KEY, p.name, AfterName(p), rest);
  }

  lemma Regroup(head: string, k1: string, n1: string, k2: string, n2: string, rest: string)
    ensures (head + (k1 + (n1 + (k2 + (n2 + "}"))))) + rest == head + (k1 + (n1 + (k2 + (n2 + ("}" + rest)))))
  {
  }

  lemma RegroupHead(k1: string, s1: string, k2: string, s2: string, tail: string)
    ensures (k1 + s1 + k2 + s2) + tail == k1 + (s1 + (k2 + (s2 + tail)))
  {
  }

  lemma RegroupName(key: string, name: string, after: string, rest: string)
    ensures (key + name + after) + rest == key + (name + (after + rest))
  {
  }

  lemma PassReads(p: Pass, rest: string)
    requires Plain(p.name)
    ensures ReadPass(Entry(p) + rest) == Some((p, rest))
  {
    EntryByKeys(p, rest);
    TimeIsPlain(p.aos);
    TimeIsPlain(p.los);
    hide Entry, Numeral, Value, ReadText, ReadNumber, Expect, TimeText, Plain, PassLength;
    TimeReads(p.aos);
    TimeReads(p.los);
    var t6 := "}" + rest;
    var t5 := Numeral(p.peakElevationDeg, 10) + t6;
    var t4 := PEAK_KEY + t5;
    var t3 := DURATION_KEY + (Numeral(p.durationSec, 10) + t4);
    var t2 := LOS_KEY + (TimeText(p.los) + t3);
    var t1 := AOS_KEY + (TimeText(p.aos) + t2);
    TextReads(START_KEY, p.name, t1);
    TextReads(AOS_KEY, TimeText(p.aos), t2);
    TextReads(LOS_KEY, TimeText(p.los), t3);
    NumberReads(DURATION_KEY, p.durationSec, t4);
    NumberReads(PEAK_KEY, p.peakElevationDeg, t6);
    ExpectFinds("}", rest);
  }

  lemma EntryIsShortest(p: Pass)
    ensures |Entry(p)| == PassLength(p)
  {
    EntryByKeys(p, "");
    hide Numeral, TimeText, Entry;
    assert Entry(p) + "" == Entry(p);
  }

  lemma {:induction false} ElementsAreShortest(passes: seq<Pass>, i: nat)
    requires i < |passes|
    ensures |Elements(passes, i)| + 1 == PassesLength(passes[i..])
    decreases |passes| - i
  {
    hide Entry, PassLength;
    EntryIsShortest(passes[i]);
    assert passes[i..][1..] == passes[i + 1..];
    if i + 1 < |passes| {
      ElementsAreShortest(passes, i + 1);
    }
  }

  lemma {:induction false} PassesRead(passes: seq<Pass>, i: nat)
    requires i < |passes| && AllPlain(passes)
    ensures ReadPasses(Elements(passes, i) + "]") == Some(passes[i..])
    decreases |passes| - i
  {
    hide Entry, ReadPass, Expect, Plain, PassLength, PassesLength;
    var rest := Elements(passes, i + 1) + "]";
    if i + 1 < |passes| {
      assert Elements(passes, i) + "]" == Entry(passes[i]) + ("," + rest);
      PassReads(passes[i], "," + rest);
      ExpectFinds(",", rest);
      PassesRead(passes, i + 1);
      assert passes[i..] == [passes[i]] + passes[i + 1..];
      assert ("," + rest)[0] == ',';
    } else {
      assert Elements(passes, i) + "]" == Entry(passes[i]) + "]";
      PassReads(passes[i], "]");
      assert passes[i..] == [passes[i]];
    }
  }

  /** The complete array reads back as the schedule it was built from, each value under its own
      key, exactly when every name is plain. */
  lemma ArrayReadsBack(passes: seq<Pass>)
    ensures ReadArray(FullArray(passes)) == Some(passes) <==> AllPlain(passes)
  {
    hide ReadPasses, Entry, Expect, Plain, PassesLength;
    if |passes| == 0 {
      assert FullArray(passes) == "[]";
    } else {
      ArrayEnds(passes);
      ExpectFinds("[", Elements(passes, 0) + "]");
      ElementStarts(passes);
      assert passes[0..] == passes;
      ElementsAreShortest(passes, 0);
      var text := Elements(passes, 0) + "]";
      assert ReadArray(FullArray(passes)) == ReadPasses(text);
      assert PassesLength(passes) == |text|;
      if AllPlain(passes) {
        PassesRead(passes, 0);
      }
    }
  }

  lemma ElementStarts(passes: seq<Pass>)
    requires |passes| > 0
    ensures FullArray(passes) != "[]"
  {
    hide AfterName;
    assert Entry(passes[0])[0] == '{';
    hide Entry;
    assert FullArray(passes)[1] == '{';
  }

  /** What the field shows reads as the whole schedule when that fits and as no passes when it
      does not, never as some of them, exactly when the names of a schedule that fits are plain. */
  lemma FieldReadsAllOrNone(passes: seq<Pass>)
    requires NoBrackets(passes)
    ensures var fits := |FullArray(passes)| <= 511;
            ReadArray(Shown(passes)) == Some(if fits then passes else []) <==> (fits ==> AllPlain(passes))
  {
    hide ReadArray, FullArray, Shown, NoBrackets, Plain;
    AllOrNothing(passes);
    ArrayReadsBack(passes);
    EmptyReads();
  }

  lemma EmptyReads()
    ensures ReadArray("[]") == Some([])
  {
  }

  /** So schedules with plain names and no brackets that are shown alike are the same, unless
      both are too long or without passes. */
  lemma ShownTellsSchedule(ps: seq<Pass>, qs: seq<Pass>)
    requires NoBrackets(ps) && NoBrackets(qs) && AllPlain(ps) && AllPlain(qs)
    requires Shown(ps) == Shown(qs) != "[]"
    ensures ps == qs
  {
    hide ReadArray, FullArray, Shown, NoBrackets, AllPlain;
    AllOrNothing(ps);
    AllOrNothing(qs);
    ArrayReadsBack(ps);
    ArrayReadsBack(qs);
  }
}
