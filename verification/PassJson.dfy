/** The pass schedule in a status snapshot: a JSON array built piece by piece in a field of 512
    characters, replaced by an empty array when it does not fit. */
module PassJson {
  import opened CArith
  import opened CText
  import opened Numerals

  const FIELD_SIZE := 512
  const MAX_PASSES := 16

  /** Two decimal digits. */
  type Field = x: int | 0 <= x < 100

  /** A time in UTC, broken down by `gmtime_r`, which fails when the year does not fit an int. */
  datatype Utc = NoTime | Utc(year: int, month: Field, day: Field, hour: Field, minute: Field, second: Field)

  datatype Pass = Pass(name: string, aos: Utc, los: Utc, durationSec: nat, peakElevationDeg: nat) {
    predicate Valid() {
      |name| < 32 && NoNul(name) && durationSec < 65536 && peakElevationDeg < 65536
    }
  }

  predicate ValidPasses(passes: seq<Pass>) {
    |passes| <= MAX_PASSES && forall i :: 0 <= i < |passes| ==> passes[i].Valid()
  }

  // ---------------------------------------------------------------------------------------
  // Times as text
  // ---------------------------------------------------------------------------------------

  function Two(n: Field): string {
    [DigitChar(n / 10), DigitChar(n % 10)]
  }

  function YearText(year: int): string {
    if year < 0 then "-" + Numeral(-year, 10) else Numeral(year, 10)
  }

  /** What follows the year in the format "%Y-%m-%dT%H:%M:%SZ". */
  function AfterYear(t: Utc): string
    requires t.Utc?
  {
    "-" + Two(t.month) + "-" + Two(t.day) + "T" + Two(t.hour) + ":" + Two(t.minute) + ":" + Two(t.second) + "Z"
  }

  function TimeText(t: Utc): string {
    if t.NoTime? then "" else YearText(t.year) + AfterYear(t)
  }

  /** Characters from '-' to 'Z': no terminator, quotation mark, backslash or bracket. */
  predicate Inner(s: string) {
    forall i :: 0 <= i < |s| ==> '-' <= s[i] <= 'Z'
  }

  lemma NumeralIsInner(n: nat)
    ensures Inner(Numeral(n, 10))
  {
    ValueOfNumeral(n, 10);
    hide Numeral, Value;
  }

  lemma TimeIsInner(t: Utc)
    ensures Inner(TimeText(t))
  {
    if t.Utc? {
      NumeralIsInner(if t.year < 0 then -t.year else t.year);
      hide Numeral;
      assert Inner(YearText(t.year)) && Inner(AfterYear(t));
    }
  }

  lemma TimeLength(t: Utc)
    ensures if t.NoTime? then |TimeText(t)| == 0 else |TimeText(t)| >= 17
  {
  }

  // ---------------------------------------------------------------------------------------
  // The whole array
  // ---------------------------------------------------------------------------------------

  const NAME_KEY := "{\"name\":\""

  /** An entry from behind its name on. */
  function AfterName(p: Pass): string {
    "\",\"aos\":\"" + TimeText(p.aos) + "\",\"los\":\"" + TimeText(p.los)
    + "\",\"duration_sec\":" + Numeral(p.durationSec, 10)
    + ",\"peak_elevation_deg\":" + Numeral(p.peakElevationDeg, 10) + "}"
  }

  function Entry(p: Pass): string {
    NAME_KEY + p.name + AfterName(p)
  }

  /** One step of the builder: an entry, and a comma unless it is the last. */
  function Element(passes: seq<Pass>, i: nat): string
    requires i < |passes|
  {
    Entry(passes[i]) + if i + 1 < |passes| then "," else ""
  }

  function Elements(passes: seq<Pass>, i: nat): string
    requires i <= |passes|
    decreases |passes| - i
  {
    if i == |passes| then "" else Element(passes, i) + Elements(passes, i + 1)
  }

  function FullArray(passes: seq<Pass>): string {
    "[" + (Elements(passes, 0) + "]")
  }

  /** What the field shows: the whole array when it fits with its terminator; otherwise an
      empty array, unless what was written before the room ran out happens to hold a closing
      bracket. */
  function Shown(passes: seq<Pass>): string {
    var full := FullArray(passes);
    if |full| < FIELD_SIZE then full
    else if ']' in full[..FIELD_SIZE - 1] then full[..FIELD_SIZE - 1]
    else "[]"
  }

  // ---------------------------------------------------------------------------------------
  // Building it in place
  // ---------------------------------------------------------------------------------------

  method StrChr(buf: array<char>, c: char) returns (found: bool)
    requires NUL in buf[..] && c != NUL
    ensures found <==> c in UpToNul(buf[..])
  {
    var n := StrLen(buf);
    UpToNulIs(buf[..], n);
    var i := 0;
    while i < n && buf[i] != c
      invariant 0 <= i <= n && c !in buf[..i]
    {
      i := i + 1;
    }
    found := i < n;
    assert found ==> buf[..n][i] == c;
    assert !found ==> buf[..i] == buf[..n];
  }

  /** `strncpy` of "[]" and the terminator after it. */
  method StoreEmptyArray(buf: array<char>)
    requires buf.Length == FIELD_SIZE
    modifies buf
    ensures UpToNul(buf[..]) == "[]"
  {
    forall i | 0 <= i < FIELD_SIZE {
      buf[i] := if i == 0 then '[' else if i == 1 then ']' else NUL;
    }
    UpToNulIs(buf[..], 2);
    assert buf[..2] == "[]";
  }

  lemma ElementsStep(passes: seq<Pass>, i: nat)
    requires i < |passes|
    ensures Elements(passes, i) + "]" == Element(passes, i) + (Elements(passes, i + 1) + "]")
  {
  }

  lemma ArrayEnds(passes: seq<Pass>)
    ensures |FullArray(passes)| > 0
    ensures FullArray(passes)[..1] == "[" && FullArray(passes)[1..] == Elements(passes, 0) + "]"
    ensures Elements(passes, |passes|) + "]" == "]"
  {
  }

  /** Writes the elements until one does not fit. Either they are all there and the offset is
      their end, or the field is filled up to its last character. */
  method WriteElements(passes: seq<Pass>, buf: array<char>) returns (offset: nat)
    requires buf.Length == FIELD_SIZE && HoldsAt(buf[..], 0, "[")
    modifies buf
    ensures offset < FIELD_SIZE && offset <= |FullArray(passes)|
    ensures HoldsAt(buf[..], 0, FullArray(passes)[..offset])
    ensures offset == FIELD_SIZE - 1 || FullArray(passes)[offset..] == "]"
  {
    ghost var full := FullArray(passes);
    ArrayEnds(passes);
    hide FullArray, Elements, Element, HoldsAt;
    offset := 1;
    var i := 0;
    while i < |passes| && offset < FIELD_SIZE
      invariant i <= |passes| && Progress(buf[..], FIELD_SIZE, full, offset, Elements(passes, i) + "]")
    {
      ElementsStep(passes, i);
      var fits, next := AppendPiece(buf, FIELD_SIZE, offset, Element(passes, i), full, Elements(passes, i + 1) + "]");
      offset := next;
      if !fits {
        return;
      }
      i := i + 1;
    }
  }

  /** Appends the closing bracket, or only a terminator when one character is left. */
  method CloseArray(passes: seq<Pass>, buf: array<char>, offset: nat)
    requires buf.Length == FIELD_SIZE && offset < FIELD_SIZE && offset <= |FullArray(passes)|
    requires HoldsAt(buf[..], 0, FullArray(passes)[..offset])
    requires offset == FIELD_SIZE - 1 || FullArray(passes)[offset..] == "]"
    modifies buf
    ensures HoldsAt(buf[..], 0, FullArray(passes)[..Min(|FullArray(passes)|, FIELD_SIZE - 1)])
  {
    hide FullArray;
    ghost var full := FullArray(passes);
    ghost var before := buf[..];
    var append := Snprintf(buf, offset, FIELD_SIZE - offset, "]");
    if offset < FIELD_SIZE - 1 {
      HeldPrefix(before, buf[..], full, offset, "]", "", 1);
    } else {
      HeldPrefix(before, buf[..], full, offset, "", full[offset..], 0);
    }
    buf[FIELD_SIZE - 1] := NUL;
  }

  method BuildPassesJson(passes: seq<Pass>, buf: array<char>)
    requires ValidPasses(passes) && buf.Length == FIELD_SIZE
    modifies buf
    ensures UpToNul(buf[..]) == Shown(passes)
  {
    hide FullArray, Shown, ValidPasses;
    var written := Snprintf(buf, 0, FIELD_SIZE, "[");
    var offset := WriteElements(passes, buf);
    CloseArray(passes, buf, offset);
    ghost var kept := FullArray(passes)[..Min(|FullArray(passes)|, FIELD_SIZE - 1)];
    FullArrayNoNul(passes);
    HeldText(buf[..], kept);
    if |passes| == 0 {
      StoreEmptyArray(buf);
    } else {
      assert buf[..][|kept|] in buf[..];
      var found := StrChr(buf, ']');
      if !found {
        StoreEmptyArray(buf);
      }
    }
    KeptText(passes);
  }

  lemma KeptText(passes: seq<Pass>)
    ensures var full := FullArray(passes);
            var kept := full[..Min(|full|, FIELD_SIZE - 1)];
            && Shown(passes) == (if ']' in kept then kept else "[]")
            && (|passes| == 0 ==> Shown(passes) == "[]")
  {
    var full := FullArray(passes);
    assert full[|full| - 1] == ']';
    if |full| < FIELD_SIZE {
      assert full[..|full|] == full;
    }
  }

  // ---------------------------------------------------------------------------------------
  // All or nothing
  // ---------------------------------------------------------------------------------------

  predicate NoBracket(s: string) {
    ']' !in s
  }

  predicate Clean(s: string) {
    NoNul(s) && NoBracket(s)
  }

  lemma InnerIsClean(s: string)
    requires Inner(s)
    ensures Clean(s)
  {
  }

  lemma CleanJoined(s: string, t: string, u: string, v: string)
    requires Clean(s) && Clean(t) && Clean(u) && Clean(v)
    ensures Clean(s + t + u + v)
  {
  }

  lemma AfterNameIsClean(p: Pass)
    ensures Clean(AfterName(p))
  {
    var aosKey, losKey := "\",\"aos\":\"", "\",\"los\":\"";
    var durationKey, peakKey := "\",\"duration_sec\":", ",\"peak_elevation_deg\":";
    assert Clean(aosKey) && Clean(losKey) && Clean(durationKey) && Clean(peakKey) && Clean("}") && Clean("");
    hide Clean, Numeral, TimeText, Inner;
    var aos, los := TimeText(p.aos), TimeText(p.los);
    var duration, peak := Numeral(p.durationSec, 10), Numeral(p.peakElevationDeg, 10);
    TimeIsInner(p.aos);
    TimeIsInner(p.los);
    NumeralIsInner(p.durationSec);
    NumeralIsInner(p.peakElevationDeg);
    InnerIsClean(aos);
    InnerIsClean(los);
    InnerIsClean(duration);
    InnerIsClean(peak);
    CleanJoined(aosKey, aos, losKey, los);
    CleanJoined(aosKey + aos + losKey + los, durationKey, duration, peakKey);
    CleanJoined(aosKey + aos + losKey + los + durationKey + duration + peakKey, peak, "}", "");
    assert AfterName(p) + "" == AfterName(p);
  }

  lemma {:induction false} ElementsNoNul(passes: seq<Pass>, i: nat)
    requires ValidPasses(passes) && i <= |passes|
    ensures NoNul(Elements(passes, i))
    decreases |passes| - i
  {
    hide AfterName;
    if i < |passes| {
      AfterNameIsClean(passes[i]);
      assert passes[i].Valid();
      ElementsNoNul(passes, i + 1);
    }
  }

  lemma FullArrayNoNul(passes: seq<Pass>)
    requires ValidPasses(passes)
    ensures NoNul(FullArray(passes))
  {
    hide Elements;
    ElementsNoNul(passes, 0);
  }

  /** Names without a closing bracket. */
  predicate NoBrackets(passes: seq<Pass>) {
    forall i :: 0 <= i < |passes| ==> NoBracket(passes[i].name)
  }

  lemma {:induction false} ElementsNoBracket(passes: seq<Pass>, i: nat)
    requires NoBrackets(passes) && i <= |passes|
    ensures NoBracket(Elements(passes, i))
    decreases |passes| - i
  {
    hide AfterName;
    if i < |passes| {
      AfterNameIsClean(passes[i]);
      ElementsNoBracket(passes, i + 1);
    }
  }

  /** The field is the complete array or the empty one, never a piece of an array: the
      complete array exactly when it needs at most 511 characters. */
  lemma AllOrNothing(passes: seq<Pass>)
    requires NoBrackets(passes)
    ensures Shown(passes) == if |FullArray(passes)| <= 511 then FullArray(passes) else "[]"
  {
    hide Elements;
    ElementsNoBracket(passes, 0);
    var full := FullArray(passes);
    if |full| >= FIELD_SIZE {
      assert ']' !in full[..|full| - 1] by {
        assert full[..|full| - 1] == "[" + Elements(passes, 0);
      }
      assert full[..|full| - 1][..FIELD_SIZE - 1] == full[..FIELD_SIZE - 1];
    }
  }

  // ---------------------------------------------------------------------------------------
  // When a piece of an array is shown
  // ---------------------------------------------------------------------------------------

  /** Where an entry begins in the array. */
  function EntryStart(passes: seq<Pass>, i: nat): nat
    requires i <= |passes|
  {
    if i == 0 then 1 else EntryStart(passes, i - 1) + |Element(passes, i - 1)|
  }

  /** A closing bracket in a name, at a place in the array. */
  predicate BracketAt(passes: seq<Pass>, i: nat, j: int, n: nat) {
    i < |passes| && 0 <= j < |passes[i].name| && passes[i].name[j] == ']'
    && n == EntryStart(passes, i) + |NAME_KEY| + j
  }

  lemma Behind(s: string, start: nat, part: string, rest: string)
    requires start <= |s| && s[start..] == part + rest
    ensures start + |part| <= |s| && s[start + |part|..] == rest
    ensures forall k :: 0 <= k < |part| ==> s[start + k] == part[k]
  {
    assert s[start + |part|..] == s[start..][|part|..];
    assert forall k :: 0 <= k < |part| ==> s[start + k] == s[start..][k];
  }

  lemma {:induction false} FromEntryOn(passes: seq<Pass>, i: nat)
    requires i <= |passes|
    ensures EntryStart(passes, i) < |FullArray(passes)|
    ensures FullArray(passes)[EntryStart(passes, i)..] == Elements(passes, i) + "]"
    decreases i
  {
    hide FullArray, Element, Elements;
    ArrayEnds(passes);
    if i > 0 {
      FromEntryOn(passes, i - 1);
      ElementsStep(passes, i - 1);
      Behind(FullArray(passes), EntryStart(passes, i - 1), Element(passes, i - 1), Elements(passes, i) + "]");
    }
  }

  /** The entry is where it is said to begin, and there is more behind it. */
  lemma EntryInArray(passes: seq<Pass>, i: nat)
    requires i < |passes|
    ensures EntryStart(passes, i) + |Element(passes, i)| < |FullArray(passes)|
    ensures forall k :: 0 <= k < |Element(passes, i)| ==>
              FullArray(passes)[EntryStart(passes, i) + k] == Element(passes, i)[k]
  {
    hide FullArray, Element, Elements, EntryStart;
    FromEntryOn(passes, i);
    ElementsStep(passes, i);
    Behind(FullArray(passes), EntryStart(passes, i), Element(passes, i), Elements(passes, i + 1) + "]");
  }

  /** Brackets of an entry are those of its name. */
  lemma EntryBrackets(passes: seq<Pass>, i: nat, k: nat)
    requires i < |passes| && k < |Element(passes, i)|
    ensures Element(passes, i)[k] == ']' <==> BracketAt(passes, i, k - |NAME_KEY|, EntryStart(passes, i) + k)
  {
    hide Entry, EntryStart;
    EntryBracketsOnly(passes[i]);
  }

  lemma EntryBracketsOnly(p: Pass)
    ensures |NAME_KEY| + |p.name| < |Entry(p)|
    ensures forall k :: 0 <= k < |Entry(p)| ==>
              (Entry(p)[k] == ']' <==> |NAME_KEY| <= k < |NAME_KEY| + |p.name| && p.name[k - |NAME_KEY|] == ']')
  {
    AfterNameIsClean(p);
    AfterNameIsLong(p);
    hide AfterName;
  }

  lemma AfterNameIsLong(p: Pass)
    ensures |AfterName(p)| > 0
  {
    hide Numeral, TimeText;
  }

  lemma NameInEntry(passes: seq<Pass>, i: nat)
    requires i < |passes|
    ensures |NAME_KEY| + |passes[i].name| < |Element(passes, i)|
  {
    hide Entry;
    EntryBracketsOnly(passes[i]);
  }

  lemma BracketFound(passes: seq<Pass>, i: nat, j: int, n: nat)
    requires BracketAt(passes, i, j, n)
    ensures n < |FullArray(passes)| && FullArray(passes)[n] == ']'
  {
    hide FullArray, Element, EntryStart;
    NameInEntry(passes, i);
    EntryInArray(passes, i);
    EntryBrackets(passes, i, |NAME_KEY| + j);
  }

  /** Brackets before the last character of the array stand in names. */
  lemma {:induction false} OnlyInNames(passes: seq<Pass>, i: nat, n: nat) returns (k: nat, j: int)
    requires i <= |passes| && EntryStart(passes, i) <= n < |FullArray(passes)| - 1 && FullArray(passes)[n] == ']'
    ensures BracketAt(passes, k, j, n)
    decreases |passes| - i
  {
    hide FullArray, Element, Elements, BracketAt, EntryStart;
    NothingBehind(passes);
    assert i < |passes|;
    EntryInArray(passes, i);
    NextStart(passes, i);
    var at := n - EntryStart(passes, i);
    if at < |Element(passes, i)| {
      EntryBrackets(passes, i, at);
      k, j := i, at - |NAME_KEY|;
    } else {
      k, j := OnlyInNames(passes, i + 1, n);
    }
  }

  lemma NextStart(passes: seq<Pass>, i: nat)
    requires i < |passes|
    ensures EntryStart(passes, i + 1) == EntryStart(passes, i) + |Element(passes, i)|
  {
  }

  lemma NothingBehind(passes: seq<Pass>)
    ensures EntryStart(passes, |passes|) == |FullArray(passes)| - 1
  {
    FromEntryOn(passes, |passes|);
    hide FullArray, EntryStart;
    assert |FullArray(passes)[EntryStart(passes, |passes|)..]| == 1;
  }

  /** A closing bracket of a name among the first characters of the array. */
  ghost predicate BracketBefore(passes: seq<Pass>, limit: nat) {
    exists i: nat, j: int, n: nat :: BracketAt(passes, i, j, n) && n < limit
  }

  /** What is shown, for any passes: the whole array when it needs at most 511 characters;
      otherwise its first 511 when a closing bracket in a name falls among them, and an empty
      array when none does. */
  lemma ShownExactly(passes: seq<Pass>)
    ensures Shown(passes) == if |FullArray(passes)| <= 511 then FullArray(passes)
                             else if BracketBefore(passes, 511) then FullArray(passes)[..511]
                             else "[]"
  {
    var full := FullArray(passes);
    ArrayEnds(passes);
    assert full[..1][0] == full[0];
    hide FullArray, BracketAt, EntryStart, Shown;
    ShownByBracket(passes);
    if |full| > 511 {
      if BracketBefore(passes, 511) {
        var i: nat, j: int, n: nat :| BracketAt(passes, i, j, n) && n < 511;
        BracketFound(passes, i, j, n);
        assert full[..511][n] == ']';
      } else if ']' in full[..511] {
        var n: nat :| n < 511 && full[..511][n] == ']';
        StartsAtOne(passes);
        var i, j := OnlyInNames(passes, 0, n);
        assert false;
      }
    }
  }

  lemma ShownByBracket(passes: seq<Pass>)
    ensures |FullArray(passes)| <= 511 ==> Shown(passes) == FullArray(passes)
    ensures |FullArray(passes)| > 511 ==>
              Shown(passes) == if ']' in FullArray(passes)[..511] then FullArray(passes)[..511] else "[]"
  {
    hide FullArray;
  }

  lemma StartsAtOne(passes: seq<Pass>)
    ensures EntryStart(passes, 0) == 1
  {
  }

  // ---------------------------------------------------------------------------------------
  // How many passes fit
  // ---------------------------------------------------------------------------------------

  /** Passes whose times could be broken down. */
  predicate Timed(passes: seq<Pass>) {
    forall i :: 0 <= i < |passes| ==> passes[i].aos.Utc? && passes[i].los.Utc?
  }

  lemma EntryLength(p: Pass)
    requires p.aos.Utc? && p.los.Utc?
    ensures |Entry(p)| >= 103 + |p.name|
  {
    TimeLength(p.aos);
    TimeLength(p.los);
    hide TimeText;
  }

  lemma {:induction false} ElementsLength(passes: seq<Pass>, i: nat)
    requires Timed(passes) && i <= |passes|
    ensures |Elements(passes, i)| >= if i == |passes| then 0 else 104 * (|passes| - i) - 1
    decreases |passes| - i
  {
    hide Entry;
    if i < |passes| {
      EntryLength(passes[i]);
      ElementsLength(passes, i + 1);
    }
  }

  lemma FivePassesAreTooLong(passes: seq<Pass>)
    requires Timed(passes) && |passes| >= 5
    ensures |FullArray(passes)| > 511
  {
    hide Elements;
    ElementsLength(passes, 0);
  }

  /** A schedule may hold sixteen passes, but five or more are always shown as none. */
  lemma FivePassesAreNone(passes: seq<Pass>)
    requires NoBrackets(passes) && Timed(passes) && |passes| >= 5
    ensures Shown(passes) == "[]"
  {
    hide FullArray, Shown;
    FivePassesAreTooLong(passes);
    AllOrNothing(passes);
  }

  /** Five passes of a satellite whose name ends in a bracketed mark. */
  const MARKED := Pass("SAT [+]", Utc(2025, 1, 1, 0, 0, 0), Utc(2025, 1, 1, 0, 10, 0), 600, 45)
  const FIVE_MARKED := [MARKED, MARKED, MARKED, MARKED, MARKED]

  /** They are shown as a piece of an array. */
  lemma MarkedNameIsCut()
    ensures |FullArray(FIVE_MARKED)| > 511 && Shown(FIVE_MARKED) == FullArray(FIVE_MARKED)[..511]
    ensures Shown(FIVE_MARKED) != FullArray(FIVE_MARKED) && Shown(FIVE_MARKED) != "[]"
  {
    hide FullArray, Shown, Numeral, TimeText;
    FivePassesAreTooLong(FIVE_MARKED);
    assert BracketAt(FIVE_MARKED, 0, 6, 16);
    ShownExactly(FIVE_MARKED);
  }
}
