/** The ground station's clock text: seconds broken down into year, month, day, hour, minute
    and second by counting years, then months. */
module Timestamp {
  import opened CArith
  import opened Calendar
  import Predictor

  datatype Fields = Fields(year: int, mon: int, day: int, hour: int, min: int, sec: int) {
    function TimeOfDay(): int {
      3600 * hour + 60 * min + sec
    }

    predicate Midnight() {
      hour == 0 && min == 0 && sec == 0
    }
  }

  const MONTH_DAYS_LEAP: seq<int> := [31, 29, 31, 30, 31, 30, 31, 31, 30, 31, 30, 31]

  /** Seconds from the start of the base year to the instant the fields name. */
  function Seconds(f: Fields, base: int): int
    requires 1 <= f.mon <= 12
  {
    86400 * (DayCount(Date(f.year, f.mon, f.day)) - DayCount(Date(base, 1, 1))) + f.TimeOfDay()
  }

  /** Fields in range. A month may show the day after its last one, but only at midnight,
      and then never as the first of the month that follows. */
  predicate InRange(f: Fields, base: int) {
    && f.year >= base && 1 <= f.mon <= 12
    && 1 <= f.day <= MonthLength(f.year, f.mon) + 1
    && 0 <= f.hour < 24 && 0 <= f.min < 60 && 0 <= f.sec < 60
    && (f.day == MonthLength(f.year, f.mon) + 1 ==> f.Midnight())
    && (f.day == 1 && f.Midnight() ==> f.year == base && f.mon == 1)
  }

  /** Fields of a negative count: nothing is borrowed, every part is counted backwards. */
  predicate CountsBack(f: Fields, base: int) {
    f.year == base && f.mon == 1 && f.day <= 1 && -24 < f.hour <= 0 && -60 < f.min <= 0 && -60 < f.sec <= 0
  }

  ghost predicate Denotes(f: Fields, base: int, s: int) {
    && (if s >= 0 then InRange(f, base) else CountsBack(f, base))
    && Seconds(f, base) == s
  }

  /** What is left of a month's seconds, divided step by step. */
  function Parts(year: int, mon: int, s: int): Fields {
    var days := CDiv(s, 86400);
    var inDay := s - days * 86400;
    var hour := CDiv(inDay, 3600);
    var inHour := inDay - hour * 3600;
    var min := CDiv(inHour, 60);
    Fields(year, mon, days + 1, hour, min, inHour - min * 60)
  }

  lemma PartsAddUp(year: int, mon: int, s: int)
    ensures var f := Parts(year, mon, s);
            && 86400 * (f.day - 1) + f.TimeOfDay() == s
            && (s >= 0 ==> f.day >= 1 && 0 <= f.hour < 24 && 0 <= f.min < 60 && 0 <= f.sec < 60)
            && (s <= 0 ==> f.day <= 1 && -24 < f.hour <= 0 && -60 < f.min <= 0 && -60 < f.sec <= 0)
  {
  }

  lemma PartsDenote(year: int, mon: int, s: int, base: int, total: int)
    requires year >= base && 1 <= mon <= 12
    requires s <= 86400 * MonthLength(year, mon)
    requires (year > base || mon > 1) ==> s > 0
    requires total == s + 86400 * (DayOfYear(year, mon, 1) - 1)
                        + 86400 * (GregorianDays(year) - GregorianDays(base))
    ensures Denotes(Parts(year, mon, s), base, total)
  {
    var f := Parts(year, mon, s);
    PartsAddUp(year, mon, s);
    DayOfYearTable(base, 1);
    assert DayOfYear(year, mon, f.day) == DayOfYear(year, mon, 1) + f.day - 1;
    assert Seconds(f, base) == total;
    YearsOnlyAdd(year, mon, base);
  }

  lemma YearsOnlyAdd(year: int, mon: int, base: int)
    requires year >= base && 1 <= mon <= 12
    ensures GregorianDays(year) >= GregorianDays(base) && DayOfYear(year, mon, 1) >= 1
    ensures year == base && mon == 1 ==> DayOfYear(year, mon, 1) == 1
  {
    GregorianDaysMonotone(base, year);
    DayOfYearTable(year, mon);
  }

  /** Counts years for as long as more seconds are left than the year holds. */
  method CountYears(total: int, base: int) returns (year: int, s: int)
    ensures year >= base && s <= 86400 * YearLength(year)
    ensures year > base ==> s > 0
    ensures total == s + 86400 * (GregorianDays(year) - GregorianDays(base))
  {
    s := total;
    year := base;
    var sec := (if IsLeapYear(year) then 366 else 365) * 24 * 60 * 60;
    while s > sec
      invariant year >= base && (year > base ==> s > 0)
      invariant sec == 86400 * YearLength(year)
      invariant total == s + 86400 * (GregorianDays(year) - GregorianDays(base))
      decreases s
    {
      GregorianYearStep(year);
      s := s - sec;
      year := year + 1;
      sec := (if IsLeapYear(year) then 366 else 365) * 24 * 60 * 60;
    }
  }

  /** Counts months the same way. At most a year is left, so the table is never overrun. */
  method CountMonths(year: int, inYear: int) returns (mon: int, s: int)
    requires inYear <= 86400 * YearLength(year)
    ensures 1 <= mon <= 12 && s <= 86400 * MonthLength(year, mon)
    ensures mon > 1 ==> s > 0
    ensures inYear == s + 86400 * (DayOfYear(year, mon, 1) - 1)
  {
    s := inYear;
    mon := 1;
    var daysp := if IsLeapYear(year) then MONTH_DAYS_LEAP else MONTH_DAYS;
    var sec := 31 * 24 * 60 * 60;
    DayOfYearTable(year, 1);
    while s > sec
      invariant 1 <= mon <= 12 && (mon > 1 ==> s > 0)
      invariant sec == 86400 * MonthLength(year, mon)
      invariant inYear == s + 86400 * (DayOfYear(year, mon, 1) - 1)
      decreases s
    {
      DayOfYearTable(year, mon);
      mon := mon + 1;
      s := s - sec;
      sec := daysp[mon - 1] * 24 * 60 * 60;
    }
  }

  method SplitMonth(year: int, mon: int, inMonth: int) returns (f: Fields)
    ensures f == Parts(year, mon, inMonth)
  {
    var s := inMonth;
    var day := CDiv(s, 24 * 60 * 60);
    s := s - day * (24 * 60 * 60);
    day := day + 1;
    var hour := CDiv(s, 60 * 60);
    s := s - hour * (60 * 60);
    var min := CDiv(s, 60);
    s := s - min * 60;
    f := Fields(year, mon, day, hour, min, s);
  }

  method FormatTimestamp(utime: int, yearBase: int) returns (negative: bool, f: Fields)
    requires -0x8000_0000_0000_0000 < utime < 0x8000_0000_0000_0000
    ensures negative <==> utime < 0
    ensures Denotes(f, yearBase, Wrap32(Abs(utime)))
  {
    negative := utime < 0;
    ghost var total := Wrap32(Abs(utime));
    var year, inYear := CountYears(Wrap32(if utime < 0 then -utime else utime), yearBase);
    var mon, s := CountMonths(year, inYear);
    f := SplitMonth(year, mon, s);
    PartsDenote(year, mon, s, yearBase, total);
  }

  // ---------------------------------------------------------------------------------------
  // What the fields mean
  // ---------------------------------------------------------------------------------------

  /** The printed fields name, in the predictor's own calendar arithmetic, the instant that
      the predictor's linear clock assigns to the same seconds: boundary midnights and
      negative counts included. */
  lemma CalendarRoundTrip(f: Fields, t: int)
    requires Denotes(f, 1970, t)
    ensures JulianDateOfYear(f.year) + DayOfYear(f.year, f.mon, f.day) as real
            + f.TimeOfDay() as real / 86400.0
         == (t as real / 86400.0 - 3651.0) + DAY_ZERO
  {
    ElapsedRoundTrip(f, 1970, t);
    Predictor.LinearClock(t);
  }

  /** The same from any base year on: the printed fields are as far from its first day as the
      count says. */
  lemma ElapsedRoundTrip(f: Fields, base: int, t: int)
    requires base >= 1 && Denotes(f, base, t)
    ensures JulianDateOfYear(f.year) + DayOfYear(f.year, f.mon, f.day) as real
            + f.TimeOfDay() as real / 86400.0
         == JulianDate(Date(base, 1, 1)) + t as real / 86400.0
  {
    var d := Date(f.year, f.mon, f.day);
    JulianDateIsDayCount(d);
    JulianDateIsDayCount(Date(base, 1, 1));
    assert t as real == 86400.0 * (DayCount(d) - DayCount(Date(base, 1, 1))) as real + f.TimeOfDay() as real;
  }

  /** The date a set of fields falls on: the day past the end is the first of the next month. */
  function TrueDate(f: Fields): Date
    requires 1 <= f.mon <= 12
  {
    if f.day == MonthLength(f.year, f.mon) + 1 then Date(f.year, f.mon, f.day - 1).Next()
    else Date(f.year, f.mon, f.day)
  }

  lemma TrueDateSeconds(f: Fields, base: int)
    requires InRange(f, base)
    ensures TrueDate(f).Valid()
    ensures Seconds(f, base)
         == 86400 * (DayCount(TrueDate(f)) - DayCount(Date(base, 1, 1))) + f.TimeOfDay()
    ensures 0 <= f.TimeOfDay() < 86400
  {
    if f.day == MonthLength(f.year, f.mon) + 1 {
      DayCountNext(Date(f.year, f.mon, f.day - 1));
    }
  }

  lemma DayCountInjective(d: Date, e: Date)
    requires d.Valid() && e.Valid() && DayCount(d) == DayCount(e)
    ensures d == e
  {
    if d.Before(e) {
      DayCountMonotone(d, e);
    } else if e.Before(d) {
      DayCountMonotone(e, d);
    }
  }

  /** Hours, minutes and seconds are read off the time of day. */
  lemma TimeOfDayUnique(f: Fields, g: Fields)
    requires 0 <= f.min < 60 && 0 <= f.sec < 60 && 0 <= g.min < 60 && 0 <= g.sec < 60
    requires f.TimeOfDay() == g.TimeOfDay()
    ensures f.hour == g.hour && f.min == g.min && f.sec == g.sec
  {
  }

  lemma CountsBackUnique(f: Fields, g: Fields, base: int)
    requires CountsBack(f, base) && CountsBack(g, base) && Seconds(f, base) == Seconds(g, base)
    ensures f == g
  {
    EqualSplit(1 - f.day, -f.TimeOfDay(), 1 - g.day, -g.TimeOfDay());
    TimeOfDayUnique(Fields(0, 0, 0, -f.hour, -f.min, -f.sec), Fields(0, 0, 0, -g.hour, -g.min, -g.sec));
  }

  /** The date fields are read off the true date and whether it is midnight. */
  lemma TrueDateUnique(f: Fields, g: Fields, base: int)
    requires InRange(f, base) && InRange(g, base)
    requires TrueDate(f) == TrueDate(g) && f.Midnight() == g.Midnight()
    ensures f.year == g.year && f.mon == g.mon && f.day == g.day
  {
  }

  /** The specification leaves no choice: one set of fields for each number of seconds. */
  lemma DenotesUnique(f: Fields, g: Fields, base: int, s: int)
    requires Denotes(f, base, s) && Denotes(g, base, s)
    ensures f == g
  {
    if s >= 0 {
      TrueDateSeconds(f, base);
      TrueDateSeconds(g, base);
      EqualSplit(DayCount(TrueDate(f)), f.TimeOfDay(), DayCount(TrueDate(g)), g.TimeOfDay());
      DayCountInjective(TrueDate(f), TrueDate(g));
      TimeOfDayUnique(f, g);
      TrueDateUnique(f, g, base);
    } else {
      CountsBackUnique(f, g, base);
    }
  }

  lemma EqualSplit(d: int, x: int, e: int, y: int)
    requires 0 <= x < 86400 && 0 <= y < 86400 && 86400 * d + x == 86400 * e + y
    ensures d == e && x == y
  {
  }

  /** The instant of a midnight that opens a month. */
  ghost predicate OpensMonth(base: int, s: int) {
    exists y, mo :: 1 <= mo <= 12 && s == 86400 * (DayCount(Date(y, mo, 1)) - DayCount(Date(base, 1, 1)))
  }

  /** The day past the end of a month is a midnight that opens one. */
  lemma PastTheEnd(f: Fields, base: int)
    requires InRange(f, base) && f.day == MonthLength(f.year, f.mon) + 1
    ensures Seconds(f, base) > 0 && OpensMonth(base, Seconds(f, base))
  {
    TrueDateSeconds(f, base);
    var d := TrueDate(f);
    assert d == Date(d.year, d.month, 1);
    YearsOnlyAdd(f.year, f.mon, base);
    DayOfYearTable(base, 1);
  }

  /** A midnight that opens a month is shown as the day past the end of the one before. */
  lemma OpeningMidnight(f: Fields, base: int, y: int, mo: int)
    requires InRange(f, base) && 1 <= mo <= 12
    requires Seconds(f, base) == 86400 * (DayCount(Date(y, mo, 1)) - DayCount(Date(base, 1, 1))) > 0
    ensures f.day == MonthLength(f.year, f.mon) + 1
  {
    TrueDateSeconds(f, base);
    EqualSplit(DayCount(TrueDate(f)), f.TimeOfDay(), DayCount(Date(y, mo, 1)), 0);
    DayCountInjective(TrueDate(f), Date(y, mo, 1));
  }

  /** The day past the end of a month is shown exactly at the midnights, after the start,
      that open a month; at every other time the fields are a Gregorian date. */
  lemma BoundaryMidnights(f: Fields, base: int, s: int)
    requires s >= 0 && Denotes(f, base, s)
    ensures f.day == MonthLength(f.year, f.mon) + 1 <==> s > 0 && OpensMonth(base, s)
    ensures Date(f.year, f.mon, f.day).Valid() <==> !(s > 0 && OpensMonth(base, s))
  {
    if f.day == MonthLength(f.year, f.mon) + 1 {
      PastTheEnd(f, base);
    } else if s > 0 && OpensMonth(base, s) {
      var y, mo :| 1 <= mo <= 12 && s == 86400 * (DayCount(Date(y, mo, 1)) - DayCount(Date(base, 1, 1)));
      OpeningMidnight(f, base, y, mo);
    }
  }

  // ---------------------------------------------------------------------------------------
  // get_time
  // ---------------------------------------------------------------------------------------

  /** Reads the two 32-bit words of the clock as one 64-bit integer, adds eight hours and
      formats. The nanoseconds sit in the upper word and are lost by the narrowing to int;
      the text is Singapore time until that int overflows. */
  method GetTime(tvSec: int, tvNsec: int) returns (f: Fields)
    requires 0 <= tvSec < 0x1_0000_0000 && 0 <= tvNsec < 1_000_000_000
    ensures Denotes(f, 1970, Wrap32(tvSec + 28800))
    ensures Seconds(f, 1970) == tvSec + 28800 <==> tvSec + 28800 <= INT32_MAX
  {
    var convertedTime := tvSec + 0x1_0000_0000 * tvNsec;
    var negative;
    negative, f := FormatTimestamp(convertedTime + 28800, 1970);
    WrapDropsHighWord(tvSec + 28800, tvNsec);
    WrapRange(tvSec + 28800);
  }
}
