/** The day-number algorithms of the orbit predictor: the Meeus Julian date of a year, the
    day of the year, the closed-form day number, and the epoch of an element set.
    Doubles are exact reals; casts to an integer type truncate. */
module Calendar {
  import opened CArith

  // ---------------------------------------------------------------------------------------
  // The Gregorian calendar itself
  // ---------------------------------------------------------------------------------------

  predicate IsLeapYear(y: int) {
    y % 4 == 0 && (y % 100 != 0 || y % 400 == 0)
  }

  function YearLength(y: int): int {
    if IsLeapYear(y) then 366 else 365
  }

  const MONTH_DAYS: seq<int> := [31, 28, 31, 30, 31, 30, 31, 31, 30, 31, 30, 31]

  function MonthLength(y: int, mo: int): int
    requires 1 <= mo <= 12
  {
    MONTH_DAYS[mo - 1] + if mo == 2 && IsLeapYear(y) then 1 else 0
  }

  datatype Date = Date(year: int, month: int, day: int) {
    predicate Valid() {
      1 <= month <= 12 && 1 <= day <= MonthLength(year, month)
    }

    function Next(): Date
      requires Valid()
    {
      if day < MonthLength(year, month) then Date(year, month, day + 1)
      else if month < 12 then Date(year, month + 1, 1)
      else Date(year + 1, 1, 1)
    }

    predicate Before(other: Date) {
      || year < other.year
      || (year == other.year && month < other.month)
      || (year == other.year && month == other.month && day < other.day)
    }
  }

  /** Days from 1 January of year 1 to 1 January of year y, proleptic Gregorian. */
  function GregorianDays(y: int): int {
    365 * (y - 1) + (y - 1) / 4 - (y - 1) / 100 + (y - 1) / 400
  }

  lemma GregorianYearStep(y: int)
    ensures GregorianDays(y + 1) - GregorianDays(y) == YearLength(y)
  {
    assert y / 4 - (y - 1) / 4 == if y % 4 == 0 then 1 else 0;
    assert y / 100 - (y - 1) / 100 == if y % 100 == 0 then 1 else 0;
    assert y / 400 - (y - 1) / 400 == if y % 400 == 0 then 1 else 0;
    LeapDivisors(y);
  }

  lemma LeapDivisors(y: int)
    ensures y % 100 == 0 ==> y % 4 == 0
    ensures y % 400 == 0 ==> y % 100 == 0
  {
    if y % 100 == 0 {
      DivModUnique(y, 4, 25 * (y / 100), 0);
    }
    if y % 400 == 0 {
      DivModUnique(y, 100, 4 * (y / 400), 0);
    }
  }

  lemma {:induction false} GregorianDaysMonotone(y: int, z: int)
    requires y <= z
    ensures GregorianDays(z) - GregorianDays(y) >= 365 * (z - y)
    decreases z - y
  {
    if y < z {
      GregorianYearStep(y);
      GregorianDaysMonotone(y + 1, z);
    }
  }

  // ---------------------------------------------------------------------------------------
  // Julian_Date_of_Year
  // ---------------------------------------------------------------------------------------

  function JulianDateOfYear(year: int): real {
    var n := year - 1;
    var a := CTrunc(n as real / 100.0);
    var b := 2 - a + CDiv(a, 4);
    var i := CTrunc(365.25 * n as real);
    var k := CTrunc(i as real + 30.6001 * 14.0);
    k as real + 1720994.5 + b as real
  }

  /** The Julian date of day zero of year 1, less the days that precede it. */
  const MEEUS_BASE: real := 1721424.5

  /** The casts of the Meeus form, done in integers. */
  function MeeusDays(n: int): int {
    var i := CDiv(1461 * n, 4);
    (if i >= -428 then i + 428 else i + 429) + 2 - CDiv(n, 100) + CDiv(CDiv(n, 100), 4)
  }

  /** Adding the whole days of fourteen Meeus months and casting again. */
  lemma TruncPastMonths(i: int)
    ensures CTrunc(i as real + 30.6001 * 14.0) == if i >= -428 then i + 428 else i + 429
  {
    assert 30.6001 * 14.0 == 428.4014;
    var x := i as real + 428.4014;
    if i >= -428 {
      FloorIs(x, i + 428);
    } else {
      FloorIs(-x, -i - 429);
    }
  }

  lemma JulianDateInIntegers(year: int)
    ensures JulianDateOfYear(year) == MeeusDays(year - 1) as real + 1720994.5
  {
    var n := year - 1;
    TruncOfQuotient(n);
    TruncOfQuotient(1461 * n);
    assert 365.25 * n as real == (1461 * n) as real / 4.0;
    TruncPastMonths(CDiv(1461 * n, 4));
  }

  /** How far the truncating casts push the Meeus form past the Gregorian count. */
  function MeeusExcess(y: int): int {
    if y >= 1 then 0 else if y == 0 || IsLeapYear(y - 1) then 1 else 2
  }

  lemma MeeusDrift(y: int)
    ensures MeeusDays(y - 1) == GregorianDays(y) + 430 + MeeusExcess(y)
  {
    var n := y - 1;
    QuarterDays(n);
    TruncVersusFloor(n);
    NestedQuotient(n);
    LeapDivisors(n);
  }

  lemma QuarterDays(n: int)
    ensures CDiv(1461 * n, 4) == 365 * n + CDiv(n, 4)
  {
  }

  lemma NestedQuotient(n: int)
    ensures CDiv(CDiv(n, 100), 4) == CDiv(n, 400)
  {
  }

  lemma JulianDateDrift(y: int)
    ensures JulianDateOfYear(y) == (GregorianDays(y) + MeeusExcess(y)) as real + MEEUS_BASE
  {
    JulianDateInIntegers(y);
    MeeusDrift(y);
  }

  /** The Meeus form is the Gregorian day count exactly from year 1 on. */
  lemma JulianDateIsGregorian(y: int)
    ensures JulianDateOfYear(y) == GregorianDays(y) as real + MEEUS_BASE <==> y >= 1
  {
    JulianDateDrift(y);
  }

  lemma ExcessStep(y: int)
    ensures MeeusExcess(y + 1) == MeeusExcess(y)
       <==> y >= 1 || (y <= -2 && !IsLeapYear(y) && !IsLeapYear(y - 1))
  {
    assert IsLeapYear(y) ==> !IsLeapYear(y - 1);
  }

  /** The length of the year that separates two Julian dates of years: right exactly from
      year 1 on, and by accident between some earlier common years. */
  lemma JulianYearStep(y: int)
    ensures JulianDateOfYear(y + 1) - JulianDateOfYear(y) == DayOfYear(y, 12, 31) as real
       <==> y >= 1 || (y <= -2 && !IsLeapYear(y) && !IsLeapYear(y - 1))
  {
    JulianDateDrift(y);
    JulianDateDrift(y + 1);
    GregorianYearStep(y);
    DayOfYearTable(y, 12);
    ExcessStep(y);
  }

  // ---------------------------------------------------------------------------------------
  // DOY
  // ---------------------------------------------------------------------------------------

  /** The lengths of the first n months of a common year, added up. */
  function CommonDays(n: int): int
    requires n <= 12
    decreases if n < 0 then 0 else n
  {
    if n <= 0 then 0 else CommonDays(n - 1) + MONTH_DAYS[n - 1]
  }

  function DayOfYear(yr: int, mo: int, dy: int): int
    requires mo <= 13
  {
    CommonDays(mo - 1) + dy + if IsLeapYear(yr) && mo > 2 then 1 else 0
  }

  method Doy(yr: int, mo: int, dy: int) returns (day: int)
    requires mo <= 13  // the table of month lengths has twelve entries
    ensures day == DayOfYear(yr, mo, dy)
  {
    day := 0;
    var i := 0;
    while i < mo - 1
      invariant 0 <= i && (i <= mo - 1 || i == 0)
      invariant day == CommonDays(i)
    {
      day := day + MONTH_DAYS[i];
      i := i + 1;
    }
    day := day + dy;
    if yr % 4 == 0 && (yr % 100 != 0 || yr % 400 == 0) && mo > 2 {
      day := day + 1;
    }
  }

  lemma CommonDaysTable()
    ensures CommonDays(0) == 0 && CommonDays(1) == 31 && CommonDays(2) == 59
    ensures CommonDays(3) == 90 && CommonDays(4) == 120 && CommonDays(5) == 151
    ensures CommonDays(6) == 181 && CommonDays(7) == 212 && CommonDays(8) == 243
    ensures CommonDays(9) == 273 && CommonDays(10) == 304 && CommonDays(11) == 334
    ensures CommonDays(12) == 365
  {
    assert CommonDays(4) == 120;
    assert CommonDays(8) == 243;
  }

  /** Day one of a month comes after the months before it; the last day of the twelfth
      month is the last of the year. */
  lemma DayOfYearTable(y: int, mo: int)
    requires 1 <= mo <= 12
    ensures DayOfYear(y, 1, 1) == 1
    ensures mo < 12 ==> DayOfYear(y, mo + 1, 1) == DayOfYear(y, mo, 1) + MonthLength(y, mo)
    ensures DayOfYear(y, 12, 31) == YearLength(y)
    ensures 1 <= DayOfYear(y, mo, 1) <= YearLength(y) + 1 - MonthLength(y, mo)
  {
    CommonDaysTable();
  }

  /** The Julian date of the start of a Gregorian date, as the predictor composes it. */
  function JulianDate(d: Date): real
    requires 1 <= d.month <= 12
  {
    JulianDateOfYear(d.year) + DayOfYear(d.year, d.month, d.day) as real
  }

  /** The same date counted in whole days. */
  function DayCount(d: Date): int
    requires 1 <= d.month <= 12
  {
    GregorianDays(d.year) + DayOfYear(d.year, d.month, d.day)
  }

  lemma JulianDateIsDayCount(d: Date)
    requires 1 <= d.month <= 12
    ensures JulianDate(d) == DayCount(d) as real + MEEUS_BASE <==> d.year >= 1
  {
    JulianDateIsGregorian(d.year);
  }

  lemma DayCountNext(d: Date)
    requires d.Valid()
    ensures d.Next().Valid()
    ensures DayCount(d.Next()) == DayCount(d) + 1
  {
    DayOfYearTable(d.year, d.month);
    if d.month == 12 && d.day == 31 {
      DayOfYearTable(d.year + 1, 1);
      GregorianYearStep(d.year);
    }
  }

  /** Moving to the next date of the calendar raises the Julian date by one. */
  lemma JulianDateNext(d: Date)
    requires d.Valid() && d.year >= 1
    ensures d.Next().Valid()
    ensures JulianDate(d.Next()) == JulianDate(d) + 1.0
  {
    DayCountNext(d);
    JulianDateIsDayCount(d);
    JulianDateIsDayCount(d.Next());
  }

  lemma {:induction false} MonthsOrdered(y: int, mo: int, later: int)
    requires 1 <= mo < later <= 12
    ensures DayOfYear(y, later, 1) >= DayOfYear(y, mo, 1) + MonthLength(y, mo)
    decreases later
  {
    DayOfYearTable(y, later - 1);
    if mo < later - 1 {
      MonthsOrdered(y, mo, later - 1);
    }
  }

  lemma DayCountMonotone(d: Date, e: Date)
    requires d.Valid() && e.Valid()
    requires d.Before(e)
    ensures DayCount(d) < DayCount(e)
  {
    if d.year < e.year {
      DayOfYearTable(d.year, d.month);
      DayOfYearTable(e.year, e.month);
      GregorianYearStep(d.year);
      GregorianDaysMonotone(d.year + 1, e.year);
    } else if d.month < e.month {
      MonthsOrdered(d.year, d.month, e.month);
    }
  }

  /** No two dates share a Julian date, and dates are ordered as their Julian dates are. */
  lemma JulianDateOrdersDates(d: Date, e: Date)
    requires d.Valid() && e.Valid() && d.year >= 1 && e.year >= 1
    ensures d.Before(e) <==> JulianDate(d) < JulianDate(e)
    ensures d == e <==> JulianDate(d) == JulianDate(e)
  {
    JulianDateIsDayCount(d);
    JulianDateIsDayCount(e);
    if d.Before(e) {
      DayCountMonotone(d, e);
    } else if e.Before(d) {
      DayCountMonotone(e, d);
    }
  }

  // ---------------------------------------------------------------------------------------
  // DayNum
  // ---------------------------------------------------------------------------------------

  /** Julian date of day number zero. */
  const DAY_ZERO: real := 2444238.5

  function DayNum(m: int, d: int, y: int): int {
    var y1 := if m < 3 then y - 1 else y;
    var mm := if m < 3 then m + 12 else m;
    var yy := (if y1 <= 50 then y1 + 100 else y1) as real;
    var dn := (365.25 * (yy - 80.0)).Floor - (19.0 + yy / 100.0).Floor
              + (4.75 + yy / 400.0).Floor - 16;
    dn + d + 30 * mm + (0.6 * mm as real - 0.3).Floor
  }

  /** The calendar year that a two-digit year stands for in `DayNum`. The pivot applies
      after January and February have been moved to the year before, so year 51 is split. */
  function DayNumYear(m: int, y: int): int {
    if y <= 50 || (y == 51 && m < 3) then 2000 + y else 1900 + y
  }

  lemma DayNumYearTerms(y: int)
    ensures var yy := y as real;
            && (365.25 * (yy - 80.0)).Floor == 1461 * (y - 80) / 4
            && (19.0 + yy / 100.0).Floor == (1900 + y) / 100
            && (4.75 + yy / 400.0).Floor == (1900 + y) / 400
  {
    var yy := y as real;
    FloorOfQuotient(1461 * (y - 80));
    assert 365.25 * (yy - 80.0) == (1461 * (y - 80)) as real / 4.0;
    FloorOfQuotient(1900 + y);
    assert 19.0 + yy / 100.0 == (1900 + y) as real / 100.0;
    assert 4.75 + yy / 400.0 == (1900 + y) as real / 400.0;
  }

  /** Thirty days a month plus the floored correction is the number of days since 1 March,
      up to a constant. */
  lemma MarchBasedMonths(m: int)
    requires 1 <= m <= 12
    ensures var mm := if m < 3 then m + 12 else m;
            30 * mm + (0.6 * mm as real - 0.3).Floor
            == CommonDays(m - 1) + if m < 3 then 397 else 32
  {
    CommonDaysTable();
  }

  /** The closed form in integers, before and after the March-based year is undone. */
  lemma DayNumInIntegers(m: int, d: int, y: int, yy: int)
    requires 1 <= m <= 12
    requires 1900 + yy == if m < 3 then DayNumYear(m, y) - 1 else DayNumYear(m, y)
    ensures DayNum(m, d, y) == 1461 * (yy - 80) / 4 - (1900 + yy) / 100 + (1900 + yy) / 400
                               + CommonDays(m - 1) + (if m < 3 then 381 else 16) + d
  {
    DayNumYearTerms(yy);
    MarchBasedMonths(m);
  }

  lemma MarchBasedYear(m: int, yy: int, year: int)
    requires 1 <= m <= 12
    requires 1900 + yy == if m < 3 then year - 1 else year
    ensures 1461 * (yy - 80) / 4 - (1900 + yy) / 100 + (1900 + yy) / 400
            + (if m < 3 then 381 else 16)
         == GregorianDays(year) - 722814 + if IsLeapYear(year) && m > 2 then 1 else 0
  {
    var n := 1900 + yy;
    assert 1461 * (yy - 80) / 4 == 365 * (yy - 80) + n / 4 - 495;
    GregorianYearStep(n);
    assert GregorianDays(n + 1) == 365 * n + n / 4 - n / 100 + n / 400;
  }

  /** The closed form counts days, for every month, day and year: from a fixed day, and in the
      year it stands for. */
  lemma DayNumIsDayCount(m: int, d: int, y: int)
    requires 1 <= m <= 12
    ensures DayNum(m, d, y) == DayCount(Date(DayNumYear(m, y), m, d)) - 722814
  {
    var year := DayNumYear(m, y);
    var yy := if m < 3 then year - 1901 else year - 1900;
    DayNumInIntegers(m, d, y, yy);
    MarchBasedYear(m, yy, year);
  }

  /** The closed form names the same instant as Julian_Date_of_Year plus DOY, for every
      month and day, exactly when the year it stands for is one the Meeus form covers. */
  lemma DayNumRefinesMeeus(m: int, d: int, y: int)
    requires 1 <= m <= 12
    ensures DayNum(m, d, y) as real + DAY_ZERO == JulianDate(Date(DayNumYear(m, y), m, d))
       <==> DayNumYear(m, y) >= 1
  {
    DayNumIsDayCount(m, d, y);
    JulianDateIsDayCount(Date(DayNumYear(m, y), m, d));
  }
}
