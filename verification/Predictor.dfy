/** The orbit predictor's clock and element-set epoch: the static `daynum` set from a Unix
    time, the epoch packed into one double, and the age that `Calc` derives from the two. */
module Predictor {
  import opened CArith
  import opened Calendar

  // ---------------------------------------------------------------------------------------
  // Element-set epochs
  // ---------------------------------------------------------------------------------------

  /** Unpacks with `modf`: the whole thousands are the year, the rest is the day. */
  function JulianDateOfEpoch(epoch: real): real {
    var scaled := epoch * 0.001;
    var yy := CTrunc(scaled);
    var day := (scaled - yy as real) * 1000.0;
    JulianDateOfYear(EpochYear(yy)) + day
  }

  function EpochYear(yy: int): int {
    if yy < 57 then yy + 2000 else yy + 1900
  }

  /** The epoch that the decay test uses, counted from day number zero. */
  function DecayEpoch(year: int, refepoch: real): real {
    DayNum(1, 0, year) as real + refepoch
  }

  /** A two-digit year and a day of the year, packed into one number as the element sets have
      it, are found again: the years below 57 are those of this century. */
  lemma EpochPackingRoundTrip(year: int, refepoch: real)
    requires 0 <= year && 0.0 <= refepoch < 1000.0
    ensures JulianDateOfEpoch(1000.0 * year as real + refepoch)
         == JulianDateOfYear(if year < 57 then 2000 + year else 1900 + year) + refepoch
  {
    var scaled := (1000.0 * year as real + refepoch) * 0.001;
    assert scaled == year as real + refepoch * 0.001;
    FloorIs(scaled, year);
  }

  lemma CenturyOfDays(y: int)
    requires 1952 <= y < 1957
    ensures GregorianDays(y + 100) - GregorianDays(y) == 36525
  {
    assert (y + 99) / 4 == (y - 1) / 4 + 25;
    assert (y - 1) / 100 == 19 && (y + 99) / 100 == 20;
    assert (y - 1) / 400 == 4 && (y + 99) / 400 == 5;
  }

  /** A century from 1952..1956 to 2052..2056 has a fixed length. */
  lemma CenturyBetweenPivots(year: int)
    requires 52 <= year < 57
    ensures JulianDateOfYear(2000 + year) - JulianDateOfYear(1900 + year) == 36525.0
  {
    JulianDateIsGregorian(2000 + year);
    JulianDateIsGregorian(1900 + year);
    CenturyOfDays(1900 + year);
  }

  /** The tracker and the decay test read the same epoch out of an element set, except for
      years 52 to 56, which they place a century apart. */
  lemma PivotsDisagree(year: int, refepoch: real)
    requires 0 <= year && 0.0 <= refepoch < 1000.0
    ensures JulianDateOfEpoch(1000.0 * year as real + refepoch) - (DecayEpoch(year, refepoch) + DAY_ZERO)
         == if 52 <= year < 57 then 36525.0 else 0.0
  {
    EpochPackingRoundTrip(year, refepoch);
    DayNumRefinesMeeus(1, 0, year);
    assert DayOfYear(DayNumYear(1, year), 1, 0) == 0;
    if 52 <= year < 57 {
      CenturyBetweenPivots(year);
    }
  }

  // ---------------------------------------------------------------------------------------
  // The clock
  // ---------------------------------------------------------------------------------------

  const SECONDS_PER_DAY := 86400

  /** The Julian date of a Unix time, by the calendar. */
  function UnixInstant(t: int): real {
    JulianDate(Date(1970, 1, 1)) + t as real / SECONDS_PER_DAY as real
  }

  /** The linear clock's two constants place the Unix epoch where the calendar does. */
  lemma LinearClock(t: int)
    ensures (t as real / 86400.0 - 3651.0) + DAY_ZERO == UnixInstant(t)
  {
    JulianDateIsDayCount(Date(1970, 1, 1));
    assert DayCount(Date(1970, 1, 1)) == 719163;
  }

  class Tracker {
    var daynum: real
    var satYear: int
    var satRefepoch: real
    var tleEpoch: real
    var julUtc: real
    var julEpoch: real
    var age: real

    constructor (year: int, refepoch: real)
      ensures satYear == year && satRefepoch == refepoch
    {
      satYear, satRefepoch := year, refepoch;
      daynum, tleEpoch, julUtc, julEpoch, age := 0.0, 0.0, 0.0, 0.0, 0.0;
    }

    method SetCalcTime(time: int)
      modifies this`daynum
      ensures daynum + DAY_ZERO == UnixInstant(time)
    {
      daynum := time as real / 86400.0 - 3651.0;
      LinearClock(time);
    }

    method PreCalc()
      modifies this`tleEpoch
      ensures tleEpoch == 1000.0 * satYear as real + satRefepoch
    {
      tleEpoch := 1000.0 * satYear as real + satRefepoch;
    }

    method Calc()
      modifies this`julUtc, this`julEpoch, this`age
      ensures julUtc == daynum + DAY_ZERO
      ensures julEpoch == JulianDateOfEpoch(tleEpoch)
      ensures age == julUtc - julEpoch
    {
      julUtc := daynum + 2444238.5;
      julEpoch := JulianDateOfEpoch(tleEpoch);
      age := julUtc - julEpoch;
    }

    /** The three calls of one tracking step leave the age of the element set at the given
        time: the calendar distance from its epoch to that instant. */
    method Track(time: int)
      requires 0 <= satYear && 0.0 <= satRefepoch < 1000.0
      modifies this
      ensures satYear == old(satYear) && satRefepoch == old(satRefepoch)
      ensures age == UnixInstant(time) - (JulianDateOfYear(if satYear < 57 then 2000 + satYear else 1900 + satYear) + satRefepoch)
    {
      SetCalcTime(time);
      PreCalc();
      Calc();
      EpochPackingRoundTrip(satYear, satRefepoch);
    }
  }
}
