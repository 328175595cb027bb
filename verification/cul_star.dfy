/** The date-to-sidereal-time stages of `app/cul_star.py`: civil date and time to
    Modified Julian Date, MJD to Greenwich sidereal time, and sidereal time to the
    local hour angle, followed by the prefix of the `seiza_doko` pipeline that
    composes them. Every formula is the source's, constants included. */
module CulStar {
  import opened Arith
  import opened Calendar

  // ---------------------------------------------------------------------------
  // calculate_mjd
  // ---------------------------------------------------------------------------

  /** `a = int((14 - month) / 12)`: 1 for January and February, which are
      counted as the last months of the previous year, and 0 otherwise. Because
      the division truncates, every month from 3 up to 25 also gives 0. */
  function MonthShift(month: int): (a: int)
    ensures 1 <= month <= 12 ==> (a == 1 <==> month <= 2) && (a == 0 <==> 3 <= month)
    ensures 3 <= month <= 25 ==> a == 0
  {
    TruncDiv(14 - month, 12)
  }

  /** `y = year + 4800 - a`: the year counted from March of 4801 BC. */
  function ShiftedYear(year: int, month: int): (y: int)
    ensures 1 <= month <= 12 ==> y == (if month <= 2 then year + 4799 else year + 4800)
  {
    year + 4800 - MonthShift(month)
  }

  /** `m = month + 12 * a - 3`: months counted from March = 0 to February = 11. */
  function ShiftedMonth(month: int): (m: int)
    ensures 1 <= month <= 12 ==> 0 <= m <= 11 && m == (month + 9) % 12
  {
    month + 12 * MonthShift(month) - 3
  }

  /** `int((153 * m + 2) / 5)`: days from 1 March to the first of shifted month `m`. */
  function DaysBeforeMonth(m: int): int {
    TruncDiv(153 * m + 2, 5)
  }

  /** `int(y / 4) - int(y / 100) + int(y / 400)`: leap days up to shifted year `y`. */
  function LeapDays(y: int): int {
    TruncDiv(y, 4) - TruncDiv(y, 100) + TruncDiv(y, 400)
  }

  /** The integer day number of a date (the value of `jd` before the time of day
      is added). It is the Julian Day Number of noon on that date, with no -0.5. */
  function DayNumber(year: int, month: int, day: int): int {
    var y := ShiftedYear(year, month);
    var m := ShiftedMonth(month);
    day + DaysBeforeMonth(m) + 365 * y + LeapDays(y) - 32045
  }

  /** A time of day with hour 0..23, minute 0..59 and second in [0, 60). */
  predicate ValidTime(hour: int, minute: int, second: real) {
    0 <= hour <= 23 && 0 <= minute <= 59 && 0.0 <= second < 60.0
  }

  /** `(hour + minute / 60.0 + second / 3600.0) / 24.0`: the elapsed part of the day. */
  function DayFraction(hour: int, minute: int, second: real): (f: real)
    ensures ValidTime(hour, minute, second) ==> 0.0 <= f < 1.0
  {
    (hour as real + minute as real / 60.0 + second / 3600.0) / 24.0
  }

  /** The offset subtracted from the Julian day to obtain the MJD. */
  const MjdOffset: real := 2400000.5

  /** `calculate_mjd`: for a time within the day, the whole part of the result
      plus the offset is exactly the day number of the date. */
  function CalculateMjd(year: int, month: int, day: int, hour: int, minute: int, second: real): (mjd: real)
    ensures ValidTime(hour, minute, second) ==> (mjd + MjdOffset).Floor == DayNumber(year, month, day)
  {
    DayNumber(year, month, day) as real + DayFraction(hour, minute, second) - MjdOffset
  }

  /** Day number of a `Calendar.Date`. */
  function DateNumber(d: Date): int {
    DayNumber(d.year, d.month, d.day)
  }

  /** Lengths of the shifted months March (m = 0) through January (m = 10). */
  const MarchMonthLengths: seq<int> := [31, 30, 31, 30, 31, 31, 30, 31, 30, 31, 31]

  /** The month term grows, from one shifted month to the next, by exactly the
      length of the earlier month in the calendar. */
  lemma MonthLengthFromMarch(m: int, year: int)
    requires 0 <= m <= 10
    ensures DaysBeforeMonth(m + 1) - DaysBeforeMonth(m) == MarchMonthLengths[m]
    ensures DaysBeforeMonth(m + 1) - DaysBeforeMonth(m) == DaysInMonth(year, if m <= 9 then m + 3 else 1)
  {
    TruncDivNonNegative(153 * m + 2, 5);
    TruncDivNonNegative(153 * (m + 1) + 2, 5);
  }

  /** From one shifted year to the next the leap-day count grows by one exactly
      when the later year is a Gregorian leap year. */
  lemma LeapDaysStep(y: int)
    requires y >= 1
    ensures LeapDays(y) - LeapDays(y - 1) == if IsLeapYear(y) then 1 else 0
  {
    TruncDivNonNegative(y, 4);
    TruncDivNonNegative(y, 100);
    TruncDivNonNegative(y, 400);
    TruncDivNonNegative(y - 1, 4);
    TruncDivNonNegative(y - 1, 100);
    TruncDivNonNegative(y - 1, 400);
    QuotientStep(y, 4);
    QuotientStep(y, 100);
    QuotientStep(y, 400);
    DivisorChain(y);
  }

  /** Divisibility by 400 implies divisibility by 100, which implies divisibility by 4. */
  lemma DivisorChain(y: int)
    ensures y % 400 == 0 ==> y % 100 == 0
    ensures y % 100 == 0 ==> y % 4 == 0
  {
    if y % 400 == 0 {
      DivUnique(y, 100, 4 * (y / 400), 0);
    }
    if y % 100 == 0 {
      DivUnique(y, 4, 25 * (y / 100), 0);
    }
  }

  /** The shift by 4800 years is a whole number of 400-year cycles. */
  lemma LeapYearPeriod(year: int)
    ensures IsLeapYear(year + 4800) == IsLeapYear(year)
  {
  }

  /** Within a month the day number grows with the day of the month. */
  lemma SameMonthStep(year: int, month: int, day: int)
    ensures DayNumber(year, month, day + 1) == DayNumber(year, month, day) + 1
  {
  }

  /** From the last day of a month other than February or December to the first
      of the next month. */
  lemma MonthEndStep(year: int, month: int)
    requires 1 <= month <= 11 && month != 2
    ensures DayNumber(year, month + 1, 1) == DayNumber(year, month, DaysInMonth(year, month)) + 1
  {
    var m := ShiftedMonth(month);
    assert ShiftedMonth(month + 1) == m + 1;
    assert ShiftedYear(year, month + 1) == ShiftedYear(year, month);
    MonthLengthFromMarch(m, year);
  }

  /** From the last day of February to 1 March. */
  lemma FebruaryEndStep(year: int)
    requires year >= -4799
    ensures DayNumber(year, 3, 1) == DayNumber(year, 2, DaysInMonth(year, 2)) + 1
  {
    assert ShiftedYear(year, 2) == year + 4799 && ShiftedMonth(2) == 11;
    assert ShiftedYear(year, 3) == year + 4800 && ShiftedMonth(3) == 0;
    LeapDaysStep(year + 4800);
    LeapYearPeriod(year);
    TruncDivNonNegative(153 * 11 + 2, 5);
    TruncDivNonNegative(2, 5);
  }

  /** From 31 December to 1 January: `a` flips from 0 to 1, so the shifted year
      stays the same while the shifted month goes from 9 to 10. */
  lemma YearEndStep(year: int)
    ensures DayNumber(year + 1, 1, 1) == DayNumber(year, 12, 31) + 1
  {
    assert ShiftedYear(year, 12) == ShiftedYear(year + 1, 1) == year + 4800;
    assert ShiftedMonth(12) == 9 && ShiftedMonth(1) == 10;
    MonthLengthFromMarch(9, year);
  }

  /** Consecutive calendar days have day numbers exactly one apart, across month
      ends, 28/29 February and 31 December alike. */
  lemma NextDayStep(d: Date)
    requires Valid(d) && d.year >= -4799
    ensures DateNumber(NextDay(d)) == DateNumber(d) + 1
  {
    if d.day < DaysInMonth(d.year, d.month) {
      SameMonthStep(d.year, d.month, d.day);
    } else if d.month == 12 {
      YearEndStep(d.year);
    } else if d.month == 2 {
      FebruaryEndStep(d.year);
    } else {
      MonthEndStep(d.year, d.month);
    }
  }

  /** Moving `n` days forward in the calendar adds exactly `n` to the day number. */
  lemma {:induction false} AddDaysStep(d: Date, n: nat)
    requires Valid(d) && d.year >= -4799
    ensures DateNumber(AddDays(d, n)) == DateNumber(d) + n
    decreases n
  {
    if n > 0 {
      NextDayStep(d);
      AddDaysStep(NextDay(d), n - 1);
    }
  }

  /** Within a month the day number is the first's plus the elapsed days. */
  lemma DayWithinMonth(year: int, month: int, day: int)
    ensures DayNumber(year, month, day) == DayNumber(year, month, 1) + day - 1
  {
  }

  /** The first of every month from February to December is one day number after
      the last day of the month before it. */
  lemma EndOfMonthStep(year: int, month: int)
    requires 1 <= month <= 11 && year >= -4799
    ensures DayNumber(year, month + 1, 1) == DayNumber(year, month, DaysInMonth(year, month)) + 1
  {
    if month == 2 {
      FebruaryEndStep(year);
    } else {
      MonthEndStep(year, month);
    }
  }

  /** The last day of a month has a smaller day number than the 1st of any later
      month of the same year. */
  lemma {:induction false} MonthsIncrease(year: int, m1: int, m2: int)
    requires year >= -4799 && 1 <= m1 < m2 <= 12
    ensures DayNumber(year, m1, DaysInMonth(year, m1)) < DayNumber(year, m2, 1)
    decreases m2 - m1
  {
    EndOfMonthStep(year, m1);
    if m1 + 1 < m2 {
      DayWithinMonth(year, m1 + 1, DaysInMonth(year, m1 + 1));
      MonthsIncrease(year, m1 + 1, m2);
    }
  }

  /** The year's day numbers run from 1 January up to 31 December. */
  lemma WithinYear(d: Date)
    requires Valid(d) && d.year >= -4799
    ensures DayNumber(d.year, 1, 1) <= DateNumber(d) <= DayNumber(d.year, 12, 31)
  {
    DayWithinMonth(d.year, d.month, d.day);
    DayWithinMonth(d.year, d.month, DaysInMonth(d.year, d.month));
    if d.month > 1 {
      DayWithinMonth(d.year, 1, 31);
      MonthsIncrease(d.year, 1, d.month);
    }
    if d.month < 12 {
      MonthsIncrease(d.year, d.month, 12);
    }
  }

  /** 31 December of a year has a smaller day number than 1 January of any later
      year. */
  lemma {:induction false} YearsIncrease(y1: int, y2: int)
    requires -4799 <= y1 < y2
    ensures DayNumber(y1, 12, 31) < DayNumber(y2, 1, 1)
    decreases y2 - y1
  {
    YearEndStep(y1);
    if y1 + 1 < y2 {
      WithinYear(Date(y1 + 1, 12, 31));
      YearsIncrease(y1 + 1, y2);
    }
  }

  /** An earlier valid date has a smaller day number. */
  lemma EarlierIsSmaller(d: Date, e: Date)
    requires Valid(d) && Valid(e) && d.year >= -4799 && Before(d, e)
    ensures DateNumber(d) < DateNumber(e)
  {
    if d.year < e.year {
      WithinYear(d);
      WithinYear(e);
      YearsIncrease(d.year, e.year);
    } else if d.month < e.month {
      DayWithinMonth(d.year, d.month, d.day);
      DayWithinMonth(d.year, d.month, DaysInMonth(d.year, d.month));
      DayWithinMonth(e.year, e.month, e.day);
      MonthsIncrease(d.year, d.month, e.month);
    } else {
      DayWithinMonth(d.year, d.month, d.day);
      DayWithinMonth(e.year, e.month, e.day);
    }
  }

  /** Chronological order of valid dates is exactly the order of their day
      numbers; in particular distinct dates never share a day number. */
  lemma DateNumberOrder(d: Date, e: Date)
    requires Valid(d) && Valid(e) && d.year >= -4799 && e.year >= -4799
    ensures Before(d, e) <==> DateNumber(d) < DateNumber(e)
    ensures DateNumber(d) == DateNumber(e) <==> d == e
  {
    if Before(d, e) {
      EarlierIsSmaller(d, e);
    } else if Before(e, d) {
      EarlierIsSmaller(e, d);
    }
  }

  /** Below year -4799 truncation and floor part ways and continuity fails: in
      the leap year -4800, 29 February and 1 March share a day number. */
  lemma ContinuityFailsBelowBound()
    ensures IsLeapYear(-4800)
    ensures DayNumber(-4800, 3, 1) == DayNumber(-4800, 2, 29)
  {
    assert MonthShift(2) == 1 && MonthShift(3) == 0;
    assert DayNumber(-4800, 2, 29) == 29 + DaysBeforeMonth(11) + 365 * (-1) + LeapDays(-1) - 32045;
    assert DayNumber(-4800, 3, 1) == 1 + DaysBeforeMonth(0) + LeapDays(0) - 32045;
    assert LeapDays(-1) == 0 by {
      assert TruncDiv(-1, 4) == 0 && TruncDiv(-1, 100) == 0 && TruncDiv(-1, 400) == 0;
    }
    TruncDivNonNegative(153 * 11 + 2, 5);
    TruncDivNonNegative(2, 5);
  }

  /** From 28 February to 1 March is two days in a leap year and one otherwise. */
  lemma FebruaryGap(year: int)
    requires year >= -4799
    ensures DayNumber(year, 3, 1) - DayNumber(year, 2, 28) == if IsLeapYear(year) then 2 else 1
  {
    FebruaryEndStep(year);
    if IsLeapYear(year) {
      SameMonthStep(year, 2, 28);
    }
  }

  /** From 1 January to the next 1 January is 366 days in a leap year, 365 otherwise. */
  lemma YearLength(year: int)
    requires year >= -4799
    ensures DayNumber(year + 1, 1, 1) - DayNumber(year, 1, 1) == if IsLeapYear(year) then 366 else 365
  {
    LeapDaysStep(year + 4800);
    LeapYearPeriod(year);
  }

  /** 2000-01-01 00:00 gives 51544.5 (day number 2451545) and 12:00 gives 51545.0. */
  lemma EpochValues()
    ensures DayNumber(2000, 1, 1) == 2451545
    ensures CalculateMjd(2000, 1, 1, 0, 0, 0.0) == 51544.5
    ensures CalculateMjd(2000, 1, 1, 12, 0, 0.0) == 51545.0
  {
    TruncDivNonNegative(153 * 10 + 2, 5);
    TruncDivNonNegative(6799, 4);
    TruncDivNonNegative(6799, 100);
    TruncDivNonNegative(6799, 400);
  }

  /** One more hour adds exactly 1/24 day to the MJD. */
  lemma HourStep(year: int, month: int, day: int, hour: int, minute: int, second: real)
    ensures CalculateMjd(year, month, day, hour + 1, minute, second)
         == CalculateMjd(year, month, day, hour, minute, second) + 1.0 / 24.0
  {
  }

  /** The same time of day on the next calendar day is exactly 1.0 later. */
  lemma MjdNextDay(d: Date, hour: int, minute: int, second: real)
    requires Valid(d) && d.year >= -4799
    ensures var e := NextDay(d);
      CalculateMjd(e.year, e.month, e.day, hour, minute, second)
      == CalculateMjd(d.year, d.month, d.day, hour, minute, second) + 1.0
  {
    NextDayStep(d);
  }

  // ---------------------------------------------------------------------------
  // calc_greenwich_sidereal_time
  // ---------------------------------------------------------------------------

  /** `MJD_0`, the epoch of the sidereal polynomial. */
  const Mjd0: real := 51544.5

  /** `T`: Julian centuries of 36525 days since `Mjd0`. */
  function JulianCenturies(mjd: real): real {
    (mjd - Mjd0) / 36525.0
  }

  /** The unreduced sidereal cubic, in hours, with the source's coefficients. */
  function SiderealPolynomial(t: real): real {
    24.065709 + 8640184.812866 * t + 0.093104 * t * t - 0.0000062 * t * t * t
  }

  /** `calc_greenwich_sidereal_time`: the cubic reduced into [0, 24) hours, off
      from the raw cubic by a whole number of days of 24 hours. */
  function GreenwichSiderealTime(mjd: real): (gst: real)
    ensures 0.0 <= gst < 24.0
    ensures IsWhole((SiderealPolynomial(JulianCenturies(mjd)) - gst) / 24.0)
  {
    Mod24(SiderealPolynomial(JulianCenturies(mjd)))
  }

  /** The reduction is the unique value with those two properties. */
  lemma GstCharacterised(mjd: real, g: real, k: int)
    requires 0.0 <= g < 24.0
    requires SiderealPolynomial(JulianCenturies(mjd)) == g + 24.0 * k as real
    ensures GreenwichSiderealTime(mjd) == g
  {
    Mod24Unique(SiderealPolynomial(JulianCenturies(mjd)), g, k);
  }

  /** At the epoch the cubic is its constant term 24.065709, which reduces to 0.065709. */
  lemma GstAtEpoch()
    ensures GreenwichSiderealTime(Mjd0) == 0.065709
  {
    assert JulianCenturies(Mjd0) == 0.0;
    assert SiderealPolynomial(0.0) == 24.065709;
    Mod24Unique(24.065709, 0.065709, 1);
  }

  /** The coefficient 8640184.812866 is a count of seconds per century in the
      conventional formula, but here it is added to hours. So the cubic gains
      about 9.86 hours per solar hour and about 236.56 hours per day, not the
      sidereal rate of about 1.0027. One day after the epoch the sidereal time
      is therefore about 20.62 hours rather than about 0.13. */
  lemma SiderealRateAtEpoch()
    ensures 9.85 < SiderealPolynomial(JulianCenturies(Mjd0 + 1.0 / 24.0)) - SiderealPolynomial(JulianCenturies(Mjd0)) < 9.86
    ensures 236.55 < SiderealPolynomial(JulianCenturies(Mjd0 + 1.0)) - SiderealPolynomial(JulianCenturies(Mjd0)) < 236.56
    ensures 20.62 < GreenwichSiderealTime(Mjd0 + 1.0) < 20.63
  {
    var hour := 1.0 / (24.0 * 36525.0);
    var day := 1.0 / 36525.0;
    assert JulianCenturies(Mjd0) == 0.0;
    assert JulianCenturies(Mjd0 + 1.0 / 24.0) == hour;
    assert JulianCenturies(Mjd0 + 1.0) == day;
    var p := SiderealPolynomial(day);
    assert 260.62 < p < 260.63;
    Mod24Unique(p, p - 240.0, 10);
  }

  // ---------------------------------------------------------------------------
  // calc_local_hour_angle
  // ---------------------------------------------------------------------------

  /** Local sidereal time: Greenwich sidereal time less `longitude / 15`,
      reduced into [0, 24) hours. */
  function LocalSiderealTime(gst: real, longitude: real): (lst: real)
    ensures 0.0 <= lst < 24.0
    ensures IsWhole((gst - longitude / 15.0 - lst) / 24.0)
  {
    Mod24(gst - longitude / 15.0)
  }

  /** `calc_local_hour_angle`: local sidereal time less `ra / 15`, not reduced
      again, so `h + ra / 15` is the local sidereal time in [0, 24). */
  function LocalHourAngle(gst: real, longitude: real, ra: real): (h: real)
    ensures 0.0 <= h + ra / 15.0 < 24.0
    ensures IsWhole((gst - longitude / 15.0 - ra / 15.0 - h) / 24.0)
  {
    LocalSiderealTime(gst, longitude) - ra / 15.0
  }

  /** Turning the longitude by whole revolutions leaves the hour angle unchanged. */
  lemma LongitudeFullTurn(gst: real, longitude: real, ra: real, k: int)
    ensures LocalHourAngle(gst, longitude + 360.0 * k as real, ra) == LocalHourAngle(gst, longitude, ra)
  {
    assert gst - (longitude + 360.0 * k as real) / 15.0 == (gst - longitude / 15.0) + 24.0 * (-k) as real;
    Mod24Shift(gst - longitude / 15.0, -k);
  }

  /** Advancing the Greenwich sidereal time by whole days leaves the hour angle unchanged. */
  lemma GstFullDay(gst: real, longitude: real, ra: real, k: int)
    ensures LocalHourAngle(gst + 24.0 * k as real, longitude, ra) == LocalHourAngle(gst, longitude, ra)
  {
    assert gst + 24.0 * k as real - longitude / 15.0 == (gst - longitude / 15.0) + 24.0 * k as real;
    Mod24Shift(gst - longitude / 15.0, k);
  }

  /** Adding 15 degrees of right ascension lowers the hour angle by exactly one
      hour, with no wrap-around. */
  lemma RaHourStep(gst: real, longitude: real, ra: real)
    ensures LocalHourAngle(gst, longitude, ra + 15.0) == LocalHourAngle(gst, longitude, ra) - 1.0
  {
  }

  /** The hour angle is not reduced: with right ascension 345 degrees on the
      Greenwich meridian at sidereal time 0 it is -23 hours, outside [-12, 12). */
  lemma HourAngleNotWrapped()
    ensures LocalHourAngle(0.0, 0.0, 345.0) == -23.0
  {
    Mod24InRange(0.0);
  }

  // ---------------------------------------------------------------------------
  // seiza_doko, up to the azimuth stage
  // ---------------------------------------------------------------------------

  /** The values `seiza_doko` computes before the azimuth stage. */
  datatype SiderealStages = SiderealStages(mjd: real, gst: real, hourAngle: real)

  /** `seiza_doko` up to the hour angle handed to the azimuth stage: each stage
      consumes the previous stage's output. */
  function SeizaDokoStages(longitude: real, ra: real, year: int, month: int, day: int,
                           hour: int, minute: int, second: real): (s: SiderealStages)
    ensures s.mjd == CalculateMjd(year, month, day, hour, minute, second)
    ensures s.gst == GreenwichSiderealTime(s.mjd)
    ensures s.hourAngle == LocalHourAngle(s.gst, longitude, ra)
    ensures ValidTime(hour, minute, second) ==> (s.mjd + MjdOffset).Floor == DayNumber(year, month, day)
    ensures 0.0 <= s.gst < 24.0
    ensures 0.0 <= s.hourAngle + ra / 15.0 < 24.0
    ensures IsWhole((s.gst - longitude / 15.0 - ra / 15.0 - s.hourAngle) / 24.0)
  {
    var mjd := CalculateMjd(year, month, day, hour, minute, second);
    var gst := GreenwichSiderealTime(mjd);
    SiderealStages(mjd, gst, LocalHourAngle(gst, longitude, ra))
  }
}
