# Star position: date to local hour angle

This project models the date-to-sidereal-time half of the star-position pipeline
of a small Python web application. Given a civil date and time, the observer's
longitude and a star's right ascension, the pipeline has three stages:

1. `calculate_mjd` turns a Gregorian date and time into a day count. The integer
   part comes from the Fliegel–Van Flandern day-number formula, with months
   counted from March as shifted month 0, so that January and February are
   shifted months 10 and 11 of the previous year. The fraction of
   the day is added and 2400000.5 is subtracted.
2. `calc_greenwich_sidereal_time` evaluates a cubic in Julian centuries since
   MJD 51544.5 and reduces it modulo 24 hours.
3. `calc_local_hour_angle` subtracts `longitude / 15` and reduces modulo 24,
   giving local sidereal time. It then subtracts `ra / 15` and does not reduce
   the result again.

The same three functions appear twice in the repository: once in
`app/cul_star.py`, which chains them in `seiza_doko`, and once in `main.py`,
which chains them in the `calculate_position` web handler.

Modules:

- `Arith` (`arith.dfy`) holds Python's `int(a / b)`, which truncates toward
  zero, as `TruncDiv`. It holds Python's float `x % 24.0`, which over exact
  reals lands in [0, 24), as `Mod24`. Uniqueness and shift lemmas about both are here too.
- `Calendar` (`calendar.dfy`) is an independent reference for the proleptic
  Gregorian calendar. It defines leap years, month lengths, the next day and
  "n days later", and chronological order. The day-number formula is proved
  against it.
- `CulStar` (`cul_star.dfy`) holds the three stages of `app/cul_star.py`, split
  along the source's own lines (`a`, `y`, `m`, the month term, the leap-day
  term, the time of day). It also holds the `seiza_doko` prefix and the lemmas.
- `MainApp` (`main_app.dfy`) holds the `main.py` copy, written as it stands
  there, one expression per stage. Lemmas prove that it agrees with `CulStar`
  on every input. The module also holds the hour-angle prefix of
  `calculate_position`.

The formulas are modelled literally. The following quirks are kept as they are:

- The integer part is the Julian Day Number of noon, with no −0.5 adjustment.
  So 2000-01-01 00:00 gives 51544.5 and 12:00 gives 51545.0, half a day above
  conventional MJD (`CulStar.EpochValues`).
- The sidereal cubic pairs the constant term `24.065709` (hours) with the
  per-century coefficient `8640184.812866`, which in the conventional formula
  counts seconds, and adds it to hours. So the computed sidereal time advances
  about 9.86 hours per solar hour and about 236.56 hours per day (about 20.56
  modulo 24) instead of about 1.0027 and 24.0657 (`CulStar.SiderealRateAtEpoch`).
- Longitude is subtracted.
- The hour angle is not reduced. Only `H + ra / 15` is guaranteed to lie in
  [0, 24).

The code checks neither the month nor the day, so `CalculateMjd` is total over
integers. For months outside 1..12 it follows the truncating arithmetic
(`CulStar.MonthShift`).

Python's `int(a / b)` divides in floating point before truncating. The model
uses the exact quotient instead. Truncation is written out explicitly, so the
day number is defined for every year. The calendar-continuity lemmas require
year ≥ −4799. From that year on, every numerator is non-negative, so truncation
and floor agree. Below it continuity really fails
(`CulStar.ContinuityFailsBelowBound`).

## Model

| member | source | states |
|---|---|---|
| Arith.TruncDiv | app/cul_star.py:20-24 | `int(a / b)` with a positive divisor truncates toward zero: the remainder `a - q*b` lies in [0, b) for non-negative `a` and in (−b, 0] for negative `a` |
| Arith.Mod24 | app/cul_star.py:52 | float `% 24.0` returns a value in [0, 24) that differs from the argument by a whole multiple of 24 |
| Arith.Mod24Unique | app/cul_star.py:52 | any value in [0, 24) that differs from `x` by a whole multiple of 24 is exactly `x % 24.0` |
| Arith.Mod24Shift | app/cul_star.py:60 | adding `24k` to the argument does not change `x % 24.0` |
| CulStar.MonthShift | app/cul_star.py:20 | for months 1..12, `a` is 1 exactly for January and February and 0 exactly for March..December; truncation also makes `a` 0 for months 13..25 |
| CulStar.ShiftedYear | app/cul_star.py:21 | for a real month, `y` is year + 4799 in January and February and year + 4800 otherwise |
| CulStar.ShiftedMonth | app/cul_star.py:22 | for a real month, `m` lies in 0..11 and equals (month + 9) mod 12, so March is 0 and February is 11 |
| CulStar.MonthLengthFromMarch | app/cul_star.py:24 | for m in 0..10 the month term grows by 31,30,31,30,31,31,30,31,30,31,31, the calendar length of March..January |
| CulStar.LeapDaysStep | app/cul_star.py:24 | for shifted year y ≥ 1, the leap-day term grows by one from y−1 to y exactly when y is a Gregorian leap year (divisible by 4, not by 100 unless by 400); at y = 0 truncation breaks the rule |
| CulStar.DaysBeforeMonth | app/cul_star.py:24 | no contract of its own; the month term `int((153 * m + 2) / 5)` is characterised by `MonthLengthFromMarch` |
| CulStar.LeapDays | app/cul_star.py:24 | no contract of its own; the leap-day term `int(y / 4) - int(y / 100) + int(y / 400)` is characterised by `LeapDaysStep` |
| CulStar.DayFraction | app/cul_star.py:25 | with hour 0..23, minute 0..59 and second in [0, 60), the fraction of the day lies in [0, 1) |
| CulStar.DayNumber | app/cul_star.py:20-24 | no contract of its own; the integer `jd` is characterised by `NextDayStep`, `AddDaysStep`, `DateNumberOrder`, `FebruaryGap`, `YearLength` and `EpochValues` |
| CulStar.CalculateMjd | app/cul_star.py:20-27 | for a time within the day, the whole part of MJD + 2400000.5 is exactly the integer day number of the date |
| CulStar.SameMonthStep | app/cul_star.py:24 | the next day of the same month has the next day number |
| CulStar.MonthEndStep | app/cul_star.py:20-24 | the last day of any month except February and December is followed, one day number later, by the 1st of the next month |
| CulStar.FebruaryEndStep | app/cul_star.py:20-24 | the last day of February (28 or 29 by the leap rule) is followed, one day number later, by 1 March |
| CulStar.YearEndStep | app/cul_star.py:20-24 | 31 December of Y and 1 January of Y+1 are one day number apart, for every year |
| CulStar.NextDayStep | app/cul_star.py:20-24 | for every valid date from year −4799 on, the calendar's next day has day number exactly one greater |
| CulStar.AddDaysStep | app/cul_star.py:20-24 | the date n days later in the calendar has day number exactly n greater |
| CulStar.DayWithinMonth | app/cul_star.py:24 | the day number of day d of a month is that of the 1st plus d − 1 |
| CulStar.EndOfMonthStep | app/cul_star.py:20-24 | from year −4799 on, the 1st of every month from February to December is one day number after the last day of the month before |
| CulStar.MonthsIncrease | app/cul_star.py:20-24 | from year −4799 on, the last day of a month has a smaller day number than the 1st of any later month of the same year |
| CulStar.WithinYear | app/cul_star.py:20-24 | from year −4799 on, a valid date's day number lies between those of 1 January and 31 December of its year |
| CulStar.YearsIncrease | app/cul_star.py:20-24 | from year −4799 on, 31 December of a year has a smaller day number than 1 January of any later year |
| CulStar.EarlierIsSmaller | app/cul_star.py:20-24 | from year −4799 on, a valid date strictly before another valid date has a strictly smaller day number |
| CulStar.DateNumberOrder | app/cul_star.py:20-24 | for valid dates from year −4799 on, one date is before another exactly when its day number is smaller, and two dates share a day number exactly when they are equal |
| CulStar.ContinuityFailsBelowBound | app/cul_star.py:20-24 | below the bound, continuity fails: −4800 is a leap year, yet its 29 February and 1 March get the same day number |
| CulStar.FebruaryGap | app/cul_star.py:24 | from 28 February to 1 March is 2 day numbers in a Gregorian leap year and 1 otherwise |
| CulStar.YearLength | app/cul_star.py:20-24 | from 1 January to the next 1 January is 366 day numbers in a leap year and 365 otherwise |
| CulStar.EpochValues | app/cul_star.py:24-27 | 2000-01-01 has day number 2451545; at 00:00 the result is 51544.5 and at 12:00 it is 51545.0 |
| CulStar.HourStep | app/cul_star.py:25-27 | raising the hour by one raises the result by exactly 1/24 |
| CulStar.MjdNextDay | app/cul_star.py:20-27 | the same time on the next calendar day gives a result exactly 1.0 greater |
| CulStar.JulianCenturies | app/cul_star.py:45-48 | no contract of its own; `T` is 0 at MJD 51544.5, used by `GstAtEpoch` |
| CulStar.SiderealPolynomial | app/cul_star.py:49 | no contract of its own; the raw cubic that `GreenwichSiderealTime` and `GstCharacterised` reduce modulo 24 |
| CulStar.GreenwichSiderealTime | app/cul_star.py:45-54 | sidereal time lies in [0, 24) and differs from the raw cubic in T by a whole multiple of 24 |
| CulStar.GstCharacterised | app/cul_star.py:48-52 | any value in [0, 24) that is congruent to the raw cubic modulo 24 is the sidereal time |
| CulStar.GstAtEpoch | app/cul_star.py:45-52 | at MJD 51544.5, T is 0 and sidereal time is 24.065709 reduced, i.e. 0.065709 |
| CulStar.SiderealRateAtEpoch | app/cul_star.py:48-52 | the coefficient 8640184.812866 acts on hours: from MJD 51544.5 the cubic grows by between 9.85 and 9.86 hours in one solar hour and by between 236.55 and 236.56 hours in one day, so sidereal time one day after the epoch lies in (20.62, 20.63) |
| CulStar.LocalSiderealTime | app/cul_star.py:59-60 | local sidereal time lies in [0, 24) and is congruent to GST − longitude/15 modulo 24 |
| CulStar.LocalHourAngle | app/cul_star.py:58-62 | `H + ra/15` lies in [0, 24), and H is congruent to GST − longitude/15 − ra/15 modulo 24 |
| CulStar.LongitudeFullTurn | app/cul_star.py:59-61 | adding 360·k degrees to the longitude leaves the hour angle unchanged |
| CulStar.GstFullDay | app/cul_star.py:59-61 | adding 24·k hours to GST leaves the hour angle unchanged |
| CulStar.RaHourStep | app/cul_star.py:61 | adding 15 degrees to the right ascension lowers the hour angle by exactly 1, with no wrap |
| CulStar.HourAngleNotWrapped | app/cul_star.py:61 | the hour angle can leave [−12, 12): GST 0, longitude 0 and ra 345 give −23 |
| CulStar.SeizaDokoStages | app/cul_star.py:88-91 | in the `seiza_doko` chain each stage consumes the previous one's output (MJD from the date, GST from that MJD, H from that GST); GST lies in [0, 24), `H + ra/15` lies in [0, 24), H is congruent to GST − (longitude + ra)/15 modulo 24, and, for a time within the day, the whole part of MJD + 2400000.5 is the day number |
| MainApp.CalculateMjd | main.py:15-25 | no contract of its own; see `MjdAgrees` and `NewYearStep` |
| MainApp.GreenwichSiderealTime | main.py:27-32 | no contract of its own; see `GstAgrees` and `GstFacts` |
| MainApp.LocalHourAngle | main.py:34-38 | no contract of its own; see `HourAngleAgrees` |
| MainApp.MjdAgrees | main.py:15-25 | the web application's `calculate_mjd` equals the module version for every input |
| MainApp.GstAgrees | main.py:27-32 | the web application's `calc_greenwich_sidereal_time` equals the module version for every input |
| MainApp.HourAngleAgrees | main.py:34-38 | the web application's `calc_local_hour_angle` equals the module version for every input |
| MainApp.NewYearStep | main.py:16-25 | in the web application, 31 December of Y and 1 January of Y+1 at the same time are exactly 1.0 apart for every year (`a` flips 0→1, `y` stays, `m` goes 9→10) |
| MainApp.GstFacts | main.py:28-31 | the web application's sidereal time lies in [0, 24) and is 0.065709 at MJD 51544.5 |
| MainApp.CalculatePositionHourAngle | main.py:78-80 | for any form inputs, the hour angle handed to the azimuth stage satisfies `H + ra/15` in [0, 24) and equals the `seiza_doko` value |

## Left out

- `calc_azimuth_altitude` (app/cul_star.py:65-86, main.py:40-58) is not modelled. It is floating-point trigonometry (`deg2rad`, sine, cosine, a matrix product, `arctan2`, `arcsin`) with no exact real semantics here. As a consequence, the latitude and declination inputs of `seiza_doko` and `calculate_position` are not parameters of the modelled prefixes; only the azimuth stage reads them.
- The FastAPI application, the template and static mounts, the route handlers, the matplotlib plot and the base64 PNG encoding are not modelled. They are I/O and rendering glue. Of `calculate_position`, only the three stage calls are modelled.
- The `print` in `seiza_doko` and the demo `test()` run at import time are not modelled. They are console output with no asserted result.
- IEEE double rounding is not modelled. All arithmetic is exact over `int` and `real`. Python's float `%` can return 24.0 for a tiny negative argument; the exact model never does.
- `int(y / 4)` and the other integer divisions are computed in floating point by Python. For very large years that loses precision; the model divides exactly.
- CulStar.NextDayStep: requires year ≥ −4799. Below that year, truncating division and floor differ, and the day numbers are no longer continuous. `CulStar.ContinuityFailsBelowBound` exhibits this at year −4800. The same bound applies to the other calendar lemmas except `MonthLengthFromMarch`, `SameMonthStep`, `DayWithinMonth`, `MonthEndStep`, `YearEndStep` and `MainApp.NewYearStep`, which hold for every year.
- Astronomical accuracy against the conventional definitions is not stated as a general bound. The code's MJD is half a day above the conventional one (`CulStar.EpochValues`), and its sidereal time advances about 9.86 hours per solar hour instead of about 1.0027, because the per-century coefficient is added to hours (`CulStar.SiderealRateAtEpoch`); the rate is proved at the epoch only, not for every MJD.
- No date or angle validation is modelled. The code performs none; see the note above.
- The Python defaults `hour=0, minute=0, second=0.0` of `calculate_mjd` and `seiza_doko` are not modelled as defaults; every modelled function takes all arguments, and passing explicit zeros reproduces the defaults.
