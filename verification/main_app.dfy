/** The second copy of the sidereal stages, in the web application `main.py`,
    written out here as it stands there (one expression per stage, without the
    named helpers of `CulStar`), together with the prefix of the
    `calculate_position` handler that feeds the azimuth stage. */
module MainApp {
  import opened Arith
  import CulStar

  /** `calculate_mjd` of the web application. */
  function CalculateMjd(year: int, month: int, day: int, hour: int, minute: int, second: real): real {
    var a := TruncDiv(14 - month, 12);
    var y := year + 4800 - a;
    var m := month + 12 * a - 3;
    var jd := day + TruncDiv(153 * m + 2, 5) + 365 * y + TruncDiv(y, 4) - TruncDiv(y, 100) + TruncDiv(y, 400) - 32045;
    var jdWithTime := jd as real + (hour as real + minute as real / 60.0 + second / 3600.0) / 24.0;
    jdWithTime - 2400000.5
  }

  /** `calc_greenwich_sidereal_time` of the web application. */
  function GreenwichSiderealTime(mjd: real): real {
    var t := (mjd - 51544.5) / 36525.0;
    var thetaG := 24.065709 + 8640184.812866 * t + 0.093104 * t * t - 0.0000062 * t * t * t;
    Mod24(thetaG)
  }

  /** `calc_local_hour_angle` of the web application. */
  function LocalHourAngle(gst: real, longitude: real, ra: real): real {
    var lst := Mod24(gst - longitude / 15.0);
    lst - ra / 15.0
  }

  /** The two copies of `calculate_mjd` agree on every input. */
  lemma MjdAgrees(year: int, month: int, day: int, hour: int, minute: int, second: real)
    ensures CalculateMjd(year, month, day, hour, minute, second)
         == CulStar.CalculateMjd(year, month, day, hour, minute, second)
  {
  }

  /** The two copies of `calc_greenwich_sidereal_time` agree on every input. */
  lemma GstAgrees(mjd: real)
    ensures GreenwichSiderealTime(mjd) == CulStar.GreenwichSiderealTime(mjd)
  {
    assert CulStar.SiderealPolynomial(CulStar.JulianCenturies(mjd))
        == (var t := (mjd - 51544.5) / 36525.0;
            24.065709 + 8640184.812866 * t + 0.093104 * t * t - 0.0000062 * t * t * t);
  }

  /** The two copies of `calc_local_hour_angle` agree on every input. */
  lemma HourAngleAgrees(gst: real, longitude: real, ra: real)
    ensures LocalHourAngle(gst, longitude, ra) == CulStar.LocalHourAngle(gst, longitude, ra)
  {
  }

  /** 31 December and the following 1 January are exactly one day apart at the
      same time of day, for every year: the shifted year is the same for both. */
  lemma NewYearStep(year: int, hour: int, minute: int, second: real)
    ensures CalculateMjd(year + 1, 1, 1, hour, minute, second)
         == CalculateMjd(year, 12, 31, hour, minute, second) + 1.0
  {
    assert TruncDiv(14 - 12, 12) == 0 && TruncDiv(14 - 1, 12) == 1;
    assert TruncDiv(153 * 9 + 2, 5) == 275 && TruncDiv(153 * 10 + 2, 5) == 306;
  }

  /** The web application's sidereal time lies in [0, 24) hours and is 0.065709
      at MJD 51544.5. */
  lemma GstFacts(mjd: real)
    ensures 0.0 <= GreenwichSiderealTime(mjd) < 24.0
    ensures GreenwichSiderealTime(51544.5) == 0.065709
  {
    GstAgrees(mjd);
    GstAgrees(51544.5);
    CulStar.GstAtEpoch();
  }

  /** `calculate_position` up to the hour angle it hands to the azimuth stage;
      whatever the form supplies, adding back `ra / 15` lands in [0, 24). */
  function CalculatePositionHourAngle(longitude: real, ra: real, year: int, month: int, day: int,
                                      hour: int, minute: int, second: real): (h: real)
    ensures 0.0 <= h + ra / 15.0 < 24.0
    ensures h == CulStar.SeizaDokoStages(longitude, ra, year, month, day, hour, minute, second).hourAngle
  {
    var mjd := CalculateMjd(year, month, day, hour, minute, second);
    var gst := GreenwichSiderealTime(mjd);
    MjdAgrees(year, month, day, hour, minute, second);
    GstAgrees(mjd);
    HourAngleAgrees(gst, longitude, ra);
    LocalHourAngle(gst, longitude, ra)
  }
}
