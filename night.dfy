/**
 * Choosing the night windows of the main loop.  Instants are whole seconds
 * of local time.  For the fixed 21:00 to 07:00 window that loses nothing:
 * `d.replace(hour=h, minute=0, second=0)` keeps the microseconds of `d`, so
 * every comparison and difference of that window is the same with or
 * without them.  The sun times have no fraction of a second, so against
 * them the whole-second `d` can differ from the real one within a second.
 */
module Night {
  const Day: int := 86400
  const Hour: int := 3600

  /** The fixed "night time" from 21:00 to 07:00. */
  const NightBegin: int := 21
  const NightEnd: int := 7

  /** Seconds since local midnight. */
  function TimeOfDay(d: int): int
  {
    d % Day
  }

  /** `d.replace(hour=h, minute=0, second=0)`: the same day, at `h` o'clock. */
  function AtHour(d: int, h: int): int
  {
    d - d % Day + h * Hour
  }

  /**
   * `night_b`, `night_e`: 21:00 and 07:00 of the day of `d`, then the end
   * moved to tomorrow when `d` is past it, otherwise the start moved back
   * to yesterday.
   */
  function NightWindow(d: int): (int, int)
  {
    var b, e := AtHour(d, NightBegin), AtHour(d, NightEnd);
    if d > e then (b, e + Day) else (b - Day, e)
  }

  /** `is_night_time`. */
  predicate InNightWindow(d: int)
  {
    NightWindow(d).0 < d < NightWindow(d).1
  }

  /** The window always runs forwards and lasts ten hours. */
  lemma NightWindowLength(d: int)
    ensures NightWindow(d).0 < NightWindow(d).1
    ensures NightWindow(d).1 - NightWindow(d).0 == 10 * Hour
  {
  }

  /** It is night time exactly when the clock shows later than 21:00 or earlier than 07:00. */
  lemma NightTimeExactly(d: int)
    ensures InNightWindow(d) <==> TimeOfDay(d) > NightBegin * Hour || TimeOfDay(d) < NightEnd * Hour
  {
    var t := d % Day;
    assert 0 <= t < Day;
    assert d - t + NightEnd * Hour < d <==> t > NightEnd * Hour;
  }

  /** `timedelta.seconds`: the seconds part of a difference, always in 0..86399. */
  function Seconds(x: int): (r: int)
    ensures 0 <= r < Day
    ensures (x - r) % Day == 0
  {
    x % Day
  }

  /** `cur_m`: whole minutes since the start of the window. */
  function CurMinute(d: int, begin: int): int
  {
    Seconds(d - begin) / 60
  }

  /** Length of the sample list `ts`: `int(length.seconds / 60.0) + 1`. */
  function SampleCount(length: int): int
  {
    Seconds(length) / 60 + 1
  }

  /**
   * At night time the curve index `cur_m` lies in 0..599, inside the
   * 601 samples the curve is evaluated at.
   */
  lemma CurveIndexInRange(d: int)
    requires InNightWindow(d)
    ensures SampleCount(NightWindow(d).1 - NightWindow(d).0) == 601
    ensures 0 <= CurMinute(d, NightWindow(d).0) <= 599
  {
    NightWindowLength(d);
    var b := NightWindow(d).0;
    assert 0 < d - b < 10 * Hour;
    assert Seconds(d - b) == d - b;
    assert Seconds(10 * Hour) == 10 * Hour;
  }

  // ---------------------------------------------------------------------
  // The sun window.

  /**
   * Sunset and sunrise as the sun calculation gives them around `d`:
   * yesterday's sunset, today's sunrise and sunset, tomorrow's sunrise.
   */
  datatype SunTimes = SunTimes(sunsetBefore: int, sunrise: int, sunset: int, sunriseAfter: int)

  /** The four instants come in the order of the days they belong to. */
  predicate Ordered(t: SunTimes)
  {
    t.sunsetBefore < t.sunrise < t.sunset < t.sunriseAfter
  }

  /**
   * `sunset`, `sunrise` of the loop: after today's sunrise, tonight's sunset
   * to tomorrow's sunrise; otherwise last night's sunset to today's sunrise.
   */
  function SunWindow(d: int, t: SunTimes): (int, int)
  {
    if d > t.sunrise then (t.sunset, t.sunriseAfter) else (t.sunsetBefore, t.sunrise)
  }

  /** `is_night`. */
  predicate IsNight(d: int, t: SunTimes)
  {
    SunWindow(d, t).0 < d < SunWindow(d, t).1
  }

  /**
   * With the sun times in order, it is night exactly when `d` lies between
   * last night's sunset and today's sunrise or between tonight's sunset and
   * tomorrow's sunrise, and the window runs forwards.
   */
  lemma NightExactly(d: int, t: SunTimes)
    requires Ordered(t)
    ensures IsNight(d, t) <==> t.sunsetBefore < d < t.sunrise || t.sunset < d < t.sunriseAfter
    ensures SunWindow(d, t).0 < SunWindow(d, t).1
  {
  }
}
