/**
 * One pass of the clock's main loop, with the LED strip and the state the
 * loop carries from one pass to the next: the phrases shown last and the
 * two night flags.
 */
module Render {
  import opened Wrappers
  import opened Phrases
  import opened Mapper
  import opened Lit
  import opened Fade
  import opened Night
  import opened Geoloc

  /** `tm_hour` of the local time `d`. */
  function HourOf(d: int): (h: int)
    ensures 0 <= h < 24
  {
    TimeOfDay(d) / Hour
  }

  /** `tm_min` of the local time `d`. */
  function MinuteOf(d: int): (m: int)
    ensures 0 <= m < 60
  {
    TimeOfDay(d) % Hour / 60
  }

  /** The hour and minute name the minute of the day that `d` falls in. */
  lemma HourMinuteOf(d: int)
    ensures HourOf(d) * Hour + MinuteOf(d) * 60 <= TimeOfDay(d) < HourOf(d) * Hour + MinuteOf(d) * 60 + 60
  {
    var t := TimeOfDay(d);
    assert t == (t / Hour) * Hour + t % Hour;
    assert t % Hour == (t % Hour / 60) * 60 + t % Hour % 60;
  }

  /**
   * `s1` is `s0` after one pass that lit `cur` where `prev` was lit before:
   * the lit set shows `color` when some LED is newly lit, the LEDs no
   * longer lit are dark and every other LED is as it was.
   */
  predicate Faded(s1: seq<Color>, s0: seq<Color>, cur: set<int>, prev: set<int>, color: Color)
  {
    |s1| == |s0| &&
    forall p :: 0 <= p < |s1| ==>
      s1[p] == if p in cur && cur - prev != {} then color
               else if p in prev && p !in cur then Black
               else s0[p]
  }

  /** Every LED outside `lit` is dark. */
  predicate DarkOutside(s: seq<Color>, lit: set<int>)
  {
    forall p :: 0 <= p < |s| && p !in lit ==> s[p] == Black
  }

  /** Every channel of every LED is a byte. */
  predicate AllBytes(s: seq<Color>)
  {
    forall p :: 0 <= p < |s| ==> IsByteColor(s[p])
  }

  /**
   * When some LED is newly lit, a pass leaves the strip showing exactly
   * the new set in `color` on an otherwise dark strip.
   */
  lemma FadedShowsExactly(s1: seq<Color>, s0: seq<Color>, cur: set<int>, prev: set<int>, color: Color)
    requires Faded(s1, s0, cur, prev, color) && DarkOutside(s0, prev) && cur - prev != {}
    ensures forall p :: 0 <= p < |s1| ==> s1[p] == if p in cur then color else Black
  {
  }

  /** A pass in which nothing is newly lit leaves the LEDs still lit as they were and darkens the rest. */
  lemma FadedNothingNew(s1: seq<Color>, s0: seq<Color>, cur: set<int>, prev: set<int>, color: Color)
    requires Faded(s1, s0, cur, prev, color) && DarkOutside(s0, prev) && cur <= prev
    ensures forall p :: 0 <= p < |s1| ==> s1[p] == if p in cur then s0[p] else Black
  {
  }

  class Clock {
    /** The LED strip, one colour per LED. */
    const strip: array<Color>
    /** `prev_leds`: the phrases of the previous pass. */
    var prevLeds: seq<Name>
    /** `is_night`, `is_night_time`. */
    var isNight: bool
    var isNightTime: bool

    /** The strip has 40 LEDs, and every LED outside the phrases shown last is dark. */
    predicate Valid()
      reads this, strip
    {
      strip.Length == StripSize && DarkOutside(strip[..], LitSet(prevLeds))
    }

    /** A dark strip, nothing shown yet, neither night flag set. */
    constructor ()
      ensures Valid() && fresh(strip)
      ensures prevLeds == [] && !isNight && !isNightTime
      ensures forall p :: 0 <= p < strip.Length ==> strip[p] == Black
    {
      strip := new Color[StripSize](_ => Black);
      prevLeds := [];
      isNight := false;
      isNightTime := false;
    }

    /**
     * One pass of the main loop at local time `d`, with the helper's
     * coordinates, the sun times around `d` and the colour the brightness
     * gives: the night flags are recomputed while the location is known,
     * the phrases for the time are looked up, the whole lit set fades in
     * when some LED is newly lit, and the no longer lit LEDs fade out.  Returns the number of sub-ticks.
     */
    method Tick(d: int, coords: Coords, sun: SunTimes, color: Color) returns (ticks: nat)
      requires Valid()
      modifies this, strip
      ensures Valid()
      ensures TimePhrases(HourOf(d), MinuteOf(d)).Some?
      ensures prevLeds == TimePhrases(HourOf(d), MinuteOf(d)).value
      ensures Located(coords) ==> isNight == IsNight(d, sun) && isNightTime == InNightWindow(d)
      ensures !Located(coords) ==> isNight == old(isNight) && isNightTime == old(isNightTime)
      ensures Faded(strip[..], old(strip[..]), LitSet(prevLeds), LitSet(old(prevLeds)), color)
      ensures 1 <= ticks
      ensures IsByteColor(color) && AllBytes(old(strip[..])) ==> ticks <= 85
      ensures IsByteColor(color) && AllBytes(old(strip[..])) ==> AllBytes(strip[..])
    {
      if Located(coords) {
        isNight := IsNight(d, sun);
        isNightTime := InNightWindow(d);
      }
      var h, m := HourOf(d), MinuteOf(d);
      TimePhrasesDefined(h, m);
      ticks := Show(TimePhrases(h, m).value, color);
    }

    /**
     * The LED part of a pass: the LEDs of `leds` against those of the
     * phrases shown last, the fade groups, the sub-tick loop, then `leds`
     * becomes the phrases shown last.
     */
    method Show(leds: seq<Name>, color: Color) returns (ticks: nat)
      requires Valid()
      modifies this, strip
      ensures Valid() && prevLeds == leds
      ensures isNight == old(isNight) && isNightTime == old(isNightTime)
      ensures Faded(strip[..], old(strip[..]), LitSet(leds), LitSet(old(prevLeds)), color)
      ensures 1 <= ticks
      ensures IsByteColor(color) && AllBytes(old(strip[..])) ==> ticks <= 85
      ensures IsByteColor(color) && AllBytes(old(strip[..])) ==> AllBytes(strip[..])
    {
      var cur, prev := LitSet(leds), LitSet(prevLeds);
      var fadein, fadeout := FadeGroups(cur, prev, color);
      LitOnStrip(leds);
      LitOnStrip(prevLeds);
      PixelsOnStrip(fadein, strip.Length);
      PixelsOnStrip(fadeout, strip.Length);
      DisjointPixels(fadein, fadeout);
      ghost var s0 := strip[..];
      ticks := SubTicks(strip, fadein, fadeout);
      StripAfter(s0, strip[..], cur, prev, fadein, fadeout, color);
      ByteStrip(s0, fadein, fadeout, color);
      FadedBytes(strip[..], s0, cur, prev, color);
      prevLeds := leds;
    }

    /** `setAll([0, 0, 0])` at shutdown: every LED dark. */
    method Shutdown()
      requires Valid()
      modifies strip
      ensures forall p :: 0 <= p < strip.Length ==> strip[p] == Black
    {
      SetAll(strip, Black);
    }
  }

  /**
   * The strip after the sub-tick loop is the strip before it, faded; with
   * the LEDs outside the previous set dark before, every LED outside the
   * new set is dark after.
   */
  lemma StripAfter(s0: seq<Color>, s1: seq<Color>, cur: set<int>, prev: set<int>,
                   fadein: seq<Target>, fadeout: seq<Target>, color: Color)
    requires |s0| == |s1| && ValidTargets(fadein, |s1|) && ValidTargets(fadeout, |s1|)
    requires Pixels(fadein) == (if cur - prev != {} then cur else {})
    requires forall k :: 0 <= k < |fadein| ==> fadein[k].color == color
    requires Pixels(fadeout) == prev - cur
    requires forall k :: 0 <= k < |fadeout| ==> fadeout[k].color == Black
    requires AtTargets(s1, fadein) && AtTargets(s1, fadeout) && KeptOutside(s1, s0, fadein, fadeout)
    ensures Faded(s1, s0, cur, prev, color)
    ensures DarkOutside(s0, prev) ==> DarkOutside(s1, cur)
  {
    AtTargetsColor(s1, fadein, color);
    AtTargetsColor(s1, fadeout, Black);
  }

  /** A pass towards a byte colour keeps a strip of byte colours one of byte colours. */
  lemma FadedBytes(s1: seq<Color>, s0: seq<Color>, cur: set<int>, prev: set<int>, color: Color)
    requires Faded(s1, s0, cur, prev, color)
    ensures IsByteColor(color) && AllBytes(s0) ==> AllBytes(s1)
  {
  }

  /** Fade groups drawn from byte colours and a byte target are byte groups. */
  lemma ByteStrip(s: seq<Color>, fadein: seq<Target>, fadeout: seq<Target>, color: Color)
    requires ValidTargets(fadein, |s|) && ValidTargets(fadeout, |s|)
    requires forall k :: 0 <= k < |fadein| ==> fadein[k].color == color
    requires forall k :: 0 <= k < |fadeout| ==> fadeout[k].color == Black
    ensures IsByteColor(color) && AllBytes(s) ==> ByteGroup(s, fadein) && ByteGroup(s, fadeout)
  {
  }
}
