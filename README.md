# Word clock: a Dafny model

The word clock shows the time as English words lit on a 40-LED strip. A
typical face reads "it is a quarter to three", and up to four minute dots
give the minutes past the five-minute mark. Once a second the main loop of
`clock.py` does four things:

1. It reads the local time.
2. It recomputes two night flags: "night", between sunset and sunrise, and
   "night time", the fixed window 21:00–07:00. The guard is the
   geolocation helper's `located()`, which as written always holds (see
   "## Findings"); the model recomputes the flags only under the corrected
   test `Geoloc.Located`.
3. It looks the time up in three phrase tables and turns the phrases into
   the set of LEDs to light.
4. It fades the whole lit set in when some LED is newly lit, and the no
   longer lit LEDs out. Each fade
   runs in sub-ticks, moving every channel by a fixed step per sub-tick.

The modules follow that structure:

- `Phrases` (`phrases.dfy`) holds the phrase table `words` and the two
  lookup tables `hours` and `minutes`. The lookups return `Option`, which is
  `None` where the script would raise `KeyError`. `Phrases` also gives each
  LED its owning phrase, and the numeric value a reader attaches to each word.
- `Mapper` (`mapper.dfy`) turns `(tm_hour, tm_min)` into the ordered phrase
  list, for every integer input. `Reading` is an independent meaning of a
  phrase list: the (hour on a 12-hour dial, minute) a person reads from the
  face. `ReadingCorrect` proves that every valid time reads back as itself.
- `Lit` (`lit.dfy`) turns a phrase list into the LED list (the `reduce`
  concatenation) and the lit set. It proves which LEDs are lit, that they
  fit on the strip, and that the set's size is the number of LEDs listed.
- `Fade` (`fade.dfy`) works on the strip as an `array<Color>`:
  - `FadeTo` is `fadeto`, `FadeGroup` is `fade` and `SetAll` is `setAll`.
  - `FadeGroups` builds the fade groups.
  - `SubTicks` is the sub-tick loop. It is proved to end with every pixel at
    its target, with at most 85 sub-ticks on byte colours.
- `Night` (`night.dfy`) chooses the night-time window and the sun window.
  Instants are whole seconds, and the sun times are inputs. The fixed
  window loses nothing by this; against the sun times the fraction of a
  second of the current time is dropped (see "## Left out").
- `Geoloc` (`geoloc.dfy`) is the location test of `geoloc.py`, as written
  and as intended, over coordinates that `_sync` overwrites one at a time. See "## Findings".
- `Render` (`render.dfy`) is one pass of the main loop. The `Clock` class
  owns the strip and the state carried between passes: `prev_leds`,
  `is_night` and `is_night_time`.

`clock.py` is Python 2, so `cur.tm_min / 5` is floor division. The bucket is
the minute rounded down to a multiple of five, the remainder 0..4 becomes
the dots, and minutes 57–59 stay in bucket 55. A reading of the
`round(...)` call as round-to-nearest would instead send minutes 58 and 59
to a bucket 60, which the `minutes` table does not have. The model follows the code.

## Model

| member | source | states |
|---|---|---|
| Phrases.Word | clock.py:34-61 | the `words` table: each named phrase with its LED indices and its text |
| Phrases.HourTable | clock.py:63-77 | the `hours` table: hour 0..12 to its one hour phrase; `None` for any other key, where the lookup would raise `KeyError` |
| Phrases.MinuteTable | clock.py:79-92 | the `minutes` table: bucket 0, 5, ..., 55 to its phrases; `None` for any other key |
| Phrases.OwnerOfLeds | clock.py:34-61 | every LED of every phrase lies on the 40-LED strip and is owned by that phrase alone |
| Phrases.LedsDisjoint | clock.py:34-61 | an LED listed by two phrases means the two phrases are the same: the LED lists are pairwise disjoint |
| Phrases.LedsUnique | clock.py:34-61 | no phrase lists the same LED twice |
| Phrases.HourTableShape | clock.py:63-77 | `hours` has exactly the keys 0..12; each maps to a single hour word naming that hour on a 12-hour dial (0 and 12 both name twelve) |
| Phrases.MinuteTableShape | clock.py:79-92 | `minutes` has exactly the keys 0, 5, ..., 55 |
| Mapper.Bucket | clock.py:247 | `min_5`: the minute floor-divided by five, times five |
| Mapper.FoldHour | clock.py:249 | hours past 12 have 12 taken off; the others stay |
| Mapper.DisplayHour | clock.py:249-250 | the folded hour, advanced by one modulo 12 when the bucket is past 30 |
| Mapper.Assemble | clock.py:252-254 | "it is", the bucket's phrases, the hour's phrase, then the dots; `None` where either lookup would raise `KeyError` |
| Mapper.TimePhrases | clock.py:247-254 | the phrase list for (tm_hour, tm_min); `None` where a lookup would raise `KeyError` |
| Mapper.Rest | clock.py:248 | `min_rest` always lies in 0..4 |
| Mapper.BucketAndRest | clock.py:247-248 | the bucket is the multiple of five at or below the minute; the rest is the minute modulo five; bucket plus rest is the minute |
| Mapper.BucketInTable | clock.py:247-252 | for every minute 0..59 the bucket is a key of `minutes` and lies in 0..55, so 57–59 give 55 |
| Mapper.TimePhrasesDefined | clock.py:247-252 | both lookups succeed if and only if the minute is in 0..59 and the hour folds onto the dial (any hour, once the bucket is past 30) |
| Mapper.DisplayHourSpoken | clock.py:249-250 | for hours 0..23 the display hour lies in 0..12; it is the folded hour up to bucket 30 and one more, modulo 12, past it; the hour word names the current hour, or the next one past the half hour |
| Mapper.DisplayHourExamples | clock.py:249-250 | 14:40 shows three, 11:45 shows display hour 0 (twelve), 12:40 shows one |
| Mapper.ExampleArithmetic | clock.py:247-250 | 2:47 has bucket 45, rest 2 and display hour 3; 0:00 has bucket 0, rest 0 and display hour 0 |
| Mapper.ExampleLists | clock.py:252-254 | the lists built for (45, 2, 3) and (0, 0, 0) spelled out word by word |
| Mapper.Dots | clock.py:253-254 | the loop appends exactly `minute 1` .. `minute r`, in that order |
| Mapper.BucketWordKinds | clock.py:79-92 | every bucket has one to four phrases, none of them an hour word, a dot or "it is" |
| Mapper.BucketWordsMeaning | clock.py:79-92 | a bucket says "to" if and only if the bucket is past 30; its number words add up to the bucket, or to 60 minus the bucket past the half hour |
| Mapper.AssembleOrder | clock.py:252-254 | the list is "it is", then the bucket's phrases, then exactly one hour word, then the dots in order |
| Mapper.PhraseOrder | clock.py:247-254 | for every valid time: "it is", then `minutes[min_5]`, then exactly one hour phrase (the display hour's) and no other hour word, then `minute 1` .. `minute min_rest` |
| Mapper.PhraseExamples | clock.py:247-254 | 2:47 gives [it is, a quarter, to, three, minute 1, minute 2]; 0:00 gives [it is, o'clock, twelve] |
| Mapper.AssembleSums | clock.py:252-254 | in the assembled list the number words add up to the minutes to or past the hour, exactly one hour value is named, there is one dot per minute of rest, and "to" is present if and only if the bucket is past 30 |
| Mapper.AssembleReading | clock.py:252-254 | the assembled list reads as the bucket plus the rest of minutes past the named hour, or past the hour before it when the bucket is past 30 |
| Mapper.ReadingCorrect | clock.py:247-254 | every valid time (h, m) gives a face that reads as (h mod 12, m) |
| Lit.LedList | clock.py:256 | the `reduce` concatenation of the phrases' LED lists, in phrase order |
| Lit.LitSet | clock.py:256 | the `sets.Set` of that list |
| Lit.LedOwner | clock.py:34-61 | an LED is in a phrase's list if and only if that phrase is its owner |
| Lit.LedListMembers | clock.py:256 | an LED is in the concatenated LED list if and only if its owning phrase is in the phrase list |
| Lit.LitMembers | clock.py:256 | an LED is in the lit set if and only if its owning phrase is in the phrase list |
| Lit.LitOnStrip | clock.py:256 | every lit LED is below the strip size 40 |
| Lit.AssembleHolds | clock.py:252-254 | the assembled list holds "it is", and holds "to" if and only if the bucket is past 30 |
| Lit.LitAtTime | clock.py:247-256 | at every valid time LEDs 3 and 4 are lit, and LED 10 ("to") is lit if and only if the bucket is past 30 |
| Lit.LedListNoDup | clock.py:256 | a phrase list without repeats gives an LED list without repeats, as long as the sum of the phrase lengths |
| Lit.LitCount | clock.py:256 | for a phrase list without repeats, the lit set has as many LEDs as the phrases list in total |
| Lit.BucketNoDup | clock.py:79-92 | no bucket repeats a phrase |
| Lit.AssembleNoDup | clock.py:252-254 | the assembled list repeats no phrase |
| Lit.LitCountAtTime | clock.py:247-256 | at every valid time the size of the lit set is the sum of the phrase lengths |
| Fade.Approach | clock.py:104-106 | one channel moves towards the target and never past it; the new distance is the old distance minus the step, floored at zero; the channel reaches the target if and only if it was within the step |
| Fade.FadeColorArrives | clock.py:103-109 | the new colour equals the target if and only if every channel was within its step |
| Fade.FadeColorNear | clock.py:103-106 | with one step `s` on all channels, a pixel within `d` of its target ends within `d - s` |
| Fade.FadeColor | clock.py:103-106 | the colour `fadeto` writes: every channel approached by its own step |
| Fade.Applied | clock.py:111-116 | the strip after `fadeto` of every entry of a group, in list order |
| Fade.AllDone | clock.py:111-116 | whether every `fadeto` of that run reported arrival |
| Fade.FadeTo | clock.py:99-109 | only pixel `pixel` changes, and it becomes its colour approached channel by channel; the result is true if and only if the pixel now equals the target |
| Fade.FadeGroup | clock.py:111-116 | the strip is `fadeto` applied to every entry in order, with no early exit; the result is the conjunction of all their results |
| Fade.AppliedAt | clock.py:111-116 | with distinct pixels, every listed pixel moves exactly one step from where it was |
| Fade.AppliedElsewhere | clock.py:111-116 | pixels not in the list keep their colour |
| Fade.AllDoneExactly | clock.py:111-116 | with distinct pixels, `fade` returns true if and only if every listed pixel arrives |
| Fade.Enumerate | clock.py:265 | mapping over a set lists each element exactly once, all with the given colour |
| Fade.FadeGroups | clock.py:264-268 | fadein is all of `cur` with `color`, but only when `cur - prev` is non-empty; fadeout is `prev - cur` with black; the groups are disjoint; when `cur == prev` both are empty |
| Fade.GroupStep | clock.py:275-276 | one `fade` at step `s` brings every pixel from within `e` to within `e - s`; success means every pixel is at its target; failure means `e > s` |
| Fade.SubTickStep | clock.py:273-279 | one sub-tick keeps the loop invariant: both groups a step closer, everything else unchanged, and a failed tick means distance remains |
| Fade.SubTicks | clock.py:273-279 | the loop ends with both groups at their targets and every other pixel unchanged; it takes at least one sub-tick and no more than ⌈d/3⌉ for largest distance `d`, which is at most 85 on byte colours |
| Fade.SetAll | clock.py:284 | every pixel of the strip gets the colour |
| Night.AtHour | clock.py:184-185 | `d.replace(hour=h, minute=0, second=0)`: `h` o'clock on the day of `d` |
| Night.NightWindow | clock.py:184-198 | `night_b`, `night_e`: today's 21:00 and 07:00, then the end moved to tomorrow when `d` is past it, otherwise the start moved back to yesterday |
| Night.InNightWindow | clock.py:203 | `is_night_time`: `night_b < d < night_e` |
| Night.SunWindow | clock.py:188-193 | `sunset`, `sunrise`: after today's sunrise, tonight's sunset to tomorrow's sunrise; otherwise last night's sunset to today's sunrise |
| Night.IsNight | clock.py:200 | `is_night`: `sunset < d < sunrise` |
| Night.CurMinute | clock.py:209 | `cur_m`: whole minutes of `(d - begin).seconds` |
| Night.SampleCount | clock.py:208-210 | the length of `ts`: whole minutes of the window plus one |
| Night.NightWindowLength | clock.py:195-204 | after the one-day adjustment the night-time window runs forwards and lasts exactly ten hours |
| Night.NightTimeExactly | clock.py:184-203 | `is_night_time` holds if and only if the time of day is strictly after 21:00 or strictly before 07:00 |
| Night.Seconds | clock.py:208-209 | `timedelta.seconds` lies in 0..86399 and differs from the difference by whole days |
| Night.CurveIndexInRange | clock.py:207-227 | at night time the sample list has 601 entries and `cur_m` lies in 0..599 |
| Night.NightExactly | clock.py:188-200 | with the sun times in order, `is_night` holds if and only if the instant lies between last night's sunset and today's sunrise, or between tonight's sunset and tomorrow's sunrise; the chosen window runs forwards |
| Geoloc.Sync | geoloc.py:21-27 | `_sync`: an unparsed answer keeps both coordinates; one whose `lat` fails moves only `lng`; one that parses moves both |
| Geoloc.LocatedAsWritten | geoloc.py:62-63 | `located()` as written: both coordinates compared with a fresh NaN by `!=` |
| Geoloc.Located | geoloc.py:62-63 | `located()` as intended: neither coordinate is NaN |
| Geoloc.FloatNe | geoloc.py:63 | Python's float `!=` under IEEE 754: true whenever a side is NaN, otherwise ordinary inequality |
| Geoloc.FloatNeLaws | geoloc.py:63 | that inequality is symmetric, and a value is unequal to itself exactly when it is NaN |
| Geoloc.LocatedAsWrittenAlways | geoloc.py:62-63 | `located()` as written is true for every pair of coordinates |
| Geoloc.LocatedAsWrittenUnlocated | geoloc.py:62-63 | as written, `located()` is true even before any answer was read, when both coordinates are NaN |
| Geoloc.LocatedMeaning | geoloc.py:21-27 | the intended test is false before any answer; after an answer that parses both coordinates it holds if and only if neither parsed to NaN; an answer that does not parse leaves it unchanged; one that parses only `lng` locates only a helper that already had a latitude; from the start, one answer locates the helper if and only if both coordinates parsed to non-NaN values |
| Render.HourOf | clock.py:181 | `tm_hour` lies in 0..23 |
| Render.MinuteOf | clock.py:181 | `tm_min` lies in 0..59 |
| Render.HourMinuteOf | clock.py:179-181 | the hour and minute name the minute of the day that the instant falls in |
| Render.FadedShowsExactly | clock.py:264-279 | when some LED is newly lit and the strip was dark outside the old set, a pass leaves exactly the new set lit, in `color`, on a dark strip |
| Render.FadedNothingNew | clock.py:264-268 | when nothing is newly lit, the LEDs still lit keep their colour and all others are dark |
| Render.FadedBytes | clock.py:264-279 | a pass towards a byte colour keeps a strip of byte colours all byte colours, so the 85-sub-tick bound carries over to the next pass |
| Render.StripAfter | clock.py:264-279 | the strip after the sub-tick loop is faded from the one before it, and stays dark outside the lit set |
| Render.Clock.constructor | clock.py:164-177 | a dark 40-LED strip, no phrases shown, neither night flag set |
| Render.Clock.Tick | clock.py:178-281 | one pass: the night flags are recomputed while the location is known and kept otherwise; the phrases for the time always exist and become `prev_leds`; the strip shows the new lit set faded from the old; at least one and, on byte colours, at most 85 sub-ticks, with the strip still all byte colours afterwards |
| Render.Clock.Show | clock.py:256-281 | the LED part of a pass: lit sets, fade groups, sub-tick loop, then `prev_leds := leds`; the flags are untouched, the strip stays dark outside the lit set, and stays all byte colours on a byte colour |
| Render.Clock.Shutdown | clock.py:284-285 | every LED dark |

## Left out

- Brightness: `bezier`, the curve values of `get_scaling_bezier`, `get_scaling_gauss` and `int(255 * brightness)` are floating-point numerics. The colour is an input to `Render.Clock.Tick`, and the 85-sub-tick bound assumes byte channels.
- The sun calculation in `sun.py` (floating-point trigonometry) is not part of this model. The four sunset and sunrise instants around the current time are an input (`Night.SunTimes`).
- Time zones: `localize`, `astimezone` and daylight saving time are left out. The instant is a count of local seconds, and `tm_hour`/`tm_min` are read from it.
- Night.IsNight: the fraction of a second of the current time is dropped against the sun times, which `sun.py` builds with whole seconds. Within one second after a sunset the original already has `sunset < d`, while the model's whole-second instant equals the sunset and `is_night` is still false; likewise at a sunrise.
- The HTTP lookup, the JSON cache file and the re-fetch inside the `lat`/`lng` properties of `geoloc.py` are I/O. An answer is the outcome of `_sync` (`Geoloc.Answer`): nothing parsed, only `lng` parsed before `lat` failed, or both parsed, each to whatever `float` makes of the text. JSON and float parsing themselves are not modelled, and the coordinates are an input to `Render.Clock.Tick`.
- Daemonisation, the PID file, option parsing and signal handling are process plumbing. The `running` flag cleared by a signal is not modelled, so the sub-tick loop always runs until both fades report arrival.
- The `sleep` calls, `update()` and `close()` of the strip are timing and hardware. The strip is the array itself.
- The dry-run `print` of the phrase texts is debug output. The texts are in the phrase table, but nothing prints them.
- `LedStrip` is not part of this model. The model takes `getPixel` to return the pixel's colour. It copies that colour before changing channels; this gives the same result as the original's in-place update of the same list, because each channel is read before it is written.
- The order in which a Python set iterates is unspecified. `Fade.Enumerate` lists the elements in an order it chooses, and every contract about the fade groups holds for any order.
- `Geoloc.Float` distinguishes NaN, the two infinities and finite reals; the rounding of parsed decimals to binary floats is not modelled.
- Render.Clock.constructor: the driver classes `LedStrip_WS2801` and `LedStrip_Dummy` are not part of this model; the constructor takes the strip to start dark, and `Render.Clock.Valid` and `Render.FadedShowsExactly` rest on that.

## Findings

| source | as written | input that shows it | evidently intended | confidence | as-written member | corrected member |
|---|---|---|---|---|---|---|
| geoloc.py:63 | `located()` compares each coordinate with a fresh NaN using `!=`. Under IEEE 754 that comparison is true for every value, so the test always passes. With no location known, the main loop then hands the NaN coordinates to the sun calculation, where `int(hours)` (sun.py:121) raises `ValueError` on NaN and ends the main loop on its first pass. | A helper that never read an answer: both coordinates are still the NaN set in the constructor, and `located()` returns true. | Report a location only when neither coordinate is NaN, as `math.isnan` would test. | not executed | Geoloc.LocatedAsWrittenUnlocated | Geoloc.LocatedMeaning |

`Render.Clock.Tick` uses the corrected test, `Geoloc.Located`: the night flags keep their values while the location is unknown. With the test as written and no location known (neither the cache nor the lookup answered), the main loop passes the NaN coordinates to the sun calculation; by reading, not by running, `int(hours)` in `decimaltotime` (sun.py:121) then raises `ValueError` on NaN and ends the main loop on its first pass.
