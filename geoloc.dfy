/**
 * The location test of the geolocation helper.  The coordinates start as
 * NaN and are overwritten, one at a time, as a cached or fetched answer
 * parses; the clock recomputes its night windows only while the location
 * is known.
 */
module Geoloc {
  /** A Python float as far as this code is concerned: NaN, an infinity or a finite number. */
  datatype Float = NaN | Inf(negative: bool) | Num(v: real)

  /** IEEE 754 inequality: NaN is unequal to everything, itself included. */
  function FloatNe(a: Float, b: Float): bool
  {
    match (a, b)
    case (Num(x), Num(y)) => x != y
    case (Inf(x), Inf(y)) => x != y
    case _ => true
  }

  /** Float inequality is symmetric, and a value is unequal to itself exactly when it is NaN. */
  lemma FloatNeLaws(a: Float, b: Float)
    ensures FloatNe(a, b) == FloatNe(b, a)
    ensures FloatNe(a, a) <==> a.NaN?
  {
  }

  /** The coordinates held by the helper. */
  datatype Coords = Coords(lng: Float, lat: Float)

  /** Before any answer has been read both coordinates are NaN. */
  const Unlocated: Coords := Coords(NaN, NaN)

  /**
   * How far `_sync` gets through an answer: nothing parses (bad JSON or a
   * bad `lng`), only `lng` parses before `lat` fails, or both parse.  A
   * parsed value is whatever `float` makes of the text, NaN and infinities
   * included.
   */
  datatype Answer = Unparsed | LngOnly(lng: Float) | Both(lng: Float, lat: Float)

  /**
   * `_sync`: `_lng` is assigned before `lat` is parsed, so an answer that
   * fails at `lat` moves the longitude and keeps the latitude.
   */
  function Sync(c: Coords, answer: Answer): Coords
  {
    match answer
    case Unparsed => c
    case LngOnly(lng) => Coords(lng, c.lat)
    case Both(lng, lat) => Coords(lng, lat)
  }

  /** `located()` as written: each coordinate compared with a fresh NaN by `!=`. */
  function LocatedAsWritten(c: Coords): bool
  {
    FloatNe(c.lng, NaN) && FloatNe(c.lat, NaN)
  }

  /** As written the test holds for every pair of coordinates. */
  lemma LocatedAsWrittenAlways(c: Coords)
    ensures LocatedAsWritten(c)
  {
  }

  /** ... the never-located helper included. */
  lemma LocatedAsWrittenUnlocated()
    ensures LocatedAsWritten(Unlocated)
  {
    LocatedAsWrittenAlways(Unlocated);
  }

  /** `located()` as intended: neither coordinate is NaN (`math.isnan`). */
  function Located(c: Coords): bool
  {
    !c.lng.NaN? && !c.lat.NaN?
  }

  /**
   * The intended test is false before any answer.  After one answer it
   * holds exactly when both coordinates parsed to something other than NaN;
   * an unparsed answer leaves it as it was, and one that parsed only `lng`
   * cannot locate a helper that had no latitude yet.
   */
  lemma LocatedMeaning(c: Coords, answer: Answer)
    ensures !Located(Unlocated)
    ensures answer.Both? ==> (Located(Sync(c, answer)) <==> !answer.lng.NaN? && !answer.lat.NaN?)
    ensures answer.Unparsed? ==> Located(Sync(c, answer)) == Located(c)
    ensures answer.LngOnly? ==> (Located(Sync(c, answer)) <==> !answer.lng.NaN? && !c.lat.NaN?)
    ensures Located(Sync(Unlocated, answer)) <==> answer.Both? && !answer.lng.NaN? && !answer.lat.NaN?
  {
  }
}
