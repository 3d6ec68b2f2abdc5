/**
 * The LED fade engine: `fadeto` moves one pixel towards a target colour,
 * `fade` does so for a list of (pixel, colour) pairs, the fade groups are
 * built from the LEDs lit now and before, and the sub-tick loop repeats
 * both fades until every pixel has arrived.
 */
module Fade {
  /** An RGB triple, one int per channel. */
  type Color = c: seq<int> | |c| == 3 witness [0, 0, 0]

  const Black: Color := [0, 0, 0]

  /** Per-channel steps of the fade-in and the fade-out. */
  const FadeInStep: Color := [3, 3, 3]
  const FadeOutStep: Color := [12, 12, 12]

  /** One entry `[pixel, color]` of a fade group. */
  datatype Target = Target(pixel: int, color: Color)

  function Abs(x: int): nat
  {
    if x < 0 then -x else x
  }

  function Max0(x: int): nat
  {
    if x < 0 then 0 else x
  }

  /** Every channel of `c` is within `d` of the matching channel of `t`. */
  predicate Near(c: Color, t: Color, d: int)
  {
    forall i :: 0 <= i < 3 ==> Abs(t[i] - c[i]) <= d
  }

  /**
   * One channel of `fadeto`: move `cur` towards `target` by `step`, but
   * never past it.
   */
  function Approach(cur: int, target: int, step: int): (r: int)
    ensures step >= 0 ==> (cur <= r <= target || target <= r <= cur)
    ensures step >= 0 ==> Abs(target - r) == Max0(Abs(target - cur) - step)
    ensures r == target <==> Abs(target - cur) <= step
  {
    var diff := target - cur;
    var tmp := if step > Abs(diff) then Abs(diff) else step;
    if diff <= 0 then cur - tmp else cur + tmp
  }

  /** The colour `fadeto` writes: every channel approached by its own step. */
  function FadeColor(cur: Color, target: Color, step: Color): Color
  {
    [Approach(cur[0], target[0], step[0]),
     Approach(cur[1], target[1], step[1]),
     Approach(cur[2], target[2], step[2])]
  }

  /** A pixel arrives exactly when every channel is within its step of the target. */
  lemma FadeColorArrives(cur: Color, target: Color, step: Color)
    ensures FadeColor(cur, target, step) == target
        <==> forall i :: 0 <= i < 3 ==> Abs(target[i] - cur[i]) <= step[i]
  {
    var r := FadeColor(cur, target, step);
    if forall i :: 0 <= i < 3 ==> Abs(target[i] - cur[i]) <= step[i] {
      assert r[0] == target[0] && r[1] == target[1] && r[2] == target[2];
    }
  }

  /** With the same step `s` on every channel, a fade brings a pixel within `d - s` of its target. */
  lemma FadeColorNear(cur: Color, target: Color, s: nat, d: int)
    requires Near(cur, target, d)
    ensures Near(FadeColor(cur, target, [s, s, s]), target, Max0(d - s))
  {
  }

  /** A pixel within distance zero of its target is at the target. */
  lemma NearZero(c: Color, t: Color)
    requires Near(c, t, 0)
    ensures c == t
  {
    assert c[0] == t[0] && c[1] == t[1] && c[2] == t[2];
  }

  // ---------------------------------------------------------------------
  // The strip in place.

  /**
   * `fadeto`: read pixel `pixel`, approach `color` channel by channel,
   * write the pixel back and report whether it now equals `color`.
   */
  method FadeTo(strip: array<Color>, pixel: int, color: Color, step: Color) returns (done: bool)
    requires 0 <= pixel < strip.Length
    modifies strip
    ensures strip[..] == old(strip[..])[pixel := FadeColor(old(strip[pixel]), color, step)]
    ensures done <==> strip[pixel] == color
  {
    var cur := strip[pixel];
    // `new` is the very list `cur` in the original, so channel `i` still
    // holds its old value when it is read.
    var nw: Color := cur;
    for i := 0 to 3
      invariant forall j :: 0 <= j < i ==> nw[j] == Approach(cur[j], color[j], step[j])
      invariant forall j :: i <= j < 3 ==> nw[j] == cur[j]
    {
      var diff := color[i] - nw[i];
      var tmp := if step[i] > Abs(diff) then Abs(diff) else step[i];
      nw := nw[i := if diff <= 0 then nw[i] - tmp else nw[i] + tmp];
    }
    assert nw == FadeColor(cur, color, step);
    strip[pixel] := nw;
    done := nw == color;
  }

  predicate ValidTargets(g: seq<Target>, n: int)
  {
    forall k :: 0 <= k < |g| ==> 0 <= g[k].pixel < n
  }

  /** The strip after `fadeto` has been applied to each entry of `g` in turn. */
  function Applied(s: seq<Color>, g: seq<Target>, step: Color): (r: seq<Color>)
    requires ValidTargets(g, |s|)
    ensures |r| == |s|
  {
    if g == [] then s
    else
      var t := Applied(s, g[..|g| - 1], step);
      var e := g[|g| - 1];
      t[e.pixel := FadeColor(t[e.pixel], e.color, step)]
  }

  /** Whether every `fadeto` of that run reported arrival. */
  function AllDone(s: seq<Color>, g: seq<Target>, step: Color): bool
    requires ValidTargets(g, |s|)
  {
    if g == [] then true
    else
      var t := Applied(s, g[..|g| - 1], step);
      var e := g[|g| - 1];
      AllDone(s, g[..|g| - 1], step) && FadeColor(t[e.pixel], e.color, step) == e.color
  }

  /**
   * `fade`: `fadeto` every entry of the group, with no early exit after a
   * pixel that has not arrived, and report whether all of them arrived.
   */
  method FadeGroup(strip: array<Color>, g: seq<Target>, step: Color) returns (res: bool)
    requires ValidTargets(g, strip.Length)
    modifies strip
    ensures strip[..] == Applied(old(strip[..]), g, step)
    ensures res == AllDone(old(strip[..]), g, step)
  {
    res := true;
    for k := 0 to |g|
      invariant strip[..] == Applied(old(strip[..]), g[..k], step)
      invariant res == AllDone(old(strip[..]), g[..k], step)
    {
      assert g[..k + 1][..k] == g[..k];
      var ok := FadeTo(strip, g[k].pixel, g[k].color, step);
      if !ok {
        res := false;
      }
    }
    assert g[..|g|] == g;
  }

  /** The pixels of a group. */
  function Pixels(g: seq<Target>): set<int>
  {
    set k | 0 <= k < |g| :: g[k].pixel
  }

  /** No pixel occurs twice in a group. */
  predicate Distinct(g: seq<Target>)
  {
    forall j, k :: 0 <= j < k < |g| ==> g[j].pixel != g[k].pixel
  }

  /** For distinct pixels, `fade` moves each listed pixel one step from where it was. */
  lemma {:induction false} AppliedAt(s: seq<Color>, g: seq<Target>, step: Color)
    requires ValidTargets(g, |s|) && Distinct(g)
    ensures forall k :: 0 <= k < |g| ==>
      Applied(s, g, step)[g[k].pixel] == FadeColor(s[g[k].pixel], g[k].color, step)
  {
    if g != [] {
      var p, e := g[..|g| - 1], g[|g| - 1];
      assert ValidTargets(p, |s|) && Distinct(p);
      AppliedAt(s, p, step);
      AppliedElsewhere(s, p, step);
      PixelsPrefix(g);
    }
  }

  /** `fade` leaves every pixel it is not given alone. */
  lemma {:induction false} AppliedElsewhere(s: seq<Color>, g: seq<Target>, step: Color)
    requires ValidTargets(g, |s|)
    ensures forall p :: 0 <= p < |s| && p !in Pixels(g) ==> Applied(s, g, step)[p] == s[p]
  {
    if g != [] {
      var p := g[..|g| - 1];
      AppliedElsewhere(s, p, step);
      PixelsPrefix(g);
    }
  }

  /** For distinct pixels, `fade` succeeds exactly when every listed pixel arrives. */
  lemma {:induction false} AllDoneExactly(s: seq<Color>, g: seq<Target>, step: Color)
    requires ValidTargets(g, |s|) && Distinct(g)
    ensures AllDone(s, g, step) <==>
      forall k :: 0 <= k < |g| ==> FadeColor(s[g[k].pixel], g[k].color, step) == g[k].color
  {
    if g != [] {
      var p, e := g[..|g| - 1], g[|g| - 1];
      assert ValidTargets(p, |s|) && Distinct(p);
      AllDoneExactly(s, p, step);
      AppliedElsewhere(s, p, step);
      PixelsPrefix(g);
      assert forall k :: 0 <= k < |p| ==> p[k] == g[k];
    }
  }

  /** The pixels of a non-empty group: those before the last entry and the last one's. */
  lemma PixelsPrefix(g: seq<Target>)
    requires g != []
    ensures Pixels(g) == Pixels(g[..|g| - 1]) + {g[|g| - 1].pixel}
    ensures Distinct(g) ==> g[|g| - 1].pixel !in Pixels(g[..|g| - 1])
  {
    var p := g[..|g| - 1];
    assert forall k :: 0 <= k < |p| ==> p[k] == g[k];
    assert forall k :: 0 <= k < |p| ==> g[k].pixel in Pixels(p);
  }

  // ---------------------------------------------------------------------
  // The fade groups.

  /**
   * `map(lambda x: [x, color], s)` over a set: every element once, in an
   * order the set chooses.
   */
  method Enumerate(s: set<int>, color: Color) returns (g: seq<Target>)
    ensures Pixels(g) == s && Distinct(g)
    ensures forall k :: 0 <= k < |g| ==> g[k].color == color
  {
    g := [];
    var rest := s;
    while |rest| > 0
      invariant rest <= s && Pixels(g) == s - rest && Distinct(g)
      invariant forall k :: 0 <= k < |g| ==> g[k].color == color
      decreases |rest|
    {
      EmptyOrMember(rest);
      var x :| x in rest;
      AddTarget(g, Target(x, color));
      g, rest := g + [Target(x, color)], rest - {x};
    }
  }

  /** A set is empty or has a member. */
  lemma EmptyOrMember(r: set<int>)
    ensures r == {} || exists x :: x in r
  {
    if forall x :: x !in r {
      assert r == {};
    }
  }

  lemma AddTarget(g: seq<Target>, e: Target)
    requires Distinct(g) && e.pixel !in Pixels(g)
    ensures Pixels(g + [e]) == Pixels(g) + {e.pixel} && Distinct(g + [e])
  {
    var g' := g + [e];
    PixelsPrefix(g');
    assert g'[..|g'| - 1] == g;
    assert forall k :: 0 <= k < |g| ==> g[k].pixel in Pixels(g);
  }

  /**
   * The fade groups for the LEDs lit now (`cur`) and before (`prev`): all
   * of `cur` fades in to `color`, but only when some LED is newly lit; the
   * LEDs no longer lit fade out to black.
   */
  method FadeGroups(cur: set<int>, prev: set<int>, color: Color) returns (fadein: seq<Target>, fadeout: seq<Target>)
    ensures Pixels(fadein) == (if cur - prev != {} then cur else {}) && Distinct(fadein)
    ensures forall k :: 0 <= k < |fadein| ==> fadein[k].color == color
    ensures Pixels(fadeout) == prev - cur && Distinct(fadeout)
    ensures forall k :: 0 <= k < |fadeout| ==> fadeout[k].color == Black
    ensures Disjoint(fadein, fadeout)
    ensures cur == prev ==> fadein == [] && fadeout == []
  {
    if |cur - prev| > 0 {
      fadein := Enumerate(cur, color);
    } else {
      fadein := [];
    }
    fadeout := Enumerate(prev - cur, Black);
    DisjointPixels(fadein, fadeout);
    PixelsEmpty(fadein);
    PixelsEmpty(fadeout);
  }

  lemma PixelsEmpty(g: seq<Target>)
    ensures Pixels(g) == {} <==> g == []
  {
    if g != [] {
      assert g[0].pixel in Pixels(g);
    }
  }

  predicate Disjoint(a: seq<Target>, b: seq<Target>)
  {
    forall j, k :: 0 <= j < |a| && 0 <= k < |b| ==> a[j].pixel != b[k].pixel
  }

  lemma DisjointPixels(a: seq<Target>, b: seq<Target>)
    ensures Disjoint(a, b) <==> Pixels(a) * Pixels(b) == {}
  {
    if !Disjoint(a, b) {
      var j, k :| 0 <= j < |a| && 0 <= k < |b| && a[j].pixel == b[k].pixel;
      assert a[j].pixel in Pixels(a) * Pixels(b);
    }
  }

  // ---------------------------------------------------------------------
  // The sub-tick loop.

  function Max(a: int, b: int): int
  {
    if a < b then b else a
  }

  /** The largest distance of any channel of `c` from `t`. */
  function Distance(c: Color, t: Color): (d: nat)
    ensures Near(c, t, d)
    ensures forall e :: Near(c, t, e) ==> d <= e
  {
    Max(Abs(t[0] - c[0]), Max(Abs(t[1] - c[1]), Abs(t[2] - c[2])))
  }

  /** The largest distance of any pixel of a group from its target. */
  function Spread(s: seq<Color>, g: seq<Target>): (d: nat)
    requires ValidTargets(g, |s|)
    ensures forall k :: 0 <= k < |g| ==> Near(s[g[k].pixel], g[k].color, d)
  {
    if g == [] then 0
    else
      var e := g[|g| - 1];
      Max(Spread(s, g[..|g| - 1]), Distance(s[e.pixel], e.color))
  }

  /** Every channel is a byte. */
  predicate IsByteColor(c: Color)
  {
    forall i :: 0 <= i < 3 ==> 0 <= c[i] <= 255
  }

  predicate ByteGroup(s: seq<Color>, g: seq<Target>)
    requires ValidTargets(g, |s|)
  {
    forall k :: 0 <= k < |g| ==> IsByteColor(s[g[k].pixel]) && IsByteColor(g[k].color)
  }

  /** On byte channels no target is further than 255 from its pixel. */
  lemma {:induction false} SpreadOfBytes(s: seq<Color>, g: seq<Target>)
    requires ValidTargets(g, |s|) && ByteGroup(s, g)
    ensures Spread(s, g) <= 255
  {
    if g != [] {
      SpreadOfBytes(s, g[..|g| - 1]);
    }
  }

  /** Every pixel of the group is within `e` of its target. */
  predicate Within(s: seq<Color>, g: seq<Target>, e: int)
    requires ValidTargets(g, |s|)
  {
    forall k :: 0 <= k < |g| ==> Near(s[g[k].pixel], g[k].color, e)
  }

  /** Every pixel of the group is at its target. */
  predicate AtTargets(s: seq<Color>, g: seq<Target>)
    requires ValidTargets(g, |s|)
  {
    forall k :: 0 <= k < |g| ==> s[g[k].pixel] == g[k].color
  }

  /** `s` and `s0` agree on every pixel outside both groups. */
  predicate KeptOutside(s: seq<Color>, s0: seq<Color>, a: seq<Target>, b: seq<Target>)
    requires |s| == |s0|
  {
    forall p :: 0 <= p < |s| && p !in Pixels(a) && p !in Pixels(b) ==> s[p] == s0[p]
  }

  /**
   * One `fade` of a group of distinct pixels at step `s` on every channel,
   * starting with every pixel within `e` of its target: afterwards every
   * pixel is within `e - s`; when `fade` reports success every pixel is at
   * its target, and when it does not, `e` was more than `s`.
   */
  lemma GroupStep(before: seq<Color>, g: seq<Target>, s: nat, e: nat)
    requires ValidTargets(g, |before|) && Distinct(g) && Within(before, g, e)
    ensures Within(Applied(before, g, [s, s, s]), g, Max0(e - s))
    ensures AllDone(before, g, [s, s, s]) ==> AtTargets(Applied(before, g, [s, s, s]), g)
    ensures !AllDone(before, g, [s, s, s]) ==> s < e
  {
    var after := Applied(before, g, [s, s, s]);
    AppliedAt(before, g, [s, s, s]);
    AllDoneExactly(before, g, [s, s, s]);
    forall k | 0 <= k < |g|
      ensures Near(after[g[k].pixel], g[k].color, Max0(e - s))
    {
      FadeColorNear(before[g[k].pixel], g[k].color, s, e);
    }
    if !AllDone(before, g, [s, s, s]) && e <= s {
      var k :| 0 <= k < |g| && FadeColor(before[g[k].pixel], g[k].color, [s, s, s]) != g[k].color;
      NearZero(after[g[k].pixel], g[k].color);
    }
  }

  /** A `fade` of one group leaves the pixels of a disjoint group where they were. */
  lemma OtherGroupKept(before: seq<Color>, g: seq<Target>, h: seq<Target>, step: Color)
    requires ValidTargets(g, |before|) && ValidTargets(h, |before|) && Disjoint(g, h)
    ensures forall k :: 0 <= k < |h| ==> Applied(before, g, step)[h[k].pixel] == before[h[k].pixel]
  {
    AppliedElsewhere(before, g, step);
    DisjointPixels(g, h);
    assert forall k :: 0 <= k < |h| ==> h[k].pixel in Pixels(h);
  }

  /** How `Within` and `AtTargets` carry over a strip that agrees on the group's pixels. */
  lemma SameOnGroup(s: seq<Color>, s': seq<Color>, g: seq<Target>, e: int)
    requires |s| == |s'| && ValidTargets(g, |s|)
    requires forall k :: 0 <= k < |g| ==> s'[g[k].pixel] == s[g[k].pixel]
    ensures Within(s, g, e) ==> Within(s', g, e)
    ensures AtTargets(s, g) ==> AtTargets(s', g)
  {
  }

  /**
   * The sub-tick loop: fade in at step 3 and fade out at step 12, both on
   * every tick, until both fades report arrival.  With `d` the largest
   * distance of any channel from its target at the start, no more than
   * ⌈d/3⌉ ticks (at least one) are taken; on byte channels that is at
   * most 85.
   */
  method SubTicks(strip: array<Color>, fadein: seq<Target>, fadeout: seq<Target>) returns (ticks: nat)
    requires ValidTargets(fadein, strip.Length) && Distinct(fadein)
    requires ValidTargets(fadeout, strip.Length) && Distinct(fadeout)
    requires Disjoint(fadein, fadeout)
    modifies strip
    ensures AtTargets(strip[..], fadein) && AtTargets(strip[..], fadeout)
    ensures KeptOutside(strip[..], old(strip[..]), fadein, fadeout)
    ensures 1 <= ticks
    ensures ticks == 1 || 3 * (ticks - 1) < Max(Spread(old(strip[..]), fadein), Spread(old(strip[..]), fadeout))
    ensures ByteGroup(old(strip[..]), fadein) && ByteGroup(old(strip[..]), fadeout) ==> ticks <= 85
  {
    ghost var s0 := strip[..];
    ghost var d := Max(Spread(s0, fadein), Spread(s0, fadeout));
    ticks := 0;
    while true
      invariant Within(strip[..], fadein, Max0(d - 3 * ticks))
      invariant Within(strip[..], fadeout, Max0(d - 12 * ticks))
      invariant KeptOutside(strip[..], s0, fadein, fadeout)
      invariant ticks == 0 || 3 * ticks < d
      decreases d - 3 * ticks
    {
      ghost var before := strip[..];
      var r0 := FadeGroup(strip, fadein, FadeInStep);
      ghost var mid := strip[..];
      var r1 := FadeGroup(strip, fadeout, FadeOutStep);
      SubTickStep(before, mid, strip[..], s0, fadein, fadeout, d, ticks);
      ticks := ticks + 1;
      if r0 && r1 {
        break;
      }
    }
    if ByteGroup(s0, fadein) && ByteGroup(s0, fadeout) {
      SpreadOfBytes(s0, fadein);
      SpreadOfBytes(s0, fadeout);
    }
  }

  /** One tick of the sub-tick loop, as its invariant sees it. */
  lemma SubTickStep(before: seq<Color>, mid: seq<Color>, after: seq<Color>, s0: seq<Color>,
             fadein: seq<Target>, fadeout: seq<Target>, d: int, t: nat)
    requires |s0| == |before|
    requires ValidTargets(fadein, |before|) && Distinct(fadein)
    requires ValidTargets(fadeout, |before|) && Distinct(fadeout)
    requires Disjoint(fadein, fadeout)
    requires mid == Applied(before, fadein, FadeInStep)
    requires after == Applied(mid, fadeout, FadeOutStep)
    requires Within(before, fadein, Max0(d - 3 * t)) && Within(before, fadeout, Max0(d - 12 * t))
    requires KeptOutside(before, s0, fadein, fadeout)
    ensures Within(after, fadein, Max0(d - 3 * (t + 1))) && Within(after, fadeout, Max0(d - 12 * (t + 1)))
    ensures KeptOutside(after, s0, fadein, fadeout)
    ensures AllDone(before, fadein, FadeInStep) ==> AtTargets(after, fadein)
    ensures AllDone(mid, fadeout, FadeOutStep) ==> AtTargets(after, fadeout)
    ensures !(AllDone(before, fadein, FadeInStep) && AllDone(mid, fadeout, FadeOutStep)) ==> 3 * (t + 1) < d
  {
    GroupStep(before, fadein, 3, Max0(d - 3 * t));
    OtherGroupKept(before, fadein, fadeout, FadeInStep);
    SameOnGroup(before, mid, fadeout, Max0(d - 12 * t));
    GroupStep(mid, fadeout, 12, Max0(d - 12 * t));
    DisjointPixels(fadein, fadeout);
    DisjointPixels(fadeout, fadein);
    OtherGroupKept(mid, fadeout, fadein, FadeOutStep);
    SameOnGroup(mid, after, fadein, Max0(d - 3 * (t + 1)));
    AppliedElsewhere(before, fadein, FadeInStep);
    AppliedElsewhere(mid, fadeout, FadeOutStep);
  }

  /** The pixels of a group all fit on a strip of `n` LEDs. */
  lemma PixelsOnStrip(g: seq<Target>, n: int)
    requires forall p :: p in Pixels(g) ==> 0 <= p < n
    ensures ValidTargets(g, n)
  {
    assert forall k :: 0 <= k < |g| ==> g[k].pixel in Pixels(g);
  }

  /** When every entry of a group has colour `c` and has arrived, every pixel of the group shows `c`. */
  lemma AtTargetsColor(s: seq<Color>, g: seq<Target>, c: Color)
    requires ValidTargets(g, |s|) && AtTargets(s, g)
    requires forall k :: 0 <= k < |g| ==> g[k].color == c
    ensures forall p :: p in Pixels(g) ==> s[p] == c
  {
    forall p | p in Pixels(g)
      ensures s[p] == c
    {
      var k :| 0 <= k < |g| && g[k].pixel == p;
    }
  }

  /** `setAll`: every pixel of the strip set to one colour. */
  method SetAll(strip: array<Color>, color: Color)
    modifies strip
    ensures forall p :: 0 <= p < strip.Length ==> strip[p] == color
  {
    for p := 0 to strip.Length
      invariant forall q :: 0 <= q < p ==> strip[q] == color
    {
      strip[p] := color;
    }
  }
}
