/**
 * The time-to-phrase mapper: the local (hour, minute) to the ordered list of
 * phrases the clock face shows, and that list to the set of lit LEDs.
 *
 * The source is Python 2, so `tm_min / 5` is floor division: the bucket is
 * the minute rounded DOWN to a multiple of five and the remainder 0..4 is
 * shown as minute dots.  Dafny's `/` and `%` with a positive divisor floor
 * like Python's, so the arithmetic below holds for every integer input.
 */
module Mapper {
  import opened Wrappers
  import opened Phrases

  /** `round(tm_min / 5) * 5`: the five-minute bucket at or below the minute. */
  function Bucket(m: int): int
  {
    (m / 5) * 5
  }

  /** `tm_min - min_5`: the minutes past the bucket, shown as dots. */
  function Rest(m: int): (r: int)
    ensures 0 <= r <= 4
  {
    m - (m / 5) * 5
  }

  /** The hour folded onto the dial: 13..23 become 1..11. */
  function FoldHour(h: int): int
  {
    if h > 12 then h - 12 else h
  }

  /** The hour whose phrase is shown: the next one once the bucket is past 30 ("... to <next>"). */
  function DisplayHour(h: int, m: int): int
  {
    if Bucket(m) > 30 then (FoldHour(h) + 1) % 12 else FoldHour(h)
  }

  /** The minute dots `'minute 1'` .. `'minute r'`, appended one by one. */
  function Dots(r: int): (ds: seq<Name>)
    requires 0 <= r <= 4
    ensures ds == DotNames[..r]
  {
    if r == 0 then [] else Dots(r - 1) + [DotNames[r - 1]]
  }

  /**
   * The phrase list built from `min_5`, `min_rest` and `hour`; `None` where
   * one of the two dictionary lookups of the source would raise `KeyError`.
   */
  function Assemble(b: int, r: int, hour: int): Option<seq<Name>>
    requires 0 <= r <= 4
  {
    var mins := MinuteTable(b);
    var hours := HourTable(hour);
    if mins.Some? && hours.Some? then Some([ItIs] + mins.value + hours.value + Dots(r)) else None
  }

  /** The phrase list shown at `(tm_hour, tm_min)`. */
  function TimePhrases(h: int, m: int): Option<seq<Name>>
  {
    Assemble(Bucket(m), Rest(m), DisplayHour(h, m))
  }

  predicate ValidTime(h: int, m: int)
  {
    0 <= h <= 23 && 0 <= m <= 59
  }

  // ---------------------------------------------------------------------
  // Buckets, remainders and the display hour.

  /** The bucket is the multiple of five at or below the minute; the rest is the minute modulo five. */
  lemma BucketAndRest(m: int)
    ensures Bucket(m) % 5 == 0 && Bucket(m) <= m < Bucket(m) + 5
    ensures Rest(m) == m % 5 && Bucket(m) + Rest(m) == m
  {
  }

  /** Every minute of the hour falls in a bucket that `minutes` has. */
  lemma BucketInTable(m: int)
    requires 0 <= m <= 59
    ensures MinuteTable(Bucket(m)).Some? && 0 <= Bucket(m) <= 55
  {
    BucketAndRest(m);
    MinuteTableShape(Bucket(m));
  }

  /** The lookups succeed exactly for minutes 0..59 and hours that fold onto the dial (any hour once the bucket is past 30). */
  lemma TimePhrasesDefined(h: int, m: int)
    ensures TimePhrases(h, m).Some? <==> 0 <= m <= 59 && (Bucket(m) > 30 || 0 <= h <= 24)
  {
    BucketAndRest(m);
    MinuteTableShape(Bucket(m));
    HourTableShape(DisplayHour(h, m));
  }

  /**
   * For every hour of the day the display hour is a key of `hours` and the
   * hour word shown names the current hour, or the next one when the bucket
   * is past 30, on a 12-hour dial.
   */
  lemma DisplayHourSpoken(h: int, m: int)
    requires 0 <= h <= 23
    ensures 0 <= DisplayHour(h, m) <= 12
    ensures Bucket(m) <= 30 ==> DisplayHour(h, m) == FoldHour(h)
    ensures Bucket(m) > 30 ==> DisplayHour(h, m) == (FoldHour(h) + 1) % 12
    ensures HourValue(HourTable(DisplayHour(h, m)).value[0]) % 12
         == (h + if Bucket(m) > 30 then 1 else 0) % 12
  {
    HourTableShape(DisplayHour(h, m));
  }

  /** The worked examples: 14:40 shows three, 11:45 shows twelve, 12:40 shows one. */
  lemma DisplayHourExamples()
    ensures DisplayHour(14, 40) == 3 && HourTable(DisplayHour(14, 40)) == Some([HourThree])
    ensures DisplayHour(11, 45) == 0 && HourTable(DisplayHour(11, 45)) == Some([HourTwelve])
    ensures DisplayHour(12, 40) == 1 && HourTable(DisplayHour(12, 40)) == Some([HourOne])
  {
  }

  // ---------------------------------------------------------------------
  // Order of the phrases.

  /** The words of a bucket are no hour, no dot and not "it is". */
  lemma BucketWordKinds(b: int)
    requires MinuteTable(b).Some?
    ensures 1 <= |MinuteTable(b).value| <= 4
    ensures forall i :: 0 <= i < |MinuteTable(b).value| ==>
      !IsHour(MinuteTable(b).value[i]) && !IsDot(MinuteTable(b).value[i]) && MinuteTable(b).value[i] != ItIs
  {
    var mt := MinuteTable(b).value;
    if b == 0 {
      assert mt == [OClock];
    } else if b == 5 {
      assert mt == [Five, Minutes, Past];
    } else if b == 10 {
      assert mt == [Ten, Minutes, Past];
    } else if b == 15 {
      assert mt == [AQuarter, Past];
    } else if b == 20 {
      assert mt == [Twenty, Minutes, Past];
    } else if b == 25 {
      assert mt == [Twenty, Five, Minutes, Past];
    } else if b == 30 {
      assert mt == [Half, Past];
    } else if b == 35 {
      assert mt == [Twenty, Five, Minutes, To];
    } else if b == 40 {
      assert mt == [Twenty, Minutes, To];
    } else if b == 45 {
      assert mt == [AQuarter, To];
    } else if b == 50 {
      assert mt == [Ten, Minutes, To];
    } else {
      assert mt == [Five, Minutes, To];
    }
  }

  /** The list built from a bucket, a rest and a display hour that the tables have. */
  lemma AssembleOrder(b: int, r: int, hour: int)
    requires MinuteTable(b).Some? && HourTable(hour).Some? && 0 <= r <= 4
    ensures Assemble(b, r, hour).Some?
    ensures var ps := Assemble(b, r, hour).value;
            var k := |MinuteTable(b).value|;
            |ps| == k + 2 + r &&
            ps[0] == ItIs &&
            ps[1..k + 1] == MinuteTable(b).value &&
            ps[k + 1] == HourTable(hour).value[0] &&
            (forall i :: 0 <= i < |ps| && i != k + 1 ==> !IsHour(ps[i])) &&
            ps[k + 2..] == DotNames[..r]
  {
    HourTableShape(hour);
    BucketWordKinds(b);
    var mt, ht, ds := MinuteTable(b).value, HourTable(hour).value, Dots(r);
    var ps := [ItIs] + mt + ht + ds;
    var k := |mt|;
    forall i | 0 <= i < |ps| && i != k + 1
      ensures !IsHour(ps[i])
    {
      if 1 <= i <= k {
        assert ps[i] == mt[i - 1];
      } else if k + 2 <= i {
        assert ps[i] == ds[i - k - 2];
      }
    }
    assert ps[1..k + 1] == mt;
    assert ps[k + 2..] == ds;
  }

  /**
   * A valid time yields "it is", then the bucket's phrases, then exactly one
   * hour word (the display hour's), then the dots `minute 1` .. `minute r` in order.
   */
  lemma PhraseOrder(h: int, m: int)
    requires ValidTime(h, m)
    ensures TimePhrases(h, m).Some?
    ensures var ps := TimePhrases(h, m).value;
            var k := |MinuteTable(Bucket(m)).value|;
            |ps| == k + 2 + Rest(m) &&
            ps[0] == ItIs &&
            ps[1..k + 1] == MinuteTable(Bucket(m)).value &&
            ps[k + 1] == HourTable(DisplayHour(h, m)).value[0] &&
            (forall i :: 0 <= i < |ps| && i != k + 1 ==> !IsHour(ps[i])) &&
            ps[k + 2..] == DotNames[..Rest(m)]
  {
    BucketInTable(m);
    DisplayHourSpoken(h, m);
    HourTableShape(DisplayHour(h, m));
    AssembleOrder(Bucket(m), Rest(m), DisplayHour(h, m));
  }

  lemma ExampleArithmetic()
    ensures Bucket(47) == 45 && Rest(47) == 2 && DisplayHour(2, 47) == 3
    ensures Bucket(0) == 0 && Rest(0) == 0 && DisplayHour(0, 0) == 0
  {
  }

  lemma ExampleLists()
    ensures Assemble(45, 2, 3) == Some([ItIs, AQuarter, To, HourThree, Minute1, Minute2])
    ensures Assemble(0, 0, 0) == Some([ItIs, OClock, HourTwelve])
  {
    assert Dots(2) == [Minute1, Minute2];
    assert [ItIs] + [AQuarter, To] + [HourThree] + [Minute1, Minute2]
        == [ItIs, AQuarter, To, HourThree, Minute1, Minute2];
    assert Dots(0) == [];
    assert [ItIs] + [OClock] + [HourTwelve] + [] == [ItIs, OClock, HourTwelve];
  }

  /**
   * The worked examples: 2:47 is "it is a quarter to three" with two dots,
   * 0:00 is "it is twelve o'clock" with none.
   */
  lemma PhraseExamples()
    ensures TimePhrases(2, 47) == Some([ItIs, AQuarter, To, HourThree, Minute1, Minute2])
    ensures TimePhrases(0, 0) == Some([ItIs, OClock, HourTwelve])
  {
    ExampleArithmetic();
    ExampleLists();
  }

  // ---------------------------------------------------------------------
  // Reading the face: an independent meaning of a phrase list.

  /** What a reader counts in a phrase list: minutes of the number words, the named hour, or dots. */
  datatype Measure = Numbers | Hours | DotCount

  function Value(f: Measure, n: Name): int
  {
    match f
    case Numbers => NumberValue(n)
    case Hours => HourValue(n)
    case DotCount => if IsDot(n) then 1 else 0
  }

  function SumOf(ps: seq<Name>, f: Measure): int
  {
    if ps == [] then 0 else SumOf(ps[..|ps| - 1], f) + Value(f, ps[|ps| - 1])
  }

  /**
   * The time a reader takes from a face showing `ps`, as (hour on a
   * 12-hour dial, minute): the number words add up, "to" counts back from
   * the named hour, and each dot adds a minute.
   */
  function Reading(ps: seq<Name>): (int, int)
  {
    var n := SumOf(ps, Numbers);
    var v := SumOf(ps, Hours);
    var dots := SumOf(ps, DotCount);
    if To in ps then ((v - 1) % 12, 60 - n + dots) else (v % 12, n + dots)
  }

  lemma {:induction false} SumOfConcat(a: seq<Name>, b: seq<Name>, f: Measure)
    ensures SumOf(a + b, f) == SumOf(a, f) + SumOf(b, f)
    decreases |b|
  {
    if b == [] {
      assert a + b == a;
    } else {
      assert (a + b)[..|a + b| - 1] == a + b[..|b| - 1];
      SumOfConcat(a, b[..|b| - 1], f);
    }
  }

  lemma SumOfSnoc(a: seq<Name>, x: Name, f: Measure)
    ensures SumOf(a + [x], f) == SumOf(a, f) + Value(f, x)
  {
    assert (a + [x])[..|a|] == a;
  }

  lemma SumOfSingle(x: Name, f: Measure)
    ensures SumOf([x], f) == Value(f, x)
  {
    SumOfSnoc([], x, f);
    assert [] + [x] == [x];
  }

  lemma SumOfLiteral(ps: seq<Name>, f: Measure)
    requires |ps| <= 4
    ensures SumOf(ps, f) == (if |ps| > 0 then Value(f, ps[0]) else 0) + (if |ps| > 1 then Value(f, ps[1]) else 0)
                          + (if |ps| > 2 then Value(f, ps[2]) else 0) + (if |ps| > 3 then Value(f, ps[3]) else 0)
  {
    if |ps| > 0 {
      var p := ps[..|ps| - 1];
      assert |p| > 0 ==> p[0] == ps[0];
      assert |p| > 1 ==> p[1] == ps[1];
      assert |p| > 2 ==> p[2] == ps[2];
      SumOfLiteral(p, f);
    }
  }

  /** A list none of whose words counts under `f` adds up to zero. */
  lemma {:induction false} SumOfZero(ps: seq<Name>, f: Measure)
    requires forall i :: 0 <= i < |ps| ==> Value(f, ps[i]) == 0
    ensures SumOf(ps, f) == 0
  {
    if ps != [] {
      SumOfZero(ps[..|ps| - 1], f);
    }
  }

  lemma WordValues(n: Name, f: Measure)
    ensures IsDot(n) ==> Value(f, n) == if f == DotCount then 1 else 0
    ensures IsHour(n) ==> Value(f, n) == if f == Hours then HourValue(n) else 0
    ensures !IsHour(n) && !IsDot(n) ==> Value(f, n) == if f == Numbers then NumberValue(n) else 0
    ensures n == ItIs ==> Value(f, n) == 0
  {
  }

  lemma DotsUnfold(r: int)
    requires 1 <= r <= 4
    ensures Dots(r) == Dots(r - 1) + [DotNames[r - 1]]
    ensures IsDot(DotNames[r - 1])
  {
  }

  /** The dots add one minute each and no number or hour. */
  lemma {:induction false} DotsSum(r: int, f: Measure)
    requires 0 <= r <= 4
    ensures SumOf(Dots(r), f) == if f == DotCount then r else 0
  {
    if r > 0 {
      DotsSum(r - 1, f);
      DotsUnfold(r);
      SumOfSnoc(Dots(r - 1), DotNames[r - 1], f);
      WordValues(DotNames[r - 1], f);
    }
  }

  lemma DotsWords(r: int)
    requires 0 <= r <= 4
    ensures forall i :: 0 <= i < r ==> IsDot(Dots(r)[i])
    ensures To !in Dots(r)
  {
  }

  /** The bucket's words count no hour and no dot. */
  lemma BucketSums(b: int, f: Measure)
    requires MinuteTable(b).Some? && f != Numbers
    ensures SumOf(MinuteTable(b).value, f) == 0
  {
    var mt := MinuteTable(b).value;
    BucketWordKinds(b);
    forall i | 0 <= i < |mt|
      ensures Value(f, mt[i]) == 0
    {
      WordValues(mt[i], f);
    }
    SumOfZero(mt, f);
  }

  /** A bucket says "to" exactly when it is past the half hour, and its number words add up to the minutes before or after the hour. */
  lemma BucketWordsMeaning(b: int)
    requires MinuteTable(b).Some?
    ensures To in MinuteTable(b).value <==> b > 30
    ensures SumOf(MinuteTable(b).value, Numbers) == if b > 30 then 60 - b else b
  {
    var mt := MinuteTable(b).value;
    SumOfLiteral(mt, Numbers);
    if b == 0 {
      assert mt == [OClock];
    } else if b == 5 {
      assert mt == [Five, Minutes, Past];
    } else if b == 10 {
      assert mt == [Ten, Minutes, Past];
    } else if b == 15 {
      assert mt == [AQuarter, Past];
    } else if b == 20 {
      assert mt == [Twenty, Minutes, Past];
    } else if b == 25 {
      assert mt == [Twenty, Five, Minutes, Past];
    } else if b == 30 {
      assert mt == [Half, Past];
    } else if b == 35 {
      assert mt == [Twenty, Five, Minutes, To];
    } else if b == 40 {
      assert mt == [Twenty, Minutes, To];
    } else if b == 45 {
      assert mt == [AQuarter, To];
    } else if b == 50 {
      assert mt == [Ten, Minutes, To];
    } else {
      assert mt == [Five, Minutes, To];
    }
  }

  /** What a reader counts in the list built from a bucket, a rest and a display hour. */
  lemma AssembleSums(b: int, r: int, hour: int)
    requires MinuteTable(b).Some? && HourTable(hour).Some? && 0 <= r <= 4
    ensures Assemble(b, r, hour).Some?
    ensures var ps := Assemble(b, r, hour).value;
            SumOf(ps, Numbers) == (if b > 30 then 60 - b else b) &&
            SumOf(ps, Hours) == HourValue(HourTable(hour).value[0]) &&
            SumOf(ps, DotCount) == r &&
            (To in ps <==> b > 30)
  {
    HourTableShape(hour);
    BucketWordsMeaning(b);
    DotsWords(r);
    var it, mt, ht, ds := [ItIs], MinuteTable(b).value, HourTable(hour).value, Dots(r);
    assert ht == [ht[0]];
    forall f: Measure
      ensures SumOf(it + mt + ht + ds, f)
           == Value(f, ItIs) + SumOf(mt, f) + Value(f, ht[0]) + SumOf(ds, f)
    {
      SumOfConcat(it + mt + ht, ds, f);
      SumOfConcat(it + mt, ht, f);
      SumOfConcat(it, mt, f);
      SumOfSingle(ItIs, f);
      SumOfSingle(ht[0], f);
    }
    forall f: Measure
      ensures Value(f, ItIs) == 0 && SumOf(ds, f) == (if f == DotCount then r else 0)
      ensures Value(f, ht[0]) == if f == Hours then HourValue(ht[0]) else 0
    {
      WordValues(ItIs, f);
      WordValues(ht[0], f);
      DotsSum(r, f);
    }
    BucketSums(b, Hours);
    BucketSums(b, DotCount);
  }

  /** The face always reads as the time it was computed from. */
  lemma ReadingCorrect(h: int, m: int)
    requires ValidTime(h, m)
    ensures TimePhrases(h, m).Some?
    ensures Reading(TimePhrases(h, m).value) == (h % 12, m)
  {
    BucketInTable(m);
    BucketAndRest(m);
    DisplayHourSpoken(h, m);
    AssembleReading(Bucket(m), Rest(m), DisplayHour(h, m));
    var v := HourValue(HourTable(DisplayHour(h, m)).value[0]);
    if Bucket(m) > 30 {
      HourBefore(h, v);
    }
  }

  /** The reading of the list built from a bucket, a rest and a display hour. */
  lemma AssembleReading(b: int, r: int, hour: int)
    requires MinuteTable(b).Some? && HourTable(hour).Some? && 0 <= r <= 4
    ensures Assemble(b, r, hour).Some?
    ensures var v := HourValue(HourTable(hour).value[0]);
      Reading(Assemble(b, r, hour).value)
        == if b > 30 then ((v - 1) % 12, b + r) else (v % 12, b + r)
  {
    AssembleSums(b, r, hour);
  }

  /** Counting back one hour from the hour after `h` gives `h` again on the dial. */
  lemma HourBefore(h: int, v: int)
    requires v % 12 == (h + 1) % 12
    ensures (v - 1) % 12 == h % 12
  {
  }
}
