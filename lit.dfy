/**
 * The set of LEDs a phrase list lights: the phrases' LED lists joined in
 * order (the `reduce` over `x['leds']`) and turned into a set.
 */
module Lit {
  import opened Wrappers
  import opened Phrases
  import opened Mapper

  /** No element occurs twice. */
  predicate NoDup<T(==)>(s: seq<T>)
  {
    forall i, j :: 0 <= i < j < |s| ==> s[i] != s[j]
  }

  /** The elements of a sequence as a set (`sets.Set(...)`). */
  function Elements(s: seq<int>): set<int>
  {
    set i | 0 <= i < |s| :: s[i]
  }

  /** The phrases' LED lists joined left to right. */
  function LedList(ps: seq<Name>): seq<int>
  {
    if ps == [] then [] else LedList(ps[..|ps| - 1]) + Word(ps[|ps| - 1]).leds
  }

  /** The LEDs lit for a phrase list. */
  function LitSet(ps: seq<Name>): set<int>
  {
    Elements(LedList(ps))
  }

  /** Total number of LEDs in a phrase list's LED lists. */
  function LedCount(ps: seq<Name>): nat
  {
    if ps == [] then 0 else LedCount(ps[..|ps| - 1]) + |Word(ps[|ps| - 1]).leds|
  }

  // ---------------------------------------------------------------------
  // Which LEDs are lit.

  /** An LED is in a phrase's list exactly when that phrase owns it. */
  lemma LedOwner(n: Name, x: int)
    ensures x in Word(n).leds <==> Owner(x) == Some(n)
  {
    if x in Word(n).leds {
      var i :| 0 <= i < |Word(n).leds| && Word(n).leds[i] == x;
      OwnerOfLed(n, i);
    }
    if Owner(x) == Some(n) {
      OwnedLed(x);
    }
  }

  /** Every LED that has an owner is in that owner's list. */
  lemma OwnedLed(x: int)
    requires Owner(x).Some?
    ensures x in Word(Owner(x).value).leds
  {
    if x < 10 {
      OwnedLeds0To10(x);
    } else if x < 20 {
      OwnedLeds10To20(x);
    } else if x < 30 {
      OwnedLeds20To30(x);
    } else {
      OwnedLeds30To38(x);
    }
  }

  lemma OwnedLeds0To10(x: int)
    requires Owner(x).Some? && 0 <= x < 10
    ensures x in Word(Owner(x).value).leds
  {
    if x == 0 {
      assert Word(Ten).leds[0] == x;
    } else if x == 1 {
      assert Word(Half).leds[0] == x;
    } else if x == 2 {
      assert Word(Half).leds[1] == x;
    } else if x == 3 {
      assert Word(ItIs).leds[0] == x;
    } else if x == 4 {
      assert Word(ItIs).leds[1] == x;
    } else if x == 5 {
      assert Word(AQuarter).leds[0] == x;
    } else if x == 6 {
      assert Word(AQuarter).leds[1] == x;
    } else if x == 7 {
      assert Word(AQuarter).leds[2] == x;
    } else if x == 8 {
      assert Word(Twenty).leds[0] == x;
    } else {
      assert x == 9;
      assert Word(Twenty).leds[1] == x;
    }
  }

  lemma OwnedLeds10To20(x: int)
    requires Owner(x).Some? && 10 <= x < 20
    ensures x in Word(Owner(x).value).leds
  {
    if x == 10 {
      assert Word(To).leds[0] == x;
    } else if x == 11 {
      assert Word(Minutes).leds[0] == x;
    } else if x == 12 {
      assert Word(Minutes).leds[1] == x;
    } else if x == 13 {
      assert Word(Five).leds[0] == x;
    } else if x == 14 {
      assert Word(Five).leds[1] == x;
    } else if x == 15 {
      assert Word(Past).leds[0] == x;
    } else if x == 16 {
      assert Word(Past).leds[1] == x;
    } else if x == 17 {
      assert Word(HourOne).leds[0] == x;
    } else if x == 18 {
      assert Word(HourTwo).leds[0] == x;
    } else {
      assert x == 19;
      assert Word(HourFive).leds[0] == x;
    }
  }

  lemma OwnedLeds20To30(x: int)
    requires Owner(x).Some? && 20 <= x < 30
    ensures x in Word(Owner(x).value).leds
  {
    if x == 20 {
      assert Word(HourFour).leds[0] == x;
    } else if x == 21 {
      assert Word(HourThree).leds[0] == x;
    } else if x == 22 {
      assert Word(HourSix).leds[0] == x;
    } else if x == 23 {
      assert Word(HourSeven).leds[0] == x;
    } else if x == 24 {
      assert Word(HourEight).leds[0] == x;
    } else if x == 25 {
      assert Word(HourEleven).leds[0] == x;
    } else if x == 26 {
      assert Word(HourEleven).leds[1] == x;
    } else if x == 27 {
      assert Word(HourTen).leds[0] == x;
    } else if x == 28 {
      assert Word(HourNine).leds[0] == x;
    } else {
      assert x == 29;
      assert Word(HourTwelve).leds[0] == x;
    }
  }

  lemma OwnedLeds30To38(x: int)
    requires Owner(x).Some? && 30 <= x < 38
    ensures x in Word(Owner(x).value).leds
  {
    if x == 30 {
      assert Word(HourTwelve).leds[1] == x;
    } else if x == 31 {
      assert Word(OClock).leds[0] == x;
    } else if x == 32 {
      assert Word(OClock).leds[1] == x;
    } else if x == 33 {
      assert Word(OClock).leds[2] == x;
    } else if x == 34 {
      assert Word(Minute4).leds[0] == x;
    } else if x == 35 {
      assert Word(Minute3).leds[0] == x;
    } else if x == 36 {
      assert Word(Minute2).leds[0] == x;
    } else {
      assert x == 37;
      assert Word(Minute1).leds[0] == x;
    }
  }

  /** An LED is lit exactly when some phrase of the list owns it. */
  lemma {:induction false} LedListMembers(ps: seq<Name>, x: int)
    ensures x in LedList(ps) <==> Owner(x).Some? && Owner(x).value in ps
  {
    if ps != [] {
      var p, n := ps[..|ps| - 1], ps[|ps| - 1];
      LedListMembers(p, x);
      LedOwner(n, x);
      assert ps == p + [n];
    }
  }

  lemma ElementsMembers(s: seq<int>, x: int)
    ensures x in Elements(s) <==> x in s
  {
    if x in s {
      var i :| 0 <= i < |s| && s[i] == x;
      assert x in Elements(s);
    }
  }

  /** Only LEDs on the strip are ever lit. */
  lemma LitOnStrip(ps: seq<Name>)
    ensures forall x :: x in LitSet(ps) ==> 0 <= x < StripSize
  {
    forall x | x in LitSet(ps)
      ensures 0 <= x < StripSize
    {
      ElementsMembers(LedList(ps), x);
      LedListMembers(ps, x);
    }
  }

  /** An LED is lit exactly when some phrase of the list owns it. */
  lemma LitMembers(ps: seq<Name>, x: int)
    ensures x in LitSet(ps) <==> Owner(x).Some? && Owner(x).value in ps
  {
    ElementsMembers(LedList(ps), x);
    LedListMembers(ps, x);
  }

  /** The list built from a bucket, a rest and a display hour holds "it is", and "to" exactly past the half hour. */
  lemma AssembleHolds(b: int, r: int, hour: int)
    requires MinuteTable(b).Some? && HourTable(hour).Some? && 0 <= r <= 4
    ensures Assemble(b, r, hour).Some?
    ensures ItIs in Assemble(b, r, hour).value
    ensures To in Assemble(b, r, hour).value <==> b > 30
  {
    AssembleSums(b, r, hour);
    assert Assemble(b, r, hour).value[0] == ItIs;
  }

  /**
   * At every valid time the face lights "it is" (LEDs 3 and 4), and lights
   * "to" (LED 10) exactly when the bucket is past the half hour.
   */
  lemma LitAtTime(h: int, m: int)
    requires ValidTime(h, m)
    ensures TimePhrases(h, m).Some?
    ensures 3 in LitSet(TimePhrases(h, m).value) && 4 in LitSet(TimePhrases(h, m).value)
    ensures 10 in LitSet(TimePhrases(h, m).value) <==> Bucket(m) > 30
  {
    BucketInTable(m);
    DisplayHourSpoken(h, m);
    AssembleHolds(Bucket(m), Rest(m), DisplayHour(h, m));
    var ps := TimePhrases(h, m).value;
    LitMembers(ps, 3);
    LitMembers(ps, 4);
    LitMembers(ps, 10);
  }

  // ---------------------------------------------------------------------
  // How many LEDs are lit.

  lemma {:induction false} ElementsOfNoDup(s: seq<int>)
    requires NoDup(s)
    ensures |Elements(s)| == |s|
  {
    if s != [] {
      var p, x := s[..|s| - 1], s[|s| - 1];
      assert NoDup(p);
      ElementsOfNoDup(p);
      assert Elements(s) == Elements(p) + {x};
      assert x !in Elements(p);
    }
  }

  lemma NoDupConcat<T>(a: seq<T>, b: seq<T>)
    requires NoDup(a) && NoDup(b)
    requires forall i, j :: 0 <= i < |a| && 0 <= j < |b| ==> a[i] != b[j]
    ensures NoDup(a + b)
  {
    forall i, j | 0 <= i < j < |a + b|
      ensures (a + b)[i] != (a + b)[j]
    {
      if j < |a| {
      } else if i >= |a| {
        assert (a + b)[i] == b[i - |a|] && (a + b)[j] == b[j - |a|];
      } else {
        assert (a + b)[j] == b[j - |a|];
      }
    }
  }

  /** Distinct phrases light distinct LEDs, one per entry of their lists. */
  lemma {:induction false} LedListNoDup(ps: seq<Name>)
    requires NoDup(ps)
    ensures NoDup(LedList(ps)) && |LedList(ps)| == LedCount(ps)
  {
    if ps != [] {
      var p, n := ps[..|ps| - 1], ps[|ps| - 1];
      assert NoDup(p);
      LedListNoDup(p);
      LedsUnique(n);
      assert n !in p by {
        forall k | 0 <= k < |p|
          ensures p[k] != n
        {
          assert p[k] == ps[k];
        }
      }
      forall i, j | 0 <= i < |LedList(p)| && 0 <= j < |Word(n).leds|
        ensures LedList(p)[i] != Word(n).leds[j]
      {
        var x := LedList(p)[i];
        LedListMembers(p, x);
        LedOwner(n, x);
      }
      NoDupConcat(LedList(p), Word(n).leds);
    }
  }

  /** A list of distinct phrases lights as many LEDs as its LED lists hold together. */
  lemma LitCount(ps: seq<Name>)
    requires NoDup(ps)
    ensures |LitSet(ps)| == LedCount(ps)
  {
    LedListNoDup(ps);
    ElementsOfNoDup(LedList(ps));
  }

  /** The words of a bucket are distinct. */
  lemma BucketNoDup(b: int)
    requires MinuteTable(b).Some?
    ensures NoDup(MinuteTable(b).value)
  {
    var mt := MinuteTable(b).value;
    if b == 0 {
      assert mt == [OClock];
    } else if b == 5 {
      assert mt == [Five, Minutes, Past];
    } else if b == 10 {
      assert mt == [Ten, Minutes, Past];
    } else if b == 15 {
      assert mt == [AQuarter, Past];
    } else if b == 20 {
      assert mt == [Twenty, Minutes, Past];
    } else if b == 25 {
      assert mt == [Twenty, Five, Minutes, Past];
    } else if b == 30 {
      assert mt == [Half, Past];
    } else if b == 35 {
      assert mt == [Twenty, Five, Minutes, To];
    } else if b == 40 {
      assert mt == [Twenty, Minutes, To];
    } else if b == 45 {
      assert mt == [AQuarter, To];
    } else if b == 50 {
      assert mt == [Ten, Minutes, To];
    } else {
      assert mt == [Five, Minutes, To];
    }
  }

  /** The list built from a bucket, a rest and a display hour names no phrase twice. */
  lemma AssembleNoDup(b: int, r: int, hour: int)
    requires MinuteTable(b).Some? && HourTable(hour).Some? && 0 <= r <= 4
    ensures Assemble(b, r, hour).Some? && NoDup(Assemble(b, r, hour).value)
  {
    HourTableShape(hour);
    BucketWordKinds(b);
    BucketNoDup(b);
    DotsWords(r);
    var it, mt, ht, ds := [ItIs], MinuteTable(b).value, HourTable(hour).value, Dots(r);
    assert ds == DotNames[..r];
    NoDupConcat(it, mt);
    NoDupConcat(it + mt, ht);
    forall i, j | 0 <= i < |it + mt + ht| && 0 <= j < |ds|
      ensures (it + mt + ht)[i] != ds[j]
    {
      if 1 <= i <= |mt| {
        assert (it + mt + ht)[i] == mt[i - 1];
      }
    }
    NoDupConcat(it + mt + ht, ds);
  }

  /**
   * At every valid time the face lights exactly as many LEDs as the LED
   * lists of its phrases hold together: no LED is shared.
   */
  lemma LitCountAtTime(h: int, m: int)
    requires ValidTime(h, m)
    ensures TimePhrases(h, m).Some?
    ensures |LitSet(TimePhrases(h, m).value)| == LedCount(TimePhrases(h, m).value)
  {
    BucketInTable(m);
    DisplayHourSpoken(h, m);
    AssembleNoDup(Bucket(m), Rest(m), DisplayHour(h, m));
    LitCount(TimePhrases(h, m).value);
  }
}
