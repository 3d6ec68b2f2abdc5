/**
 * The phrase table of the word clock: the named phrases (`words`), the
 * phrases spoken for each hour (`hours`) and for each five-minute bucket
 * (`minutes`), and the LED indices each phrase lights on the 40-LED strip.
 */
module Phrases {
  import opened Wrappers

  /** Number of LEDs on the strip driven by the clock. */
  const StripSize: nat := 40

  /** The keys of the `words` table. */
  datatype Name =
    | ItIs | Half | Ten | AQuarter | Twenty | Five | Minutes | To | Past
    | HourOne | HourTwo | HourThree | HourFour | HourFive | HourSix
    | HourSeven | HourEight | HourNine | HourTen | HourEleven | HourTwelve
    | OClock | Minute1 | Minute2 | Minute3 | Minute4

  /** One entry of the `words` table: the LEDs it lights and its text. */
  datatype Phrase = Phrase(leds: seq<int>, text: string)

  /** The `words` table. */
  function Word(n: Name): Phrase
  {
    match n
    case ItIs => Phrase([3, 4], "it is")
    case Half => Phrase([1, 2], "half")
    case Ten => Phrase([0], "ten")
    case AQuarter => Phrase([5, 6, 7], "a quarter")
    case Twenty => Phrase([8, 9], "twenty")
    case Five => Phrase([13, 14], "five")
    case Minutes => Phrase([11, 12], "minutes")
    case To => Phrase([10], "to")
    case Past => Phrase([15, 16], "past")
    case HourOne => Phrase([17], "one")
    case HourTwo => Phrase([18], "two")
    case HourThree => Phrase([21], "three")
    case HourFour => Phrase([20], "four")
    case HourFive => Phrase([19], "five")
    case HourSix => Phrase([22], "six")
    case HourSeven => Phrase([23], "seven")
    case HourEight => Phrase([24], "eight")
    case HourNine => Phrase([28], "nine")
    case HourTen => Phrase([27], "ten")
    case HourEleven => Phrase([25, 26], "eleven")
    case HourTwelve => Phrase([29, 30], "twelve")
    case OClock => Phrase([31, 32, 33], "o'clock")
    case Minute1 => Phrase([37], ".")
    case Minute2 => Phrase([36], ".")
    case Minute3 => Phrase([35], ".")
    case Minute4 => Phrase([34], ".")
  }

  /** The `hours` table: the display hour 0..12 to its phrases; `None` for a missing key. */
  function HourTable(k: int): Option<seq<Name>>
  {
    match k
    case 0 => Some([HourTwelve])
    case 1 => Some([HourOne])
    case 2 => Some([HourTwo])
    case 3 => Some([HourThree])
    case 4 => Some([HourFour])
    case 5 => Some([HourFive])
    case 6 => Some([HourSix])
    case 7 => Some([HourSeven])
    case 8 => Some([HourEight])
    case 9 => Some([HourNine])
    case 10 => Some([HourTen])
    case 11 => Some([HourEleven])
    case 12 => Some([HourTwelve])
    case _ => None
  }

  /** The `minutes` table: the five-minute bucket to its phrases; `None` for a missing key. */
  function MinuteTable(b: int): Option<seq<Name>>
  {
    match b
    case 0 => Some([OClock])
    case 5 => Some([Five, Minutes, Past])
    case 10 => Some([Ten, Minutes, Past])
    case 15 => Some([AQuarter, Past])
    case 20 => Some([Twenty, Minutes, Past])
    case 25 => Some([Twenty, Five, Minutes, Past])
    case 30 => Some([Half, Past])
    case 35 => Some([Twenty, Five, Minutes, To])
    case 40 => Some([Twenty, Minutes, To])
    case 45 => Some([AQuarter, To])
    case 50 => Some([Ten, Minutes, To])
    case 55 => Some([Five, Minutes, To])
    case _ => None
  }

  /** The minute dots `'minute 1'` .. `'minute 4'`, in order. */
  const DotNames: seq<Name> := [Minute1, Minute2, Minute3, Minute4]

  // ---------------------------------------------------------------------
  // What each phrase means to a reader of the clock face.  These give an
  // independent reading of a phrase list, against which the mapper is proved.

  /** The number of minutes a number word stands for (zero for other words). */
  function NumberValue(n: Name): nat
  {
    match n
    case Ten => 10
    case AQuarter => 15
    case Twenty => 20
    case Five => 5
    case Half => 30
    case _ => 0
  }

  /** The hour an hour word names, 1..12 (zero for other words). */
  function HourValue(n: Name): nat
  {
    match n
    case HourOne => 1
    case HourTwo => 2
    case HourThree => 3
    case HourFour => 4
    case HourFive => 5
    case HourSix => 6
    case HourSeven => 7
    case HourEight => 8
    case HourNine => 9
    case HourTen => 10
    case HourEleven => 11
    case HourTwelve => 12
    case _ => 0
  }

  predicate IsHour(n: Name) { HourValue(n) > 0 }

  predicate IsDot(n: Name)
  {
    n == Minute1 || n == Minute2 || n == Minute3 || n == Minute4
  }

  // ---------------------------------------------------------------------
  // Shape of the table.

  /** The phrase owning each LED 0..37; LEDs 38 and 39 are unused. */
  function Owner(led: int): Option<Name>
  {
    match led
    case 0 => Some(Ten)
    case 1 => Some(Half)
    case 2 => Some(Half)
    case 3 => Some(ItIs)
    case 4 => Some(ItIs)
    case 5 => Some(AQuarter)
    case 6 => Some(AQuarter)
    case 7 => Some(AQuarter)
    case 8 => Some(Twenty)
    case 9 => Some(Twenty)
    case 10 => Some(To)
    case 11 => Some(Minutes)
    case 12 => Some(Minutes)
    case 13 => Some(Five)
    case 14 => Some(Five)
    case 15 => Some(Past)
    case 16 => Some(Past)
    case 17 => Some(HourOne)
    case 18 => Some(HourTwo)
    case 19 => Some(HourFive)
    case 20 => Some(HourFour)
    case 21 => Some(HourThree)
    case 22 => Some(HourSix)
    case 23 => Some(HourSeven)
    case 24 => Some(HourEight)
    case 25 => Some(HourEleven)
    case 26 => Some(HourEleven)
    case 27 => Some(HourTen)
    case 28 => Some(HourNine)
    case 29 => Some(HourTwelve)
    case 30 => Some(HourTwelve)
    case 31 => Some(OClock)
    case 32 => Some(OClock)
    case 33 => Some(OClock)
    case 34 => Some(Minute4)
    case 35 => Some(Minute3)
    case 36 => Some(Minute2)
    case 37 => Some(Minute1)
    case _ => None
  }

  /** Every LED of a phrase is on the strip and has that phrase as its owner. */
  lemma OwnerOfLeds(n: Name)
    ensures forall i :: 0 <= i < |Word(n).leds| ==>
      0 <= Word(n).leds[i] < StripSize && Owner(Word(n).leds[i]) == Some(n)
  {
    var leds := Word(n).leds;
    forall i | 0 <= i < |leds|
      ensures 0 <= leds[i] < StripSize && Owner(leds[i]) == Some(n)
    {
      OwnerOfLed(n, i);
    }
  }

  lemma OwnerOfLed(n: Name, i: int)
    requires 0 <= i < |Word(n).leds|
    ensures 0 <= Word(n).leds[i] < StripSize && Owner(Word(n).leds[i]) == Some(n)
  {
    match n
    case _ =>
  }

  /** No LED belongs to two different phrases. */
  lemma LedsDisjoint(n: Name, m: Name, x: int)
    requires x in Word(n).leds && x in Word(m).leds
    ensures n == m
  {
    var i :| 0 <= i < |Word(n).leds| && Word(n).leds[i] == x;
    var j :| 0 <= j < |Word(m).leds| && Word(m).leds[j] == x;
    OwnerOfLed(n, i);
    OwnerOfLed(m, j);
  }

  /** No phrase lists one LED twice. */
  lemma LedsUnique(n: Name)
    ensures forall i, j :: 0 <= i < j < |Word(n).leds| ==> Word(n).leds[i] != Word(n).leds[j]
  {
    match n
    case _ =>
  }

  /** `hours` has exactly the keys 0..12, each mapped to one hour word naming that hour on a 12-hour dial. */
  lemma HourTableShape(k: int)
    ensures HourTable(k).Some? <==> 0 <= k <= 12
    ensures HourTable(k).Some? ==> |HourTable(k).value| == 1 && IsHour(HourTable(k).value[0])
    ensures HourTable(k).Some? ==> HourValue(HourTable(k).value[0]) % 12 == k % 12
  {
  }

  /** `minutes` has exactly the keys 0, 5, ..., 55. */
  lemma MinuteTableShape(b: int)
    ensures MinuteTable(b).Some? <==> 0 <= b <= 55 && b % 5 == 0
  {
  }
}
