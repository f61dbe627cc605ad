/**
 * Clock and grid arithmetic (lib/utils.ts, and the `minutesToTime` helper of
 * the resizable block): `HH:MM` strings, minutes since midnight, the
 * 30-minute grid rows that start at 03:30, and the fixed window of time slots.
 */
module TimeUtils {
  import opened Wrappers
  import opened Js

  /** 03:30, the first visible minute and the start of grid row 0. */
  const GridStart: int := 210
  /** 22:00, the last visible minute. */
  const GridEnd: int := 1320
  const SlotLength: int := 30
  /** The number of slots the loop from 03:30 to 22:00 produces. */
  const SlotCount: nat := 38

  /** `time.split(':').map(Number)`. */
  function TimeFields(time: string): (r: seq<Num>)
    ensures |r| == |Split(time, ':')| && |r| >= 1
  {
    var parts := Split(time, ':');
    seq(|parts|, i requires 0 <= i < |parts| => ParseNumber(parts[i]))
  }

  /**
   * `timeToMinutes`: hours times 60 plus minutes. A string without a second
   * field leaves `minutes` undefined, so the sum is NaN.
   */
  function TimeToMinutes(time: string): Num {
    var fields := TimeFields(time);
    var minutes := if |fields| > 1 then fields[1] else NaN;
    Add(Scale(fields[0], 60), minutes)
  }

  lemma DigitsHaveNoColon(s: string)
    requires AllDigits(s)
    ensures ':' !in s
  {
  }

  /** The fields of `a:b` when neither side holds a colon. */
  lemma FieldsOf(a: string, b: string)
    requires ':' !in a && ':' !in b
    ensures TimeFields(a + ":" + b) == [ParseNumber(a), ParseNumber(b)]
  {
    assert a + ":" + b == a + [':'] + b;
    SplitOnce(a, ':', b);
  }

  /** `a:b` with colon-free sides that read as `x` and `y` reads as `60 * x + y`. */
  lemma FieldsValue(a: string, b: string, x: int, y: int)
    requires ':' !in a && ':' !in b
    requires ParseNumber(a) == Int(x) && ParseNumber(b) == Int(y)
    ensures TimeToMinutes(a + ":" + b) == Int(60 * x + y)
  {
    FieldsOf(a, b);
    MinutesOfFields(a + ":" + b, a, b);
  }

  lemma MinutesOfFields(t: string, a: string, b: string)
    requires TimeFields(t) == [ParseNumber(a), ParseNumber(b)]
    ensures TimeToMinutes(t) == Add(Scale(ParseNumber(a), 60), ParseNumber(b))
  {
  }

  /** The clock string `hh:mm` of two digit runs reads as `hh * 60 + mm`. */
  lemma ClockValue(hh: string, mm: string)
    requires AllDigits(hh) && AllDigits(mm)
    ensures TimeToMinutes(hh + ":" + mm) == Int(DigitsValue(hh) * 60 + DigitsValue(mm))
  {
    DigitsHaveNoColon(hh);
    DigitsHaveNoColon(mm);
    FieldsOf(hh, mm);
    MinutesOfFields(hh + ":" + mm, hh, mm);
    ParseDigits(hh);
    ParseDigits(mm);
  }

  /** `minutesToGridRow`: the 30-minute row, counted from 03:30, that holds the minute. */
  function MinutesToGridRow(minutes: Num): (row: Num)
    ensures minutes.NaN? <==> row.NaN?
    ensures minutes.Int? ==> GridStart + SlotLength * row.v <= minutes.v < GridStart + SlotLength * (row.v + 1)
  {
    FloorDiv(Sub(minutes, Int(GridStart)), SlotLength)
  }

  /** `minutesToTime`: zero-padded `floor(m / 60)`, a colon, zero-padded `m % 60`. */
  function MinutesToTime(minutes: Num): string {
    var hours := FloorDiv(minutes, 60);
    var mins := Rem(minutes, 60);
    PadStart2(NumToString(hours)) + ":" + PadStart2(NumToString(mins))
  }

  /** A minute count that is not a number renders as "NaN:NaN". */
  lemma MinutesToTimeOfNaN()
    ensures MinutesToTime(NaN) == "NaN:NaN"
  {
    assert PadStart2(NumToString(NaN)) == "NaN";
  }

  /** For a non-negative minute count, floor division and `%` are the natural ones. */
  lemma MinutesToTimeOfNat(m: nat)
    ensures MinutesToTime(Int(m)) == PadStart2(NatToDecimal(m / 60)) + ":" + PadStart2(NatToDecimal(m % 60))
  {
  }

  /** For a non-negative minute count the rendering is two digit runs around a colon. */
  lemma MinutesToTimeDigits(m: nat) returns (hh: string, mm: string)
    ensures MinutesToTime(Int(m)) == hh + ":" + mm
    ensures AllDigits(hh) && AllDigits(mm)
    ensures DigitsValue(hh) == m / 60 && DigitsValue(mm) == m % 60
    ensures |mm| == 2 && (m < 6000 ==> |hh| == 2)
  {
    hh := PadStart2(NatToDecimal(m / 60));
    mm := PadStart2(NatToDecimal(m % 60));
    PadDigits(NatToDecimal(m / 60));
    PadDigits(NatToDecimal(m % 60));
    DecimalRoundTrip(m / 60);
    DecimalRoundTrip(m % 60);
  }

  /** Reading back a rendered non-negative minute count gives the count itself. */
  lemma MinutesRoundTrip(m: nat)
    ensures TimeToMinutes(MinutesToTime(Int(m))) == Int(m)
  {
    var hh, mm := MinutesToTimeDigits(m);
    ClockValue(hh, mm);
  }

  /**
   * A negative minute count that is not a whole number of hours does not
   * survive the round trip: `Math.floor` rounds the hours down while `%`
   * keeps the sign of the count, so the reading is an hour early
   * (-70 renders as "-2:-10", which reads as -130).
   */
  lemma NegativeMinutesShift(m: int)
    requires m < 0 && m % 60 != 0
    ensures TimeToMinutes(MinutesToTime(Int(m))) == Int(m - 60)
  {
    var h, r := NegativeFields(m);
    NegativeText(h);
    NegativeText(r);
    ParseIntToString(h);
    ParseIntToString(r);
    FieldsValue(IntToString(h), IntToString(r), h, r);
  }

  /** The two fields a negative minute count that is not a whole hour renders. */
  lemma NegativeFields(m: int) returns (h: int, r: int)
    requires m < 0 && m % 60 != 0
    ensures h < 0 && r < 0 && 60 * h + r == m - 60
    ensures MinutesToTime(Int(m)) == PadStart2(IntToString(h)) + ":" + PadStart2(IntToString(r))
  {
    var q, rest := (-m) / 60, (-m) % 60;
    if rest == 0 {
      DivMod60(m, -q, 0);
      assert false;
    }
    DivMod60(m, -q - 1, 60 - rest);
    h, r := -q - 1, -rest;
    assert RemInt(m, 60) == r;
  }

  /** A negative number's text is a sign and digits: at least two characters, no colon. */
  lemma NegativeText(n: int)
    requires n < 0
    ensures |IntToString(n)| >= 2 && ':' !in IntToString(n)
    ensures PadStart2(IntToString(n)) == IntToString(n)
  {
    DigitsHaveNoColon(NatToDecimal(-n));
  }

  /** The 12-hour hour: `hours % 12 || 12`. */
  function DisplayHours(hours: Num): Num {
    var h := Rem(hours, 12);
    if TruthyNum(h) then h else Int(12)
  }

  /**
   * `formatTimeDisplay`: unpadded 12-hour hour, two-digit minutes, "AM"/"PM".
   * `None` stands for the TypeError thrown when there is no minutes field.
   */
  function FormatTimeDisplay(time: string): Option<string> {
    var fields := TimeFields(time);
    if |fields| < 2 then None else Some(FormatFields(fields[0], fields[1]))
  }

  /** The display of an hour and a minute field. */
  function FormatFields(hours: Num, minutes: Num): string {
    var period := if LessEq(Int(12), hours) then "PM" else "AM";
    NumToString(DisplayHours(hours)) + ":" + PadStart2(NumToString(minutes)) + " " + period
  }

  /** The 12-hour hour of a non-negative hour count: its remainder modulo 12, with 0 shown as 12. */
  lemma DisplayHoursOf(h: nat)
    ensures DisplayHours(Int(h)) == Int(if h % 12 == 0 then 12 else h % 12)
    ensures NumToString(DisplayHours(Int(h))) == NatToDecimal(if h % 12 == 0 then 12 else h % 12)
  {
  }

  /** The display of numeric fields, in terms of the hour and minute. */
  lemma FormatFieldsOf(h: nat, m: nat)
    ensures FormatFields(Int(h), Int(m))
            == NatToDecimal(if h % 12 == 0 then 12 else h % 12) + ":"
               + PadStart2(NatToDecimal(m)) + (if h >= 12 then " PM" else " AM")
  {
    DisplayHoursOf(h);
    var lead := NatToDecimal(if h % 12 == 0 then 12 else h % 12) + ":" + PadStart2(NatToDecimal(m));
    var period := if h >= 12 then "PM" else "AM";
    assert FormatFields(Int(h), Int(m)) == lead + " " + period;
    assert lead + " " + period == lead + (if h >= 12 then " PM" else " AM");
  }

  /** The display of a clock time made of two digit runs, in terms of its hour and minute. */
  lemma FormatClock(hh: string, mm: string, h: nat, m: nat)
    requires AllDigits(hh) && AllDigits(mm) && DigitsValue(hh) == h && DigitsValue(mm) == m
    ensures FormatTimeDisplay(hh + ":" + mm)
            == Some(NatToDecimal(if h % 12 == 0 then 12 else h % 12) + ":"
                    + PadStart2(NatToDecimal(m)) + (if h >= 12 then " PM" else " AM"))
  {
    DigitsHaveNoColon(hh);
    DigitsHaveNoColon(mm);
    FieldsOf(hh, mm);
    ParseDigits(hh);
    ParseDigits(mm);
    assert TimeFields(hh + ":" + mm) == [Int(h), Int(m)];
    assert FormatTimeDisplay(hh + ":" + mm) == Some(FormatFields(Int(h), Int(m)));
    FormatFieldsOf(h, m);
  }

  /** Two decimal digits read as their two-digit value. */
  lemma TwoDigits(s: string, d1: nat, d0: nat)
    requires d1 < 10 && d0 < 10 && s == [DigitChar(d1), DigitChar(d0)]
    ensures AllDigits(s) && DigitsValue(s) == 10 * d1 + d0
  {
    var first := s[..1];
    assert first == [DigitChar(d1)] && first[..0] == [];
    assert DigitsValue(first) == d1;
  }

  /** Hour 0 displays as 12 AM. */
  lemma FormatMidnightHour(hh: string, mm: string, m: nat)
    requires AllDigits(hh) && AllDigits(mm) && DigitsValue(hh) == 0 && DigitsValue(mm) == m
    ensures FormatTimeDisplay(hh + ":" + mm) == Some("12" + ":" + PadStart2(NatToDecimal(m)) + " AM")
  {
    FormatClock(hh, mm, 0, m);
    TwelveText();
  }

  /** Hour 12 displays as 12 PM. */
  lemma FormatNoonHour(hh: string, mm: string, m: nat)
    requires AllDigits(hh) && AllDigits(mm) && DigitsValue(hh) == 12 && DigitsValue(mm) == m
    ensures FormatTimeDisplay(hh + ":" + mm) == Some("12" + ":" + PadStart2(NatToDecimal(m)) + " PM")
  {
    FormatClock(hh, mm, 12, m);
    TwelveText();
  }

  /** Afternoon hours lose 12 and show PM, without a leading zero. */
  lemma FormatAfternoonHour(hh: string, mm: string, h: nat, m: nat)
    requires AllDigits(hh) && AllDigits(mm) && DigitsValue(hh) == h && DigitsValue(mm) == m
    requires 12 < h < 24
    ensures FormatTimeDisplay(hh + ":" + mm) == Some(NatToDecimal(h - 12) + ":" + PadStart2(NatToDecimal(m)) + " PM")
  {
    Mod12(h, 1, h - 12);
    FormatClock(hh, mm, h, m);
  }

  /** Morning hours lose their leading zero and show AM. */
  lemma FormatMorningHour(hh: string, mm: string, h: nat, m: nat)
    requires AllDigits(hh) && AllDigits(mm) && DigitsValue(hh) == h && DigitsValue(mm) == m
    requires 0 < h < 12
    ensures FormatTimeDisplay(hh + ":" + mm) == Some(NatToDecimal(h) + ":" + PadStart2(NatToDecimal(m)) + " AM")
  {
    Mod12(h, 0, h);
    FormatClock(hh, mm, h, m);
  }

  // ---------------------------------------------------------------------
  // The visible window of time slots
  // ---------------------------------------------------------------------

  /** The label of slot `i`: the zero-padded clock time `03:30 + 30 * i`. */
  function SlotLabel(i: nat): string {
    MinutesToTime(Int(GridStart + SlotLength * i))
  }

  /** The slots `generateTimeSlots` returns. */
  function TimeSlots(): (slots: seq<string>)
    ensures |slots| == SlotCount
  {
    seq(SlotCount, i requires 0 <= i < SlotCount => SlotLabel(i))
  }

  /** `generateTimeSlots`: every half hour from 03:30 up to and including 22:00. */
  method GenerateTimeSlots() returns (slots: seq<string>)
    ensures |slots| == SlotCount
    ensures slots == TimeSlots()
  {
    slots := [];
    var minutes := GridStart;
    while minutes <= GridEnd
      invariant GridStart <= minutes <= GridEnd + SlotLength
      invariant minutes == GridStart + SlotLength * |slots|
      invariant forall i :: 0 <= i < |slots| ==> slots[i] == SlotLabel(i)
    {
      var hours := minutes / 60;
      var mins := minutes % 60;
      var timeString := PadStart2(NatToDecimal(hours)) + ":" + PadStart2(NatToDecimal(mins));
      NextSlot(slots, minutes, timeString);
      slots := slots + [timeString];
      minutes := minutes + SlotLength;
    }
    assert |slots| == SlotCount;
  }

  /** The label built from the next minute count extends the slots built so far. */
  lemma NextSlot(slots: seq<string>, minutes: nat, timeString: string)
    requires minutes == GridStart + SlotLength * |slots|
    requires forall i :: 0 <= i < |slots| ==> slots[i] == SlotLabel(i)
    requires timeString == PadStart2(NatToDecimal(minutes / 60)) + ":" + PadStart2(NatToDecimal(minutes % 60))
    ensures forall i :: 0 <= i < |slots + [timeString]| ==> (slots + [timeString])[i] == SlotLabel(i)
  {
    SlotText(|slots|, minutes);
    AppendFollows(slots, timeString, SlotLabel);
  }

  /** The label of slot `n` spelled out from its minute count. */
  lemma SlotText(n: nat, minutes: nat)
    requires minutes == GridStart + SlotLength * n
    ensures SlotLabel(n) == PadStart2(NatToDecimal(minutes / 60)) + ":" + PadStart2(NatToDecimal(minutes % 60))
  {
    MinutesToTimeOfNat(minutes);
  }

  /** Appending the next element keeps a sequence equal to `f` pointwise. */
  lemma AppendFollows<T>(s: seq<T>, x: T, f: nat -> T)
    requires forall i :: 0 <= i < |s| ==> s[i] == f(i)
    requires x == f(|s|)
    ensures forall i :: 0 <= i < |s + [x]| ==> (s + [x])[i] == f(i)
  {
  }

  /** Slot `i` is a five-character `HH:MM` string. */
  lemma SlotIsPadded(i: nat)
    requires i < SlotCount
    ensures |SlotLabel(i)| == 5 && SlotLabel(i)[2] == ':'
    ensures AllDigits(SlotLabel(i)[..2]) && AllDigits(SlotLabel(i)[3..])
  {
    var m := GridStart + SlotLength * i;
    assert m < 6000;
    var hh, mm := MinutesToTimeDigits(m);
    var s := hh + ":" + mm;
    assert SlotLabel(i) == s;
    assert s[..2] == hh && s[3..] == mm;
  }

  /** Slot `i` reads back as minute `210 + 30 * i`, so neighbouring slots are 30 minutes apart. */
  lemma SlotMinutes(i: nat)
    ensures TimeToMinutes(SlotLabel(i)) == Int(GridStart + SlotLength * i)
  {
    MinutesRoundTrip(GridStart + SlotLength * i);
  }

  /** Slot `i` sits in grid row `i`. */
  lemma SlotRow(i: nat)
    ensures MinutesToGridRow(TimeToMinutes(SlotLabel(i))) == Int(i)
  {
    SlotMinutes(i);
    RowOfSlotMinute(TimeToMinutes(SlotLabel(i)), i);
  }

  /** The minute that starts slot `i` lies in row `i`. */
  lemma RowOfSlotMinute(minutes: Num, i: nat)
    requires minutes == Int(GridStart + SlotLength * i)
    ensures MinutesToGridRow(minutes) == Int(i)
  {
    assert (SlotLength * i) / SlotLength == i;
  }

  /** The window starts with "03:30". */
  lemma FirstSlot()
    ensures TimeSlots()[0] == "03:30"
  {
    assert TimeSlots()[0] == SlotLabel(0);
    ClockText(GridStart, 0, 3, 3, 0);
  }

  /** The window ends with "22:00", the label of minute 1320. */
  lemma LastSlot()
    ensures TimeSlots()[SlotCount - 1] == "22:00"
  {
    assert TimeSlots()[SlotCount - 1] == SlotLabel(SlotCount - 1);
    ClockText(GridEnd, 2, 2, 0, 0);
  }

  /** A minute count whose hour and minute have the digits `h1 h0` and `m1 m0` renders as "h1h0:m1m0". */
  lemma ClockText(minutes: nat, h1: nat, h0: nat, m1: nat, m0: nat)
    requires h1 < 10 && h0 < 10 && m1 < 6 && m0 < 10
    requires minutes == 60 * (10 * h1 + h0) + 10 * m1 + m0
    ensures MinutesToTime(Int(minutes)) == [DigitChar(h1), DigitChar(h0), ':', DigitChar(m1), DigitChar(m0)]
  {
    var h := 10 * h1 + h0;
    var m := 10 * m1 + m0;
    DivMod60(minutes, h, m);
    MinutesToTimeOfNat(minutes);
    PaddedDigits(h, h1, h0);
    PaddedDigits(m, m1, m0);
  }

  /** A number below 100 renders, padded, as its two digits. */
  lemma PaddedDigits(n: nat, d1: nat, d0: nat)
    requires d1 < 10 && d0 < 10 && n == 10 * d1 + d0
    ensures PadStart2(NatToDecimal(n)) == [DigitChar(d1), DigitChar(d0)]
  {
    if d1 == 0 {
      assert NatToDecimal(n) == [DigitChar(d0)];
      assert "0" == [DigitChar(0)];
    } else {
      DivMod10(n, d1, d0);
      assert NatToDecimal(n) == [DigitChar(d1)] + [DigitChar(d0)];
    }
  }

  /** Twelve renders as "12". */
  lemma TwelveText()
    ensures NatToDecimal(12) == "12"
  {
    DivMod10(12, 1, 2);
  }
}
