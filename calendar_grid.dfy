/**
 * The week view of components/CalendarGrid.tsx: where an activity block sits
 * in the CSS grid (column per day, one row per 30-minute slot after a header
 * row), the duration label it shows, and its colour class and icon.
 */
module CalendarGrid {
  import opened Wrappers
  import opened Js
  import opened TimeUtils
  import opened ScheduleTypes

  /** The grid lines a block spans: `gridRowStart` / `gridRowEnd`. */
  datatype RowSpan = RowSpan(rowStart: Num, rowEnd: Num)

  /** The end used for layout: an activity that ends before it starts is drawn up to 22:00. */
  function LayoutEnd(start: Num, end: Num): (e: Num)
    ensures Less(end, start) ==> e == Int(GridEnd)
    ensures !Less(end, start) ==> e == end
  {
    if Less(end, start) then Int(GridEnd) else end
  }

  /** The grid row of slot `i`: the header takes row 1. */
  function SlotGridRow(i: nat): int {
    i + 2
  }

  /** The grid column of day `i` of the week: the time labels take column 1. */
  function DayGridColumn(i: nat): int {
    i + 2
  }

  /** `getActivityStyle`: the row of the start's slot, up to the row line at or after the end. */
  function ActivityStyle(startTime: string, endTime: string): (s: RowSpan)
    ensures var start := TimeToMinutes(startTime);
            start.Int? ==> s.rowStart.Int? && GridStart + SlotLength * (s.rowStart.v - 2) <= start.v
                           && start.v < GridStart + SlotLength * (s.rowStart.v - 1)
    ensures var end := LayoutEnd(TimeToMinutes(startTime), TimeToMinutes(endTime));
            end.Int? ==> s.rowEnd.Int? && GridStart + SlotLength * (s.rowEnd.v - 3) < end.v
                         && end.v <= GridStart + SlotLength * (s.rowEnd.v - 2)
  {
    var start := TimeToMinutes(startTime);
    var end := LayoutEnd(start, TimeToMinutes(endTime));
    RowSpan(Add(FloorDiv(Sub(start, Int(GridStart)), SlotLength), Int(2)),
            Add(CeilDiv(Sub(end, Int(GridStart)), SlotLength), Int(2)))
  }

  /** The start row is the slot row `minutesToGridRow` names, shifted past the header. */
  lemma StyleStartsAtGridRow(startTime: string, endTime: string)
    ensures ActivityStyle(startTime, endTime).rowStart == Add(MinutesToGridRow(TimeToMinutes(startTime)), Int(2))
  {
  }

  /** A block that starts at a slot's label starts in that slot's row. */
  lemma StyleStartsAtSlot(i: nat, endTime: string)
    requires i < SlotCount
    ensures ActivityStyle(SlotLabel(i), endTime).rowStart == Int(SlotGridRow(i))
  {
    SlotMinutes(i);
    StyleStartsAtGridRow(SlotLabel(i), endTime);
    RowOfSlotMinute(TimeToMinutes(SlotLabel(i)), i);
  }

  /**
   * Inside the window a block lies within the slot rows, never ends above its
   * start, and spans at least one row when it lasts more than no time.
   */
  lemma StyleWithinWindow(startTime: string, endTime: string)
    requires TimeToMinutes(startTime).Int? && TimeToMinutes(endTime).Int?
    requires GridStart <= TimeToMinutes(startTime).v <= GridEnd
    requires GridStart <= TimeToMinutes(endTime).v <= GridEnd
    ensures var s := ActivityStyle(startTime, endTime);
            && 2 <= s.rowStart.v <= SlotGridRow(SlotCount - 1)
            && 2 <= s.rowEnd.v <= SlotGridRow(SlotCount - 1)
            && s.rowStart.v <= s.rowEnd.v
    ensures var s := ActivityStyle(startTime, endTime);
            TimeToMinutes(startTime).v < LayoutEnd(TimeToMinutes(startTime), TimeToMinutes(endTime)).v
            ==> s.rowStart.v < s.rowEnd.v
  {
  }

  /** An overnight block that starts at 22:00 starts and ends on the same row line. */
  lemma LateOvernightSpansNothing(startTime: string, endTime: string)
    requires TimeToMinutes(startTime) == Int(GridEnd)
    requires TimeToMinutes(endTime).Int? && TimeToMinutes(endTime).v < GridEnd
    ensures ActivityStyle(startTime, endTime) == RowSpan(Int(SlotGridRow(SlotCount - 1)), Int(SlotGridRow(SlotCount - 1)))
  {
  }

  // ---------------------------------------------------------------------
  // Duration labels
  // ---------------------------------------------------------------------

  /** `calculateDuration`: "Mm" under an hour, "Hh" on the hour, "Hh Mm" otherwise. */
  function CalculateDuration(startTime: string, endTime: string): string {
    DurationFromMinutes(TimeToMinutes(startTime), TimeToMinutes(endTime))
  }

  function DurationFromMinutes(start: Num, endMinutes: Num): string {
    var end := LayoutEnd(start, endMinutes);
    var duration := Sub(end, start);
    var hours := FloorDiv(duration, 60);
    var minutes := Rem(duration, 60);
    if StrictEq(hours, Int(0)) then NumToString(minutes) + "m"
    else if StrictEq(minutes, Int(0)) then NumToString(hours) + "h"
    else NumToString(hours) + "h " + NumToString(minutes) + "m"
  }

  /** The minutes a label part such as "45m" or "2h" stands for. */
  function PartMinutes(p: string): Option<nat> {
    if |p| < 2 || !AllDigits(p[..|p| - 1]) then None
    else if p[|p| - 1] == 'h' then Some(60 * DigitsValue(p[..|p| - 1]))
    else if p[|p| - 1] == 'm' then Some(DigitsValue(p[..|p| - 1]))
    else None
  }

  /** Reading a duration label back: one or two space-separated parts, their minutes summed. */
  function ReadDuration(text: string): Option<nat> {
    var parts := Split(text, ' ');
    if |parts| == 1 then PartMinutes(parts[0])
    else if |parts| == 2 && PartMinutes(parts[0]).Some? && PartMinutes(parts[1]).Some? then
      Some(PartMinutes(parts[0]).value + PartMinutes(parts[1]).value)
    else None
  }

  lemma {:induction false} PartOf(digits: string, unit: char)
    requires AllDigits(digits) && |digits| >= 1 && (unit == 'h' || unit == 'm')
    ensures ' ' !in digits + [unit]
    ensures PartMinutes(digits + [unit]) == Some(if unit == 'h' then 60 * DigitsValue(digits) else DigitsValue(digits))
  {
    var p := digits + [unit];
    assert p[..|p| - 1] == digits;
  }

  /** The label of a non-negative duration reads back as that duration. */
  lemma DurationRoundTrip(startTime: string, endTime: string)
    requires TimeToMinutes(startTime).Int? && TimeToMinutes(endTime).Int?
    requires TimeToMinutes(startTime).v <= LayoutEnd(TimeToMinutes(startTime), TimeToMinutes(endTime)).v
    ensures ReadDuration(CalculateDuration(startTime, endTime))
            == Some(LayoutEnd(TimeToMinutes(startTime), TimeToMinutes(endTime)).v - TimeToMinutes(startTime).v)
  {
    var start := TimeToMinutes(startTime);
    var d: nat := LayoutEnd(start, TimeToMinutes(endTime)).v - start.v;
    LabelReadsBack(start, TimeToMinutes(endTime), d);
  }

  /** The label computed from numeric minutes reads back as their difference. */
  lemma LabelReadsBack(start: Num, endMinutes: Num, d: nat)
    requires start.Int? && LayoutEnd(start, endMinutes).Int?
    requires d == LayoutEnd(start, endMinutes).v - start.v
    ensures ReadDuration(DurationFromMinutes(start, endMinutes)) == Some(d)
  {
    DurationText(start, endMinutes, d);
    ReadDurationText(d);
  }

  /** The label spelled out for a duration of `d` minutes. */
  function DurationLabel(d: nat): string {
    if d / 60 == 0 then NatToDecimal(d % 60) + "m"
    else if d % 60 == 0 then NatToDecimal(d / 60) + "h"
    else NatToDecimal(d / 60) + "h " + NatToDecimal(d % 60) + "m"
  }

  lemma DurationText(start: Num, endMinutes: Num, d: nat)
    requires start.Int? && LayoutEnd(start, endMinutes).Int?
    requires d == LayoutEnd(start, endMinutes).v - start.v
    ensures DurationFromMinutes(start, endMinutes) == DurationLabel(d)
  {
  }

  lemma ReadDurationText(d: nat)
    ensures ReadDuration(DurationLabel(d)) == Some(d)
  {
    var h, m := NatToDecimal(d / 60), NatToDecimal(d % 60);
    DecimalRoundTrip(d / 60);
    DecimalRoundTrip(d % 60);
    PartOf(h, 'h');
    PartOf(m, 'm');
    if d / 60 == 0 {
      SplitNoSeparator(m + "m", ' ');
    } else if d % 60 == 0 {
      SplitNoSeparator(h + "h", ' ');
    } else {
      assert DurationLabel(d) == (h + "h") + [' '] + (m + "m");
      SplitOnce(h + "h", ' ', m + "m");
    }
  }

  /** Inside the window no duration is negative or longer than the window. */
  lemma DurationInsideWindow(startTime: string, endTime: string)
    requires TimeToMinutes(startTime).Int? && TimeToMinutes(endTime).Int?
    requires GridStart <= TimeToMinutes(startTime).v <= GridEnd
    requires GridStart <= TimeToMinutes(endTime).v <= GridEnd
    ensures 0 <= LayoutEnd(TimeToMinutes(startTime), TimeToMinutes(endTime)).v - TimeToMinutes(startTime).v
              <= GridEnd - GridStart
  {
  }

  /** A start time that does not read as a number makes every step NaN, shown as "NaNh NaNm". */
  lemma DurationOfMalformedStart(startTime: string, endTime: string)
    requires TimeToMinutes(startTime).NaN?
    ensures CalculateDuration(startTime, endTime) == "NaNh NaNm"
  {
    DurationOfNaN(TimeToMinutes(endTime));
  }

  lemma DurationOfNaN(end: Num)
    ensures DurationFromMinutes(NaN, end) == "NaNh NaNm"
  {
  }

  /** An hour without a minutes field, such as "9", is such a time. */
  lemma HourOnlyIsNaN()
    ensures TimeToMinutes("9").NaN?
  {
    SplitNoSeparator("9", ':');
  }

  // ---------------------------------------------------------------------
  // Category styling
  // ---------------------------------------------------------------------

  /** The categories with their own colour class and icon. */
  const StyledCategories: seq<string> := [
    "gym", "ai-learning", "simmer", "job-apps", "guitar",
    "office", "family", "sleep", "breakfast", "commute"]

  const CategoryIcons: map<string, string> := map[
    "gym" := "💪", "ai-learning" := "🧠", "simmer" := "✨", "job-apps" := "💼",
    "guitar" := "🎸", "office" := "💻", "family" := "👨‍👩‍👧", "sleep" := "😴",
    "breakfast" := "🍳", "commute" := "🚗"]

  /** `getCategoryClass`: "bg-<category>" for a styled category, else the grey class. */
  function CategoryClass(category: string): (c: string)
    ensures category in StyledCategories ==> c == "bg-" + category
    ensures category !in StyledCategories ==> c == "bg-gray-200"
  {
    if category in StyledCategories then "bg-" + category else "bg-gray-200"
  }

  /** `getCategoryIcon`: the category's icon, else a pin. */
  function CategoryIcon(category: string): (icon: string)
    ensures category in CategoryIcons ==> icon == CategoryIcons[category]
    ensures category !in CategoryIcons ==> icon == "📌"
  {
    if category in CategoryIcons then CategoryIcons[category] else "📌"
  }

  /** The icons and the colour classes cover the same categories. */
  lemma IconsMatchClasses(category: string)
    ensures category in CategoryIcons <==> category in StyledCategories
  {
  }

  // ---------------------------------------------------------------------
  // Activity blocks
  // ---------------------------------------------------------------------

  /** One rendered block: an activity placed in the column of one of its days. */
  datatype Block = Block(activity: Activity, day: string, column: int)

  /** What a block shows and where its rows are. */
  datatype BlockView = BlockView(
    key: string,
    span: RowSpan,
    categoryClass: string,
    icon: string,
    name: string,
    duration: string,
    startLabel: Option<string>,
    endLabel: Option<string>)

  /** The block of an activity on one day of the week: column `dayIndex + 2`. */
  function BlockFor(a: Activity, day: string): (b: Block)
    requires day in Days
    ensures 2 <= b.column <= 8
  {
    Block(a, day, DayIndex(day) + 2)
  }

  /** A block sits in the column under its own day's header. */
  lemma BlockUnderItsDay(a: Activity, day: string)
    requires day in Days
    ensures BlockFor(a, day).column == DayGridColumn(DayIndex(day))
    ensures Days[BlockFor(a, day).column - 2] == day
  {
  }

  /**
   * What the grid draws for a block (CalendarGrid.tsx's block `div`): its key,
   * its rows, its colour class and icon, the name, the duration label and the
   * two time labels.
   */
  function View(b: Block): (v: BlockView)
    ensures v.key == BlockKey(b) && v.name == b.activity.name
    ensures v.span == ActivityStyle(b.activity.startTime, b.activity.endTime)
    ensures v.duration == CalculateDuration(b.activity.startTime, b.activity.endTime)
  {
    var a := b.activity;
    BlockView(BlockKey(b), ActivityStyle(a.startTime, a.endTime),
              CategoryClass(a.category), CategoryIcon(a.category), a.name,
              CalculateDuration(a.startTime, a.endTime),
              FormatTimeDisplay(a.startTime), FormatTimeDisplay(a.endTime))
  }

  /** The React key of a block: `${activity.id}-${day}`. */
  function BlockKey(b: Block): string {
    b.activity.id + "-" + b.day
  }

  /** No weekday name holds a dash. */
  lemma NoDashInWeekday(day: string)
    requires day in Days
    ensures '-' !in day
  {
  }

  /** In `<id>-<day>` the dash before the day is the last one. */
  lemma KeyDash(id: string, day: string)
    requires '-' !in day
    ensures LastIndexOf(id + "-" + day, '-') == Some(|id|)
  {
    var k := id + "-" + day;
    assert k[|id|] == '-' && k[|id| + 1..] == day;
    LastIndexAt(k, '-', |id|);
  }

  /** `<id>-<day>` with a dash-free day splits back into the id and the day. */
  lemma KeySplit(id1: string, day1: string, id2: string, day2: string)
    requires '-' !in day1 && '-' !in day2
    ensures id1 + "-" + day1 == id2 + "-" + day2 <==> id1 == id2 && day1 == day2
  {
    KeyDash(id1, day1);
    KeyDash(id2, day2);
    var k1, k2 := id1 + "-" + day1, id2 + "-" + day2;
    var n := |id1|;
    assert k1 == k2 ==> id1 == k1[..n] && id2 == k2[..n];
    assert k1 == k2 ==> day1 == k1[n + 1..] && day2 == k2[n + 1..];
  }

  /**
   * Two blocks on weekdays get the same key exactly when they show the same
   * activity id on the same day, so distinct (id, day) pairs never share a key.
   */
  lemma BlockKeys(b1: Block, b2: Block)
    requires b1.day in Days && b2.day in Days
    ensures BlockKey(b1) == BlockKey(b2) <==> b1.activity.id == b2.activity.id && b1.day == b2.day
  {
    NoDashInWeekday(b1.day);
    NoDashInWeekday(b2.day);
    KeySplit(b1.activity.id, b1.day, b2.activity.id, b2.day);
  }

  /** `activity.days.map(...)`: a block per day of the week, nothing for an unknown day. */
  function ActivityBlocks(a: Activity, days: seq<string>): (bs: seq<Block>)
    ensures |bs| <= |days|
  {
    if days == [] then []
    else
      var rest := ActivityBlocks(a, days[1..]);
      if days[0] in Days then [BlockFor(a, days[0])] + rest else rest
  }

  /** `data.activities.map(...)`, flattened. */
  function Blocks(activities: seq<Activity>): seq<Block> {
    if activities == [] then []
    else ActivityBlocks(activities[0], activities[0].days) + Blocks(activities[1..])
  }

  lemma {:induction false} ActivityBlocksExactly(a: Activity, days: seq<string>, b: Block)
    ensures b in ActivityBlocks(a, days) <==> exists d :: d in days && d in Days && b == BlockFor(a, d)
  {
    if days != [] {
      ActivityBlocksExactly(a, days[1..], b);
      assert forall d :: d in days <==> d == days[0] || d in days[1..];
    }
  }

  /**
   * There is a block for every activity on every weekday it names, and every
   * block is one of these.
   */
  lemma {:induction false} BlocksExactly(activities: seq<Activity>, b: Block)
    ensures b in Blocks(activities) <==>
              exists i, d :: 0 <= i < |activities| && d in activities[i].days && d in Days
                             && b == BlockFor(activities[i], d)
  {
    if activities != [] {
      var a := activities[0];
      ActivityBlocksExactly(a, a.days, b);
      BlocksExactly(activities[1..], b);
      if exists i, d :: 0 <= i < |activities| && d in activities[i].days && d in Days
                        && b == BlockFor(activities[i], d) {
        var i, d :| 0 <= i < |activities| && d in activities[i].days && d in Days
                    && b == BlockFor(activities[i], d);
        if i > 0 {
          assert activities[1..][i - 1] == activities[i];
        }
      }
      if b in Blocks(activities[1..]) {
        var i, d :| 0 <= i < |activities[1..]| && d in activities[1..][i].days && d in Days
                    && b == BlockFor(activities[1..][i], d);
        assert activities[i + 1] == activities[1..][i];
      }
    }
  }

  /** Every block sits in one of the seven day columns. */
  lemma {:induction false} BlockColumns(activities: seq<Activity>)
    ensures forall b :: b in Blocks(activities) ==> 2 <= b.column <= 8 && b.day in Days
  {
    forall b | b in Blocks(activities)
      ensures 2 <= b.column <= 8 && b.day in Days
    {
      BlocksExactly(activities, b);
    }
  }

  /** An activity whose days are all weekday names yields exactly one block per day. */
  lemma {:induction false} OneBlockPerDay(a: Activity, days: seq<string>)
    requires forall k :: 0 <= k < |days| ==> days[k] in Days
    ensures |ActivityBlocks(a, days)| == |days|
    ensures forall k :: 0 <= k < |days| ==> ActivityBlocks(a, days)[k] == BlockFor(a, days[k])
  {
    if days != [] {
      OneBlockPerDay(a, days[1..]);
    }
  }
}
