/**
 * The calendar exports of components/ExportDropdown.tsx: the CSV table (one
 * row per activity and listed day, quoted cells) and the list of calendar
 * events (one per activity and weekday, titled with the category's emoji and
 * carrying a 15-minute reminder).
 */
module ExportDropdown {
  import opened Wrappers
  import opened Js
  import opened TimeUtils
  import opened ScheduleTypes
  import CalendarGrid

  // ---------------------------------------------------------------------
  // CSV durations
  // ---------------------------------------------------------------------

  /**
   * The CSV `calculateDuration`: end minus start with no overnight
   * adjustment, shown as "<h>h" on a whole hour and "<h>h <m>m" otherwise,
   * with `Math.floor` and the truncating `%` on negative spans.
   */
  function CsvDuration(startTime: string, endTime: string): string {
    CsvDurationOf(Sub(TimeToMinutes(endTime), TimeToMinutes(startTime)))
  }

  function CsvDurationOf(duration: Num): string {
    var hours := FloorDiv(duration, 60);
    var minutes := Rem(duration, 60);
    if StrictEq(minutes, Int(0)) then NumToString(hours) + "h"
    else NumToString(hours) + "h " + NumToString(minutes) + "m"
  }

  /** With readable times the CSV duration is that of the plain difference. */
  lemma CsvDurationOfTimes(startTime: string, endTime: string, s: int, e: int)
    requires TimeToMinutes(startTime) == Int(s) && TimeToMinutes(endTime) == Int(e)
    ensures CsvDuration(startTime, endTime) == CsvDurationOf(Int(e - s))
  {
    assert Sub(TimeToMinutes(endTime), TimeToMinutes(startTime)) == Int(e - s);
  }

  /** A non-negative CSV duration reads back as its number of minutes. */
  lemma CsvDurationRoundTrip(d: nat)
    ensures CalendarGrid.ReadDuration(CsvDurationOf(Int(d))) == Some(d)
  {
    if d >= 60 {
      CsvMatchesGridFromOneHour(d);
      CalendarGrid.ReadDurationText(d);
    } else if d == 0 {
      assert CsvDurationOf(Int(d)) == "0" + "h";
      CalendarGrid.PartOf("0", 'h');
      SplitNoSeparator("0" + "h", ' ');
    } else {
      CsvUnderAnHour(d);
      CalendarGrid.ReadDurationText(d);
      ZeroHourPart(CalendarGrid.DurationLabel(d), d);
    }
  }

  /** A leading "0h " adds nothing to a one-part label. */
  lemma ZeroHourPart(text: string, d: nat)
    requires ' ' !in text && CalendarGrid.ReadDuration(text) == Some(d)
    ensures CalendarGrid.ReadDuration("0h " + text) == Some(d)
  {
    SplitNoSeparator(text, ' ');
    CalendarGrid.PartOf("0", 'h');
    assert "0h " + text == ("0" + "h") + [' '] + text;
    SplitOnce("0" + "h", ' ', text);
  }

  /** From one hour on, the CSV and the calendar show the same label. */
  lemma CsvMatchesGridFromOneHour(d: nat)
    requires d >= 60
    ensures CsvDurationOf(Int(d)) == CalendarGrid.DurationLabel(d)
  {
  }

  /** Under an hour, the CSV has no "<m>m" form: it shows "0h <m>m" where the calendar shows "<m>m". */
  lemma CsvUnderAnHour(d: nat)
    requires 0 < d < 60
    ensures CsvDurationOf(Int(d)) == "0h " + CalendarGrid.DurationLabel(d)
  {
    assert NatToDecimal(0) == "0";
  }

  /** A span across midnight of whole hours shows as a negative hour count. */
  lemma CsvOvernightWholeHours(k: nat)
    requires k >= 1
    ensures CsvDurationOf(Int(-60 * k)) == "-" + NatToDecimal(k) + "h"
  {
    var d := -60 * k;
    OvernightArithmetic(k);
    CsvWholeHours(d, -(k as int));
  }

  lemma OvernightArithmetic(k: nat)
    requires k >= 1
    ensures FloorDiv(Int(-60 * k), 60) == Int(-(k as int)) && Rem(Int(-60 * k), 60) == Int(0)
  {
    assert (-60 * k) / 60 == -(k as int);
    assert (60 * k) % 60 == 0;
  }

  /** A duration that is a whole number of hours shows as that number and "h". */
  lemma CsvWholeHours(d: int, h: int)
    requires FloorDiv(Int(d), 60) == Int(h) && Rem(Int(d), 60) == Int(0)
    ensures CsvDurationOf(Int(d)) == IntToString(h) + "h"
  {
  }

  /** A negative span shorter than an hour shows both parts negative: "-1h -<m>m". */
  lemma CsvNegativeUnderAnHour(d: int)
    requires -60 < d < 0
    ensures CsvDurationOf(Int(d)) == "-" + NatToDecimal(1) + "h -" + NatToDecimal(-d) + "m"
  {
    assert FloorDiv(Int(d), 60) == Int(-1);
    assert Rem(Int(d), 60) == Int(d);
  }

  // ---------------------------------------------------------------------
  // The nested walk over activities and their days
  // ---------------------------------------------------------------------

  /** What the `activity.days.forEach` callback adds for one activity on one listed day. */
  function DayItemsOf<T>(a: Activity, days: seq<string>, f: (Activity, string) -> seq<T>): seq<T> {
    if days == [] then [] else f(a, days[0]) + DayItemsOf(a, days[1..], f)
  }

  /** What the nested `forEach` adds over all activities, in list order. */
  function DayItems<T>(activities: seq<Activity>, f: (Activity, string) -> seq<T>): seq<T> {
    if activities == [] then []
    else DayItemsOf(activities[0], activities[0].days, f) + DayItems(activities[1..], f)
  }

  lemma {:induction false} DayItemsOfAppend<T>(a: Activity, days: seq<string>, day: string,
                                               f: (Activity, string) -> seq<T>)
    ensures DayItemsOf(a, days + [day], f) == DayItemsOf(a, days, f) + f(a, day)
  {
    if days == [] {
      assert DayItemsOf(a, [day][1..], f) == [];
    } else {
      assert (days + [day])[1..] == days[1..] + [day];
      DayItemsOfAppend(a, days[1..], day, f);
    }
  }

  /** The items of two lists of activities are the items of each, one after the other. */
  lemma {:induction false} DayItemsAppend<T>(xs: seq<Activity>, ys: seq<Activity>, f: (Activity, string) -> seq<T>)
    ensures DayItems(xs + ys, f) == DayItems(xs, f) + DayItems(ys, f)
  {
    if xs == [] {
      assert xs + ys == ys;
    } else {
      assert (xs + ys)[1..] == xs[1..] + ys;
      DayItemsAppend(xs[1..], ys, f);
    }
  }

  /** The nested loop of the CSV and calendar exports, with the callback's additions collected. */
  method CollectDayItems<T>(activities: seq<Activity>, f: (Activity, string) -> seq<T>) returns (items: seq<T>)
    ensures items == DayItems(activities, f)
  {
    items := [];
    var i := 0;
    while i < |activities|
      invariant 0 <= i <= |activities|
      invariant items == DayItems(activities[..i], f)
    {
      var a := activities[i];
      var j := 0;
      while j < |a.days|
        invariant 0 <= j <= |a.days|
        invariant items == DayItems(activities[..i], f) + DayItemsOf(a, a.days[..j], f)
      {
        DayItemsOfAppend(a, a.days[..j], a.days[j], f);
        assert a.days[..j + 1] == a.days[..j] + [a.days[j]];
        items := items + f(a, a.days[j]);
        j := j + 1;
      }
      assert a.days[..j] == a.days;
      DayItemsAppend(activities[..i], [a], f);
      assert DayItems([a], f) == DayItemsOf(a, a.days, f) + DayItems([a][1..], f);
      assert activities[..i + 1] == activities[..i] + [a];
      i := i + 1;
    }
    assert activities[..i] == activities;
  }

  // ---------------------------------------------------------------------
  // CSV rows and text
  // ---------------------------------------------------------------------

  const Headers: seq<string> := ["Day", "Time", "Activity", "Category", "Duration"]

  /** The row of one activity on one listed day. */
  function CsvRow(a: Activity, day: string): (row: seq<string>)
    ensures |row| == |Headers|
    ensures row[0] == day && row[2] == a.name && row[3] == a.category
  {
    [day, a.startTime + " - " + a.endTime, a.name, a.category, CsvDuration(a.startTime, a.endTime)]
  }

  /** The callback of the CSV export: one row, whatever the day's name. */
  function RowsOn(a: Activity, day: string): seq<seq<string>> {
    [CsvRow(a, day)]
  }

  /** The rows of all activities, one per activity and listed day. */
  function CsvRows(activities: seq<Activity>): seq<seq<string>> {
    DayItems(activities, RowsOn)
  }

  /** An activity's rows are its days' rows in the order the days are listed. */
  lemma {:induction false} RowsOfActivity(a: Activity, days: seq<string>)
    ensures |DayItemsOf(a, days, RowsOn)| == |days|
    ensures forall k :: 0 <= k < |days| ==> DayItemsOf(a, days, RowsOn)[k] == CsvRow(a, days[k])
  {
    if days != [] {
      RowsOfActivity(a, days[1..]);
    }
  }

  /** `rows` after the CSV export's loops: the header, then every activity's rows. */
  method BuildCsvRows(activities: seq<Activity>) returns (rows: seq<seq<string>>)
    ensures rows == [Headers] + CsvRows(activities)
  {
    var body := CollectDayItems(activities, RowsOn);
    rows := [Headers] + body;
  }

  /** A cell wrapped in double quotes; quotes inside it are not escaped. */
  function Quote(cell: string): (q: string)
    ensures |q| == |cell| + 2 && q[0] == '"' && q[|q| - 1] == '"' && q[1..|q| - 1] == cell
  {
    "\"" + cell + "\""
  }

  /** One CSV line: the quoted cells joined by commas. */
  function CsvLine(row: seq<string>): string {
    Join(QuotedCells(row), ",")
  }

  function QuotedCells(row: seq<string>): (cells: seq<string>)
    ensures |cells| == |row|
    ensures forall k :: 0 <= k < |row| ==> cells[k] == Quote(row[k])
  {
    seq(|row|, k requires 0 <= k < |row| => Quote(row[k]))
  }

  /** The CSV text: the lines joined by newlines. */
  function CsvContent(rows: seq<seq<string>>): string {
    Join(CsvLines(rows), "\n")
  }

  function CsvLines(rows: seq<seq<string>>): (lines: seq<string>)
    ensures |lines| == |rows|
    ensures forall k :: 0 <= k < |rows| ==> lines[k] == CsvLine(rows[k])
  {
    seq(|rows|, k requires 0 <= k < |rows| => CsvLine(rows[k]))
  }

  /** A character absent from every part and from the separator is absent from their join. */
  lemma {:induction false} JoinAvoids(parts: seq<string>, sep: string, c: char)
    requires forall k :: 0 <= k < |parts| ==> c !in parts[k]
    requires c !in sep
    ensures c !in Join(parts, sep)
  {
    if |parts| > 1 {
      JoinAvoids(parts[1..], sep, c);
    }
  }

  /** A row without newlines in its cells gives a line without newlines. */
  lemma LineHasNoNewline(row: seq<string>)
    requires forall k :: 0 <= k < |row| ==> '\n' !in row[k]
    ensures '\n' !in CsvLine(row)
  {
    JoinAvoids(QuotedCells(row), ",", '\n');
  }

  /** When no cell holds a newline, splitting the CSV text at newlines gives back one line per row. */
  lemma CsvContentLines(rows: seq<seq<string>>)
    requires |rows| >= 1
    requires forall i, k :: 0 <= i < |rows| && 0 <= k < |rows[i]| ==> '\n' !in rows[i][k]
    ensures Split(CsvContent(rows), '\n') == CsvLines(rows)
  {
    forall i | 0 <= i < |rows|
      ensures '\n' !in CsvLines(rows)[i]
    {
      LineHasNoNewline(rows[i]);
    }
    SplitJoin(CsvLines(rows), '\n');
  }

  /** When no cell holds a comma, splitting a line at commas gives back the quoted cells. */
  lemma CsvLineCells(row: seq<string>)
    requires |row| >= 1
    requires forall k :: 0 <= k < |row| ==> ',' !in row[k]
    ensures Split(CsvLine(row), ',') == QuotedCells(row)
  {
    forall k | 0 <= k < |row|
      ensures ',' !in QuotedCells(row)[k]
    {
      assert QuotedCells(row)[k] == "\"" + row[k] + "\"";
    }
    SplitJoin(QuotedCells(row), ',');
  }

  /** Commas are not escaped either: a cell with one comma reads back as two fields. */
  lemma CommaSplitsCell(x: string, y: string)
    requires ',' !in x && ',' !in y
    ensures Split(CsvLine([x + "," + y]), ',') == ["\"" + x, y + "\""]
  {
    assert CsvLine([x + "," + y]) == ("\"" + x) + [','] + (y + "\"");
    SplitOnce("\"" + x, ',', y + "\"");
  }

  // ---------------------------------------------------------------------
  // Calendar events
  // ---------------------------------------------------------------------

  /** `categoryEmojis`. */
  const CategoryEmojis: map<string, string> := map[
    "gym" := "💪", "ai-learning" := "🧠", "simmer" := "✨", "job-apps" := "💼",
    "guitar" := "🎸", "office" := "💻", "family" := "👨‍👩‍👧", "sleep" := "😴",
    "breakfast" := "🍳", "commute" := "🚗"]

  /** The reminder every event gets: 900 seconds, a quarter of an hour. */
  const ReminderSeconds: int := 900

  /** `categoryEmojis[category] || ''`. */
  function Emoji(category: string): (e: string)
    ensures category in CategoryEmojis ==> e == CategoryEmojis[category] && e != []
    ensures category !in CategoryEmojis ==> e == []
  {
    if category in CategoryEmojis then CategoryEmojis[category] else ""
  }

  /** The event title: the emoji, a space and the name, or the bare name. */
  function EventTitle(a: Activity): (t: string)
    ensures a.category in CategoryEmojis ==> t == CategoryEmojis[a.category] + " " + a.name
    ensures a.category !in CategoryEmojis ==> t == a.name
  {
    var emoji := Emoji(a.category);
    if emoji != [] then emoji + " " + a.name else a.name
  }

  /** What `createEvent` and `createAlarm` receive for one activity on one day. */
  datatype CalendarEvent = CalendarEvent(
    dayIndex: int,
    startTime: string,
    endTime: string,
    summary: string,
    description: string,
    location: string,
    alarmTrigger: int)

  function EventOf(a: Activity, day: string): (e: CalendarEvent)
    ensures day in Days ==> 0 <= e.dayIndex < |Days| && Days[e.dayIndex] == day
    ensures e.summary == EventTitle(a) && e.description == "Category: " + a.category
    ensures e.alarmTrigger == ReminderSeconds
  {
    CalendarEvent(DayIndex(day), a.startTime, a.endTime, EventTitle(a), "Category: " + a.category, "", ReminderSeconds)
  }

  /** The callback of the calendar export: an event for a weekday, nothing for any other name. */
  function EventsOn(a: Activity, day: string): seq<CalendarEvent> {
    if DayIndex(day) == -1 then [] else [EventOf(a, day)]
  }

  function CalendarEvents(activities: seq<Activity>): seq<CalendarEvent> {
    DayItems(activities, EventsOn)
  }

  /** The calendar export's loops create exactly `CalendarEvents`, in that order. */
  method BuildCalendarEvents(activities: seq<Activity>) returns (events: seq<CalendarEvent>)
    ensures events == CalendarEvents(activities)
  {
    events := CollectDayItems(activities, EventsOn);
  }

  /** The event of a calendar block. */
  function EventOfBlock(b: CalendarGrid.Block): CalendarEvent {
    EventOf(b.activity, b.day)
  }

  function BlockEvents(bs: seq<CalendarGrid.Block>): (es: seq<CalendarEvent>)
    ensures |es| == |bs|
    ensures forall k :: 0 <= k < |bs| ==> es[k] == EventOfBlock(bs[k])
  {
    seq(|bs|, k requires 0 <= k < |bs| => EventOfBlock(bs[k]))
  }

  lemma BlockEventsAppend(xs: seq<CalendarGrid.Block>, ys: seq<CalendarGrid.Block>)
    ensures BlockEvents(xs + ys) == BlockEvents(xs) + BlockEvents(ys)
  {
  }

  lemma {:induction false} ActivityEventsAreBlocks(a: Activity, days: seq<string>)
    ensures DayItemsOf(a, days, EventsOn) == BlockEvents(CalendarGrid.ActivityBlocks(a, days))
  {
    if days != [] {
      ActivityEventsAreBlocks(a, days[1..]);
      var rest := CalendarGrid.ActivityBlocks(a, days[1..]);
      if days[0] in Days {
        BlockEventsAppend([CalendarGrid.BlockFor(a, days[0])], rest);
      }
    }
  }

  /**
   * The events are the calendar's blocks: one event for each block, in the
   * same order, on the block's day.
   */
  lemma {:induction false} EventsAreBlocks(activities: seq<Activity>)
    ensures CalendarEvents(activities) == BlockEvents(CalendarGrid.Blocks(activities))
  {
    if activities != [] {
      var a := activities[0];
      ActivityEventsAreBlocks(a, a.days);
      EventsAreBlocks(activities[1..]);
      BlockEventsAppend(CalendarGrid.ActivityBlocks(a, a.days), CalendarGrid.Blocks(activities[1..]));
    }
  }

  /** So every event lies on one of the seven weekdays and carries the 15-minute reminder. */
  lemma EventsOnWeekdays(activities: seq<Activity>)
    ensures forall e :: e in CalendarEvents(activities) ==>
              0 <= e.dayIndex < |Days| && e.alarmTrigger == ReminderSeconds
  {
    EventsAreBlocks(activities);
    CalendarGrid.BlockColumns(activities);
    var bs := CalendarGrid.Blocks(activities);
    forall e | e in CalendarEvents(activities)
      ensures 0 <= e.dayIndex < |Days| && e.alarmTrigger == ReminderSeconds
    {
      var k :| 0 <= k < |bs| && e == BlockEvents(bs)[k];
      assert bs[k] in bs;
    }
  }

  /** The title's emoji is the icon the calendar draws, for every category that has one. */
  lemma EmojiIsGridIcon(category: string)
    ensures category in CategoryEmojis <==> category in CalendarGrid.CategoryIcons
    ensures category in CategoryEmojis ==> Emoji(category) == CalendarGrid.CategoryIcon(category)
    ensures category !in CategoryEmojis ==> Emoji(category) == [] && CalendarGrid.CategoryIcon(category) == "📌"
  {
    assert CategoryEmojis == CalendarGrid.CategoryIcons;
  }
}
