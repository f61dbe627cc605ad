# FlowWeek core, modelled in Dafny

FlowWeek turns a free-text description of someone's week into a weekly calendar.
A server route accepts that text and has a language model produce a schedule
of activities and weekly goals. A validator checks and normalises the reply.
The browser then:

- shows the activities as blocks on a grid of half-hour slots from 03:30 to
  22:00;
- lets the user resize a block or edit an activity in a form;
- exports the week as CSV rows or calendar events, with a legend of
  categories;
- caches each schedule in `localStorage` for seven days, keyed by a hash of
  the input.

This project models that core and proves properties of the model:

- the time helpers and slot generation in `lib/utils.ts`;
- the reply extraction and validators in `lib/claude.ts`;
- the response cache in `lib/cache.ts`;
- the layout, duration and block enumeration of `CalendarGrid`;
- the resize logic of `DraggableActivity`;
- the submit checks of `ActivityModal`;
- the CSV and calendar exports of `ExportDropdown`;
- the icon and category extraction of `Legend`;
- the `POST` handler of the generate-schedule route.

The JavaScript semantics the code relies on are written out in `js.dfy`:

- `NaN` propagation and NaN comparisons that are false;
- `Math.floor` and `Math.ceil` division, the truncated `%` and `Math.round`;
- `Number(string)` and `String.prototype.trim`, `split`, `join`, `padStart`
  and `toLowerCase`;
- UTF-16 `length` and `charCodeAt`;
- the int32 conversion of `&`;
- base-36 `toString`.

The other files are:

| File | Contents |
|---|---|
| `wrappers.dfy` | `Option` and `Result` |
| `json.dfy` | Already-parsed JSON values |
| `schedule.dfy` | The types of `types/schedule.ts` |
| `utils.dfy` (`TimeUtils`) | `lib/utils.ts` |
| `claude.dfy` (`ScheduleValidator`) | `lib/claude.ts` |
| `cache.dfy` (`Cache`) | `lib/cache.ts` |
| `calendar_grid.dfy` | `components/CalendarGrid.tsx` |
| `draggable_activity.dfy` | `components/DraggableActivity.tsx` |
| `activity_modal.dfy` | `components/ActivityModal.tsx` |
| `export_dropdown.dfy` | `components/ExportDropdown.tsx` |
| `legend.dfy` | `components/Legend.tsx` |
| `route.dfy` (`GenerateScheduleRoute`) | `app/api/generate-schedule/route.ts` |

Where the source mutates state, the model does too:

- **Slot generation:** `generateTimeSlots` is a loop.
- **Resizing:** `handleResizeEnd` updates a `ResizableBlock` object. Its
  deltas, its resizing flag and its log of `onResize` calls are fields.
- **Exports:** the nested `forEach` loops of the CSV and calendar exports are
  a loop.
- **Legend:** its `Map` is filled in a loop.
- **Cache:** `localStorage` is a `LocalStorage` object whose methods update
  its `items` map. The cache functions receive `null` for the server side,
  where there is no `window`.

Each such method is proved against a function of its inputs or of the old
state, and lemmas state the properties of that function.

The time-slot code produces 38 slots: 03:30, 04:00, …, 22:00, with the loop
running while minutes ≤ 1320.

## Model

| member | source | states |
|---|---|---|
| TimeUtils.ClockValue | lib/utils.ts:4-7 | `timeToMinutes` of two digit runs joined by ':' is 60 times the hour plus the minute |
| TimeUtils.FieldsValue | lib/utils.ts:4-7 | two colon-free fields that `Number` reads as x and y give 60x + y minutes |
| TimeUtils.MinutesOfFields | lib/utils.ts:4-7 | the minutes are `hours * 60 + minutes` in JS arithmetic of the two `Number` fields, NaN included |
| TimeUtils.TimeFields | lib/utils.ts:5 | `split(':').map(Number)` gives one number per field, and at least one |
| TimeUtils.MinutesToGridRow | lib/utils.ts:13-15 | the row is NaN exactly for NaN minutes; otherwise it is the 30-minute slot from 03:30 that contains the minute (floor) |
| TimeUtils.DisplayHoursOf | lib/utils.ts:23 | the displayed hour is the hour modulo 12, with 0 shown as 12 |
| TimeUtils.FormatFieldsOf | lib/utils.ts:20-25 | the display of numeric fields is the 12-hour hour, ':', the two-digit minute and "AM" below 12, "PM" from 12 |
| TimeUtils.FormatClock | lib/utils.ts:20-25 | `formatTimeDisplay` of a clock time written in digits is that 12-hour display |
| TimeUtils.FormatMidnightHour | lib/utils.ts:20-25 | hour 0 shows as "12:mm AM" |
| TimeUtils.FormatNoonHour | lib/utils.ts:20-25 | hour 12 shows as "12:mm PM" |
| TimeUtils.FormatAfternoonHour | lib/utils.ts:20-25 | hours 13 to 23 show as h − 12 with "PM" |
| TimeUtils.FormatMorningHour | lib/utils.ts:20-25 | hours 1 to 11 show unchanged with "AM" |
| TimeUtils.TimeSlots | lib/utils.ts:46-61 | the slot list has 38 labels |
| TimeUtils.GenerateTimeSlots | lib/utils.ts:46-61 | the loop, from 210 minutes while ≤ 1320 in steps of 30, pushes exactly the 38 slot labels, in order |
| TimeUtils.NextSlot | lib/utils.ts:51-57 | one turn of the loop extends the labels built so far by the next slot's label |
| TimeUtils.SlotText | lib/utils.ts:52-56 | slot n is the zero-padded hour and minute of 210 + 30n minutes |
| TimeUtils.SlotIsPadded | lib/utils.ts:54-56 | every slot label is five characters: two digits, ':', two digits |
| TimeUtils.SlotMinutes | lib/utils.ts:51-56 | slot i reads back through `timeToMinutes` as 210 + 30i minutes |
| TimeUtils.SlotRow | lib/utils.ts:13-15 | `minutesToGridRow` of slot i's label is i |
| TimeUtils.RowOfSlotMinute | lib/utils.ts:13-15 | the minute that starts slot i lies on row i |
| TimeUtils.FirstSlot | lib/utils.ts:48 | the first slot is "03:30" |
| TimeUtils.LastSlot | lib/utils.ts:49-51 | the last slot is "22:00" |
| TimeUtils.MinutesToTimeOfNat | components/DraggableActivity.tsx:53-57 | `minutesToTime` of a non-negative minute is the padded floor hour, ':', and the padded remainder |
| TimeUtils.MinutesToTimeDigits | components/DraggableActivity.tsx:53-57 | that text is two digit runs worth m / 60 and m % 60; the minute run has two digits, and so does the hour below 100 hours |
| TimeUtils.MinutesRoundTrip | components/DraggableActivity.tsx:47-57 | `timeToMinutes(minutesToTime(m)) == m` for every non-negative minute |
| TimeUtils.MinutesToTimeOfNaN | components/DraggableActivity.tsx:53-57 | NaN minutes give "NaN:NaN" |
| TimeUtils.NegativeMinutesShift | components/DraggableActivity.tsx:53-57 | a negative minute that is not a whole hour reads back 60 minutes early: floor division and the truncated `%` disagree in sign |
| TimeUtils.NegativeFields | components/DraggableActivity.tsx:53-57 | such a minute is written as a negative hour and a negative minute whose sum is m − 60 |
| TimeUtils.ClockText | components/DraggableActivity.tsx:53-57 | `minutesToTime` of a clock minute is its four digits around ':' |
| ScheduleValidator.FallbackColor | lib/claude.ts:5-21 | the palette's first entry, "#fef3c7", a valid hex colour |
| ScheduleValidator.MessageIsMarked | lib/claude.ts:171-293 | every thrown message contains "Invalid" or "Activity" |
| ScheduleValidator.StructureMessage | lib/claude.ts:171 | a structure message contains "Invalid" |
| ScheduleValidator.ActivityMessage | lib/claude.ts:217 | an activity message contains "Activity" |
| ScheduleValidator.PatternFields | lib/claude.ts:290 | a string the time pattern accepts is an hour field, ':' and a minute field |
| ScheduleValidator.HourValue | lib/claude.ts:290 | an hour field is a digit run worth less than 24 |
| ScheduleValidator.MinuteValue | lib/claude.ts:290 | a minute field is a digit run worth less than 60 |
| ScheduleValidator.TimePatternValue | lib/claude.ts:285-316 | an accepted time names an hour below 24 and a minute below 60, and `timeToMinutes` reads it as 60h + m |
| ScheduleValidator.ClockPattern | lib/claude.ts:290 | an hour field, ':' and a minute field always match |
| ScheduleValidator.PaddedClockMatches | lib/claude.ts:290 | every zero-padded time of day matches |
| ScheduleValidator.TimePatternExamples | lib/claude.ts:290 | "9:00" matches; "24:00", "25:00", "" and "9:5" do not |
| ScheduleValidator.ValidateTime | lib/claude.ts:285-298 | succeeds exactly for a string matching the pattern, returned unchanged; a missing, empty or non-string time gets the format error, and a malformed string gets the HH:mm error |
| ScheduleValidator.TimeWindow | lib/claude.ts:303-308 | for an accepted time, `isTimeValid` holds exactly when 210 ≤ 60h + m ≤ 1320 |
| ScheduleValidator.TimeWindowValue | lib/claude.ts:303-308 | the same bound for any digit runs |
| ScheduleValidator.EarlyTimeRefused | lib/claude.ts:303-308 | "02:00" is well formed but outside the window |
| ScheduleValidator.WindowStartAccepted | lib/claude.ts:305 | "03:30" is in the window |
| ScheduleValidator.WindowEndAccepted | lib/claude.ts:306 | "22:00" is in the window |
| ScheduleValidator.TimeWindowExample | lib/claude.ts:285-308 | any two-digit clock time matches, and it is in the window exactly when its minute lies in [210, 1320] |
| ScheduleValidator.DayTexts | lib/claude.ts:202 | each day entry becomes `String(d).trim()`, one per entry |
| ScheduleValidator.FilterDays | lib/claude.ts:203-213 | the filter keeps only weekday names and never lengthens the list |
| ScheduleValidator.FilterMembership | lib/claude.ts:203-213 | a day survives exactly when it is a weekday name present in the list |
| ScheduleValidator.FilterKeepsWeekdays | lib/claude.ts:203-213 | a list of weekday names is kept whole |
| ScheduleValidator.FilterAppend | lib/claude.ts:203-213 | the filter works entry by entry, keeping the input order |
| ScheduleValidator.ActivityColor | lib/claude.ts:242-244 | an own `#rrggbb` string colour is kept; anything else becomes the palette's first |
| ScheduleValidator.ActivityId | lib/claude.ts:247-250 | a non-empty string id is kept; otherwise the id is "<category>-<suffix>" |
| ScheduleValidator.ValidateActivity | lib/claude.ts:190-261 | accepts exactly the activities meeting every check: structure, at least one valid day, both times well formed and in the window, start ≠ end. A non-object gets the structure error and no days gets the no-valid-days error. An accepted activity is well formed and carries the trimmed name, the lower-cased category, the filtered days, the times as given, the colour and the id |
| ScheduleValidator.OvernightAccepted | lib/claude.ts:233-239 | an end before the start (across midnight) is accepted as it is |
| ScheduleValidator.EarlyStartRefused | lib/claude.ts:224-228 | a start outside the window gets the range error, whatever the end |
| ScheduleValidator.ZeroDurationRefused | lib/claude.ts:235-239 | equal start and end get the zero-duration error |
| ScheduleValidator.TargetMinutes | lib/claude.ts:272 | a truthy number is clamped at 0; NaN, 0 or a missing value give 0 |
| ScheduleValidator.TargetMinutesExamples | lib/claude.ts:272 | 120 stays 120; −5, a missing target and "lots" give 0 |
| ScheduleValidator.ValidateWeeklyGoal | lib/claude.ts:266-280 | fails, with the goal error, exactly for a non-object. Otherwise it gives the trimmed name (default "Unnamed Goal"), the clamped non-negative target and the lower-cased category |
| ScheduleValidator.MapIndexed | lib/claude.ts:175 | `map` with a throwing callback succeeds exactly when every element does, with their results in order. Otherwise it throws the first failing element's error |
| ScheduleValidator.ValidateActivities | lib/claude.ts:175 | the activities' map: all accepted, in order, or the first error |
| ScheduleValidator.ValidateWeeklyGoals | lib/claude.ts:178 | the goals' map: all accepted, in order, or the goal error |
| ScheduleValidator.ValidateAndNormalizeResponse | lib/claude.ts:167-185 | a non-object is an invalid response. Otherwise activities are validated before goals, and the first error of either is thrown. Success yields both lists; a missing or non-array list counts as empty |
| ScheduleValidator.AcceptedResponse | lib/claude.ts:174-184 | an accepted response keeps one activity per input and one goal per input; every activity is well formed and every target is non-negative |
| ScheduleValidator.MissingListsAreEmpty | lib/claude.ts:174-179 | an array, or an object without the two arrays, gives the empty schedule |
| ScheduleValidator.FirstInvalidActivity | lib/claude.ts:175 | the response fails with the error of its first invalid activity |
| ScheduleValidator.FirstInvalidInList | lib/claude.ts:175 | the same for the list alone |
| ScheduleValidator.InvalidGoalReported | lib/claude.ts:177-179 | with valid activities, any non-object goal makes the response fail with the goal error |
| ScheduleValidator.InvalidGoalInList | lib/claude.ts:178 | any non-object goal fails the goal list |
| ScheduleValidator.FenceContentStart | lib/claude.ts:149 | a fenced block's content starts after the fence, the optional `json` tag and whitespace |
| ScheduleValidator.BraceSpan | lib/claude.ts:156 | there is a match exactly when some '{' precedes some '}'; the match runs from the first '{' to the last '}' |
| ScheduleValidator.BraceEnds | lib/claude.ts:156 | the first '{' and the last '}' are the outermost braces, and they are in order exactly when some '{' precedes some '}' |
| ScheduleValidator.FirstAt | lib/claude.ts:156 | the first occurrence of a character is at or before any occurrence, and is that occurrence when none precedes it |
| ScheduleValidator.LastAt | lib/claude.ts:156 | the last occurrence of a character is at or after any occurrence, and is that occurrence when none follows it |
| ScheduleValidator.ExtractJson | lib/claude.ts:147-162 | the result is a slice of the reply, or a trimmed slice; `FirstFencedBlock` states the fenced case, and `BareObjectReply`, `ProseAroundObject` and `PlainReply` state the fallback for every reply in which no fenced block closes |
| ScheduleValidator.Unfenced | lib/claude.ts:155-161 | the text from the first '{' to the last '}' when they are in order; the trimmed text when no '{' precedes a '}' |
| ScheduleValidator.NoBacktickNoBlock | lib/claude.ts:149-150 | a reply without a backtick closes no fenced block |
| ScheduleValidator.UnclosedFence | lib/claude.ts:149-150 | an opening fence followed by no further backtick closes no block |
| ScheduleValidator.TruncatedOpening | lib/claude.ts:149-150 | a reply cut off after its opening ```` ```json ```` closes no block |
| ScheduleValidator.TruncatedJsonReply | lib/claude.ts:149-159 | a reply cut off after its opening ```` ```json ```` gives the object after it |
| ScheduleValidator.TruncatedJsonExample | lib/claude.ts:149-159 | the cut-off reply ```` ```json ````, newline, `{"a": 1}` gives `{"a": 1}` |
| ScheduleValidator.FirstFencedBlock | lib/claude.ts:149-153 | for every backtick-free prefix and body, a block with no tag or a `json` tag gives its trimmed body, whatever text or further blocks follow the closing fence: the first block wins, closed at the next fence |
| ScheduleValidator.FencedReply | lib/claude.ts:149-153 | a reply that is exactly a `json`-tagged block gives its trimmed content |
| ScheduleValidator.BlockLayout | lib/claude.ts:149 | in such a reply the first fence follows the prefix, the body is backtick-free, and the tag is read exactly when present |
| ScheduleValidator.TagRead | lib/claude.ts:149 | `(?:json)?` reads a tag after the fence exactly when the block has the `json` tag |
| ScheduleValidator.FencedBlockAt | lib/claude.ts:149-153 | when the fence at p is the first one and the next fence after the tag closes the block, the result is the trimmed text between |
| ScheduleValidator.NoFenceBefore | lib/claude.ts:149 | no fence starts on a stretch without backticks |
| ScheduleValidator.ExtractBlock | lib/claude.ts:150-153 | with a first fence and a closing fence found, the result is the trimmed content between them |
| ScheduleValidator.BlockContent | lib/claude.ts:149-152 | the whitespace `\s*` skips does not change the trimmed content |
| ScheduleValidator.NoFence | lib/claude.ts:149-151 | text without a backtick has no fence |
| ScheduleValidator.FindFirst | lib/claude.ts:149 | the search finds the first fence at or after its start |
| ScheduleValidator.BareObjectReply | lib/claude.ts:155-159 | a bare object that closes no fenced block is returned as it is, whatever backticks its strings hold |
| ScheduleValidator.ProseAroundObject | lib/claude.ts:155-159 | when no fenced block closes, prose before the first '{' and after the last '}' is cut away |
| ScheduleValidator.PlainReply | lib/claude.ts:155-161 | when no fenced block closes and no '{' precedes a '}', the reply is only trimmed |
| CalendarGrid.LayoutEnd | components/CalendarGrid.tsx:117-124 | an end before the start is capped at 22:00; otherwise the end is kept, NaN included |
| CalendarGrid.ActivityStyle | components/CalendarGrid.tsx:115-134 | the start row is the slot containing the start, 2 rows down for the header. The end row is the first row line at or after the capped end |
| CalendarGrid.StyleStartsAtGridRow | components/CalendarGrid.tsx:127 | the start row is `minutesToGridRow` of the start plus 2 |
| CalendarGrid.StyleStartsAtSlot | components/CalendarGrid.tsx:127 | an activity starting at slot i's label starts on that slot's grid row |
| CalendarGrid.StyleWithinWindow | components/CalendarGrid.tsx:115-134 | for times inside the window, both rows lie on the slot rows with start ≤ end, and a block lasting more than no time spans at least one row |
| CalendarGrid.LateOvernightSpansNothing | components/CalendarGrid.tsx:121-128 | a block from 22:00 across midnight is capped to an empty span on the last row |
| CalendarGrid.DurationRoundTrip | components/CalendarGrid.tsx:137-157 | the duration label of a non-negative span reads back as its minutes |
| CalendarGrid.DurationText | components/CalendarGrid.tsx:146-156 | the label is "<m>m" under an hour, "<h>h" for whole hours, and "<h>h <m>m" otherwise |
| CalendarGrid.ReadDurationText | components/CalendarGrid.tsx:150-156 | every such label reads back as its duration |
| CalendarGrid.PartOf | components/CalendarGrid.tsx:150-156 | one label part reads as hours or as minutes |
| CalendarGrid.DurationInsideWindow | components/CalendarGrid.tsx:137-146 | inside the window the displayed duration is never negative |
| CalendarGrid.DurationOfMalformedStart | components/CalendarGrid.tsx:137-157 | an unreadable start shows "NaNh NaNm" |
| CalendarGrid.DurationOfNaN | components/CalendarGrid.tsx:146-156 | a NaN span falls through both tests to "NaNh NaNm" |
| CalendarGrid.HourOnlyIsNaN | components/CalendarGrid.tsx:138 | a time without ':' reads as NaN |
| CalendarGrid.CategoryClass | components/CalendarGrid.tsx:81-95 | a styled category gets "bg-<category>"; any other gets the grey class |
| CalendarGrid.CategoryIcon | components/CalendarGrid.tsx:98-112 | a category's icon from the table; otherwise a pin |
| CalendarGrid.IconsMatchClasses | components/CalendarGrid.tsx:81-112 | the icon table and the class table name the same categories |
| CalendarGrid.BlockFor | components/CalendarGrid.tsx:232-258 | a block's column is one of the seven day columns |
| CalendarGrid.BlockUnderItsDay | components/CalendarGrid.tsx:232-252 | a block sits in column day index + 2, under its day's header |
| CalendarGrid.View | components/CalendarGrid.tsx:231-287 | a drawn block is keyed by `BlockKey`, shows the activity's name and the grid's duration label, and spans `ActivityStyle`'s rows |
| CalendarGrid.BlockKeys | components/CalendarGrid.tsx:249 | two blocks on weekdays share the key `${activity.id}-${day}` exactly when they have the same activity id and the same day |
| CalendarGrid.KeySplit | components/CalendarGrid.tsx:249 | an id, '-' and a dash-free day name split back into that id and that day |
| CalendarGrid.KeyDash | components/CalendarGrid.tsx:249 | the dash before a dash-free day is the key's last dash |
| CalendarGrid.NoDashInWeekday | components/CalendarGrid.tsx:20-28 | no weekday name holds a dash |
| CalendarGrid.ActivityBlocks | components/CalendarGrid.tsx:231-233 | an activity yields at most one block per listed day |
| CalendarGrid.ActivityBlocksExactly | components/CalendarGrid.tsx:231-233 | an activity's blocks are exactly those of its listed days that are weekday names |
| CalendarGrid.BlocksExactly | components/CalendarGrid.tsx:230-233 | the grid's blocks are exactly one per activity and per listed weekday |
| CalendarGrid.BlockColumns | components/CalendarGrid.tsx:230-252 | every block is in a day column, on a weekday |
| CalendarGrid.OneBlockPerDay | components/CalendarGrid.tsx:231-233 | with only weekday names, an activity yields one block per day, in order |
| DraggableActivity.Calls | components/DraggableActivity.tsx:103 | a commit makes one `onResize` call; none makes no call |
| DraggableActivity.RaiseTo | components/DraggableActivity.tsx:96 | a start below 03:30 is raised to it; NaN is left alone |
| DraggableActivity.LowerTo | components/DraggableActivity.tsx:97 | an end after 22:00 is lowered to it; NaN is left alone |
| DraggableActivity.ResizeCommit | components/DraggableActivity.tsx:72-107 | no callback or no change commits nothing; a commit names the resized activity |
| DraggableActivity.CommitShifted | components/DraggableActivity.tsx:86-103 | a commit of a shifted span names the activity |
| DraggableActivity.CommitOfMinutes | components/DraggableActivity.tsx:86-100 | a numeric shifted span is committed exactly when it lasts ≥ 30 minutes. The committed times are the clamped start and end |
| DraggableActivity.ShiftedCommit | components/DraggableActivity.tsx:79-83 | with readable times, the shifted span is start + top delta to end + bottom delta |
| DraggableActivity.CommittedMinutes | components/DraggableActivity.tsx:94-100 | the committed times read back as the clamped minutes; the end does so when it is not negative |
| DraggableActivity.ClampAfterCheck | components/DraggableActivity.tsx:86-97 | the clamp runs after the length check, so a committed span from 03:30 can be shorter than 30 minutes |
| DraggableActivity.MalformedStartIsCommitted | components/DraggableActivity.tsx:79-100 | an unreadable start passes both checks and is committed as "NaN:NaN" |
| DraggableActivity.NaNCommitted | components/DraggableActivity.tsx:86-100 | a NaN start is committed, as "NaN:NaN" |
| DraggableActivity.SlotShift | components/DraggableActivity.tsx:110-111 | `Math.round(delta / 30)` of a whole number of slots is that number |
| DraggableActivity.ResizableBlock.constructor | components/DraggableActivity.tsx:35-36 | no deltas, not resizing, no calls |
| DraggableActivity.ResizableBlock.HandleTopResize | components/DraggableActivity.tsx:60-63 | records the top delta, keeps the bottom one, and marks the resize as running |
| DraggableActivity.ResizableBlock.HandleBottomResize | components/DraggableActivity.tsx:66-69 | records the bottom delta, keeps the top one, and marks the resize as running |
| DraggableActivity.ResizableBlock.HandleResizeEnd | components/DraggableActivity.tsx:72-107 | appends exactly the calls of `ResizeCommit` for the recorded deltas, and resets the state on every path |
| DraggableActivity.ResizableBlock.PreviewRows | components/DraggableActivity.tsx:110-117 | during a resize each edge moves by the delta rounded to slots (halves up); otherwise the rows are as given |
| DraggableActivity.ResizableBlock.PreviewBySlots | components/DraggableActivity.tsx:110-117 | a resize by whole slots moves each edge by exactly that many rows |
| ActivityModal.DefaultCategory | components/ActivityModal.tsx:27 | the first category's non-empty name, else "work" |
| ActivityModal.InitialForm | components/ActivityModal.tsx:23-44 | editing copies the activity's fields. A new activity gets an empty name, Monday, 09:00 to 10:00 and the default category |
| ActivityModal.DefaultTimes | components/ActivityModal.tsx:25-26 | the default times read as 540 and 600 minutes |
| ActivityModal.FindCategory | components/ActivityModal.tsx:69 | the index of the first category equal, ignoring case, to the chosen one; none when no category matches |
| ActivityModal.CategoryColor | components/ActivityModal.tsx:69-79 | the colour is non-empty. It is one of the categories' colours or the grey default |
| ActivityModal.ColorOfMatchingCategory | components/ActivityModal.tsx:69-79 | the first matching category's colour wins |
| ActivityModal.ColorWithoutMatch | components/ActivityModal.tsx:69-79 | with no match the first category's colour is used |
| ActivityModal.KeptOr | components/ActivityModal.tsx:72-73 | an edited activity keeps a non-empty id; otherwise the new one is used |
| ActivityModal.HandleSubmit | components/ActivityModal.tsx:46-83 | a blank name is refused. A saved activity has the trimmed name, the form's day, times and category, the chosen category's colour, and the kept ids or new ones, each from its own clock read |
| ActivityModal.NewIdsAgree | components/ActivityModal.tsx:72-73 | a new id is the new original id plus "-" and the lower-cased day exactly when the two clock reads agree |
| ActivityModal.SubmitOfClockTimes | components/ActivityModal.tsx:55-66 | with readable times, the form is saved exactly when the end is ≥ 30 minutes after the start. An end at or before the start, and a shorter span, each get their own alert |
| ActivityModal.UnreadableTimeIsSaved | components/ActivityModal.tsx:55-66 | an unreadable time makes both comparisons false, so the form is saved |
| ActivityModal.EmptyTimeIsNaN | components/ActivityModal.tsx:91-94 | an empty time field reads as NaN |
| ExportDropdown.CsvDurationOfTimes | components/ExportDropdown.tsx:207-212 | the CSV duration is that of the plain difference, end − start |
| ExportDropdown.CsvDurationRoundTrip | components/ExportDropdown.tsx:207-216 | a non-negative CSV duration reads back as its minutes |
| ExportDropdown.CsvMatchesGridFromOneHour | components/ExportDropdown.tsx:213-215 | from one hour on, the CSV and the calendar show the same label |
| ExportDropdown.CsvUnderAnHour | components/ExportDropdown.tsx:213-215 | under an hour the CSV shows "0h <m>m" where the calendar shows "<m>m" |
| ExportDropdown.ZeroHourPart | components/ExportDropdown.tsx:215 | a leading "0h " adds nothing to the minutes read back |
| ExportDropdown.CsvOvernightWholeHours | components/ExportDropdown.tsx:212-215 | a span across midnight of k whole hours shows as "-kh" |
| ExportDropdown.OvernightArithmetic | components/ExportDropdown.tsx:213-214 | −60k floors to −k hours, with remainder 0 |
| ExportDropdown.CsvWholeHours | components/ExportDropdown.tsx:215 | a whole number of hours shows as "<h>h" |
| ExportDropdown.CsvNegativeUnderAnHour | components/ExportDropdown.tsx:213-215 | a negative span under an hour shows "-1h -<m>m" |
| ExportDropdown.DayItemsOfAppend | components/ExportDropdown.tsx:220-229 | one more listed day adds that day's items at the end |
| ExportDropdown.DayItemsAppend | components/ExportDropdown.tsx:219-230 | the items of two lists of activities are each list's, one after the other |
| ExportDropdown.CollectDayItems | components/ExportDropdown.tsx:219-230 | the nested loop collects exactly the items of every activity on every listed day, in order |
| ExportDropdown.CsvRow | components/ExportDropdown.tsx:222-228 | a row has the five header columns: the day, the time range, the name, the category and the duration |
| ExportDropdown.RowsOfActivity | components/ExportDropdown.tsx:220-229 | an activity contributes one row per listed day, in order, whatever the day's name |
| ExportDropdown.BuildCsvRows | components/ExportDropdown.tsx:203-230 | `rows` is the header followed by every activity's rows |
| ExportDropdown.Quote | components/ExportDropdown.tsx:233 | a cell is wrapped in double quotes with nothing escaped |
| ExportDropdown.QuotedCells | components/ExportDropdown.tsx:233 | every cell quoted, in order |
| ExportDropdown.CsvLines | components/ExportDropdown.tsx:233 | one line per row, in order |
| ExportDropdown.LineHasNoNewline | components/ExportDropdown.tsx:233 | a row whose cells hold no newline gives a line without one |
| ExportDropdown.CsvContentLines | components/ExportDropdown.tsx:233 | when no cell holds a newline, splitting the CSV text at newlines gives back its lines |
| ExportDropdown.CsvLineCells | components/ExportDropdown.tsx:233 | when no cell holds a comma, splitting a line at commas gives back the quoted cells |
| ExportDropdown.CommaSplitsCell | components/ExportDropdown.tsx:233 | a cell holding a comma reads back as two fields, since nothing is escaped |
| ExportDropdown.Emoji | components/ExportDropdown.tsx:16-27 | a category's emoji from the table, else none |
| ExportDropdown.EventTitle | components/ExportDropdown.tsx:159-160 | the title is the emoji, a space and the name, or just the name |
| ExportDropdown.EventOf | components/ExportDropdown.tsx:152-174 | an event lies on its weekday's index. It carries the title, "Category: <category>" and the 900-second reminder |
| ExportDropdown.BuildCalendarEvents | components/ExportDropdown.tsx:150-176 | the nested loop creates exactly the calendar events of every activity on every listed weekday, in order |
| ExportDropdown.BlockEvents | components/ExportDropdown.tsx:150-176 | one event per calendar block, in order |
| ExportDropdown.BlockEventsAppend | components/ExportDropdown.tsx:150-176 | events of two block lists are each list's events, one after the other |
| ExportDropdown.ActivityEventsAreBlocks | components/ExportDropdown.tsx:151-153 | an activity's events are those of its calendar blocks: same days skipped, same order |
| ExportDropdown.EventsAreBlocks | components/ExportDropdown.tsx:150-176 | the export has exactly one event per block the calendar draws |
| ExportDropdown.EventsOnWeekdays | components/ExportDropdown.tsx:152-174 | every event lies on one of the seven weekdays and has the 15-minute reminder |
| ExportDropdown.EmojiIsGridIcon | components/ExportDropdown.tsx:16-27 | the emoji table names the same categories as the calendar's icons, with the same icons; the rest have no emoji and a pin |
| Legend.Lookup | components/Legend.tsx:53-55 | the index of the first table entry whose key is the given one, or none |
| Legend.FirstIncluded | components/Legend.tsx:58-62 | the index of the first key the text contains, or none |
| Legend.IconFrom | components/Legend.tsx:11-66 | the icon is one of the table's icons or the pin |
| Legend.IconForCategory | components/Legend.tsx:11-66 | the same, for the fixed icon table |
| Legend.IconSearch | components/Legend.tsx:52-65 | the exact match, then the early-return search, give `IconFrom` |
| Legend.GetIconForCategory | components/Legend.tsx:11-66 | the search over the fixed table gives `IconForCategory` |
| Legend.ExactKeyWins | components/Legend.tsx:12-55 | a key equal to the lower-cased category gives its icon |
| Legend.FirstContainedKeyWins | components/Legend.tsx:58-62 | with no exact key, the first contained key in table order gives the icon |
| Legend.NoKeyGivesPin | components/Legend.tsx:65 | with no contained key, the pin |
| Legend.CapitalizeWord | components/Legend.tsx:82 | a word's first character is upper-cased and the rest kept |
| Legend.CapitalizedWords | components/Legend.tsx:82 | every word capitalised, in order |
| Legend.DisplayNameWords | components/Legend.tsx:80-83 | for a category without spaces, the display name split at spaces is its '-'-parts capitalised |
| Legend.FirstIndexOf | components/Legend.tsx:78 | the first activity of a category |
| Legend.CategoryKeys | components/Legend.tsx:75-88 | the map's keys: distinct, each the category of some activity, and covering every activity's category |
| Legend.KeysInFirstOccurrenceOrder | components/Legend.tsx:77-88 | the keys come in the order of their categories' first activities |
| Legend.FirstIndexInPrefix | components/Legend.tsx:77-88 | the first activity of a category seen in a prefix stays its first |
| Legend.EntryOf | components/Legend.tsx:79-86 | an entry has the display name, the activity's colour and the category's icon |
| Legend.LegendEntries | components/Legend.tsx:75-90 | one entry per distinct category, in first-occurrence order, each built from the category's first activity |
| Legend.EntriesBy | components/Legend.tsx:75-90 | the same for any entry builder |
| Legend.Categories | components/Legend.tsx:70-91 | none without a schedule or without activities; otherwise the legend entries |
| Legend.MapStep | components/Legend.tsx:77-88 | one turn of the `forEach` keeps the map that of the activities seen so far |
| Legend.MapAdd | components/Legend.tsx:78-86 | a new category is added with the entry of its first activity |
| Legend.MapKeep | components/Legend.tsx:78 | a seen category leaves the map unchanged |
| Legend.NewCategoryComesLast | components/Legend.tsx:78-86 | a category first seen at step i has its first activity at i |
| Legend.EntryKept | components/Legend.tsx:78 | a stored entry stays that of the category's first activity as the list grows |
| Legend.CategoriesOfNext | components/Legend.tsx:77-88 | the categories of one more activity are the old ones plus its own |
| Legend.KeysStep | components/Legend.tsx:77-88 | the key order grows at the end exactly by unseen categories |
| Legend.ExtractCategories | components/Legend.tsx:75-90 | the loop over the activities and `Array.from(values())` give the legend entries |
| Legend.OrderTracksMap | components/Legend.tsx:75-90 | a category is a map key exactly when it is among the ordered keys |
| Legend.Values | components/Legend.tsx:90 | the values in key-insertion order are the entries, in first-occurrence order |
| GenerateScheduleRoute.Classify | app/api/generate-schedule/route.ts:53-115 | the first matching class of the ordered tests, each stated as an if-and-only-if: key, parse (message or `SyntaxError`), validation, rate limit, API, else unexpected |
| GenerateScheduleRoute.ErrorResponse | app/api/generate-schedule/route.ts:53-115 | 503 exactly for a rate limit, 500 otherwise. The body is an error, and a validation error's body is the prefix followed by its own message |
| GenerateScheduleRoute.UserInput | app/api/generate-schedule/route.ts:7-15 | the input exists exactly when `userInput` is a non-empty string |
| GenerateScheduleRoute.CheckLength | app/api/generate-schedule/route.ts:17-31 | passes the trimmed text exactly when its length is 20 to 2000 code units; below or above, the matching 400 |
| GenerateScheduleRoute.Outcome | app/api/generate-schedule/route.ts:46-48 | 200 exactly when generation succeeds, with the schedule as body |
| GenerateScheduleRoute.Post | app/api/generate-schedule/route.ts:4-116 | the checks in source order: read error, null body, bad input (400), length (400), missing key (500), and then the generation on the trimmed input |
| GenerateScheduleRoute.PostStatuses | app/api/generate-schedule/route.ts:4-116 | the handler answers only 200, 400, 500 or 503 |
| GenerateScheduleRoute.NoKeyNoGeneration | app/api/generate-schedule/route.ts:34-43 | without a key the response does not depend on the generation and is never 200 |
| GenerateScheduleRoute.RejectionPrecedesGeneration | app/api/generate-schedule/route.ts:10-31 | a 400 does not depend on the generation |
| GenerateScheduleRoute.TrimmedInputIsPassed | app/api/generate-schedule/route.ts:17-46 | inputs with the same trimmed text get the same response |
| GenerateScheduleRoute.ValidatorErrorsAreValidation | app/api/generate-schedule/route.ts:77-84 | a validator message that names neither the key variable nor "parse JSON" is reported after "Schedule validation error: " |
| GenerateScheduleRoute.ParseJsonNameIsMisreported | app/api/generate-schedule/route.ts:66-74 | an activity named with "parse JSON" has its no-valid-days error reported as a parse failure |
| GenerateScheduleRoute.NoValidDaysMessage | lib/claude.ts:217 | the no-valid-days message contains the name and adds no underscore |
| Cache.HashIsPolynomial | lib/cache.ts:24-30 | the shift-and-subtract loop computes the base-31 polynomial of the code units, wrapped to int32 |
| Cache.HashFits | lib/cache.ts:29 | the folded hash is an int32 |
| Cache.HashText | lib/cache.ts:31 | the hash text is 1 to 6 base-36 digits |
| Cache.Base36Length | lib/cache.ts:31 | a number below 36^k has at most k base-36 digits |
| Cache.SimpleHash | lib/cache.ts:24-32 | the loop over `charCodeAt` gives `HashText` |
| Cache.FoldStep | lib/cache.ts:26-30 | one more code unit is one more loop step |
| Cache.CacheKey | lib/cache.ts:43 | a key is the prefix and at most six more characters, never the saved-input key |
| Cache.Encode | lib/cache.ts:79-86 | a stored entry is never empty, so it is never taken for a missing one |
| Cache.EntryRoundTrip | lib/cache.ts:53-86 | every entry reads back from its stored text |
| Cache.DecodeOfFields | lib/cache.ts:53 | decoding reads the timestamp, the input's length, the input and the data |
| Cache.FieldRoundTrip | lib/cache.ts:53-86 | a number field reads back, with the text after it |
| Cache.Read | lib/cache.ts:37-70 | data is served exactly for a readable entry that is fresh and for the same trimmed input, leaving the items as they were. Otherwise a readable entry that is stale or for another input is removed, and a missing, empty or unreadable value is left in place. Other keys are unchanged |
| Cache.Write | lib/cache.ts:75-91 | adds or replaces exactly the input's key, with an entry holding the data, the time and the trimmed input |
| Cache.Cleared | lib/cache.ts:96-107 | keeps exactly the keys without the prefix, with their values |
| Cache.SizeSumRemove | lib/cache.ts:122-130 | the total size does not depend on the order the keys are taken in |
| Cache.LocalStorage.constructor | lib/cache.ts:45 | an empty store |
| Cache.GetCachedResponse | lib/cache.ts:37-70 | on the server nothing. In the browser it gives `Read`'s answer and new items |
| Cache.SetCachedResponse | lib/cache.ts:75-91 | in the browser the items become `Write`'s |
| Cache.ClearCache | lib/cache.ts:96-110 | the loop over the keys leaves the `Cleared` items |
| Cache.GetCacheStats | lib/cache.ts:115-133 | the number of prefix keys and the total length of their values |
| Cache.SaveLastInput | lib/cache.ts:138-146 | the text stored under the saved-input key |
| Cache.GetLastInput | lib/cache.ts:151-161 | the saved text exactly when there is one |
| Cache.ClearLastInput | lib/cache.ts:166-173 | the saved-input key removed |
| Cache.SetThenGet | lib/cache.ts:57-86 | a stored response is served, unchanged, to the same trimmed input within seven days |
| Cache.ExpiredEntryIsRemoved | lib/cache.ts:57-64 | after seven days nothing is served and the entry is removed |
| Cache.CaseMismatchEvicts | lib/cache.ts:43-64 | inputs differing only in case share a key, so reading with the other one evicts the entry |
| Cache.ClearKeepsLastInput | lib/cache.ts:99-107 | clearing leaves no cache key and serves nothing, but keeps the saved input |
| Cache.StoresAreSeparate | lib/cache.ts:78-146 | a response write keeps the saved input, and saving the input changes no read |

## Left out

- `generateSchedule` and `buildPrompt` (lib/claude.ts:26-142) are not modelled: they are the language-model SDK call and a fixed prompt text. The route takes the generation as a function parameter.
- `JSON.parse` of the reply is not modelled. The validator works on already-parsed JSON values. These contain integers only, so fractional numbers are outside the model, and an object's inherited prototype properties are not modelled.
- Cache.Encode: `JSON.stringify`/`JSON.parse` of a cache entry are replaced by a length-prefixed encoding with a proved round trip. The data is an opaque string. The sizes `getCacheStats` reports are therefore those of this encoding, and a stored text that parses but lacks the entry's fields is not distinguished from one that fails to parse.
- Cache.Read: a value that does not decode is left in place with nothing served, as the `catch` at lib/cache.ts:66-69 does. A parseable JSON text whose fields are missing (which the source would evict as a mismatch) is not distinguished from it; see Cache.Encode.
- `setItem` failures (quota errors) and every `console` call are not modelled.
- `Number(string)` covers an optional sign followed by decimal digits, with surrounding whitespace and the empty string read as 0. Fractions, exponents, hexadecimal and `Infinity` read as NaN here.
- `toLowerCase` and `toUpperCase` are ASCII only.
- `Date.now()` and `Math.random()` are parameters: `now` in the cache, the id `suffix` in the validator, and in the modal `idNow` and `originalIdNow`, one for each of the two `Date.now()` calls at components/ActivityModal.tsx:72-73.
- The text of V8's `TypeError` for a `null` request body is a fixed constant. Only its classification matters.
- The PDF export (components/ExportDropdown.tsx:48-138) is not modelled: it is DOM capture and floating-point page scaling.
- The ical-generator serialisation, `timeToDate` and `startOfWeek` are not modelled: they are a foreign library and wall-clock dates. Only the events passed to `createEvent` and `createAlarm`, with their day index and times, are modelled.
- The Blob and anchor download, `alert`, the `finally` that closes the menu, and all JSX and styling are not modelled. This includes the `activity.color || '#f3f4f6'` background.
- components/ResizeHandle.tsx is not part of this model. The resize deltas are taken as given integers.
- `getCurrentDay` (lib/utils.ts:30-41) reads the clock and is not modelled.
- The `mockData` fallback of the exports is not modelled: the exports take the activities to export.
- The modal's React state and the `useEffect` that sets it are modelled as the form value the effect produces, not as a sequence of state updates.
- CalendarGrid.CategoryClass: the lookup `categoryMap[category]` on a plain object literal also finds inherited `Object.prototype` members. For a category such as "constructor" the source yields that member, a function, rather than "bg-gray-200". The model's tables have own keys only, so such a category gets the default.
- CalendarGrid.CategoryIcon: the same inherited-key lookup applies to `iconMap[category]`; the model gives the pin where the source yields the inherited member.
- ExportDropdown.Emoji: the same inherited-key lookup applies to `categoryEmojis[category]`; the model gives no emoji where the source yields the inherited member and puts it in the title.
- Legend.IconFrom: the same inherited-key lookup applies to the exact match `iconMap[categoryLower]`; the model goes on to the partial search where the source returns the inherited member. The partial search over `Object.entries` sees own keys only, as in the model.
- The validator's lower-casing of categories (lib/claude.ts:197) does not exclude those inherited names.
- The legend's icon table (components/Legend.tsx:15-50) has no `simmer` entry, unlike the grid's and the export's tables. The model keeps each table as written, and no lemma compares the legend's icons with the grid's.
