/**
 * The checks lib/claude.ts applies to a generated schedule: pulling the JSON
 * text out of a free-text reply, and turning an untrusted parsed value into a
 * normalized `ScheduleResponse` or the first error it throws.
 *
 * The two sources of fresh ids, `Date.now()` and `Math.random()`, are the
 * `suffix` parameter: `suffix(i)` is the text placed after "<category>-" in
 * the id synthesized for the activity at index `i`.
 */
module ScheduleValidator {
  import opened Wrappers
  import opened Js
  import opened JsonValue
  import opened ScheduleTypes
  import opened TimeUtils

  /** The soft colour palette; only its first entry is ever used. */
  const ColorPalette: seq<string> := [
    "#fef3c7", "#dbeafe", "#fce7f3", "#d1fae5", "#fed7aa",
    "#e0e7ff", "#fecaca", "#f3f4f6", "#fef9c3", "#d1f4e0",
    "#fce4ec", "#e1f5fe", "#f3e5f5", "#fff9c4", "#f1f8e9"]

  /** The colour that replaces a missing or malformed one. */
  function FallbackColor(): (c: string)
    ensures c == "#fef3c7" && IsHexColor(c)
  {
    ColorPalette[0]
  }

  /** The errors the validator throws. */
  datatype ValidationError =
    | InvalidResponse
    | InvalidActivity
    | NoValidDays(name: string)
    | MissingTime(name: string)
    | MalformedTime(name: string)
    | TimeOutOfRange(name: string)
    | ZeroDuration(name: string)
    | InvalidGoal

  /** The `message` of each thrown `Error`. */
  function Message(e: ValidationError): string {
    match e
    case InvalidResponse => StructureMessage("response structure from Claude API")
    case InvalidActivity => StructureMessage("activity structure")
    case NoValidDays(n) => ActivityMessage(n, "has no valid days")
    case MissingTime(n) => ActivityMessage(n, "has invalid time format")
    case MalformedTime(n) => ActivityMessage(n, "has invalid time format (expected HH:mm)")
    case TimeOutOfRange(n) => ActivityMessage(n, "has invalid time range (must be between 03:30 and 22:00)")
    case ZeroDuration(n) => ActivityMessage(n, "has same start and end time (duration must be > 0)")
    case InvalidGoal => StructureMessage("weekly goal structure")
  }

  /** "Invalid <what>". */
  function StructureMessage(what: string): (m: string)
    ensures Includes(m, "Invalid")
  {
    PrefixIncluded("Invalid", " " + what);
    "Invalid" + (" " + what)
  }

  /** `Activity "<name>" <what>`. */
  function ActivityMessage(name: string, what: string): (m: string)
    ensures Includes(m, "Activity")
  {
    PrefixIncluded("Activity", " \"" + name + "\" " + what);
    "Activity" + (" \"" + name + "\" " + what)
  }

  /** Every message names an invalid structure or an activity, as the route's classifier expects. */
  lemma MessageIsMarked(e: ValidationError)
    ensures Includes(Message(e), "Invalid") || Includes(Message(e), "Activity")
  {
  }

  lemma PrefixIncluded(p: string, rest: string)
    ensures StartsWith(p + rest, p) && Includes(p + rest, p)
  {
    assert (p + rest)[..|p|] == p;
    IncludesPrefix(p + rest, p);
  }

  // ---------------------------------------------------------------------
  // Times
  // ---------------------------------------------------------------------

  /** `[0-1]?[0-9]|2[0-3]`. */
  predicate HourField(h: string) {
    || (|h| == 1 && IsDigit(h[0]))
    || (|h| == 2 && '0' <= h[0] <= '1' && IsDigit(h[1]))
    || (|h| == 2 && h[0] == '2' && '0' <= h[1] <= '3')
  }

  /** `[0-5][0-9]`. */
  predicate MinuteField(m: string) {
    |m| == 2 && '0' <= m[0] <= '5' && IsDigit(m[1])
  }

  /** `/^([0-1]?[0-9]|2[0-3]):([0-5][0-9])$/.test(s)`. */
  predicate MatchesTimePattern(s: string) {
    exists i :: 0 <= i < |s| && s[i] == ':' && HourField(s[..i]) && MinuteField(s[i + 1..])
  }

  /** What the pattern admits is an hour below 24 and a minute below 60, and `timeToMinutes` reads them. */
  lemma TimePatternValue(s: string) returns (h: nat, m: nat)
    requires MatchesTimePattern(s)
    ensures h < 24 && m < 60
    ensures TimeToMinutes(s) == Int(60 * h + m)
  {
    var hh, mm := PatternFields(s);
    HourValue(hh);
    MinuteValue(mm);
    h, m := DigitsValue(hh), DigitsValue(mm);
    ClockValue(hh, mm);
  }

  /** A string the pattern accepts is an hour field, a colon and a minute field. */
  lemma PatternFields(s: string) returns (hh: string, mm: string)
    requires MatchesTimePattern(s)
    ensures s == hh + ":" + mm && HourField(hh) && MinuteField(mm)
  {
    var i :| 0 <= i < |s| && s[i] == ':' && HourField(s[..i]) && MinuteField(s[i + 1..]);
    hh, mm := s[..i], s[i + 1..];
    assert s == hh + ":" + mm;
  }

  /** An hour field is a digit run worth less than 24. */
  lemma HourValue(hh: string)
    requires HourField(hh)
    ensures AllDigits(hh) && DigitsValue(hh) < 24
  {
    if |hh| == 2 {
      TwoDigitBounds(hh);
    } else {
      assert hh[..0] == [];
    }
  }

  /** A minute field is a digit run worth less than 60. */
  lemma MinuteValue(mm: string)
    requires MinuteField(mm)
    ensures AllDigits(mm) && DigitsValue(mm) < 60
  {
    TwoDigitBounds(mm);
  }

  /** Every zero-padded clock time of the day matches the pattern. */
  lemma PaddedClockMatches(h: nat, m: nat)
    requires h < 24 && m < 60
    ensures MatchesTimePattern(PadStart2(NatToDecimal(h)) + ":" + PadStart2(NatToDecimal(m)))
  {
    var hh := PaddedField(h);
    var mm := PaddedField(m);
    if h < 20 {
      assert '0' <= hh[0] <= '1';
    } else {
      assert hh[0] == '2' && hh[1] <= '3';
    }
    ClockPattern(hh, mm);
  }

  /** A number below 100 zero-padded to two digits. */
  lemma PaddedField(n: nat) returns (s: string)
    requires n < 100
    ensures s == PadStart2(NatToDecimal(n)) && |s| == 2
    ensures AllDigits(s) && 10 * (s[0] as int - '0' as int) + (s[1] as int - '0' as int) == n
  {
    s := PadStart2(NatToDecimal(n));
    PadDigits(NatToDecimal(n));
    DecimalRoundTrip(n);
    TwoDigitBounds(s);
  }

  /** The value of a two-digit run is ten times its first digit plus its second. */
  lemma TwoDigitBounds(s: string)
    requires |s| == 2 && AllDigits(s)
    ensures DigitsValue(s) == 10 * (s[0] as int - '0' as int) + (s[1] as int - '0' as int)
  {
    var first := s[..1];
    assert first == [s[0]] && first[..0] == [];
    assert DigitsValue(first) == s[0] as int - '0' as int;
  }

  /** An hour field, a colon and a minute field make a time the pattern accepts. */
  lemma ClockPattern(hh: string, mm: string)
    requires HourField(hh) && MinuteField(mm)
    ensures MatchesTimePattern(hh + ":" + mm)
  {
    var s := hh + ":" + mm;
    assert s[|hh|] == ':' && s[..|hh|] == hh && s[|hh| + 1..] == mm;
  }

  /** One-digit hours match the pattern; hours 24 and above and the empty string do not. */
  lemma TimePatternExamples()
    ensures MatchesTimePattern("9:00")
    ensures !MatchesTimePattern("24:00")
    ensures !MatchesTimePattern("25:00")
    ensures !MatchesTimePattern("")
    ensures !MatchesTimePattern("9:5")
  {
    assert "9:00"[1] == ':' && "9:00"[..1] == "9" && "9:00"[2..] == "00";
    assert !MatchesTimePattern("24:00") by {
      forall i | 0 <= i < 5 && "24:00"[i] == ':'
        ensures !HourField("24:00"[..i])
      {
        assert i == 2 && "24:00"[..2] == "24";
      }
    }
    assert !MatchesTimePattern("25:00") by {
      forall i | 0 <= i < 5 && "25:00"[i] == ':'
        ensures !HourField("25:00"[..i])
      {
        assert i == 2 && "25:00"[..2] == "25";
      }
    }
    assert !MatchesTimePattern("9:5") by {
      forall i | 0 <= i < 3 && "9:5"[i] == ':'
        ensures !MinuteField("9:5"[i + 1..])
      {
        assert i == 1 && "9:5"[2..] == "5";
      }
    }
  }

  /** `validateTime`: a non-empty string matching the pattern, returned as it is. */
  function ValidateTime(time: Option<Json>, activityName: string): (r: Result<string, ValidationError>)
    ensures r.Success? <==> time.Some? && time.value.JString? && MatchesTimePattern(time.value.s)
    ensures r.Success? ==> r.value == time.value.s
    ensures r.Failure? && !(time.Some? && time.value.JString? && time.value.s != [])
            ==> r.error == MissingTime(activityName)
    ensures r.Failure? && time.Some? && time.value.JString? && time.value.s != []
            ==> r.error == MalformedTime(activityName)
  {
    if !Truthy(time) || !time.value.JString? then Failure(MissingTime(activityName))
    else if !MatchesTimePattern(time.value.s) then Failure(MalformedTime(activityName))
    else Success(time.value.s)
  }

  /** `isTimeValid`: the time reads as a minute between 03:30 and 22:00 inclusive. */
  predicate IsTimeValid(time: string) {
    LessEq(Int(GridStart), TimeToMinutes(time)) && LessEq(TimeToMinutes(time), Int(GridEnd))
  }

  /** For a well-formed time, the window check is a bound on hour and minute. */
  lemma TimeWindow(s: string) returns (h: nat, m: nat)
    requires MatchesTimePattern(s)
    ensures TimeToMinutes(s) == Int(60 * h + m)
    ensures IsTimeValid(s) <==> 210 <= 60 * h + m <= 1320
  {
    h, m := TimePatternValue(s);
  }

  /** 02:00 is well formed but before the window. */
  lemma EarlyTimeRefused()
    ensures MatchesTimePattern("02:00") && !IsTimeValid("02:00")
  {
    assert "02:00" == "02" + ":" + "00";
    TimeWindowExample("02", "00", 0, 2, 0, 0);
  }

  /** 03:30 is the first time of the window. */
  lemma WindowStartAccepted()
    ensures MatchesTimePattern("03:30") && IsTimeValid("03:30")
  {
    assert "03:30" == "03" + ":" + "30";
    TimeWindowExample("03", "30", 0, 3, 3, 0);
  }

  /** 22:00 is the last time of the window. */
  lemma WindowEndAccepted()
    ensures MatchesTimePattern("22:00") && IsTimeValid("22:00")
  {
    assert "22:00" == "22" + ":" + "00";
    TimeWindowExample("22", "00", 2, 2, 0, 0);
  }

  lemma TimeWindowExample(hh: string, mm: string, h1: nat, h0: nat, m1: nat, m0: nat)
    requires h1 < 3 && h0 < 10 && m1 < 6 && m0 < 10 && (h1 == 2 ==> h0 < 4)
    requires hh == [DigitChar(h1), DigitChar(h0)] && mm == [DigitChar(m1), DigitChar(m0)]
    ensures MatchesTimePattern(hh + ":" + mm)
    ensures IsTimeValid(hh + ":" + mm) <==> 210 <= 60 * (10 * h1 + h0) + 10 * m1 + m0 <= 1320
  {
    TwoDigits(hh, h1, h0);
    TwoDigits(mm, m1, m0);
    assert HourField(hh) && MinuteField(mm);
    ClockPattern(hh, mm);
    TimeWindowValue(hh, mm, 10 * h1 + h0, 10 * m1 + m0);
  }

  lemma TimeWindowValue(hh: string, mm: string, h: nat, m: nat)
    requires AllDigits(hh) && AllDigits(mm) && DigitsValue(hh) == h && DigitsValue(mm) == m
    ensures IsTimeValid(hh + ":" + mm) <==> 210 <= 60 * h + m <= 1320
  {
    ClockValue(hh, mm);
  }

  // ---------------------------------------------------------------------
  // Activities
  // ---------------------------------------------------------------------

  /** `!v || typeof v !== 'object'` fails: the value is a non-null object or an array. */
  predicate IsStructure(v: Json) {
    Truthy(Some(v)) && IsObjectType(v)
  }

  /** `/^#[0-9A-Fa-f]{6}$/.test(c)`. */
  predicate IsHexColor(c: string) {
    |c| == 7 && c[0] == '#' && forall k :: 1 <= k < 7 ==> IsHexDigit(c[k])
  }

  /** The day entry as the filter sees it: `String(d).trim()`. */
  function DayText(d: Json): string {
    Trim(ToJsString(d))
  }

  /** `days.map(d => String(d).trim())`. */
  function DayTexts(items: seq<Json>): (ts: seq<string>)
    ensures |ts| == |items| && forall i :: 0 <= i < |items| ==> ts[i] == DayText(items[i])
  {
    seq(|items|, i requires 0 <= i < |items| => DayText(items[i]))
  }

  /** `.filter(d => DAYS.includes(d))`. */
  function FilterDays(ts: seq<string>): (days: seq<string>)
    ensures |days| <= |ts|
    ensures forall k :: 0 <= k < |days| ==> days[k] in Days
  {
    if ts == [] then []
    else if ts[|ts| - 1] in Days then FilterDays(ts[..|ts| - 1]) + [ts[|ts| - 1]]
    else FilterDays(ts[..|ts| - 1])
  }

  /** The valid days of a `days` array, in their order. */
  function ValidDays(items: seq<Json>): seq<string> {
    FilterDays(DayTexts(items))
  }

  /** A list of weekday names is kept whole. */
  lemma {:induction false} FilterKeepsWeekdays(ts: seq<string>)
    requires forall i :: 0 <= i < |ts| ==> ts[i] in Days
    ensures FilterDays(ts) == ts
  {
    if ts != [] {
      FilterKeepsWeekdays(ts[..|ts| - 1]);
    }
  }

  /** A day is kept exactly when it is a weekday name that occurs in the list. */
  lemma {:induction false} FilterMembership(ts: seq<string>, d: string)
    ensures d in FilterDays(ts) <==> d in Days && d in ts
  {
    if ts != [] {
      var init := ts[..|ts| - 1];
      FilterMembership(init, d);
      assert ts == init + [ts[|ts| - 1]];
    }
  }

  /** The filter works element by element, so it keeps the order of its input. */
  lemma {:induction false} FilterAppend(a: seq<string>, b: seq<string>)
    ensures FilterDays(a + b) == FilterDays(a) + FilterDays(b)
    decreases |b|
  {
    if b == [] {
      assert a + b == a;
    } else {
      var b' := b[..|b| - 1];
      assert (a + b)[..|a + b| - 1] == a + b';
      FilterAppend(a, b');
    }
  }

  /** The days, or none when `days` is not an array. */
  function ActivityDays(a: Json): seq<string> {
    match Get(a, "days")
    case Some(JArray(items)) => ValidDays(items)
    case _ => []
  }

  /** `String(activity.name || 'Unnamed Activity').trim()`. */
  function ActivityName(a: Json): string {
    Trim(StringOr(Get(a, "name"), "Unnamed Activity"))
  }

  /** `String(x.category || 'general').toLowerCase().trim()`. */
  function CategoryOf(a: Json): string {
    Trim(ToLower(StringOr(Get(a, "category"), "general")))
  }

  /** The value carries its own `#rrggbb` colour. */
  predicate HasOwnColor(a: Json) {
    Get(a, "color").Some? && Get(a, "color").value.JString? && IsHexColor(Get(a, "color").value.s)
  }

  /** The colour kept when it is a `#rrggbb` string, else the palette's first. */
  function ActivityColor(a: Json): (c: string)
    ensures IsHexColor(c)
    ensures HasOwnColor(a) ==> c == Get(a, "color").value.s
    ensures !HasOwnColor(a) ==> c == FallbackColor()
  {
    match Get(a, "color")
    case Some(JString(c)) => if c != [] && IsHexColor(c) then c else FallbackColor()
    case _ => FallbackColor()
  }

  /** The value carries its own non-empty string id. */
  predicate HasOwnId(a: Json) {
    Get(a, "id").Some? && Get(a, "id").value.JString? && Get(a, "id").value.s != []
  }

  /** The id kept when it is a non-empty string, else "<category>-<suffix>". */
  function ActivityId(a: Json, suffix: string): (id: string)
    ensures id != []
    ensures HasOwnId(a) ==> id == Get(a, "id").value.s
    ensures !HasOwnId(a) ==> id == CategoryOf(a) + "-" + suffix
  {
    match Get(a, "id")
    case Some(JString(s)) => if s != [] then s else CategoryOf(a) + "-" + suffix
    case _ => CategoryOf(a) + "-" + suffix
  }

  /** What every accepted activity satisfies. */
  predicate WellFormedActivity(x: Activity) {
    && x.id != []
    && x.days != [] && (forall k :: 0 <= k < |x.days| ==> x.days[k] in Days)
    && MatchesTimePattern(x.startTime) && MatchesTimePattern(x.endTime)
    && IsTimeValid(x.startTime) && IsTimeValid(x.endTime)
    && TimeToMinutes(x.startTime) != TimeToMinutes(x.endTime)
    && IsHexColor(x.color)
  }

  /** The raw time strings of an activity value, once both are known to be strings. */
  predicate HasTimeStrings(a: Json) {
    && Get(a, "startTime").Some? && Get(a, "startTime").value.JString?
    && Get(a, "endTime").Some? && Get(a, "endTime").value.JString?
  }

  /** The conditions under which `validateActivity` returns instead of throwing. */
  predicate AcceptsActivity(a: Json) {
    && IsStructure(a)
    && ActivityDays(a) != []
    && HasTimeStrings(a)
    && MatchesTimePattern(Get(a, "startTime").value.s)
    && MatchesTimePattern(Get(a, "endTime").value.s)
    && IsTimeValid(Get(a, "startTime").value.s)
    && IsTimeValid(Get(a, "endTime").value.s)
    && !StrictEq(TimeToMinutes(Get(a, "endTime").value.s), TimeToMinutes(Get(a, "startTime").value.s))
  }

  /** `validateActivity`, with `suffix` standing for the timestamp and random part of a new id. */
  function ValidateActivity(a: Json, suffix: string): (r: Result<Activity, ValidationError>)
    ensures r.Success? <==> AcceptsActivity(a)
    ensures r.Failure? ==> !r.error.InvalidResponse? && !r.error.InvalidGoal?
    ensures r.Failure? && !IsStructure(a) ==> r.error == InvalidActivity
    ensures r.Failure? && IsStructure(a) && ActivityDays(a) == []
            ==> r.error == NoValidDays(ActivityName(a))
    ensures r.Success? ==> WellFormedActivity(r.value)
    ensures r.Success? ==> && r.value.name == ActivityName(a)
                           && r.value.category == CategoryOf(a)
                           && r.value.days == ActivityDays(a)
                           && r.value.startTime == Get(a, "startTime").value.s
                           && r.value.endTime == Get(a, "endTime").value.s
                           && r.value.color == ActivityColor(a)
                           && r.value.id == ActivityId(a, suffix)
  {
    if !IsStructure(a) then Failure(InvalidActivity)
    else
      var name := ActivityName(a);
      var days := ActivityDays(a);
      if days == [] then Failure(NoValidDays(name))
      else
        var startTime :- ValidateTime(Get(a, "startTime"), name);
        var endTime :- ValidateTime(Get(a, "endTime"), name);
        if !IsTimeValid(startTime) || !IsTimeValid(endTime) then Failure(TimeOutOfRange(name))
        else if StrictEq(TimeToMinutes(endTime), TimeToMinutes(startTime)) then Failure(ZeroDuration(name))
        else
          Success(Activity(ActivityId(a, suffix), name, CategoryOf(a), days, startTime, endTime, ActivityColor(a)))
  }

  /**
   * An activity that wraps midnight (end before start) is accepted when both
   * ends are in the window, and its times come back unchanged.
   */
  lemma OvernightAccepted(a: Json, suffix: string)
    requires IsStructure(a) && ActivityDays(a) != [] && HasTimeStrings(a)
    requires MatchesTimePattern(Get(a, "startTime").value.s) && MatchesTimePattern(Get(a, "endTime").value.s)
    requires IsTimeValid(Get(a, "startTime").value.s) && IsTimeValid(Get(a, "endTime").value.s)
    requires Less(TimeToMinutes(Get(a, "endTime").value.s), TimeToMinutes(Get(a, "startTime").value.s))
    ensures ValidateActivity(a, suffix).Success?
    ensures ValidateActivity(a, suffix).value.startTime == Get(a, "startTime").value.s
    ensures ValidateActivity(a, suffix).value.endTime == Get(a, "endTime").value.s
  {
  }

  /** A start outside the window is refused with the range message, whatever the end. */
  lemma EarlyStartRefused(a: Json, suffix: string)
    requires IsStructure(a) && ActivityDays(a) != [] && HasTimeStrings(a)
    requires MatchesTimePattern(Get(a, "startTime").value.s) && MatchesTimePattern(Get(a, "endTime").value.s)
    requires !IsTimeValid(Get(a, "startTime").value.s)
    ensures ValidateActivity(a, suffix) == Failure(TimeOutOfRange(ActivityName(a)))
  {
  }

  /** Equal start and end times are refused with the zero-duration message. */
  lemma ZeroDurationRefused(a: Json, suffix: string)
    requires IsStructure(a) && ActivityDays(a) != [] && HasTimeStrings(a)
    requires Get(a, "startTime").value.s == Get(a, "endTime").value.s
    requires MatchesTimePattern(Get(a, "startTime").value.s) && IsTimeValid(Get(a, "startTime").value.s)
    ensures ValidateActivity(a, suffix) == Failure(ZeroDuration(ActivityName(a)))
  {
    var h, m := TimePatternValue(Get(a, "startTime").value.s);
  }

  // ---------------------------------------------------------------------
  // Weekly goals
  // ---------------------------------------------------------------------

  /** `Math.max(0, Math.floor(Number(x) || 0))` for an integer-valued `Number(x)`. */
  function TargetMinutes(v: Option<Json>): (t: nat)
    ensures TruthyNum(ToNumber(v)) ==> t == if ToNumber(v).v < 0 then 0 else ToNumber(v).v
    ensures !TruthyNum(ToNumber(v)) ==> t == 0
  {
    var n := ToNumber(v);
    if TruthyNum(n) && n.v > 0 then n.v else 0
  }

  /** A numeric target is clamped at zero; text that is not a number counts as zero. */
  lemma TargetMinutesExamples()
    ensures TargetMinutes(Some(JNumber(120))) == 120
    ensures TargetMinutes(Some(JNumber(-5))) == 0
    ensures TargetMinutes(None) == 0
    ensures TargetMinutes(Some(JString("lots"))) == 0
  {
    TrimKeeps("lots");
    assert !IsDigit("lots"[0]);
  }

  /** `validateWeeklyGoal`. */
  function ValidateWeeklyGoal(g: Json): (r: Result<WeeklyGoal, ValidationError>)
    ensures r.Failure? <==> !IsStructure(g)
    ensures r.Failure? ==> r.error == InvalidGoal
    ensures r.Success? ==> && r.value.name == Trim(StringOr(Get(g, "name"), "Unnamed Goal"))
                           && r.value.targetMinutes == TargetMinutes(Get(g, "targetMinutes"))
                           && r.value.targetMinutes >= 0
                           && r.value.category == CategoryOf(g)
  {
    if !IsStructure(g) then Failure(InvalidGoal)
    else
      Success(WeeklyGoal(Trim(StringOr(Get(g, "name"), "Unnamed Goal")),
                         TargetMinutes(Get(g, "targetMinutes")),
                         CategoryOf(g)))
  }

  // ---------------------------------------------------------------------
  // The whole response
  // ---------------------------------------------------------------------

  /**
   * `items.map(f)` where `f` may throw: the results in order, or the error
   * of the first element that throws. `f` is also given the index.
   */
  function MapIndexed<T>(items: seq<Json>, f: (Json, nat) -> Result<T, ValidationError>): (r: Result<seq<T>, ValidationError>)
    ensures r.Success? <==> forall i :: 0 <= i < |items| ==> f(items[i], i).Success?
    ensures r.Success? ==> |r.value| == |items| && forall i :: 0 <= i < |items| ==> r.value[i] == f(items[i], i).value
    ensures r.Failure? ==> exists k :: && 0 <= k < |items| && f(items[k], k) == Failure(r.error)
                                      && forall i :: 0 <= i < k ==> f(items[i], i).Success?
  {
    if items == [] then Success([])
    else
      var last := |items| - 1;
      var init := items[..last];
      assert forall i :: 0 <= i < last ==> init[i] == items[i];
      match MapIndexed(init, f)
      case Failure(e) => Failure(e)
      case Success(xs) =>
        match f(items[last], last)
        case Failure(e) => Failure(e)
        case Success(x) => Success(xs + [x])
  }

  function ValidateActivities(items: seq<Json>, suffix: nat -> string): (r: Result<seq<Activity>, ValidationError>)
    ensures r.Success? <==> forall i :: 0 <= i < |items| ==> ValidateActivity(items[i], suffix(i)).Success?
    ensures r.Success? ==> && |r.value| == |items|
                           && forall i :: 0 <= i < |items| ==> r.value[i] == ValidateActivity(items[i], suffix(i)).value
    ensures r.Failure? ==> exists k :: && 0 <= k < |items| && ValidateActivity(items[k], suffix(k)) == Failure(r.error)
                                      && forall i :: 0 <= i < k ==> ValidateActivity(items[i], suffix(i)).Success?
  {
    MapIndexed(items, (a, i) => ValidateActivity(a, suffix(i)))
  }

  /** `weeklyGoals.map(validateWeeklyGoal)`. */
  function ValidateWeeklyGoals(items: seq<Json>): (r: Result<seq<WeeklyGoal>, ValidationError>)
    ensures r.Success? <==> forall i :: 0 <= i < |items| ==> ValidateWeeklyGoal(items[i]).Success?
    ensures r.Success? ==> && |r.value| == |items|
                           && forall i :: 0 <= i < |items| ==> r.value[i] == ValidateWeeklyGoal(items[i]).value
    ensures r.Failure? ==> r.error == InvalidGoal
  {
    MapIndexed(items, (g, i) => ValidateWeeklyGoal(g))
  }

  /** The elements of an array-valued property, or none when it is missing or not an array. */
  function ArrayItems(v: Json, key: string): seq<Json> {
    match Get(v, key)
    case Some(JArray(items)) => items
    case _ => []
  }

  /**
   * `validateAndNormalizeResponse`: the activities are validated before the
   * weekly goals, so an invalid activity is reported even when a goal is
   * invalid too.
   */
  function ValidateAndNormalizeResponse(parsed: Json, suffix: nat -> string): (r: Result<ScheduleResponse, ValidationError>)
    ensures !IsStructure(parsed) ==> r == Failure(InvalidResponse)
    ensures var acts := ValidateActivities(ArrayItems(parsed, "activities"), suffix);
            IsStructure(parsed) && acts.Failure? ==> r == Failure(acts.error)
    ensures var acts := ValidateActivities(ArrayItems(parsed, "activities"), suffix);
            var goals := ValidateWeeklyGoals(ArrayItems(parsed, "weeklyGoals"));
            IsStructure(parsed) && acts.Success? && goals.Failure? ==> r == Failure(InvalidGoal)
    ensures var acts := ValidateActivities(ArrayItems(parsed, "activities"), suffix);
            var goals := ValidateWeeklyGoals(ArrayItems(parsed, "weeklyGoals"));
            IsStructure(parsed) && acts.Success? && goals.Success?
            ==> r == Success(ScheduleResponse(acts.value, goals.value))
  {
    if !IsStructure(parsed) then Failure(InvalidResponse)
    else
      var activities :- ValidateActivities(ArrayItems(parsed, "activities"), suffix);
      var weeklyGoals :- ValidateWeeklyGoals(ArrayItems(parsed, "weeklyGoals"));
      Success(ScheduleResponse(activities, weeklyGoals))
  }

  /**
   * An accepted response has one normalized activity per input activity, each
   * well formed, and one goal per input goal, none with a negative target.
   */
  lemma AcceptedResponse(parsed: Json, suffix: nat -> string)
    requires ValidateAndNormalizeResponse(parsed, suffix).Success?
    ensures var r := ValidateAndNormalizeResponse(parsed, suffix).value;
            && |r.activities| == |ArrayItems(parsed, "activities")|
            && |r.weeklyGoals| == |ArrayItems(parsed, "weeklyGoals")|
            && (forall k :: 0 <= k < |r.activities| ==> WellFormedActivity(r.activities[k]))
            && (forall k :: 0 <= k < |r.weeklyGoals| ==> r.weeklyGoals[k].targetMinutes >= 0)
  {
    var acts := ValidateActivities(ArrayItems(parsed, "activities"), suffix);
    var goals := ValidateWeeklyGoals(ArrayItems(parsed, "weeklyGoals"));
    assert IsStructure(parsed) && acts.Success? && goals.Success?;
  }

  /** An array, or an object without `activities` and `weeklyGoals` arrays, gives the empty schedule. */
  lemma MissingListsAreEmpty(parsed: Json, suffix: nat -> string)
    requires parsed.JArray? || (parsed.JObject? && ArrayItems(parsed, "activities") == []
                                && ArrayItems(parsed, "weeklyGoals") == [])
    ensures ValidateAndNormalizeResponse(parsed, suffix) == Success(ScheduleResponse([], []))
  {
  }

  /** The response fails with the error of its first invalid activity. */
  lemma FirstInvalidActivity(parsed: Json, suffix: nat -> string, k: nat)
    requires parsed.JObject? && k < |ArrayItems(parsed, "activities")|
    requires ValidateActivity(ArrayItems(parsed, "activities")[k], suffix(k)).Failure?
    requires forall i :: 0 <= i < k ==> ValidateActivity(ArrayItems(parsed, "activities")[i], suffix(i)).Success?
    ensures ValidateAndNormalizeResponse(parsed, suffix)
            == Failure(ValidateActivity(ArrayItems(parsed, "activities")[k], suffix(k)).error)
  {
    FirstInvalidInList(ArrayItems(parsed, "activities"), suffix, k);
  }

  lemma FirstInvalidInList(items: seq<Json>, suffix: nat -> string, k: nat)
    requires k < |items| && ValidateActivity(items[k], suffix(k)).Failure?
    requires forall i :: 0 <= i < k ==> ValidateActivity(items[i], suffix(i)).Success?
    ensures ValidateActivities(items, suffix) == Failure(ValidateActivity(items[k], suffix(k)).error)
  {
    var r := ValidateActivities(items, suffix);
    var j :| && 0 <= j < |items| && ValidateActivity(items[j], suffix(j)) == Failure(r.error)
             && forall i :: 0 <= i < j ==> ValidateActivity(items[i], suffix(i)).Success?;
    assert j == k;
  }

  /** A response whose activities are all valid but one of whose goals is not fails with the goal error. */
  lemma InvalidGoalReported(parsed: Json, suffix: nat -> string, k: nat)
    requires parsed.JObject? && k < |ArrayItems(parsed, "weeklyGoals")|
    requires !IsStructure(ArrayItems(parsed, "weeklyGoals")[k])
    requires ValidateActivities(ArrayItems(parsed, "activities"), suffix).Success?
    ensures ValidateAndNormalizeResponse(parsed, suffix) == Failure(InvalidGoal)
  {
    InvalidGoalInList(ArrayItems(parsed, "weeklyGoals"), k);
    assert IsStructure(parsed);
  }

  lemma InvalidGoalInList(items: seq<Json>, k: nat)
    requires k < |items| && !IsStructure(items[k])
    ensures ValidateWeeklyGoals(items) == Failure(InvalidGoal)
  {
    assert ValidateWeeklyGoal(items[k]).Failure?;
  }

  // ---------------------------------------------------------------------
  // Pulling the JSON text out of a free-text reply
  // ---------------------------------------------------------------------

  const Fence: string := "```"

  /** Where a fenced block's content starts: after the fence, an optional `json` tag and whitespace. */
  function FenceContentStart(text: string, open: nat): (s: nat)
    requires OccursAt(text, Fence, open)
    ensures open + 3 <= s <= |text|
  {
    var afterTag := if OccursAt(text, "json", open + 3) then open + 7 else open + 3;
    SkipWhitespace(text, afterTag)
  }

  /** Some `{` comes before some `}`: the pattern `/\{[\s\S]*\}/` has a match. */
  ghost predicate HasBracePair(text: string) {
    exists i, j :: 0 <= i < j < |text| && text[i] == '{' && text[j] == '}'
  }

  /** `i` is the text's first `{` and `j` its last `}`, with the `{` first. */
  ghost predicate OutermostBraces(text: string, i: int, j: int) {
    0 <= i < j < |text| && text[i] == '{' && text[j] == '}' && '{' !in text[..i] && '}' !in text[j + 1..]
  }

  /**
   * `/\{[\s\S]*\}/`: the leftmost match starts at the first `{` and, being
   * greedy, runs to the last `}`; there is a match exactly when some `{`
   * precedes some `}`.
   */
  function BraceSpan(text: string): (r: Option<string>)
    ensures r.Some? <==> HasBracePair(text)
    ensures r.Some? ==> exists i, j :: OutermostBraces(text, i, j) && r.value == text[i..j + 1]
    ensures forall i, j :: OutermostBraces(text, i, j) ==> r == Some(text[i..j + 1])
    ensures r.Some? ==> exists i, j :: 0 <= i < j <= |text| && r.value == text[i..j]
    ensures r.Some? ==> r.value != [] && r.value[0] == '{' && r.value[|r.value| - 1] == '}'
  {
    BraceEnds(text);
    match (IndexOf(text, '{'), LastIndexOf(text, '}'))
    case (Some(a), Some(b)) => if a < b then Some(text[a..b + 1]) else None
    case _ => None
  }

  /** The first `{` and the last `}` are the outermost braces, and a pair exists exactly when they are in order. */
  lemma BraceEnds(text: string)
    ensures forall i, j :: OutermostBraces(text, i, j) ==> IndexOf(text, '{') == Some(i) && LastIndexOf(text, '}') == Some(j)
    ensures HasBracePair(text) <==>
              IndexOf(text, '{').Some? && LastIndexOf(text, '}').Some? && IndexOf(text, '{').value < LastIndexOf(text, '}').value
    ensures IndexOf(text, '{').Some? && LastIndexOf(text, '}').Some? && IndexOf(text, '{').value < LastIndexOf(text, '}').value ==>
              OutermostBraces(text, IndexOf(text, '{').value, LastIndexOf(text, '}').value)
  {
    forall i, j | OutermostBraces(text, i, j)
      ensures IndexOf(text, '{') == Some(i) && LastIndexOf(text, '}') == Some(j)
    {
      FirstAt(text, '{', i);
      LastAt(text, '}', j);
    }
    if HasBracePair(text) {
      var i, j :| 0 <= i < j < |text| && text[i] == '{' && text[j] == '}';
      FirstAt(text, '{', i);
      LastAt(text, '}', j);
    }
  }

  /** The first `c` comes no later than any `c`, and is it when none precedes. */
  lemma FirstAt(text: string, c: char, i: nat)
    requires i < |text| && text[i] == c
    ensures IndexOf(text, c).Some? && IndexOf(text, c).value <= i
    ensures c !in text[..i] ==> IndexOf(text, c) == Some(i)
  {
    var a := IndexOf(text, c).value;
    assert forall k | 0 <= k < a :: text[..a][k] == text[k];
    assert forall k | 0 <= k < i :: text[..i][k] == text[k];
  }

  /** The last `c` comes no earlier than any `c`, and is it when none follows. */
  lemma LastAt(text: string, c: char, j: nat)
    requires j < |text| && text[j] == c
    ensures LastIndexOf(text, c).Some? && LastIndexOf(text, c).value >= j
    ensures c !in text[j + 1..] ==> LastIndexOf(text, c) == Some(j)
  {
    var b := LastIndexOf(text, c).value;
    assert forall k | b < k < |text| :: text[b + 1..][k - b - 1] == text[k];
    assert forall k | j < k < |text| :: text[j + 1..][k - j - 1] == text[k];
  }

  /**
   * `extractJSON`: the trimmed content of the first fenced block (closed by
   * the next fence), else the brace span, else the whole text trimmed.
   */
  function ExtractJson(text: string): (r: string)
    ensures exists i, j :: 0 <= i <= j <= |text| && (r == text[i..j] || r == Trim(text[i..j]))
  {
    match FindFrom(text, Fence, 0)
    case Some(open) =>
      var start := FenceContentStart(text, open);
      (match FindFrom(text, Fence, start)
       case Some(close) => Trim(text[start..close])
       case None => Unfenced(text))
    case None => Unfenced(text)
  }

  /** The fallback when no fenced block closes: the brace span, or else the trimmed text. */
  function Unfenced(text: string): (r: string)
    ensures forall i, j :: OutermostBraces(text, i, j) ==> r == text[i..j + 1]
    ensures !HasBracePair(text) ==> r == Trim(text)
    ensures exists i, j :: 0 <= i <= j <= |text| && (r == text[i..j] || r == Trim(text[i..j]))
  {
    match BraceSpan(text)
    case Some(span) => span
    case None => assert text == text[0..|text|]; Trim(text)
  }

  /**
   * The first fenced block wins, closed at the next fence: when neither the
   * text before the opening fence nor the block's body holds a backtick, a
   * block with no tag or a `json` tag gives its trimmed body, whatever
   * follows the closing fence (more prose, or further blocks).
   */
  lemma FirstFencedBlock(pre: string, tag: string, body: string, post: string)
    requires '`' !in pre && '`' !in body
    requires tag == "" || tag == "json"
    requires tag == "" ==> !StartsWith(body, "json")
    ensures ExtractJson(pre + Fence + tag + body + Fence + post) == Trim(body)
  {
    var text := pre + Fence + tag + body + Fence + post;
    var b0 := |pre| + 3 + |tag|;
    var q := b0 + |body|;
    BlockLayout(text, pre, tag, body, post);
    assert Trim(text[b0..q]) == Trim(body);
    FencedBlockAt(text, |pre|, b0, q);
    assert ExtractJson(text) == Trim(text[b0..q]);
  }

  /** A reply that is exactly a `json`-tagged fenced block gives the block's trimmed content. */
  lemma FencedReply(body: string)
    requires '`' !in body
    ensures ExtractJson("```json" + body + "```") == Trim(body)
  {
    assert "" + Fence + "json" + body + Fence + "" == "```json" + body + "```";
    FirstFencedBlock("", "json", body, "");
  }

  /**
   * Where the pieces of a reply made of a prefix, a fenced block and a suffix
   * lie, in the terms `FencedBlockAt` asks for.
   */
  lemma BlockLayout(text: string, pre: string, tag: string, body: string, post: string)
    requires text == pre + Fence + tag + body + Fence + post
    requires '`' !in pre && '`' !in body
    requires tag == "" || tag == "json"
    requires tag == "" ==> !StartsWith(body, "json")
    ensures var p := |pre|; var b0 := |pre| + 3 + |tag|;
            && b0 + |body| + 3 <= |text| && OccursAt(text, Fence, p) && OccursAt(text, Fence, b0 + |body|)
            && Trim(text[b0..b0 + |body|]) == Trim(body)
            && (b0 == if OccursAt(text, "json", p + 3) then p + 7 else p + 3)
            && (forall j :: 0 <= j < p ==> text[j] != '`')
            && (forall j :: b0 <= j < b0 + |body| ==> text[j] != '`')
  {
    var p, b0 := |pre|, |pre| + 3 + |tag|;
    BlockSlices(text, pre, tag, body, post);
    TagRead(text, p, tag, body);
    NoBacktickIn(text, 0, pre);
    NoBacktickIn(text, b0, body);
  }

  lemma NoBacktickIn(text: string, from: nat, piece: string)
    requires from + |piece| <= |text| && text[from..from + |piece|] == piece && '`' !in piece
    ensures forall j :: from <= j < from + |piece| ==> text[j] != '`'
  {
    forall j | from <= j < from + |piece|
      ensures text[j] != '`'
    {
      assert text[j] == piece[j - from];
    }
  }

  /** The pieces of a reply made of a prefix, a fenced block and a suffix. */
  lemma BlockSlices(text: string, pre: string, tag: string, body: string, post: string)
    requires text == pre + Fence + tag + body + Fence + post
    ensures var p := |pre|; var b0 := |pre| + 3 + |tag|;
            && b0 + |body| + 3 <= |text| && text[0..p] == pre && OccursAt(text, Fence, p)
            && text[p + 3..b0] == tag && text[b0..b0 + |body|] == body && OccursAt(text, Fence, b0 + |body|)
  {
    var b0 := |pre| + 3 + |tag|;
    assert text == (pre + Fence + tag) + body + (Fence + post);
    assert text[b0..b0 + |body|] == body;
    assert text[b0 + |body|..b0 + |body| + 3] == Fence;
  }

  /** The regex reads a `json` tag after the fence exactly when the block has one. */
  lemma TagRead(text: string, p: nat, tag: string, body: string)
    requires p + 3 + |tag| + |body| + 3 <= |text| && OccursAt(text, Fence, p + 3 + |tag| + |body|)
    requires text[p + 3..p + 3 + |tag|] == tag && text[p + 3 + |tag|..p + 3 + |tag| + |body|] == body
    requires '`' !in body
    requires tag == "" || tag == "json"
    requires tag == "" ==> !StartsWith(body, "json")
    ensures OccursAt(text, "json", p + 3) <==> tag == "json"
  {
    var q := p + 3 + |tag| + |body|;
    assert text[q] == text[q..q + 3][0] == '`';
    if tag == "json" {
      assert text[p + 3..p + 7] == "json";
    } else if |body| >= 4 {
      assert text[p + 3..p + 7] == body[..4];
    } else if p + 7 <= |text| {
      assert text[p + 3..p + 7][|body|] == text[p + 3 + |body|];
    }
  }

  /**
   * A block whose fence at `p` is the first one, whose content (after the
   * tag the regex reads) starts at `b0`, and which the fence at `q` closes,
   * gives the trimmed text between.
   */
  lemma FencedBlockAt(text: string, p: nat, b0: nat, q: nat)
    requires p + 3 <= b0 <= q && OccursAt(text, Fence, p) && OccursAt(text, Fence, q)
    requires forall j :: 0 <= j < p ==> text[j] != '`'
    requires b0 == if OccursAt(text, "json", p + 3) then p + 7 else p + 3
    requires forall j :: b0 <= j < q ==> text[j] != '`'
    ensures ExtractJson(text) == Trim(text[b0..q])
  {
    NoFenceBefore(text, 0, p);
    FindFirst(text, Fence, 0, p);
    var start := FenceContentStart(text, p);
    assert start == SkipWhitespace(text, b0);
    assert text[q] == text[q..q + 3][0];
    NoFenceBefore(text, start, q);
    FindFirst(text, Fence, start, q);
    BlockContent(text, b0, start, q);
    ExtractBlock(text, p, start, q, Trim(text[b0..q]));
  }

  /** No fence starts on a stretch without backticks. */
  lemma NoFenceBefore(text: string, from: nat, q: nat)
    requires q <= |text|
    requires forall j :: from <= j < q ==> text[j] != '`'
    ensures forall j :: from <= j < q ==> !OccursAt(text, Fence, j)
  {
    forall j | from <= j < q && j + 3 <= |text|
      ensures !OccursAt(text, Fence, j)
    {
      assert text[j..j + 3][0] == text[j];
    }
  }

  /** The content of the first block is what `extractJSON` returns, trimmed. */
  lemma ExtractBlock(text: string, open: nat, start: nat, close: nat, content: string)
    requires FindFrom(text, Fence, 0) == Some(open) && FenceContentStart(text, open) == start
    requires FindFrom(text, Fence, start) == Some(close)
    requires start <= close && Trim(text[start..close]) == content
    ensures ExtractJson(text) == content
  {
  }

  /** Content that starts after whitespace trims to the same text as the whole block. */
  lemma BlockContent(text: string, b0: nat, start: nat, q: nat)
    requires b0 <= start <= q <= |text|
    requires forall j :: b0 <= j < start ==> IsWhitespace(text[j])
    ensures Trim(text[start..q]) == Trim(text[b0..q])
  {
    var block := text[b0..q];
    assert text[start..q] == block[start - b0..];
    forall j | 0 <= j < start - b0
      ensures IsWhitespace(block[j])
    {
      assert block[j] == text[j + b0];
    }
    TrimAfterWhitespace(block, start - b0);
  }

  /** Without a backtick there is no fence to find. */
  lemma NoFence(text: string, from: nat)
    requires '`' !in text
    ensures FindFrom(text, Fence, from).None?
  {
    forall j | from <= j
      ensures !OccursAt(text, Fence, j)
    {
      if j + 3 <= |text| {
        assert text[j..j + 3][0] == text[j] != '`';
      }
    }
  }

  /** `FindFrom` finds the first occurrence. */
  lemma FindFirst(s: string, t: string, from: nat, q: nat)
    requires from <= q && OccursAt(s, t, q)
    requires forall j :: from <= j < q ==> !OccursAt(s, t, j)
    ensures FindFrom(s, t, from) == Some(q)
  {
  }

  /**
   * No fenced block closes: there is no fence, or no second fence after the
   * first one's tag and whitespace, so the code-block pattern fails.
   */
  ghost predicate NoClosedBlock(text: string) {
    match FindFrom(text, Fence, 0)
    case None => true
    case Some(open) => FindFrom(text, Fence, FenceContentStart(text, open)).None?
  }

  /** A text without a backtick has no closed block. */
  lemma NoBacktickNoBlock(text: string)
    requires '`' !in text
    ensures NoClosedBlock(text)
  {
    NoFence(text, 0);
  }

  /** A fence that opens and is never closed, as in a reply cut off mid-block, closes no block. */
  lemma UnclosedFence(pre: string, rest: string)
    requires '`' !in pre && '`' !in rest
    ensures NoClosedBlock(pre + Fence + rest)
  {
    var text := pre + Fence + rest;
    var p := |pre|;
    forall j | 0 <= j < p
      ensures text[j] != '`'
    {
      assert text[j] == pre[j];
    }
    forall j | p + 3 <= j < |text|
      ensures text[j] != '`'
    {
      assert text[j] == rest[j - p - 3];
    }
    assert text[p..p + 3] == Fence;
    NoFenceBefore(text, 0, p);
    FindFirst(text, Fence, 0, p);
    NoFenceBefore(text, p + 3, |text|);
  }

  /** A reply that is a bare object, and closes no fenced block, is returned as it is. */
  lemma BareObjectReply(text: string)
    requires |text| >= 2 && text[0] == '{' && text[|text| - 1] == '}'
    requires NoClosedBlock(text)
    ensures ExtractJson(text) == text
  {
    assert text[..0] == [] && text[|text|..] == [];
    assert OutermostBraces(text, 0, |text| - 1);
    assert text[0..|text|] == text;
  }

  /** Prose around an object, closing no fenced block, is cut away up to the outermost braces. */
  lemma ProseAroundObject(before: string, obj: string, after: string)
    requires '{' !in before && '}' !in after && NoClosedBlock(before + obj + after)
    requires |obj| >= 2 && obj[0] == '{' && obj[|obj| - 1] == '}'
    ensures ExtractJson(before + obj + after) == obj
  {
    var text := before + obj + after;
    var a := |before|;
    var b := |before| + |obj| - 1;
    assert text[a] == '{' && text[..a] == before;
    assert text[b] == '}' && text[b + 1..] == after;
    assert OutermostBraces(text, a, b);
    assert text[a..b + 1] == obj;
  }

  /**
   * A reply cut off after its opening ```` ```json ```` tag falls back to the
   * brace span: the unclosed block is ignored.
   */
  lemma TruncatedJsonReply(ws: string, obj: string)
    requires '`' !in obj && '{' !in ws && '`' !in ws
    requires |obj| >= 2 && obj[0] == '{' && obj[|obj| - 1] == '}'
    ensures ExtractJson("```json" + ws + obj) == obj
  {
    var before := "```json" + ws;
    assert "```json" + ws + obj == before + obj + "";
    TruncatedOpening(ws, obj);
    ProseAroundObject(before, obj, "");
  }

  lemma TruncatedOpening(ws: string, obj: string)
    requires '`' !in obj && '`' !in ws
    ensures NoClosedBlock(("```json" + ws) + obj + "")
  {
    assert ("```json" + ws) + obj + "" == "" + Fence + ("json" + ws + obj);
    UnclosedFence("", "json" + ws + obj);
  }

  /** The reply "```json\n{\"a\": 1}", cut off before its closing fence, gives the object. */
  lemma TruncatedJsonExample(reply: string)
    requires reply == "```json\n{\"a\": 1}"
    ensures ExtractJson(reply) == "{\"a\": 1}"
  {
    var ws, obj := "\n", "{\"a\": 1}";
    assert reply == "```json" + ws + obj;
    TruncatedJsonReply(ws, obj);
  }

  /** With no closed block and no `{` before a `}`, the text is only trimmed. */
  lemma PlainReply(text: string)
    requires NoClosedBlock(text) && !HasBracePair(text)
    ensures ExtractJson(text) == Trim(text)
  {
  }
}
