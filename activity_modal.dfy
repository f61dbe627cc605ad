/**
 * The add/edit form for one per-day activity (components/ActivityModal.tsx):
 * the initial field values, and the validation in `handleSubmit` that either
 * rejects the form with one of three alerts or builds the activity passed to
 * `onSave`. The current time used to name new activities is a parameter.
 */
module ActivityModal {
  import opened Wrappers
  import opened Js
  import opened TimeUtils
  import opened ScheduleTypes

  /** The colour of a saved activity whose category has none. */
  const DefaultColor: string := "#6b7280"

  /** The five form fields the modal keeps as state. */
  datatype Form = Form(name: string, day: string, startTime: string, endTime: string, category: string)

  /** The alert that stops a submission. */
  datatype SubmitError = EmptyName | EndNotAfterStart | TooShort

  /** `existingCategories[0]?.name || 'work'`. */
  function DefaultCategory(categories: seq<CategoryInfo>): (c: string)
    ensures c != []
    ensures |categories| > 0 && categories[0].name != [] ==> c == categories[0].name
  {
    if |categories| > 0 && categories[0].name != [] then categories[0].name else "work"
  }

  /** The form after its effect runs: the edited activity's fields, or the defaults for a new one. */
  function InitialForm(activity: Option<EditableActivity>, categories: seq<CategoryInfo>): (f: Form)
    ensures activity.Some? ==>
              f == Form(activity.value.name, activity.value.day, activity.value.startTime,
                        activity.value.endTime, activity.value.category)
    ensures activity.None? ==> f.name == [] && f.day == Days[0] && f.category == DefaultCategory(categories)
    ensures activity.None? ==> TimeToMinutes(f.startTime) == Int(540) && TimeToMinutes(f.endTime) == Int(600)
  {
    if activity.Some? then
      var a := activity.value;
      Form(a.name, a.day, a.startTime, a.endTime, a.category)
    else
      DefaultTimes();
      Form("", "Monday", "09:00", "10:00", DefaultCategory(categories))
  }

  /** The default times read as 09:00 and 10:00. */
  lemma DefaultTimes()
    ensures TimeToMinutes("09:00") == Int(540) && TimeToMinutes("10:00") == Int(600)
  {
    ClockText(540, 0, 9, 0, 0);
    MinutesRoundTrip(540);
    ClockText(600, 1, 0, 0, 0);
    MinutesRoundTrip(600);
  }

  /** Category names compare ignoring (ASCII) case. */
  predicate SameCategory(c: CategoryInfo, category: string) {
    ToLower(c.name) == ToLower(category)
  }

  /** `existingCategories.find(...)`, as the index of the first category with a matching name. */
  function FindCategory(categories: seq<CategoryInfo>, category: string): (r: Option<nat>)
    ensures r.Some? ==> r.value < |categories| && SameCategory(categories[r.value], category)
    ensures r.Some? ==> forall j :: 0 <= j < r.value ==> !SameCategory(categories[j], category)
    ensures r.None? ==> forall j :: 0 <= j < |categories| ==> !SameCategory(categories[j], category)
  {
    if |categories| == 0 then None
    else if SameCategory(categories[0], category) then Some(0)
    else
      var rest := FindCategory(categories[1..], category);
      if rest.Some? then Some(rest.value + 1) else None
  }

  /**
   * `(found || existingCategories[0])?.color || '#6b7280'`: the colour of the
   * first matching category, or of the first category when none matches, or
   * the default when there is no category or the chosen one has no colour.
   */
  function CategoryColor(categories: seq<CategoryInfo>, category: string): (color: string)
    ensures color != []
    ensures color == DefaultColor || exists i :: 0 <= i < |categories| && categories[i].color == color
  {
    var found := FindCategory(categories, category);
    if found.Some? then
      (if categories[found.value].color != [] then categories[found.value].color else DefaultColor)
    else if |categories| > 0 && categories[0].color != [] then categories[0].color
    else DefaultColor
  }

  /** A category that matches takes precedence over the first one, whatever its position. */
  lemma ColorOfMatchingCategory(categories: seq<CategoryInfo>, category: string, i: nat)
    requires i < |categories| && SameCategory(categories[i], category) && categories[i].color != []
    requires forall j :: 0 <= j < i ==> !SameCategory(categories[j], category)
    ensures CategoryColor(categories, category) == categories[i].color
  {
    var found := FindCategory(categories, category);
    assert found.Some? && found.value == i;
  }

  /** With no matching category the first category's colour is used. */
  lemma ColorWithoutMatch(categories: seq<CategoryInfo>, category: string)
    requires |categories| > 0 && categories[0].color != []
    requires forall j :: 0 <= j < |categories| ==> !SameCategory(categories[j], category)
    ensures CategoryColor(categories, category) == categories[0].color
  {
  }

  /** `activity?.id || fallback`: an edited activity keeps a non-empty id. */
  function KeptOr(activity: Option<EditableActivity>, own: string, fallback: string): (s: string)
    requires activity.Some? ==> own == activity.value.id || own == activity.value.originalId
    ensures activity.Some? && own != [] ==> s == own
    ensures activity.None? || own == [] ==> s == fallback
  {
    if activity.Some? && own != [] then own else fallback
  }

  /** `activity-${Date.now()}`. */
  function NewOriginalId(now: nat): string {
    "activity-" + NatToDecimal(now)
  }

  /** `activity-${Date.now()}-${day.toLowerCase()}`. */
  function NewId(now: nat, day: string): string {
    NewOriginalId(now) + "-" + ToLower(day)
  }

  /**
   * A new id is the new original id followed by "-" and the lower-cased day
   * exactly when the two clock reads agree.
   */
  lemma NewIdsAgree(idNow: nat, originalIdNow: nat, day: string)
    ensures NewId(idNow, day) == NewOriginalId(originalIdNow) + "-" + ToLower(day) <==> idNow == originalIdNow
  {
    var a, b := NatToDecimal(idNow), NatToDecimal(originalIdNow);
    var tail := "-" + ToLower(day);
    assert NewId(idNow, day) == ("activity-" + a) + tail;
    if ("activity-" + a) + tail == ("activity-" + b) + tail {
      assert "activity-" + a == (("activity-" + a) + tail)[..9 + |a|];
      assert "activity-" + b == (("activity-" + b) + tail)[..9 + |b|];
      assert a == ("activity-" + a)[9..] && b == ("activity-" + b)[9..];
      DecimalRoundTrip(idNow);
      DecimalRoundTrip(originalIdNow);
    }
  }

  /**
   * `handleSubmit`: a blank name, an end not after the start, or a span
   * shorter than 30 minutes stops the submission with its alert; otherwise
   * the saved activity carries the trimmed name, the form's day, times and
   * category as typed, the edited activity's ids (or new ones), and the
   * colour of the chosen category. The two new ids read the clock once each:
   * `idNow` for the id and `originalIdNow` for the original id, which may
   * differ, so a new id need not extend the new original id.
   */
  function HandleSubmit(form: Form, activity: Option<EditableActivity>, categories: seq<CategoryInfo>,
                        idNow: nat, originalIdNow: nat)
    : (r: Result<EditableActivity, SubmitError>)
    ensures Trim(form.name) == [] ==> r == Failure(EmptyName)
    ensures r.Success? ==>
              r.value.name == Trim(form.name) && r.value.name != []
              && r.value.day == form.day && r.value.startTime == form.startTime
              && r.value.endTime == form.endTime && r.value.category == form.category
              && r.value.color == CategoryColor(categories, form.category)
    ensures r.Success? && activity.Some? && activity.value.id != [] ==> r.value.id == activity.value.id
    ensures r.Success? && (activity.None? || activity.value.id == []) ==> r.value.id == NewId(idNow, form.day)
    ensures r.Success? && activity.Some? && activity.value.originalId != [] ==>
              r.value.originalId == activity.value.originalId
    ensures r.Success? && (activity.None? || activity.value.originalId == []) ==>
              r.value.originalId == NewOriginalId(originalIdNow)
  {
    var name := Trim(form.name);
    if name == [] then Failure(EmptyName)
    else
      var start := TimeToMinutes(form.startTime);
      var end := TimeToMinutes(form.endTime);
      if LessEq(end, start) then Failure(EndNotAfterStart)
      else if Less(Sub(end, start), Int(30)) then Failure(TooShort)
      else
        var id := KeptOr(activity, if activity.Some? then activity.value.id else "", NewId(idNow, form.day));
        var originalId := KeptOr(activity, if activity.Some? then activity.value.originalId else "", NewOriginalId(originalIdNow));
        Success(EditableActivity(id, originalId, name, form.day, form.startTime, form.endTime,
                                 form.category, CategoryColor(categories, form.category)))
  }

  /**
   * With readable times and a non-blank name, the form is saved exactly when
   * the end lies at least 30 minutes after the start; an end at or before the
   * start (so any span across midnight) and a shorter span get their own alerts.
   */
  lemma SubmitOfClockTimes(form: Form, activity: Option<EditableActivity>, categories: seq<CategoryInfo>,
                           idNow: nat, originalIdNow: nat, s: int, e: int)
    requires Trim(form.name) != []
    requires TimeToMinutes(form.startTime) == Int(s) && TimeToMinutes(form.endTime) == Int(e)
    ensures HandleSubmit(form, activity, categories, idNow, originalIdNow).Success? <==> e - s >= 30
    ensures e <= s ==> HandleSubmit(form, activity, categories, idNow, originalIdNow) == Failure(EndNotAfterStart)
    ensures s < e < s + 30 ==> HandleSubmit(form, activity, categories, idNow, originalIdNow) == Failure(TooShort)
  {
  }

  /**
   * A time field that does not read as a number (the empty field among them)
   * makes both comparisons false, so the form is saved.
   */
  lemma UnreadableTimeIsSaved(form: Form, activity: Option<EditableActivity>, categories: seq<CategoryInfo>,
                              idNow: nat, originalIdNow: nat)
    requires Trim(form.name) != []
    requires TimeToMinutes(form.startTime).NaN? || TimeToMinutes(form.endTime).NaN?
    ensures HandleSubmit(form, activity, categories, idNow, originalIdNow).Success?
  {
  }

  /** The empty time field reads as NaN: its one field gives no minutes. */
  lemma EmptyTimeIsNaN()
    ensures TimeToMinutes("").NaN?
  {
    SplitNoSeparator("", ':');
  }
}
