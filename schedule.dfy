/**
 * The records of types/schedule.ts, and the per-day editable activity that the
 * edit components exchange (its fields are the ones components/ActivityModal.tsx
 * builds).
 */
module ScheduleTypes {

  /** One recurring activity: a named, coloured time span on a list of days. */
  datatype Activity = Activity(
    id: string,
    name: string,
    category: string,
    days: seq<string>,
    startTime: string,
    endTime: string,
    color: string)

  /** A weekly time target for one category. */
  datatype WeeklyGoal = WeeklyGoal(name: string, targetMinutes: int, category: string)

  /** What the schedule generator returns. */
  datatype ScheduleResponse = ScheduleResponse(activities: seq<Activity>, weeklyGoals: seq<WeeklyGoal>)

  /** One activity on one day, as edited in the calendar. */
  datatype EditableActivity = EditableActivity(
    id: string,
    originalId: string,
    name: string,
    day: string,
    startTime: string,
    endTime: string,
    category: string,
    color: string)

  /** A legend or modal category entry. */
  datatype CategoryInfo = CategoryInfo(name: string, color: string, icon: string)

  /** The calendar's columns, Monday first. */
  const Days: seq<string> := ["Monday", "Tuesday", "Wednesday", "Thursday", "Friday", "Saturday", "Sunday"]

  /** `DAYS.indexOf(day)`: the column of a weekday, or -1 for anything else. */
  function DayIndex(day: string): (r: int)
    ensures -1 <= r < |Days|
    ensures r == -1 <==> day !in Days
    ensures r >= 0 ==> Days[r] == day
  {
    if day == "Monday" then 0
    else if day == "Tuesday" then 1
    else if day == "Wednesday" then 2
    else if day == "Thursday" then 3
    else if day == "Friday" then 4
    else if day == "Saturday" then 5
    else if day == "Sunday" then 6
    else -1
  }

  /** Every weekday finds its own column, so the seven columns are distinct. */
  lemma DayIndexOfDay(i: nat)
    requires i < |Days|
    ensures DayIndex(Days[i]) == i
  {
  }
}
