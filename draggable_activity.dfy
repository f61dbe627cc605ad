/**
 * Resizing one calendar block in edit mode (components/DraggableActivity.tsx).
 * The two resize handles record a minute delta for the top and the bottom
 * edge; releasing a handle either commits the proposed times through
 * `onResize` or drops them, and in every case clears the resize state.
 */
module DraggableActivity {
  import opened Wrappers
  import opened Js
  import opened TimeUtils
  import opened ScheduleTypes

  /** The shortest span a resize may leave, checked before clamping. */
  const MinDuration: int := 30

  /** One `onResize(activityId, newStartTime, newEndTime)` call. */
  datatype Resize = Resize(activityId: string, startTime: string, endTime: string)

  /** The list of `onResize` calls an optional commit makes. */
  function Calls(commit: Option<Resize>): (calls: seq<Resize>)
    ensures |calls| <= 1
    ensures commit.Some? ==> calls == [commit.value]
    ensures commit.None? ==> calls == []
  {
    if commit.Some? then [commit.value] else []
  }

  /** `if (m < minTime) m = minTime`; a NaN minute is left alone. */
  function RaiseTo(m: Num, floor: int): (r: Num)
    ensures m.NaN? ==> r.NaN?
    ensures m.Int? ==> r == Int(if m.v < floor then floor else m.v)
  {
    if Less(m, Int(floor)) then Int(floor) else m
  }

  /** `if (m > maxTime) m = maxTime`; a NaN minute is left alone. */
  function LowerTo(m: Num, ceiling: int): (r: Num)
    ensures m.NaN? ==> r.NaN?
    ensures m.Int? ==> r == Int(if m.v > ceiling then ceiling else m.v)
  {
    if Less(Int(ceiling), m) then Int(ceiling) else m
  }

  /**
   * What releasing a handle commits, given whether `onResize` was supplied and
   * the two recorded deltas: nothing when there is no callback or no change,
   * nothing when the shifted span is shorter than 30 minutes, and otherwise
   * the shifted times with the start raised to 03:30 and the end lowered to
   * 22:00.
   */
  function ResizeCommit(activity: EditableActivity, hasOnResize: bool, top: int, bottom: int): (r: Option<Resize>)
    ensures !hasOnResize || (top == 0 && bottom == 0) ==> r.None?
    ensures r.Some? ==> r.value.activityId == activity.id
  {
    if !hasOnResize || (top == 0 && bottom == 0) then None
    else CommitShifted(activity.id, Add(TimeToMinutes(activity.startTime), Int(top)),
                       Add(TimeToMinutes(activity.endTime), Int(bottom)))
  }

  /** The commit of an already shifted span: checked for length first, clamped afterwards. */
  function CommitShifted(id: string, start: Num, end: Num): (r: Option<Resize>)
    ensures r.Some? ==> r.value.activityId == id
  {
    if Less(Sub(end, start), Int(MinDuration)) then None
    else Some(Resize(id, MinutesToTime(RaiseTo(start, GridStart)), MinutesToTime(LowerTo(end, GridEnd))))
  }

  /** A numeric shifted span is committed exactly when it is 30 minutes or longer, clamped to the window. */
  lemma CommitOfMinutes(id: string, a: int, b: int)
    ensures CommitShifted(id, Int(a), Int(b)).Some? <==> b - a >= MinDuration
    ensures b - a >= MinDuration ==>
              CommitShifted(id, Int(a), Int(b))
              == Some(Resize(id, MinutesToTime(Int(if a < GridStart then GridStart else a)),
                             MinutesToTime(Int(if b > GridEnd then GridEnd else b))))
  {
    var lo := if a < GridStart then GridStart else a;
    var hi := if b > GridEnd then GridEnd else b;
    assert RaiseTo(Int(a), GridStart) == Int(lo);
    assert LowerTo(Int(b), GridEnd) == Int(hi);
    assert Less(Sub(Int(b), Int(a)), Int(MinDuration)) <==> b - a < MinDuration;
  }

  /**
   * With readable times, the commit is that of the shifted minutes, which
   * `CommitOfMinutes` and `CommittedMinutes` describe.
   */
  lemma ShiftedCommit(activity: EditableActivity, top: int, bottom: int, s: int, e: int)
    requires TimeToMinutes(activity.startTime) == Int(s) && TimeToMinutes(activity.endTime) == Int(e)
    requires top != 0 || bottom != 0
    ensures ResizeCommit(activity, true, top, bottom) == CommitShifted(activity.id, Int(s + top), Int(e + bottom))
  {
    var start := Add(TimeToMinutes(activity.startTime), Int(top));
    var end := Add(TimeToMinutes(activity.endTime), Int(bottom));
    assert start == Int(s + top) && end == Int(e + bottom);
    assert ResizeCommit(activity, true, top, bottom) == CommitShifted(activity.id, start, end);
  }

  /** The committed times of a numeric span read back as its clamped minutes. */
  lemma CommittedMinutes(id: string, a: int, b: int)
    requires b - a >= MinDuration
    ensures var r := CommitShifted(id, Int(a), Int(b));
            r.Some? && TimeToMinutes(r.value.startTime) == Int(if a < GridStart then GridStart else a)
    ensures var r := CommitShifted(id, Int(a), Int(b));
            b >= 0 ==> TimeToMinutes(r.value.endTime) == Int(if b > GridEnd then GridEnd else b)
  {
    CommitOfMinutes(id, a, b);
    MinutesRoundTrip(if a < GridStart then GridStart else a);
    if b >= 0 {
      MinutesRoundTrip(if b > GridEnd then GridEnd else b);
    }
  }

  /**
   * The clamp runs after the 30-minute check, so a committed span can be
   * shorter than 30 minutes: a shifted span that starts before 03:30 and ends
   * before 04:00 is committed from 03:30 to its end (times that read back as
   * those minutes, by `CommittedMinutes`).
   */
  lemma ClampAfterCheck(id: string, a: int, b: int)
    requires a < GridStart && GridStart <= b < GridStart + MinDuration
    requires b - a >= MinDuration
    ensures CommitShifted(id, Int(a), Int(b)) == Some(Resize(id, MinutesToTime(Int(GridStart)), MinutesToTime(Int(b))))
    ensures b - GridStart < MinDuration
  {
    CommitOfMinutes(id, a, b);
  }

  /**
   * A start time that does not read as a number passes both checks (NaN
   * compares false), and the committed start shows as "NaN:NaN".
   */
  lemma MalformedStartIsCommitted(activity: EditableActivity, top: int, bottom: int)
    requires TimeToMinutes(activity.startTime).NaN?
    requires top != 0 || bottom != 0
    ensures var r := ResizeCommit(activity, true, top, bottom);
            r.Some? && r.value.startTime == "NaN:NaN"
  {
    var end := Add(TimeToMinutes(activity.endTime), Int(bottom));
    NaNCommitted(activity.id, end);
  }

  lemma NaNCommitted(id: string, end: Num)
    ensures CommitShifted(id, NaN, end) == Some(Resize(id, "NaN:NaN", MinutesToTime(LowerTo(end, GridEnd))))
  {
    assert !Less(Sub(end, NaN), Int(MinDuration));
    assert RaiseTo(NaN, GridStart) == NaN;
    MinutesToTimeOfNaN();
  }

  /** `Math.round(delta / 30)` of a whole number of slots is that number. */
  lemma SlotShift(k: int)
    ensures RoundDiv(SlotLength * k, SlotLength) == k
  {
    var r := RoundDiv(SlotLength * k, SlotLength);
    assert 60 * r <= 60 * k + 30 < 60 * (r + 1);
  }

  /**
   * The resize state of one block: the two recorded deltas, whether a resize
   * is in progress, and the `onResize` calls made so far.
   */
  class ResizableBlock {
    var top: int
    var bottom: int
    var isResizing: bool
    var emitted: seq<Resize>

    constructor()
      ensures top == 0 && bottom == 0 && !isResizing && emitted == []
    {
      top, bottom := 0, 0;
      isResizing := false;
      emitted := [];
    }

    /** `handleTopResize`: record the top delta and mark the resize as running. */
    method HandleTopResize(deltaMinutes: int)
      modifies this
      ensures top == deltaMinutes && bottom == old(bottom) && isResizing
      ensures emitted == old(emitted)
    {
      top := deltaMinutes;
      isResizing := true;
    }

    /** `handleBottomResize`: record the bottom delta and mark the resize as running. */
    method HandleBottomResize(deltaMinutes: int)
      modifies this
      ensures bottom == deltaMinutes && top == old(top) && isResizing
      ensures emitted == old(emitted)
    {
      bottom := deltaMinutes;
      isResizing := true;
    }

    /**
     * `handleResizeEnd`: make at most one `onResize` call, the one
     * `ResizeCommit` describes, and clear the resize state on every path.
     */
    method HandleResizeEnd(activity: EditableActivity, hasOnResize: bool)
      modifies this
      ensures !isResizing && top == 0 && bottom == 0
      ensures emitted == old(emitted) + Calls(ResizeCommit(activity, hasOnResize, old(top), old(bottom)))
    {
      if !hasOnResize || (top == 0 && bottom == 0) {
        isResizing := false;
        top, bottom := 0, 0;
        return;
      }
      var startMinutes := TimeToMinutes(activity.startTime);
      var endMinutes := TimeToMinutes(activity.endTime);
      var newStartMinutes := Add(startMinutes, Int(top));
      var newEndMinutes := Add(endMinutes, Int(bottom));
      if Less(Sub(newEndMinutes, newStartMinutes), Int(MinDuration)) {
        isResizing := false;
        top, bottom := 0, 0;
        return;
      }
      if Less(newStartMinutes, Int(GridStart)) {
        newStartMinutes := Int(GridStart);
      }
      if Less(Int(GridEnd), newEndMinutes) {
        newEndMinutes := Int(GridEnd);
      }
      emitted := emitted + [Resize(activity.id, MinutesToTime(newStartMinutes), MinutesToTime(newEndMinutes))];
      isResizing := false;
      top, bottom := 0, 0;
    }

    /**
     * The rows the block occupies while it is drawn: shifted by the rounded
     * number of slots in each delta during a resize, the given rows otherwise.
     */
    function PreviewRows(gridRowStart: int, gridRowEnd: int): (rows: (int, int))
      reads this
      ensures !isResizing ==> rows == (gridRowStart, gridRowEnd)
      ensures isResizing ==>
                var (shiftTop, shiftBottom) := (rows.0 - gridRowStart, rows.1 - gridRowEnd);
                2 * SlotLength * shiftTop <= 2 * top + SlotLength < 2 * SlotLength * (shiftTop + 1)
                && 2 * SlotLength * shiftBottom <= 2 * bottom + SlotLength < 2 * SlotLength * (shiftBottom + 1)
    {
      if isResizing then (gridRowStart + RoundDiv(top, SlotLength), gridRowEnd + RoundDiv(bottom, SlotLength))
      else (gridRowStart, gridRowEnd)
    }

    /** During a resize by whole slots the preview moves each edge by exactly that many rows. */
    lemma PreviewBySlots(gridRowStart: int, gridRowEnd: int, k: int, j: int)
      requires isResizing && top == SlotLength * k && bottom == SlotLength * j
      ensures PreviewRows(gridRowStart, gridRowEnd) == (gridRowStart + k, gridRowEnd + j)
    {
      SlotShift(k);
      SlotShift(j);
    }
  }
}
