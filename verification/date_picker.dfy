/**
 The week picker (`DatePickerWithRange`): whatever day the user clicks, the
 selected range becomes the Monday-to-Friday part of the Monday-to-Sunday
 week containing it. The
 picker keeps the range it shows in internal state, replaced by every click and
 by every change of the `date` prop.
 */
module DatePicker {
  import opened Wrappers
  import opened Calendar

  /** The picker's internal state: the range it highlights. */
  datatype PickerState = PickerState(shown: DateRange)

  /** What a click does: the new internal state and the range handed to `onDateChange`. */
  datatype ClickResult = ClickResult(state: PickerState, emitted: DateRange)

  /** The state on mount: the `date` prop. */
  function Init(prop: DateRange): (st: PickerState)
    ensures st.shown == prop
  {
    PickerState(prop)
  }

  /** The Monday-to-Friday part of the Monday-to-Sunday week containing `day`:
      `from` is the midnight that starts its Monday and `to` is four days
      later, the Friday. */
  function SnapToWorkWeek(day: Instant): (r: DateRange)
    ensures r.from.Some? && r.to.Some?
    ensures Weekday(ReferenceDay(r.from.value)) == 0
    ensures ReferenceDay(day) - 6 <= ReferenceDay(r.from.value) <= ReferenceDay(day)
    ensures ReferenceDay(r.to.value) == ReferenceDay(r.from.value) + 4
    ensures r.from.value == DayStart(ReferenceDay(r.from.value))
  {
    var monday := MondayOf(ReferenceDay(day));
    var weekStart := DayStart(monday);
    ReferenceDayOfDayStart(monday);
    ReferenceDayShift(weekStart, 4);
    DateRange(Some(weekStart), Some(weekStart + 4 * MsPerDay))
  }

  /** `handleDayClick`: snap the clicked day, store the range and report it. */
  function HandleDayClick(st: PickerState, day: Instant): (r: ClickResult)
    ensures r.state.shown == r.emitted
    ensures r.emitted == SnapToWorkWeek(day)
  {
    var range := SnapToWorkWeek(day);
    ClickResult(PickerState(range), range)
  }

  /** The effect on the `date` prop: the prop replaces whatever the state held. */
  function SyncWithProp(st: PickerState, prop: DateRange): (r: PickerState)
    ensures r.shown == prop
  {
    PickerState(prop)
  }

  /** A click on a Sunday selects the Monday six days earlier. */
  lemma SundaySnapsToPrecedingMonday(day: Instant)
    requires Weekday(ReferenceDay(day)) == 6
    ensures ReferenceDay(SnapToWorkWeek(day).from.value) == ReferenceDay(day) - 6
  {
  }

  /** Two clicks select the same range exactly when they fall in the same
      Monday-to-Sunday week. */
  lemma SnapSameWeek(a: Instant, b: Instant)
    ensures SnapToWorkWeek(a) == SnapToWorkWeek(b) <==> MondayOf(ReferenceDay(a)) == MondayOf(ReferenceDay(b))
    ensures SnapToWorkWeek(a) == SnapToWorkWeek(b)
      <==> MondayOf(ReferenceDay(a)) <= ReferenceDay(b) < MondayOf(ReferenceDay(a)) + 7
  {
    SameWeekIffSameMonday(ReferenceDay(a), ReferenceDay(b));
    if SnapToWorkWeek(a) == SnapToWorkWeek(b) {
      ReferenceDayOfDayStart(MondayOf(ReferenceDay(a)));
      ReferenceDayOfDayStart(MondayOf(ReferenceDay(b)));
    }
  }

  /** Snapping is idempotent: clicking the selected Monday, or any other day of
      its week, selects the same range again. */
  lemma SnapIdempotent(day: Instant, other: Instant)
    requires MondayOf(ReferenceDay(other)) == MondayOf(ReferenceDay(day))
    ensures SnapToWorkWeek(SnapToWorkWeek(day).from.value) == SnapToWorkWeek(day)
    ensures SnapToWorkWeek(other) == SnapToWorkWeek(day)
  {
    var m := ReferenceDay(SnapToWorkWeek(day).from.value);
    MondayOfWeekDay(m, 0);
    SnapSameWeek(SnapToWorkWeek(day).from.value, day);
    SnapSameWeek(other, day);
  }

  /** Inputs the picker reacts to. */
  datatype PickerEvent = Click(day: Instant) | PropChanged(prop: DateRange)

  function Step(st: PickerState, e: PickerEvent): PickerState {
    match e
    case Click(day) => HandleDayClick(st, day).state
    case PropChanged(prop) => SyncWithProp(st, prop)
  }

  function Run(st: PickerState, events: seq<PickerEvent>): PickerState
    decreases |events|
  {
    if |events| == 0 then st else Run(Step(st, events[0]), events[1..])
  }

  /** The range shown after a series of events is decided by the last one: the
      last prop wins over earlier clicks, and the last click over earlier props. */
  lemma {:induction false} LastEventDecides(st: PickerState, events: seq<PickerEvent>)
    requires |events| > 0
    ensures events[|events| - 1].PropChanged? ==> Run(st, events).shown == events[|events| - 1].prop
    ensures events[|events| - 1].Click? ==> Run(st, events).shown == SnapToWorkWeek(events[|events| - 1].day)
    decreases |events|
  {
    if |events| > 1 {
      LastEventDecides(Step(st, events[0]), events[1..]);
    }
  }

  /** A Monday-midnight-to-Friday-midnight range. */
  predicate IsWorkWeek(r: DateRange) {
    && r.from.Some? && r.to.Some?
    && Weekday(ReferenceDay(r.from.value)) == 0
    && r.from.value == DayStart(ReferenceDay(r.from.value))
    && r.to.value == r.from.value + 4 * MsPerDay
  }

  /** The work weeks are exactly the ranges a click can produce. */
  lemma WorkWeeksAreSnaps(r: DateRange)
    ensures IsWorkWeek(r) <==> exists day :: r == SnapToWorkWeek(day)
  {
    if IsWorkWeek(r) {
      var m := ReferenceDay(r.from.value);
      MondayOfWeekDay(m, 0);
      assert r == SnapToWorkWeek(r.from.value);
    }
  }

  predicate IsWorkWeekOrAbsent(r: DateRange) {
    r == NoRange || IsWorkWeek(r)
  }

  /** When every prop the picker receives is a snapped week (or absent), the
      range it shows is always one too. */
  lemma {:induction false} RunKeepsWorkWeek(st: PickerState, events: seq<PickerEvent>)
    requires IsWorkWeekOrAbsent(st.shown)
    requires forall i :: 0 <= i < |events| && events[i].PropChanged? ==> IsWorkWeekOrAbsent(events[i].prop)
    ensures IsWorkWeekOrAbsent(Run(st, events).shown)
    decreases |events|
  {
    if |events| > 0 {
      var next := Step(st, events[0]);
      if events[0].Click? {
        WorkWeeksAreSnaps(next.shown);
      }
      RunKeepsWorkWeek(next, events[1..]);
    }
  }
}
