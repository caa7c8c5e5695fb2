/**
 Day numbers, instants and weekdays in the reference calendar.

 A day is an integer counted from 0001-01-01 of the proleptic Gregorian
 calendar, which was a Monday; so the weekday of day `d` is `d % 7`, with
 0 for Monday and 6 for Sunday (Dafny's `%` is Euclidean, so this also holds
 for days before the epoch). An instant is a count of milliseconds since
 1970-01-01T00:00:00Z, the value a JavaScript `Date` holds. The reference
 zone is Africa/Lagos, taken as a fixed UTC+1 offset without daylight saving:
 its offset since 1919-09-01, applied here to every instant.
 */
module Calendar {
  import opened Wrappers

  type Day = int
  type Instant = int

  const MsPerDay: int := 86_400_000
  /** Offset of Africa/Lagos from UTC since 1919-09-01, in milliseconds. */
  const ReferenceOffsetMs: int := 3_600_000
  /** Day number of 1970-01-01, the Unix epoch, counted from 0001-01-01. */
  const UnixEpochDay: Day := 719_162

  /** Calendar day, in the reference zone, on which instant `t` falls
      (`startOfDay(toZonedTime(t, "Africa/Lagos"))` reduced to its date). */
  function ReferenceDay(t: Instant): (d: Day)
    ensures DayStart(d) <= t < DayStart(d) + MsPerDay
  {
    (t + ReferenceOffsetMs) / MsPerDay + UnixEpochDay
  }

  /** The instant of midnight, in the reference zone, that begins day `d`. */
  function DayStart(d: Day): (t: Instant)
  {
    (d - UnixEpochDay) * MsPerDay - ReferenceOffsetMs
  }

  lemma ReferenceDayOfDayStart(d: Day)
    ensures ReferenceDay(DayStart(d)) == d
  {
  }

  /** An instant `k` whole days after `t` falls on the day `k` days later. */
  lemma ReferenceDayShift(t: Instant, k: int)
    ensures ReferenceDay(t + k * MsPerDay) == ReferenceDay(t) + k
  {
    var d := ReferenceDay(t);
    assert DayStart(d + k) <= t + k * MsPerDay < DayStart(d + k) + MsPerDay;
    DayOfInstantUnique(t + k * MsPerDay, d + k);
  }

  /** The day containing an instant is the only day whose span holds it. */
  lemma DayOfInstantUnique(t: Instant, d: Day)
    requires DayStart(d) <= t < DayStart(d) + MsPerDay
    ensures ReferenceDay(t) == d
  {
  }

  /** Weekday of a day: 0 = Monday, ..., 4 = Friday, 5 = Saturday, 6 = Sunday. */
  function Weekday(d: Day): (w: nat)
    ensures w < 7
  {
    d % 7
  }

  /** The Monday of the Monday-to-Sunday week containing `d`
      (`startOfWeek(d, { weekStartsOn: 1 })`). */
  function MondayOf(d: Day): (m: Day)
    ensures Weekday(m) == 0
    ensures d - 6 <= m <= d
    ensures d >= 0 ==> m >= 0
  {
    d - d % 7
  }

  /** Every day of a week has that week's Monday as its Monday. */
  lemma MondayOfWeekDay(m: Day, k: int)
    requires Weekday(m) == 0 && 0 <= k < 7
    ensures MondayOf(m + k) == m
  {
  }

  /** Two days share a Monday exactly when they lie in the same Monday-to-Sunday week. */
  lemma SameWeekIffSameMonday(a: Day, b: Day)
    ensures MondayOf(a) == MondayOf(b) <==> MondayOf(a) <= b < MondayOf(a) + 7
  {
  }

  /** The five working days, in the order the dashboard lists them. */
  datatype WorkDay = Monday | Tuesday | Wednesday | Thursday | Friday {

    /** Position in the week: the number of days after Monday. */
    function Index(): (i: nat)
      ensures i < 5
    {
      match this
      case Monday => 0
      case Tuesday => 1
      case Wednesday => 2
      case Thursday => 3
      case Friday => 4
    }
  }

  /** Monday to Friday, in order (the `dayNames` list). */
  const WorkDays: seq<WorkDay> := [Monday, Tuesday, Wednesday, Thursday, Friday]

  lemma WorkDaysEnumerates()
    ensures |WorkDays| == 5
    ensures forall i :: 0 <= i < 5 ==> WorkDays[i].Index() == i
    ensures forall w: WorkDay :: WorkDays[w.Index()] == w
  {
    forall w: WorkDay ensures WorkDays[w.Index()] == w {
      match w
      case Monday =>
      case Tuesday =>
      case Wednesday =>
      case Thursday =>
      case Friday =>
    }
  }

  /** A picked range of instants (react-day-picker's `DateRange`); a range that is
      `undefined` altogether behaves as one with both ends absent. */
  datatype DateRange = DateRange(from: Option<Instant>, to: Option<Instant>)

  const NoRange: DateRange := DateRange(None, None)
}
