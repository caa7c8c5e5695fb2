/**
 The schedule table (`ScheduleDataTable`): the Monday-to-Friday dates of the
 selected week, and the employee-by-weekday matrix built from each employee's
 schedule list.
 */
module ScheduleTable {
  import opened Wrappers
  import opened Calendar

  /** One assignment of an employee to a workday, as the service returns it;
      `workdayDate` is the instant its ISO date string denotes. */
  datatype Schedule = Schedule(id: string, workdayDate: Instant)

  datatype Employee = Employee(
    id: string,
    email: string,
    fullName: string,
    role: string,
    position: string,
    schedules: seq<Schedule>)

  /** A filled cell: the schedule placed there and its day. */
  datatype Cell = Cell(id: string, date: Day)

  /** One weekday slot per working day; `None` is an empty slot. */
  type Row = map<WorkDay, Option<Cell>>

  datatype EmployeeRow = EmployeeRow(
    id: string,
    email: string,
    fullName: string,
    position: string,
    avatar: string,
    schedules: Row)

  /** The dates of the displayed week, keyed by working day (`weekDates`). */
  type WeekDates = map<WorkDay, Day>

  /** The week dates as a closed form: empty without a start date, otherwise the
      five days from the Monday on or before the start date's reference day. */
  function WeekDatesOf(from: Option<Instant>): WeekDates {
    if from.None? then map[]
    else
      var monday := MondayOf(ReferenceDay(from.value));
      map w: WorkDay | w in WorkDays :: monday + w.Index()
  }

  /** The walk back from the start day to a Monday: at most six steps, ending
      on the Monday of the start day's week. */
  method WalkBackToMonday(start: Day) returns (monday: Day)
    ensures Weekday(monday) == 0
    ensures start - 6 <= monday <= start
    ensures monday == MondayOf(start)
  {
    monday := start;
    while Weekday(monday) != 0
      invariant MondayOf(start) <= monday <= start
      decreases monday - MondayOf(start)
    {
      monday := monday - 1;
    }
  }

  /** Records the Monday and the four days after it under their working days. */
  method FillWeek(monday: Day) returns (dates: WeekDates)
    ensures forall w: WorkDay :: w in dates && dates[w] == monday + w.Index()
    ensures dates == map w: WorkDay | w in WorkDays :: monday + w.Index()
  {
    WorkDaysEnumerates();
    dates := map[];
    var current := monday;
    var i := 0;
    while i < 5
      invariant 0 <= i <= 5
      invariant current == monday + i
      invariant forall w: WorkDay :: w in dates <==> w.Index() < i
      invariant forall w: WorkDay :: w in dates ==> dates[w] == monday + w.Index()
    {
      dates := dates[WorkDays[i] := current];
      current := current + 1;
      i := i + 1;
    }
    var spec := map w: WorkDay | w in WorkDays :: monday + w.Index();
    assert forall w: WorkDay :: w in spec;
    assert dates == spec;
  }

  /** The `weekDates` memo: walk back from the start date to a Monday, then
      record it and the four days after it. */
  method ComputeWeekDates(from: Option<Instant>) returns (dates: WeekDates)
    ensures dates == WeekDatesOf(from)
    ensures from.None? ==> dates == map[]
    ensures from.Some? ==>
      && (forall w: WorkDay :: w in dates)
      && Weekday(dates[Monday]) == 0
      && ReferenceDay(from.value) - 6 <= dates[Monday] <= ReferenceDay(from.value)
      && (forall w: WorkDay :: dates[w] == dates[Monday] + w.Index())
  {
    dates := map[];
    if from.Some? {
      var monday := WalkBackToMonday(ReferenceDay(from.value));
      dates := FillWeek(monday);
    }
  }

  /** With a start date, every working day has a week date: its Monday plus its index. */
  lemma WeekDatesOfStart(from: Instant)
    ensures forall w: WorkDay ::
      w in WeekDatesOf(Some(from)) && WeekDatesOf(Some(from))[w] == MondayOf(ReferenceDay(from)) + w.Index()
  {
    WorkDaysEnumerates();
    forall w: WorkDay
      ensures w in WeekDatesOf(Some(from)) && WeekDatesOf(Some(from))[w] == MondayOf(ReferenceDay(from)) + w.Index()
    {
      assert WorkDays[w.Index()] == w;
    }
  }

  /** Distinct working days have distinct dates in the week map. */
  predicate DistinctDates(wd: WeekDates) {
    forall a, b :: a in wd && b in wd && wd[a] == wd[b] ==> a == b
  }

  lemma WeekDatesOfDistinct(from: Option<Instant>)
    ensures DistinctDates(WeekDatesOf(from))
  {
  }

  /** Whether a schedule day passes the range filter: the filter applies only
      when both ends of the range are present, and then is inclusive. */
  predicate InWindow(range: DateRange, day: Day) {
    range.from.None? || range.to.None?
    || (ReferenceDay(range.from.value) <= day <= ReferenceDay(range.to.value))
  }

  /** The reference-zone day of a schedule. */
  function ScheduleDay(s: Schedule): Day {
    ReferenceDay(s.workdayDate)
  }

  /** The first working day, from position `k` on in Monday-to-Friday order,
      whose week date is `day` (the scan over `Object.keys(weekDates)`). */
  function MatchFrom(wd: WeekDates, day: Day, k: nat): (r: Option<WorkDay>)
    requires k <= 5
    ensures r.Some? ==> r.value in wd && wd[r.value] == day
    ensures r.None? ==> forall j :: k <= j < 5 ==> WorkDays[j] !in wd || wd[WorkDays[j]] != day
    decreases 5 - k
  {
    if k == 5 then None
    else if WorkDays[k] in wd && wd[WorkDays[k]] == day then Some(WorkDays[k])
    else MatchFrom(wd, day, k + 1)
  }

  /** The working day whose week date is `day`, if any. */
  function MatchingDay(wd: WeekDates, day: Day): (r: Option<WorkDay>)
    requires DistinctDates(wd)
    ensures forall w: WorkDay :: r == Some(w) <==> w in wd && wd[w] == day
  {
    WorkDaysEnumerates();
    MatchFrom(wd, day, 0)
  }

  const EmptyRow: Row :=
    map[Monday := None, Tuesday := None, Wednesday := None, Thursday := None, Friday := None]

  predicate IsFullRow(row: Row) {
    forall w: WorkDay :: w in row
  }

  lemma EmptyRowIsFull()
    ensures IsFullRow(EmptyRow)
    ensures forall w: WorkDay :: EmptyRow[w].None?
  {
    forall w: WorkDay ensures w in EmptyRow {
      match w
      case Monday =>
      case Tuesday =>
      case Wednesday =>
      case Thursday =>
      case Friday =>
    }
  }

  /** One step of the `forEach` over an employee's schedules: a schedule that
      passes the range filter and falls on a week date overwrites that slot. */
  function Place(row: Row, range: DateRange, wd: WeekDates, s: Schedule): (r: Row)
    requires DistinctDates(wd)
    requires IsFullRow(row)
    ensures IsFullRow(r)
    ensures forall w: WorkDay :: r[w] == if Hits(range, wd, s, w) then Some(Cell(s.id, wd[w])) else row[w]
  {
    var day := ScheduleDay(s);
    if InWindow(range, day) then
      match MatchingDay(wd, day)
      case Some(w) => row[w := Some(Cell(s.id, day))]
      case None => row
    else row
  }

  /** The row of one employee: every slot starts empty, then the schedules are
      placed in list order. */
  function BucketRow(range: DateRange, wd: WeekDates, ss: seq<Schedule>): (r: Row)
    requires DistinctDates(wd)
    ensures IsFullRow(r)
    decreases |ss|
  {
    if |ss| == 0 then
      EmptyRowIsFull();
      EmptyRow
    else Place(BucketRow(range, wd, ss[..|ss| - 1]), range, wd, ss[|ss| - 1])
  }

  /** Whether schedule `s` belongs in the slot of working day `w`. */
  predicate Hits(range: DateRange, wd: WeekDates, s: Schedule, w: WorkDay) {
    w in wd && InWindow(range, ScheduleDay(s)) && ScheduleDay(s) == wd[w]
  }

  /** Reference meaning of one slot: the last schedule in the list that belongs
      there, dated with the slot's week date; empty when none belongs there. */
  function LastHit(range: DateRange, wd: WeekDates, ss: seq<Schedule>, w: WorkDay): (c: Option<Cell>)
    ensures c.None? <==> forall i :: 0 <= i < |ss| ==> !Hits(range, wd, ss[i], w)
    ensures c.Some? ==> exists i ::
      && 0 <= i < |ss|
      && Hits(range, wd, ss[i], w)
      && c.value == Cell(ss[i].id, wd[w])
      && forall j :: i < j < |ss| ==> !Hits(range, wd, ss[j], w)
    decreases |ss|
  {
    if |ss| == 0 then None
    else if Hits(range, wd, ss[|ss| - 1], w) then Some(Cell(ss[|ss| - 1].id, wd[w]))
    else
      var c := LastHit(range, wd, ss[..|ss| - 1], w);
      assert forall i :: 0 <= i < |ss| - 1 ==> ss[..|ss| - 1][i] == ss[i];
      c
  }

  /** The row built in list order agrees, slot by slot, with the last schedule
      that belongs in each slot. */
  lemma {:induction false} BucketRowIsLastHit(range: DateRange, wd: WeekDates, ss: seq<Schedule>, w: WorkDay)
    requires DistinctDates(wd)
    ensures BucketRow(range, wd, ss)[w] == LastHit(range, wd, ss, w)
    decreases |ss|
  {
    if |ss| > 0 {
      BucketRowIsLastHit(range, wd, ss[..|ss| - 1], w);
    }
  }

  const AvatarPrefix: string := "https://i.pravatar.cc/150?u="

  /** The row of one employee: its identity, an avatar URL keyed by the email,
      and in each slot the last of the employee's schedules that belongs there. */
  function ToRow(range: DateRange, wd: WeekDates, e: Employee): (r: EmployeeRow)
    requires DistinctDates(wd)
    ensures r.id == e.id && r.email == e.email && r.fullName == e.fullName && r.position == e.position
    ensures r.avatar == AvatarPrefix + e.email
    ensures IsFullRow(r.schedules)
    ensures forall w: WorkDay :: r.schedules[w] == LastHit(range, wd, e.schedules, w)
  {
    var schedules := BucketRow(range, wd, e.schedules);
    assert forall w: WorkDay :: schedules[w] == LastHit(range, wd, e.schedules, w) by {
      forall w: WorkDay ensures schedules[w] == LastHit(range, wd, e.schedules, w) {
        BucketRowIsLastHit(range, wd, e.schedules, w);
      }
    }
    EmployeeRow(e.id, e.email, e.fullName, e.position, AvatarPrefix + e.email, schedules)
  }

  /** The `data` memo: one row per employee, in the same order, carrying the
      employee's identity and their bucketed week; no rows before the employee
      list has loaded. */
  function BuildRows(employees: Option<seq<Employee>>, range: DateRange): (rows: seq<EmployeeRow>)
    ensures employees.None? ==> rows == []
    ensures employees.Some? ==> |rows| == |employees.value|
    ensures employees.Some? ==> forall i :: 0 <= i < |rows| ==>
      && rows[i].id == employees.value[i].id
      && rows[i].email == employees.value[i].email
      && rows[i].fullName == employees.value[i].fullName
      && rows[i].position == employees.value[i].position
      && rows[i].avatar == AvatarPrefix + employees.value[i].email
      && IsFullRow(rows[i].schedules)
      && forall w: WorkDay :: rows[i].schedules[w]
           == LastHit(range, WeekDatesOf(range.from), employees.value[i].schedules, w)
  {
    match employees
    case None => []
    case Some(es) =>
      var wd := WeekDatesOf(range.from);
      WeekDatesOfDistinct(range.from);
      seq(|es|, i requires 0 <= i < |es| => ToRow(range, wd, es[i]))
  }

  /** Without a start date the week map is empty, so every slot of every row stays empty. */
  lemma NoStartNoCells(employees: Option<seq<Employee>>, range: DateRange)
    requires range.from.None?
    ensures forall i, w: WorkDay :: 0 <= i < |BuildRows(employees, range)| ==>
      BuildRows(employees, range)[i].schedules[w].None?
  {
  }

  /** A schedule belongs in a slot only on that slot's week date, which falls on
      the slot's weekday, and only inside the range when both ends are present. */
  lemma HitMeaning(range: DateRange, s: Schedule, w: WorkDay)
    requires Hits(range, WeekDatesOf(range.from), s, w)
    ensures range.from.Some?
    ensures ScheduleDay(s) == MondayOf(ReferenceDay(range.from.value)) + w.Index()
    ensures Weekday(ScheduleDay(s)) == w.Index() < 5
    ensures range.to.Some? ==> ReferenceDay(range.from.value) <= ScheduleDay(s) <= ReferenceDay(range.to.value)
  {
  }

  /** What a filled slot means: the range has a start date; the slot holds the
      slot's week date, which is on the slot's weekday (never a Saturday or a
      Sunday); the date lies inside the range when both ends are present; and
      some schedule of that employee, with the slot's id, falls on that date. */
  lemma FilledCell(employees: seq<Employee>, range: DateRange, i: int, w: WorkDay)
    requires 0 <= i < |employees|
    requires BuildRows(Some(employees), range)[i].schedules[w].Some?
    ensures range.from.Some?
    ensures var c := BuildRows(Some(employees), range)[i].schedules[w].value;
      && c.date == MondayOf(ReferenceDay(range.from.value)) + w.Index()
      && Weekday(c.date) == w.Index() < 5
      && (range.to.Some? ==> ReferenceDay(range.from.value) <= c.date <= ReferenceDay(range.to.value))
      && exists k :: 0 <= k < |employees[i].schedules|
           && employees[i].schedules[k].id == c.id
           && ScheduleDay(employees[i].schedules[k]) == c.date
  {
    var ss := employees[i].schedules;
    var wd := WeekDatesOf(range.from);
    var cell := LastHit(range, wd, ss, w);
    assert BuildRows(Some(employees), range)[i].schedules[w] == cell;
    var k :| 0 <= k < |ss| && Hits(range, wd, ss[k], w) && cell.value == Cell(ss[k].id, wd[w]);
    HitMeaning(range, ss[k], w);
  }

  /** A schedule that belongs in a slot, with no later schedule of the same
      employee belonging there, is the one the slot shows: the last one wins. */
  lemma LastScheduleWins(employees: seq<Employee>, range: DateRange, i: int, k: int, w: WorkDay)
    requires 0 <= i < |employees|
    requires 0 <= k < |employees[i].schedules|
    requires Hits(range, WeekDatesOf(range.from), employees[i].schedules[k], w)
    requires forall j :: k < j < |employees[i].schedules| ==>
      !Hits(range, WeekDatesOf(range.from), employees[i].schedules[j], w)
    ensures BuildRows(Some(employees), range)[i].schedules[w]
      == Some(Cell(employees[i].schedules[k].id, ScheduleDay(employees[i].schedules[k])))
  {
    var ss := employees[i].schedules;
    var wd := WeekDatesOf(range.from);
    var c := LastHit(range, wd, ss, w);
    var k' :| 0 <= k' < |ss| && Hits(range, wd, ss[k'], w) && c.value == Cell(ss[k'].id, wd[w])
      && forall j :: k' < j < |ss| ==> !Hits(range, wd, ss[j], w);
    assert k' == k;
  }

  /** A slot is empty exactly when no schedule of the employee belongs in it. */
  lemma EmptyCellIffNoHit(employees: seq<Employee>, range: DateRange, i: int, w: WorkDay)
    requires 0 <= i < |employees|
    ensures BuildRows(Some(employees), range)[i].schedules[w].None?
      <==> forall k :: 0 <= k < |employees[i].schedules| ==>
             !Hits(range, WeekDatesOf(range.from), employees[i].schedules[k], w)
  {
  }

  /** The matrix depends on the order of an employee's schedule list: two
      schedules on the same day, listed in either order, leave different ids
      in the slot. */
  lemma BucketingDependsOnOrder()
    ensures var range := DateRange(Some(DayStart(7)), None);
      var a := Schedule("a", DayStart(7));
      var b := Schedule("b", DayStart(7));
      && BuildRows(Some([Employee("e", "", "", "", "", [a, b])]), range)[0].schedules[Monday] == Some(Cell("b", 7))
      && BuildRows(Some([Employee("e", "", "", "", "", [b, a])]), range)[0].schedules[Monday] == Some(Cell("a", 7))
  {
    var range := DateRange(Some(DayStart(7)), None);
    var a := Schedule("a", DayStart(7));
    var b := Schedule("b", DayStart(7));
    ReferenceDayOfDayStart(7);
    assert WeekDatesOf(range.from)[Monday] == 7;
    LastScheduleWins([Employee("e", "", "", "", "", [a, b])], range, 0, 1, Monday);
    LastScheduleWins([Employee("e", "", "", "", "", [b, a])], range, 0, 1, Monday);
  }

  /** The range filter and the week map can disagree when the range does not
      start on a Monday: with a range from a Wednesday (day 9) to the Friday
      after it, the week map still starts on Monday (day 7), but no schedule
      can fill the Monday slot, since Monday lies before the range. */
  lemma MidweekRangeHidesMonday(s: Schedule)
    ensures var range := DateRange(Some(DayStart(9)), Some(DayStart(11)));
      && WeekDatesOf(range.from)[Monday] == 7
      && !Hits(range, WeekDatesOf(range.from), s, Monday)
  {
    ReferenceDayOfDayStart(9);
    ReferenceDayOfDayStart(11);
    WeekDatesOfStart(DayStart(9));
  }
}
