/**
 The single-day assignment flow of the schedule table: clicking the `+` of an
 empty slot selects that employee and the slot's week date and opens the
 confirmation dialog; confirming sends `{employeeId, date}`; success closes the
 dialog and clears the selection, failure leaves the dialog and the selection
 as they were.
 */
module AssignDialog {
  import opened Wrappers
  import opened Calendar
  import opened IsoFormat
  import opened ScheduleTable

  datatype SelectedEmployee = SelectedEmployee(id: string, fullName: string)

  /** Dialog visibility, the two selections, and whether an assignment request
      is in flight (the mutation's `isPending`). */
  datatype AssignState = AssignState(
    dialogOpen: bool,
    employee: Option<SelectedEmployee>,
    date: Option<Day>,
    pending: bool)

  const Initial: AssignState := AssignState(false, None, None, false)

  /** The body of the single-assignment request. */
  datatype AssignRequest = AssignRequest(employeeId: string, date: string)

  datatype Outcome = Succeeded | Failed(message: string)

  /** Clicking the slot of working day `w` in `row`. A filled slot shows the
      schedule instead of a button, and a slot without a week date has its
      button disabled; both leave the state alone. */
  function ClickCell(st: AssignState, wd: WeekDates, row: EmployeeRow, w: WorkDay): (r: AssignState)
    ensures (w in row.schedules && row.schedules[w].Some?) || w !in wd ==> r == st
    ensures !(w in row.schedules && row.schedules[w].Some?) && w in wd ==>
      && r.dialogOpen
      && r.employee == Some(SelectedEmployee(row.id, row.fullName))
      && r.date == Some(wd[w])
      && r.pending == st.pending
  {
    if w in row.schedules && row.schedules[w].Some? then st
    else if w in wd then
      st.(dialogOpen := true, employee := Some(SelectedEmployee(row.id, row.fullName)), date := Some(wd[w]))
    else st
  }

  /** `handleAssignSchedule`, reached through the dialog's Confirm button (shown
      only while the dialog is open, disabled while a request is pending): a
      request goes out only when both an employee and a date are selected. */
  function Confirm(st: AssignState): (r: (AssignState, Option<AssignRequest>))
    ensures r.1.Some? <==> st.dialogOpen && !st.pending && st.employee.Some? && st.date.Some?
    ensures r.1.Some? ==>
      && r.1.value.employeeId == st.employee.value.id
      && r.1.value.date == FormatIsoDate(st.date.value)
      && (st.date.value >= 0 ==> ParseIsoDate(r.1.value.date) == Some(st.date.value))
      && r.0 == st.(pending := true)
    ensures r.1.None? ==> r.0 == st
  {
    if !st.dialogOpen || st.pending then (st, None)
    else if st.employee.Some? && st.date.Some? then
      assert st.date.value >= 0 ==> ParseIsoDate(FormatIsoDate(st.date.value)) == Some(st.date.value) by {
        if st.date.value >= 0 { ParseFormatRoundTrip(st.date.value); }
      }
      (st.(pending := true), Some(AssignRequest(st.employee.value.id, FormatIsoDate(st.date.value))))
    else (st, None)
  }

  /** The request settles: success closes the dialog and clears both
      selections; an error leaves dialog and selections unchanged. */
  function Settle(st: AssignState, outcome: Outcome): (r: AssignState)
    ensures !r.pending
    ensures st.pending && outcome.Succeeded? ==> !r.dialogOpen && r.employee.None? && r.date.None?
    ensures outcome.Failed? || !st.pending ==>
      r.dialogOpen == st.dialogOpen && r.employee == st.employee && r.date == st.date
  {
    if !st.pending then st
    else match outcome
      case Succeeded => AssignState(false, None, None, false)
      case Failed(_) => st.(pending := false)
  }

  /** The Cancel button (disabled while pending) closes the dialog and keeps the selection. */
  function CancelButton(st: AssignState): (r: AssignState)
    ensures r.employee == st.employee && r.date == st.date && r.pending == st.pending
    ensures !st.pending ==> !r.dialogOpen
    ensures st.pending ==> r == st
  {
    if st.pending then st else st.(dialogOpen := false)
  }

  /** Dismissing the dialog (`onOpenChange(false)`) closes it and keeps the selection. */
  function Dismiss(st: AssignState): (r: AssignState)
    ensures !r.dialogOpen
    ensures r.employee == st.employee && r.date == st.date && r.pending == st.pending
  {
    st.(dialogOpen := false)
  }

  /** What can happen to the assignment flow. `WeekChanged` is a new range
      reaching the table, which replaces its week dates. */
  datatype AssignEvent =
    | Click(row: EmployeeRow, slot: WorkDay)
    | ConfirmClicked
    | CancelClicked
    | Dismissed
    | Settled(outcome: Outcome)
    | WeekChanged(dates: WeekDates)

  /** A request together with the week dates the table showed when it was sent. */
  datatype Sent = Sent(request: AssignRequest, shownWeek: WeekDates)

  /** One event: the new state, the week dates shown afterwards, and the request sent, if any. */
  function Step(st: AssignState, wd: WeekDates, e: AssignEvent): (AssignState, WeekDates, Option<AssignRequest>) {
    match e
    case Click(row, w) => (ClickCell(st, wd, row, w), wd, None)
    case ConfirmClicked => var (next, req) := Confirm(st); (next, wd, req)
    case CancelClicked => (CancelButton(st), wd, None)
    case Dismissed => (Dismiss(st), wd, None)
    case Settled(outcome) => (Settle(st, outcome), wd, None)
    case WeekChanged(dates) => (st, dates, None)
  }

  /** The state and week dates after a series of events, and the requests sent, in order. */
  function Run(st: AssignState, wd: WeekDates, events: seq<AssignEvent>): (AssignState, WeekDates, seq<Sent>)
    decreases |events|
  {
    if |events| == 0 then (st, wd, [])
    else
      var (next, nextWeek, req) := Step(st, wd, events[0]);
      var (last, lastWeek, rest) := Run(next, nextWeek, events[1..]);
      (last, lastWeek, (if req.Some? then [Sent(req.value, wd)] else []) + rest)
  }

  /** The dialog is modal: while it is open the page behind it, the range
      picker included, takes no input, so the week changes only while the
      dialog is closed. */
  predicate WeekChangesWhileClosed(st: AssignState, wd: WeekDates, events: seq<AssignEvent>)
    decreases |events|
  {
    if |events| == 0 then true
    else
      var (next, nextWeek, _) := Step(st, wd, events[0]);
      && (events[0].WeekChanged? ==> !st.dialogOpen)
      && WeekChangesWhileClosed(next, nextWeek, events[1..])
  }

  /** The employee and the date are selected together, and an open dialog
      always has a selection whose date is one of the displayed week's dates.
      A closed dialog may keep a date from an earlier week. */
  ghost predicate Consistent(st: AssignState, wd: WeekDates) {
    && (st.employee.Some? <==> st.date.Some?)
    && (st.dialogOpen ==> st.date.Some? && exists w :: w in wd && wd[w] == st.date.value)
  }

  /** A request whose date is the rendering of one of the week's dates. */
  ghost predicate ForWeekDate(req: AssignRequest, wd: WeekDates) {
    exists w :: w in wd && req.date == FormatIsoDate(wd[w])
  }

  lemma StepKeepsConsistent(st: AssignState, wd: WeekDates, e: AssignEvent)
    requires Consistent(st, wd)
    requires e.WeekChanged? ==> !st.dialogOpen
    ensures Consistent(Step(st, wd, e).0, Step(st, wd, e).1)
    ensures Step(st, wd, e).2.Some? ==> ForWeekDate(Step(st, wd, e).2.value, wd)
  {
    match e
    case Click(row, w) =>
      var r := ClickCell(st, wd, row, w);
      if r != st {
        assert w in wd && wd[w] == r.date.value;
      }
    case ConfirmClicked =>
      var r := Confirm(st);
      if r.1.Some? {
        var w :| w in wd && wd[w] == st.date.value;
        assert r.1.value.date == FormatIsoDate(wd[w]);
      }
    case CancelClicked =>
    case Dismissed =>
    case Settled(outcome) =>
    case WeekChanged(dates) =>
  }

  /** From any consistent state, in particular the initial one, every request
      sent carries one of the dates of the week the table showed when it was
      sent, however often the week changed in between. */
  lemma {:induction false} RunSendsOnlyWeekDates(st: AssignState, wd: WeekDates, events: seq<AssignEvent>)
    requires Consistent(st, wd)
    requires WeekChangesWhileClosed(st, wd, events)
    ensures Consistent(Run(st, wd, events).0, Run(st, wd, events).1)
    ensures forall k :: 0 <= k < |Run(st, wd, events).2| ==>
      ForWeekDate(Run(st, wd, events).2[k].request, Run(st, wd, events).2[k].shownWeek)
    decreases |events|
  {
    if |events| > 0 {
      StepKeepsConsistent(st, wd, events[0]);
      var (next, nextWeek, req) := Step(st, wd, events[0]);
      RunSendsOnlyWeekDates(next, nextWeek, events[1..]);
    }
  }

  lemma InitialConsistent(wd: WeekDates)
    ensures Consistent(Initial, wd)
  {
  }

  /** Clicking the `+` of an empty slot with a week date and confirming sends
      exactly one request: that employee on that slot's date. */
  lemma ClickThenConfirm(row: EmployeeRow, wd: WeekDates, w: WorkDay)
    requires w in wd && !(w in row.schedules && row.schedules[w].Some?)
    ensures Run(Initial, wd, [Click(row, w), ConfirmClicked]).2
      == [Sent(AssignRequest(row.id, FormatIsoDate(wd[w])), wd)]
  {
    var dialog := ClickCell(Initial, wd, row, w);
    var req := AssignRequest(row.id, FormatIsoDate(wd[w]));
    assert Confirm(dialog) == (dialog.(pending := true), Some(req));
    assert Run(dialog.(pending := true), wd, []).2 == [];
    assert Run(dialog, wd, [ConfirmClicked]).2 == [Sent(req, wd)];
    assert [Click(row, w), ConfirmClicked][1..] == [ConfirmClicked];
  }

  /** A selection left over from an earlier week is never sent: after a
      dismissal and a change of week, Confirm sends nothing until a new click. */
  lemma StaleSelectionNotSent(row: EmployeeRow, wd: WeekDates, w: WorkDay, later: WeekDates)
    requires w in wd && !(w in row.schedules && row.schedules[w].Some?)
    ensures Run(Initial, wd, [Click(row, w), Dismissed, WeekChanged(later), ConfirmClicked]).2 == []
  {
    var selected := ClickCell(Initial, wd, row, w);
    var closed := Dismiss(selected);
    var e3: seq<AssignEvent> := [ConfirmClicked];
    var e2: seq<AssignEvent> := [WeekChanged(later)] + e3;
    var e1: seq<AssignEvent> := [Dismissed] + e2;
    var e0: seq<AssignEvent> := [Click(row, w)] + e1;
    assert Step(closed, later, ConfirmClicked) == (closed, later, None);
    assert Run(closed, later, e3).2 == [] by {
      assert e3[1..] == [];
    }
    assert Step(closed, wd, WeekChanged(later)) == (closed, later, None);
    assert Run(closed, wd, e2).2 == [] by {
      assert e2[1..] == e3;
    }
    assert Step(selected, wd, Dismissed) == (closed, wd, None);
    assert Run(selected, wd, e1).2 == [] by {
      assert e1[1..] == e2;
    }
    assert Step(Initial, wd, Click(row, w)) == (selected, wd, None);
    assert e0[1..] == e1;
    assert e0 == [Click(row, w), Dismissed, WeekChanged(later), ConfirmClicked];
  }
}
