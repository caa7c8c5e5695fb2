/**
 The picker, the table and the dialogs composed: a week picked by a click
 flows unchanged into the generation request and the table.
 */
module WeekFlow {
  import opened Wrappers
  import opened Calendar
  import opened IsoFormat
  import opened DatePicker
  import opened ScheduleTable
  import opened AssignDialog
  import opened ScheduleDialog

  /** After a click, the generation request names the Monday of the clicked
      day's week as `weekStart` (and `from`) and that week's Friday as `to`. */
  lemma PickedWeekRequest(st: PickerState, day: Instant)
    requires ReferenceDay(day) >= 0
    ensures var range := HandleDayClick(st, day).emitted;
      var monday := MondayOf(ReferenceDay(day));
      && HandleConfirm(range).Some?
      && HandleConfirm(range).value.weekStart == HandleConfirm(range).value.from
      && ParseIsoDate(HandleConfirm(range).value.weekStart) == Some(monday)
      && Weekday(monday) == 0
      && ParseIsoDate(HandleConfirm(range).value.to) == Some(monday + 4)
  {
    var range := HandleDayClick(st, day).emitted;
    var monday := MondayOf(ReferenceDay(day));
    ReferenceDayOfDayStart(monday);
    RequestReadsBack(range);
  }

  /** With a picked week, the table's week dates are the Monday to Friday of the
      clicked day's week, and the range filter drops nothing the week map
      would place: a schedule belongs in a slot exactly when it falls on that
      slot's day of the week. */
  lemma PickedWeekTable(day: Instant, s: Schedule, w: WorkDay)
    ensures var range := SnapToWorkWeek(day);
      var monday := MondayOf(ReferenceDay(day));
      && (forall v: WorkDay :: v in WeekDatesOf(range.from) && WeekDatesOf(range.from)[v] == monday + v.Index())
      && (Hits(range, WeekDatesOf(range.from), s, w) <==> ScheduleDay(s) == monday + w.Index())
  {
    var range := SnapToWorkWeek(day);
    var monday := MondayOf(ReferenceDay(day));
    ReferenceDayOfDayStart(monday);
    assert ReferenceDay(range.from.value) == monday;
    WeekDatesOfStart(range.from.value);
  }

  /** The table and the generation request describe the same week: the
      rendered Monday and Friday of the table's week dates are the request's
      `weekStart` and `to`. */
  lemma TableAndRequestAgree(day: Instant)
    ensures var range := SnapToWorkWeek(day);
      var wd := WeekDatesOf(range.from);
      && Monday in wd && Friday in wd
      && HandleConfirm(range).Some?
      && HandleConfirm(range).value.weekStart == FormatIsoDate(wd[Monday])
      && HandleConfirm(range).value.to == FormatIsoDate(wd[Friday])
  {
    var range := SnapToWorkWeek(day);
    var monday := ReferenceDay(range.from.value);
    MondayOfWeekDay(monday, 0);
    WeekDatesOfStart(range.from.value);
    var wd := WeekDatesOf(range.from);
    assert wd[Monday] == monday;
    assert wd[Friday] == ReferenceDay(range.to.value);
  }

  /** A request for one of the dates of the week starting from `from` reads
      back as a day from that week's Monday to its Friday. */
  lemma WeekDateRequest(req: AssignRequest, from: Instant)
    requires ForWeekDate(req, WeekDatesOf(Some(from)))
    requires ReferenceDay(from) >= 0
    ensures ParseIsoDate(req.date).Some?
    ensures MondayOf(ReferenceDay(from)) <= ParseIsoDate(req.date).value <= MondayOf(ReferenceDay(from)) + 4
  {
    var wd := WeekDatesOf(Some(from));
    var w :| w in wd && req.date == FormatIsoDate(wd[w]);
    WeekDatesOfStart(from);
    assert wd[w] == MondayOf(ReferenceDay(from)) + w.Index();
    ParseFormatRoundTrip(wd[w]);
  }

  /** With a picked week, every single-day assignment request sent while the
      table shows that week reads back as a day from its Monday to its Friday. */
  lemma PickedWeekAssignments(day: Instant, events: seq<AssignEvent>)
    requires ReferenceDay(day) >= 0
    requires WeekChangesWhileClosed(Initial, WeekDatesOf(SnapToWorkWeek(day).from), events)
    ensures var wd := WeekDatesOf(SnapToWorkWeek(day).from);
      var sent := AssignDialog.Run(Initial, wd, events).2;
      forall k :: 0 <= k < |sent| && sent[k].shownWeek == wd ==>
        && ParseIsoDate(sent[k].request.date).Some?
        && MondayOf(ReferenceDay(day)) <= ParseIsoDate(sent[k].request.date).value <= MondayOf(ReferenceDay(day)) + 4
  {
    var from := SnapToWorkWeek(day).from.value;
    var monday := MondayOf(ReferenceDay(day));
    ReferenceDayOfDayStart(monday);
    assert MondayOf(ReferenceDay(from)) == monday;
    var wd := WeekDatesOf(Some(from));
    InitialConsistent(wd);
    RunSendsOnlyWeekDates(Initial, wd, events);
    var sent := AssignDialog.Run(Initial, wd, events).2;
    forall k | 0 <= k < |sent| && sent[k].shownWeek == wd
      ensures ParseIsoDate(sent[k].request.date).Some?
      ensures monday <= ParseIsoDate(sent[k].request.date).value <= monday + 4
    {
      WeekDateRequest(sent[k].request, from);
    }
  }

  /** "2025-06-16" is day 739417, a Monday. */
  lemma JuneSixteenth()
    ensures ParseIsoDate("2025-06-16") == Some(739_417)
    ensures Weekday(739_417) == 0
  {
    JuneSixteenthFields();
    assert "2025-06-16" == "2025" + "-" + "06" + "-" + "16";
    ParseIsoDateOfFields("2025", "06", "16");
    Civil.JanuaryFirst(2025);
    assert Civil.FromCivil(Civil.Date(2025, 6, 16)) == 739_417;
  }

  /** The digit strings of "2025-06-16" denote 2025, 6 and 16. */
  lemma JuneSixteenthFields()
    ensures ParseDecimal("2025") == 2025 && ParseDecimal("06") == 6 && ParseDecimal("16") == 16
  {
    assert "2025"[..3] == "202" && "202"[..2] == "20" && "20"[..1] == "2" && "2"[..0] == "";
    assert "06"[..1] == "0" && "0"[..0] == "";
    assert "16"[..1] == "1" && "1"[..0] == "";
  }

  /** Days 739417 and 739421 are 2025-06-16 and 2025-06-20. */
  lemma JuneDates()
    ensures Civil.ToCivil(739_417) == Civil.Date(2025, 6, 16)
    ensures Civil.ToCivil(739_421) == Civil.Date(2025, 6, 20)
  {
    Civil.JanuaryFirst(2025);
    assert Civil.FromCivil(Civil.Date(2025, 6, 16)) == 739_417;
    assert Civil.FromCivil(Civil.Date(2025, 6, 20)) == 739_421;
    Civil.ToCivilOfFromCivil(Civil.Date(2025, 6, 16));
    Civil.ToCivilOfFromCivil(Civil.Date(2025, 6, 20));
  }

  /** The padded fields of 2025-06-16 and 2025-06-20. */
  lemma JuneFields()
    ensures FormatFields(2025, 6, 16) == "2025-06-16"
    ensures FormatFields(2025, 6, 20) == "2025-06-20"
  {
  }

  /** The worked week: clicking Saturday 2025-06-21 (day 739422) sends the
      generation request from "2025-06-16" to "2025-06-20" with week start
      "2025-06-16", and a schedule dated on that Saturday lands in no slot. */
  lemma JuneWeekScenario(st: PickerState, s: Schedule)
    requires ReferenceDay(s.workdayDate) == 739_422
    ensures Weekday(739_422) == 5
    ensures var range := HandleDayClick(st, DayStart(739_422)).emitted;
      && HandleConfirm(range) == Some(GenerateRequest("2025-06-16", "2025-06-20", "2025-06-16"))
      && forall w: WorkDay :: !Hits(range, WeekDatesOf(range.from), s, w)
  {
    var click := DayStart(739_422);
    ReferenceDayOfDayStart(739_422);
    assert MondayOf(ReferenceDay(click)) == 739_417;
    var range := SnapToWorkWeek(click);
    assert ReferenceDay(range.from.value) == 739_417 by {
      ReferenceDayOfDayStart(739_417);
    }
    assert ReferenceDay(range.to.value) == 739_421;
    JuneDates();
    JuneFields();
    assert FormatIsoDate(739_417) == "2025-06-16";
    assert FormatIsoDate(739_421) == "2025-06-20";
    forall w: WorkDay ensures !Hits(range, WeekDatesOf(range.from), s, w) {
      PickedWeekTable(click, s, w);
    }
  }
}
