/**
 The schedule-generation dialog (`ScheduleDialog`): on Confirm it asks the
 service to generate a fair-greedy schedule for the selected range, sending
 `{from, to, weekStart}` as `yyyy-MM-dd` strings with `weekStart` equal to `from`.
 */
module ScheduleDialog {
  import opened Wrappers
  import opened Calendar
  import opened IsoFormat

  /** The generation request body. */
  datatype GenerateRequest = GenerateRequest(from: string, to: string, weekStart: string)

  /** One schedule the service reports as created. */
  datatype CreatedSchedule = CreatedSchedule(id: string, workdayId: string, employeeId: string, assignedById: string)

  /** How the generation request settled: the created schedules, or an error message. */
  datatype GenerateOutcome = Generated(created: seq<CreatedSchedule>) | GenerationFailed(message: string)

  /** What the dialog does when the request settles: whether it calls the
      `onConfirm` callback, and the error message it shows. */
  datatype SettleEffect = SettleEffect(callsOnConfirm: bool, shownError: Option<string>)

  /** `handleConfirm`: a request only when both ends of the range are present;
      its `weekStart` is its `from`, and both ends are the reference days of
      the range ends, rendered as `yyyy-MM-dd`. */
  function HandleConfirm(range: DateRange): (r: Option<GenerateRequest>)
    ensures r.Some? <==> range.from.Some? && range.to.Some?
    ensures r.Some? ==>
      && r.value.weekStart == r.value.from
      && r.value.from == FormatIsoDate(ReferenceDay(range.from.value))
      && r.value.to == FormatIsoDate(ReferenceDay(range.to.value))
  {
    if range.from.Some? && range.to.Some? then
      var fromDate := FormatIsoDate(ReferenceDay(range.from.value));
      var toDate := FormatIsoDate(ReferenceDay(range.to.value));
      Some(GenerateRequest(fromDate, toDate, fromDate))
    else None
  }

  /** Whether the Confirm button is enabled: no request pending and both ends present. */
  predicate ConfirmEnabled(pending: bool, range: DateRange) {
    !pending && range.from.Some? && range.to.Some?
  }

  /** Pressing Confirm: a disabled button does nothing. */
  function PressConfirm(pending: bool, range: DateRange): (r: Option<GenerateRequest>)
    ensures r.Some? ==> HandleConfirm(range) == r
  {
    if ConfirmEnabled(pending, range) then HandleConfirm(range) else None
  }

  /** A press sends a request exactly when the button is enabled. */
  lemma PressSendsIffEnabled(pending: bool, range: DateRange)
    ensures PressConfirm(pending, range).Some? <==> ConfirmEnabled(pending, range)
  {
  }

  /** The range ends can be read back from the request when they are on or after 0001-01-01. */
  lemma RequestReadsBack(range: DateRange)
    requires range.from.Some? && range.to.Some?
    requires ReferenceDay(range.from.value) >= 0 && ReferenceDay(range.to.value) >= 0
    ensures ParseIsoDate(HandleConfirm(range).value.weekStart) == Some(ReferenceDay(range.from.value))
    ensures ParseIsoDate(HandleConfirm(range).value.to) == Some(ReferenceDay(range.to.value))
  {
    ParseFormatRoundTrip(ReferenceDay(range.from.value));
    ParseFormatRoundTrip(ReferenceDay(range.to.value));
  }

  /** `handleConfirm` does not snap: `weekStart` reads back as a Monday exactly
      when the range starts on one. */
  lemma WeekStartMondayIffFromMonday(range: DateRange)
    requires range.from.Some? && range.to.Some?
    requires ReferenceDay(range.from.value) >= 0 && ReferenceDay(range.to.value) >= 0
    ensures ParseIsoDate(HandleConfirm(range).value.weekStart).Some?
    ensures Weekday(ParseIsoDate(HandleConfirm(range).value.weekStart).value) == 0
      <==> Weekday(ReferenceDay(range.from.value)) == 0
  {
    RequestReadsBack(range);
  }

  /** `onConfirm` runs only on success (an empty list of created schedules is
      a success too); an error is shown instead. */
  function OnSettled(outcome: GenerateOutcome): (r: SettleEffect)
    ensures r.callsOnConfirm <==> outcome.Generated?
    ensures r.shownError.Some? <==> outcome.GenerationFailed?
    ensures outcome.GenerationFailed? ==> r.shownError == Some(outcome.message)
  {
    match outcome
    case Generated(_) => SettleEffect(true, None)
    case GenerationFailed(message) => SettleEffect(false, Some(message))
  }
}
