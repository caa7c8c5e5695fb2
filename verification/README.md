# Work-week derivation and schedule bucketing of the Skedule dashboard

This project models the date logic of the schedule screen of the Skedule
dashboard and proves properties of it:

- **Week picker** (`DatePickerWithRange`). A click on any day selects the
  Monday-to-Friday part of the Monday-to-Sunday week containing it, so a
  weekend click selects the days before it. The range is kept in internal
  state, reported to the parent, and overridden by the `date` prop.
- **Schedule table** (`ScheduleDataTable`).
  - It derives the five week dates (`weekDates`) from the range start.
  - It builds one row per employee, with a slot for each working day. A
    schedule fills the slot whose week date equals its day in Africa/Lagos
    time. The range filter applies when both range ends are present. If
    several schedules land on the same slot, the last one in the list wins.
  - Clicking an empty slot selects an employee and a date for a single-day
    assignment. Confirming sends the request. Success clears the selection.
- **Generation dialog** (`ScheduleDialog`). It sends `{from, to, weekStart}`
  as `yyyy-MM-dd` strings, with `weekStart := from`, and only when both range
  ends are present.

Days are integers counted from 0001-01-01 of the proleptic Gregorian calendar,
which was a Monday. So the weekday of day `d` is `d % 7`, and 0 is Monday.
Instants are milliseconds since the Unix epoch. `ReferenceDay` maps an
instant to its day in the reference zone, Africa/Lagos, taken as the fixed
UTC+1 offset it has kept since 1919-09-01. The `yyyy-MM-dd` rendering is modelled concretely:

- a Gregorian conversion from day numbers to year, month and day;
- date-fns' year-of-era rule for the `yyyy` token;
- zero padding.

A parser is proved to invert this rendering for every day from 0001-01-01 on.

Modules, one per file: `Wrappers` (Option), `Calendar` (days, instants,
weekdays, `DateRange`), `Civil` (Gregorian calendar), `IsoFormat`
(`yyyy-MM-dd`), `DatePicker`, `ScheduleTable`, `AssignDialog` (the
assignment flow inside the table), `ScheduleDialog`, and `WeekFlow` (the
pieces composed).

## Model

| member | source | states |
|---|---|---|
| Calendar.ReferenceDay | src/components/common/schedule/ScheduleTable.tsx:145-147 | the zoned start-of-day of an instant is the one day whose reference-zone span holds that instant |
| Calendar.ReferenceDayShift | src/components/common/schedule/DatePicker.tsx:42 | adding `k` whole days to an instant moves its reference day by exactly `k` (no daylight saving in the reference zone) |
| Calendar.MondayOf | src/components/common/schedule/DatePicker.tsx:39 | the start of a Monday-based week is a Monday at most six days before the day, and is not before day 0 for days from day 0 on |
| Civil.ToCivil | src/components/common/schedule/ScheduleDialog.tsx:37-38 | every day number has a valid calendar date whose day number is that day; the year is 1 or later exactly for days from 0001-01-01 on |
| Civil.ToCivilOfFromCivil | src/components/common/schedule/ScheduleDialog.tsx:37-38 | the conversion is a bijection: a valid date converted to a day number and back is unchanged |
| Civil.UnixEpochIsThursday | src/components/common/schedule/ScheduleTable.tsx:145-147 | 1970-01-01, the origin of `Date` instants, is the day number the instant conversion uses, and a Thursday |
| IsoFormat.FormatIsoDate | src/components/common/schedule/ScheduleDialog.tsx:37-38 | a day is rendered in the `yyyy-MM-dd` layout: at least four year digits, a dash, two month digits, a dash, two day digits; `ParseFormatRoundTrip` states that the digits are the day's own |
| IsoFormat.ParseFormatRoundTrip | src/components/common/schedule/ScheduleDialog.tsx:37-38 | reading a rendered `yyyy-MM-dd` string back gives the day it was rendered from |
| IsoFormat.FormatInjective | src/components/common/schedule/ScheduleTable.tsx:181 | different days from 0001-01-01 on give different `yyyy-MM-dd` strings, so the string identifies the day sent |
| IsoFormat.FormatCollidesBeforeYearOne | src/components/common/schedule/ScheduleDialog.tsx:37-38 | before year 1 the rendering is not injective: 0000-12-31 and 0001-12-31 both print as "0001-12-31" |
| DatePicker.Init | src/components/common/schedule/DatePicker.tsx:28-30 | the picker starts out showing the `date` prop |
| DatePicker.SnapToWorkWeek | src/components/common/schedule/DatePicker.tsx:39-43 | the picked range has both ends; `from` is a Monday midnight at most six days before the clicked day; `to` is four days later, the Friday |
| DatePicker.HandleDayClick | src/components/common/schedule/DatePicker.tsx:38-47 | the range stored internally is exactly the range passed to `onDateChange`, and it is the snapped week |
| DatePicker.SyncWithProp | src/components/common/schedule/DatePicker.tsx:33-36 | a change of the `date` prop replaces whatever range the picker held |
| DatePicker.SundaySnapsToPrecedingMonday | src/components/common/schedule/DatePicker.tsx:39 | a Sunday selects the Monday six days earlier, not the next one |
| DatePicker.SnapSameWeek | src/components/common/schedule/DatePicker.tsx:39-43 | two clicks give the same range if and only if they have the same Monday, equivalently if and only if the second falls within the seven days from the first one's Monday |
| DatePicker.SnapIdempotent | src/components/common/schedule/DatePicker.tsx:39-43 | clicking the selected Monday, or any day of its week, yields the identical range |
| DatePicker.WorkWeeksAreSnaps | src/components/common/schedule/DatePicker.tsx:39-43 | the ranges a click can produce are exactly the Monday-midnight-to-Friday-midnight ranges |
| DatePicker.LastEventDecides | src/components/common/schedule/DatePicker.tsx:33-46 | after any series of clicks and prop changes, the shown range is set by the last one: the last prop overrides earlier clicks |
| DatePicker.RunKeepsWorkWeek | src/components/common/schedule/DatePicker.tsx:33-46 | if every prop is a work week or absent, the shown range always is too |
| ScheduleTable.WalkBackToMonday | src/components/common/schedule/ScheduleTable.tsx:100-104 | the backward walk stops after at most six steps, on the Monday of the start day's week |
| ScheduleTable.FillWeek | src/components/common/schedule/ScheduleTable.tsx:105-108 | the map has exactly the five keys Monday..Friday, with day `i` holding Monday plus `i` |
| ScheduleTable.ComputeWeekDates | src/components/common/schedule/ScheduleTable.tsx:96-111 | without a range start the week map is empty; with one, all five days are present, the Monday is on or at most six days before the start day, and each date is that Monday plus the day's index |
| ScheduleTable.WeekDatesOfStart | src/components/common/schedule/ScheduleTable.tsx:98-108 | with a start date every working day has the week date Monday-plus-index |
| ScheduleTable.MatchFrom | src/components/common/schedule/ScheduleTable.tsx:156-161 | the key scan returns a key whose week date is the schedule's day, and returns nothing only when no remaining key has that date |
| ScheduleTable.MatchingDay | src/components/common/schedule/ScheduleTable.tsx:156-161 | since the week dates are distinct, the scan finds working day `w` if and only if `w`'s week date is the schedule's day |
| ScheduleTable.EmptyRowIsFull | src/components/common/schedule/ScheduleTable.tsx:134-140 | a row starts with all five slots present and empty |
| ScheduleTable.Place | src/components/common/schedule/ScheduleTable.tsx:143-161 | one schedule of the `forEach` overwrites exactly the slot it belongs in (its week date, inside the range when both ends are present) with its id and date, and leaves every other slot as it was |
| ScheduleTable.BucketRow | src/components/common/schedule/ScheduleTable.tsx:134-163 | the row keeps all five slots; what each slot ends up holding is stated by `BucketRowIsLastHit` |
| ScheduleTable.LastHit | src/components/common/schedule/ScheduleTable.tsx:143-161 | a slot is empty if and only if no schedule belongs there; otherwise it holds the id of the last schedule in the list that belongs there, with the slot's week date |
| ScheduleTable.BucketRowIsLastHit | src/components/common/schedule/ScheduleTable.tsx:134-163 | the row built by the in-order overwriting loop agrees, slot by slot, with the last schedule that belongs in that slot |
| ScheduleTable.ToRow | src/components/common/schedule/ScheduleTable.tsx:165-172 | an employee's row copies id, email, name and position, builds the avatar URL from the email, and holds in each slot the last of the employee's schedules that belongs there |
| ScheduleTable.BuildRows | src/components/common/schedule/ScheduleTable.tsx:114-174 | no rows before the employee list has loaded; otherwise one row per employee in the same order, copying id, email, name and position, with the avatar URL built from the email and every slot holding that employee's last matching schedule |
| ScheduleTable.NoStartNoCells | src/components/common/schedule/ScheduleTable.tsx:156-157 | without a range start every slot of every row is empty |
| ScheduleTable.HitMeaning | src/components/common/schedule/ScheduleTable.tsx:150-158 | a schedule fits a slot only on that slot's week date, which falls on the slot's weekday, and only inside the inclusive range when both ends are present |
| ScheduleTable.FilledCell | src/components/common/schedule/ScheduleTable.tsx:145-159 | a filled slot holds its week date, never a Saturday or Sunday, inside the range when both ends exist, with the id of a schedule of that employee on that date |
| ScheduleTable.LastScheduleWins | src/components/common/schedule/ScheduleTable.tsx:143-160 | a schedule that belongs in a slot, with no later schedule of the employee belonging there, is what the slot shows |
| ScheduleTable.EmptyCellIffNoHit | src/components/common/schedule/ScheduleTable.tsx:134-160 | a slot stays empty exactly when no schedule of the employee belongs in it |
| ScheduleTable.BucketingDependsOnOrder | src/components/common/schedule/ScheduleTable.tsx:143-160 | the matrix depends on list order: two same-day schedules listed in either order leave different ids in the slot |
| ScheduleTable.MidweekRangeHidesMonday | src/components/common/schedule/ScheduleTable.tsx:150-157 | for a range starting on a Wednesday, the week map still starts on the Monday, but the range filter keeps every schedule out of the Monday slot |
| AssignDialog.ClickCell | src/components/common/schedule/ScheduleTable.tsx:238-255 | clicking a filled slot, or a slot without a week date, changes nothing; otherwise the dialog opens with that employee and that slot's week date selected |
| AssignDialog.Confirm | src/components/common/schedule/ScheduleTable.tsx:176-182 | a request is sent if and only if the dialog is open, nothing is pending, and both an employee and a date are selected; it carries the employee id and the date as `yyyy-MM-dd`, which reads back as the selected day for days from 0001-01-01 on |
| AssignDialog.Settle | src/components/common/schedule/ScheduleTable.tsx:183-197 | on success the dialog closes and both selections reset; on error dialog and selections are unchanged |
| AssignDialog.CancelButton | src/components/common/schedule/ScheduleTable.tsx:393-398 | while a request is pending the disabled button changes nothing; otherwise Cancel closes the dialog and keeps the selection |
| AssignDialog.Dismiss | src/components/common/schedule/ScheduleTable.tsx:383 | dismissing closes the dialog and keeps the selection |
| AssignDialog.InitialConsistent | src/components/common/schedule/ScheduleTable.tsx:91-93 | the initial state, closed with nothing selected, is consistent with every week |
| AssignDialog.StepKeepsConsistent | src/components/common/schedule/ScheduleTable.tsx:248-255 | each event, with the week changing only while the dialog is closed, keeps employee and date selected together and keeps an open dialog's date among the displayed week's dates; a request sent carries a date of the week shown |
| AssignDialog.RunSendsOnlyWeekDates | src/components/common/schedule/ScheduleTable.tsx:176-201 | over any series of events, including changes of the displayed week while the dialog is closed, every request carries the rendering of a date of the week the table showed when it was sent |
| AssignDialog.ClickThenConfirm | src/components/common/schedule/ScheduleTable.tsx:176-182 | from the initial state, clicking the `+` of an empty slot with a week date and confirming sends exactly one request: that employee and that slot's date as `yyyy-MM-dd` |
| AssignDialog.StaleSelectionNotSent | src/components/common/schedule/ScheduleTable.tsx:383-404 | a selection kept after a dismissal is not sent after the week changes: with the dialog closed, Confirm sends nothing |
| ScheduleDialog.HandleConfirm | src/components/common/schedule/ScheduleDialog.tsx:35-56 | a request is made if and only if both range ends are present; `weekStart` equals `from`, and `from`/`to` are the `yyyy-MM-dd` renderings of the range ends |
| ScheduleDialog.ConfirmEnabled | src/components/common/schedule/ScheduleDialog.tsx:87 | Confirm is enabled exactly when nothing is pending and both range ends are present; `PressSendsIffEnabled` ties it to what a press sends |
| ScheduleDialog.PressConfirm | src/components/common/schedule/ScheduleDialog.tsx:84-88 | pressing Confirm sends only what `handleConfirm` would send |
| ScheduleDialog.PressSendsIffEnabled | src/components/common/schedule/ScheduleDialog.tsx:87 | a press sends a request exactly when Confirm is enabled: nothing pending and both range ends present |
| ScheduleDialog.RequestReadsBack | src/components/common/schedule/ScheduleDialog.tsx:37-44 | `weekStart` and `to` of the request read back as the reference days of the range ends |
| ScheduleDialog.WeekStartMondayIffFromMonday | src/components/common/schedule/ScheduleDialog.tsx:37-43 | the request is not snapped: for range ends from 0001-01-01 on, `weekStart` reads back as a Monday exactly when the range starts on a Monday |
| ScheduleDialog.OnSettled | src/components/common/schedule/ScheduleDialog.tsx:46-52 | `onConfirm` is called on success, including an empty list of created schedules, and never on error; an error shows its message |
| WeekFlow.PickedWeekRequest | src/components/common/schedule/ScheduleDialog.tsx:43 | after a click, the request's `weekStart` (equal to `from`) reads back as the Monday of the clicked day's week, and `to` as the Friday four days later |
| WeekFlow.PickedWeekTable | src/components/common/schedule/ScheduleTable.tsx:150-159 | with a picked week the week dates are that week's Monday to Friday, and a schedule fits slot `w` exactly when it falls on Monday plus `w`'s index: the filter drops nothing the week map would place |
| WeekFlow.TableAndRequestAgree | src/components/common/schedule/ScheduleDialog.tsx:37-44 | for a picked week, the table's rendered Monday and Friday are the request's `weekStart` and `to` |
| WeekFlow.WeekDateRequest | src/components/common/schedule/ScheduleTable.tsx:181 | an assignment request for a week date reads back as a day from that week's Monday to its Friday |
| WeekFlow.PickedWeekAssignments | src/components/common/schedule/ScheduleTable.tsx:176-181 | with a picked week, every assignment request sent while the table shows that week reads back as a day from that week's Monday to its Friday |
| WeekFlow.JuneSixteenth | src/components/common/schedule/ScheduleDialog.tsx:37-38 | "2025-06-16" reads as day 739417, a Monday |
| WeekFlow.JuneWeekScenario | src/components/common/schedule/DatePicker.tsx:38-47 | clicking Saturday 2025-06-21 yields exactly the request `{from: "2025-06-16", to: "2025-06-20", weekStart: "2025-06-16"}`, and a schedule on that Saturday lands in no slot |

## Behaviour of the code worth knowing

- **Duplicate schedules for one slot.** The later schedule in the
  employee's list overwrites the earlier one, and nothing records the
  collision. So the matrix depends on list order (`BucketingDependsOnOrder`).
- **Weekend and out-of-range schedules.** They are dropped, and nothing
  records that they were.
- **The range filter.** It applies only when both range ends are present. It
  compares reference days and is inclusive. A range that does not start on a
  Monday can keep schedules out of slots the week map shows
  (`MidweekRangeHidesMonday`).
- **The generation request.** `handleConfirm` does not snap. `weekStart` is
  `from` rendered as it is, so it is a Monday exactly when the range starts on
  one (`WeekStartMondayIffFromMonday`). Every picked range starts on a Monday
  (`PickedWeekRequest`), and so does the schedule page's initial range, which
  starts on 2025-06-02.

## Left out

- Network and cache plumbing (`src/api/schedule.ts`, `src/api/user.ts`,
  `src/api/auth.ts`) is left out: axios calls, react-query hooks, cache
  invalidation and localStorage. The mutations become a pending flag and an
  outcome given as input.
- Toasts, console logging, and the `LLL dd, y` text in titles and toasts are
  presentation only.
- Parsing of the service's ISO date-time strings (`new Date(schedule.workday.date)`)
  is left out. A schedule carries the instant that string denotes.
- Time zones are simplified. The picker snaps, and the generation dialog
  formats, in the browser's zone; the table works in Africa/Lagos. The model
  uses one reference calendar, a fixed UTC+1 offset with no daylight saving.
- Africa/Lagos has been UTC+1 only since 1919-09-01; before that its offset
  was local mean time (+0:13:35), then GMT, then +0:30. The model applies
  UTC+1 to every instant, so statements about reference days before 1919
  describe the fixed-offset calendar, not the historical zone.
- A JavaScript `Date` only holds instants within ±8.64e15 ms of the epoch.
  Beyond that, `new Date` and `addDays` give an Invalid Date and `format`
  throws a RangeError. `Instant` is unbounded, so the model states nothing
  about those failures.
- `getRandomColor` is random, so it is left out. Sorting, filtering and
  pagination belong to tanstack-table.
- The dialog's modality is modelled only as an assumption. The UI library
  blocks input to the page while the dialog is open; `AssignDialog.ClickCell`
  does not check `dialogOpen`, just as the click handler does not. The run
  lemmas assume, through `WeekChangesWhileClosed`, that the displayed week
  changes only while the dialog is closed.
- The dashboard's comparison chart rows (src/app/(app)/dashboard/page.tsx:191-219)
  are outside this model: a fixed-order copy of three service results, or
  none without a result. Fairness bounds (`outOfBounds`, `invalidAssignments`)
  arrive precomputed from the service (src/api/schedule.ts:75-86). No stale
  responses are discarded anywhere. The dashboard page's own range handling
  is outside this model too.
- IsoFormat.ParseFormatRoundTrip: proved only for days from 0001-01-01 on.
  Before year 1, date-fns prints the year of the era, which makes the
  rendering non-injective (`FormatCollidesBeforeYearOne`).
- AssignDialog.Confirm: the read-back of the sent date is stated only for
  days from 0001-01-01 on, for the same reason.
- IsoFormat.FormatInjective: stated only for days from 0001-01-01 on, for the
  same reason.
- ScheduleDialog.WeekStartMondayIffFromMonday: stated only for range ends
  from 0001-01-01 on, for the same reason.
- ScheduleDialog.RequestReadsBack: stated only for range ends from 0001-01-01
  on, for the same reason.
- WeekFlow.PickedWeekRequest: stated only for clicks from 0001-01-01 on, for
  the same reason.
- WeekFlow.PickedWeekAssignments: stated only for clicks from 0001-01-01 on,
  for the same reason.
- WeekFlow.WeekDateRequest: stated only for range starts from 0001-01-01 on,
  for the same reason.
- WeekFlow.PickedWeekTable: holds in the source only for browser zones at or
  behind UTC+1. In a zone ahead of it (Europe/Berlin in summer, say) the
  picked Monday midnight is still Sunday in Lagos. The table then walks back
  to the previous week, and the range filter excludes every week date.
- WeekFlow.TableAndRequestAgree: holds in the source only for browser zones at
  or behind UTC+1, for the same reason. Ahead of it, the table shows the
  previous week while the request names the picked one.
- WeekFlow.PickedWeekAssignments: holds in the source only for browser zones
  at or behind UTC+1, for the same reason. Ahead of it, the `+` buttons select
  dates of the previous week.
- WeekFlow.JuneWeekScenario: its statement about table slots holds in the
  source only for browser zones at or behind UTC+1, for the same reason.
