# Dental clinic booking rules, modelled in Dafny

This project models the booking rules of a dental clinic's self-service
appointment system. Patients pick a doctor, a weekday and a 30-minute slot,
then enter their details. The backend keeps every appointment as one row of
a spreadsheet and mirrors it to a calendar.

The model covers these parts of the system:

- **TimeUtil, Calendar, Catalog** (`src/lib/types.ts`): the time and date
  helpers, the static catalogue of doctors, services and slots, the 2026
  holiday list, and the two day-eligibility rules.
- **Availability** (`src/lib/api.ts`): date normalisation and the post-fetch
  part of `getAvailability`.
- **Ledger** (`backend/server.js`): the spreadsheet as a class `Sheet` over a
  sequence of rows. The GET mapping from row to record is a function, and
  POST, PUT and DELETE are methods.
- **EventTime** (`backend/server.js`): the timestamps sent to the calendar.
- **PatientForm** (`src/components/PatientForm.tsx`): the patient-data schema.
- **Wizard** (`src/pages/Agendar.tsx`): the three-step wizard as a class
  `BookingWizard` with one method per handler.
- **ServiceSelect, DoctorSelect**: the selection rules of those two
  components.
- **BookingFlow**: lemmas that join the pieces, for example that a booking
  closes its own slot, that cancelling gives the slot back, and that a
  rescheduled record is read back with its new date and hour.

Shared helpers:

- **Text** models the JavaScript string operations the code relies on:
  `padStart(2, "0")`, `toString()`, `split`, `Number` and `parseInt`.
- **Wrappers** holds `Option` and `Result`.

## Conventions

- **Dates** are `(year, month, day)` values. "Today" is a parameter.
- **Weekdays** come from the Gregorian day-of-week formula. A lemma proves
  that the formula advances by one each day, and another anchors it on a
  known Monday.
- **Network calls are parameters.** The spreadsheet calls and the
  calendar insert become `Call` values, either `Done` or `Fails(message)`.
  The wizard receives the fetched bookings, or `None` when the fetch failed,
  and the outcome of the create request.
- **`Number(s)`** is modelled for strings of ASCII digits, with `""` reading
  as 0. Any other string is `NaN`, which the model writes as `None`.
- **`parseInt(s, 10)`** reads the leading run of digits.

The model keeps the program's behaviour where it departs from the booking
lifecycle it serves:

- A rescheduled booking still takes place, yet only `"Activa"` records block
  a slot (see Findings).
- A slot is blocked only by a record starting at exactly its hour; how long
  an appointment lasts plays no part, and the sheet holds columns A to K only.
- The afternoon grid ends with the 17:00 slot.

## Model

| member | source | states |
|---|---|---|
| TimeUtil.HourToMinutesOfNumerals | src/lib/types.ts:222-225 | "h:m" with numeric parts gives h*60 + m |
| TimeUtil.HourToMinutesOfHHMM | src/lib/types.ts:222-225 | a canonical "HH:MM" gives its hours times 60 plus its minutes |
| TimeUtil.MinutesToHourShape | src/lib/types.ts:228-232 | inside one day the rendering is a zero-padded five-character "HH:MM" |
| TimeUtil.MinutesToHourRoundTrip | src/lib/types.ts:222-232 | reading back the rendering of any minute count gives that count |
| TimeUtil.HourToMinutesRoundTrip | src/lib/types.ts:222-232 | rendering the value read from a canonical "HH:MM" (minutes < 60) gives the same string |
| TimeUtil.Clock12 | src/lib/types.ts:238 | for hours 0..23 the 12-hour hour lies in 1..12 and agrees with the 24-hour hour modulo 12 |
| TimeUtil.MinutesToLabelShape | src/lib/types.ts:235-241 | a label ends in "AM"/"PM", and "PM" exactly when the hour is 12 or more; two-digit minutes after ':' |
| TimeUtil.MinutesToLabelOf | src/lib/types.ts:235-241 | the label of h*60+m is the 12-hour hour, ':', the padded minutes and the meridiem |
| TimeUtil.MinutesToLabelRoundTrip | src/lib/types.ts:235-241 | every time of day reads back from its label, so labels are unambiguous |
| TimeUtil.NormalizeHourOf | src/lib/types.ts:281-284 | "h:m" becomes padded h, ':', and m unchanged |
| TimeUtil.NormalizeHourIdempotent | src/lib/types.ts:281-284 | normalising twice is normalising once, for every string |
| TimeUtil.NormalizeHourOfHHMM | src/lib/types.ts:281-284 | a canonical "HH:MM" is already normal |
| Calendar.DaysInMonth | src/lib/types.ts:292-309 | month lengths of the Gregorian calendar: 31/30 by month, February 29 exactly in leap years |
| Calendar.BeforeIsStrictTotalOrder | src/lib/types.ts:309 | the day comparison `date < today` is a strict total order |
| Calendar.NextDay | src/lib/types.ts:293 | the following day is a valid date, strictly later, the first of a month or the next day of the same month |
| Calendar.NextDayIsNext | src/lib/types.ts:293 | no valid date lies strictly between a date and its following day |
| Calendar.DaysAfter | backend/server.js:400-403 | the date k days on is valid, and strictly later when k > 0 |
| Calendar.WeekdayNextDay | src/lib/types.ts:293 | the weekday formula advances by one (mod 7) from each day to the next, across month, February and year ends |
| Calendar.WeekdayAnchor | src/lib/types.ts:293 | 2 March 2026 is a Monday |
| Calendar.DateToDDMMYYYYRoundTrip | src/lib/types.ts:273-278 | every date reads back from its "DD/MM/AAAA" rendering |
| Calendar.DateToDDMMYYYYInjective | src/lib/types.ts:273-278 | distinct dates render to distinct strings |
| Calendar.HolidayStrings | src/lib/types.ts:247-266 | the holiday strings are exactly the renderings of the holiday days, one for one |
| Calendar.HolidayListMeaning | src/lib/types.ts:301-304 | `HOLIDAYS_2026.includes(dateToDDMMYYYY(d))` holds exactly for the listed days |
| Calendar.HolidaysAreWeekdays | src/lib/types.ts:247-266 | every 2026 holiday is a valid date falling Monday to Friday |
| Calendar.IsDateDisabled | src/lib/types.ts:292-312 | disabled exactly on Sundays, Saturdays, holidays and days before today |
| Calendar.IsDateDisabledMonotone | src/lib/types.ts:306-309 | a day disabled today stays disabled on any later today |
| Calendar.IsDateDisabledForDoctor | src/lib/types.ts:319-341 | the general rule, plus 19 to 25 February 2026 inclusive for "dra-sandra" |
| Calendar.OtherDoctorsFollowGeneralRule | src/lib/types.ts:326-341 | for every other doctor (or none) the rule is exactly the general one |
| Catalog.FirstIndex | src/lib/types.ts:171-175 | `findIndex`: the first position satisfying the test, or none satisfies it |
| Catalog.Find | src/lib/types.ts:171-175 | `find`: a found element passes and sits at a position before which nothing passes (the first match); none found iff no element passes |
| Catalog.FindAt | src/lib/types.ts:171-175 | when position i is the first that passes, `find` returns its element |
| Catalog.GetDoctorForService | src/lib/types.ts:171-175 | a found doctor is in DOCTORS and is the doctor of a service with this id; an unknown id gives none |
| Catalog.CatalogIdsDistinct | src/lib/types.ts:71-168 | service ids are pairwise distinct, and so are doctor ids |
| Catalog.GetDoctorForServiceOfCatalog | src/lib/types.ts:88-175 | every catalogue service has a doctor, and it is the one named by its doctorId |
| Catalog.SlotGridRendering | src/lib/types.ts:181-201 | each configured slot's hour and label are the renderings of its grid start |
| Catalog.SlotGrid | src/lib/types.ts:181-215 | each configured hour is a canonical "HH:MM" that reads back as its grid start, lies inside its period's limits and is already normal |
| Catalog.SlotGridSpacing | src/lib/types.ts:181-201 | consecutive configured hours of a period read back 30 minutes apart |
| Catalog.SlotHoursDistinct | src/lib/types.ts:181-201 | two configured slots share an hour exactly when they are the same slot |
| Availability.Filter | src/lib/api.ts:69-71 | `filter`: only passing elements, never more than the input |
| Availability.FilterOne | src/lib/api.ts:69-71 | a single element is kept exactly when it passes |
| Availability.FilterConcat | src/lib/api.ts:69-71 | filtering distributes over concatenation, so with FilterOne the kept elements keep their input order |
| Availability.FilterKeeps | src/lib/api.ts:69-71 | the result is a sub-multiset of the input and every passing input element is kept |
| Availability.FilterFilter | src/lib/api.ts:69-94 | filtering twice is filtering once by both tests |
| Availability.FilterNonEmpty | src/lib/api.ts:87-98 | at least one element passes exactly when some input element passes |
| Availability.FilterAtLeastTwo | src/lib/api.ts:92-99 | at least two pass exactly when two distinct input positions pass |
| Availability.NormalizeDateOf | src/lib/api.ts:14-19 | "d/m/y" becomes padded day and month with the year kept |
| Availability.NormalizeDateIdempotent | src/lib/api.ts:14-19 | input without exactly three parts is returned unchanged; normalising twice is normalising once |
| Availability.NormalizeDateOfRenderings | src/lib/api.ts:14-19 | padded and unpadded renderings of a date normalise to the padded one |
| Availability.MarkSlot | src/lib/api.ts:85-107 | a marked slot keeps hour, label and period; spotsLeft is 1 when available, else 0 |
| Availability.SlotsWithAvailability | src/lib/api.ts:74-107 | one entry per configured slot, mornings first, each in config order and tagged with its period |
| Availability.GetAvailability | src/lib/api.ts:60-108 | one entry per configured slot, available iff no "Activa" record of the doctor and fewer than two "Activa" records of the date sit at its hour |
| Availability.GetAvailabilityIntended | src/lib/api.ts:60-108 | the corrected rule: the same meaning with "Activa" and "Reagendada" records both blocking |
| Availability.DoctorCountMeaning | src/lib/api.ts:87-98 | the doctor is busy exactly when one of the doctor's counted records of that date is at that hour |
| Availability.TotalCountMeaning | src/lib/api.ts:92-99 | the slot is full exactly when two distinct counted records of that date are at that hour |
| Availability.MarkSlotMeaning | src/lib/api.ts:85-107 | available iff the doctor is not busy and the hour is not full |
| Availability.SlotsWithAvailabilityMeaning | src/lib/api.ts:60-108 | every entry of the result is available iff no counted record of the doctor and fewer than two counted records sit at its hour |
| Availability.CitasEnFechaSnoc | src/lib/api.ts:69-71 | appending a record adds it to the day's list exactly when it counts |
| Availability.MarkSlotIgnores | src/lib/api.ts:87-94 | a record at another hour never changes a slot, whatever its duration |
| Availability.AvailabilityIgnores | src/lib/api.ts:68-107 | a record that does not occupy a slot's hour and date leaves that slot unchanged |
| Availability.OnlyActiveRecordsBlock | src/lib/api.ts:68-71 | a record in any state other than "Activa" never changes any slot |
| Availability.EmptyLedgerAllAvailable | src/lib/api.ts:85-107 | with no records every slot is available with one spot |
| Availability.RescheduledBookingDoesNotBlock | src/lib/api.ts:68-71 | a rescheduled booking at 08:00 leaves 08:00 open as written, and closes it under the corrected rule |
| EventTime.AddMinutes | backend/server.js:400-403 | adding minutes keeps a valid time, is strictly later, and stays on the same day exactly when no midnight is crossed |
| EventTime.AddMinutesAdditive | backend/server.js:401-403 | adding a then b minutes is adding a+b |
| EventTime.AddMinutesNextDay | backend/server.js:401-403 | crossing one midnight lands on the next calendar day at the minutes left over |
| EventTime.AddMinutesDays | backend/server.js:401-403 | in general the result is as many days later as whole days fit in the minutes, at the remainder |
| EventTime.ParseRequest | backend/server.js:397-400 | a parsed request is a valid date and a time of day |
| EventTime.ParseRequestOfRendering | backend/server.js:397-400 | "DD/MM/AAAA" and "HH:MM" renderings parse back to their date and time |
| EventTime.BuildDateTime | backend/server.js:396-407 | defined exactly for parseable requests; the printed timestamp reads back as the request plus the extra minutes |
| EventTime.IsoReadsBack | backend/server.js:405-406 | a timestamp printed with its own year and month parses back to itself |
| EventTime.StartIsTheBooking | backend/server.js:177 | with no extra minutes both builders print the booked date and time |
| EventTime.AsWrittenAgreesWithinMonth | backend/server.js:396-407 | when the shifted time stays in the month, the builder as written equals the corrected one |
| EventTime.GridEventsStayInDay | backend/server.js:177-178 | for every grid slot the one-hour end stays on the same day, so the builder as written is correct there |
| EventTime.MonthRolloverAsWritten | backend/server.js:406 | 31/01/2026 23:30 plus 60 is printed as 2026-01-01T00:30 as written, and 2026-02-01T00:30 corrected |
| EventTime.AsWrittenEndIsAnotherInstant | backend/server.js:400-406 | that end timestamp reads back as 1 January 00:30, not the 1 February 00:30 it should be |
| Ledger.Cell | backend/server.js:129-139 | `row[i] \|\| fallback`: the cell when present and non-empty, else the fallback |
| Ledger.RowToCita | backend/server.js:127-140 | the id is the sheet row number index+2; a missing or blank G reads as "Activa" and H as "Agendamiento", otherwise the cell; every other field is its cell, or "" when the row is shorter; a full row reads back as itself |
| Ledger.ReadCitas | backend/server.js:126-140 | one record per data row, each the mapping of its row |
| Ledger.RowToCitaOfCitaRow | backend/server.js:127-140 | writing a record as a row and reading it back gives the record under its new id |
| Ledger.RowToCitaNormal | backend/server.js:127-140 | reading is idempotent: a read record, written and read again, is unchanged |
| Ledger.ParseInt | backend/server.js:217 | `parseInt` yields a number exactly when the id starts with a digit |
| Ledger.ParseIntOfNatToString | backend/server.js:128-217 | the id GET hands out parses back to its row number |
| Ledger.OnRow | backend/server.js:227-236 | a call on a row succeeds exactly when the call succeeds and the row number is a valid range |
| Ledger.WriteCells | backend/server.js:274-287 | the written cells hold the values, the other cells are kept, and gaps become empty |
| Ledger.WriteRow | backend/server.js:234-287 | only the target row changes; the sheet grows with empty rows when the target lies beyond it |
| Ledger.BookingEvent | backend/server.js:174-187 | built with `buildDateTime` as written: defined iff the request parses; the start reads back as the booked time; the end reads back as one hour later whenever that hour stays in the booked month |
| Ledger.Sheet.constructor | backend/server.js:123 | a new sheet holds only the header row |
| Ledger.Sheet.Book | backend/server.js:153-208 | missing fields: 400 and no row; append failure: 500 with the error and no row; else exactly the booked row is appended, the event is `BookingEvent` of the request, and the reply is 200 with the calendar's event id or "" when the calendar failed |
| Ledger.Sheet.Reschedule | backend/server.js:215-261 | empty date or hour: 400 and nothing changes; a failed call: 500 and nothing changes; else the target row is rewritten with the new date, hour, state and time and no other row changes |
| Ledger.Sheet.Cancel | backend/server.js:268-295 | G:H become "Cancelada"/"Cancelacion" and then K the time; a failure of the second write leaves the first; the row is never removed |
| Ledger.ReadBookRow | backend/server.js:164-172 | a booked row reads back as an active record with the request's data and equal time stamps |
| Ledger.ReadCitasSnoc | backend/server.js:126-140 | reading one more row lists one more record at the end |
| Ledger.ReadAfterBook | backend/server.js:126-172 | after a booking the list grows by the new active record, numbered after all others |
| Ledger.ReadRescheduleRow | backend/server.js:239-251 | a rewritten row reads back as the old record with new date and hour, "Reagendada", and a new update time |
| Ledger.ReadCancelledRow | backend/server.js:274-287 | a cancelled row reads back as the old record with "Cancelada", "Cancelacion" and a new update time |
| Ledger.ReadPartiallyCancelledRow | backend/server.js:274-279 | after only the first DELETE write the row reads as cancelled with its old update time |
| Ledger.WriteRowKeepsOthers | backend/server.js:234-287 | every other row is kept |
| PatientForm.Strip | src/components/PatientForm.tsx:21 | the transform removes every whitespace, '.' and '-', and never lengthens |
| PatientForm.StripIdempotent | src/components/PatientForm.tsx:21 | stripping twice is stripping once |
| PatientForm.StripConcat | src/components/PatientForm.tsx:21 | stripping distributes over concatenation |
| PatientForm.StripDropsSeparator | src/components/PatientForm.tsx:21 | removing one separator anywhere in the input does not change the stripped text |
| PatientForm.CedulaIssues | src/components/PatientForm.tsx:18-23 | no issue iff the stripped value is 5 to 12 digits; empty input reports all three messages, "obligatoria" first, since a failed `min(1)` does not stop the refinements; non-digits report the digits message first |
| PatientForm.SeparatorsIgnored | src/components/PatientForm.tsx:21-23 | inserting a separator anywhere never changes whether a cédula is accepted |
| PatientForm.NombreIssues | src/components/PatientForm.tsx:24-28 | no issue iff at least 3 characters, all letters (ASCII or Spanish accented) or whitespace; empty input reports all three messages; a short name reports the length message first |
| PatientForm.LastIndexOf | src/components/PatientForm.tsx:33 | the last position of a character, or none occurs |
| PatientForm.EmailCutUnique | src/components/PatientForm.tsx:33 | a fitting split is the only '@' and the last '.' |
| PatientForm.IsEmailMatches | src/components/PatientForm.tsx:32-35 | the computed check holds exactly when the pattern local@domain.tld matches |
| PatientForm.CorreoIssues | src/components/PatientForm.tsx:29-35 | no issue iff the e-mail pattern matches; empty input reports both messages |
| PatientForm.TelefonoIssues | src/components/PatientForm.tsx:36-39 | no issue iff exactly 10 ASCII digits |
| PatientForm.Validate | src/components/PatientForm.tsx:17-40 | accepted iff all four fields pass; the result carries the stripped cédula and the other fields as typed; a rejection lists at least one issue |
| PatientForm.AcceptedCedulaIsStable | src/components/PatientForm.tsx:21-23 | an accepted cédula is itself acceptable and contains no separator |
| PatientForm.InitialInput | src/components/PatientForm.tsx:51 | the form starts with `initialCedula` or "", and the other fields empty |
| PatientForm.EmptyFormRefused | src/components/PatientForm.tsx:17-40 | the empty form is refused with ten issues, the cédula's first |
| ServiceSelect.AutoSelected | src/components/ServiceSelect.tsx:68-84 | the first type is selected iff the service has exactly one type and is not always shown |
| ServiceSelect.AutoSelectOrPicker | src/components/ServiceSelect.tsx:76-84 | for a service with a type, exactly one of auto-select and the type picker holds |
| ServiceSelect.CatalogAutoSelects | src/components/ServiceSelect.tsx:68-84 | in the catalogue only whitening and prophylaxis auto-select |
| ServiceSelect.DurationLabelRoundTrip | src/components/ServiceSelect.tsx:181-187 | 30, 60, 90 and 120 read back from their labels; any other duration shows "30 min" |
| ServiceSelect.CatalogDurationsLabelled | src/components/ServiceSelect.tsx:181-187 | every catalogue type's label names its duration faithfully |
| ServiceSelect.CardWithCalendar | src/components/ServiceSelect.tsx:197-217 | for a catalogue service the doctor card and the calendar appear together, exactly once a type is chosen |
| ServiceSelect.CalendarDisabled | src/components/ServiceSelect.tsx:86-228 | the general rule, plus Dra. Sandra's week when the service is hers |
| ServiceSelect.MapId | src/components/ServiceSelect.tsx:228 | `doctor?.id`: present exactly when the doctor is, and then the doctor's id |
| ServiceSelect.OrthodonticsClosedInSandrasWeek | src/components/ServiceSelect.tsx:228 | orthodontics is closed 19 to 25 February 2026 |
| ServiceSelect.GeneralDentistryFollowsGeneralRule | src/components/ServiceSelect.tsx:228 | general dentistry follows only the general rule |
| DoctorSelect.PickerDisabled | src/components/DoctorSelect.tsx:20-76 | disabled iff before today or a Saturday or Sunday |
| DoctorSelect.PickerWeakerThanGeneralRule | src/components/DoctorSelect.tsx:76 | whatever this calendar disables, the general rule disables too |
| DoctorSelect.PickerDiffersOnHolidays | src/components/DoctorSelect.tsx:76 | the two rules differ exactly on future weekday holidays |
| DoctorSelect.HolidayOffered | src/components/DoctorSelect.tsx:76 | 12 October 2026, a Monday holiday, is offered here though the general rule closes it |
| Wizard.SlotLabel | src/pages/Agendar.tsx:115-118 | no configured slot with the hour gives the hour itself; otherwise the label of a matching slot |
| Wizard.SlotLabelOfGrid | src/pages/Agendar.tsx:115-142 | the confirmation shows each grid hour as that slot's own label, the 12-hour rendering of its start |
| Wizard.BookingWizard.constructor | src/pages/Agendar.tsx:19-27 | the page opens at step 1 with nothing chosen |
| Wizard.BookingWizard.SelectDoctor | src/pages/Agendar.tsx:156 | the doctor is set and nothing else changes |
| Wizard.BookingWizard.SelectDate | src/pages/Agendar.tsx:157 | the day is set or cleared and nothing else changes; it is called only once a doctor is chosen (the calendar appears then) and never with a day the calendar disables |
| Wizard.BookingWizard.LoadSlots | src/pages/Agendar.tsx:29-50 | the slots become `getAvailability` (as written) of the chosen day and doctor; a failed fetch keeps them and shows the error toast |
| Wizard.BookingWizard.SelectSlot | src/pages/Agendar.tsx:164 | a click selects an available slot and is ignored on an unavailable one |
| Wizard.BookingWizard.Next | src/pages/Agendar.tsx:52-57 | 1 to 2 only with doctor and date, 2 to 3 only with a slot, never beyond 3; the step stays in 1..3 |
| Wizard.BookingWizard.Back | src/pages/Agendar.tsx:59-66 | 2 to 1 clearing the slot, 3 to 2 keeping it, nothing at 1 |
| Wizard.BookingWizard.Submit | src/pages/Agendar.tsx:68-103 | nothing is sent without doctor, date and slot; the request carries the form data, the date as DD/MM/AAAA, the slot and the doctor's name; confirmed exactly on success |
| Wizard.BookingWizard.Reset | src/pages/Agendar.tsx:105-113 | every field is back to the opening state |
| BookingFlow.WizardRequestComplete | src/pages/Agendar.tsx:72-80 | a request built from an accepted form and a chosen slot passes the server's required-field check |
| BookingFlow.BookingClosesItsSlot | backend/server.js:164-172 | after a booking, its own slot is no longer offered to the doctor |
| BookingFlow.PickedSlotIsClosed | src/pages/Agendar.tsx:72-80 | booking a grid slot closes that slot under both availability rules |
| BookingFlow.NonCountingReplaced | src/lib/api.ts:68-71 | a record turned into a non-counting one acts as if it were removed |
| BookingFlow.NonCountingAppended | src/lib/api.ts:68-71 | appending a record that does not count leaves availability unchanged |
| BookingFlow.ReadOverwrittenRow | backend/server.js:234-253 | a full eleven-cell rewrite reads back as the new row alone, whatever the old row held |
| BookingFlow.ReadAfterRowWrite | backend/server.js:126-140 | after writing one row, only that record changes in the listing |
| BookingFlow.BookedIdAddressesItsRow | backend/server.js:128-217 | the id of a new booking addresses its own row for later PUT and DELETE |
| BookingFlow.BookThenCancelRestores | backend/server.js:268-287 | after booking and cancelling, availability is what it was, also after only the first write |
| BookingFlow.ReadAfterReschedule | backend/server.js:234-253 | after PUT the listing differs only in the moved record's date, hour, state, action and update time |
| BookingFlow.GridBookingEvent | backend/server.js:174-187 | booking any offered slot asks for an event from the slot's start to one hour later on the same day |
| BookingFlow.MovedRecordCounts | src/lib/api.ts:68-71 | as written a moved record no longer blocks anything; under the corrected rule it blocks its new slot |

## Left out

- I/O is out of the model, and its results are parameters:
  - credentials, environment loading, routing, CORS and the health check;
  - the `fetch` calls `fetchAllCitas`, `createAppointment` and `checkHealth`;
  - the spreadsheet and calendar clients.
- The standalone calendar endpoints (backend/server.js:305-370) are thin wrappers over a foreign API.
- Concurrency is not modelled. Nothing locks the sheet, so two concurrent bookings can both see a slot as free.
- JavaScript `Date` is not modelled:
  - the host time zone and the `America/Bogota` offset are ignored;
  - "today" and `new Date().toISOString()` are parameters;
  - out-of-range fields that `new Date` would roll over become `None`.
- The calendar's behaviour on a date made of `NaN` is not modelled.
- Only ASCII-digit strings are modelled for `Number` and `parseInt`. `Number` trims whitespace, and `parseInt` accepts leading whitespace and signs; this input is treated as not a number.
- Strings are sequences of code points. JavaScript counts UTF-16 units, which gives the same length for every character the form accepts.
- The Sheets API's `USER_ENTERED` re-rendering of written values is not modelled.
- The Sheets API drops trailing blank rows from a read.
- `Ledger.Sheet.Reschedule`: a failed call or a malformed row range gives only `!success` and status 500. The exact message text is left unstated.
- `Ledger.Sheet.Cancel`: a failure of the first write gives only `!success` and status 500. The exact message text is left unstated.
- `Wizard.BookingWizard.Submit`: a thrown error that is not an `Error` has its fallback text folded into `Threw(message)`.
- Toasts are reduced to their message, and loading flags are not modelled.
- The form lists every issue in the order the schema reports them. Only the first message of each field is displayed, and that display is not modelled.
- The presentational components, the landing page and the step indicator are not modelled.
- `Wizard.BookingWizard.SelectDoctor`: this and the other handlers are modelled only while the booking is not confirmed. Once it is confirmed the page shows only the confirmation screen.
- Duration-aware overlap, period-end checks, the `servicio`, `horaFin` and `duracion` columns, state guards on reschedule and cancel, and a one-active-booking-per-patient check are not modelled. The code implements none of them.
- The Completed state is not modelled. No code produces it.

## Findings

| source | as written | input that shows it | evidently intended | confidence | as-written member | corrected member |
|---|---|---|---|---|---|---|
| backend/server.js:406 | the timestamp takes year and month from the request but day and time from the shifted date | fecha "31/01/2026", hora "23:30", 60 extra minutes: the event end is printed "2026-01-01T00:30:00-05:00", a month before its start | every field from the shifted date: "2026-02-01T00:30:00-05:00" | high, not executed | EventTime.MonthRolloverAsWritten, EventTime.AsWrittenEndIsAnotherInstant | EventTime.BuildDateTime |
| src/lib/api.ts:68-71 | only records with state "Activa" block a slot, so a rescheduled booking ("Reagendada") never occupies its new time | one record at 08:00 on 15/10/2026 for Dra. Sandra Simancas in state "Reagendada": 08:00 is still offered to her | rescheduled bookings count like active ones, as PUT keeps them alive | medium, not executed | Availability.RescheduledBookingDoesNotBlock, BookingFlow.MovedRecordCounts | Availability.GetAvailabilityIntended |

The operations themselves keep the program's behaviour: `Ledger.Sheet.Book`
sends the timestamps of `buildDateTime` as written, and
`Wizard.BookingWizard.LoadSlots` shows `getAvailability` as written. The
corrected definitions sit beside them with their properties proved, and
`BookingFlow.GridBookingEvent` and `BookingFlow.PickedSlotIsClosed` show
where the two versions agree.
