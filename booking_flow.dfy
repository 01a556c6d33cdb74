/**
 * How the pieces fit together: what a request from the booking wizard
 * becomes in the sheet, and what each change of the sheet (a booking, a
 * cancellation, a rescheduling) does to the availability that
 * `getAvailability` computes from the records GET /api/citas lists.
 */
module BookingFlow {
  import opened Wrappers
  import opened Text
  import opened TimeUtil
  import opened Calendar
  import opened Catalog
  import opened Availability
  import opened PatientForm
  import opened Ledger
  import opened Wizard
  import opened EventTime

  /**
   * A request the wizard sends with validated patient data, a calendar date
   * and a chosen slot passes the backend's check of mandatory fields.
   */
  lemma WizardRequestComplete(input: PatientInput, d: Date, slot: string, doctor: Doctor, req: BookingRequest)
    requires Validate(input).Ok? && slot != ""
    requires var data := Validate(input).value;
      req == BookingRequest(data.cedula, data.nombre, data.correo, data.telefono, DateToDDMMYYYY(d), slot, doctor.name)
    ensures !MissingRequired(req)
  {
    var data := Validate(input).value;
    var at: nat, dot: nat :| EmailCut(input.correo, at, dot);
    assert data.correo[0] == input.correo[0];
    assert DateToDDMMYYYY(d)[|Pad2(NatToString(d.day))|] == '/';
  }

  /**
   * A booking takes its place: once the row is appended, the slot at the
   * request's (normalised) hour is no longer offered to the request's doctor
   * on the request's date, under any rule that counts active records.
   */
  lemma BookingClosesItsSlot(rows: seq<Row>, req: BookingRequest, now: string, blocking: set<string>, k: nat)
    requires |rows| >= 1 && "Activa" in blocking && k < |MORNING_SLOTS| + |AFTERNOON_SLOTS|
    requires NormalizeHour(req.hora) == SlotsWithAvailability(ReadCitas(rows[1..]), req.fecha, req.doctora, blocking)[k].hour
    ensures !SlotsWithAvailability(ReadCitas((rows + [BookRow(req, now)])[1..]), req.fecha, req.doctora, blocking)[k].available
  {
    var before := ReadCitas(rows[1..]);
    var after := ReadCitas((rows + [BookRow(req, now)])[1..]);
    ReadAfterBook(rows, req, now);
    ReadBookRow(|rows| - 1, req, now);
    var hour := SlotsWithAvailability(before, req.fecha, req.doctora, blocking)[k].hour;
    assert SlotsWithAvailability(after, req.fecha, req.doctora, blocking)[k].hour == hour;
    assert after[|before|] == RowToCita(|rows| - 1, BookRow(req, now));
    assert Occupies(after[|before|], req.fecha, blocking, hour) && after[|before|].doctora == req.doctora;
    assert DoctorHasBooking(after, req.fecha, blocking, hour, req.doctora);
    SlotsWithAvailabilityMeaning(after, req.fecha, req.doctora, blocking, k);
  }

  /** The position, in the slot list, of slot `i` of a period. */
  lemma GridSlotAt(citas: seq<Cita>, fecha: string, doctorName: string, blocking: set<string>, p: Period, i: nat)
    requires i < |SlotsOf(p)|
    ensures AllIndex(p, i) < |MORNING_SLOTS| + |AFTERNOON_SLOTS|
    ensures SlotsWithAvailability(citas, fecha, doctorName, blocking)[AllIndex(p, i)].hour == SlotsOf(p)[i].hour
  {
  }

  /**
   * The slot the patient picked in the wizard is the one the booking closes:
   * its hour is already in the form the availability compares against.
   */
  lemma PickedSlotIsClosed(rows: seq<Row>, req: BookingRequest, now: string, p: Period, i: nat)
    requires |rows| >= 1 && i < |SlotsOf(p)| && req.hora == SlotsOf(p)[i].hour
    ensures AllIndex(p, i) < |MORNING_SLOTS| + |AFTERNOON_SLOTS|
    ensures !GetAvailability(ReadCitas((rows + [BookRow(req, now)])[1..]), req.fecha, req.doctora)[AllIndex(p, i)].available
    ensures !GetAvailabilityIntended(ReadCitas((rows + [BookRow(req, now)])[1..]), req.fecha, req.doctora)[AllIndex(p, i)].available
  {
    SlotGrid(p, i);
    var before := ReadCitas(rows[1..]);
    GridSlotAt(before, req.fecha, req.doctora, ACTIVE_STATES, p, i);
    GridSlotAt(before, req.fecha, req.doctora, INTENDED_STATES, p, i);
    BookingClosesItsSlot(rows, req, now, ACTIVE_STATES, AllIndex(p, i));
    BookingClosesItsSlot(rows, req, now, INTENDED_STATES, AllIndex(p, i));
  }

  /** Records that do not count on a date can be dropped: the slot list is the same without them. */
  lemma NonCountingReplaced(citas: seq<Cita>, i: nat, x: Cita, fecha: string, doctorName: string, blocking: set<string>)
    requires i < |citas| && !CountsOn(x, fecha, blocking)
    ensures SlotsWithAvailability(citas[i := x], fecha, doctorName, blocking)
         == SlotsWithAvailability(citas[..i] + citas[i + 1..], fecha, doctorName, blocking)
  {
    var q := CountsOnDate(fecha, blocking);
    assert citas[i := x] == citas[..i] + ([x] + citas[i + 1..]);
    FilterConcat(citas[..i], [x] + citas[i + 1..], q);
    FilterConcat([x], citas[i + 1..], q);
    FilterConcat(citas[..i], citas[i + 1..], q);
    assert Filter([x], q) == [] + Filter([], q);
    assert CitasEnFecha(citas[i := x], fecha, blocking) == CitasEnFecha(citas[..i] + citas[i + 1..], fecha, blocking);
  }

  /** A record appended and not counted leaves the slot list as it was. */
  lemma NonCountingAppended(citas: seq<Cita>, x: Cita, fecha: string, doctorName: string, blocking: set<string>)
    requires !CountsOn(x, fecha, blocking)
    ensures SlotsWithAvailability(citas + [x], fecha, doctorName, blocking)
         == SlotsWithAvailability(citas, fecha, doctorName, blocking)
  {
    CitasEnFechaSnoc(citas, x, fecha, blocking);
    assert CitasEnFecha(citas, fecha, blocking) + [] == CitasEnFecha(citas, fecha, blocking);
  }

  /** Rewriting one data row changes one listed record, the one at that row. */
  lemma ReadAfterRowWrite(rows: seq<Row>, index: nat, row: Row)
    requires 1 <= index < |rows|
    ensures ReadCitas(rows[index := row][1..]) == ReadCitas(rows[1..])[index - 1 := RowToCita(index - 1, row)]
  {
    var l, r := ReadCitas(rows[index := row][1..]), ReadCitas(rows[1..])[index - 1 := RowToCita(index - 1, row)];
    assert |l| == |r|;
    forall j | 0 <= j < |l| ensures l[j] == r[j] {
      assert rows[index := row][1..][j] == if j == index - 1 then row else rows[1..][j];
    }
  }

  /** The id of the record a booking appends names the row that DELETE and PUT address. */
  lemma BookedIdAddressesItsRow(rows: seq<Row>, req: BookingRequest, now: string)
    requires |rows| >= 1
    ensures var after := ReadCitas((rows + [BookRow(req, now)])[1..]);
      |after| == |rows| && ParseInt(after[|rows| - 1].id) == Some(|rows| + 1)
  {
    ReadAfterBook(rows, req, now);
    ParseIntOfNatToString(|rows| + 1);
  }

  /**
   * Cancelling a booking gives its place back: after the booking's row is
   * marked "Cancelada" (whether or not the update time is written too), the
   * slot list of every date and doctor is what it was before the booking.
   */
  lemma BookThenCancelRestores(rows: seq<Row>, req: BookingRequest, now: string, later: string,
                               fecha: string, doctorName: string, blocking: set<string>)
    requires |rows| >= 1 && "Cancelada" !in blocking
    ensures var booked := rows + [BookRow(req, now)];
      var marked := WriteRow(booked, |rows|, COL_ESTADO, ["Cancelada", "Cancelacion"]);
      var cancelled := WriteRow(marked, |rows|, COL_UPDATED, [later]);
      SlotsWithAvailability(ReadCitas(marked[1..]), fecha, doctorName, blocking)
        == SlotsWithAvailability(ReadCitas(rows[1..]), fecha, doctorName, blocking)
      && SlotsWithAvailability(ReadCitas(cancelled[1..]), fecha, doctorName, blocking)
        == SlotsWithAvailability(ReadCitas(rows[1..]), fecha, doctorName, blocking)
  {
    var row := BookRow(req, now);
    var booked := rows + [row];
    var markedRow := WriteCells(row, COL_ESTADO, ["Cancelada", "Cancelacion"]);
    var cancelledRow := WriteCells(markedRow, COL_UPDATED, [later]);
    var marked := WriteRow(booked, |rows|, COL_ESTADO, ["Cancelada", "Cancelacion"]);
    var cancelled := WriteRow(marked, |rows|, COL_UPDATED, [later]);
    assert marked == rows + [markedRow];
    assert cancelled == rows + [cancelledRow];
    assert marked[1..] == rows[1..] + [markedRow];
    assert cancelled[1..] == rows[1..] + [cancelledRow];
    ReadCitasSnoc(rows[1..], markedRow);
    ReadCitasSnoc(rows[1..], cancelledRow);
    ReadPartiallyCancelledRow(|rows| - 1, row);
    ReadCancelledRow(|rows| - 1, row, later);
    NonCountingAppended(ReadCitas(rows[1..]), RowToCita(|rows| - 1, markedRow), fecha, doctorName, blocking);
    NonCountingAppended(ReadCitas(rows[1..]), RowToCita(|rows| - 1, cancelledRow), fecha, doctorName, blocking);
  }

  /** A full row written over an existing row reads as the written row. */
  lemma ReadOverwrittenRow(index: nat, old_: Row, row: Row)
    requires |row| == COLUMNS
    ensures RowToCita(index, WriteCells(old_, 0, row)) == RowToCita(index, row)
  {
    var w := WriteCells(old_, 0, row);
    assert forall k :: 0 <= k < COLUMNS ==> Cell(w, k, "") == Cell(row, k, "");
    assert forall k :: 0 <= k < COLUMNS ==> Cell(w, k, "Activa") == Cell(row, k, "Activa");
    assert forall k :: 0 <= k < COLUMNS ==> Cell(w, k, "Agendamiento") == Cell(row, k, "Agendamiento");
  }

  /**
   * PUT on an existing data row lists that record moved: new date and hour,
   * state "Reagendada", the rest as it was.
   */
  lemma ReadAfterReschedule(rows: seq<Row>, index: nat, fecha: string, hora: string, now: string)
    requires 1 <= index < |rows| && fecha != "" && hora != ""
    ensures var before := ReadCitas(rows[1..]);
      ReadCitas(WriteRow(rows, index, 0, RescheduleRow(rows[index], fecha, hora, now))[1..])
      == before[index - 1 := before[index - 1].(fecha := fecha, hora := hora, estado := "Reagendada",
                                                 accion := "Reagendamiento", updatedAt := now)]
  {
    var newRow := RescheduleRow(rows[index], fecha, hora, now);
    var written := WriteCells(rows[index], 0, newRow);
    assert WriteRow(rows, index, 0, newRow) == rows[index := written];
    ReadAfterRowWrite(rows, index, written);
    ReadOverwrittenRow(index - 1, rows[index], newRow);
    ReadRescheduleRow(index - 1, rows[index], fecha, hora, now);
  }

  /**
   * A moved record, as written, counts nowhere: the slot list is the one of
   * the other records. Under the intended rule it holds its new slot for
   * its doctor.
   */
  lemma MovedRecordCounts(citas: seq<Cita>, i: nat, fecha: string, hora: string, now: string, k: nat)
    requires i < |citas| && k < |MORNING_SLOTS| + |AFTERNOON_SLOTS|
    requires NormalizeHour(hora) == GetAvailability(citas, fecha, citas[i].doctora)[k].hour
    ensures var moved := citas[i := citas[i].(fecha := fecha, hora := hora, estado := "Reagendada",
                                               accion := "Reagendamiento", updatedAt := now)];
      GetAvailability(moved, fecha, citas[i].doctora) == GetAvailability(citas[..i] + citas[i + 1..], fecha, citas[i].doctora)
      && !GetAvailabilityIntended(moved, fecha, citas[i].doctora)[k].available
  {
    var c := citas[i].(fecha := fecha, hora := hora, estado := "Reagendada",
                       accion := "Reagendamiento", updatedAt := now);
    var moved := citas[i := c];
    var doctorName := citas[i].doctora;
    NonCountingReplaced(citas, i, c, fecha, doctorName, ACTIVE_STATES);
    var hour := GetAvailability(citas, fecha, doctorName)[k].hour;
    assert GetAvailabilityIntended(moved, fecha, doctorName)[k].hour == hour;
    assert Occupies(moved[i], fecha, INTENDED_STATES, hour) && moved[i].doctora == doctorName;
    assert DoctorHasBooking(moved, fecha, INTENDED_STATES, hour, doctorName);
    SlotsWithAvailabilityMeaning(moved, fecha, doctorName, INTENDED_STATES, k);
  }

  /**
   * A booking of any offered slot asks the calendar for an event from the
   * slot's start to one hour later on the same day: on the grid the program's
   * timestamps are the intended ones.
   */
  lemma GridBookingEvent(d: Date, p: Period, i: nat, req: BookingRequest)
    requires ValidDate(d) && i < |SlotsOf(p)|
    requires req.fecha == DateToDDMMYYYY(d) && req.hora == SlotsOf(p)[i].hour
    ensures BookingEvent(req).start.Some? && BookingEvent(req).end.Some?
    ensures ParseIso(BookingEvent(req).start.value) == Some(Stamp(d, GridStart(p, i)))
    ensures ParseIso(BookingEvent(req).end.value) == Some(Stamp(d, GridStart(p, i) + 60))
  {
    GridEventsStayInDay(d, p, i);
  }
}
