/**
 * The appointment sheet of backend/server.js as a row ledger. The sheet is a
 * sequence of rows of cells; sheet row number `r` (counted from 1, row 1 being
 * the header) is `rows[r - 1]`. Columns A..K hold cédula, nombre, correo,
 * teléfono, fecha, hora, estado, acción, doctora, creation and update time.
 *
 * The Google Sheets and Calendar services are not modelled: each call's
 * outcome is a parameter, so every combination of successes and failures is
 * covered.
 */
module Ledger {
  import opened Wrappers
  import opened Text
  import opened Catalog
  import opened EventTime

  type Row = seq<string>

  /** Number of columns written, A..K. */
  const COLUMNS: nat := 11

  /** Column indexes (A = 0). */
  const COL_FECHA: nat := 4
  const COL_HORA: nat := 5
  const COL_ESTADO: nat := 6
  const COL_ACCION: nat := 7
  const COL_UPDATED: nat := 10

  /** The outcome of one call to an external service. */
  datatype Call = Done | Fails(message: string)

  /** The JSON answer of a handler: HTTP status, `success`, `message` and, for a booking, `eventId`. */
  datatype Reply = Reply(status: nat, success: bool, message: string, eventId: Option<string>)

  /** The body of POST /api/citas; an absent field is the empty string. */
  datatype BookingRequest = BookingRequest(
    cedula: string, nombre: string, correo: string, telefono: string,
    fecha: string, hora: string, doctora: string)

  /** The calendar event the booking asks for; a time the model cannot format is None. */
  datatype EventRequest = EventRequest(summary: string, start: Option<string>, end: Option<string>)

  /** `row[i] || fallback`: a missing or empty cell reads as the fallback. */
  function Cell(row: Row, i: nat, fallback: string): (v: string)
    ensures i < |row| && row[i] != "" ==> v == row[i]
    ensures !(i < |row| && row[i] != "") ==> v == fallback
    ensures v == "" ==> fallback == ""
  {
    if i < |row| && row[i] != "" then row[i] else fallback
  }

  /** The row a record is written as, columns A..K. */
  function CitaRow(c: Cita): (row: Row)
    ensures |row| == COLUMNS
  {
    [c.cedula, c.nombre, c.correo, c.telefono, c.fecha, c.hora, c.estado, c.accion, c.doctora, c.createdAt, c.updatedAt]
  }

  /** GET /api/citas, one row: position `index` of the A2:K read is sheet row `index + 2`. */
  function RowToCita(index: nat, row: Row): (c: Cita)
    ensures c.id == NatToString(index + 2)
    ensures c.estado != "" && c.accion != ""
    ensures c.estado == if COL_ESTADO < |row| && row[COL_ESTADO] != "" then row[COL_ESTADO] else "Activa"
    ensures c.accion == if COL_ACCION < |row| && row[COL_ACCION] != "" then row[COL_ACCION] else "Agendamiento"
    ensures c.cedula == (if 0 < |row| then row[0] else "") && c.nombre == (if 1 < |row| then row[1] else "")
    ensures c.correo == (if 2 < |row| then row[2] else "") && c.telefono == (if 3 < |row| then row[3] else "")
    ensures c.fecha == (if COL_FECHA < |row| then row[COL_FECHA] else "")
    ensures c.hora == (if COL_HORA < |row| then row[COL_HORA] else "")
    ensures c.doctora == (if 8 < |row| then row[8] else "") && c.createdAt == (if 9 < |row| then row[9] else "")
    ensures c.updatedAt == (if COL_UPDATED < |row| then row[COL_UPDATED] else "")
    ensures |row| >= COLUMNS && (forall k :: 0 <= k < COLUMNS ==> row[k] != "") ==> CitaRow(c) == row[..COLUMNS]
  {
    Cita(NatToString(index + 2), Cell(row, 0, ""), Cell(row, 1, ""), Cell(row, 2, ""), Cell(row, 3, ""),
         Cell(row, 4, ""), Cell(row, 5, ""), Cell(row, 6, "Activa"), Cell(row, 7, "Agendamiento"),
         Cell(row, 8, ""), Cell(row, 9, ""), Cell(row, 10, ""))
  }

  /** GET /api/citas: the data rows, below the header, mapped in order. */
  function ReadCitas(data: seq<Row>): (citas: seq<Cita>)
    ensures |citas| == |data|
    ensures forall i :: 0 <= i < |data| ==> citas[i] == RowToCita(i, data[i])
  {
    seq(|data|, i requires 0 <= i < |data| => RowToCita(i, data[i]))
  }

  /** A record read back from the row it was written as is the record, apart from its id. */
  lemma RowToCitaOfCitaRow(index: nat, c: Cita)
    requires c.estado != "" && c.accion != ""
    ensures RowToCita(index, CitaRow(c)) == c.(id := NatToString(index + 2))
  {
  }

  /** Reading is stable: writing back what was read reads the same. */
  lemma RowToCitaNormal(index: nat, row: Row)
    ensures RowToCita(index, CitaRow(RowToCita(index, row))) == RowToCita(index, row)
  {
    RowToCitaOfCitaRow(index, RowToCita(index, row));
  }

  /** The length of the longest leading run of digits. */
  function DigitPrefix(s: string): (n: nat)
    ensures n <= |s| && AllDigits(s[..n])
    ensures n < |s| ==> !IsDigit(s[n])
    decreases |s|
  {
    if s == [] || !IsDigit(s[0]) then 0
    else
      var n := 1 + DigitPrefix(s[1..]);
      assert s[..n] == [s[0]] + s[1..][..n - 1];
      n
  }

  /** `parseInt(s, 10)` for strings that start with their digits; NaN is None. */
  function ParseInt(s: string): (r: Option<nat>)
    ensures r.Some? <==> |s| > 0 && IsDigit(s[0])
  {
    var n := DigitPrefix(s);
    if n == 0 then None else Some(DigitsValue(s[..n]))
  }

  /** The ids the GET handler hands out parse back to their row numbers. */
  lemma ParseIntOfNatToString(k: nat)
    ensures ParseInt(NatToString(k)) == Some(k)
  {
    var s := NatToString(k);
    assert DigitPrefix(s) == |s|;
    assert s[..|s|] == s;
    DigitsValueOfNatToString(k);
  }

  /** A row number addresses a row (`A{r}:K{r}`) only when it is a number of at least 1. */
  predicate RangeOk(rowNumber: Option<nat>) {
    rowNumber.Some? && rowNumber.value >= 1
  }

  /** The outcome of a call on row `rowNumber`: the service rejects a malformed range. */
  function OnRow(call: Call, rowNumber: Option<nat>): (r: Call)
    ensures r.Done? <==> call.Done? && RangeOk(rowNumber)
  {
    if !RangeOk(rowNumber) then Fails(if call.Fails? then call.message else "")
    else call
  }

  /** Writing `values` into the cells of a row from column `start` on; other cells stay. */
  function WriteCells(row: Row, start: nat, values: seq<string>): (r: Row)
    ensures |r| == if |row| < start + |values| then start + |values| else |row|
    ensures forall k :: 0 <= k < |values| ==> r[start + k] == values[k]
    ensures forall i :: 0 <= i < |row| && !(start <= i < start + |values|) ==> r[i] == row[i]
    ensures forall i :: |row| <= i < start ==> r[i] == ""
  {
    var n := if |row| < start + |values| then start + |values| else |row|;
    seq(n, i requires 0 <= i < n =>
      if start <= i < start + |values| then values[i - start]
      else if i < |row| then row[i]
      else "")
  }

  /** Writing cells of sheet row `index + 1`; a row past the end first extends the sheet with blank rows. */
  function WriteRow(rows: seq<Row>, index: nat, start: nat, values: seq<string>): (r: seq<Row>)
    ensures |r| == if index < |rows| then |rows| else index + 1
    ensures r[index] == WriteCells(if index < |rows| then rows[index] else [], start, values)
    ensures forall i :: 0 <= i < |r| && i != index ==> r[i] == if i < |rows| then rows[i] else []
  {
    var padded := if index < |rows| then rows else rows + seq(index + 1 - |rows|, _ => []);
    padded[index := WriteCells(padded[index], start, values)]
  }

  /** The row POST appends: state "Activa", action "Agendamiento", created and updated now. */
  function BookRow(req: BookingRequest, now: string): (row: Row)
    ensures |row| == COLUMNS
  {
    [req.cedula, req.nombre, req.correo, req.telefono, req.fecha, req.hora,
     "Activa", "Agendamiento", req.doctora, now, now]
  }

  /** The full row PUT writes: A..D, I and J kept from the old row, new date and time, moved now. */
  function RescheduleRow(old_: Row, fecha: string, hora: string, now: string): (row: Row)
    ensures |row| == COLUMNS
  {
    [Cell(old_, 0, ""), Cell(old_, 1, ""), Cell(old_, 2, ""), Cell(old_, 3, ""), fecha, hora,
     "Reagendada", "Reagendamiento", Cell(old_, 8, ""), Cell(old_, 9, ""), now]
  }

  /** POST's validation: one of the six mandatory fields is absent or empty. */
  predicate MissingRequired(req: BookingRequest) {
    req.cedula == "" || req.nombre == "" || req.correo == "" || req.telefono == ""
    || req.fecha == "" || req.hora == ""
  }

  /**
   * The event POST asks the calendar for, built by `buildDateTime` as written.
   * The start reads back as the booked time. The end is one hour later
   * whenever that hour stays within the booked month; across a month end
   * its month and year fields are still the start's.
   */
  function BookingEvent(req: BookingRequest): (e: EventRequest)
    ensures e.start.Some? <==> ParseRequest(req.fecha, req.hora).Some?
    ensures e.end.Some? <==> ParseRequest(req.fecha, req.hora).Some?
    ensures e.start.Some? ==> ParseIso(e.start.value) == ParseRequest(req.fecha, req.hora)
    ensures e.end == BuildDateTimeAsWritten(req.fecha, req.hora, 60)
    ensures ParseRequest(req.fecha, req.hora).Some? && SameMonth(ParseRequest(req.fecha, req.hora).value, 60) ==>
      ParseIso(e.end.value) == Some(AddMinutes(ParseRequest(req.fecha, req.hora).value, 60))
  {
    BookingEventMeaning(req.fecha, req.hora);
    EventRequest("Cita Odontologica - " + req.nombre,
      BuildDateTimeAsWritten(req.fecha, req.hora, 0), BuildDateTimeAsWritten(req.fecha, req.hora, 60))
  }

  /** What the as-written timestamps of a booking read back as. */
  lemma BookingEventMeaning(fecha: string, hora: string)
    ensures ParseRequest(fecha, hora).Some? ==>
      BuildDateTimeAsWritten(fecha, hora, 0) == BuildDateTime(fecha, hora, 0)
      && AddMinutes(ParseRequest(fecha, hora).value, 0) == ParseRequest(fecha, hora).value
    ensures ParseRequest(fecha, hora).Some? && SameMonth(ParseRequest(fecha, hora).value, 60) ==>
      BuildDateTimeAsWritten(fecha, hora, 60) == BuildDateTime(fecha, hora, 60)
  {
    if ParseRequest(fecha, hora).Some? {
      AddNoMinutes(ParseRequest(fecha, hora).value);
      AsWrittenAgreesWithinMonth(fecha, hora, 0);
      if SameMonth(ParseRequest(fecha, hora).value, 60) {
        AsWrittenAgreesWithinMonth(fecha, hora, 60);
      }
    }
  }

  class Sheet {
    /** Every row of the sheet, the header first. */
    var rows: seq<Row>

    ghost predicate Valid()
      reads this
    {
      |rows| >= 1
    }

    constructor (header: Row)
      ensures Valid() && rows == [header]
    {
      rows := [header];
    }

    /** What GET /api/citas returns: the rows below the header. */
    function Citas(): seq<Cita>
      reads this
      requires Valid()
    {
      ReadCitas(rows[1..])
    }

    /**
     * POST /api/citas. A missing field is refused before anything is written;
     * otherwise one row is appended, and then the calendar event is asked
     * for. A calendar failure still answers success, with an empty event id.
     */
    method Book(req: BookingRequest, now: string, append: Call, calendarId: Option<string>)
      returns (reply: Reply, event: Option<EventRequest>)
      requires Valid()
      modifies this
      ensures Valid()
      ensures MissingRequired(req) ==>
        reply == Reply(400, false, "Faltan datos obligatorios", None) && event.None? && rows == old(rows)
      ensures !MissingRequired(req) && append.Fails? ==>
        reply == Reply(500, false, "Error al agendar la cita: " + append.message, None)
        && event.None? && rows == old(rows)
      ensures !MissingRequired(req) && append.Done? ==>
        rows == old(rows) + [BookRow(req, now)]
        && event == Some(BookingEvent(req))
        && reply == Reply(200, true, "Cita agendada exitosamente", Some(calendarId.GetOr("")))
    {
      if MissingRequired(req) {
        return Reply(400, false, "Faltan datos obligatorios", None), None;
      }
      if append.Fails? {
        return Reply(500, false, "Error al agendar la cita: " + append.message, None), None;
      }
      rows := rows + [BookRow(req, now)];
      event := Some(BookingEvent(req));
      var eventId := "";
      if calendarId.Some? {
        eventId := calendarId.value;
      }
      reply := Reply(200, true, "Cita agendada exitosamente", Some(eventId));
    }

    /**
     * PUT /api/citas/:id. Both the new date and hour are required; then the
     * target row is read and rewritten whole. Its earlier state is not looked at.
     */
    method Reschedule(id: string, fecha: string, hora: string, now: string, read: Call, update: Call)
      returns (reply: Reply)
      requires Valid()
      modifies this
      ensures Valid()
      ensures fecha == "" || hora == "" ==>
        reply == Reply(400, false, "Fecha y hora son obligatorias", None) && rows == old(rows)
      ensures fecha != "" && hora != "" && (OnRow(read, ParseInt(id)).Fails? || update.Fails?) ==>
        !reply.success && reply.status == 500 && rows == old(rows)
      ensures fecha != "" && hora != "" && OnRow(read, ParseInt(id)).Done? && update.Done? ==>
        var index := ParseInt(id).value - 1;
        var current := if index < |old(rows)| then old(rows)[index] else [];
        rows == WriteRow(old(rows), index, 0, RescheduleRow(current, fecha, hora, now))
        && reply == Reply(200, true, "Cita reagendada exitosamente", None)
    {
      var rowNumber := ParseInt(id);
      if fecha == "" || hora == "" {
        return Reply(400, false, "Fecha y hora son obligatorias", None);
      }
      var got := OnRow(read, rowNumber);
      if got.Fails? {
        return Reply(500, false, "Error al reagendar la cita: " + got.message, None);
      }
      if update.Fails? {
        return Reply(500, false, "Error al reagendar la cita: " + update.message, None);
      }
      var index := rowNumber.value - 1;
      var current := if index < |rows| then rows[index] else [];
      rows := WriteRow(rows, index, 0, RescheduleRow(current, fecha, hora, now));
      reply := Reply(200, true, "Cita reagendada exitosamente", None);
    }

    /**
     * DELETE /api/citas/:id. Two writes: state and action (G:H), then the
     * update time (K). The row is never removed; a failure of the second write
     * leaves the first in place.
     */
    method Cancel(id: string, now: string, updateState: Call, updateTime: Call)
      returns (reply: Reply)
      requires Valid()
      modifies this
      ensures Valid()
      ensures OnRow(updateState, ParseInt(id)).Fails? ==>
        !reply.success && reply.status == 500 && rows == old(rows)
      ensures OnRow(updateState, ParseInt(id)).Done? ==>
        var index := ParseInt(id).value - 1;
        var marked := WriteRow(old(rows), index, COL_ESTADO, ["Cancelada", "Cancelacion"]);
        if updateTime.Fails? then
          rows == marked && reply == Reply(500, false, "Error al cancelar la cita: " + updateTime.message, None)
        else
          rows == WriteRow(marked, index, COL_UPDATED, [now])
          && reply == Reply(200, true, "Cita cancelada exitosamente", None)
    {
      var rowNumber := ParseInt(id);
      var first := OnRow(updateState, rowNumber);
      if first.Fails? {
        return Reply(500, false, "Error al cancelar la cita: " + first.message, None);
      }
      var index := rowNumber.value - 1;
      var marked := WriteRow(rows, index, COL_ESTADO, ["Cancelada", "Cancelacion"]);
      if updateTime.Fails? {
        rows := marked;
        return Reply(500, false, "Error al cancelar la cita: " + updateTime.message, None);
      }
      rows := WriteRow(marked, index, COL_UPDATED, [now]);
      reply := Reply(200, true, "Cita cancelada exitosamente", None);
    }
  }

  /** A booked row reads back as an active record with the request's data and equal time stamps. */
  lemma ReadBookRow(index: nat, req: BookingRequest, now: string)
    ensures RowToCita(index, BookRow(req, now))
         == Cita(NatToString(index + 2), req.cedula, req.nombre, req.correo, req.telefono, req.fecha, req.hora,
                 "Activa", "Agendamiento", req.doctora, now, now)
  {
  }

  /** Reading one more row lists one more record, numbered after the others. */
  lemma ReadCitasSnoc(data: seq<Row>, row: Row)
    ensures ReadCitas(data + [row]) == ReadCitas(data) + [RowToCita(|data|, row)]
  {
    var l, r := ReadCitas(data + [row]), ReadCitas(data) + [RowToCita(|data|, row)];
    assert |l| == |r|;
    forall i | 0 <= i < |l| ensures l[i] == r[i] {
      assert (data + [row])[i] == if i < |data| then data[i] else row;
    }
  }

  /** After a booking the list grows by one active record, at the new row's number. */
  lemma ReadAfterBook(rows: seq<Row>, req: BookingRequest, now: string)
    requires |rows| >= 1
    ensures var after := ReadCitas((rows + [BookRow(req, now)])[1..]);
      after == ReadCitas(rows[1..]) + [RowToCita(|rows| - 1, BookRow(req, now))]
      && after[|rows| - 1].id == NatToString(|rows| + 1)
      && after[|rows| - 1].estado == "Activa"
      && after[|rows| - 1].createdAt == after[|rows| - 1].updatedAt
  {
    assert (rows + [BookRow(req, now)])[1..] == rows[1..] + [BookRow(req, now)];
    ReadCitasSnoc(rows[1..], BookRow(req, now));
    ReadBookRow(|rows| - 1, req, now);
  }

  /**
   * A rescheduled row reads back with the new date and hour, state
   * "Reagendada", and the patient, doctor and creation time it had.
   */
  lemma ReadRescheduleRow(index: nat, old_: Row, fecha: string, hora: string, now: string)
    requires fecha != "" && hora != ""
    ensures var before, after := RowToCita(index, old_), RowToCita(index, RescheduleRow(old_, fecha, hora, now));
      after == before.(fecha := fecha, hora := hora, estado := "Reagendada", accion := "Reagendamiento",
                       updatedAt := now)
  {
  }

  /** After a cancellation the record is still listed, as "Cancelada", with its other fields kept. */
  lemma ReadCancelledRow(index: nat, old_: Row, now: string)
    ensures var row := WriteCells(WriteCells(old_, COL_ESTADO, ["Cancelada", "Cancelacion"]), COL_UPDATED, [now]);
      RowToCita(index, row) == RowToCita(index, old_).(estado := "Cancelada", accion := "Cancelacion", updatedAt := now)
  {
    ReadPartiallyCancelledRow(index, old_);
    var marked := WriteCells(old_, COL_ESTADO, ["Cancelada", "Cancelacion"]);
    var row := WriteCells(marked, COL_UPDATED, [now]);
    assert forall k :: 0 <= k < COL_UPDATED ==> Cell(row, k, "") == Cell(marked, k, "");
  }

  /** When only the first write of a cancellation lands, state and action change and nothing else. */
  lemma ReadPartiallyCancelledRow(index: nat, old_: Row)
    ensures var row := WriteCells(old_, COL_ESTADO, ["Cancelada", "Cancelacion"]);
      RowToCita(index, row) == RowToCita(index, old_).(estado := "Cancelada", accion := "Cancelacion")
  {
    var row := WriteCells(old_, COL_ESTADO, ["Cancelada", "Cancelacion"]);
    assert forall k :: 0 <= k < |row| && k != COL_ESTADO && k != COL_ACCION ==> Cell(row, k, "") == Cell(old_, k, "");
  }

  /** Rows are only ever added or rewritten in place: every write keeps the sheet's length or grows it. */
  lemma WriteRowKeepsOthers(rows: seq<Row>, index: nat, start: nat, values: seq<string>, i: nat)
    requires i < |rows| && i != index
    ensures |WriteRow(rows, index, start, values)| >= |rows|
    ensures WriteRow(rows, index, start, values)[i] == rows[i]
  {
  }
}
