/**
 * The availability computation of src/lib/api.ts once the records are
 * fetched: keep the records of the requested date in a blocking state,
 * then mark every slot of the grid by exact start-hour match. The selected
 * doctor may hold at most one booking at an hour, and an hour holds at
 * most MAX_APPOINTMENTS_PER_SLOT bookings in total.
 *
 * The set of blocking states is a parameter: the code counts only
 * "Activa" (GetAvailability); GetAvailabilityIntended also counts
 * "Reagendada", the state a moved booking is left in.
 */
module Availability {
  import opened Wrappers
  import opened Text
  import opened TimeUtil
  import opened Calendar
  import opened Catalog

  /** `Array.prototype.filter`: the passing elements, in order. */
  function Filter<T>(s: seq<T>, p: T -> bool): (r: seq<T>)
    ensures |r| <= |s|
    ensures forall i :: 0 <= i < |r| ==> p(r[i])
    decreases |s|
  {
    if s == [] then []
    else (if p(s[0]) then [s[0]] else []) + Filter(s[1..], p)
  }

  /** The conjunction of two element tests. */
  function Both<T(!new)>(q: T -> bool, p: T -> bool): (r: T -> bool)
    ensures forall x :: r(x) == (q(x) && p(x))
  {
    x => q(x) && p(x)
  }

  lemma {:induction false} FilterConcat<T>(a: seq<T>, b: seq<T>, p: T -> bool)
    ensures Filter(a + b, p) == Filter(a, p) + Filter(b, p)
    decreases |a|
  {
    if a == [] {
      assert a + b == b;
    } else {
      assert (a + b)[0] == a[0];
      assert (a + b)[1..] == a[1..] + b;
      FilterConcat(a[1..], b, p);
    }
  }

  /** Filtering a single element keeps it exactly when it passes. */
  lemma FilterOne<T>(x: T, p: T -> bool)
    ensures Filter([x], p) == if p(x) then [x] else []
  {
    assert [x][1..] == [];
  }

  /**
   * Filtering only drops elements: the result is a sub-multiset of the input
   * and every passing element of the input is kept.
   */
  lemma {:induction false} FilterKeeps<T>(s: seq<T>, p: T -> bool)
    ensures multiset(Filter(s, p)) <= multiset(s)
    ensures forall i :: 0 <= i < |s| && p(s[i]) ==> s[i] in Filter(s, p)
    decreases |s|
  {
    if s != [] {
      FilterKeeps(s[1..], p);
      assert s == [s[0]] + s[1..];
      var head := if p(s[0]) then [s[0]] else [];
      assert Filter(s, p) == head + Filter(s[1..], p);
      assert multiset(Filter(s, p)) == multiset(head) + multiset(Filter(s[1..], p));
      assert multiset(s) == multiset([s[0]]) + multiset(s[1..]);
      forall i | 0 <= i < |s| && p(s[i])
        ensures s[i] in Filter(s, p)
      {
        if i > 0 {
          assert s[i] == s[1..][i - 1];
        }
      }
    }
  }

  /** Filtering twice is filtering once by both tests. */
  lemma {:induction false} FilterFilter<T(!new)>(s: seq<T>, q: T -> bool, p: T -> bool)
    ensures Filter(Filter(s, q), p) == Filter(s, Both(q, p))
    decreases |s|
  {
    if s != [] {
      FilterFilter(s[1..], q, p);
      var head := if q(s[0]) then [s[0]] else [];
      FilterConcat(head, Filter(s[1..], q), p);
    }
  }

  /** A filter is non-empty exactly when some position passes. */
  lemma {:induction false} FilterNonEmpty<T>(s: seq<T>, p: T -> bool)
    ensures |Filter(s, p)| >= 1 <==> exists i :: 0 <= i < |s| && p(s[i])
    decreases |s|
  {
    if s != [] {
      var t := s[1..];
      FilterNonEmpty(t, p);
      assert |Filter(s, p)| == (if p(s[0]) then 1 else 0) + |Filter(t, p)|;
      if exists i :: 0 <= i < |t| && p(t[i]) {
        var i :| 0 <= i < |t| && p(t[i]);
        assert p(s[i + 1]);
      }
      if exists i :: 0 <= i < |s| && p(s[i]) {
        var i :| 0 <= i < |s| && p(s[i]);
        if i > 0 {
          assert p(t[i - 1]);
        }
      }
    }
  }

  /** A filter keeps two elements exactly when two distinct positions pass. */
  lemma {:induction false} FilterAtLeastTwo<T>(s: seq<T>, p: T -> bool)
    ensures |Filter(s, p)| >= 2 <==> exists i, j :: 0 <= i < j < |s| && p(s[i]) && p(s[j])
    decreases |s|
  {
    if s != [] {
      var t := s[1..];
      FilterAtLeastTwo(t, p);
      FilterNonEmpty(t, p);
      assert |Filter(s, p)| == (if p(s[0]) then 1 else 0) + |Filter(t, p)|;
      if exists i, j :: 0 <= i < j < |s| && p(s[i]) && p(s[j]) {
        var i, j :| 0 <= i < j < |s| && p(s[i]) && p(s[j]);
        if i == 0 {
          assert p(t[j - 1]);
        } else {
          assert p(t[i - 1]) && p(t[j - 1]);
        }
      }
      if |Filter(s, p)| >= 2 {
        if p(s[0]) {
          var k :| 0 <= k < |t| && p(t[k]);
          assert p(s[0]) && p(s[k + 1]);
        } else {
          var i, j :| 0 <= i < j < |t| && p(t[i]) && p(t[j]);
          assert p(s[i + 1]) && p(s[j + 1]);
        }
      }
    }
  }

  /** `normalizeDate`: pad day and month when the string has exactly three '/'-parts. */
  function NormalizeDate(fecha: string): string {
    var parts := Split(fecha, '/');
    if |parts| != 3 then fecha
    else Pad2(parts[0]) + "/" + Pad2(parts[1]) + "/" + parts[2]
  }

  /** On "d/m/y" the day and month are padded and the year is kept. */
  lemma NormalizeDateOf(d: string, m: string, y: string)
    requires '/' !in d && '/' !in m && '/' !in y
    ensures NormalizeDate(d + "/" + m + "/" + y) == Pad2(d) + "/" + Pad2(m) + "/" + y
  {
    SplitThree(d, m, y, '/');
    assert d + "/" + m + "/" + y == d + ['/'] + m + ['/'] + y;
  }

  /** Normalising twice is normalising once; strings without exactly three parts are left alone. */
  lemma NormalizeDateIdempotent(fecha: string)
    ensures |Split(fecha, '/')| != 3 ==> NormalizeDate(fecha) == fecha
    ensures NormalizeDate(NormalizeDate(fecha)) == NormalizeDate(fecha)
  {
    var parts := Split(fecha, '/');
    if |parts| == 3 {
      SplitPartsAvoid(fecha, '/', 0);
      SplitPartsAvoid(fecha, '/', 1);
      SplitPartsAvoid(fecha, '/', 2);
      Pad2Avoids(parts[0], '/');
      Pad2Avoids(parts[1], '/');
      NormalizeDateOf(Pad2(parts[0]), Pad2(parts[1]), parts[2]);
      Pad2Idempotent(parts[0]);
      Pad2Idempotent(parts[1]);
    }
  }

  /**
   * The sheet's unpadded "12/2/2026" and the calendar's "12/02/2026" both
   * normalise to the calendar's rendering, which is already normal.
   */
  lemma NormalizeDateOfRenderings(d: Date)
    ensures NormalizeDate(DateToDDMMYYYY(d)) == DateToDDMMYYYY(d)
    ensures NormalizeDate(NatToString(d.day) + "/" + NatToString(d.month) + "/" + NatToString(d.year)) == DateToDDMMYYYY(d)
  {
    var dd, mm, yy := NatToString(d.day), NatToString(d.month), NatToString(d.year);
    DigitsHaveNo(dd, '/');
    DigitsHaveNo(mm, '/');
    DigitsHaveNo(yy, '/');
    Pad2Digits(dd);
    Pad2Digits(mm);
    DigitsHaveNo(Pad2(dd), '/');
    DigitsHaveNo(Pad2(mm), '/');
    NormalizeDateOf(dd, mm, yy);
    NormalizeDateOf(Pad2(dd), Pad2(mm), yy);
    Pad2Idempotent(dd);
    Pad2Idempotent(mm);
  }

  /** The states the code counts: `c.estado === "Activa"`. */
  const ACTIVE_STATES: set<string> := {"Activa"}

  /** Every state of a booking that still takes place: created or moved. */
  const INTENDED_STATES: set<string> := {"Activa", "Reagendada"}

  /** The record is kept by the date filter: a blocking state on the requested (normalised) date. */
  predicate CountsOn(c: Cita, fecha: string, blocking: set<string>) {
    c.estado in blocking && NormalizeDate(c.fecha) == NormalizeDate(fecha)
  }

  /** The record starts at the slot hour, after `normalizeHour`. */
  predicate AtHour(c: Cita, hour: string) {
    NormalizeHour(c.hora) == hour
  }

  /** The record occupies the slot `hour` of date `fecha`. */
  predicate Occupies(c: Cita, fecha: string, blocking: set<string>, hour: string) {
    CountsOn(c, fecha, blocking) && AtHour(c, hour)
  }

  function CountsOnDate(fecha: string, blocking: set<string>): Cita -> bool {
    c => CountsOn(c, fecha, blocking)
  }

  function AtHourOf(hour: string): Cita -> bool {
    c => AtHour(c, hour)
  }

  function OfDoctorAt(hour: string, doctorName: string): Cita -> bool {
    c => AtHour(c, hour) && c.doctora == doctorName
  }

  /** `citasEnFecha`. */
  function CitasEnFecha(citas: seq<Cita>, fecha: string, blocking: set<string>): seq<Cita> {
    Filter(citas, CountsOnDate(fecha, blocking))
  }

  /** `citasDoctora`: the day's records of this doctor at this hour. */
  function DoctorCount(enFecha: seq<Cita>, hour: string, doctorName: string): nat {
    |Filter(enFecha, OfDoctorAt(hour, doctorName))|
  }

  /** `citasTotal`: the day's records at this hour, any doctor. */
  function TotalCount(enFecha: seq<Cita>, hour: string): nat {
    |Filter(enFecha, AtHourOf(hour))|
  }

  /** One entry of the result: the configured slot, its period, and its availability. */
  function MarkSlot(slot: SlotConfig, period: Period, enFecha: seq<Cita>, doctorName: string): (t: TimeSlot)
    ensures t.hour == slot.hour && t.labelText == slot.labelText && t.period == period
    ensures t.spotsLeft == if t.available then 1 else 0
  {
    var doctoraBusy := DoctorCount(enFecha, slot.hour, doctorName) >= 1;
    var slotFull := TotalCount(enFecha, slot.hour) >= MAX_APPOINTMENTS_PER_SLOT;
    var available := !doctoraBusy && !slotFull;
    TimeSlot(slot.hour, slot.labelText, period, available, if available then 1 else 0)
  }

  /** The slot list for one date and doctor, counting records whose state is in `blocking`. */
  function SlotsWithAvailability(citas: seq<Cita>, fecha: string, doctorName: string, blocking: set<string>): (r: seq<TimeSlot>)
    ensures |r| == |MORNING_SLOTS| + |AFTERNOON_SLOTS|
    ensures forall k :: 0 <= k < |MORNING_SLOTS| ==>
      r[k].hour == MORNING_SLOTS[k].hour && r[k].labelText == MORNING_SLOTS[k].labelText && r[k].period == Morning
    ensures forall k :: |MORNING_SLOTS| <= k < |r| ==>
      r[k].hour == AFTERNOON_SLOTS[k - |MORNING_SLOTS|].hour
      && r[k].labelText == AFTERNOON_SLOTS[k - |MORNING_SLOTS|].labelText && r[k].period == Afternoon
    ensures forall k :: 0 <= k < |r| ==> r[k].spotsLeft == if r[k].available then 1 else 0
  {
    var enFecha := CitasEnFecha(citas, fecha, blocking);
    seq(|MORNING_SLOTS|, i requires 0 <= i < |MORNING_SLOTS| => MarkSlot(MORNING_SLOTS[i], Morning, enFecha, doctorName))
    + seq(|AFTERNOON_SLOTS|, i requires 0 <= i < |AFTERNOON_SLOTS| => MarkSlot(AFTERNOON_SLOTS[i], Afternoon, enFecha, doctorName))
  }

  /**
   * `getAvailability` as written: one entry per configured slot, available
   * exactly when no "Activa" record of the doctor and fewer than two "Activa"
   * records of the date sit at its hour.
   */
  function GetAvailability(citas: seq<Cita>, fecha: string, doctorName: string): (r: seq<TimeSlot>)
    ensures |r| == |MORNING_SLOTS| + |AFTERNOON_SLOTS|
    ensures forall k :: 0 <= k < |r| ==>
      (r[k].available <==> !DoctorHasBooking(citas, fecha, ACTIVE_STATES, r[k].hour, doctorName)
                           && !HourFull(citas, fecha, ACTIVE_STATES, r[k].hour))
  {
    AllSlotsMeaning(citas, fecha, doctorName, ACTIVE_STATES);
    SlotsWithAvailability(citas, fecha, doctorName, ACTIVE_STATES)
  }

  /**
   * Availability as the booking lifecycle intends it: a moved booking still
   * holds its new slot, so "Reagendada" records block like "Activa" ones.
   */
  function GetAvailabilityIntended(citas: seq<Cita>, fecha: string, doctorName: string): (r: seq<TimeSlot>)
    ensures |r| == |MORNING_SLOTS| + |AFTERNOON_SLOTS|
    ensures forall k :: 0 <= k < |r| ==>
      (r[k].available <==> !DoctorHasBooking(citas, fecha, INTENDED_STATES, r[k].hour, doctorName)
                           && !HourFull(citas, fecha, INTENDED_STATES, r[k].hour))
  {
    AllSlotsMeaning(citas, fecha, doctorName, INTENDED_STATES);
    SlotsWithAvailability(citas, fecha, doctorName, INTENDED_STATES)
  }

  /** `SlotsWithAvailabilityMeaning` for every entry at once. */
  lemma AllSlotsMeaning(citas: seq<Cita>, fecha: string, doctorName: string, blocking: set<string>)
    ensures var r := SlotsWithAvailability(citas, fecha, doctorName, blocking);
      forall k :: 0 <= k < |r| ==>
        (r[k].available <==> !DoctorHasBooking(citas, fecha, blocking, r[k].hour, doctorName)
                             && !HourFull(citas, fecha, blocking, r[k].hour))
  {
    var r := SlotsWithAvailability(citas, fecha, doctorName, blocking);
    forall k | 0 <= k < |r|
      ensures r[k].available <==> !DoctorHasBooking(citas, fecha, blocking, r[k].hour, doctorName)
                                  && !HourFull(citas, fecha, blocking, r[k].hour)
    {
      SlotsWithAvailabilityMeaning(citas, fecha, doctorName, blocking, k);
    }
  }

  /** The selected doctor already has a counted record at this hour. */
  predicate DoctorHasBooking(citas: seq<Cita>, fecha: string, blocking: set<string>, hour: string, doctorName: string) {
    exists i :: 0 <= i < |citas| && Occupies(citas[i], fecha, blocking, hour) && citas[i].doctora == doctorName
  }

  /** Two distinct counted records share this hour: MAX_APPOINTMENTS_PER_SLOT (two) are reached. */
  predicate HourFull(citas: seq<Cita>, fecha: string, blocking: set<string>, hour: string) {
    exists i, j :: 0 <= i < j < |citas| && Occupies(citas[i], fecha, blocking, hour) && Occupies(citas[j], fecha, blocking, hour)
  }

  /** `DoctorCount` counts exactly the day's records of this doctor at this hour. */
  lemma DoctorCountMeaning(citas: seq<Cita>, fecha: string, blocking: set<string>, hour: string, doctorName: string)
    ensures DoctorCount(CitasEnFecha(citas, fecha, blocking), hour, doctorName) >= 1
        <==> DoctorHasBooking(citas, fecha, blocking, hour, doctorName)
  {
    var q := CountsOnDate(fecha, blocking);
    var p := OfDoctorAt(hour, doctorName);
    FilterFilter(citas, q, p);
    FilterNonEmpty(citas, Both(q, p));
    assert forall i :: 0 <= i < |citas| ==>
      (Both(q, p)(citas[i]) <==> Occupies(citas[i], fecha, blocking, hour) && citas[i].doctora == doctorName);
  }

  /** `TotalCount` reaches two exactly when two distinct records occupy the hour. */
  lemma TotalCountMeaning(citas: seq<Cita>, fecha: string, blocking: set<string>, hour: string)
    ensures TotalCount(CitasEnFecha(citas, fecha, blocking), hour) >= MAX_APPOINTMENTS_PER_SLOT
        <==> HourFull(citas, fecha, blocking, hour)
  {
    var q := CountsOnDate(fecha, blocking);
    var p := AtHourOf(hour);
    FilterFilter(citas, q, p);
    FilterAtLeastTwo(citas, Both(q, p));
    BothOccupies(citas, fecha, blocking, hour);
  }

  lemma BothOccupies(citas: seq<Cita>, fecha: string, blocking: set<string>, hour: string)
    ensures forall i :: 0 <= i < |citas| ==>
      (Both(CountsOnDate(fecha, blocking), AtHourOf(hour))(citas[i]) <==> Occupies(citas[i], fecha, blocking, hour))
  {
  }

  lemma MarkSlotMeaning(slot: SlotConfig, period: Period, citas: seq<Cita>, fecha: string, doctorName: string, blocking: set<string>)
    ensures MarkSlot(slot, period, CitasEnFecha(citas, fecha, blocking), doctorName).available
        <==> !DoctorHasBooking(citas, fecha, blocking, slot.hour, doctorName) && !HourFull(citas, fecha, blocking, slot.hour)
  {
    DoctorCountMeaning(citas, fecha, blocking, slot.hour, doctorName);
    TotalCountMeaning(citas, fecha, blocking, slot.hour);
  }

  /**
   * A slot is offered exactly when the doctor has no counted record at its
   * hour and fewer than two counted records share that hour.
   */
  lemma SlotsWithAvailabilityMeaning(citas: seq<Cita>, fecha: string, doctorName: string, blocking: set<string>, k: nat)
    requires k < |SlotsWithAvailability(citas, fecha, doctorName, blocking)|
    ensures var slot := SlotsWithAvailability(citas, fecha, doctorName, blocking)[k];
      slot.available <==> !DoctorHasBooking(citas, fecha, blocking, slot.hour, doctorName)
                          && !HourFull(citas, fecha, blocking, slot.hour)
  {
    var n := |MORNING_SLOTS|;
    if k < n {
      MarkSlotMeaning(MORNING_SLOTS[k], Morning, citas, fecha, doctorName, blocking);
    } else {
      MarkSlotMeaning(AFTERNOON_SLOTS[k - n], Afternoon, citas, fecha, doctorName, blocking);
    }
  }

  /** Appending a record extends the day's list by that record exactly when it counts on that day. */
  lemma CitasEnFechaSnoc(citas: seq<Cita>, c: Cita, fecha: string, blocking: set<string>)
    ensures CitasEnFecha(citas + [c], fecha, blocking)
         == CitasEnFecha(citas, fecha, blocking) + (if CountsOn(c, fecha, blocking) then [c] else [])
  {
    var q := CountsOnDate(fecha, blocking);
    FilterConcat(citas, [c], q);
    assert Filter([c], q) == (if q(c) then [c] else []) + Filter([], q);
  }

  /** A record at another hour does not change a slot's entry. */
  lemma MarkSlotIgnores(slot: SlotConfig, period: Period, enFecha: seq<Cita>, c: Cita, doctorName: string)
    requires !AtHour(c, slot.hour)
    ensures MarkSlot(slot, period, enFecha + [c], doctorName) == MarkSlot(slot, period, enFecha, doctorName)
  {
    var pd := OfDoctorAt(slot.hour, doctorName);
    var pt := AtHourOf(slot.hour);
    FilterConcat(enFecha, [c], pd);
    FilterConcat(enFecha, [c], pt);
    assert Filter([c], pd) == [] + Filter([], pd);
    assert Filter([c], pt) == [] + Filter([], pt);
  }

  /** Entry `k` of the slot list is the configured slot `k`, marked against the day's records. */
  lemma SlotsWithAvailabilityAt(citas: seq<Cita>, fecha: string, doctorName: string, blocking: set<string>, k: nat)
    requires k < |MORNING_SLOTS| + |AFTERNOON_SLOTS|
    ensures var enFecha := CitasEnFecha(citas, fecha, blocking);
      SlotsWithAvailability(citas, fecha, doctorName, blocking)[k]
      == if k < |MORNING_SLOTS| then MarkSlot(MORNING_SLOTS[k], Morning, enFecha, doctorName)
         else MarkSlot(AFTERNOON_SLOTS[k - |MORNING_SLOTS|], Afternoon, enFecha, doctorName)
  {
  }

  /**
   * Blocking is local: a record that does not occupy a slot's hour on the
   * requested date (another hour, another date, a non-blocking state)
   * changes nothing about that slot, whatever its duration.
   */
  lemma AvailabilityIgnores(citas: seq<Cita>, c: Cita, fecha: string, doctorName: string, blocking: set<string>, k: nat)
    requires k < |MORNING_SLOTS| + |AFTERNOON_SLOTS|
    requires !Occupies(c, fecha, blocking, SlotsWithAvailability(citas, fecha, doctorName, blocking)[k].hour)
    ensures SlotsWithAvailability(citas + [c], fecha, doctorName, blocking)[k]
         == SlotsWithAvailability(citas, fecha, doctorName, blocking)[k]
  {
    var enFecha := CitasEnFecha(citas, fecha, blocking);
    CitasEnFechaSnoc(citas, c, fecha, blocking);
    SlotsWithAvailabilityAt(citas, fecha, doctorName, blocking, k);
    SlotsWithAvailabilityAt(citas + [c], fecha, doctorName, blocking, k);
    if CountsOn(c, fecha, blocking) {
      var n := |MORNING_SLOTS|;
      if k < n {
        MarkSlotIgnores(MORNING_SLOTS[k], Morning, enFecha, c, doctorName);
      } else {
        MarkSlotIgnores(AFTERNOON_SLOTS[k - n], Afternoon, enFecha, c, doctorName);
      }
    } else {
      assert enFecha + [] == enFecha;
      assert CitasEnFecha(citas + [c], fecha, blocking) == enFecha;
    }
  }

  /** As written, a record in any state but "Activa" (moved or cancelled) never blocks a slot. */
  lemma OnlyActiveRecordsBlock(citas: seq<Cita>, c: Cita, fecha: string, doctorName: string, k: nat)
    requires k < |MORNING_SLOTS| + |AFTERNOON_SLOTS|
    requires c.estado != "Activa"
    ensures GetAvailability(citas + [c], fecha, doctorName)[k] == GetAvailability(citas, fecha, doctorName)[k]
  {
    AvailabilityIgnores(citas, c, fecha, doctorName, ACTIVE_STATES, k);
  }

  /** With no records every slot of the grid is open with one place. */
  lemma EmptyLedgerAllAvailable(fecha: string, doctorName: string, blocking: set<string>, k: nat)
    requires k < |MORNING_SLOTS| + |AFTERNOON_SLOTS|
    ensures SlotsWithAvailability([], fecha, doctorName, blocking)[k].available
    ensures SlotsWithAvailability([], fecha, doctorName, blocking)[k].spotsLeft == 1
  {
    SlotsWithAvailabilityMeaning([], fecha, doctorName, blocking, k);
  }

  /**
   * The discrepancy: a booking moved to 08:00 on 15/10/2026 is "Reagendada";
   * the code still offers that slot to the same doctor, the intended rule does not.
   */
  lemma RescheduledBookingDoesNotBlock()
    ensures var c := Cita("2", "12345", "Ana", "ana@correo.co", "3001234567", "15/10/2026", "08:00",
                          "Reagendada", "Reagendamiento", "Dra. Sandra Simancas", "t0", "t1");
      GetAvailability([c], "15/10/2026", "Dra. Sandra Simancas")[0].available
      && !GetAvailabilityIntended([c], "15/10/2026", "Dra. Sandra Simancas")[0].available
  {
    var c := Cita("2", "12345", "Ana", "ana@correo.co", "3001234567", "15/10/2026", "08:00",
                  "Reagendada", "Reagendamiento", "Dra. Sandra Simancas", "t0", "t1");
    var fecha, doctorName := "15/10/2026", "Dra. Sandra Simancas";
    assert [] + [c] == [c];
    EmptyLedgerAllAvailable(fecha, doctorName, ACTIVE_STATES, 0);
    OnlyActiveRecordsBlock([], c, fecha, doctorName, 0);
    NormalizeHourOfHHMM("08:00");
    SlotsWithAvailabilityAt([c], fecha, doctorName, INTENDED_STATES, 0);
    SlotsWithAvailabilityMeaning([c], fecha, doctorName, INTENDED_STATES, 0);
    assert Occupies([c][0], fecha, INTENDED_STATES, "08:00");
  }
}
