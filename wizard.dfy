/**
 * The booking wizard of src/pages/Agendar.tsx: three steps (doctor and date,
 * time slot, patient data), the guards on moving forward, going back, the
 * submission of the booking, the reset after a confirmation and the label
 * shown for the booked hour.
 *
 * The component's state variables are the fields of `BookingWizard`; each
 * handler is a method. The network calls are parameters: the bookings that
 * the availability query received (or None when it failed) and the outcome
 * of the create request.
 */
module Wizard {
  import opened Wrappers
  import opened TimeUtil
  import opened Calendar
  import opened Catalog
  import opened Availability
  import opened PatientForm
  import opened Ledger
  import opened DoctorSelect

  /** What `createAppointment` gave back: a JSON answer, or an error it threw with its message. */
  datatype Outcome = Answered(success: bool, message: string) | Threw(message: string)

  const LOAD_ERROR: string := "No se pudo cargar la disponibilidad. Verifica que el servidor esté activo."

  /** A slot counts as chosen when it is set and not the empty string (`!selectedSlot` is false). */
  predicate Chosen(slot: Option<string>) {
    slot.Some? && slot.value != ""
  }

  /** Every configured slot, morning first (`[...morning, ...afternoon]`). */
  function AllSlots(): seq<SlotConfig> {
    MORNING_SLOTS + AFTERNOON_SLOTS
  }

  function HourIs(hour: string): SlotConfig -> bool {
    (s: SlotConfig) => s.hour == hour
  }

  /** `getSlotLabel`: the label of the first configured slot with this hour, or the hour itself. */
  function SlotLabel(hour: string): (text: string)
    ensures (forall k :: 0 <= k < |AllSlots()| ==> AllSlots()[k].hour != hour) ==> text == hour
    ensures (exists k :: 0 <= k < |AllSlots()| && AllSlots()[k].hour == hour) ==>
      exists k :: 0 <= k < |AllSlots()| && AllSlots()[k].hour == hour && text == AllSlots()[k].labelText
  {
    match Find(AllSlots(), HourIs(hour))
    case None => hour
    case Some(s) => s.labelText
  }

  /** The position in `AllSlots` of slot `i` of a period. */
  function AllIndex(p: Period, i: nat): nat {
    if p == Morning then i else |MORNING_SLOTS| + i
  }

  lemma AllIndexOf(p: Period, i: nat)
    requires i < |SlotsOf(p)|
    ensures AllIndex(p, i) < |AllSlots()| && AllSlots()[AllIndex(p, i)] == SlotsOf(p)[i]
  {
  }

  /** Every position of `AllSlots` is some slot of some period. */
  lemma AllIndexOnto(k: nat)
    requires k < |AllSlots()|
    ensures exists p: Period, i: nat :: i < |SlotsOf(p)| && AllIndex(p, i) == k
  {
    if k < |MORNING_SLOTS| {
      assert AllIndex(Morning, k) == k;
    } else {
      assert AllIndex(Afternoon, k - |MORNING_SLOTS|) == k;
    }
  }

  /**
   * The confirmation shows, for every hour of the grid, that slot's own
   * label, which is the 12-hour rendering of its start.
   */
  lemma SlotLabelOfGrid(p: Period, i: nat)
    requires i < |SlotsOf(p)|
    ensures SlotLabel(SlotsOf(p)[i].hour) == SlotsOf(p)[i].labelText
    ensures SlotLabel(SlotsOf(p)[i].hour) == MinutesToLabel(GridStart(p, i))
  {
    var hour := SlotsOf(p)[i].hour;
    AllIndexOf(p, i);
    var k :| 0 <= k < |AllSlots()| && AllSlots()[k].hour == hour && SlotLabel(hour) == AllSlots()[k].labelText;
    AllIndexOnto(k);
    var q: Period, j: nat :| j < |SlotsOf(q)| && AllIndex(q, j) == k;
    AllIndexOf(q, j);
    SlotHoursDistinct(p, i, q, j);
    SlotGridRendering(p, i);
  }

  class BookingWizard {
    var step: nat
    var selectedDoctor: Option<Doctor>
    var selectedDate: Option<Date>
    var selectedSlot: Option<string>
    var slots: seq<TimeSlot>
    var confirmed: bool
    var patientName: string

    /**
     * The wizard's invariant: the step is 1, 2 or 3; past step 1 a doctor and
     * a date are chosen; at step 3 a slot is chosen; at step 1 no slot is
     * held; and a confirmed booking has the doctor, date and slot the
     * confirmation screen reads.
     */
    ghost predicate Valid()
      reads this
    {
      1 <= step <= 3
      && (selectedDate.Some? ==> ValidDate(selectedDate.value))
      && (step >= 2 ==> selectedDoctor.Some? && selectedDate.Some?)
      && (step == 3 ==> Chosen(selectedSlot))
      && (step == 1 ==> selectedSlot.None?)
      && (confirmed ==> selectedDoctor.Some? && selectedDate.Some? && Chosen(selectedSlot))
    }

    /** The state the page opens with and `resetAll` returns to. */
    ghost predicate Initial()
      reads this
    {
      step == 1 && selectedDoctor.None? && selectedDate.None? && selectedSlot.None?
      && slots == [] && !confirmed && patientName == ""
    }

    constructor()
      ensures Valid() && Initial()
    {
      step := 1;
      selectedDoctor := None;
      selectedDate := None;
      selectedSlot := None;
      slots := [];
      confirmed := false;
      patientName := "";
    }

    /** Picking a doctor on the first step. */
    method SelectDoctor(d: Doctor)
      requires Valid() && !confirmed && step == 1
      modifies this
      ensures Valid()
      ensures selectedDoctor == Some(d)
      ensures step == old(step) && selectedDate == old(selectedDate) && selectedSlot == old(selectedSlot)
      ensures slots == old(slots) && confirmed == old(confirmed) && patientName == old(patientName)
    {
      selectedDoctor := Some(d);
    }

    /**
     * Picking (or clearing, with None) a day on the first step's calendar. The
     * calendar is shown only once a doctor is chosen, and its disabled days
     * cannot be picked.
     */
    method SelectDate(d: Option<Date>, today: Date)
      requires Valid() && !confirmed && step == 1
      requires ShowsDatePicker(selectedDoctor)
      requires d.Some? ==> ValidDate(d.value) && !PickerDisabled(d.value, today)
      modifies this
      ensures Valid()
      ensures selectedDate == d
      ensures step == old(step) && selectedDoctor == old(selectedDoctor) && selectedSlot == old(selectedSlot)
      ensures slots == old(slots) && confirmed == old(confirmed) && patientName == old(patientName)
    {
      selectedDate := d;
    }

    /**
     * `fetchSlots`, run on entering step 2: the slots become the availability
     * of the chosen date and doctor computed from the bookings received; when
     * the query failed the slots stay and the error toast is shown.
     */
    method LoadSlots(fetched: Option<seq<Cita>>) returns (toast: Option<string>)
      requires Valid() && !confirmed && step == 2
      modifies this
      ensures Valid()
      ensures step == old(step) && selectedDoctor == old(selectedDoctor) && selectedDate == old(selectedDate)
      ensures selectedSlot == old(selectedSlot) && confirmed == old(confirmed) && patientName == old(patientName)
      ensures fetched.Some? ==>
        toast.None? && slots == GetAvailability(fetched.value, DateToDDMMYYYY(selectedDate.value), selectedDoctor.value.name)
      ensures fetched.None? ==> toast == Some(LOAD_ERROR) && slots == old(slots)
    {
      if fetched.None? {
        return Some(LOAD_ERROR);
      }
      slots := GetAvailability(fetched.value, DateToDDMMYYYY(selectedDate.value), selectedDoctor.value.name);
      return None;
    }

    /** A click on slot `i` of the second step: only an available slot is selected. */
    method SelectSlot(i: nat)
      requires Valid() && !confirmed && step == 2 && i < |slots|
      modifies this
      ensures Valid()
      ensures step == old(step) && selectedDoctor == old(selectedDoctor) && selectedDate == old(selectedDate)
      ensures slots == old(slots) && confirmed == old(confirmed) && patientName == old(patientName)
      ensures slots[i].available ==> selectedSlot == Some(slots[i].hour)
      ensures !slots[i].available ==> selectedSlot == old(selectedSlot)
    {
      if slots[i].available {
        selectedSlot := Some(slots[i].hour);
      }
    }

    /**
     * `handleNext`: from step 1 to 2 once a doctor and a date are chosen, from
     * step 2 to 3 once a slot is chosen, and otherwise nothing.
     */
    method Next()
      requires Valid() && !confirmed
      modifies this
      ensures Valid()
      ensures old(step) == 1 ==>
        step == (if old(selectedDoctor).Some? && old(selectedDate).Some? then 2 else 1)
      ensures old(step) == 2 ==> step == (if Chosen(old(selectedSlot)) then 3 else 2)
      ensures old(step) == 3 ==> step == 3
      ensures selectedDoctor == old(selectedDoctor) && selectedDate == old(selectedDate) && selectedSlot == old(selectedSlot)
      ensures slots == old(slots) && confirmed == old(confirmed) && patientName == old(patientName)
    {
      if step == 1 && selectedDoctor.Some? && selectedDate.Some? {
        step := 2;
      } else if step == 2 && Chosen(selectedSlot) {
        step := 3;
      }
    }

    /** `handleBack`: step 2 returns to 1 and drops the slot; step 3 returns to 2 and keeps it. */
    method Back()
      requires Valid() && !confirmed
      modifies this
      ensures Valid()
      ensures old(step) == 1 ==> step == 1 && selectedSlot == old(selectedSlot)
      ensures old(step) == 2 ==> step == 1 && selectedSlot.None?
      ensures old(step) == 3 ==> step == 2 && selectedSlot == old(selectedSlot)
      ensures selectedDoctor == old(selectedDoctor) && selectedDate == old(selectedDate)
      ensures slots == old(slots) && confirmed == old(confirmed) && patientName == old(patientName)
    {
      if step == 2 {
        selectedSlot := None;
        step := 1;
      } else if step == 3 {
        step := 2;
      }
    }

    /**
     * `handleSubmit`: without a doctor, a date and a chosen slot nothing is
     * sent. Otherwise the request carries the patient's data, the date as
     * "DD/MM/AAAA", the slot's hour and the doctor's name; a successful
     * answer confirms the booking under the patient's name, and any other
     * outcome shows its message and changes nothing.
     */
    method Submit(data: PatientData, outcome: Outcome) returns (request: Option<BookingRequest>, toast: Option<string>)
      requires Valid() && !confirmed
      modifies this
      ensures Valid()
      ensures request.Some? <==> old(selectedDoctor).Some? && old(selectedDate).Some? && Chosen(old(selectedSlot))
      ensures request.Some? ==> request.value == BookingRequest(
        data.cedula, data.nombre, data.correo, data.telefono,
        DateToDDMMYYYY(old(selectedDate).value), old(selectedSlot).value, old(selectedDoctor).value.name)
      ensures confirmed <==> request.Some? && outcome.Answered? && outcome.success
      ensures request.Some? && outcome.Answered? && outcome.success ==> patientName == data.nombre && toast.None?
      ensures request.Some? && !(outcome.Answered? && outcome.success) ==>
        patientName == old(patientName) && toast == Some(outcome.message)
      ensures request.None? ==> patientName == old(patientName) && toast.None?
      ensures step == old(step) && selectedDoctor == old(selectedDoctor) && selectedDate == old(selectedDate)
      ensures selectedSlot == old(selectedSlot) && slots == old(slots)
    {
      if selectedDoctor.None? || selectedDate.None? || !Chosen(selectedSlot) {
        return None, None;
      }
      request := Some(BookingRequest(
        data.cedula, data.nombre, data.correo, data.telefono,
        DateToDDMMYYYY(selectedDate.value), selectedSlot.value, selectedDoctor.value.name));
      if outcome.Answered? && outcome.success {
        patientName := data.nombre;
        confirmed := true;
        toast := None;
      } else {
        toast := Some(outcome.message);
      }
    }

    /** `resetAll`: back to the opening state, ready for a new booking. */
    method Reset()
      modifies this
      ensures Valid() && Initial()
    {
      step := 1;
      selectedDoctor := None;
      selectedDate := None;
      selectedSlot := None;
      slots := [];
      confirmed := false;
      patientName := "";
    }
  }
}
