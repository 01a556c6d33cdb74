/**
 * The selection rules of src/components/ServiceSelect.tsx: when the only
 * appointment type of a service is chosen automatically, when the type picker
 * is shown, how a duration is labelled, when the doctor card and the calendar
 * appear, and which calendar days are disabled.
 */
module ServiceSelect {
  import opened Wrappers
  import opened Calendar
  import opened Catalog

  /** Services whose type picker is always shown, even with a single type. */
  const ALWAYS_SHOW_TYPES: seq<string> := ["diseno-sonrisa", "odontologia-estetica", "rehabilitacion-oral", "periodoncia"]

  /** The auto-select effect's condition: a single type and not one of the always-shown services. */
  predicate AutoSelects(service: ServiceCategory) {
    |service.appointmentTypes| == 1 && service.id !in ALWAYS_SHOW_TYPES
  }

  /** The type picker's condition: several types, or one of the always-shown services. */
  predicate ShowsTypePicker(service: ServiceCategory) {
    |service.appointmentTypes| > 1 || service.id in ALWAYS_SHOW_TYPES
  }

  /** The type the effect selects for the selected service, if it selects one. */
  function AutoSelected(selected: Option<ServiceCategory>): (r: Option<AppointmentType>)
    ensures r.Some? <==> selected.Some? && AutoSelects(selected.value)
    ensures r.Some? ==> r.value == selected.value.appointmentTypes[0] && r.value in selected.value.appointmentTypes
  {
    if selected.Some? && AutoSelects(selected.value) then Some(selected.value.appointmentTypes[0]) else None
  }

  /** A service with a type either selects it automatically or shows the picker, never both. */
  lemma AutoSelectOrPicker(service: ServiceCategory)
    requires |service.appointmentTypes| >= 1
    ensures AutoSelects(service) <==> !ShowsTypePicker(service)
  {
  }

  /** In the catalogue, only whitening and prophylaxis select their type automatically. */
  lemma CatalogAutoSelects()
    ensures forall i :: 0 <= i < |SERVICES| ==>
      (AutoSelects(SERVICES[i]) <==> SERVICES[i].id == "blanqueamiento" || SERVICES[i].id == "profilaxis")
    ensures forall i :: 0 <= i < |SERVICES| ==> |SERVICES[i].appointmentTypes| >= 1
  {
    forall i | 0 <= i < |SERVICES|
      ensures AutoSelects(SERVICES[i]) <==> SERVICES[i].id == "blanqueamiento" || SERVICES[i].id == "profilaxis"
    {
      assert ALWAYS_SHOW_TYPES == ["diseno-sonrisa", "odontologia-estetica", "rehabilitacion-oral", "periodoncia"];
    }
  }

  /** The label of a duration in minutes. */
  function DurationLabel(minutes: nat): string {
    if minutes == 120 then "2 horas"
    else if minutes == 90 then "90 Minutos"
    else if minutes == 60 then "1 hora"
    else "30 min"
  }

  /** Reading a label back as minutes. */
  function LabelMinutes(text: string): Option<nat> {
    if text == "2 horas" then Some(120)
    else if text == "90 Minutos" then Some(90)
    else if text == "1 hora" then Some(60)
    else if text == "30 min" then Some(30)
    else None
  }

  /** The four durations the labels know are named faithfully; every other duration is shown as "30 min". */
  lemma DurationLabelRoundTrip(minutes: nat)
    ensures minutes in {30, 60, 90, 120} ==> LabelMinutes(DurationLabel(minutes)) == Some(minutes)
    ensures minutes !in {30, 60, 90, 120} ==> DurationLabel(minutes) == "30 min"
  {
  }

  /** Every type in the catalogue lasts one of the four labelled durations, so its label tells its length. */
  lemma CatalogDurationsLabelled()
    ensures forall i, j :: 0 <= i < |SERVICES| && 0 <= j < |SERVICES[i].appointmentTypes| ==>
      LabelMinutes(DurationLabel(SERVICES[i].appointmentTypes[j].duration)) == Some(SERVICES[i].appointmentTypes[j].duration)
  {
    forall i, j | 0 <= i < |SERVICES| && 0 <= j < |SERVICES[i].appointmentTypes|
      ensures LabelMinutes(DurationLabel(SERVICES[i].appointmentTypes[j].duration)) == Some(SERVICES[i].appointmentTypes[j].duration)
    {
      DurationLabelRoundTrip(SERVICES[i].appointmentTypes[j].duration);
    }
  }

  /** The doctor who attends the selected service (`doctor` in the component). */
  function DoctorOf(selected: Option<ServiceCategory>): Option<Doctor> {
    if selected.Some? then GetDoctorForService(selected.value.id) else None
  }

  /** The doctor card needs a service, a type and the service's doctor. */
  predicate ShowsDoctorCard(selected: Option<ServiceCategory>, selectedType: Option<AppointmentType>) {
    selected.Some? && selectedType.Some? && DoctorOf(selected).Some?
  }

  /** The calendar needs a service and a type. */
  predicate ShowsCalendar(selected: Option<ServiceCategory>, selectedType: Option<AppointmentType>) {
    selected.Some? && selectedType.Some?
  }

  /** For a catalogue service the card and the calendar appear together. */
  lemma CardWithCalendar(i: nat, selectedType: Option<AppointmentType>)
    requires i < |SERVICES|
    ensures ShowsDoctorCard(Some(SERVICES[i]), selectedType) <==> ShowsCalendar(Some(SERVICES[i]), selectedType)
    ensures ShowsCalendar(Some(SERVICES[i]), selectedType) <==> selectedType.Some?
  {
    GetDoctorForServiceOfCatalog(i);
  }

  /**
   * The calendar's `disabled`: the doctor rule for the service's doctor, that
   * is the general rule, plus 19 to 25 February 2026 when the service is
   * Dra. Sandra's.
   */
  function CalendarDisabled(selected: Option<ServiceCategory>, date: Date, today: Date): (disabled: bool)
    requires 1 <= date.month <= 12
    ensures disabled <==> IsDateDisabled(date, today)
                          || (DoctorOf(selected).Some? && DoctorOf(selected).value.id == SANDRA_ID
                              && date.year == 2026 && date.month == 2 && 19 <= date.day <= 25)
  {
    IsDateDisabledForDoctor(date, MapId(DoctorOf(selected)), today)
  }

  /** `doctor?.id`. */
  function MapId(doctor: Option<Doctor>): (id: Option<string>)
    ensures id.Some? <==> doctor.Some?
    ensures doctor.Some? ==> id.value == doctor.value.id
  {
    if doctor.Some? then Some(doctor.value.id) else None
  }

  /** Orthodontics is Dra. Sandra's, so her blocked week in February 2026 is closed on its calendar. */
  lemma OrthodonticsClosedInSandrasWeek(day: nat, today: Date)
    requires 19 <= day <= 25
    ensures CalendarDisabled(Some(SERVICES[0]), Date(2026, 2, day), today)
  {
    GetDoctorForServiceOfCatalog(0);
  }

  /** A service of the other doctor follows only the general rule. */
  lemma GeneralDentistryFollowsGeneralRule(date: Date, today: Date)
    requires 1 <= date.month <= 12
    ensures CalendarDisabled(Some(SERVICES[2]), date, today) == IsDateDisabled(date, today)
  {
    GetDoctorForServiceOfCatalog(2);
  }
}
