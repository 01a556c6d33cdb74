/**
 * The static catalogue of src/lib/types.ts: the two doctors, the services
 * they offer with their appointment types, the 30-minute slot grid, the
 * period limits and the per-slot capacity, and the service-to-doctor lookup.
 */
module Catalog {
  import opened Wrappers
  import opened Text
  import opened TimeUtil

  datatype Doctor = Doctor(id: string, name: string, specialty: string)

  /** One kind of appointment and its length in minutes. */
  datatype AppointmentType = AppointmentType(id: string, name: string, duration: nat)

  datatype ServiceCategory = ServiceCategory(id: string, name: string, doctorId: string, appointmentTypes: seq<AppointmentType>)

  datatype Period = Morning | Afternoon

  /** An entry of `TIME_SLOTS_CONFIG`: the "HH:MM" start and its patient-facing label. */
  datatype SlotConfig = SlotConfig(hour: string, labelText: string)

  /** A slot as offered to the patient, with its availability for one date and doctor. */
  datatype TimeSlot = TimeSlot(hour: string, labelText: string, period: Period, available: bool, spotsLeft: nat)

  /** A booking record as the backend lists it (`CitaBackend`), columns A to K plus the row id. */
  datatype Cita = Cita(
    id: string, cedula: string, nombre: string, correo: string, telefono: string,
    fecha: string, hora: string, estado: string, accion: string, doctora: string,
    createdAt: string, updatedAt: string)

  /** Start and end of a period, in minutes since midnight. */
  datatype PeriodLimit = PeriodLimit(start: nat, end: nat)

  const SANDRA: Doctor := Doctor("dra-sandra", "Dra. Sandra Simancas", "Ortodoncia y Ortopedia Maxilar")
  const ZAIRA: Doctor := Doctor("dra-zaira", "Dra. Zaira de Oro Romeo", "Odontología General")

  const DOCTORS: seq<Doctor> := [SANDRA, ZAIRA]

  const SERVICES: seq<ServiceCategory> := [
    ServiceCategory("ortodoncia", "Ortodoncia", "dra-sandra", [
      AppointmentType("valoracion-ortodoncia", "Valoración de Ortodoncia", 30),
      AppointmentType("control-ortodoncia", "Control de Ortodoncia", 30),
      AppointmentType("montaje-brackets", "Montaje de Brackets", 60),
      AppointmentType("procedimiento-dental", "Procedimiento dental", 90)]),
    ServiceCategory("ortopedia-maxilar", "Ortopedia Maxilar", "dra-sandra", [
      AppointmentType("valoracion-ortopedia", "Valoración", 30),
      AppointmentType("procedimiento-ortopedia", "Procedimiento de Ortopedia", 60),
      AppointmentType("control-ortopedia", "Control de ortopedia", 30)]),
    ServiceCategory("odontologia-general", "Odontología General", "dra-zaira", [
      AppointmentType("valoracion-general", "Valoración General", 30),
      AppointmentType("procedimiento-general", "Procedimiento General", 60),
      AppointmentType("mantenimiento-diseno", "Mantenimiento de diseño", 120)]),
    ServiceCategory("odontologia-estetica", "Odontología Estética", "dra-zaira", [
      AppointmentType("valoracion-estetica", "Valoración", 30)]),
    ServiceCategory("blanqueamiento", "Blanqueamiento", "dra-zaira", [
      AppointmentType("blanqueamiento", "Blanqueamiento Dental", 60)]),
    ServiceCategory("diseno-sonrisa", "Diseño de Sonrisa", "dra-zaira", [
      AppointmentType("valoracion-diseno", "Valoración", 30)]),
    ServiceCategory("rehabilitacion-oral", "Rehabilitación Oral", "dra-zaira", [
      AppointmentType("valoracion-rehabilitacion", "Valoración", 30)]),
    ServiceCategory("periodoncia", "Periodoncia", "dra-zaira", [
      AppointmentType("valoracion-periodoncia", "Valoración", 30)]),
    ServiceCategory("profilaxis", "Profilaxis", "dra-zaira", [
      AppointmentType("profilaxis", "Profilaxis (Limpieza Dental)", 30)])
  ]

  /** `Array.prototype.find` by position: the first index whose element satisfies `p`. */
  function FirstIndex<T>(s: seq<T>, p: T -> bool): (r: Option<nat>)
    ensures r.Some? ==> r.value < |s| && p(s[r.value]) && forall j :: 0 <= j < r.value ==> !p(s[j])
    ensures r.None? ==> forall j :: 0 <= j < |s| ==> !p(s[j])
    decreases |s|
  {
    if s == [] then None
    else if p(s[0]) then Some(0)
    else match FirstIndex(s[1..], p)
      case None => None
      case Some(i) => Some(i + 1)
  }

  /** `Array.prototype.find`: the first element satisfying `p`, if any. */
  function Find<T>(s: seq<T>, p: T -> bool): (r: Option<T>)
    ensures r.Some? ==> r.value in s && p(r.value)
    ensures r.Some? ==> exists i :: 0 <= i < |s| && s[i] == r.value && forall j :: 0 <= j < i ==> !p(s[j])
    ensures r.None? <==> forall j :: 0 <= j < |s| ==> !p(s[j])
  {
    match FirstIndex(s, p)
    case None => None
    case Some(i) => Some(s[i])
  }

  /** `getDoctorForService`: the doctor named by the first service with this id. */
  function GetDoctorForService(serviceId: string): (r: Option<Doctor>)
    ensures r.Some? ==> r.value in DOCTORS
                        && exists s :: s in SERVICES && s.id == serviceId && s.doctorId == r.value.id
    ensures (forall s :: s in SERVICES ==> s.id != serviceId) ==> r.None?
  {
    match Find(SERVICES, (s: ServiceCategory) => s.id == serviceId)
    case None => None
    case Some(service) => Find(DOCTORS, (d: Doctor) => d.id == service.doctorId)
  }

  /** Catalogue ids are unique, so "the first match" is "the match". */
  lemma CatalogIdsDistinct()
    ensures forall i, j :: 0 <= i < j < |SERVICES| ==> SERVICES[i].id != SERVICES[j].id
    ensures forall i, j :: 0 <= i < j < |DOCTORS| ==> DOCTORS[i].id != DOCTORS[j].id
  {
  }

  /** Every catalogue service resolves to its own doctor, who is in DOCTORS. */
  lemma {:induction false} GetDoctorForServiceOfCatalog(i: nat)
    requires i < |SERVICES|
    ensures GetDoctorForService(SERVICES[i].id).Some?
    ensures GetDoctorForService(SERVICES[i].id).value.id == SERVICES[i].doctorId
  {
    var id := SERVICES[i].id;
    var doc := SERVICES[i].doctorId;
    ServiceFoundAt(i, id);
    ServiceDoctorIsKnown(i, doc);
    DoctorFound(doc);
  }

  /** Every catalogue service names one of the two doctors. */
  lemma ServiceDoctorIsKnown(i: nat, doc: string)
    requires i < |SERVICES| && doc == SERVICES[i].doctorId
    ensures doc == SANDRA.id || doc == ZAIRA.id
  {
  }

  /** Looking a catalogue service up by its own id finds that service. */
  lemma ServiceFoundAt(i: nat, id: string)
    requires i < |SERVICES| && id == SERVICES[i].id
    ensures Find(SERVICES, (s: ServiceCategory) => s.id == id) == Some(SERVICES[i])
  {
    CatalogIdsDistinct();
    FindAt(SERVICES, (s: ServiceCategory) => s.id == id, i);
  }

  /** Both doctor ids the catalogue names resolve to that doctor. */
  lemma DoctorFound(doc: string)
    requires doc == SANDRA.id || doc == ZAIRA.id
    ensures Find(DOCTORS, (d: Doctor) => d.id == doc).Some?
    ensures Find(DOCTORS, (d: Doctor) => d.id == doc).value.id == doc
  {
    FindAt(DOCTORS, (d: Doctor) => d.id == doc, if doc == SANDRA.id then 0 else 1);
  }

  /** When `i` is the first position satisfying `p`, `find` returns its element. */
  lemma FindAt<T>(s: seq<T>, p: T -> bool, i: nat)
    requires i < |s| && p(s[i]) && forall j :: 0 <= j < i ==> !p(s[j])
    ensures Find(s, p) == Some(s[i])
  {
    FirstIndexAt(s, p, i);
  }

  /** When `i` is the first position satisfying `p`, `find` lands on it. */
  lemma FirstIndexAt<T>(s: seq<T>, p: T -> bool, i: nat)
    requires i < |s| && p(s[i]) && forall j :: 0 <= j < i ==> !p(s[j])
    ensures FirstIndex(s, p) == Some(i)
  {
  }

  /** `TIME_SLOTS_CONFIG.morning`. */
  const MORNING_SLOTS: seq<SlotConfig> := [
    SlotConfig("08:00", "8:00 AM"), SlotConfig("08:30", "8:30 AM"),
    SlotConfig("09:00", "9:00 AM"), SlotConfig("09:30", "9:30 AM"),
    SlotConfig("10:00", "10:00 AM"), SlotConfig("10:30", "10:30 AM"),
    SlotConfig("11:00", "11:00 AM"), SlotConfig("11:30", "11:30 AM")
  ]

  /** `TIME_SLOTS_CONFIG.afternoon`. */
  const AFTERNOON_SLOTS: seq<SlotConfig> := [
    SlotConfig("14:00", "2:00 PM"), SlotConfig("14:30", "2:30 PM"),
    SlotConfig("15:00", "3:00 PM"), SlotConfig("15:30", "3:30 PM"),
    SlotConfig("16:00", "4:00 PM"), SlotConfig("16:30", "4:30 PM"),
    SlotConfig("17:00", "5:00 PM")
  ]

  function SlotsOf(p: Period): seq<SlotConfig> {
    match p
    case Morning => MORNING_SLOTS
    case Afternoon => AFTERNOON_SLOTS
  }

  /** `PERIOD_LIMITS`: 8:00-12:00 and 14:00-18:00. */
  function PeriodLimits(p: Period): PeriodLimit {
    match p
    case Morning => PeriodLimit(480, 720)
    case Afternoon => PeriodLimit(840, 1080)
  }

  /** At most two bookings share a start time: one per doctor. */
  const MAX_APPOINTMENTS_PER_SLOT: nat := 2

  /** The two-digit rendering of `MinutesToHour` inside one day. */
  lemma {:induction false} MinutesToHourDigits(h: nat, m: nat)
    requires h < 24 && m < 60
    ensures MinutesToHour(h * 60 + m)
         == [DigitChar(h / 10), DigitChar(h % 10), ':', DigitChar(m / 10), DigitChar(m % 10)]
  {
    MinutesToHourOf(h, m);
    Pad2OfSmallDigits(h);
    Pad2OfSmallDigits(m);
  }

  /** The label of a time, digit by digit, for hours with a one- or two-digit 12-hour clock. */
  lemma {:induction false} MinutesToLabelDigits(h: nat, m: nat)
    requires h < 24 && m < 60
    ensures MinutesToLabel(h * 60 + m) == LabelDigits(h, m)
  {
    MinutesToLabelOf(h, m);
    Pad2OfSmallDigits(m);
    var c := Clock12(h);
    if c >= 10 {
      assert NatToString(c) == NatToString(c / 10) + [DigitChar(c % 10)];
    }
  }

  /** The grid start of slot `i` of a period: every 30 minutes from the period's start. */
  function GridStart(p: Period, i: nat): nat {
    PeriodLimits(p).start + 30 * i
  }

  /** Each configured slot is the rendering of its grid start, in "HH:MM" and as a label. */
  lemma SlotGridRendering(p: Period, i: nat)
    requires i < |SlotsOf(p)|
    ensures SlotsOf(p)[i].hour == MinutesToHour(GridStart(p, i))
    ensures SlotsOf(p)[i].labelText == MinutesToLabel(GridStart(p, i))
  {
    var h := (if p == Morning then 8 else 14) + i / 2;
    var m := 30 * (i % 2);
    GridStartSplit(p, i, h, m);
    SlotHourRendering(p, i, h, m);
    SlotLabelRendering(p, i, h, m);
  }

  lemma GridStartSplit(p: Period, i: nat, h: nat, m: nat)
    requires h == (if p == Morning then 8 else 14) + i / 2 && m == 30 * (i % 2)
    ensures GridStart(p, i) == h * 60 + m
  {
  }

  lemma SlotHourRendering(p: Period, i: nat, h: nat, m: nat)
    requires i < |SlotsOf(p)| && h == (if p == Morning then 8 else 14) + i / 2 && m == 30 * (i % 2)
    requires GridStart(p, i) == h * 60 + m
    ensures SlotsOf(p)[i].hour == MinutesToHour(GridStart(p, i))
  {
    var g := GridStart(p, i);
    var text := [DigitChar(h / 10), DigitChar(h % 10), ':', DigitChar(m / 10), DigitChar(m % 10)];
    HourOfGrid(g, h, m, text);
    if p == Morning {
      MorningHour(i, h, m);
    } else {
      AfternoonHour(i, h, m);
    }
  }

  lemma HourOfGrid(g: nat, h: nat, m: nat, text: string)
    requires h < 24 && m < 60 && g == h * 60 + m
    requires text == [DigitChar(h / 10), DigitChar(h % 10), ':', DigitChar(m / 10), DigitChar(m % 10)]
    ensures MinutesToHour(g) == text
  {
    MinutesToHourDigits(h, m);
  }

  lemma MorningHour(i: nat, h: nat, m: nat)
    requires i < |MORNING_SLOTS| && h == 8 + i / 2 && m == 30 * (i % 2)
    ensures MORNING_SLOTS[i].hour == [DigitChar(h / 10), DigitChar(h % 10), ':', DigitChar(m / 10), DigitChar(m % 10)]
  {
  }

  lemma AfternoonHour(i: nat, h: nat, m: nat)
    requires i < |AFTERNOON_SLOTS| && h == 14 + i / 2 && m == 30 * (i % 2)
    ensures AFTERNOON_SLOTS[i].hour == [DigitChar(h / 10), DigitChar(h % 10), ':', DigitChar(m / 10), DigitChar(m % 10)]
  {
  }

  lemma SlotLabelRendering(p: Period, i: nat, h: nat, m: nat)
    requires i < |SlotsOf(p)| && h == (if p == Morning then 8 else 14) + i / 2 && m == 30 * (i % 2)
    requires GridStart(p, i) == h * 60 + m
    ensures SlotsOf(p)[i].labelText == MinutesToLabel(GridStart(p, i))
  {
    var g := GridStart(p, i);
    var text := LabelDigits(h, m);
    LabelOfGrid(g, h, m, text);
    if p == Morning {
      MorningLabel(i, h, m);
    } else {
      AfternoonLabel(i, h, m);
    }
  }

  /** The label of `h:m`, digit by digit, with a one- or two-digit 12-hour clock. */
  function LabelDigits(h: nat, m: nat): string
    requires h < 24 && m < 60
  {
    var c := Clock12(h);
    (if c < 10 then [DigitChar(c)] else [DigitChar(c / 10), DigitChar(c % 10)])
      + [':', DigitChar(m / 10), DigitChar(m % 10), ' '] + Meridiem(h)
  }

  lemma LabelOfGrid(g: nat, h: nat, m: nat, text: string)
    requires h < 24 && m < 60 && g == h * 60 + m
    requires text == LabelDigits(h, m)
    ensures MinutesToLabel(g) == text
  {
    MinutesToLabelDigits(h, m);
  }

  lemma MorningLabel(i: nat, h: nat, m: nat)
    requires i < |MORNING_SLOTS| && h == 8 + i / 2 && m == 30 * (i % 2)
    ensures MORNING_SLOTS[i].labelText == LabelDigits(h, m)
  {
  }

  lemma AfternoonLabel(i: nat, h: nat, m: nat)
    requires i < |AFTERNOON_SLOTS| && h == 14 + i / 2 && m == 30 * (i % 2)
    ensures AFTERNOON_SLOTS[i].labelText == LabelDigits(h, m)
  {
  }

  /**
   * The slot grid: each start inside its period's limits, each a well-formed
   * "HH:MM" that reads back to its start and is already normal.
   */
  lemma SlotGrid(p: Period, i: nat)
    requires i < |SlotsOf(p)|
    ensures IsHHMM(SlotsOf(p)[i].hour)
    ensures HourToMinutes(SlotsOf(p)[i].hour) == Some(GridStart(p, i))
    ensures PeriodLimits(p).start <= GridStart(p, i) < PeriodLimits(p).end
    ensures NormalizeHour(SlotsOf(p)[i].hour) == SlotsOf(p)[i].hour
  {
    SlotGridRendering(p, i);
    MinutesToHourShape(GridStart(p, i));
    MinutesToHourRoundTrip(GridStart(p, i));
    NormalizeHourOfHHMM(SlotsOf(p)[i].hour);
  }

  /** Consecutive configured hours of a period are 30 minutes apart. */
  lemma SlotGridSpacing(p: Period, i: nat, a: string, b: string)
    requires i + 1 < |SlotsOf(p)| && a == SlotsOf(p)[i].hour && b == SlotsOf(p)[i + 1].hour
    ensures HourToMinutes(a).Some? && HourToMinutes(b) == Some(HourToMinutes(a).value + 30)
  {
    HourOfGridStart(p, i, a);
    HourOfGridStart(p, i + 1, b);
    ReadBackSpacing(a, b, GridStart(p, i), GridStart(p, i + 1));
  }

  lemma ReadBackSpacing(a: string, b: string, x: nat, y: nat)
    requires HourToMinutes(a) == Some(x) && HourToMinutes(b) == Some(y) && y == x + 30
    ensures HourToMinutes(a).Some? && HourToMinutes(b) == Some(HourToMinutes(a).value + 30)
  {
  }

  /** A configured hour reads back as its grid start. */
  lemma HourOfGridStart(p: Period, i: nat, hour: string)
    requires i < |SlotsOf(p)| && hour == SlotsOf(p)[i].hour
    ensures HourToMinutes(hour) == Some(GridStart(p, i))
  {
    SlotGrid(p, i);
  }

  /** Morning and afternoon hours never coincide, and no hour repeats within a period. */
  lemma SlotHoursDistinct(p: Period, i: nat, q: Period, j: nat)
    requires i < |SlotsOf(p)| && j < |SlotsOf(q)|
    ensures SlotsOf(p)[i].hour == SlotsOf(q)[j].hour <==> p == q && i == j
  {
    SlotGrid(p, i);
    SlotGrid(q, j);
  }
}
