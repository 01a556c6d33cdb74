/**
 * The date rule of src/components/DoctorSelect.tsx: the calendar of the
 * booking wizard disables past days and weekends, and appears once a doctor
 * is chosen. It does not consult the holiday list or the doctors' blocked
 * days that `isDateDisabledForDoctor` knows about.
 */
module DoctorSelect {
  import opened Wrappers
  import opened Calendar
  import opened Catalog

  /** `isWeekday`: Monday to Friday. */
  predicate IsWeekday(date: Date)
    requires 1 <= date.month <= 12
  {
    Weekday(date) != 0 && Weekday(date) != 6
  }

  /** The calendar's `disabled`: before today (at midnight) or not a weekday. */
  function PickerDisabled(date: Date, today: Date): (disabled: bool)
    requires 1 <= date.month <= 12
    ensures disabled <==> Before(date, today) || Weekday(date) == 0 || Weekday(date) == 6
  {
    Before(date, today) || !IsWeekday(date)
  }

  /** The date picker is rendered only once a doctor is selected. */
  predicate ShowsDatePicker(selectedDoctor: Option<Doctor>) {
    selectedDoctor.Some?
  }

  /** Whatever this calendar disables, the general rule disables as well. */
  lemma PickerWeakerThanGeneralRule(date: Date, today: Date)
    requires 1 <= date.month <= 12
    ensures PickerDisabled(date, today) ==> IsDateDisabled(date, today)
  {
  }

  /** The two rules differ exactly on future weekday holidays. */
  lemma PickerDiffersOnHolidays(date: Date, today: Date)
    requires 1 <= date.month <= 12
    ensures IsDateDisabled(date, today) && !PickerDisabled(date, today) <==> date in HOLIDAY_DATES && !PickerDisabled(date, today)
  {
  }

  /** 12 October 2026 (a Monday, a public holiday) is offered by this calendar though the general rule closes it. */
  lemma HolidayOffered()
    ensures Weekday(Date(2026, 10, 12)) == 1
    ensures !PickerDisabled(Date(2026, 10, 12), Date(2026, 10, 1))
    ensures IsDateDisabled(Date(2026, 10, 12), Date(2026, 10, 1))
  {
    assert Date(2026, 10, 12) == HOLIDAY_DATES[13];
  }
}
