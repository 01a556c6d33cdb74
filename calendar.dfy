/**
 * Calendar dates and the booking calendar policy of src/lib/types.ts:
 * the "DD/MM/AAAA" rendering, the 2026 holiday list, and the predicates
 * that grey out weekends, holidays, past days and one doctor's leave.
 *
 * A JavaScript `Date` is modelled by its local calendar fields; the
 * weekday is computed from them, and "today" is a parameter.
 */
module Calendar {
  import opened Wrappers
  import opened Text

  /** A local calendar day: `getFullYear()`, `getMonth() + 1`, `getDate()`. */
  datatype Date = Date(year: nat, month: nat, day: nat)

  predicate IsLeapYear(y: nat) {
    (y % 4 == 0 && y % 100 != 0) || y % 400 == 0
  }

  function DaysInMonth(y: nat, m: nat): (n: nat)
    requires 1 <= m <= 12
    ensures 28 <= n <= 31
    ensures n == 31 <==> m in {1, 3, 5, 7, 8, 10, 12}
    ensures n == 30 <==> m in {4, 6, 9, 11}
    ensures m == 2 ==> (n == 29 <==> IsLeapYear(y))
  {
    if m == 2 then (if IsLeapYear(y) then 29 else 28)
    else if m in {4, 6, 9, 11} then 30
    else 31
  }

  /** The days a JavaScript `Date` can denote. */
  predicate ValidDate(d: Date) {
    1 <= d.month <= 12 && 1 <= d.day <= DaysInMonth(d.year, d.month)
  }

  /** `a < b` on two local midnights: strictly earlier in (year, month, day) order. */
  predicate Before(a: Date, b: Date) {
    a.year < b.year
    || (a.year == b.year && a.month < b.month)
    || (a.year == b.year && a.month == b.month && a.day < b.day)
  }

  lemma BeforeIsStrictTotalOrder(a: Date, b: Date, c: Date)
    ensures !Before(a, a)
    ensures Before(a, b) && Before(b, c) ==> Before(a, c)
    ensures a == b || Before(a, b) || Before(b, a)
    ensures !(Before(a, b) && Before(b, a))
  {
  }

  /** Month offsets of the Gregorian day-of-week formula, January first. */
  const MONTH_OFFSETS: seq<int> := [0, 3, 2, 5, 0, 3, 5, 1, 4, 6, 2, 4]

  /** The day count whose remainder modulo 7 is the weekday (January and February count in the previous year). */
  function WeekdayBase(d: Date): int
    requires 1 <= d.month <= 12
  {
    var y: int := if d.month < 3 then d.year - 1 else d.year;
    y + y / 4 - y / 100 + y / 400 + MONTH_OFFSETS[d.month - 1] + d.day
  }

  /** `getDay()`: 0 is Sunday, 1 Monday, ..., 6 Saturday. */
  function Weekday(d: Date): (w: nat)
    requires 1 <= d.month <= 12
    ensures w < 7
  {
    WeekdayBase(d) % 7
  }

  /** The following calendar day. */
  function NextDay(d: Date): (n: Date)
    requires ValidDate(d)
    ensures ValidDate(n) && Before(d, n)
    ensures n.day == 1 || (n.year == d.year && n.month == d.month && n.day == d.day + 1)
  {
    if d.day < DaysInMonth(d.year, d.month) then Date(d.year, d.month, d.day + 1)
    else if d.month < 12 then Date(d.year, d.month + 1, 1)
    else Date(d.year + 1, 1, 1)
  }

  /** No date lies strictly between a date and the day after it. */
  lemma NextDayIsNext(d: Date, x: Date)
    requires ValidDate(d) && ValidDate(x) && Before(d, x)
    ensures !Before(x, NextDay(d))
  {
    if d.day < DaysInMonth(d.year, d.month) {
      assert NextDay(d) == Date(d.year, d.month, d.day + 1);
    } else if d.month < 12 {
      assert NextDay(d) == Date(d.year, d.month + 1, 1);
    } else {
      assert NextDay(d) == Date(d.year + 1, 1, 1);
    }
  }

  /** The date `k` days after `d`. */
  function DaysAfter(d: Date, k: nat): (r: Date)
    requires ValidDate(d)
    ensures ValidDate(r)
    ensures k > 0 ==> Before(d, r)
    decreases k
  {
    if k == 0 then d
    else
      var n := DaysAfter(NextDay(d), k - 1);
      BeforeIsStrictTotalOrder(d, NextDay(d), n);
      n
  }

  /** Stepping a year back drops `y / k` by one exactly when `k` divides `y`. */
  lemma DivStep(y: int, k: int)
    requires k == 4 || k == 100 || k == 400
    ensures y / k - (y - 1) / k == if y % k == 0 then 1 else 0
  {
    if k == 4 {
      assert y / 4 - (y - 1) / 4 == if y % 4 == 0 then 1 else 0;
    } else if k == 100 {
      assert y / 100 - (y - 1) / 100 == if y % 100 == 0 then 1 else 0;
    } else {
      assert y / 400 - (y - 1) / 400 == if y % 400 == 0 then 1 else 0;
    }
  }

  lemma ModStep(a: int, b: int, k: int)
    requires b == a + 1 + 7 * k
    ensures b % 7 == (a % 7 + 1) % 7
  {
  }

  /** The weekday formula advances by one, modulo 7, from each day to the next. */
  lemma {:induction false} WeekdayNextDay(d: Date)
    requires ValidDate(d)
    ensures Weekday(NextDay(d)) == (Weekday(d) + 1) % 7
  {
    var n := NextDay(d);
    if d.day < DaysInMonth(d.year, d.month) {
      ModStep(WeekdayBase(d), WeekdayBase(n), 0);
    } else if d.month == 2 {
      EndOfFebruaryBase(d, n);
      ModStep(WeekdayBase(d), WeekdayBase(n), -4);
    } else if d.month < 12 {
      var k := if d.month in {4, 7, 10} then -5 else -4;
      EndOfMonthBase(d, n, k);
      ModStep(WeekdayBase(d), WeekdayBase(n), k);
    } else {
      EndOfYearBase(d, n);
      ModStep(WeekdayBase(d), WeekdayBase(n), -5);
    }
  }

  lemma EndOfFebruaryBase(d: Date, n: Date)
    requires ValidDate(d) && d.month == 2 && d.day == DaysInMonth(d.year, 2) && n == Date(d.year, 3, 1)
    ensures WeekdayBase(n) == WeekdayBase(d) + 1 - 28
  {
    LeapStep(d.year);
  }

  /** Across a year boundary the leap-day terms of the formula grow by one exactly in a leap year. */
  lemma LeapStep(y: nat)
    ensures (y / 4 - y / 100 + y / 400) - ((y - 1) / 4 - (y - 1) / 100 + (y - 1) / 400)
         == if IsLeapYear(y) then 1 else 0
  {
    var a, b, c := y / 4 - (y - 1) / 4, y / 100 - (y - 1) / 100, y / 400 - (y - 1) / 400;
    DivStep(y, 4);
    DivStep(y, 100);
    DivStep(y, 400);
    DivisorChain(y);
    assert a - b + c == if IsLeapYear(y) then 1 else 0;
  }

  /** A multiple of 400 is a multiple of 100, and a multiple of 100 is a multiple of 4. */
  lemma DivisorChain(y: nat)
    ensures y % 400 == 0 ==> y % 100 == 0
    ensures y % 100 == 0 ==> y % 4 == 0
  {
    if y % 400 == 0 {
      var t := y / 400;
      assert y == 100 * (4 * t);
    }
    if y % 100 == 0 {
      var t := y / 100;
      assert y == 4 * (25 * t);
    }
  }

  lemma EndOfMonthBase(d: Date, n: Date, k: int)
    requires ValidDate(d) && 2 != d.month < 12 && d.day == DaysInMonth(d.year, d.month) && n == Date(d.year, d.month + 1, 1)
    requires k == if d.month in {4, 7, 10} then -5 else -4
    ensures WeekdayBase(n) == WeekdayBase(d) + 1 + 7 * k
  {
  }

  lemma EndOfYearBase(d: Date, n: Date)
    requires ValidDate(d) && d.month == 12 && d.day == 31 && n == Date(d.year + 1, 1, 1)
    ensures WeekdayBase(n) == WeekdayBase(d) + 1 - 35
  {
  }

  /** The formula is anchored: 2 March 2026 was a Monday. */
  lemma WeekdayAnchor()
    ensures Weekday(Date(2026, 3, 2)) == 1
  {
  }

  /** `dateToDDMMYYYY`: two-digit day and month, then the year as written by `toString`. */
  function DateToDDMMYYYY(d: Date): string {
    Pad2(NatToString(d.day)) + "/" + Pad2(NatToString(d.month)) + "/" + NatToString(d.year)
  }

  /** Reads "DD/MM/AAAA" back: three '/'-separated non-empty numerals. */
  function ParseDDMMYYYY(s: string): Option<Date> {
    var parts := Split(s, '/');
    if |parts| != 3 then None
    else if !(AllDigits(parts[0]) && AllDigits(parts[1]) && AllDigits(parts[2])) then None
    else if parts[0] == [] || parts[1] == [] || parts[2] == [] then None
    else Some(Date(DigitsValue(parts[2]), DigitsValue(parts[1]), DigitsValue(parts[0])))
  }

  /** Every date reads back from its rendering, so distinct dates render differently. */
  lemma {:induction false} DateToDDMMYYYYRoundTrip(d: Date)
    ensures ParseDDMMYYYY(DateToDDMMYYYY(d)) == Some(d)
  {
    var dd, mm, yy := Pad2(NatToString(d.day)), Pad2(NatToString(d.month)), NatToString(d.year);
    Pad2Digits(NatToString(d.day));
    Pad2Digits(NatToString(d.month));
    DigitsValueOfNatToString(d.day);
    DigitsValueOfNatToString(d.month);
    DigitsValueOfNatToString(d.year);
    DigitsHaveNo(dd, '/');
    DigitsHaveNo(mm, '/');
    DigitsHaveNo(yy, '/');
    SplitThree(dd, mm, yy, '/');
    assert DateToDDMMYYYY(d) == dd + ['/'] + mm + ['/'] + yy;
  }

  lemma DateToDDMMYYYYInjective(a: Date, b: Date)
    requires DateToDDMMYYYY(a) == DateToDDMMYYYY(b)
    ensures a == b
  {
    DateToDDMMYYYYRoundTrip(a);
    DateToDDMMYYYYRoundTrip(b);
  }

  /** `HOLIDAYS_2026`, Colombian public holidays, as the code lists them. */
  const HOLIDAYS_2026: seq<string> := [
    "01/01/2026", "12/01/2026", "23/03/2026", "02/04/2026", "03/04/2026",
    "01/05/2026", "18/05/2026", "15/06/2026", "22/06/2026", "29/06/2026",
    "20/07/2026", "07/08/2026", "17/08/2026", "12/10/2026", "02/11/2026",
    "16/11/2026", "08/12/2026", "25/12/2026"
  ]

  /** The same holidays as calendar days. */
  const HOLIDAY_DATES: seq<Date> := [
    Date(2026, 1, 1), Date(2026, 1, 12), Date(2026, 3, 23), Date(2026, 4, 2), Date(2026, 4, 3),
    Date(2026, 5, 1), Date(2026, 5, 18), Date(2026, 6, 15), Date(2026, 6, 22), Date(2026, 6, 29),
    Date(2026, 7, 20), Date(2026, 8, 7), Date(2026, 8, 17), Date(2026, 10, 12), Date(2026, 11, 2),
    Date(2026, 11, 16), Date(2026, 12, 8), Date(2026, 12, 25)
  ]

  /** The string list is exactly the rendering of the day list. */
  lemma HolidayStrings()
    ensures |HOLIDAYS_2026| == |HOLIDAY_DATES|
    ensures forall i :: 0 <= i < |HOLIDAY_DATES| ==> DateToDDMMYYYY(HOLIDAY_DATES[i]) == HOLIDAYS_2026[i]
  {
    forall i | 0 <= i < |HOLIDAY_DATES|
      ensures DateToDDMMYYYY(HOLIDAY_DATES[i]) == HOLIDAYS_2026[i]
    {
      if i < 9 {
        EarlyHolidayString(i);
      } else {
        LateHolidayString(i);
      }
    }
  }

  lemma EarlyHolidayString(i: nat)
    requires i < 9
    ensures DateToDDMMYYYY(HOLIDAY_DATES[i]) == HOLIDAYS_2026[i]
  {
    var d := HOLIDAY_DATES[i];
    RenderIn2026(d.month, d.day);
  }

  lemma LateHolidayString(i: nat)
    requires 9 <= i < |HOLIDAY_DATES|
    ensures DateToDDMMYYYY(HOLIDAY_DATES[i]) == HOLIDAYS_2026[i]
  {
    var d := HOLIDAY_DATES[i];
    RenderIn2026(d.month, d.day);
  }

  lemma RenderIn2026(m: nat, d: nat)
    requires m < 100 && d < 100
    ensures DateToDDMMYYYY(Date(2026, m, d))
         == [DigitChar(d / 10), DigitChar(d % 10), '/', DigitChar(m / 10), DigitChar(m % 10), '/', '2', '0', '2', '6']
  {
    assert NatToString(2026) == "2026";
    Pad2OfSmallDigits(d);
    Pad2OfSmallDigits(m);
  }

  /** `HOLIDAYS_2026.includes(dateToDDMMYYYY(d))` holds exactly for the listed days. */
  lemma HolidayListMeaning(d: Date)
    ensures DateToDDMMYYYY(d) in HOLIDAYS_2026 <==> d in HOLIDAY_DATES
  {
    HolidayStrings();
    if DateToDDMMYYYY(d) in HOLIDAYS_2026 {
      var i :| 0 <= i < |HOLIDAYS_2026| && HOLIDAYS_2026[i] == DateToDDMMYYYY(d);
      DateToDDMMYYYYInjective(d, HOLIDAY_DATES[i]);
    }
  }

  /** Every listed holiday is a real day of 2026 that falls on a weekday. */
  lemma HolidaysAreWeekdays()
    ensures forall d :: d in HOLIDAY_DATES ==> ValidDate(d) && 1 <= Weekday(d) <= 5
  {
    forall i | 0 <= i < |HOLIDAY_DATES| ensures ValidDate(HOLIDAY_DATES[i]) && 1 <= Weekday(HOLIDAY_DATES[i]) <= 5 {
      var d := HOLIDAY_DATES[i];
      assert d.year == 2026 && 1 <= d.month <= 12;
      assert WeekdayBase(d) == (if d.month < 3 then 2516 else 2517) + MONTH_OFFSETS[d.month - 1] + d.day;
    }
  }

  /** `isDateDisabled`: Sunday, Saturday, a listed holiday, or a day before today. */
  function IsDateDisabled(date: Date, today: Date): (disabled: bool)
    requires 1 <= date.month <= 12
    ensures disabled <==> Weekday(date) == 0 || Weekday(date) == 6 || date in HOLIDAY_DATES || Before(date, today)
  {
    HolidayListMeaning(date);
    var day := Weekday(date);
    if day == 0 then true
    else if day == 6 then true
    else if DateToDDMMYYYY(date) in HOLIDAYS_2026 then true
    else if Before(date, today) then true
    else false
  }

  /** As the clock moves on, a disabled day stays disabled. */
  lemma IsDateDisabledMonotone(date: Date, today: Date, later: Date)
    requires 1 <= date.month <= 12
    requires !Before(later, today)
    ensures IsDateDisabled(date, today) ==> IsDateDisabled(date, later)
  {
  }

  const SANDRA_ID: string := "dra-sandra"
  const SANDRA_UNAVAILABLE_START: Date := Date(2026, 2, 19)
  const SANDRA_UNAVAILABLE_END: Date := Date(2026, 2, 25)

  /** `isDateDisabledForDoctor`: the general rule, plus Dra. Sandra's leave, both ends included. */
  function IsDateDisabledForDoctor(date: Date, doctorId: Option<string>, today: Date): (disabled: bool)
    requires 1 <= date.month <= 12
    ensures disabled <==> IsDateDisabled(date, today)
                          || (doctorId == Some(SANDRA_ID) && date.year == 2026 && date.month == 2 && 19 <= date.day <= 25)
  {
    if IsDateDisabled(date, today) then true
    else if doctorId == Some(SANDRA_ID) then
      !Before(date, SANDRA_UNAVAILABLE_START) && !Before(SANDRA_UNAVAILABLE_END, date)
    else false
  }

  /** For every doctor other than Dra. Sandra, the per-doctor rule is the general rule. */
  lemma OtherDoctorsFollowGeneralRule(date: Date, doctorId: Option<string>, today: Date)
    requires 1 <= date.month <= 12 && doctorId != Some(SANDRA_ID)
    ensures IsDateDisabledForDoctor(date, doctorId, today) == IsDateDisabled(date, today)
  {
  }
}
