/**
 * `buildDateTime` of backend/server.js: the calendar event's start and end
 * timestamps, "AAAA-MM-DDTHH:MM:00-05:00", built from the booking's
 * "DD/MM/AAAA" date and "HH:MM" hour plus a number of extra minutes.
 *
 * The JavaScript `Date` is modelled as a calendar date and a minute of the
 * day; `setMinutes` carries whole days into the calendar with `NextDay`.
 */
module EventTime {
  import opened Wrappers
  import opened Text
  import opened TimeUtil
  import opened Calendar
  import opened Catalog

  /** A local date-time: a calendar date and the minute of that day. */
  datatype Stamp = Stamp(date: Date, minute: nat)

  predicate ValidStamp(s: Stamp) {
    ValidDate(s.date) && s.minute < 1440
  }

  /** Strictly earlier in time. */
  predicate StampBefore(a: Stamp, b: Stamp) {
    Before(a.date, b.date) || (a.date == b.date && a.minute < b.minute)
  }

  /**
   * `date.setMinutes(date.getMinutes() + extra)`: minutes past midnight roll
   * over into the following days.
   */
  function AddMinutes(s: Stamp, extra: nat): (r: Stamp)
    requires ValidStamp(s)
    ensures ValidStamp(r)
    ensures r.minute == (s.minute + extra) % 1440
    ensures extra > 0 ==> StampBefore(s, r)
    ensures r.date == s.date <==> s.minute + extra < 1440
    decreases s.minute + extra
  {
    if s.minute + extra < 1440 then Stamp(s.date, s.minute + extra)
    else AddMinutes(Stamp(NextDay(s.date), 0), s.minute + extra - 1440)
  }

  /** Adding minutes in two steps is adding their sum. */
  lemma {:induction false} AddMinutesAdditive(s: Stamp, a: nat, b: nat)
    requires ValidStamp(s)
    ensures AddMinutes(AddMinutes(s, a), b) == AddMinutes(s, a + b)
    decreases s.minute + a
  {
    if s.minute + a >= 1440 {
      AddMinutesAdditive(Stamp(NextDay(s.date), 0), s.minute + a - 1440, b);
    }
  }

  /** Crossing one midnight lands on the next day with the minutes left over. */
  lemma AddMinutesNextDay(s: Stamp, extra: nat)
    requires ValidStamp(s) && 1440 <= s.minute + extra < 2880
    ensures AddMinutes(s, extra) == Stamp(NextDay(s.date), s.minute + extra - 1440)
  {
    assert AddMinutes(s, extra) == AddMinutes(Stamp(NextDay(s.date), 0), s.minute + extra - 1440);
  }

  /**
   * In general the result lies as many days later as whole days fit in the
   * minutes, at the minute left over.
   */
  lemma {:induction false} AddMinutesDays(s: Stamp, extra: nat)
    requires ValidStamp(s)
    ensures AddMinutes(s, extra) == Stamp(DaysAfter(s.date, (s.minute + extra) / 1440), (s.minute + extra) % 1440)
    decreases s.minute + extra
  {
    var t := s.minute + extra;
    if t >= 1440 {
      AddMinutesDays(Stamp(NextDay(s.date), 0), t - 1440);
      assert (t - 1440) / 1440 == t / 1440 - 1;
      assert (t - 1440) % 1440 == t % 1440;
    }
  }

  /**
   * The fields `buildDateTime` reads: the first three `/`-separated numbers of
   * the date (day, month, year) and the first two `:`-separated numbers of the
   * hour. Anything that is not a real date and clock time is None.
   */
  function ParseRequest(fecha: string, hora: string): (r: Option<Stamp>)
    ensures r.Some? ==> ValidStamp(r.value)
  {
    var d, t := Split(fecha, '/'), Split(hora, ':');
    if |d| < 3 || |t| < 2 then None
    else
      var dia, mes, anio := JsNumber(d[0]), JsNumber(d[1]), JsNumber(d[2]);
      var h, m := JsNumber(t[0]), JsNumber(t[1]);
      if dia.None? || mes.None? || anio.None? || h.None? || m.None? then None
      else
        var date := Date(anio.value, mes.value, dia.value);
        if ValidDate(date) && h.value < 24 && m.value < 60 then Some(Stamp(date, DayMinute(h.value, m.value)))
        else None
  }

  function DayMinute(h: nat, m: nat): (n: nat)
    requires h < 24 && m < 60
    ensures n < 1440 && n / 60 == h && n % 60 == m
  {
    DivMod60(h, m);
    h * 60 + m
  }

  /** The formatted timestamp with the given year and month fields and the stamp's day and time. */
  function Iso(year: nat, month: nat, s: Stamp): string {
    NatToString(year) + "-" + Pad2(NatToString(month)) + "-" + Pad2(NatToString(s.date.day))
      + "T" + MinutesToHour(s.minute) + ":00-05:00"
  }

  /** `buildDateTime` as written: year and month come from the request, day and time from the shifted date. */
  function BuildDateTimeAsWritten(fecha: string, hora: string, extra: nat): Option<string> {
    match ParseRequest(fecha, hora)
    case None => None
    case Some(s) => Some(Iso(s.date.year, s.date.month, AddMinutes(s, extra)))
  }

  /**
   * `buildDateTime` as intended: every field comes from the shifted date, so
   * the printed timestamp reads back as the requested time plus `extra`
   * minutes.
   */
  function BuildDateTime(fecha: string, hora: string, extra: nat): (r: Option<string>)
    ensures r.Some? <==> ParseRequest(fecha, hora).Some?
    ensures r.Some? ==> ParseIso(r.value) == Some(AddMinutes(ParseRequest(fecha, hora).value, extra))
  {
    match ParseRequest(fecha, hora)
    case None => None
    case Some(s) =>
      var e := AddMinutes(s, extra);
      IsoReadsBack(e);
      Some(Iso(e.date.year, e.date.month, e))
  }

  /** Reads "AAAA-MM-DDTHH:MM:00-05:00" back as a date and a minute of the day; anything else is None. */
  function ParseIso(text: string): Option<Stamp> {
    var p := Split(text, '-');
    if |p| != 4 || p[3] != "05:00" then None
    else
      var q := Split(p[2], 'T');
      if |q| != 2 then None
      else
        var t := Split(q[1], ':');
        if |t| != 3 || t[2] != "00" then None
        else
          var y, mo, d, h, mi := JsNumber(p[0]), JsNumber(p[1]), JsNumber(q[0]), JsNumber(t[0]), JsNumber(t[1]);
          if y.None? || mo.None? || d.None? || h.None? || mi.None? then None
          else
            var date := Date(y.value, mo.value, d.value);
            if ValidDate(date) && h.value < 24 && mi.value < 60 then Some(Stamp(date, DayMinute(h.value, mi.value)))
            else None
  }

  /** A timestamp printed with the stamp's own year and month reads back as that stamp. */
  lemma IsoReadsBack(s: Stamp)
    requires ValidStamp(s)
    ensures ParseIso(Iso(s.date.year, s.date.month, s)) == Some(s)
  {
    var h, m := s.minute / 60, s.minute % 60;
    Split60(s.minute);
    var ys, ms, ds := NatToString(s.date.year), Pad2(NatToString(s.date.month)), Pad2(NatToString(s.date.day));
    var hs, mis := Pad2(NatToString(h)), Pad2(NatToString(m));
    DigitsValueOfNatToString(s.date.year);
    PaddedField(s.date.month);
    PaddedField(s.date.day);
    PaddedField(h);
    PaddedField(m);
    MinutesToHourOf(h, m);
    IsoOf(s.date.year, s.date.month, s, ys, ms, ds, hs + ":" + mis);
    IsoLayout(ys, ms, ds, hs, mis);
    ParseIsoOfFields(ys, ms, ds, hs, mis);
  }

  /** The timestamp, cut at its separators. */
  lemma IsoLayout(ys: string, ms: string, ds: string, hs: string, mis: string)
    ensures ys + "-" + ms + "-" + ds + "T" + (hs + ":" + mis) + ":00-05:00"
         == ys + ['-'] + (ms + ['-'] + (ds + ['T'] + (hs + [':'] + mis + [':'] + "00")) + ['-'] + "05:00")
  {
  }

  /** Reading back a timestamp whose fields are digit strings. */
  lemma ParseIsoOfFields(ys: string, ms: string, ds: string, hs: string, mis: string)
    requires AllDigits(ys) && AllDigits(ms) && AllDigits(ds) && AllDigits(hs) && AllDigits(mis)
    requires ValidDate(Date(DigitsValue(ys), DigitsValue(ms), DigitsValue(ds)))
    requires DigitsValue(hs) < 24 && DigitsValue(mis) < 60
    ensures ParseIso(ys + ['-'] + (ms + ['-'] + (ds + ['T'] + (hs + [':'] + mis + [':'] + "00")) + ['-'] + "05:00"))
         == Some(Stamp(Date(DigitsValue(ys), DigitsValue(ms), DigitsValue(ds)), DayMinute(DigitsValue(hs), DigitsValue(mis))))
  {
    var clock := hs + [':'] + mis + [':'] + "00";
    var a := ds + ['T'] + clock;
    IsoSplits(ys, ms, ds, hs, mis);
    ParseIsoOfSplits(ys + ['-'] + (ms + ['-'] + a + ['-'] + "05:00"), ys, ms, ds, hs, mis);
  }

  /** The three splits `ParseIso` performs cut a timestamp into its fields. */
  lemma IsoSplits(ys: string, ms: string, ds: string, hs: string, mis: string)
    requires AllDigits(ys) && AllDigits(ms) && AllDigits(ds) && AllDigits(hs) && AllDigits(mis)
    ensures var clock := hs + [':'] + mis + [':'] + "00";
      var a := ds + ['T'] + clock;
      Split(ys + ['-'] + (ms + ['-'] + a + ['-'] + "05:00"), '-') == [ys, ms, a, "05:00"]
      && Split(a, 'T') == [ds, clock] && Split(clock, ':') == [hs, mis, "00"]
  {
    var clock := hs + [':'] + mis + [':'] + "00";
    var a := ds + ['T'] + clock;
    DigitsHaveNo(ys, '-');
    DigitsHaveNo(ms, '-');
    DigitsHaveNo(ds, '-');
    DigitsHaveNo(hs, '-');
    DigitsHaveNo(mis, '-');
    DigitsHaveNo(ds, 'T');
    DigitsHaveNo(hs, 'T');
    DigitsHaveNo(mis, 'T');
    DigitsHaveNo(hs, ':');
    DigitsHaveNo(mis, ':');
    assert '-' !in clock && '-' !in a && 'T' !in clock;
    SplitCons(ys, '-', ms + ['-'] + a + ['-'] + "05:00");
    SplitThree(ms, a, "05:00", '-');
    SplitTwo(ds, clock, 'T');
    SplitThree(hs, mis, "00", ':');
  }

  lemma ParseIsoOfSplits(text: string, ys: string, ms: string, ds: string, hs: string, mis: string)
    requires AllDigits(ys) && AllDigits(ms) && AllDigits(ds) && AllDigits(hs) && AllDigits(mis)
    requires ValidDate(Date(DigitsValue(ys), DigitsValue(ms), DigitsValue(ds)))
    requires DigitsValue(hs) < 24 && DigitsValue(mis) < 60
    requires var clock := hs + [':'] + mis + [':'] + "00";
      var a := ds + ['T'] + clock;
      Split(text, '-') == [ys, ms, a, "05:00"] && Split(a, 'T') == [ds, clock] && Split(clock, ':') == [hs, mis, "00"]
    ensures ParseIso(text)
         == Some(Stamp(Date(DigitsValue(ys), DigitsValue(ms), DigitsValue(ds)), DayMinute(DigitsValue(hs), DigitsValue(mis))))
  {
  }

  /** A padded numeric field reads back as its number. */
  lemma PaddedField(n: nat)
    ensures AllDigits(Pad2(NatToString(n))) && DigitsValue(Pad2(NatToString(n))) == n
  {
    DigitsValueOfNatToString(n);
    Pad2Digits(NatToString(n));
  }

  /** The stamp a booking's rendered date and hour stand for is read back exactly. */
  lemma ParseRequestOfRendering(d: Date, t: nat)
    requires ValidDate(d) && t < 1440
    ensures ParseRequest(DateToDDMMYYYY(d), MinutesToHour(t)) == Some(Stamp(d, t))
  {
    DateToDDMMYYYYRoundTrip(d);
    var h, m := NatToString(t / 60), NatToString(t % 60);
    Pad2Digits(h);
    Pad2Digits(m);
    DigitsValueOfNatToString(t / 60);
    DigitsValueOfNatToString(t % 60);
    DigitsHaveNo(Pad2(h), ':');
    DigitsHaveNo(Pad2(m), ':');
    SplitTwo(Pad2(h), Pad2(m), ':');
    assert MinutesToHour(t) == Pad2(h) + [':'] + Pad2(m);
    assert DayMinute(t / 60, t % 60) == t;
  }

  /** The start timestamp is the booking's own date and time. */
  lemma StartIsTheBooking(d: Date, t: nat)
    requires ValidDate(d) && t < 1440
    ensures BuildDateTimeAsWritten(DateToDDMMYYYY(d), MinutesToHour(t), 0) == Some(Iso(d.year, d.month, Stamp(d, t)))
    ensures BuildDateTime(DateToDDMMYYYY(d), MinutesToHour(t), 0) == Some(Iso(d.year, d.month, Stamp(d, t)))
  {
    ParseRequestOfRendering(d, t);
  }

  /** Shifting `s` by `extra` minutes stays within its month and year. */
  predicate SameMonth(s: Stamp, extra: nat)
    requires ValidStamp(s)
  {
    var e := AddMinutes(s, extra);
    e.date.month == s.date.month && e.date.year == s.date.year
  }

  /** Adding no minutes leaves the time where it is. */
  lemma AddNoMinutes(s: Stamp)
    requires ValidStamp(s)
    ensures AddMinutes(s, 0) == s && SameMonth(s, 0)
  {
  }

  /** As long as the shift stays within the month, both versions print the same timestamp. */
  lemma AsWrittenAgreesWithinMonth(fecha: string, hora: string, extra: nat)
    requires ParseRequest(fecha, hora).Some?
    requires SameMonth(ParseRequest(fecha, hora).value, extra)
    ensures BuildDateTimeAsWritten(fecha, hora, extra) == BuildDateTime(fecha, hora, extra)
  {
  }

  /**
   * Every slot of the grid ends, one hour later, on the same day: the one-hour
   * calendar event of any offered slot never crosses midnight, so the two
   * versions agree on it.
   */
  lemma GridEventsStayInDay(d: Date, p: Period, i: nat)
    requires ValidDate(d) && i < |SlotsOf(p)|
    ensures var s := Stamp(d, GridStart(p, i));
      ParseRequest(DateToDDMMYYYY(d), SlotsOf(p)[i].hour) == Some(s)
      && AddMinutes(s, 60) == Stamp(d, GridStart(p, i) + 60)
      && BuildDateTimeAsWritten(DateToDDMMYYYY(d), SlotsOf(p)[i].hour, 60)
         == BuildDateTime(DateToDDMMYYYY(d), SlotsOf(p)[i].hour, 60)
  {
    SlotGridRendering(p, i);
    SlotGrid(p, i);
    ParseRequestOfRendering(d, GridStart(p, i));
  }

  lemma MinutesToHourOfDigits(h: nat, m: nat, s: string)
    requires h < 24 && m < 60
    requires s == [DigitChar(h / 10), DigitChar(h % 10), ':', DigitChar(m / 10), DigitChar(m % 10)]
    ensures MinutesToHour(h * 60 + m) == s
  {
    MinutesToHourOf(h, m);
    Pad2OfSmallDigits(h);
    Pad2OfSmallDigits(m);
  }

  /**
   * The discrepancy: a 23:30 booking on 31 January 2026 ends at 00:30 on
   * 1 February, but the month and year are copied from the start, so the end
   * is printed as 1 January.
   */
  lemma MonthRolloverAsWritten()
    ensures BuildDateTimeAsWritten("31/01/2026", "23:30", 60) == Some("2026-01-01T00:30:00-05:00")
    ensures BuildDateTime("31/01/2026", "23:30", 60) == Some("2026-02-01T00:30:00-05:00")
  {
    LateJanuaryBooking();
    BuildDateTimeOfParsed("31/01/2026", "23:30", 60, Stamp(Date(2026, 1, 31), 1410));
    FebruaryFirstRenderings();
  }

  /**
   * Read back, the end time as written is 00:30 on 1 January 2026, a month
   * before the instant an hour after the start.
   */
  lemma AsWrittenEndIsAnotherInstant()
    ensures BuildDateTimeAsWritten("31/01/2026", "23:30", 60).Some?
    ensures ParseIso(BuildDateTimeAsWritten("31/01/2026", "23:30", 60).value) == Some(Stamp(Date(2026, 1, 1), 30))
    ensures AddMinutes(ParseRequest("31/01/2026", "23:30").value, 60) == Stamp(Date(2026, 2, 1), 30)
  {
    LateJanuaryBooking();
    BuildDateTimeOfParsed("31/01/2026", "23:30", 60, Stamp(Date(2026, 1, 31), 1410));
    assert Iso(2026, 1, Stamp(Date(2026, 2, 1), 30)) == Iso(2026, 1, Stamp(Date(2026, 1, 1), 30));
    IsoReadsBack(Stamp(Date(2026, 1, 1), 30));
  }

  /** 00:30 on 1 February 2026, printed with January's and with February's month field. */
  lemma FebruaryFirstRenderings()
    ensures Iso(2026, 1, Stamp(Date(2026, 2, 1), 30)) == "2026-01-01T00:30:00-05:00"
    ensures Iso(2026, 2, Stamp(Date(2026, 2, 1), 30)) == "2026-02-01T00:30:00-05:00"
  {
    IsoFebruaryFirst(1, "2026-01-01T00:30:00-05:00");
    IsoFebruaryFirst(2, "2026-02-01T00:30:00-05:00");
  }

  /** Both versions format the parsed request shifted by `extra`; they differ only in the year and month fields. */
  lemma BuildDateTimeOfParsed(fecha: string, hora: string, extra: nat, s: Stamp)
    requires ParseRequest(fecha, hora) == Some(s)
    ensures var e := AddMinutes(s, extra);
      BuildDateTimeAsWritten(fecha, hora, extra) == Some(Iso(s.date.year, s.date.month, e))
      && BuildDateTime(fecha, hora, extra) == Some(Iso(e.date.year, e.date.month, e))
  {
  }

  /** 23:30 on 31 January 2026 plus an hour is 00:30 on 1 February. */
  lemma LateJanuaryBooking()
    ensures ParseRequest("31/01/2026", "23:30") == Some(Stamp(Date(2026, 1, 31), 1410))
    ensures AddMinutes(Stamp(Date(2026, 1, 31), 1410), 60) == Stamp(Date(2026, 2, 1), 30)
  {
    var d := Date(2026, 1, 31);
    RenderIn2026(1, 31);
    assert DateToDDMMYYYY(d) == "31/01/2026";
    MinutesToHourOfDigits(23, 30, "23:30");
    ParseRequestOfRendering(d, 1410);
    assert NextDay(d) == Date(2026, 2, 1);
  }

  lemma IsoFebruaryFirst(month: nat, expected: string)
    requires month < 10 && expected == "2026-" + ['0', DigitChar(month)] + "-01T00:30:00-05:00"
    ensures Iso(2026, month, Stamp(Date(2026, 2, 1), 30)) == expected
  {
    var mm := ['0', DigitChar(month)];
    FebruaryFirstFields(month, mm);
    IsoOf(2026, month, Stamp(Date(2026, 2, 1), 30), "2026", mm, "01", "00:30");
    assert "2026" + "-" + mm + "-" + "01" + "T" + "00:30" + ":00-05:00" == expected;
  }

  lemma FebruaryFirstFields(month: nat, mm: string)
    requires month < 10 && mm == ['0', DigitChar(month)]
    ensures MinutesToHour(30) == "00:30" && NatToString(2026) == "2026"
    ensures Pad2(NatToString(month)) == mm && Pad2(NatToString(1)) == "01"
  {
    MinutesToHourOfDigits(0, 30, "00:30");
    Pad2OfSmallDigits(month);
    Pad2OfSmallDigits(1);
  }

  /** The timestamp is the concatenation of its rendered fields. */
  lemma IsoOf(year: nat, month: nat, s: Stamp, ys: string, ms: string, ds: string, hs: string)
    requires NatToString(year) == ys && Pad2(NatToString(month)) == ms
    requires Pad2(NatToString(s.date.day)) == ds && MinutesToHour(s.minute) == hs
    ensures Iso(year, month, s) == ys + "-" + ms + "-" + ds + "T" + hs + ":00-05:00"
  {
  }
}
