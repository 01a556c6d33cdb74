/**
 * Clock-time helpers of src/lib/types.ts: "HH:MM" strings, minutes since
 * midnight, the 12-hour labels shown to patients and the hour normaliser
 * that repairs "9:00" as the spreadsheet returns it.
 */
module TimeUtil {
  import opened Wrappers
  import opened Text

  /** `hourToMinutes`: split at ':' and add `Number(h) * 60 + Number(m)`; NaN is None. */
  function HourToMinutes(hour: string): (r: Option<nat>)
    ensures r.Some? ==> |Split(hour, ':')| >= 2
  {
    var parts := Split(hour, ':');
    if |parts| < 2 then None
    else
      var h, m := JsNumber(parts[0]), JsNumber(parts[1]);
      if h.Some? && m.Some? then Some(h.value * 60 + m.value) else None
  }

  /** "HH:MM" read as hours and minutes: the value is HH * 60 + MM. */
  lemma {:induction false} HourToMinutesOfNumerals(h: string, m: string)
    requires AllDigits(h) && AllDigits(m)
    ensures HourToMinutes(h + ":" + m) == Some(DigitsValue(h) * 60 + DigitsValue(m))
  {
    DigitsHaveNo(h, ':');
    DigitsHaveNo(m, ':');
    SplitTwo(h, m, ':');
    var s := h + ":" + m;
    var parts := Split(s, ':');
    assert parts == [h, m];
    var hv, mv := JsNumber(parts[0]), JsNumber(parts[1]);
    assert hv == Some(DigitsValue(h));
    assert mv == Some(DigitsValue(m));
    assert HourToMinutes(s) == Some(hv.value * 60 + mv.value);
  }

  /** A five-character "HH:MM" string, as the slot grid and the booking requests use. */
  predicate IsHHMM(s: string) {
    |s| == 5 && s[2] == ':' && IsDigit(s[0]) && IsDigit(s[1]) && IsDigit(s[3]) && IsDigit(s[4])
  }

  lemma {:induction false} HourToMinutesOfHHMM(s: string)
    requires IsHHMM(s)
    ensures HourToMinutes(s)
         == Some((DigitValue(s[0]) * 10 + DigitValue(s[1])) * 60 + DigitValue(s[3]) * 10 + DigitValue(s[4]))
  {
    assert s == [s[0], s[1]] + ":" + [s[3], s[4]];
    DigitsValueTwo(s[0], s[1]);
    DigitsValueTwo(s[3], s[4]);
    HourToMinutesOfNumerals([s[0], s[1]], [s[3], s[4]]);
  }

  /** `minutesToHour`: zero-padded hours and minutes. */
  function MinutesToHour(minutes: nat): string {
    Pad2(NatToString(minutes / 60)) + ":" + Pad2(NatToString(minutes % 60))
  }

  /** Within one day the rendering is exactly five characters "HH:MM". */
  lemma {:induction false} MinutesToHourShape(n: nat)
    requires n < 1440
    ensures IsHHMM(MinutesToHour(n))
  {
    Pad2OfSmall(n / 60);
    Pad2OfSmall(n % 60);
    HHMMOf(Pad2(NatToString(n / 60)), Pad2(NatToString(n % 60)));
  }

  lemma {:induction false} HHMMOf(x: string, y: string)
    requires |x| == 2 && |y| == 2 && AllDigits(x) && AllDigits(y)
    ensures IsHHMM(x + ":" + y)
  {
  }

  /** Minutes survive the trip through "HH:MM" (for every natural, not only one day). */
  lemma {:induction false} MinutesToHourRoundTrip(n: nat)
    ensures HourToMinutes(MinutesToHour(n)) == Some(n)
  {
    var h, m := NatToString(n / 60), NatToString(n % 60);
    Pad2Digits(h);
    Pad2Digits(m);
    DigitsValueOfNatToString(n / 60);
    DigitsValueOfNatToString(n % 60);
    HourToMinutesOfNumerals(Pad2(h), Pad2(m));
  }

  /** And a well-formed "HH:MM" with MM below 60 survives the trip through minutes. */
  lemma {:induction false} HourToMinutesRoundTrip(s: string)
    requires IsHHMM(s) && DigitValue(s[3]) * 10 + DigitValue(s[4]) < 60
    ensures HourToMinutes(s).Some? && MinutesToHour(HourToMinutes(s).value) == s
  {
    HourToMinutesOfHHMM(s);
    var h := DigitValue(s[0]) * 10 + DigitValue(s[1]);
    var m := DigitValue(s[3]) * 10 + DigitValue(s[4]);
    MinutesToHourOfHHMM(s, h, m);
  }

  lemma {:induction false} MinutesToHourOfHHMM(s: string, h: nat, m: nat)
    requires IsHHMM(s) && m < 60
    requires h == DigitValue(s[0]) * 10 + DigitValue(s[1]) && m == DigitValue(s[3]) * 10 + DigitValue(s[4])
    ensures MinutesToHour(h * 60 + m) == s
  {
    MinutesToHourOf(h, m);
    Pad2OfTwoDigits(s[0], s[1], h);
    Pad2OfTwoDigits(s[3], s[4], m);
    HHMMParts(s, Pad2(NatToString(h)), Pad2(NatToString(m)));
  }

  lemma {:induction false} HHMMParts(s: string, x: string, y: string)
    requires IsHHMM(s) && x == [s[0], s[1]] && y == [s[3], s[4]]
    ensures x + ":" + y == s
  {
  }

  lemma {:induction false} MinutesToHourOf(h: nat, m: nat)
    requires m < 60
    ensures MinutesToHour(h * 60 + m) == Pad2(NatToString(h)) + ":" + Pad2(NatToString(m))
  {
    DivMod60(h, m);
  }

  lemma {:induction false} DivMod60(h: nat, m: nat)
    requires m < 60
    ensures (h * 60 + m) / 60 == h && (h * 60 + m) % 60 == m
  {
  }

  /** "AM" or "PM" for a 24-hour clock hour. */
  function Meridiem(h24: nat): string {
    if h24 >= 12 then "PM" else "AM"
  }

  /** The 12-hour clock hour: 13..23 lose 12, 0 becomes 12, the rest stay. */
  function Clock12(h24: nat): (h12: nat)
    ensures h24 < 24 ==> 1 <= h12 <= 12 && h12 % 12 == h24 % 12
  {
    if h24 > 12 then h24 - 12 else if h24 == 0 then 12 else h24
  }

  /** `minutesToLabel`: "8:00 AM", "2:30 PM", "12:00 PM". */
  function MinutesToLabel(minutes: nat): string {
    var h24 := minutes / 60;
    NatToString(Clock12(h24)) + ":" + Pad2(NatToString(minutes % 60)) + " " + Meridiem(h24)
  }

  /** The label of `h * 60 + m`, spelled out by its hour and minute parts. */
  lemma {:induction false} MinutesToLabelOf(h: nat, m: nat)
    requires m < 60
    ensures MinutesToLabel(h * 60 + m) == NatToString(Clock12(h)) + ":" + Pad2(NatToString(m)) + " " + Meridiem(h)
  {
    DivMod60(h, m);
  }

  lemma {:induction false} Split60(n: nat)
    ensures n == (n / 60) * 60 + n % 60 && n % 60 < 60
  {
  }

  /** The label ends in "PM" exactly for afternoon hours, and its minutes have two digits. */
  lemma {:induction false} MinutesToLabelShape(n: nat)
    ensures var r := MinutesToLabel(n);
      |r| >= 7 && r[|r| - 2..] == Meridiem(n / 60) && (r[|r| - 2..] == "PM" <==> n / 60 >= 12)
      && r[|r| - 3] == ' ' && IsDigit(r[|r| - 5]) && IsDigit(r[|r| - 4]) && r[|r| - 6] == ':'
  {
    var h, m := n / 60, n % 60;
    Split60(n);
    MinutesToLabelOf(h, m);
    Pad2OfSmall(m);
    LabelShape(NatToString(Clock12(h)), Pad2(NatToString(m)), Meridiem(h));
  }

  lemma {:induction false} LabelShape(hs: string, mm: string, ap: string)
    requires |hs| >= 1 && |mm| == 2 && AllDigits(mm) && |ap| == 2
    ensures var r := hs + ":" + mm + " " + ap;
      |r| >= 7 && r[|r| - 2..] == ap && r[|r| - 3] == ' ' && IsDigit(r[|r| - 5]) && IsDigit(r[|r| - 4]) && r[|r| - 6] == ':'
  {
  }

  /** Reads a 12-hour label back into minutes since midnight (the inverse of MinutesToLabel). */
  function ParseLabel(s: string): Option<nat> {
    var parts := Split(s, ':');
    if |parts| != 2 then None
    else
      var hs, rest := parts[0], parts[1];
      if !(AllDigits(hs) && |rest| == 5 && IsDigit(rest[0]) && IsDigit(rest[1]) && rest[2] == ' '
           && (rest[3..] == "AM" || rest[3..] == "PM"))
      then None
      else
        var h12 := DigitsValue(hs);
        var m := DigitValue(rest[0]) * 10 + DigitValue(rest[1]);
        if !(1 <= h12 <= 12) || m >= 60 then None
        else
          var h24 := if rest[3..] == "AM" then (if h12 == 12 then 0 else h12)
                     else (if h12 == 12 then 12 else h12 + 12);
          Some(h24 * 60 + m)
  }

  /** Every time of day has a label that reads back to it: labels are unambiguous and exact. */
  lemma {:induction false} MinutesToLabelRoundTrip(n: nat)
    requires n < 1440
    ensures ParseLabel(MinutesToLabel(n)) == Some(n)
  {
    Split60(n);
    MinutesToLabelOf(n / 60, n % 60);
    LabelRoundTrip(n / 60, n % 60);
  }

  lemma {:induction false} LabelRoundTrip(h: nat, m: nat)
    requires h < 24 && m < 60
    ensures ParseLabel(NatToString(Clock12(h)) + ":" + Pad2(NatToString(m)) + " " + Meridiem(h)) == Some(h * 60 + m)
  {
    var hs := NatToString(Clock12(h));
    var mm := Pad2(NatToString(m));
    Pad2OfSmall(m);
    DigitsHaveNo(hs, ':');
    DigitsHaveNo(mm, ':');
    DigitsValueOfNatToString(Clock12(h));
    DigitsValueTwo(mm[0], mm[1]);
    assert mm == [mm[0], mm[1]];
    LabelSplit(hs, mm, Meridiem(h));
    ParseLabelOfParts(hs + ":" + mm + " " + Meridiem(h), hs, mm + " " + Meridiem(h), h, m);
  }

  /** A label is cut at its one ':' into the hour and the rest. */
  lemma LabelSplit(hs: string, mm: string, ap: string)
    requires ':' !in hs && ':' !in mm && (ap == "AM" || ap == "PM")
    ensures Split(hs + ":" + mm + " " + ap, ':') == [hs, mm + " " + ap]
  {
    var rest := mm + " " + ap;
    assert ':' !in rest;
    SplitTwo(hs, rest, ':');
    assert hs + ":" + mm + " " + ap == hs + [':'] + rest;
  }

  /** Reading a label from its two parts. */
  lemma ParseLabelOfParts(s: string, hs: string, rest: string, h: nat, m: nat)
    requires h < 24 && m < 60 && Split(s, ':') == [hs, rest]
    requires AllDigits(hs) && DigitsValue(hs) == Clock12(h)
    requires |rest| == 5 && IsDigit(rest[0]) && IsDigit(rest[1]) && rest[2] == ' ' && rest[3..] == Meridiem(h)
    requires DigitValue(rest[0]) * 10 + DigitValue(rest[1]) == m
    ensures ParseLabel(s) == Some(h * 60 + m)
  {
  }

  /** `normalizeHour`: pad the hour part; a string without ':' gets the literal minutes "undefined". */
  function NormalizeHour(hora: string): string {
    var parts := Split(hora, ':');
    Pad2(parts[0]) + ":" + (if |parts| >= 2 then parts[1] else "undefined")
  }

  /** For "h:m" the hour is padded to two characters and the minutes are kept as they are. */
  lemma {:induction false} NormalizeHourOf(h: string, m: string)
    requires ':' !in h && ':' !in m
    ensures NormalizeHour(h + ":" + m) == Pad2(h) + ":" + m
  {
    SplitTwo(h, m, ':');
  }

  /** Normalising twice is normalising once. */
  lemma {:induction false} NormalizeHourIdempotent(hora: string)
    ensures NormalizeHour(NormalizeHour(hora)) == NormalizeHour(hora)
  {
    var parts := Split(hora, ':');
    var m := if |parts| >= 2 then parts[1] else "undefined";
    SplitPartsAvoid(hora, ':', 0);
    if |parts| >= 2 {
      SplitPartsAvoid(hora, ':', 1);
    }
    Pad2Avoids(parts[0], ':');
    assert ':' !in m;
    NormalizeHourOf(Pad2(parts[0]), m);
    Pad2Idempotent(parts[0]);
  }

  /** A canonical "HH:MM" string is already normal. */
  lemma {:induction false} NormalizeHourOfHHMM(s: string)
    requires IsHHMM(s)
    ensures NormalizeHour(s) == s
  {
    assert s == [s[0], s[1]] + ":" + [s[3], s[4]];
    NormalizeHourOf([s[0], s[1]], [s[3], s[4]]);
  }
}
