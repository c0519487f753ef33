/** The two timestamp layouts that the station files use, read the way
    `datetime.strptime(s, "%d.%m.%Y %H:%M:%S")` and
    `datetime.strptime(s, "%d.%m.%Y %H:%M")` read them, keeping only the
    calendar date (`.date()`). */
module Timestamps {
  import opened Wrappers
  import opened Text

  datatype Date = Date(year: int, month: int, day: int)

  predicate IsLeapYear(y: int) {
    y % 4 == 0 && (y % 100 != 0 || y % 400 == 0)
  }

  function DaysInMonth(y: int, m: int): int
    requires 1 <= m <= 12
  {
    if m == 2 then (if IsLeapYear(y) then 29 else 28)
    else if m in {4, 6, 9, 11} then 30
    else 31
  }

  /** The dates that `datetime.date` can hold (years 1 to 9999). */
  predicate ValidDate(d: Date) {
    1 <= d.year <= 9999 && 1 <= d.month <= 12 && 1 <= d.day <= DaysInMonth(d.year, d.month)
  }

  /** A field of one or two digits whose value lies in `lo..hi`, and the
      text after it. The regular expressions that `strptime` uses for `%d`,
      `%m`, `%H`, `%M` and `%S` accept exactly these (`%S` also accepts 60
      and 61, which `datetime` then rejects). */
  function Field(s: string, lo: int, hi: int): (r: Option<(int, string)>)
    ensures r.Some? ==> lo <= r.value.0 <= hi && |r.value.1| < |s|
  {
    var n := DigitRun(s);
    if 1 <= n <= 2 && lo <= DigitsValue(s[..n]) <= hi then Some((DigitsValue(s[..n]), s[n..]))
    else None
  }

  /** `%Y`: exactly four digits. */
  function YearField(s: string): Option<(int, string)> {
    if DigitRun(s) == 4 then Some((DigitsValue(s[..4]), s[4..])) else None
  }

  /** The separator `c`, and the text after it. */
  function Literal(s: string, c: char): Option<string> {
    if |s| > 0 && s[0] == c then Some(s[1..]) else None
  }

  /** One or more whitespace characters (the blank in the format). */
  function Blanks(s: string): Option<string> {
    var n := SpaceRun(s);
    if n >= 1 then Some(s[n..]) else None
  }

  /** `%d.%m.`: the day, the month and the text after them. */
  function DayMonth(s: string): Option<(int, int, string)> {
    var day :- Field(s, 1, 31);
    var s1 :- Literal(day.1, '.');
    var month :- Field(s1, 1, 12);
    var s2 :- Literal(month.1, '.');
    Some((day.0, month.0, s2))
  }

  /** `%d.%m.%Y` followed by the blank: the date and the text after it. */
  function DatePart(s: string): Option<(Date, string)> {
    var dayMonth :- DayMonth(s);
    var year :- YearField(dayMonth.2);
    var rest :- Blanks(year.1);
    Some((Date(year.0, dayMonth.1, dayMonth.0), rest))
  }

  /** `%H:%M:%S` (or `%H:%M`): the text after the time. */
  function Clock(s: string, withSeconds: bool): Option<string> {
    var hour :- Field(s, 0, 23);
    var s1 :- Literal(hour.1, ':');
    var minute :- Field(s1, 0, 59);
    if !withSeconds then Some(minute.1)
    else
      var s2 :- Literal(minute.1, ':');
      var second :- Field(s2, 0, 59);
      Some(second.1)
  }

  /** The time of day and nothing after it. */
  predicate IsClock(s: string, withSeconds: bool) {
    Clock(s, withSeconds) == Some([])
  }

  /** `strptime` with one of the two layouts: the whole text must match, the
      time must be a valid time of day and the date a valid date. */
  function ParseLayout(s: string, withSeconds: bool): (r: Option<Date>)
    ensures r.Some? ==> ValidDate(r.value)
  {
    var date :- DatePart(s);
    if IsClock(date.1, withSeconds) && ValidDate(date.0) then Some(date.0) else None
  }

  /** The date field of a row: the long layout first, then the short one;
      `None` when neither matches. */
  function ParseStamp(s: string): (r: Option<Date>)
    ensures r.Some? ==> ValidDate(r.value)
  {
    match ParseLayout(s, true)
    case Some(d) => Some(d)
    case None => ParseLayout(s, false)
  }

  /** `dd.mm.yyyy`, with leading zeros. */
  function DateText(d: Date): string
    requires ValidDate(d)
  {
    PadDigits(d.day, 2) + "." + PadDigits(d.month, 2) + "." + PadDigits(d.year, 4)
  }

  /** `hh:mm:ss`, or `hh:mm` without seconds. */
  function ClockText(hour: nat, minute: nat, second: nat, withSeconds: bool): string
    requires hour < 24 && minute < 60 && second < 60
  {
    PadDigits(hour, 2) + ":" + PadDigits(minute, 2) + (if withSeconds then ":" + PadDigits(second, 2) else "")
  }

  /** The way the station files write a timestamp: `dd.mm.yyyy hh:mm:ss`,
      or `dd.mm.yyyy hh:mm` without seconds. */
  function FormatStamp(d: Date, hour: nat, minute: nat, second: nat, withSeconds: bool): string
    requires ValidDate(d) && hour < 24 && minute < 60 && second < 60
  {
    DateText(d) + " " + ClockText(hour, minute, second, withSeconds)
  }

  lemma FieldOf(digits: string, rest: string, lo: int, hi: int)
    requires |digits| == 2 && AllDigits(digits) && lo <= DigitsValue(digits) <= hi
    requires rest == [] || !IsDigit(rest[0])
    ensures Field(digits + rest, lo, hi) == Some((DigitsValue(digits), rest))
  {
    DigitRunOf(digits, rest);
    assert (digits + rest)[..2] == digits;
    assert (digits + rest)[2..] == rest;
  }

  lemma YearFieldOf(digits: string, rest: string)
    requires |digits| == 4 && AllDigits(digits)
    requires rest == [] || !IsDigit(rest[0])
    ensures YearField(digits + rest) == Some((DigitsValue(digits), rest))
  {
    DigitRunOf(digits, rest);
    assert (digits + rest)[..4] == digits;
    assert (digits + rest)[4..] == rest;
  }

  lemma DatePartOf(d: Date, rest: string)
    requires ValidDate(d)
    requires rest == [] || !IsSpace(rest[0])
    ensures DatePart(DateText(d) + " " + rest) == Some((d, rest))
  {
    DateFieldsOf(PadDigits(d.day, 2), PadDigits(d.month, 2), PadDigits(d.year, 4), rest);
  }

  lemma DateFieldsOf(dd: string, mm: string, yy: string, rest: string)
    requires |dd| == 2 && AllDigits(dd) && 1 <= DigitsValue(dd) <= 31
    requires |mm| == 2 && AllDigits(mm) && 1 <= DigitsValue(mm) <= 12
    requires |yy| == 4 && AllDigits(yy)
    requires rest == [] || !IsSpace(rest[0])
    ensures DatePart(dd + "." + mm + "." + yy + " " + rest)
      == Some((Date(DigitsValue(yy), DigitsValue(mm), DigitsValue(dd)), rest))
  {
    var tail := yy + " " + rest;
    assert dd + "." + mm + "." + yy + " " + rest == dd + "." + mm + "." + tail;
    DayMonthOf(dd, mm, tail);
    YearBlankOf(yy, rest);
  }

  lemma DayMonthOf(dd: string, mm: string, tail: string)
    requires |dd| == 2 && AllDigits(dd) && 1 <= DigitsValue(dd) <= 31
    requires |mm| == 2 && AllDigits(mm) && 1 <= DigitsValue(mm) <= 12
    ensures DayMonth(dd + "." + mm + "." + tail) == Some((DigitsValue(dd), DigitsValue(mm), tail))
  {
    var s0 := "." + tail;
    var t := mm + s0;
    var u := "." + t;
    assert dd + "." + mm + "." + tail == dd + u;
    FieldOf(dd, u, 1, 31);
    assert Literal(u, '.') == Some(t);
    FieldOf(mm, s0, 1, 12);
    assert Literal(s0, '.') == Some(tail);
  }

  lemma YearBlankOf(yy: string, rest: string)
    requires |yy| == 4 && AllDigits(yy)
    requires rest == [] || !IsSpace(rest[0])
    ensures YearField(yy + " " + rest) == Some((DigitsValue(yy), " " + rest))
    ensures Blanks(" " + rest) == Some(rest)
  {
    assert yy + " " + rest == yy + (" " + rest);
    YearFieldOf(yy, " " + rest);
    SpaceRunOf(" ", rest);
  }

  lemma ClockLongOf(hh: string, mi: string, ss: string)
    requires |hh| == 2 && AllDigits(hh) && DigitsValue(hh) < 24
    requires |mi| == 2 && AllDigits(mi) && DigitsValue(mi) < 60
    requires |ss| == 2 && AllDigits(ss) && DigitsValue(ss) < 60
    ensures IsClock(hh + ":" + mi + (":" + ss), true)
  {
    var s2 := ":" + ss;
    var s1 := mi + s2;
    var s0 := ":" + s1;
    assert hh + ":" + mi + s2 == hh + s0;
    FieldOf(hh, s0, 0, 23);
    assert Literal(s0, ':') == Some(s1);
    FieldOf(mi, s2, 0, 59);
    assert Literal(s2, ':') == Some(ss);
    FieldOf(ss, "", 0, 59);
    assert ss + "" == ss;
  }

  lemma ClockShortOf(hour: nat, minute: nat)
    requires hour < 24 && minute < 60
    ensures IsClock(PadDigits(hour, 2) + ":" + PadDigits(minute, 2), false)
    ensures !IsClock(PadDigits(hour, 2) + ":" + PadDigits(minute, 2), true)
  {
    var hh, mi := PadDigits(hour, 2), PadDigits(minute, 2);
    var s0 := ":" + mi;
    assert hh + ":" + mi == hh + s0;
    FieldOf(hh, s0, 0, 23);
    assert Literal(s0, ':') == Some(mi);
    FieldOf(mi, "", 0, 59);
    assert mi + "" == mi;
  }

  /** A time of day written with or without seconds reads in the layout of
      its kind, and starts with a digit. */
  lemma ClockTextOf(hour: nat, minute: nat, second: nat, withSeconds: bool)
    requires hour < 24 && minute < 60 && second < 60
    ensures IsClock(ClockText(hour, minute, second, withSeconds), withSeconds)
    ensures IsDigit(ClockText(hour, minute, second, withSeconds)[0])
  {
    var hh := PadDigits(hour, 2);
    if withSeconds {
      ClockLongOf(hh, PadDigits(minute, 2), PadDigits(second, 2));
    } else {
      assert ClockText(hour, minute, second, withSeconds) == hh + ":" + PadDigits(minute, 2);
      ClockShortOf(hour, minute);
    }
  }

  /** A date part followed by a time of day in either layout reads as that date. */
  lemma ParseDateClock(d: Date, clock: string)
    requires ValidDate(d) && (clock == [] || !IsSpace(clock[0]))
    requires IsClock(clock, true) || IsClock(clock, false)
    ensures ParseStamp(DateText(d) + " " + clock) == Some(d)
  {
    DatePartOf(d, clock);
  }

  /** A timestamp written in either layout reads back as its date, whatever
      the time of day: only the date part is kept. */
  lemma {:induction false} ParseFormatStamp(d: Date, hour: nat, minute: nat, second: nat, withSeconds: bool)
    requires ValidDate(d) && hour < 24 && minute < 60 && second < 60
    ensures ParseStamp(FormatStamp(d, hour, minute, second, withSeconds)) == Some(d)
  {
    ClockTextOf(hour, minute, second, withSeconds);
    ParseDateClock(d, ClockText(hour, minute, second, withSeconds));
  }
}
