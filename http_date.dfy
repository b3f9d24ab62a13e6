/** The expiry stamp's text form. `Date.prototype.toUTCString` writes an instant
    as the IMF-fixdate of section 7.1.1.1 of RFC 7231 ("Sun, 06 Nov 1994 08:49:37 GMT"),
    dropping the milliseconds; `Date.parse` reads such a text back. This module gives
    the writer for instants at or after the epoch and a reference reader for that
    one form, and proves that reading a written stamp gives back the instant
    truncated to whole seconds. */
module HttpDate {
  import opened Wrappers
  import opened Chars

  const MillisPerSecond: nat := 1000
  const SecondsPerDay: nat := 86400
  const EpochYear: nat := 1970
  /** 1 January 1970 was a Thursday; weekdays count from Sunday = 0. */
  const EpochWeekday: nat := 4

  const DayNames: seq<string> := ["Sun", "Mon", "Tue", "Wed", "Thu", "Fri", "Sat"]
  const MonthNames: seq<string> :=
    ["Jan", "Feb", "Mar", "Apr", "May", "Jun", "Jul", "Aug", "Sep", "Oct", "Nov", "Dec"]

  // ---------------------------------------------------------------------------
  // The proleptic Gregorian calendar
  // ---------------------------------------------------------------------------

  predicate IsLeapYear(y: nat) {
    y % 4 == 0 && (y % 100 != 0 || y % 400 == 0)
  }

  function DaysInYear(y: nat): nat {
    if IsLeapYear(y) then 366 else 365
  }

  /** Days of year `y` that lie before month `m` (1-based); `m == 13` gives the whole year. */
  function DaysBeforeMonth(y: nat, m: nat): (n: nat)
    requires 1 <= m <= 13
    ensures m == 1 ==> n == 0
    ensures m == 13 ==> n == DaysInYear(y)
  {
    (if IsLeapYear(y) then [0, 31, 60, 91, 121, 152, 182, 213, 244, 274, 305, 335, 366]
     else [0, 31, 59, 90, 120, 151, 181, 212, 243, 273, 304, 334, 365])[m - 1]
  }

  function DaysInMonth(y: nat, m: nat): (n: nat)
    requires 1 <= m <= 12
    ensures 28 <= n <= 31
    ensures DaysBeforeMonth(y, m) + n == DaysBeforeMonth(y, m + 1)
  {
    DaysBeforeMonth(y, m + 1) - DaysBeforeMonth(y, m)
  }

  /** Days from 1 January of year 0 to 1 January of year `y`. */
  function DaysBeforeYear(y: nat): nat {
    if y == 0 then 0 else DaysBeforeYear(y - 1) + DaysInYear(y - 1)
  }

  /** The year, and the 0-based day within it, that lie `d` days after 1 January of `y`. */
  function YearAndDay(d: nat, y: nat): (nat, nat)
    decreases d
  {
    if d < DaysInYear(y) then (y, d) else YearAndDay(d - DaysInYear(y), y + 1)
  }

  lemma {:induction false} YearAndDayCorrect(d: nat, y: nat)
    ensures YearAndDay(d, y).0 >= y
    ensures YearAndDay(d, y).1 < DaysInYear(YearAndDay(d, y).0)
    ensures DaysBeforeYear(YearAndDay(d, y).0) + YearAndDay(d, y).1 == DaysBeforeYear(y) + d
    decreases d
  {
    if d >= DaysInYear(y) {
      YearAndDayCorrect(d - DaysInYear(y), y + 1);
    }
  }

  /** The month and the 1-based day of month of day `d` (0-based) of year `y`,
      searching from month `m` on. */
  function MonthAndDay(y: nat, d: nat, m: nat): (r: (nat, nat))
    requires 1 <= m <= 12 && DaysBeforeMonth(y, m) <= d < DaysInYear(y)
    ensures m <= r.0 <= 12 && 1 <= r.1 <= DaysInMonth(y, r.0)
    ensures DaysBeforeMonth(y, r.0) + r.1 - 1 == d
    decreases 12 - m
  {
    if m == 12 || d < DaysBeforeMonth(y, m + 1) then (m, d - DaysBeforeMonth(y, m) + 1)
    else MonthAndDay(y, d, m + 1)
  }

  /** The broken-down UTC fields that `toUTCString` prints. */
  datatype DateTime = DateTime(
    weekday: nat, day: nat, month: nat, year: nat, hour: nat, minute: nat, second: nat)

  predicate ValidDateTime(t: DateTime) {
    t.weekday < 7 && 1 <= t.month <= 12 && 1 <= t.day <= DaysInMonth(t.year, t.month)
    && t.hour < 24 && t.minute < 60 && t.second < 60
  }

  /** The UTC fields of the instant `secs` whole seconds after the epoch. */
  function FromEpochSeconds(secs: nat): (t: DateTime)
    ensures ValidDateTime(t) && t.year >= EpochYear
  {
    var days := secs / SecondsPerDay;
    var inDay := secs % SecondsPerDay;
    YearAndDayCorrect(days, EpochYear);
    var yd := YearAndDay(days, EpochYear);
    var md := MonthAndDay(yd.0, yd.1, 1);
    DateTime((days + EpochWeekday) % 7, md.1, md.0, yd.0, inDay / 3600, inDay % 3600 / 60, inDay % 60)
  }

  /** Seconds since the epoch of the instant the fields name (negative before 1970). */
  function EpochSecondsOf(t: DateTime): int
    requires 1 <= t.month <= 12
  {
    var days := DaysBeforeYear(t.year) - DaysBeforeYear(EpochYear)
      + DaysBeforeMonth(t.year, t.month) + t.day - 1;
    days * SecondsPerDay + t.hour * 3600 + t.minute * 60 + t.second
  }

  /** Breaking an instant into fields and adding them up again is the identity. */
  lemma CalendarRoundTrip(secs: nat)
    ensures EpochSecondsOf(FromEpochSeconds(secs)) == secs
  {
    var days := secs / SecondsPerDay;
    var inDay := secs % SecondsPerDay;
    var t := FromEpochSeconds(secs);
    assert DaysBeforeYear(t.year) - DaysBeforeYear(EpochYear)
      + DaysBeforeMonth(t.year, t.month) + t.day - 1 == days by {
      DayOfCalendar(secs);
    }
    assert t.hour * 3600 + t.minute * 60 + t.second == inDay by {
      TimeOfDay(inDay);
    }
  }

  /** The year, month and day found for an instant add up to its day count. */
  lemma DayOfCalendar(secs: nat)
    ensures var t := FromEpochSeconds(secs);
      DaysBeforeYear(t.year) - DaysBeforeYear(EpochYear) + DaysBeforeMonth(t.year, t.month) + t.day - 1
        == secs / SecondsPerDay
  {
    YearAndDayCorrect(secs / SecondsPerDay, EpochYear);
  }

  /** Hours, minutes and seconds of a second within the day add up to it. */
  lemma TimeOfDay(inDay: nat)
    requires inDay < SecondsPerDay
    ensures inDay / 3600 * 3600 + inDay % 3600 / 60 * 60 + inDay % 60 == inDay
  {
  }

  /** The example instant of section 7.1.1.1 of RFC 7231, "Sun, 06 Nov 1994
      08:49:37 GMT", is 784111777 seconds after the epoch; `secs` stands for
      the literal so that the verifier does not unfold the calendar on it. */
  lemma RfcExampleFields(secs: nat)
    requires secs == 784111777
    ensures FromEpochSeconds(secs) == DateTime(0, 6, 11, 1994, 8, 49, 37)
  {
    var days := secs / SecondsPerDay;
    assert days == 9075 && secs % SecondsPerDay == 31777;
    RfcExampleYear(days);
    RfcExampleMonth();
  }

  /** Day 9075 after the epoch is day 309 (0-based) of 1994. */
  lemma RfcExampleYear(days: nat)
    requires days == 9075
    ensures YearAndDay(days, EpochYear) == (1994, 309)
  {
    FourYearBlocks(EpochYear, 6);
    YearAndDayOfSpan(EpochYear, 24, 309);
  }

  /** Day 309 (0-based) of 1994 is 6 November. */
  lemma RfcExampleMonth()
    ensures MonthAndDay(1994, 309, 1) == (11, 6)
  {
  }

  /** Days in the `count` years from 1 January of `y` on. */
  function DaysSpan(y: nat, count: nat): nat
    decreases count
  {
    if count == 0 then 0 else DaysInYear(y) + DaysSpan(y + 1, count - 1)
  }

  lemma {:induction false} SpanSplit(y: nat, a: nat, b: nat)
    ensures DaysSpan(y, a + b) == DaysSpan(y, a) + DaysSpan(y + a, b)
    decreases a
  {
    if a > 0 {
      SpanSplit(y + 1, a - 1, b);
    }
  }

  /** Between 1901 and 2099 every fourth year is a leap year, so `n` blocks of
      four years starting two years after a leap year hold 1461 days each. */
  lemma {:induction false} FourYearBlocks(y: nat, n: nat)
    requires y % 4 == 2 && 1900 < y && y + 4 * n <= 2100
    ensures DaysSpan(y, 4 * n) == 1461 * n
    decreases n
  {
    if n > 0 {
      SpanSplit(y, 4, 4 * (n - 1));
      FourYearBlocks(y + 4, n - 1);
      assert !IsLeapYear(y) && !IsLeapYear(y + 1) && IsLeapYear(y + 2) && !IsLeapYear(y + 3);
      assert DaysSpan(y, 4) == DaysInYear(y) + DaysInYear(y + 1) + DaysInYear(y + 2) + DaysInYear(y + 3);
    }
  }

  lemma {:induction false} YearAndDayOfSpan(y: nat, count: nat, d: nat)
    requires d < DaysInYear(y + count)
    ensures YearAndDay(DaysSpan(y, count) + d, y) == (y + count, d)
    decreases count
  {
    if count > 0 {
      YearAndDayOfSpan(y + 1, count - 1, d);
    }
  }

  // ---------------------------------------------------------------------------
  // Decimal fields
  // ---------------------------------------------------------------------------

  function Digit(n: nat): (c: char)
    requires n < 10
    ensures IsDigit(c)
  {
    ('0' as int + n) as char
  }

  function DigitValue(c: char): (n: nat)
    requires IsDigit(c)
    ensures n < 10
  {
    c as int - '0' as int
  }

  /** The decimal digits of `n`, left-padded with zeros to at least `width` characters. */
  function PaddedDecimal(n: nat, width: nat): (s: string)
    ensures |s| >= 1 && |s| >= width && AllDigits(s)
    decreases n, width
  {
    if n < 10 && width <= 1 then [Digit(n)]
    else PaddedDecimal(n / 10, if width == 0 then 0 else width - 1) + [Digit(n % 10)]
  }

  function TwoDigits(n: nat): (s: string)
    requires n < 100
    ensures |s| == 2 && AllDigits(s)
  {
    [Digit(n / 10), Digit(n % 10)]
  }

  /** The value of a digit string read in base ten; leading zeros are allowed. */
  function DecimalValue(s: string): nat
    requires AllDigits(s)
  {
    if s == [] then 0 else DecimalValue(s[..|s| - 1]) * 10 + DigitValue(s[|s| - 1])
  }

  lemma {:induction false} DecimalRoundTrip(n: nat, width: nat)
    ensures DecimalValue(PaddedDecimal(n, width)) == n
    decreases n, width
  {
    var s := PaddedDecimal(n, width);
    if n < 10 && width <= 1 {
      assert s[..|s| - 1] == [];
    } else {
      var w' := if width == 0 then 0 else width - 1;
      DecimalRoundTrip(n / 10, w');
      assert s[..|s| - 1] == PaddedDecimal(n / 10, w');
    }
  }

  lemma TwoDigitsRoundTrip(n: nat)
    requires n < 100
    ensures DecimalValue(TwoDigits(n)) == n
  {
    var s := TwoDigits(n);
    assert s[..1] == [Digit(n / 10)];
    assert s[..1][..0] == [];
    assert DecimalValue(s[..1]) == n / 10;
  }

  // ---------------------------------------------------------------------------
  // Names
  // ---------------------------------------------------------------------------

  /** The first index at which `x` occurs in `names`. */
  function IndexOf(names: seq<string>, x: string): (r: Option<nat>)
    ensures r.Some? ==> r.value < |names| && names[r.value] == x
    ensures r.Some? ==> forall k | 0 <= k < r.value :: names[k] != x
    ensures r.None? ==> x !in names
  {
    if names == [] then None
    else if names[0] == x then Some(0)
    else match IndexOf(names[1..], x)
      case None => None
      case Some(i) => Some(i + 1)
  }

  predicate Distinct(names: seq<string>) {
    forall i, j | 0 <= i < j < |names| :: names[i] != names[j]
  }

  lemma NamesAreDistinct()
    ensures Distinct(DayNames) && Distinct(MonthNames)
    ensures forall i | 0 <= i < |DayNames| :: |DayNames[i]| == 3
    ensures forall i | 0 <= i < |MonthNames| :: |MonthNames[i]| == 3
  {
  }

  lemma IndexOfName(names: seq<string>, i: nat)
    requires Distinct(names) && i < |names|
    ensures IndexOf(names, names[i]) == Some(i)
  {
  }

  // ---------------------------------------------------------------------------
  // Writing and reading the IMF-fixdate
  // ---------------------------------------------------------------------------

  /** "Www, DD Mmm " — the twelve characters before the year. */
  function DatePrefix(t: DateTime): (s: string)
    requires ValidDateTime(t)
    ensures |s| == 12
  {
    NamesAreDistinct();
    DayNames[t.weekday] + ", " + TwoDigits(t.day) + " " + MonthNames[t.month - 1] + " "
  }

  /** " HH:MM:SS GMT" — the thirteen characters after the year. */
  function TimeSuffix(t: DateTime): (s: string)
    requires ValidDateTime(t)
    ensures |s| == 13
  {
    " " + TwoDigits(t.hour) + ":" + TwoDigits(t.minute) + ":" + TwoDigits(t.second) + " GMT"
  }

  /** The year is written with at least four digits and no sign. */
  function Format(t: DateTime): (s: string)
    requires ValidDateTime(t)
    ensures |s| >= 29
  {
    DatePrefix(t) + PaddedDecimal(t.year, 4) + TimeSuffix(t)
  }

  /** Reads "Www, DD Mmm " into (weekday, day, month). */
  function ParsePrefix(p: string): Option<(nat, nat, nat)>
    requires |p| == 12
  {
    var weekday := IndexOf(DayNames, p[..3]);
    var month := IndexOf(MonthNames, p[8..11]);
    if weekday.Some? && p[3..5] == ", " && AllDigits(p[5..7]) && p[7] == ' '
      && month.Some? && p[11] == ' '
    then Some((weekday.value, DecimalValue(p[5..7]), month.value + 1))
    else None
  }

  /** Reads " HH:MM:SS GMT" into (hour, minute, second). */
  function ParseSuffix(q: string): Option<(nat, nat, nat)>
    requires |q| == 13
  {
    if q[0] == ' ' && AllDigits(q[1..3]) && q[3] == ':' && AllDigits(q[4..6]) && q[6] == ':'
      && AllDigits(q[7..9]) && q[9..] == " GMT"
    then Some((DecimalValue(q[1..3]), DecimalValue(q[4..6]), DecimalValue(q[7..9])))
    else None
  }

  /** Reads an IMF-fixdate whose fields are in range; any other text is refused. */
  function Parse(s: string): (r: Option<DateTime>)
    ensures r.Some? ==> ValidDateTime(r.value)
  {
    if |s| < 29 then None
    else
      var date := ParsePrefix(s[..12]);
      var year := s[12..|s| - 13];
      var time := ParseSuffix(s[|s| - 13..]);
      if date.None? || time.None? || !AllDigits(year) then None
      else
        var t := DateTime(date.value.0, date.value.1, date.value.2, DecimalValue(year),
                          time.value.0, time.value.1, time.value.2);
        if ValidDateTime(t) then Some(t) else None
  }

  lemma ParsePrefixRoundTrip(t: DateTime)
    requires ValidDateTime(t)
    ensures ParsePrefix(DatePrefix(t)) == Some((t.weekday, t.day, t.month))
  {
    NamesAreDistinct();
    DatePrefixSlices(t);
    IndexOfName(DayNames, t.weekday);
    IndexOfName(MonthNames, t.month - 1);
    TwoDigitsRoundTrip(t.day);
  }

  lemma DatePrefixSlices(t: DateTime)
    requires ValidDateTime(t)
    ensures var p := DatePrefix(t);
      p[..3] == DayNames[t.weekday] && p[3..5] == ", " && p[5..7] == TwoDigits(t.day) && p[7] == ' '
      && p[8..11] == MonthNames[t.month - 1] && p[11] == ' '
  {
    NamesAreDistinct();
    var p := DatePrefix(t);
    assert p[..3] == DayNames[t.weekday];
    assert p[3..5] == ", ";
    assert p[5..7] == TwoDigits(t.day);
    assert p[8..11] == MonthNames[t.month - 1];
  }

  lemma ParseSuffixRoundTrip(t: DateTime)
    requires ValidDateTime(t)
    ensures ParseSuffix(TimeSuffix(t)) == Some((t.hour, t.minute, t.second))
  {
    var q := TimeSuffix(t);
    assert q[1..3] == TwoDigits(t.hour);
    assert q[4..6] == TwoDigits(t.minute);
    assert q[7..9] == TwoDigits(t.second);
    TwoDigitsRoundTrip(t.hour);
    TwoDigitsRoundTrip(t.minute);
    TwoDigitsRoundTrip(t.second);
  }

  lemma FormatRoundTrip(t: DateTime)
    requires ValidDateTime(t)
    ensures Parse(Format(t)) == Some(t)
  {
    var s := Format(t);
    var year := PaddedDecimal(t.year, 4);
    assert s[..12] == DatePrefix(t);
    assert s[12..|s| - 13] == year;
    assert s[|s| - 13..] == TimeSuffix(t);
    ParsePrefixRoundTrip(t);
    ParseSuffixRoundTrip(t);
    DecimalRoundTrip(t.year, 4);
  }

  // ---------------------------------------------------------------------------
  // The two operations the workers use
  // ---------------------------------------------------------------------------

  /** `new Date(ms).toUTCString()` for an instant at or after the epoch. */
  function ToUtcString(ms: nat): string {
    Format(FromEpochSeconds(ms / MillisPerSecond))
  }

  /** `Date.parse` restricted to the IMF-fixdate form: milliseconds since the
      epoch, or None where `Date.parse` yields NaN. */
  function ParseHttpDate(s: string): Option<int> {
    match Parse(s)
    case None => None
    case Some(t) => Some(EpochSecondsOf(t) * MillisPerSecond)
  }

  /** The example instant of section 7.1.1.1 of RFC 7231 is written as that
      section writes it. */
  lemma RfcExampleText(ms: nat)
    requires ms == 784111777000
    ensures ToUtcString(ms) == "Sun, 06 Nov 1994 08:49:37 GMT"
  {
    RfcExampleFields(ms / MillisPerSecond);
    RfcExampleFormat(FromEpochSeconds(ms / MillisPerSecond));
  }

  lemma RfcExampleFormat(t: DateTime)
    requires t == DateTime(0, 6, 11, 1994, 8, 49, 37)
    ensures Format(t) == "Sun, 06 Nov 1994 08:49:37 GMT"
  {
    RfcExamplePrefix(t);
    RfcExampleYearText(t.year);
    RfcExampleSuffix(t);
  }

  lemma RfcExamplePrefix(t: DateTime)
    requires t == DateTime(0, 6, 11, 1994, 8, 49, 37)
    ensures DatePrefix(t) == "Sun, 06 Nov "
  {
  }

  lemma RfcExampleSuffix(t: DateTime)
    requires t == DateTime(0, 6, 11, 1994, 8, 49, 37)
    ensures TimeSuffix(t) == " 08:49:37 GMT"
  {
  }

  /** The year 1994 is written as its four digits, one digit at a time. */
  lemma RfcExampleYearText(year: nat)
    requires year == 1994
    ensures PaddedDecimal(year, 4) == "1994"
  {
    assert PaddedDecimal(1, 1) == "1";
    assert PaddedDecimal(19, 2) == PaddedDecimal(1, 1) + "9";
    assert PaddedDecimal(199, 3) == PaddedDecimal(19, 2) + "9";
    assert PaddedDecimal(year, 4) == PaddedDecimal(199, 3) + "4";
  }

  /** Reading back a written stamp yields the instant truncated to whole seconds. */
  lemma {:induction false} UtcStringRoundTrip(ms: nat)
    ensures ParseHttpDate(ToUtcString(ms)) == Some(ms / MillisPerSecond * MillisPerSecond)
  {
    var t := FromEpochSeconds(ms / MillisPerSecond);
    FormatRoundTrip(t);
    CalendarRoundTrip(ms / MillisPerSecond);
  }
}
