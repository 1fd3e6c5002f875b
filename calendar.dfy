/** Wall-clock timestamps of the reference zone, as the Go code uses
    `time.Time`: parsing and formatting with the layout "2006-01-02 15:04",
    the `Before` order, and the calendar arithmetic of `AddDate` and `Add`.
    The zone is treated as a fixed offset (no daylight-saving jumps). */
module Calendar {
  import opened Basics
  import opened Strings

  datatype Stamp = Stamp(year: int, month: int, day: int, hour: int, minute: int)

  /** Gregorian leap years, as Go's `isLeap`. */
  predicate IsLeap(year: int) {
    year % 4 == 0 && (year % 100 != 0 || year % 400 == 0)
  }

  function DaysIn(month: int, year: int): int
    requires 1 <= month <= 12
  {
    if month == 2 then (if IsLeap(year) then 29 else 28)
    else if month == 4 || month == 6 || month == 9 || month == 11 then 30
    else 31
  }

  predicate ValidDate(year: int, month: int, day: int) {
    1 <= month <= 12 && 1 <= day <= DaysIn(month, year)
  }

  predicate Valid(s: Stamp) {
    ValidDate(s.year, s.month, s.day) && 0 <= s.hour < 24 && 0 <= s.minute < 60
  }

  /** A minute of the wall clock that exists in the calendar. */
  type Timestamp = s: Stamp | Valid(s) witness Stamp(1, 1, 1, 0, 0)

  /** Go's zero `time.Time`: January 1 of year 1, 00:00. */
  const Zero: Timestamp := Stamp(1, 1, 1, 0, 0)

  // ---------------------------------------------------------------------
  // Formatting with the layout "2006-01-02 15:04"

  function DigitChar(n: int): char
    requires 0 <= n < 10
  {
    ('0' as int + n) as char
  }

  function Fixed2(n: int): string
    requires 0 <= n < 100
  {
    [DigitChar(n / 10), DigitChar(n % 10)]
  }

  function Fixed4(n: int): string
    requires 0 <= n < 10000
  {
    Fixed2(n / 100) + Fixed2(n % 100)
  }

  function Decimal(n: nat): (r: string)
    ensures |r| >= 1
    ensures n >= 10 ==> |r| >= 2
    ensures n >= 100 ==> |r| >= 3
    ensures n >= 1000 ==> |r| >= 4
    ensures n >= 10000 ==> |r| >= 5
  {
    if n < 10 then [DigitChar(n)] else Decimal(n / 10) + [DigitChar(n % 10)]
  }

  /** The "2006" field: a sign for negative years, then at least four
      digits (Go's `appendInt(b, year, 4)`). */
  function YearText(y: int): (r: string)
    ensures |r| >= 4
    ensures |r| == 4 <==> 0 <= y < 10000
  {
    var u := if y < 0 then -y else y;
    (if y < 0 then "-" else "") + (if u < 10000 then Fixed4(u) else Decimal(u))
  }

  /** `t.Format("2006-01-02 15:04")`; sixteen characters exactly for the
      four-digit years. */
  function Format(s: Timestamp): (r: string)
    ensures |r| >= 16
    ensures |r| == 16 <==> 0 <= s.year < 10000
  {
    YearText(s.year) + "-" + Fixed2(s.month) + "-" + Fixed2(s.day) + " "
      + Fixed2(s.hour) + ":" + Fixed2(s.minute)
  }

  // ---------------------------------------------------------------------
  // Parsing with the same layout

  function DigitValue(c: char): int
    requires IsDigit(c)
  {
    c as int - '0' as int
  }

  function Num2(t: string, i: nat): int
    requires i + 2 <= |t| && IsDigit(t[i]) && IsDigit(t[i + 1])
  {
    10 * DigitValue(t[i]) + DigitValue(t[i + 1])
  }

  function Num4(t: string, i: nat): int
    requires i + 4 <= |t| && IsDigit(t[i]) && IsDigit(t[i + 1]) && IsDigit(t[i + 2]) && IsDigit(t[i + 3])
  {
    100 * Num2(t, i) + Num2(t, i + 2)
  }

  /** The shape `\d{4}-\d{2}-\d{2} \d{2}:\d{2}`. */
  predicate StampShape(t: string) {
    && |t| == 16
    && IsDigit(t[0]) && IsDigit(t[1]) && IsDigit(t[2]) && IsDigit(t[3]) && t[4] == '-'
    && IsDigit(t[5]) && IsDigit(t[6]) && t[7] == '-'
    && IsDigit(t[8]) && IsDigit(t[9]) && t[10] == ' '
    && IsDigit(t[11]) && IsDigit(t[12]) && t[13] == ':'
    && IsDigit(t[14]) && IsDigit(t[15])
  }

  /** The text with its hour written with two digits. A space in the
      layout matches a run of spaces and the hour `15` takes one or two
      digits, so of sixteen characters the layout also reads
      `\d{4}-\d{2}-\d{2}  \d:\d{2}`, a one-digit hour after two spaces;
      this pads that hour with a zero and leaves any other text alone. */
  function Padded(t: string): (p: string)
    requires |t| == 16
    ensures |p| == 16
  {
    if t[11] == ' ' then t[..11] + "0" + t[12..] else t
  }

  /** `time.ParseInLocation("2006-01-02 15:04", t, loc)`: sixteen
      characters of the layout's shape, with the hour written as two digits
      after one space or one digit after two, naming a month 01-12, a day
      that exists in that month, an hour 0-23 and a minute 00-59. */
  function Parse(t: string): (r: Option<Timestamp>)
    ensures r.Some? ==> |t| == 16 && StampShape(Padded(t))
  {
    if !(|t| == 16 && StampShape(Padded(t))) then None
    else
      var p := Padded(t);
      var s := Stamp(Num4(p, 0), Num2(p, 5), Num2(p, 8), Num2(p, 11), Num2(p, 14));
      if Valid(s) then Some(s) else None
  }

  lemma Fixed2Parse(n: int)
    requires 0 <= n < 100
    ensures var t := Fixed2(n); IsDigit(t[0]) && IsDigit(t[1]) && Num2(t, 0) == n
  {
  }

  lemma Fixed4Parse(n: int)
    requires 0 <= n < 10000
    ensures var t := Fixed4(n);
      IsDigit(t[0]) && IsDigit(t[1]) && IsDigit(t[2]) && IsDigit(t[3]) && Num4(t, 0) == n
  {
    var hi, lo := Fixed2(n / 100), Fixed2(n % 100);
    Fixed2Parse(n / 100);
    Fixed2Parse(n % 100);
    var t := hi + lo;
    assert t[0] == hi[0] && t[1] == hi[1] && t[2] == lo[0] && t[3] == lo[1];
    assert Num2(t, 0) == Num2(hi, 0) && Num2(t, 2) == Num2(lo, 0);
  }

  /** Parsing recovers every four-digit-year timestamp from its text. */
  lemma ParseFormat(s: Timestamp)
    requires 0 <= s.year < 10000
    ensures Parse(Format(s)) == Some(s)
  {
    var t := Format(s);
    Fixed4Parse(s.year);
    Fixed2Parse(s.month);
    Fixed2Parse(s.day);
    Fixed2Parse(s.hour);
    Fixed2Parse(s.minute);
    assert t[..4] == Fixed4(s.year);
    assert t[5..7] == Fixed2(s.month);
    assert t[8..10] == Fixed2(s.day);
    assert t[11..13] == Fixed2(s.hour);
    assert t[14..16] == Fixed2(s.minute);
    assert StampShape(t);
    assert Num4(t, 0) == Num4(t[..4], 0);
    assert Num2(t, 5) == Num2(t[5..7], 0);
    assert Num2(t, 8) == Num2(t[8..10], 0);
    assert Num2(t, 11) == Num2(t[11..13], 0);
    assert Num2(t, 14) == Num2(t[14..16], 0);
  }

  lemma Num2Format(t: string, i: nat)
    requires i + 2 <= |t| && IsDigit(t[i]) && IsDigit(t[i + 1])
    ensures Fixed2(Num2(t, i)) == t[i..i + 2]
  {
  }

  lemma Num4Format(t: string, i: nat)
    requires i + 4 <= |t| && IsDigit(t[i]) && IsDigit(t[i + 1]) && IsDigit(t[i + 2]) && IsDigit(t[i + 3])
    ensures 0 <= Num4(t, i) < 10000 && Fixed4(Num4(t, i)) == t[i..i + 4]
  {
    var hi, lo := Num2(t, i), Num2(t, i + 2);
    assert Num4(t, i) / 100 == hi && Num4(t, i) % 100 == lo;
    Num2Format(t, i);
    Num2Format(t, i + 2);
    assert t[i..i + 4] == t[i..i + 2] + t[i + 2..i + 4];
  }

  /** Every accepted text is the canonical rendering of what it denotes,
      once a one-digit hour is padded to two. */
  lemma FormatParse(t: string)
    requires Parse(t).Some?
    ensures Format(Parse(t).value) == Padded(t)
    ensures t[11] != ' ' ==> Format(Parse(t).value) == t
  {
    var s := Parse(t).value;
    var p := Padded(t);
    Num4Format(p, 0);
    Num2Format(p, 5);
    Num2Format(p, 8);
    Num2Format(p, 11);
    Num2Format(p, 14);
    assert YearText(s.year) == p[..4];
    assert Format(s) == p[..4] + "-" + p[5..7] + "-" + p[8..10] + " " + p[11..13] + ":" + p[14..16];
    assert p == p[..4] + "-" + p[5..7] + "-" + p[8..10] + " " + p[11..13] + ":" + p[14..16];
  }

  /** The same minute written with a one-digit hour after two spaces, as
      in `2024-01-02  9:05`, is read as the canonical text is. */
  lemma ParseShortHour(s: Timestamp)
    requires 0 <= s.year < 10000 && s.hour < 10
    ensures var t := Format(s); Parse(t[..11] + " " + t[12..]) == Some(s)
  {
    var t := Format(s);
    ParseFormat(s);
    assert t[11] == '0' by {
      assert t[11..13] == Fixed2(s.hour);
    }
    var u := t[..11] + " " + t[12..];
    assert Padded(u) == t by {
      assert u[11] == ' ' && u[..11] == t[..11] && u[12..] == t[12..];
      assert t == t[..11] + "0" + t[12..];
    }
  }

  // ---------------------------------------------------------------------
  // Day numbers and instants

  function YearLength(year: int): int {
    if IsLeap(year) then 366 else 365
  }

  /** Days from 0000-01-01 to January 1 of `year` (negative before year 0). */
  function DaysBeforeYear(year: int): int
    decreases if year < 0 then -year else year
  {
    if year == 0 then 0
    else if year > 0 then DaysBeforeYear(year - 1) + YearLength(year - 1)
    else DaysBeforeYear(year + 1) - YearLength(year)
  }

  /** Days of the year before the first of `month`: Go's `daysBefore`
      table plus the leap day after February. */
  function DaysBeforeMonth(month: int, year: int): int
    requires 1 <= month <= 12
  {
    (if month > 2 && IsLeap(year) then 1 else 0)
      + [0, 31, 59, 90, 120, 151, 181, 212, 243, 273, 304, 334][month - 1]
  }

  lemma DaysBeforeNextMonth(month: int, year: int)
    requires 1 <= month <= 12
    ensures DaysBeforeMonth(month, year) + DaysIn(month, year)
      == if month < 12 then DaysBeforeMonth(month + 1, year) else YearLength(year)
  {
  }

  function DayNumber(s: Timestamp): int {
    DaysBeforeYear(s.year) + DaysBeforeMonth(s.month, s.year) + s.day - 1
  }

  /** The absolute minute a timestamp denotes, counted from 0000-01-01 00:00. */
  function Instant(s: Timestamp): int {
    DayNumber(s) * 1440 + s.hour * 60 + s.minute
  }

  /** `t.Before(u)`: compares the instants. */
  predicate Before(a: Timestamp, b: Timestamp) {
    Instant(a) < Instant(b)
  }

  /** The order of the fields, year first. */
  predicate FieldsBefore(a: Stamp, b: Stamp) {
    || a.year < b.year
    || (a.year == b.year && a.month < b.month)
    || (a.year == b.year && a.month == b.month && a.day < b.day)
    || (a.year == b.year && a.month == b.month && a.day == b.day && a.hour < b.hour)
    || (a.year == b.year && a.month == b.month && a.day == b.day && a.hour == b.hour && a.minute < b.minute)
  }

  lemma DaysBeforeNextYear(year: int)
    ensures DaysBeforeYear(year + 1) == DaysBeforeYear(year) + YearLength(year)
  {
  }

  lemma {:induction false} DaysBeforeYearMonotone(y1: int, y2: int)
    requires y1 < y2
    ensures DaysBeforeYear(y1) + YearLength(y1) <= DaysBeforeYear(y2)
    decreases y2 - y1
  {
    DaysBeforeNextYear(y2 - 1);
    if y1 < y2 - 1 {
      DaysBeforeYearMonotone(y1, y2 - 1);
    }
  }

  lemma {:induction false} DaysBeforeMonthMonotone(m1: int, m2: int, year: int)
    requires 1 <= m1 < m2 <= 12
    ensures DaysBeforeMonth(m1, year) + DaysIn(m1, year) <= DaysBeforeMonth(m2, year)
    decreases m2 - m1
  {
    DaysBeforeNextMonth(m2 - 1, year);
    if m1 < m2 - 1 {
      DaysBeforeMonthMonotone(m1, m2 - 1, year);
    }
  }

  lemma DayOfYearBounds(s: Timestamp)
    ensures DaysBeforeYear(s.year) <= DayNumber(s) < DaysBeforeYear(s.year) + YearLength(s.year)
  {
    DaysBeforeNextMonth(12, s.year);
    if s.month < 12 {
      DaysBeforeMonthMonotone(s.month, 12, s.year);
    }
  }

  lemma FieldsBeforeImpliesBefore(a: Timestamp, b: Timestamp)
    requires FieldsBefore(a, b)
    ensures Before(a, b)
  {
    if a.year < b.year {
      DayOfYearBounds(a);
      DayOfYearBounds(b);
      DaysBeforeYearMonotone(a.year, b.year);
    } else if a.month < b.month {
      DaysBeforeMonthMonotone(a.month, b.month, a.year);
    }
  }

  /** `Before` on timestamps is the order of their fields, year first:
      the wall-clock record is ordered lexicographically. */
  lemma BeforeIsFieldOrder(a: Timestamp, b: Timestamp)
    ensures Before(a, b) <==> FieldsBefore(a, b)
  {
    if FieldsBefore(a, b) {
      FieldsBeforeImpliesBefore(a, b);
    } else if a != b {
      assert FieldsBefore(b, a);
      FieldsBeforeImpliesBefore(b, a);
    }
  }

  // ---------------------------------------------------------------------
  // Calendar arithmetic

  function NextDay(s: Timestamp): (r: Timestamp)
    ensures DayNumber(r) == DayNumber(s) + 1
    ensures r.hour == s.hour && r.minute == s.minute
  {
    DaysBeforeNextMonth(s.month, s.year);
    if s.day < DaysIn(s.month, s.year) then s.(day := s.day + 1)
    else if s.month < 12 then s.(month := s.month + 1, day := 1)
    else
      DaysBeforeNextYear(s.year);
      s.(year := s.year + 1, month := 1, day := 1)
  }

  function PrevDay(s: Timestamp): (r: Timestamp)
    ensures DayNumber(r) == DayNumber(s) - 1
    ensures r.hour == s.hour && r.minute == s.minute
  {
    if s.day > 1 then s.(day := s.day - 1)
    else if s.month > 1 then
      DaysBeforeNextMonth(s.month - 1, s.year);
      s.(month := s.month - 1, day := DaysIn(s.month - 1, s.year))
    else
      DaysBeforeNextYear(s.year - 1);
      DaysBeforeNextMonth(12, s.year - 1);
      s.(year := s.year - 1, month := 12, day := 31)
  }

  /** Moves the date by `n` days and keeps the time of day: Go's
      `AddDate(0, 0, n)` and the day-overflow normalisation of `time.Date`. */
  function AddDays(s: Timestamp, n: int): (r: Timestamp)
    ensures DayNumber(r) == DayNumber(s) + n
    ensures r.hour == s.hour && r.minute == s.minute
    decreases if n < 0 then -n else n
  {
    if n == 0 then s
    else if n > 0 then AddDays(NextDay(s), n - 1)
    else AddDays(PrevDay(s), n + 1)
  }

  lemma {:induction false} AddDaysWithinMonth(s: Timestamp, n: nat)
    requires s.day + n <= DaysIn(s.month, s.year)
    ensures AddDays(s, n) == s.(day := s.day + n)
    decreases n
  {
    if n > 0 {
      AddDaysWithinMonth(NextDay(s), n - 1);
    }
  }

  /** The calendar month `n` months after that of `s`, on its first day. */
  function FirstOfMonthAfter(s: Timestamp, n: int): (r: Timestamp)
    ensures r.day == 1 && r.hour == s.hour && r.minute == s.minute
    ensures r.year * 12 + r.month == s.year * 12 + s.month + n
  {
    var m0 := s.month - 1 + n;
    Stamp(s.year + m0 / 12, m0 % 12 + 1, 1, s.hour, s.minute)
  }

  /** Go's `AddDate(0, n, 0)`: the same day number `n` months later; a day
      past the end of the target month overflows into the next month. */
  function AddMonths(s: Timestamp, n: int): (r: Timestamp)
    ensures var first := FirstOfMonthAfter(s, n);
      && DayNumber(r) == DayNumber(first) + s.day - 1
      && r.hour == s.hour && r.minute == s.minute
      && (s.day <= DaysIn(first.month, first.year) ==> r == first.(day := s.day))
  {
    var first := FirstOfMonthAfter(s, n);
    if s.day <= DaysIn(first.month, first.year) then
      AddDaysWithinMonth(first, s.day - 1);
      AddDays(first, s.day - 1)
    else
      AddDays(first, s.day - 1)
  }

  /** Go's `Add(n * time.Minute)`: `n` minutes of absolute duration. */
  function AddMinutes(s: Timestamp, n: int): (r: Timestamp)
    ensures Instant(r) == Instant(s) + n
  {
    var t := s.hour * 60 + s.minute + n;
    var q, rem := t / 1440, t % 1440;
    assert t == q * 1440 + rem;
    var d := AddDays(s, q);
    Stamp(d.year, d.month, d.day, rem / 60, rem % 60)
  }

  // ---------------------------------------------------------------------
  // Log times, formatted with the layout "2006-01-02T15:04:05"

  datatype LogTime = LogTime(stamp: Timestamp, second: int)

  type Clock = c: LogTime | 0 <= c.second < 60 witness LogTime(Zero, 0)

  const ZeroClock: Clock := LogTime(Zero, 0)

  function ClockText(c: Clock): string {
    var s := c.stamp;
    YearText(s.year) + "-" + Fixed2(s.month) + "-" + Fixed2(s.day) + "T"
      + Fixed2(s.hour) + ":" + Fixed2(s.minute) + ":" + Fixed2(c.second)
  }

  /** The layout text "2006-01-02T15:04:05" itself. */
  const ClockLayout: string := "2006-01-02T15:04:05"

  /** Go's reference instant: the time that the layout text names. */
  const ReferenceClock: Clock := LogTime(Stamp(2006, 1, 2, 15, 4), 5)

  /** Fields joined as a log time that give the layout text are its
      fields. */
  lemma LayoutParts(y: string, mo: string, d: string, h: string, mi: string, se: string)
    requires |y| == 4 && |mo| == 2 && |d| == 2 && |h| == 2 && |mi| == 2 && |se| == 2
    requires y + "-" + mo + "-" + d + "T" + h + ":" + mi + ":" + se == ClockLayout
    ensures y == "2006" && mo == "01" && d == "02" && h == "15" && mi == "04" && se == "05"
  {
    var w := y + "-" + mo + "-" + d + "T" + h + ":" + mi + ":" + se;
    assert y == w[..4] && mo == w[5..7] && d == w[8..10];
    assert h == w[11..13] && mi == w[14..16] && se == w[17..];
  }

  /** The reference instant is written as the layout text. */
  lemma ReferenceText()
    ensures ClockText(ReferenceClock) == ClockLayout
  {
    assert Fixed4(2006) == "2006" && Fixed2(1) == "01" && Fixed2(2) == "02";
    assert Fixed2(15) == "15" && Fixed2(4) == "04" && Fixed2(5) == "05";
  }

  /** The reference instant, and no other log time, is written as the
      layout text. */
  lemma ClockTextIsLayout(c: Clock)
    ensures ClockText(c) == ClockLayout <==> c == ReferenceClock
  {
    ReferenceText();
    var s := c.stamp;
    var t := ClockText(c);
    if t == ClockLayout {
      assert 0 <= s.year < 10000 by {
        assert |YearText(s.year)| + 15 == |t|;
      }
      assert YearText(s.year) == Fixed4(s.year) by {
        assert "" + Fixed4(s.year) == Fixed4(s.year);
      }
      LayoutParts(Fixed4(s.year), Fixed2(s.month), Fixed2(s.day), Fixed2(s.hour),
                  Fixed2(s.minute), Fixed2(c.second));
      Fixed4Parse(s.year);
      Fixed2Parse(s.month);
      Fixed2Parse(s.day);
      Fixed2Parse(s.hour);
      Fixed2Parse(s.minute);
      Fixed2Parse(c.second);
    }
  }

  /** The shape `\d{4}-\d{2}-\d{2}T\d{2}:\d{2}:\d{2}`. */
  predicate ClockShape(t: string) {
    && |t| == 19
    && IsDigit(t[0]) && IsDigit(t[1]) && IsDigit(t[2]) && IsDigit(t[3]) && t[4] == '-'
    && IsDigit(t[5]) && IsDigit(t[6]) && t[7] == '-'
    && IsDigit(t[8]) && IsDigit(t[9]) && t[10] == 'T'
    && IsDigit(t[11]) && IsDigit(t[12]) && t[13] == ':'
    && IsDigit(t[14]) && IsDigit(t[15]) && t[16] == ':'
    && IsDigit(t[17]) && IsDigit(t[18])
  }

  /** Two characters, both decimal digits. */
  predicate TwoDigits(t: string) {
    |t| == 2 && IsDigit(t[0]) && IsDigit(t[1])
  }

  lemma Fixed2Digits(n: int)
    requires 0 <= n < 100
    ensures TwoDigits(Fixed2(n))
  {
  }

  lemma ClockShapeOfParts(y: string, mo: string, d: string, h: string, mi: string, se: string)
    requires |y| == 4 && IsDigit(y[0]) && IsDigit(y[1]) && IsDigit(y[2]) && IsDigit(y[3])
    requires TwoDigits(mo) && TwoDigits(d) && TwoDigits(h) && TwoDigits(mi) && TwoDigits(se)
    ensures ClockShape(y + "-" + mo + "-" + d + "T" + h + ":" + mi + ":" + se)
  {
    assert y + "-" + mo + "-" + d + "T" + h + ":" + mi + ":" + se
      == [y[0], y[1], y[2], y[3], '-', mo[0], mo[1], '-', d[0], d[1], 'T',
          h[0], h[1], ':', mi[0], mi[1], ':', se[0], se[1]];
  }

  lemma ClockTextShape(c: Clock)
    requires 0 <= c.stamp.year < 10000
    ensures ClockShape(ClockText(c))
  {
    var s := c.stamp;
    Fixed4Parse(s.year);
    Fixed2Digits(s.month);
    Fixed2Digits(s.day);
    Fixed2Digits(s.hour);
    Fixed2Digits(s.minute);
    Fixed2Digits(c.second);
    assert YearText(s.year) == Fixed4(s.year) by {
      assert "" + Fixed4(s.year) == Fixed4(s.year);
    }
    ClockShapeOfParts(YearText(s.year), Fixed2(s.month), Fixed2(s.day), Fixed2(s.hour),
                      Fixed2(s.minute), Fixed2(c.second));
  }
}
