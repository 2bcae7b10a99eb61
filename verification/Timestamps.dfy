/** Instants and the text `strftime("%Y-%m-%dT%H:%M:%SZ")` makes of them in UTC. Instants are
    microseconds since the start of year 1, on the proleptic Gregorian calendar that Python's
    datetime uses. */
module Timestamps {
  import opened Options

  const SECOND := 1000000
  const DAY := 86400 * SECOND

  predicate Leap(y: int) {
    y % 4 == 0 && (y % 100 != 0 || y % 400 == 0)
  }

  function DaysBeforeYear(y: int): int {
    365 * (y - 1) + (y - 1) / 4 - (y - 1) / 100 + (y - 1) / 400
  }

  function DaysBeforeMonth(y: int, m: int): int
    requires 1 <= m <= 13
  {
    [0, 31, 59, 90, 120, 151, 181, 212, 243, 273, 304, 334, 365][m - 1] + (if m > 2 && Leap(y) then 1 else 0)
  }

  datatype Civil = Civil(year: int, month: int, day: int, hour: int, minute: int, second: int)

  /** Fields that can be printed with four and two digits. */
  predicate Printable(c: Civil) {
    && 0 <= c.year <= 9999 && 1 <= c.month <= 12 && 1 <= c.day <= 31
    && 0 <= c.hour < 24 && 0 <= c.minute < 60 && 0 <= c.second < 60
  }

  function DayNumber(c: Civil): int
    requires 1 <= c.month <= 12
  {
    DaysBeforeYear(c.year) + DaysBeforeMonth(c.year, c.month) + c.day - 1
  }

  /** The instant, in whole seconds, that civil fields denote. */
  function SecondsOf(c: Civil): int
    requires 1 <= c.month <= 12
  {
    DayNumber(c) * 86400 + c.hour * 3600 + c.minute * 60 + c.second
  }

  lemma FourthYears(y: int)
    ensures y / 4 == (y - 1) / 4 + (if y % 4 == 0 then 1 else 0)
  {
  }

  lemma HundredthYears(y: int)
    ensures y / 100 == (y - 1) / 100 + (if y % 100 == 0 then 1 else 0)
  {
  }

  lemma FourHundredthYears(y: int)
    ensures y / 400 == (y - 1) / 400 + (if y % 400 == 0 then 1 else 0)
    ensures y % 400 == 0 ==> y % 100 == 0
    ensures y % 100 == 0 ==> y % 4 == 0
  {
    assert y == 400 * (y / 400) + y % 400 && y == 100 * (y / 100) + y % 100;
  }

  lemma YearLength(y: int)
    ensures DaysBeforeYear(y + 1) == DaysBeforeYear(y) + DaysBeforeMonth(y, 13)
  {
    FourthYears(y);
    HundredthYears(y);
    FourHundredthYears(y);
  }

  /** The year a day falls in, searched from `y` on. */
  function YearOf(n: int, y: int): (r: int)
    requires DaysBeforeYear(y) <= n
    ensures r >= y && DaysBeforeYear(r) <= n < DaysBeforeYear(r + 1)
    decreases n - DaysBeforeYear(y)
  {
    YearLength(y);
    if n < DaysBeforeYear(y + 1) then y else YearOf(n, y + 1)
  }

  /** The month the r-th day of a year falls in, searched from `m` on. */
  function MonthOf(y: int, r: int, m: int): (k: int)
    requires 1 <= m <= 12 && DaysBeforeMonth(y, m) <= r < DaysBeforeMonth(y, 13)
    ensures 1 <= k <= 12 && DaysBeforeMonth(y, k) <= r < DaysBeforeMonth(y, k + 1)
    decreases 12 - m
  {
    if r < DaysBeforeMonth(y, m + 1) then m else MonthOf(y, r, m + 1)
  }

  /** The date of a day, its time still midnight. */
  function DateOf(days: nat): (c: Civil)
    ensures 1 <= c.month <= 12 && 1 <= c.day <= 31 && DayNumber(c) == days
    ensures DaysBeforeYear(c.year) <= days < DaysBeforeYear(c.year + 1)
    ensures c.hour == c.minute == c.second == 0
  {
    var year := YearOf(days, 1);
    YearLength(year);
    var ofYear := days - DaysBeforeYear(year);
    var month := MonthOf(year, ofYear, 1);
    MonthLength(year, month);
    Civil(year, month, ofYear - DaysBeforeMonth(year, month) + 1, 0, 0, 0)
  }

  lemma MonthLength(y: int, m: int)
    requires 1 <= m <= 12
    ensures DaysBeforeMonth(y, m) < DaysBeforeMonth(y, m + 1) <= DaysBeforeMonth(y, m) + 31
  {
  }

  /** A second of the day as hours, minutes and seconds. */
  lemma ClockParts(rest: int)
    requires 0 <= rest < 86400
    ensures 0 <= rest / 3600 < 24 && 0 <= rest / 60 % 60 < 60 && 0 <= rest % 60 < 60
    ensures rest / 3600 * 3600 + rest / 60 % 60 * 60 + rest % 60 == rest
  {
    assert rest / 60 / 60 == rest / 3600;
  }

  /** The whole seconds, and the days, of an instant; what is below a second is dropped. */
  function WholeSeconds(instant: nat): nat {
    instant / SECOND
  }

  function WholeDays(instant: nat): nat {
    WholeSeconds(instant) / 86400
  }

  /** The civil time, in UTC, of an instant. */
  function CivilOf(instant: nat): Civil {
    var date := DateOf(WholeDays(instant));
    var rest := WholeSeconds(instant) % 86400;
    Civil(date.year, date.month, date.day, rest / 3600, rest / 60 % 60, rest % 60)
  }

  /** It denotes the instant, to the second. */
  lemma CivilDenotes(instant: nat)
    ensures var c := CivilOf(instant); 1 <= c.month <= 12 && SecondsOf(c) == WholeSeconds(instant)
  {
    var c, date, rest := CivilOf(instant), DateOf(WholeDays(instant)), WholeSeconds(instant) % 86400;
    ClockParts(rest);
    assert DayNumber(c) == DayNumber(date);
  }

  // ---- It is the calendar ----

  /** How long a month is: "thirty days hath September, April, June and November". */
  function MonthDays(y: int, m: int): int {
    if m == 4 || m == 6 || m == 9 || m == 11 then 30
    else if m != 2 then 31
    else if y % 400 == 0 then 29
    else if y % 100 == 0 then 28
    else if y % 4 == 0 then 29
    else 28
  }

  predicate IsDate(c: Civil) {
    1 <= c.year && 1 <= c.month <= 12 && 1 <= c.day <= MonthDays(c.year, c.month) && c.hour == c.minute == c.second == 0
  }

  lemma TableIsMonthDays(y: int, m: int)
    requires 1 <= m <= 12
    ensures DaysBeforeMonth(y, m + 1) == DaysBeforeMonth(y, m) + MonthDays(y, m)
    ensures DaysBeforeMonth(y, 1) == 0
  {
    FourHundredthYears(y);
  }

  lemma {:induction false} MonthsAscend(y: int, a: int, b: int)
    requires 1 <= a <= b <= 13
    ensures DaysBeforeMonth(y, a) <= DaysBeforeMonth(y, b)
    decreases b - a
  {
    if a < b {
      TableIsMonthDays(y, b - 1);
      MonthsAscend(y, a, b - 1);
    }
  }

  /** The date of a day is the only one there is with its day number, and no month is overrun. */
  lemma DateIsUnique(c: Civil)
    requires IsDate(c)
    ensures DayNumber(c) >= 0 && DateOf(DayNumber(c)) == c
  {
    var n := DayNumber(c);
    TableIsMonthDays(c.year, c.month);
    MonthsAscend(c.year, 1, c.month);
    MonthsAscend(c.year, c.month + 1, 13);
    YearLength(c.year);
    YearsAscend(1, c.year);
    assert DaysBeforeYear(1) == 0;
    var d := DateOf(n);
    if d.year < c.year { YearsAscend(d.year + 1, c.year); }
    if d.year > c.year { YearsAscend(c.year + 1, d.year); }
    DateInMonth(n);
    TableIsMonthDays(d.year, d.month);
    if d.month < c.month { MonthsAscend(c.year, d.month + 1, c.month); }
    if d.month > c.month { MonthsAscend(c.year, c.month + 1, d.month); }
  }

  lemma DateInMonth(days: nat)
    ensures IsDate(DateOf(days))
  {
    var year := YearOf(days, 1);
    YearLength(year);
    var ofYear := days - DaysBeforeYear(year);
    var month := MonthOf(year, ofYear, 1);
    TableIsMonthDays(year, month);
    MonthLength(year, month);
  }

  /** The next date of the calendar. */
  function NextDate(c: Civil): Civil {
    if c.day < MonthDays(c.year, c.month) then c.(day := c.day + 1)
    else if c.month < 12 then c.(month := c.month + 1, day := 1)
    else c.(year := c.year + 1, month := 1, day := 1)
  }

  lemma NextDateIsNext(c: Civil)
    requires IsDate(c)
    ensures IsDate(NextDate(c)) && DayNumber(NextDate(c)) == DayNumber(c) + 1
  {
    TableIsMonthDays(c.year, c.month);
    if c.month == 12 {
      YearLength(c.year);
      TableIsMonthDays(c.year + 1, 1);
    }
  }

  /** Days are dated by the calendar: no date overruns its month, and every day has the date that
      follows that of the day before. */
  lemma DatesFollowTheCalendar(days: nat)
    ensures IsDate(DateOf(days)) && DateOf(days + 1) == NextDate(DateOf(days))
  {
    DateInMonth(days);
    FollowingDay(DateOf(days), days);
  }

  lemma FollowingDay(c: Civil, days: nat)
    requires IsDate(c) && DayNumber(c) == days
    ensures DateOf(days + 1) == NextDate(c)
  {
    NextDateIsNext(c);
    DateIsUnique(NextDate(c));
  }

  /** Days everyone knows: 1 January of year 1 is the first of all, Unix time starts 719162 days
      later, and there is a leap day at the turn of a century. */
  lemma KnownDays(c: Civil)
    requires IsDate(c)
    ensures c.year == 1 && c.month == 1 && c.day == 1 ==> DayNumber(c) == 0
    ensures c.year == 1970 && c.month == 1 && c.day == 1 ==> DayNumber(c) == 719162
    ensures c.year == 2000 && c.month == 2 && c.day == 29 ==> DayNumber(c) == 730178
  {
    TableIsMonthDays(c.year, 1);
  }

  /** How many of `n` years from `y` on are leap years. */
  function LeapYears(y: int, n: nat): nat {
    if n == 0 then 0 else LeapYears(y, n - 1) + (if MonthDays(y + n - 1, 2) == 29 then 1 else 0)
  }

  lemma YearHas(y: int)
    ensures DaysBeforeYear(y + 1) == DaysBeforeYear(y) + 365 + (if MonthDays(y, 2) == 29 then 1 else 0)
  {
    YearLength(y);
    FourHundredthYears(y);
  }

  lemma {:induction false} LeapYearsCount(y: int, n: nat)
    ensures DaysBeforeYear(y + n) == DaysBeforeYear(y) + 365 * n + LeapYears(y, n)
  {
    if n > 0 {
      LeapYearsCount(y, n - 1);
      YearHas(y + n - 1);
    }
  }

  lemma FourCenturies(y: int)
    ensures DaysBeforeYear(y + 400) == DaysBeforeYear(y) + 400 * 365 + 97
  {
    assert (y + 399) / 4 == (y - 1) / 4 + 100;
    assert (y + 399) / 100 == (y - 1) / 100 + 4;
    assert (y + 399) / 400 == (y - 1) / 400 + 1;
  }

  /** Any 400 years hold 97 leap years. */
  lemma LeapYearsIn400(y: int, n: nat)
    requires n == 400
    ensures LeapYears(y, n) == 97
  {
    LeapYearsCount(y, n);
    FourCenturies(y);
  }

  /** The civil time of an instant: the date of its day, and the time of that day, to the second. */
  lemma CivilIsDateAndTime(instant: nat)
    ensures var c := CivilOf(instant);
            && IsDate(c.(hour := 0, minute := 0, second := 0))
            && c.(hour := 0, minute := 0, second := 0) == DateOf(instant / 1000000 / 86400)
            && 0 <= c.hour < 24 && 0 <= c.minute < 60 && 0 <= c.second < 60
            && c.hour * 3600 + c.minute * 60 + c.second == instant / 1000000 % 86400
  {
    DateInMonth(WholeDays(instant));
    ClockParts(WholeSeconds(instant) % 86400);
  }

  // ---- Digits ----

  function Digit(n: int): char
    requires 0 <= n <= 9
  {
    '0' + n as char
  }

  function DigitValue(c: char): Option<int> {
    if '0' <= c <= '9' then Some((c - '0') as int) else None
  }

  function ReadTwo(tens: char, ones: char): Option<int> {
    var a, b := DigitValue(tens), DigitValue(ones);
    if a.Some? && b.Some? then Some(10 * a.value + b.value) else None
  }

  lemma TwoReads(n: int)
    requires 0 <= n <= 99
    ensures ReadTwo(Digit(n / 10), Digit(n % 10)) == Some(n)
    ensures '0' <= Digit(n / 10) <= '9' && '0' <= Digit(n % 10) <= '9'
  {
    DigitReads(n / 10);
    DigitReads(n % 10);
  }

  lemma DigitReads(n: int)
    requires 0 <= n <= 9
    ensures DigitValue(Digit(n)) == Some(n) && '0' <= Digit(n) <= '9'
  {
  }

  // ---- The timestamp ----

  /** RFC 3339's date-time, in UTC and whole seconds. */
  function Stamp(c: Civil): string
    requires Printable(c)
  {
    var y, z := c.year / 100, c.year % 100;
    [Digit(y / 10), Digit(y % 10), Digit(z / 10), Digit(z % 10), '-',
     Digit(c.month / 10), Digit(c.month % 10), '-', Digit(c.day / 10), Digit(c.day % 10), 'T',
     Digit(c.hour / 10), Digit(c.hour % 10), ':', Digit(c.minute / 10), Digit(c.minute % 10), ':',
     Digit(c.second / 10), Digit(c.second % 10), 'Z']
  }

  /** Reads such a timestamp back, as seconds since the start of year 1. */
  function ReadStamp(s: string): Option<int> {
    if |s| != 20 || s[4] != '-' || s[7] != '-' || s[10] != 'T' || s[13] != ':' || s[16] != ':' || s[19] != 'Z' then None
    else
      ReadFields(ReadTwo(s[0], s[1]), ReadTwo(s[2], s[3]), ReadTwo(s[5], s[6]), ReadTwo(s[8], s[9]),
                 ReadTwo(s[11], s[12]), ReadTwo(s[14], s[15]), ReadTwo(s[17], s[18]))
  }

  function ReadFields(c: Option<int>, y: Option<int>, mo: Option<int>, d: Option<int>,
                      h: Option<int>, mi: Option<int>, s: Option<int>): Option<int> {
    if c.None? || y.None? || mo.None? || d.None? || h.None? || mi.None? || s.None? then None
    else if !(1 <= mo.value <= 12) then None
    else Some(SecondsOf(Civil(100 * c.value + y.value, mo.value, d.value, h.value, mi.value, s.value)))
  }

  lemma StampShape(c: Civil)
    requires Printable(c)
    ensures var s, y, z := Stamp(c), c.year / 100, c.year % 100;
            && |s| == 20 && s[4] == '-' && s[7] == '-' && s[10] == 'T' && s[13] == ':' && s[16] == ':' && s[19] == 'Z'
            && s[0] == Digit(y / 10) && s[1] == Digit(y % 10) && s[2] == Digit(z / 10) && s[3] == Digit(z % 10)
            && s[5] == Digit(c.month / 10) && s[6] == Digit(c.month % 10)
            && s[8] == Digit(c.day / 10) && s[9] == Digit(c.day % 10)
            && s[11] == Digit(c.hour / 10) && s[12] == Digit(c.hour % 10)
            && s[14] == Digit(c.minute / 10) && s[15] == Digit(c.minute % 10)
            && s[17] == Digit(c.second / 10) && s[18] == Digit(c.second % 10)
  {
  }

  lemma StampDigits(c: Civil)
    requires Printable(c)
    ensures var s := Stamp(c);
            && ReadTwo(s[0], s[1]) == Some(c.year / 100) && ReadTwo(s[2], s[3]) == Some(c.year % 100)
            && ReadTwo(s[5], s[6]) == Some(c.month) && ReadTwo(s[8], s[9]) == Some(c.day)
            && ReadTwo(s[11], s[12]) == Some(c.hour) && ReadTwo(s[14], s[15]) == Some(c.minute)
            && ReadTwo(s[17], s[18]) == Some(c.second)
  {
    StampShape(c);
    TwoReads(c.year / 100);
    TwoReads(c.year % 100);
    TwoReads(c.month);
    TwoReads(c.day);
    TwoReads(c.hour);
    TwoReads(c.minute);
    TwoReads(c.second);
  }

  /** Printing a civil time and reading it back gives its instant. */
  lemma StampReadsBack(c: Civil)
    requires Printable(c)
    ensures ReadStamp(Stamp(c)) == Some(SecondsOf(c))
  {
    StampShape(c);
    StampDigits(c);
    FieldsReadBack(c);
  }

  lemma FieldsReadBack(c: Civil)
    requires 1 <= c.month <= 12
    ensures ReadFields(Some(c.year / 100), Some(c.year % 100), Some(c.month), Some(c.day), Some(c.hour),
              Some(c.minute), Some(c.second))
            == Some(SecondsOf(c))
  {
    assert Civil(100 * (c.year / 100) + c.year % 100, c.month, c.day, c.hour, c.minute, c.second) == c;
  }

  /** What one looks like. */
  lemma StampLooksLike()
    ensures Stamp(Civil(2026, 3, 1, 7, 5, 9)) == "2026-03-01T07:05:09Z"
  {
    StampShape(Civil(2026, 3, 1, 7, 5, 9));
  }

  /** A timestamp holds no line break. */
  lemma StampIsOneLine(c: Civil)
    requires Printable(c)
    ensures '\n' !in Stamp(c)
  {
    TwoReads(c.year / 100);
    TwoReads(c.year % 100);
    TwoReads(c.month);
    TwoReads(c.day);
    TwoReads(c.hour);
    TwoReads(c.minute);
    TwoReads(c.second);
  }

  /** The instants whose year prints with four digits. */
  predicate FourDigitYear(instant: nat) {
    DaysBeforeYear(1000) <= WholeDays(instant) < DaysBeforeYear(10000)
  }

  lemma {:induction false} YearsAscend(a: int, b: int)
    requires a <= b
    ensures DaysBeforeYear(a) <= DaysBeforeYear(b)
    decreases b - a
  {
    if a < b {
      YearLength(b - 1);
      YearsAscend(a, b - 1);
    }
  }

  lemma FourDigitsPrintable(instant: nat)
    requires FourDigitYear(instant)
    ensures Printable(CivilOf(instant)) && 1000 <= CivilOf(instant).year
  {
    var days := WholeDays(instant);
    var y := DateOf(days).year;
    ClockParts(WholeSeconds(instant) % 86400);
    if y < 1000 { YearsAscend(y + 1, 1000); }
    if y >= 10000 { YearsAscend(10000, y); }
  }

  /** An instant at or after the start of day `n` falls on day `n` or later, and one before the
      start of day `m` falls before it. */
  lemma DaysOf(instant: nat, n: int, m: int)
    ensures n * DAY <= instant ==> n <= WholeDays(instant)
    ensures instant < m * DAY ==> WholeDays(instant) < m
  {
  }
}
