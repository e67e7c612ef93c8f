/** The day number a DATE travels as, and the date read back from it.

    The writer computes with Go's `/`, which truncates toward zero. Counted from the
    first of March, a year of the calendar is exact for the writer when it is not
    negative, and otherwise only when it is a leap year; `WriterIsExact` states this. */
module Calendar {
  import opened Bytes

  datatype Date = Date(year: int, month: int, day: int)

  predicate LeapYear(y: int) {
    y % 4 == 0 && (y % 100 != 0 || y % 400 == 0)
  }

  function DaysInMonth(year: int, month: int): int {
    if month == 2 then (if LeapYear(year) then 29 else 28)
    else if month in {4, 6, 9, 11} then 30
    else 31
  }

  /** A date of the proleptic Gregorian calendar, any year. */
  predicate IsDate(d: Date) {
    1 <= d.month <= 12 && 1 <= d.day <= DaysInMonth(d.year, d.month)
  }

  /** The calendar's own successor, by month lengths alone. */
  function NextDay(d: Date): (e: Date)
    requires IsDate(d)
    ensures IsDate(e)
  {
    if d.day < DaysInMonth(d.year, d.month) then d.(day := d.day + 1)
    else if d.month < 12 then Date(d.year, d.month + 1, 1)
    else Date(d.year + 1, 1, 1)
  }

  predicate Before(d: Date, e: Date) {
    d.year < e.year
    || (d.year == e.year && d.month < e.month)
    || (d.year == e.year && d.month == e.month && d.day < e.day)
  }

  /** Go's integer division. */
  function Quot(a: int, b: int): int
    requires b > 0
  {
    if a >= 0 then a / b else -(-a / b)
  }

  /** The year and month of a date when the year starts in March. */
  function MarchYear(d: Date): int {
    d.year + (d.month + 9) / 12 - 1
  }

  function MarchMonth(d: Date): int {
    (d.month + 9) % 12
  }

  /** The day number as the driver computes it. */
  function DayNumber(d: Date): int {
    var i := d.month + 9;
    var jy := d.year + i / 12 - 1;
    var jm := i % 12;
    var c := Quot(jy, 100);
    var y := jy - 100 * c;
    Quot(146097 * c, 4) + Quot(1461 * y, 4) + (153 * jm + 2) / 5 + d.day - 678882
  }

  function ConvertDate(d: Date): seq<byte> {
    Word32BE(DayNumber(d))
  }

  /** The date as the driver reads it back from a day number: the century first, then the
      year in it, then the month. */
  function ParseDay(n: int): Date {
    var nday := n + 678882;
    var century := Quot(4 * nday - 1, 146097);
    ParseInCentury(century, 4 * nday - 1 - 146097 * century)
  }

  function ParseInCentury(century: int, nday: int): Date {
    var day := Quot(nday, 4);
    var years := Quot(4 * day + 3, 1461);
    ParseInYear(100 * century + years, Quot(4 * day + 3 - 1461 * years + 4, 4))
  }

  function ParseInYear(year: int, day: int): Date {
    var month := Quot(5 * day - 3, 153);
    var dayOfMonth := Quot(5 * day - 3 - 153 * month + 5, 5);
    if month < 10 then Date(year, month + 3, dayOfMonth) else Date(year + 1, month - 9, dayOfMonth)
  }

  function ParseDate(raw: seq<byte>): Date
    requires |raw| >= 4
  {
    ParseDay(Int32BE(raw))
  }

  // --- the reference: one day per calendar day --------------------------

  /** Days before the first of March of year `jy`, up to a constant. */
  function DaysBefore(jy: int): int {
    365 * jy + jy / 4 - jy / 100 + jy / 400
  }

  /** The day count with every division rounding down, for any year. */
  function TrueDay(d: Date): int {
    DaysBefore(MarchYear(d)) + DayOfYear(d) - 678882
  }

  /** The position of a date in its March-based year, from 1. */
  function DayOfYear(d: Date): int {
    (153 * MarchMonth(d) + 2) / 5 + d.day
  }

  lemma YearLength(jy: int)
    ensures DaysBefore(jy + 1) - DaysBefore(jy) == if LeapYear(jy + 1) then 366 else 365
  {
    hide DaysBefore;
    Step(jy, 4);
    Step(jy, 100);
    Step(jy, 400);
    YearSteps(jy);
    Multiples(jy + 1);
  }

  lemma Multiples(l: int)
    ensures l % 400 == 0 ==> l % 100 == 0
    ensures l % 100 == 0 ==> l % 4 == 0
  {
    if l % 400 == 0 {
      FoursAndHundreds(4 * (l / 400));
    }
    if l % 100 == 0 {
      FoursAndHundreds(25 * (l / 100));
    }
  }

  lemma FoursAndHundreds(k: int)
    ensures (4 * k) % 4 == 0 && (100 * k) % 100 == 0
  {
  }

  lemma YearSteps(jy: int)
    ensures DaysBefore(jy + 1) - DaysBefore(jy)
            == 365 + ((jy + 1) / 4 - jy / 4) - ((jy + 1) / 100 - jy / 100) + ((jy + 1) / 400 - jy / 400)
  {
  }

  lemma Step(a: int, m: int)
    requires m == 4 || m == 100 || m == 400
    ensures (a + 1) / m - a / m == if (a + 1) % m == 0 then 1 else 0
  {
  }

  lemma NextDayOfYear(d: Date)
    requires IsDate(d)
    ensures var e := NextDay(d);
            if d.month == 2 && d.day == DaysInMonth(d.year, 2)
            then MarchYear(e) == MarchYear(d) + 1 && DayOfYear(e) == 1
                 && DayOfYear(d) == if LeapYear(MarchYear(d) + 1) then 366 else 365
            else MarchYear(e) == MarchYear(d) && DayOfYear(e) == DayOfYear(d) + 1
  {
  }

  /** The reference moves by exactly one per calendar day, over all years, and is zero on
      the seventeenth of November 1858: it is the true day number. */
  lemma TrueDaySteps(d: Date)
    requires IsDate(d)
    ensures TrueDay(NextDay(d)) == TrueDay(d) + 1
    ensures TrueDay(Date(1858, 11, 17)) == 0
  {
    NextDayOfYear(d);
    YearLength(MarchYear(d));
    Epoch();
  }

  lemma Epoch()
    ensures TrueDay(Date(1858, 11, 17)) == 0
  {
    assert MarchYear(Date(1858, 11, 17)) == 1858;
    assert DaysBefore(1858) == 678620;
    assert DayOfYear(Date(1858, 11, 17)) == 262;
  }

  lemma YearsAscend(a: int, b: int)
    requires a < b
    ensures DaysBefore(a) + 365 <= DaysBefore(b)
    ensures LeapYear(a + 1) ==> DaysBefore(a) + 366 <= DaysBefore(b)
    decreases b - a
  {
    YearLength(a);
    if a + 1 < b {
      YearsAscend(a + 1, b);
    }
  }

  lemma MonthLayout(d: Date)
    requires IsDate(d)
    ensures 0 <= MarchMonth(d) < 12
    ensures MarchMonth(d) < 10 ==> d.month == MarchMonth(d) + 3 && d.year == MarchYear(d)
    ensures MarchMonth(d) >= 10 ==> d.month == MarchMonth(d) - 9 && d.year == MarchYear(d) + 1
    ensures 1 <= DayOfYear(d) <= (if LeapYear(MarchYear(d) + 1) then 366 else 365)
    ensures 1 <= d.day <= 31 && (MarchMonth(d) == 11 ==> d.day <= 29)
    ensures MarchMonth(d) < 11 ==> d.day <= (153 * (MarchMonth(d) + 1) + 2) / 5 - (153 * MarchMonth(d) + 2) / 5
  {
  }

  lemma SameYearAscends(d: Date, e: Date)
    requires IsDate(d) && IsDate(e) && Before(d, e) && MarchYear(d) == MarchYear(e)
    ensures DayOfYear(d) < DayOfYear(e)
  {
    MonthLayout(d);
    MonthLayout(e);
    assert MarchMonth(d) <= MarchMonth(e);
    if MarchMonth(d) < MarchMonth(e) {
      assert (153 * MarchMonth(e) + 2) / 5 >= (153 * (MarchMonth(d) + 1) + 2) / 5;
    }
  }

  lemma TrueDayAscends(d: Date, e: Date)
    requires IsDate(d) && IsDate(e) && Before(d, e)
    ensures TrueDay(d) < TrueDay(e)
  {
    if MarchYear(d) == MarchYear(e) {
      SameYearAscends(d, e);
    } else {
      assert MarchYear(d) < MarchYear(e);
      assert 1 <= DayOfYear(e) && DayOfYear(d) <= if LeapYear(MarchYear(d) + 1) then 366 else 365 by {
        MonthLayout(d);
        MonthLayout(e);
      }
      YearsAscend(MarchYear(d), MarchYear(e));
    }
  }

  // --- the writer -------------------------------------------------------

  lemma QuotAndFloor(a: int, b: int)
    requires b == 4 || b == 100
    ensures a >= 0 ==> Quot(a, b) == a / b
    ensures a < 0 && a % b == 0 ==> Quot(a, b) == a / b
    ensures a < 0 && a % b != 0 ==> Quot(a, b) == a / b + 1
  {
    if b == 4 {
      assert -a == 4 * (-a / 4) + -a % 4;
    } else {
      assert -a == 100 * (-a / 100) + -a % 100;
    }
  }

  /** The years part of the writer, taken from the truncated century. */
  function WriterDaysBefore(jy: int): int {
    var c := Quot(jy, 100);
    Quot(146097 * c, 4) + Quot(1461 * (jy - 100 * c), 4)
  }

  lemma QuotShift(k: int, a: int)
    requires k >= 0 ==> a >= 0
    requires k <= 0 ==> a <= 0
    ensures Quot(4 * k + a, 4) == k + Quot(a, 4)
  {
    QuotAndFloor(4 * k + a, 4);
    QuotAndFloor(a, 4);
  }

  lemma WriterValue(jy: int, c: int, y: int)
    requires c == Quot(jy, 100) && y == jy - 100 * c
    ensures WriterDaysBefore(jy) == 365 * jy + 24 * c + Quot(c, 4) + Quot(y, 4)
    ensures if jy >= 0 then 0 <= y < 100 && c >= 0 else -100 < y <= 0 && c <= 0
  {
    QuotAndFloor(jy, 100);
    assert 146097 * c == 4 * (36524 * c) + c;
    assert 1461 * y == 4 * (365 * y) + y;
    QuotShift(36524 * c, c);
    QuotShift(365 * y, y);
  }

  lemma WriterYears(jy: int)
    ensures WriterDaysBefore(jy) == DaysBefore(jy) <==> jy >= 0 || LeapYear(jy)
    ensures jy < 0 && !LeapYear(jy) ==> WriterDaysBefore(jy) == DaysBefore(jy) + 1
  {
    var c := Quot(jy, 100);
    var y := jy - 100 * c;
    WriterValue(jy, c, y);
    Floors(jy, c, y);
    QuotAndFloor(c, 4);
    QuotAndFloor(y, 4);
  }

  /** The floors of the reference, from the truncated century and the signed rest. */
  lemma Floors(jy: int, c: int, y: int)
    requires jy == 100 * c + y
    requires if jy >= 0 then 0 <= y < 100 else -100 < y <= 0 && c <= 0
    ensures jy / 4 == 25 * c + y / 4 && jy % 4 == y % 4
    ensures if y >= 0 then jy / 100 == c && jy / 400 == c / 4 else jy / 100 == c - 1 && jy / 400 == (c - 1) / 4
    ensures jy % 100 == 0 <==> y == 0
    ensures y == 0 ==> (jy % 400 == 0 <==> c % 4 == 0)
  {
    assert jy == 4 * (25 * c) + y;
  }

  /** The driver's day number is the true one exactly when the March-based year is not
      negative or is a leap year; in every other year it is one too large. */
  lemma WriterIsExact(d: Date)
    ensures DayNumber(d) == TrueDay(d) <==> MarchYear(d) >= 0 || LeapYear(MarchYear(d))
    ensures MarchYear(d) < 0 && !LeapYear(MarchYear(d)) ==> DayNumber(d) == TrueDay(d) + 1
  {
    WriterParts(d);
    hide *;
    WriterYears(MarchYear(d));
  }

  lemma WriterParts(d: Date)
    ensures DayNumber(d) == WriterDaysBefore(MarchYear(d)) + DayOfYear(d) - 678882
    ensures TrueDay(d) == DaysBefore(MarchYear(d)) + DayOfYear(d) - 678882
  {
    hide Quot, DaysBefore;
  }

  /** From year 1 on (indeed from the first of March of year 0) the next calendar day is
      the next number. */
  lemma NextDayIsNextNumber(d: Date)
    requires IsDate(d) && MarchYear(d) >= 0
    ensures DayNumber(NextDay(d)) == DayNumber(d) + 1
    ensures DayNumber(Date(1858, 11, 17)) == 0
  {
    NextDayOfYear(d);
    WriterIsExact(d);
    WriterIsExact(NextDay(d));
    TrueDaySteps(d);
    WriterIsExact(Date(1858, 11, 17));
  }

  /** The last day of February of year 0 and the first of March share one number: the
      smallest pair of dates on which truncation shows. */
  lemma TruncationCollision()
    ensures NextDay(Date(0, 2, 29)) == Date(0, 3, 1)
    ensures DayNumber(Date(0, 2, 29)) == DayNumber(Date(0, 3, 1))
  {
    var d, e := Date(0, 2, 29), Date(0, 3, 1);
    assert IsDate(d) && NextDay(d) == e;
    assert MarchYear(d) == -1 && !LeapYear(-1) && MarchYear(e) == 0;
    hide *;
    WriterIsExact(d);
    WriterIsExact(e);
    TrueDaySteps(d);
  }

  /** The numbers order dates as the calendar does, so no two dates share one. */
  lemma NumbersOrderDates(d: Date, e: Date)
    requires IsDate(d) && IsDate(e) && MarchYear(d) >= 0 && MarchYear(e) >= 0
    ensures DayNumber(d) < DayNumber(e) <==> Before(d, e)
    ensures DayNumber(d) == DayNumber(e) <==> d == e
  {
    WriterIsExact(d);
    WriterIsExact(e);
    if Before(d, e) {
      TrueDayAscends(d, e);
    } else if Before(e, d) {
      TrueDayAscends(e, d);
    } else {
      assert d == e;
    }
  }

  /** Whether truncation makes the number of a date one too large. */
  predicate OneTooLarge(d: Date) {
    MarchYear(d) < 0 && !LeapYear(MarchYear(d))
  }

  /** Over all years numbers never go down, and two dates share one exactly when they are
      neighbours and only the number of the earlier one is too large. */
  lemma SharedNumbers(d: Date, e: Date)
    requires IsDate(d) && IsDate(e) && Before(d, e)
    ensures DayNumber(d) <= DayNumber(e)
    ensures DayNumber(d) == DayNumber(e) <==> e == NextDay(d) && OneTooLarge(d) && !OneTooLarge(e)
  {
    WriterIsExact(d);
    WriterIsExact(e);
    hide DayNumber, TrueDay, IsDate, Before;
    TrueDayAscends(d, e);
    TrueDaySteps(d);
    if TrueDay(e) == TrueDay(d) + 1 {
      SameTrueDay(e, NextDay(d));
    }
  }

  lemma SameTrueDay(d: Date, e: Date)
    requires IsDate(d) && IsDate(e) && TrueDay(d) == TrueDay(e)
    ensures d == e
  {
    hide TrueDay, IsDate;
    if Before(d, e) {
      TrueDayAscends(d, e);
    } else if Before(e, d) {
      TrueDayAscends(e, d);
    }
  }

  // --- reading back -----------------------------------------------------

  /** Century `c` and year `y` in it with their quarters, and the day `at` of that year:
      the last day of a leap year only where there is one. */
  predicate Parts(c: int, c4: int, y: int, y4: int, at: int) {
    && c >= 0 && 0 <= c - 4 * c4 < 4 && 0 <= y < 100 && 0 <= y - 4 * y4 < 4
    && 1 <= at <= 366 && (at == 366 ==> y - 4 * y4 == 3 && (y == 99 ==> c - 4 * c4 == 3))
  }

  function Packed(c: int, c4: int, y: int, y4: int, at: int): int {
    36524 * c + c4 + 365 * y + y4 + at - 678882
  }

  lemma ParseCentury(c: int, c4: int, y: int, y4: int, at: int)
    requires Parts(c, c4, y, y4, at)
    ensures ParseDay(Packed(c, c4, y, y4, at)) == ParseInCentury(c, 4 * (365 * y + y4 + at) - 1 - (c - 4 * c4))
  {
    var left := 4 * (365 * y + y4 + at) - 1 - (c - 4 * c4);
    assert 0 <= left < 146097;
    CenturyOf(Packed(c, c4, y, y4, at), c, left);
  }

  lemma CenturyOf(n: int, c: int, left: int)
    requires 4 * (n + 678882) - 1 == 146097 * c + left && c >= 0 && 0 <= left < 146097
    ensures ParseDay(n) == ParseInCentury(c, left)
  {
    assert (4 * (n + 678882) - 1) / 146097 == c;
  }

  lemma ParseYear(c: int, c4: int, y: int, y4: int, at: int)
    requires Parts(c, c4, y, y4, at)
    ensures ParseInCentury(c, 4 * (365 * y + y4 + at) - 1 - (c - 4 * c4)) == ParseInYear(100 * c + y, at)
  {
    YearOf(c, 4 * (365 * y + y4 + at) - 1 - (c - 4 * c4), 365 * y + y4 + at - 1, y,
           4 * (at - 1) + 3 - (y - 4 * y4), at);
  }

  lemma YearOf(c: int, nday: int, day: int, y: int, left: int, at: int)
    requires 0 <= nday - 4 * day < 4 && day >= 0
    requires 4 * day + 3 == 1461 * y + left && 0 <= left < 1461 && 0 <= left + 4 - 4 * at < 4
    ensures ParseInCentury(c, nday) == ParseInYear(100 * c + y, at)
  {
    assert nday / 4 == day;
    assert (4 * day + 3) / 1461 == y;
    assert (left + 4) / 4 == at;
  }

  lemma ParseMonth(year: int, m: int, day: int)
    requires 0 <= m < 12 && 1 <= day <= 31
    requires m < 11 ==> day <= (153 * (m + 1) + 2) / 5 - (153 * m + 2) / 5
    requires m == 11 ==> day <= 29
    ensures ParseInYear(year, (153 * m + 2) / 5 + day)
         == if m < 10 then Date(year, m + 3, day) else Date(year + 1, m - 9, day)
  {
    var at := (153 * m + 2) / 5 + day;
    assert (5 * at - 3) / 153 == m && (5 * at - 3 - 153 * m + 5) / 5 == day;
  }

  lemma LeapDay(c: int, y: int)
    requires 0 <= y < 100
    ensures LeapYear(100 * c + y + 1) ==> y % 4 == 3 && (y == 99 ==> c % 4 == 3)
  {
    var l := 100 * c + y + 1;
    assert LeapYear(l) ==> l % 4 == 0 && (l % 100 == 0 ==> l % 400 == 0);
    hide LeapYear;
    FoursApart(25 * c, y + 1);
    Hundreds(c + 1);
  }

  lemma FoursApart(k: int, a: int)
    ensures (4 * k + a) % 4 == a % 4
  {
  }

  lemma Hundreds(c: int)
    ensures (100 * c) % 100 == 0
    ensures (100 * c) % 400 == 0 ==> c % 4 == 0
  {
    var q := 100 * c / 400;
    assert (100 * c) % 400 == 0 ==> 100 * c == 400 * q;
  }

  lemma DateParts(d: Date, c: int, y: int)
    requires IsDate(d) && MarchYear(d) == 100 * c + y && c >= 0 && 0 <= y < 100
    ensures Parts(c, c / 4, y, y / 4, DayOfYear(d))
  {
    MonthLayout(d);
    LeapDay(c, y);
  }

  lemma NumberParts(d: Date, c: int, y: int)
    requires MarchYear(d) == 100 * c + y && c >= 0 && 0 <= y < 100
    ensures DayNumber(d) == Packed(c, c / 4, y, y / 4, DayOfYear(d))
  {
    WriterParts(d);
    hide *;
    TruncatedCentury(c, y);
    WriterValue(100 * c + y, c, y);
    PositiveQuarters(c, y);
  }

  lemma TruncatedCentury(c: int, y: int)
    requires c >= 0 && 0 <= y < 100
    ensures Quot(100 * c + y, 100) == c
  {
    assert (100 * c + y) / 100 == c;
  }

  lemma PositiveQuarters(c: int, y: int)
    requires c >= 0 && y >= 0
    ensures Quot(c, 4) == c / 4 && Quot(y, 4) == y / 4
    ensures Packed(c, c / 4, y, y / 4, 0) == 365 * (100 * c + y) + 24 * c + c / 4 + y / 4 - 678882
    ensures forall at :: Packed(c, c / 4, y, y / 4, at) == Packed(c, c / 4, y, y / 4, 0) + at
  {
  }

  lemma ParseWritten(d: Date)
    requires IsDate(d) && MarchYear(d) >= 0
    ensures ParseDay(DayNumber(d)) == d
  {
    var c, y := MarchYear(d) / 100, MarchYear(d) % 100;
    DateParts(d, c, y);
    NumberParts(d, c, y);
    ParseParts(d, c, c / 4, y, y / 4);
  }

  lemma ParseParts(d: Date, c: int, c4: int, y: int, y4: int)
    requires IsDate(d) && MarchYear(d) == 100 * c + y
    requires Parts(c, c4, y, y4, DayOfYear(d))
    ensures ParseDay(Packed(c, c4, y, y4, DayOfYear(d))) == d
  {
    hide *;
    ParseCentury(c, c4, y, y4, DayOfYear(d));
    ParseYear(c, c4, y, y4, DayOfYear(d));
    FromMarch(d, 100 * c + y);
  }

  lemma FromMarch(d: Date, year: int)
    requires IsDate(d) && year == MarchYear(d)
    ensures ParseInYear(year, DayOfYear(d)) == d
  {
    MonthLayout(d);
    ParseMonth(year, MarchMonth(d), d.day);
  }

  /** Every number from that of the first of March of year 0 on is some date's number. */
  lemma {:induction false} EveryNumberIsADay(n: int) returns (d: Date)
    requires n >= -678881
    ensures IsDate(d) && MarchYear(d) >= 0 && DayNumber(d) == n
    decreases n + 678881
  {
    if n == -678881 {
      d := Date(0, 3, 1);
    } else {
      var e := EveryNumberIsADay(n - 1);
      NextDayIsNextNumber(e);
      d := NextDay(e);
    }
  }

  lemma ReadIsWritten(n: int)
    requires n >= -678881
    ensures IsDate(ParseDay(n)) && MarchYear(ParseDay(n)) >= 0 && DayNumber(ParseDay(n)) == n
  {
    var d := EveryNumberIsADay(n);
    ParseWritten(d);
  }

  // --- reading numbers before the first of March of year 0 ---------------------

  lemma QuotBack(a: int, b: int)
    requires a <= 0 < b
    ensures Quot(a, b) <= 0 && b * Quot(a, b) - b < a <= b * Quot(a, b)
  {
    assert -a == b * (-a / b) + -a % b;
  }

  /** The century and the year in it that are read from such a number, and what is left of its
      fourfold. */
  lemma EarlyParts(n: int) returns (c: int, y: int, left: int)
    requires n < -678881
    ensures ParseDay(n) == ParseInYear(100 * c + y, Quot(left + 4, 4))
    ensures c <= 0 && -100 < y <= 0 && -1461 < left <= 3
    ensures var whole := 146097 * c + 1461 * y + left; whole - 7 < 4 * (n + 678882) - 1 <= whole - 3
  {
    var rest;
    c, rest := EarlyCentury(n);
    y, left := EarlyYear(c, rest);
  }

  lemma EarlyCentury(n: int) returns (c: int, rest: int)
    requires n < -678881
    ensures ParseDay(n) == ParseInCentury(c, rest)
    ensures c <= 0 && -146097 < rest <= 0 && 4 * (n + 678882) - 1 == 146097 * c + rest
  {
    hide Quot, ParseInCentury;
    var all := 4 * (n + 678882) - 1;
    c := Quot(all, 146097);
    QuotBack(all, 146097);
    rest := all - 146097 * c;
  }

  lemma EarlyYear(c: int, rest: int) returns (y: int, left: int)
    requires -146097 < rest <= 0
    ensures ParseInCentury(c, rest) == ParseInYear(100 * c + y, Quot(left + 4, 4))
    ensures -100 < y <= 0 && -1461 < left <= 3
    ensures 1461 * y + left - 7 < rest <= 1461 * y + left - 3
  {
    assert Quot(3, 1461) == 0;
    hide Quot, ParseInYear;
    var day := Quot(rest, 4);
    QuotBack(rest, 4);
    y := Quot(4 * day + 3, 1461);
    if day < 0 {
      QuotBack(4 * day + 3, 1461);
      assert 4 * day + 3 > -1461 * 100;
      assert y <= -100 ==> 1461 * y <= -1461 * 100;
    }
    left := 4 * day + 3 - 1461 * y;
  }

  /** Of what is read there only the first of March and the first of February are dates. */
  lemma OnlyFirsts(year: int, left: int)
    requires -1461 < left <= 3
    requires IsDate(ParseInYear(year, Quot(left + 4, 4)))
    ensures var d := ParseInYear(year, Quot(left + 4, 4));
            (d == Date(year, 3, 1) && left >= 0) || (d == Date(year, 2, 1) && -127 <= left <= -124)
  {
    var at := Quot(left + 4, 4);
    assert -364 <= at <= 1 && (at == 1 ==> left >= 0);
    if at <= 0 {
      var all := 5 * at - 3;
      var month := Quot(all, 153);
      QuotBack(all, 153);
      var day := all - 153 * month;
      assert ParseInYear(year, at) == Date(year, month + 3, Quot(day + 5, 5));
      assert day == 0;
      assert 5 * at == 153 * month + 3 && month >= -2;
      assert month == -1;
    }
  }

  /** Four times the days the writer counts before a year that is not positive. */
  lemma EarlyYears(jy: int, c: int, y: int)
    requires jy == 100 * c + y && c <= 0 && -100 < y <= 0
    ensures 146097 * c + 1461 * y <= 4 * WriterDaysBefore(jy) <= 146097 * c + 1461 * y + 6
  {
    QuotBack(jy, 100);
    assert Quot(jy, 100) == c;
    WriterValue(jy, c, y);
    QuotBack(c, 4);
    QuotBack(y, 4);
  }

  /** A date read from such a number has a later number itself. */
  lemma EarlyRead(n: int)
    requires n < -678881 && IsDate(ParseDay(n))
    ensures 1 <= DayNumber(ParseDay(n)) - n <= 10
  {
    hide DayNumber, ParseDay, ParseInYear, WriterDaysBefore, Quot;
    var c, y, left := EarlyParts(n);
    var year, d := 100 * c + y, ParseDay(n);
    OnlyFirsts(year, left);
    WriterParts(d);
    if d.month == 3 {
      assert MarchYear(d) == year && DayOfYear(d) == 1;
      EarlyYears(year, c, y);
    } else {
      assert MarchYear(d) == year - 1 && DayOfYear(d) == 338;
      if y > -99 {
        EarlyYears(year - 1, c, y - 1);
      } else {
        EarlyYears(year - 1, c - 1, 0);
      }
    }
  }

  /** Reading and writing again gives back a number exactly when it is that of the first of
      March of year 0 or a later one; before that no date that is read has the number. */
  lemma DayNumberUndoesParse(n: int)
    ensures IsDate(ParseDay(n)) && DayNumber(ParseDay(n)) == n <==> n >= -678881
    ensures IsDate(ParseDay(n)) ==> n <= DayNumber(ParseDay(n)) <= n + 10
    ensures n >= -678881 ==> MarchYear(ParseDay(n)) >= 0
  {
    hide *;
    if n >= -678881 {
      ReadIsWritten(n);
    } else if IsDate(ParseDay(n)) {
      EarlyRead(n);
    }
  }

  /** Reading a written day number gives back the date exactly when it is the first of March of
      year 0 or later. */
  lemma ParseUndoesDayNumber(d: Date)
    requires IsDate(d)
    ensures ParseDay(DayNumber(d)) == d <==> MarchYear(d) >= 0
  {
    hide *;
    if MarchYear(d) >= 0 {
      ParseWritten(d);
    } else {
      DayNumberUndoesParse(DayNumber(d));
    }
  }

  /** Over the wire: the four bytes carry a date exactly when it is not before the first of March
      of year 0 and its number fits an int32. */
  lemma DateRoundTrip(d: Date)
    requires IsDate(d)
    ensures |ConvertDate(d)| == 4
    ensures ParseDate(ConvertDate(d)) == d <==> MarchYear(d) >= 0 && FitsInt32(DayNumber(d))
  {
    var n := DayNumber(d);
    ParseUndoesDayNumber(d);
    Int32RoundTrip(n);
    WrapsFar(n);
    var m := ToInt32(n);
    assert ParseDate(ConvertDate(d)) == ParseDay(m) && |ConvertDate(d)| == 4;
    hide *;
    DayNumberUndoesParse(m);
  }

  lemma WrapsFar(n: int)
    ensures FitsInt32(n) ==> ToInt32(n) == n
    ensures !FitsInt32(n) ==> n - ToInt32(n) > 10 || n < ToInt32(n)
  {
  }
}
