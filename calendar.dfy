/** Proleptic Gregorian calendar dates, the part of Python's `datetime.date`
    that the schedule generator relies on: construction with range checks,
    the one-day step `d + timedelta(days=1)`, chronological comparison and
    `weekday()` (0 is Monday), computed from the proleptic ordinal in which
    day 1 is 0001-01-01. */
module Calendar {
  import opened Wrappers

  /** A (year, month, day) triple. Not every triple is a calendar date: the
      date parser returns unchecked triples and the exclusion list holds them
      as parsed. */
  datatype Date = Date(year: int, month: int, day: int)

  const MinYear: int := 1
  const MaxYear: int := 9999

  predicate IsLeapYear(y: int)
  {
    y % 4 == 0 && (y % 100 != 0 || y % 400 == 0)
  }

  function DaysInMonth(y: int, m: int): (n: int)
    requires 1 <= m <= 12
    ensures 28 <= n <= 31
    ensures m == 2 ==> (n == 29 <==> IsLeapYear(y))
  {
    if m == 2 then (if IsLeapYear(y) then 29 else 28)
    else if m == 4 || m == 6 || m == 9 || m == 11 then 30
    else 31
  }

  /** A day of the proleptic Gregorian calendar from year 1 on. The upper
      year bound of `datetime.date` is checked only at construction
      (see MakeDate). */
  predicate ValidDate(d: Date)
  {
    MinYear <= d.year && 1 <= d.month <= 12 && 1 <= d.day <= DaysInMonth(d.year, d.month)
  }

  datatype DateError = YearOutOfRange | MonthOutOfRange | DayOutOfRange

  /** `datetime.date(year, month, day)`: checks the year, then the month,
      then the day, and raises ValueError on the first that is out of range. */
  function MakeDate(year: int, month: int, day: int): (r: Result<Date, DateError>)
    ensures r.Success? <==> ValidDate(Date(year, month, day)) && year <= MaxYear
    ensures r.Success? ==> r.value == Date(year, month, day)
    ensures r == Failure(DayOutOfRange) ==> MinYear <= year <= MaxYear && 1 <= month <= 12
  {
    if year < MinYear || year > MaxYear then Failure(YearOutOfRange)
    else if month < 1 || month > 12 then Failure(MonthOutOfRange)
    else if day < 1 || day > DaysInMonth(year, month) then Failure(DayOutOfRange)
    else Success(Date(year, month, day))
  }

  /** Chronological order, which for triples is lexicographic order, as
      Python compares dates and tuples. */
  predicate Less(a: Date, b: Date)
  {
    a.year < b.year
    || (a.year == b.year && a.month < b.month)
    || (a.year == b.year && a.month == b.month && a.day < b.day)
  }

  lemma {:induction false} LessTransitive(a: Date, b: Date, c: Date)
    requires Less(a, b) && Less(b, c)
    ensures Less(a, c)
  {
  }

  /** `d + timedelta(days=1)`. */
  function Successor(d: Date): (r: Date)
    requires ValidDate(d)
    ensures ValidDate(r) && Less(d, r)
  {
    if d.day < DaysInMonth(d.year, d.month) then Date(d.year, d.month, d.day + 1)
    else if d.month < 12 then Date(d.year, d.month + 1, 1)
    else Date(d.year + 1, 1, 1)
  }

  /** No calendar date lies strictly between a date and its successor. */
  lemma {:induction false} SuccessorIsNext(d: Date, x: Date)
    requires ValidDate(d) && ValidDate(x) && Less(d, x)
    ensures x == Successor(d) || Less(Successor(d), x)
  {
  }

  function DaysBeforeYear(y: int): (n: int)
    requires y >= MinYear
    ensures n >= 0
  {
    var p := y - 1;
    365 * p + p / 4 - p / 100 + p / 400
  }

  function DaysBeforeMonth(y: int, m: int): (n: int)
    requires 1 <= m <= 12
    ensures 28 * (m - 1) <= n <= 31 * (m - 1)
  {
    if m == 1 then 0 else DaysBeforeMonth(y, m - 1) + DaysInMonth(y, m - 1)
  }

  /** `d.toordinal()`: 0001-01-01 is day 1. */
  function Ordinal(d: Date): (n: int)
    requires ValidDate(d)
    ensures n >= 1
  {
    DaysBeforeYear(d.year) + DaysBeforeMonth(d.year, d.month) + d.day
  }

  /** `d.weekday()`: Monday is 0 and Sunday is 6. */
  function Weekday(d: Date): (w: int)
    requires ValidDate(d)
    ensures 0 <= w < 7
  {
    (Ordinal(d) + 6) % 7
  }

  /** The twelve months add up to the length of the year. */
  lemma {:induction false} MonthsInYear(y: int)
    ensures DaysBeforeMonth(y, 12) + 31 == if IsLeapYear(y) then 366 else 365
  {
    var feb := DaysInMonth(y, 2);
    assert DaysBeforeMonth(y, 2) == 31;
    assert DaysBeforeMonth(y, 3) == 31 + feb;
    assert DaysBeforeMonth(y, 4) == 62 + feb;
    assert DaysBeforeMonth(y, 5) == 92 + feb;
    assert DaysBeforeMonth(y, 6) == 123 + feb;
    assert DaysBeforeMonth(y, 7) == 153 + feb;
    assert DaysBeforeMonth(y, 8) == 184 + feb;
    assert DaysBeforeMonth(y, 9) == 215 + feb;
    assert DaysBeforeMonth(y, 10) == 245 + feb;
    assert DaysBeforeMonth(y, 11) == 276 + feb;
    assert DaysBeforeMonth(y, 12) == 306 + feb;
  }

  /** Stepping from y - 1 to y raises y / k by one exactly when k divides y. */
  lemma {:induction false} QuotientStep4(y: int)
    ensures y / 4 == (y - 1) / 4 + (if y % 4 == 0 then 1 else 0)
  {
    var q, r := (y - 1) / 4, (y - 1) % 4;
    if r == 3 {
      assert y == 4 * (q + 1);
    } else {
      assert y == 4 * q + (r + 1);
    }
  }

  lemma {:induction false} QuotientStep100(y: int)
    ensures y / 100 == (y - 1) / 100 + (if y % 100 == 0 then 1 else 0)
  {
    var q, r := (y - 1) / 100, (y - 1) % 100;
    if r == 99 {
      assert y == 100 * (q + 1);
    } else {
      assert y == 100 * q + (r + 1);
    }
  }

  lemma {:induction false} QuotientStep400(y: int)
    ensures y / 400 == (y - 1) / 400 + (if y % 400 == 0 then 1 else 0)
  {
    var q, r := (y - 1) / 400, (y - 1) % 400;
    if r == 399 {
      assert y == 400 * (q + 1);
    } else {
      assert y == 400 * q + (r + 1);
    }
  }

  /** A leap year adds one day to the count of leap days before it. */
  lemma {:induction false} LeapDaysStep(y: int)
    requires y >= MinYear
    ensures y / 4 - y / 100 + y / 400
      == (y - 1) / 4 - (y - 1) / 100 + (y - 1) / 400 + (if IsLeapYear(y) then 1 else 0)
  {
    QuotientStep4(y);
    QuotientStep100(y);
    QuotientStep400(y);
    assert y % 100 == 0 ==> y % 4 == 0;
    assert y % 400 == 0 ==> y % 100 == 0;
  }

  lemma {:induction false} DaysInYear(y: int)
    requires y >= MinYear
    ensures DaysBeforeMonth(y, 12) + 31 == if IsLeapYear(y) then 366 else 365
    ensures DaysBeforeYear(y + 1) == DaysBeforeYear(y) + DaysBeforeMonth(y, 12) + 31
  {
    MonthsInYear(y);
    LeapDaysStep(y);
  }

  /** The step is one day of the ordinal count, across month and year ends
      and leap days. */
  lemma {:induction false} SuccessorOrdinal(d: Date)
    requires ValidDate(d)
    ensures Ordinal(Successor(d)) == Ordinal(d) + 1
  {
    var s := Successor(d);
    if d.day < DaysInMonth(d.year, d.month) {
      assert s == Date(d.year, d.month, d.day + 1);
    } else if d.month < 12 {
      assert s == Date(d.year, d.month + 1, 1);
      assert DaysBeforeMonth(d.year, d.month + 1)
        == DaysBeforeMonth(d.year, d.month) + DaysInMonth(d.year, d.month);
    } else {
      assert s == Date(d.year + 1, 1, 1);
      assert DaysBeforeMonth(d.year + 1, 1) == 0;
      DaysInYear(d.year);
    }
  }

  lemma {:induction false} SuccessorWeekday(d: Date)
    requires ValidDate(d)
    ensures Weekday(Successor(d)) == (Weekday(d) + 1) % 7
  {
    SuccessorOrdinal(d);
    var n := Ordinal(d) + 6;
    assert Weekday(Successor(d)) == (n + 1) % 7;
    ModSevenStep(n);
  }

  lemma {:induction false} ModSevenStep(n: int)
    ensures (n + 1) % 7 == (n % 7 + 1) % 7
  {
  }

  lemma {:induction false} DaysBeforeMonthMonotone(y: int, m: int, n: int)
    requires 1 <= m <= n <= 12
    ensures DaysBeforeMonth(y, m) + DaysInMonth(y, m) <= DaysBeforeMonth(y, n) + DaysInMonth(y, n)
    ensures m < n ==> DaysBeforeMonth(y, m) + DaysInMonth(y, m) <= DaysBeforeMonth(y, n)
    decreases n - m
  {
    if m < n {
      DaysBeforeMonthMonotone(y, m, n - 1);
    }
  }

  lemma {:induction false} DaysBeforeYearMonotone(y: int, z: int)
    requires MinYear <= y < z
    ensures DaysBeforeYear(y) + DaysBeforeMonth(y, 12) + 31 <= DaysBeforeYear(z)
    decreases z - y
  {
    DaysInYear(y);
    if y + 1 < z {
      DaysBeforeYearMonotone(y + 1, z);
      DaysInYear(y + 1);
    }
  }

  /** An earlier date has a smaller ordinal. */
  lemma {:induction false} OrdinalMonotone(a: Date, b: Date)
    requires ValidDate(a) && ValidDate(b) && Less(a, b)
    ensures Ordinal(a) < Ordinal(b)
  {
    if a.year < b.year {
      DaysBeforeMonthMonotone(a.year, a.month, 12);
      DaysBeforeYearMonotone(a.year, b.year);
    } else if a.month < b.month {
      DaysBeforeMonthMonotone(a.year, a.month, b.month);
    }
  }

  /** Chronological order is ordinal order, both ways. */
  lemma {:induction false} OrdinalOrder(a: Date, b: Date)
    requires ValidDate(a) && ValidDate(b)
    ensures Less(a, b) <==> Ordinal(a) < Ordinal(b)
  {
    if Less(a, b) {
      OrdinalMonotone(a, b);
    } else if a != b {
      OrdinalMonotone(b, a);
    }
  }

  lemma {:induction false} FirstDayIsMonday()
    ensures Weekday(Date(1, 1, 1)) == 0
  {
  }
}
