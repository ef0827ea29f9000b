// Civil date-time arithmetic in the proleptic Gregorian calendar, with the range and
// conventions of Python's datetime module: years 1 through 9999, ordinal day 1 is
// 0001-01-01, weekday 0 is Monday, and comparison is chronological.
module Calendar {
  import opened Results

  const MinYear := 1
  const MaxYear := 9999
  /** Ordinal of 9999-12-31, the last representable day. */
  const MaxOrdinal := 3652059

  datatype DateTime = DateTime(year: int, month: int, day: int,
                               hour: int, minute: int, second: int, microsecond: int)

  predicate IsLeap(y: int) {
    y % 4 == 0 && (y % 100 != 0 || y % 400 == 0)
  }

  function YearLength(y: int): int {
    if IsLeap(y) then 366 else 365
  }

  /** The second component of calendar.monthrange. */
  function DaysInMonth(y: int, m: int): (r: int)
    requires 1 <= m <= 12
    ensures 28 <= r <= 31
  {
    if m == 2 then (if IsLeap(y) then 29 else 28)
    else if m == 4 || m == 6 || m == 9 || m == 11 then 30
    else 31
  }

  predicate ValidDate(t: DateTime) {
    MinYear <= t.year <= MaxYear && 1 <= t.month <= 12 && 1 <= t.day <= DaysInMonth(t.year, t.month)
  }

  /** The values a Python datetime can hold. */
  predicate Valid(t: DateTime) {
    ValidDate(t) && 0 <= t.hour < 24 && 0 <= t.minute < 60 && 0 <= t.second < 60
    && 0 <= t.microsecond < 1000000
  }

  /** datetime.replace: the updated value when it is a valid datetime, None where Python
      raises ValueError. */
  function Replace(t: DateTime): Option<DateTime> {
    if Valid(t) then Some(t) else None
  }

  predicate SameTime(a: DateTime, b: DateTime) {
    a.hour == b.hour && a.minute == b.minute && a.second == b.second && a.microsecond == b.microsecond
  }

  predicate SameDate(a: DateTime, b: DateTime) {
    a.year == b.year && a.month == b.month && a.day == b.day
  }

  /** The calendar day of a comes before that of b. */
  predicate DateBefore(a: DateTime, b: DateTime) {
    a.year < b.year
    || (a.year == b.year && (a.month < b.month || (a.month == b.month && a.day < b.day)))
  }

  /** The time of day of a comes before that of b. */
  predicate TimeBefore(a: DateTime, b: DateTime) {
    a.hour < b.hour
    || (a.hour == b.hour && (a.minute < b.minute
      || (a.minute == b.minute && (a.second < b.second
        || (a.second == b.second && a.microsecond < b.microsecond)))))
  }

  /** Python's a < b on datetimes: field by field from the year down. */
  predicate Before(a: DateTime, b: DateTime) {
    DateBefore(a, b) || (SameDate(a, b) && TimeBefore(a, b))
  }

  // ---------------------------------------------------------------- day numbers

  /** Days in the years before year y. */
  function DaysBeforeYear(y: int): int
    requires y >= 1
  {
    var p := y - 1;
    p * 365 + p / 4 - p / 100 + p / 400
  }

  /** Days in the months of year y before month m; m == 13 gives the whole year. */
  function DaysBeforeMonth(y: int, m: int): int
    requires 1 <= m <= 13
  {
    if m == 1 then 0 else DaysBeforeMonth(y, m - 1) + DaysInMonth(y, m - 1)
  }

  /** date.toordinal. */
  function Ordinal(t: DateTime): int
    requires ValidDate(t)
  {
    DaysBeforeYear(t.year) + DaysBeforeMonth(t.year, t.month) + t.day
  }

  /** date.weekday: Monday is 0 and Sunday is 6. */
  function Weekday(t: DateTime): (r: int)
    requires ValidDate(t)
    ensures 0 <= r < 7
  {
    (Ordinal(t) + 6) % 7
  }

  lemma YearEnd(y: int)
    ensures DaysBeforeMonth(y, 13) == YearLength(y)
  {
    assert DaysBeforeMonth(y, 2) == 31;
    assert DaysBeforeMonth(y, 3) == 31 + DaysInMonth(y, 2);
    assert DaysBeforeMonth(y, 4) == 62 + DaysInMonth(y, 2);
    assert DaysBeforeMonth(y, 5) == 92 + DaysInMonth(y, 2);
    assert DaysBeforeMonth(y, 6) == 123 + DaysInMonth(y, 2);
    assert DaysBeforeMonth(y, 7) == 153 + DaysInMonth(y, 2);
    assert DaysBeforeMonth(y, 8) == 184 + DaysInMonth(y, 2);
    assert DaysBeforeMonth(y, 9) == 215 + DaysInMonth(y, 2);
    assert DaysBeforeMonth(y, 10) == 245 + DaysInMonth(y, 2);
    assert DaysBeforeMonth(y, 11) == 276 + DaysInMonth(y, 2);
    assert DaysBeforeMonth(y, 12) == 306 + DaysInMonth(y, 2);
  }

  lemma YearStep(y: int)
    requires y >= 1
    ensures DaysBeforeYear(y + 1) == DaysBeforeYear(y) + YearLength(y)
  {
    StepOver4(y - 1);
    StepOver100(y - 1);
    StepOver400(y - 1);
    CenturyIsQuadrennial(y);
    QuadcentennialIsCentury(y);
  }

  lemma CenturyIsQuadrennial(y: int)
    ensures y % 100 == 0 ==> y % 4 == 0
  {
    if y % 100 == 0 {
      assert y == 4 * (25 * (y / 100));
    }
  }

  lemma QuadcentennialIsCentury(y: int)
    ensures y % 400 == 0 ==> y % 100 == 0
  {
    if y % 400 == 0 {
      assert y == 100 * (4 * (y / 400));
    }
  }

  // Counting one more year adds a multiple of 4, 100 or 400 exactly when that year is one.

  lemma StepOver4(p: int)
    requires p >= 0
    ensures (p + 1) / 4 == p / 4 + (if (p + 1) % 4 == 0 then 1 else 0)
  {
    var q, r := p / 4, p % 4;
    if r == 3 {
      assert p + 1 == 4 * (q + 1);
    } else {
      assert p + 1 == 4 * q + (r + 1);
    }
  }

  lemma StepOver100(p: int)
    requires p >= 0
    ensures (p + 1) / 100 == p / 100 + (if (p + 1) % 100 == 0 then 1 else 0)
  {
    var q, r := p / 100, p % 100;
    if r == 99 {
      assert p + 1 == 100 * (q + 1);
    } else {
      assert p + 1 == 100 * q + (r + 1);
    }
  }

  lemma StepOver400(p: int)
    requires p >= 0
    ensures (p + 1) / 400 == p / 400 + (if (p + 1) % 400 == 0 then 1 else 0)
  {
    var q, r := p / 400, p % 400;
    if r == 399 {
      assert p + 1 == 400 * (q + 1);
    } else {
      assert p + 1 == 400 * q + (r + 1);
    }
  }

  /** Every valid date has an ordinal between 1 and MaxOrdinal. */
  lemma OrdinalBounds(t: DateTime)
    requires ValidDate(t)
    ensures 1 <= Ordinal(t) <= MaxOrdinal
  {
    MonthsFit(t.year, t.month);
    MonthsNonNegative(t.year, t.month);
    YearEnd(t.year);
    YearStep(t.year);
    YearsMonotone(t.year + 1, MaxYear + 1);
    assert DaysBeforeYear(MaxYear + 1) == MaxOrdinal;
    YearsMonotone(1, t.year);
    assert DaysBeforeYear(1) == 0;
  }

  lemma {:induction false} MonthsNonNegative(y: int, m: int)
    requires 1 <= m <= 13
    ensures DaysBeforeMonth(y, m) >= 0
  {
    if m > 1 {
      MonthsNonNegative(y, m - 1);
    }
  }

  lemma {:induction false} MonthsFit(y: int, m: int)
    requires 1 <= m <= 12
    ensures DaysBeforeMonth(y, m) + DaysInMonth(y, m) <= DaysBeforeMonth(y, 13)
    decreases 13 - m
  {
    if m < 12 {
      MonthsFit(y, m + 1);
    }
  }

  lemma {:induction false} YearsMonotone(a: int, b: int)
    requires 1 <= a <= b
    ensures DaysBeforeYear(a) <= DaysBeforeYear(b)
    decreases b - a
  {
    if a < b {
      YearStep(a);
      YearsMonotone(a + 1, b);
    }
  }

  // ------------------------------------------------------------- day arithmetic

  function FirstOfNextMonth(t: DateTime): (r: Option<DateTime>)
    requires Valid(t)
    ensures r.Some? ==> Valid(r.value) && SameTime(r.value, t)
  {
    if t.month < 12 then Some(t.(month := t.month + 1, day := 1))
    else if t.year < MaxYear then Some(t.(year := t.year + 1, month := 1, day := 1))
    else None
  }

  function LastOfPreviousMonth(t: DateTime): (r: Option<DateTime>)
    requires Valid(t)
    ensures r.Some? ==> Valid(r.value) && SameTime(r.value, t)
  {
    if t.month > 1 then Some(t.(month := t.month - 1, day := DaysInMonth(t.year, t.month - 1)))
    else if t.year > MinYear then Some(t.(year := t.year - 1, month := 12, day := 31))
    else None
  }

  /** t + timedelta(days=n): None where Python raises OverflowError. The search walks a month
      at a time. */
  function AddDays(t: DateTime, n: int): (r: Option<DateTime>)
    requires Valid(t)
    ensures r.Some? ==> Valid(r.value) && SameTime(r.value, t)
    decreases if n >= 0 then n else -n
  {
    if n == 0 then Some(t)
    else if n > 0 then
      if t.day + n <= DaysInMonth(t.year, t.month) then Some(t.(day := t.day + n))
      else match FirstOfNextMonth(t) {
        case None => None
        case Some(f) => AddDays(f, n - (DaysInMonth(t.year, t.month) - t.day + 1))
      }
    else
      if t.day + n >= 1 then Some(t.(day := t.day + n))
      else match LastOfPreviousMonth(t) {
        case None => None
        case Some(l) => AddDays(l, n + t.day)
      }
  }

  /** t + timedelta(hours=1). */
  function AddHour(t: DateTime): (r: Option<DateTime>)
    requires Valid(t)
    ensures r.Some? ==> Valid(r.value)
  {
    if t.hour < 23 then Some(t.(hour := t.hour + 1))
    else match AddDays(t, 1) {
      case None => None
      case Some(u) => Some(u.(hour := 0))
    }
  }

  lemma NextMonthOrdinal(t: DateTime)
    requires Valid(t)
    ensures FirstOfNextMonth(t).Some? ==>
      Ordinal(FirstOfNextMonth(t).value) == Ordinal(t) + DaysInMonth(t.year, t.month) - t.day + 1
    ensures FirstOfNextMonth(t).None? ==>
      Ordinal(t) + DaysInMonth(t.year, t.month) - t.day == MaxOrdinal
  {
    if t.month == 12 {
      YearEnd(t.year);
      YearStep(t.year);
      assert DaysBeforeMonth(t.year, 13) == DaysBeforeMonth(t.year, 12) + 31;
      if t.year == MaxYear {
        assert DaysBeforeYear(MaxYear + 1) == MaxOrdinal;
      }
    } else {
      assert DaysBeforeMonth(t.year, t.month + 1) == DaysBeforeMonth(t.year, t.month) + DaysInMonth(t.year, t.month);
    }
  }

  lemma PreviousMonthOrdinal(t: DateTime)
    requires Valid(t)
    ensures LastOfPreviousMonth(t).Some? ==>
      Ordinal(LastOfPreviousMonth(t).value) == Ordinal(t) - t.day
    ensures LastOfPreviousMonth(t).None? ==> Ordinal(t) - t.day == 0
  {
    if t.month > 1 {
      assert DaysBeforeMonth(t.year, t.month) == DaysBeforeMonth(t.year, t.month - 1) + DaysInMonth(t.year, t.month - 1);
    } else if t.year > MinYear {
      YearEnd(t.year - 1);
      YearStep(t.year - 1);
      assert DaysBeforeMonth(t.year - 1, 13) == DaysBeforeMonth(t.year - 1, 12) + 31;
    } else {
      assert DaysBeforeYear(t.year) == 0;
    }
  }

  /** Adding n days moves the ordinal by exactly n, and fails exactly when the target
      ordinal falls outside years 1 through 9999. */
  lemma AddDaysOrdinal(t: DateTime, n: int)
    requires Valid(t)
    ensures AddDays(t, n).Some? ==> Ordinal(AddDays(t, n).value) == Ordinal(t) + n
    ensures AddDays(t, n).None? <==> !(1 <= Ordinal(t) + n <= MaxOrdinal)
  {
    if n >= 0 {
      ForwardOrdinal(t, n);
    } else {
      BackwardOrdinal(t, n);
    }
    if AddDays(t, n).Some? {
      OrdinalBounds(AddDays(t, n).value);
    }
  }

  lemma {:induction false} ForwardOrdinal(t: DateTime, n: int)
    requires Valid(t) && n >= 0
    ensures AddDays(t, n).Some? ==> Ordinal(AddDays(t, n).value) == Ordinal(t) + n
    ensures AddDays(t, n).None? ==> Ordinal(t) + n > MaxOrdinal
    decreases n
  {
    if n > 0 && t.day + n > DaysInMonth(t.year, t.month) {
      NextMonthOrdinal(t);
      if FirstOfNextMonth(t).Some? {
        ForwardOrdinal(FirstOfNextMonth(t).value, n - (DaysInMonth(t.year, t.month) - t.day + 1));
      }
    }
  }

  lemma {:induction false} BackwardOrdinal(t: DateTime, n: int)
    requires Valid(t) && n < 0
    ensures AddDays(t, n).Some? ==> Ordinal(AddDays(t, n).value) == Ordinal(t) + n
    ensures AddDays(t, n).None? ==> Ordinal(t) + n < 1
    decreases -n
  {
    if t.day + n < 1 {
      PreviousMonthOrdinal(t);
      if LastOfPreviousMonth(t).Some? && n + t.day < 0 {
        BackwardOrdinal(LastOfPreviousMonth(t).value, n + t.day);
      }
    }
  }

  /** Adding n days advances the weekday by n, modulo 7. */
  lemma WeekdayAddDays(t: DateTime, n: int)
    requires Valid(t)
    requires AddDays(t, n).Some?
    ensures Weekday(AddDays(t, n).value) == (Weekday(t) + n) % 7
  {
    AddDaysOrdinal(t, n);
    WeekShift(Ordinal(t), n);
  }

  lemma WeekShift(o: int, n: int)
    ensures (o + n + 6) % 7 == ((o + 6) % 7 + n) % 7
  {
    var q := (o + 6) / 7;
    assert o + 6 == 7 * q + (o + 6) % 7;
    assert o + n + 6 == 7 * q + ((o + 6) % 7 + n);
  }

  /** Adding a positive number of days reaches a later day, a negative number an earlier one;
      the time of day is kept. */
  lemma {:induction false} AddDaysDirection(t: DateTime, n: int)
    requires Valid(t)
    requires AddDays(t, n).Some?
    ensures n == 0 ==> AddDays(t, n).value == t
    ensures n > 0 ==> DateBefore(t, AddDays(t, n).value)
    ensures n < 0 ==> DateBefore(AddDays(t, n).value, t)
    decreases if n >= 0 then n else -n
  {
    if n > 0 && t.day + n > DaysInMonth(t.year, t.month) {
      var f := FirstOfNextMonth(t).value;
      var m := n - (DaysInMonth(t.year, t.month) - t.day + 1);
      if m > 0 {
        AddDaysDirection(f, m);
      }
    } else if n < 0 && t.day + n < 1 {
      var l := LastOfPreviousMonth(t).value;
      if n + t.day < 0 {
        AddDaysDirection(l, n + t.day);
      }
    }
  }

  /** One hour later is either a later hour of the same day or a later day; minutes, seconds
      and microseconds are kept. */
  lemma AddHourLater(t: DateTime)
    requires Valid(t)
    requires AddHour(t).Some?
    ensures var u := AddHour(t).value;
      (DateBefore(t, u) || (SameDate(t, u) && t.hour < u.hour))
      && u.minute == t.minute && u.second == t.second && u.microsecond == t.microsecond
  {
    if t.hour == 23 {
      AddDaysDirection(t, 1);
    }
  }

  /** AddHour is exactly one hour later, counted in hours since the start of the calendar, with
      the minute, second and microsecond kept; it fails exactly at the last hour of year 9999. */
  lemma AddHourExact(t: DateTime)
    requires Valid(t)
    ensures AddHour(t).Some? ==>
      var u := AddHour(t).value;
      Ordinal(u) * 24 + u.hour == Ordinal(t) * 24 + t.hour + 1
      && u.minute == t.minute && u.second == t.second && u.microsecond == t.microsecond
    ensures AddHour(t).None? <==> (t.hour == 23 && Ordinal(t) == MaxOrdinal)
  {
    OrdinalBounds(t);
    if t.hour == 23 {
      AddDaysOrdinal(t, 1);
      if AddDays(t, 1).Some? {
        assert Ordinal(AddHour(t).value) == Ordinal(AddDays(t, 1).value);
      }
    }
  }

  /** Chronological order is total: of two different instants one comes first. */
  lemma BeforeTotal(a: DateTime, b: DateTime)
    ensures Before(a, b) || a == b || Before(b, a)
    ensures !(Before(a, b) && Before(b, a))
  {
  }

  /** Chronological order is transitive, also with the non-strict form on either side. */
  lemma BeforeTransitive(a: DateTime, b: DateTime, c: DateTime)
    ensures Before(a, b) && Before(b, c) ==> Before(a, c)
    ensures !Before(b, a) && !Before(c, b) ==> !Before(c, a)
  {
  }
}
