// The next-run calculation of a cron job: the reference instant is cut to the minute, then
// four forward passes run once each, in the order minute, hour, day, month. The hour and day
// passes follow the try/except blocks of the calculation: the move within the current unit,
// else the handler's move into the next larger one. The minute and month passes are given as
// evidently intended, and beside each the code as written (MinutePassAsWritten,
// MonthPassAsWritten) with an input on which the two differ.
module NextRun {
  import opened Results
  import opened Calendar
  import FieldParser

  /** Why no run instant comes out: an empty value list is indexed (IndexError), a
      `replace` inside an exception handler gets a value the calendar refuses (ValueError),
      or day arithmetic leaves years 1 through 9999 (OverflowError). */
  datatype RunError = EmptySet | InvalidValue | Overflow

  /** What the calculation reads from a job: the five sorted value lists, and the raw
      day-of-month and day-of-week texts that decide between the two day candidates. */
  datatype Schedule = Schedule(minutes: seq<int>, hours: seq<int>, doms: seq<int>,
                               months: seq<int>, dows: seq<int>,
                               domText: string, dowText: string)

  predicate NonNegative(s: seq<int>) {
    forall x :: x in s ==> x >= 0
  }

  /** first_common_value: the first element of list1 that occurs in list2, None where the
      generator is exhausted (StopIteration). */
  function FirstCommon(list1: seq<int>, list2: seq<int>): (r: Option<int>)
    ensures r.Some? ==> r.value in list1 && r.value in list2
    ensures r.None? ==> forall x :: x in list1 ==> x !in list2
  {
    if |list1| == 0 then None
    else if list1[0] in list2 then Some(list1[0])
    else FirstCommon(list1[1..], list2)
  }

  /** Over range(lo, hi), the first common value is the least member of s in [lo, hi). */
  lemma {:induction false} FirstInRange(lo: int, hi: int, s: seq<int>)
    ensures FirstCommon(FieldParser.Range(lo, hi), s).None? <==> (forall w :: lo <= w < hi ==> w !in s)
    ensures FirstCommon(FieldParser.Range(lo, hi), s).Some? ==>
      var v := FirstCommon(FieldParser.Range(lo, hi), s).value;
      lo <= v < hi && v in s && forall w :: lo <= w < v ==> w !in s
    decreases hi - lo
  {
    if lo < hi {
      var r := FieldParser.Range(lo, hi);
      FieldParser.RangeDrop(lo, hi, 1);
      FirstInRange(lo + 1, hi, s);
      assert r[0] == lo;
    }
  }

  /** The least member v of s in [lo, hi) is what the first common value finds. */
  lemma FirstIsLeast(lo: int, hi: int, s: seq<int>, v: int)
    requires lo <= v < hi && v in s
    requires forall w :: lo <= w < v ==> w !in s
    ensures FirstCommon(FieldParser.Range(lo, hi), s) == Some(v)
  {
    FirstInRange(lo, hi, s);
    var r := FirstCommon(FieldParser.Range(lo, hi), s);
    assert r.Some?;
    assert !(r.value < v) && !(v < r.value);
  }

  // --------------------------------------------------------------------- passes

  /** The minute pass's exception handler: one hour on, then the first listed minute. */
  function MinuteCarry(dt: DateTime, minutes: seq<int>): (r: Result<DateTime, RunError>)
    requires Valid(dt)
    ensures r.Ok? ==> Valid(r.value)
  {
    match AddHour(dt)
    case None => Err(Overflow)
    case Some(t) =>
      if |minutes| == 0 then Err(EmptySet)
      else match Replace(t.(minute := minutes[0]))
        case None => Err(InvalidValue)
        case Some(u) => Ok(u)
  }

  /** set_next_minute as evidently intended: the next listed minute of this hour, else the
      carry into the next hour. */
  function MinutePass(dt: DateTime, minutes: seq<int>): (r: Result<DateTime, RunError>)
    requires Valid(dt)
    ensures r.Ok? ==> Valid(r.value)
  {
    match FirstCommon(FieldParser.Range(dt.minute, FieldParser.MaxMinute), minutes)
    case None => MinuteCarry(dt, minutes)
    case Some(m) =>
      if m != dt.minute then
        match Replace(dt.(minute := m))
        case None => MinuteCarry(dt, minutes)
        case Some(u) => Ok(u)
      else Ok(dt)
  }

  /** set_next_minute as written: the move within the hour calls a helper that is not defined,
      and the NameError lands in the exception handler, so every move is a carry. */
  function MinutePassAsWritten(dt: DateTime, minutes: seq<int>): (r: Result<DateTime, RunError>)
    requires Valid(dt)
    ensures r.Ok? ==> Valid(r.value)
  {
    match FirstCommon(FieldParser.Range(dt.minute, FieldParser.MaxMinute), minutes)
    case None => MinuteCarry(dt, minutes)
    case Some(m) => if m != dt.minute then MinuteCarry(dt, minutes) else Ok(dt)
  }

  /** The hour pass's exception handler: one day on, then the first listed hour. */
  function HourCarry(dt: DateTime, hours: seq<int>): (r: Result<DateTime, RunError>)
    requires Valid(dt)
    ensures r.Ok? ==> Valid(r.value)
  {
    match AddDays(dt, 1)
    case None => Err(Overflow)
    case Some(t) =>
      if |hours| == 0 then Err(EmptySet)
      else match Replace(t.(hour := hours[0]))
        case None => Err(InvalidValue)
        case Some(u) => Ok(u)
  }

  /** set_next_hour. */
  function HourPass(dt: DateTime, hours: seq<int>): (r: Result<DateTime, RunError>)
    requires Valid(dt)
    ensures r.Ok? ==> Valid(r.value)
  {
    match FirstCommon(FieldParser.Range(dt.hour, FieldParser.MaxHour), hours)
    case None => HourCarry(dt, hours)
    case Some(h) =>
      if h != dt.hour then
        match Replace(dt.(hour := h))
        case None => HourCarry(dt, hours)
        case Some(u) => Ok(u)
      else Ok(dt)
  }

  /** The day-of-month handler: advance by the days left in this month plus the first
      listed day. */
  function DomCarry(dt: DateTime, doms: seq<int>): (r: Result<DateTime, RunError>)
    requires Valid(dt)
    ensures r.Ok? ==> Valid(r.value)
  {
    if |doms| == 0 then Err(EmptySet)
    else match AddDays(dt, DaysInMonth(dt.year, dt.month) - dt.day + doms[0])
      case None => Err(Overflow)
      case Some(t) => Ok(t)
  }

  /** The day-of-month candidate of set_next_day. */
  function DomCandidate(dt: DateTime, doms: seq<int>): (r: Result<DateTime, RunError>)
    requires Valid(dt)
    ensures r.Ok? ==> Valid(r.value)
  {
    match FirstCommon(FieldParser.Range(dt.day, FieldParser.MaxDom), doms)
    case None => DomCarry(dt, doms)
    case Some(d) =>
      if d != dt.day then
        match Replace(dt.(day := d))
        case None => DomCarry(dt, doms)
        case Some(u) => Ok(u)
      else Ok(dt)
  }

  /** The day-of-week handler: on to the next week's first listed weekday; wd is today's
      weekday. */
  function DowCarry(dt: DateTime, wd: int, dows: seq<int>): (r: Result<DateTime, RunError>)
    requires Valid(dt)
    ensures r.Ok? ==> Valid(r.value)
  {
    if |dows| == 0 then Err(EmptySet)
    else match AddDays(dt, FieldParser.MaxDow - wd + dows[0])
      case None => Err(Overflow)
      case Some(t) => Ok(t)
  }

  /** The day-of-week candidate of set_next_day, for an instant whose weekday is wd. */
  function DowFrom(dt: DateTime, wd: int, dows: seq<int>): (r: Result<DateTime, RunError>)
    requires Valid(dt)
    ensures r.Ok? ==> Valid(r.value)
  {
    match FirstCommon(FieldParser.Range(wd, FieldParser.MaxDow), dows)
    case None => DowCarry(dt, wd, dows)
    case Some(w) =>
      var n := w - wd;
      if n > 0 then
        match AddDays(dt, n)
        case None => DowCarry(dt, wd, dows)
        case Some(u) => Ok(u)
      else Ok(dt)
  }

  function DowCandidate(dt: DateTime, dows: seq<int>): (r: Result<DateTime, RunError>)
    requires Valid(dt)
    ensures r.Ok? ==> Valid(r.value)
  {
    DowFrom(dt, Weekday(dt), dows)
  }

  /** Whether set_next_day returns the day-of-month candidate. */
  predicate UseDom(domText: string, dowText: string, testDom: DateTime, testDow: DateTime) {
    if domText != "*" && dowText == "*" then true
    else if domText == "*" && dowText != "*" then false
    else if domText != "*" && dowText != "*" then Before(testDom, testDow)
    else true
  }

  /** set_next_day: both candidates are computed, then one is chosen. */
  function DayPass(dt: DateTime, s: Schedule): (r: Result<DateTime, RunError>)
    requires Valid(dt)
    ensures r.Ok? ==> Valid(r.value)
  {
    match DomCandidate(dt, s.doms)
    case Err(e) => Err(e)
    case Ok(testDom) =>
      match DowCandidate(dt, s.dows)
      case Err(e) => Err(e)
      case Ok(testDow) => if UseDom(s.domText, s.dowText, testDom, testDow) then Ok(testDom) else Ok(testDow)
  }

  /** The month pass's exception handler as written: the first listed month of the next year. */
  function MonthCarry(dt: DateTime, months: seq<int>): (r: Result<DateTime, RunError>)
    requires Valid(dt)
    ensures r.Ok? ==> Valid(r.value)
  {
    if |months| == 0 then Err(EmptySet)
    else match Replace(dt.(year := dt.year + 1, month := months[0]))
      case None => Err(InvalidValue)
      case Some(u) => Ok(u)
  }

  /** set_next_month as written: the first listed month from this one on, tried once; when
      today's day does not exist in it, the handler jumps to next year even where a later
      listed month of this year has the day. */
  function MonthPassAsWritten(dt: DateTime, months: seq<int>): (r: Result<DateTime, RunError>)
    requires Valid(dt)
    ensures r.Ok? ==> Valid(r.value)
  {
    match FirstCommon(FieldParser.Range(dt.month, FieldParser.MaxMonth), months)
    case None => MonthCarry(dt, months)
    case Some(m) =>
      if m != dt.month then
        match Replace(dt.(month := m))
        case None => MonthCarry(dt, months)
        case Some(u) => Ok(u)
      else Ok(dt)
  }

  /** The listed months of year y in which day d exists, in list order. */
  function Fitting(y: int, d: int, months: seq<int>): (r: seq<int>)
    ensures forall m :: m in r <==> m in months && 1 <= m <= 12 && d <= DaysInMonth(y, m)
  {
    if |months| == 0 then []
    else
      var rest := Fitting(y, d, months[1..]);
      if 1 <= months[0] <= 12 && d <= DaysInMonth(y, months[0]) then [months[0]] + rest else rest
  }

  /** set_next_month as evidently intended: the next listed month of this year in which
      today's day exists, else the first such month of the next year. An empty list still
      fails on the index, and a year or a day the calendar refuses on the replace. */
  function MonthPass(dt: DateTime, months: seq<int>): (r: Result<DateTime, RunError>)
    requires Valid(dt)
    ensures r.Ok? ==> Valid(r.value)
  {
    match FirstCommon(FieldParser.Range(dt.month, FieldParser.MaxMonth), Fitting(dt.year, dt.day, months))
    case Some(m) => Ok(dt.(month := m))
    case None =>
      if |months| == 0 then Err(EmptySet)
      else if dt.year == MaxYear then Err(InvalidValue)
      else
        match FirstCommon(FieldParser.Range(FieldParser.MinMonth, FieldParser.MaxMonth),
                          Fitting(dt.year + 1, dt.day, months))
        case None => Err(InvalidValue)
        case Some(m) => Ok(dt.(year := dt.year + 1, month := m))
  }

  /** The reference instant with seconds and microseconds dropped. */
  function Truncate(dt: DateTime): DateTime {
    dt.(second := 0, microsecond := 0)
  }

  /** create_date: each pass once, in order, the first failure ending the calculation. */
  function CreateDate(dt: DateTime, s: Schedule): (r: Result<DateTime, RunError>)
    requires Valid(dt)
    ensures r.Ok? ==> Valid(r.value)
  {
    match MinutePass(dt, s.minutes)
    case Err(e) => Err(e)
    case Ok(a) =>
      match HourPass(a, s.hours)
      case Err(e) => Err(e)
      case Ok(b) =>
        match DayPass(b, s)
        case Err(e) => Err(e)
        case Ok(c) => MonthPass(c, s.months)
  }

  /** next_run with the reference instant given. */
  function NextRunOf(s: Schedule, start: DateTime): (r: Result<DateTime, RunError>)
    requires Valid(start)
    ensures r.Ok? ==> Valid(r.value)
  {
    CreateDate(Truncate(start), s)
  }

  // ---------------------------------------------------------------- minute pass

  /** With v the first listed minute from the current one on, the pass moves to v within the
      hour; v equal to the current minute leaves the instant as it is. */
  lemma MinuteAdvance(dt: DateTime, minutes: seq<int>, v: int)
    requires Valid(dt)
    requires dt.minute <= v < 60 && v in minutes
    requires forall w :: dt.minute <= w < v ==> w !in minutes
    ensures MinutePass(dt, minutes) == Ok(dt.(minute := v))
  {
    FirstIsLeast(dt.minute, FieldParser.MaxMinute, minutes, v);
  }

  /** With no listed minute left in this hour, the pass goes one hour on and takes the first
      listed minute, failing on overflow, on an empty list or on a first minute out of range. */
  lemma MinuteCarrySpec(dt: DateTime, minutes: seq<int>)
    requires Valid(dt)
    requires forall w :: dt.minute <= w < 60 ==> w !in minutes
    ensures AddHour(dt).None? ==> MinutePass(dt, minutes) == Err(Overflow)
    ensures AddHour(dt).Some? && |minutes| == 0 ==> MinutePass(dt, minutes) == Err(EmptySet)
    ensures AddHour(dt).Some? && |minutes| > 0 ==>
      MinutePass(dt, minutes) ==
        if 0 <= minutes[0] < 60 then Ok(AddHour(dt).value.(minute := minutes[0])) else Err(InvalidValue)
  {
    FirstInRange(dt.minute, FieldParser.MaxMinute, minutes);
  }

  lemma MinuteCarryFacts(dt: DateTime, minutes: seq<int>)
    requires Valid(dt)
    requires MinuteCarry(dt, minutes).Ok?
    ensures var r := MinuteCarry(dt, minutes).value;
      r.minute in minutes && Before(dt, r) && r.second == dt.second && r.microsecond == dt.microsecond
  {
    AddHourLater(dt);
  }

  /** Whatever the pass returns has a listed minute, is not earlier than the input and keeps
      its seconds. */
  lemma MinuteFacts(dt: DateTime, minutes: seq<int>)
    requires Valid(dt)
    requires MinutePass(dt, minutes).Ok?
    ensures var r := MinutePass(dt, minutes).value;
      r.minute in minutes && !Before(r, dt) && r.second == dt.second && r.microsecond == dt.microsecond
  {
    FirstInRange(dt.minute, FieldParser.MaxMinute, minutes);
    var f := FirstCommon(FieldParser.Range(dt.minute, FieldParser.MaxMinute), minutes);
    if f.None? || (f.value != dt.minute && Replace(dt.(minute := f.value)).None?) {
      MinuteCarryFacts(dt, minutes);
    }
  }

  /** As written, a listed minute later in this hour is skipped for the carry into the next
      hour. */
  lemma MinuteAsWrittenCarries(dt: DateTime, minutes: seq<int>, v: int)
    requires Valid(dt)
    requires dt.minute < v < 60 && v in minutes
    requires forall w :: dt.minute <= w < v ==> w !in minutes
    ensures MinutePassAsWritten(dt, minutes) == MinuteCarry(dt, minutes)
    ensures MinutePassAsWritten(dt, minutes) != MinutePass(dt, minutes)
  {
    FirstIsLeast(dt.minute, FieldParser.MaxMinute, minutes, v);
    if MinuteCarry(dt, minutes).Ok? {
      MinuteCarryFacts(dt, minutes);
    }
  }

  /** Minutes [30] at 10:15: the intended pass gives 10:30, the pass as written 11:30. */
  lemma MinuteFindingExample()
    ensures MinutePass(DateTime(2024, 3, 1, 10, 15, 0, 0), [30]) == Ok(DateTime(2024, 3, 1, 10, 30, 0, 0))
    ensures MinutePassAsWritten(DateTime(2024, 3, 1, 10, 15, 0, 0), [30]) == Ok(DateTime(2024, 3, 1, 11, 30, 0, 0))
  {
    var dt := DateTime(2024, 3, 1, 10, 15, 0, 0);
    assert Valid(dt);
    MinuteAdvance(dt, [30], 30);
    MinuteAsWrittenCarries(dt, [30], 30);
    assert AddHour(dt) == Some(DateTime(2024, 3, 1, 11, 15, 0, 0));
  }

  // ------------------------------------------------------------------ hour pass

  /** With v the first listed hour from the current one on, the pass moves to v within the
      day and keeps the minute. */
  lemma HourAdvance(dt: DateTime, hours: seq<int>, v: int)
    requires Valid(dt)
    requires dt.hour <= v < 24 && v in hours
    requires forall w :: dt.hour <= w < v ==> w !in hours
    ensures HourPass(dt, hours) == Ok(dt.(hour := v))
  {
    FirstIsLeast(dt.hour, FieldParser.MaxHour, hours, v);
  }

  /** With no listed hour left today, the pass goes one day on and takes the first listed
      hour, failing on overflow, on an empty list or on a first hour out of range. */
  lemma HourCarrySpec(dt: DateTime, hours: seq<int>)
    requires Valid(dt)
    requires forall w :: dt.hour <= w < 24 ==> w !in hours
    ensures AddDays(dt, 1).None? ==> HourPass(dt, hours) == Err(Overflow)
    ensures AddDays(dt, 1).Some? && |hours| == 0 ==> HourPass(dt, hours) == Err(EmptySet)
    ensures AddDays(dt, 1).Some? && |hours| > 0 ==>
      HourPass(dt, hours) ==
        if 0 <= hours[0] < 24 then Ok(AddDays(dt, 1).value.(hour := hours[0])) else Err(InvalidValue)
  {
    FirstInRange(dt.hour, FieldParser.MaxHour, hours);
  }

  lemma HourCarryFacts(dt: DateTime, hours: seq<int>)
    requires Valid(dt)
    requires HourCarry(dt, hours).Ok?
    ensures var r := HourCarry(dt, hours).value;
      r.hour in hours && Before(dt, r)
      && r.minute == dt.minute && r.second == dt.second && r.microsecond == dt.microsecond
  {
    AddDaysDirection(dt, 1);
  }

  /** Whatever the pass returns has a listed hour, the input's minute and seconds, and is not
      earlier than the input. */
  lemma HourFacts(dt: DateTime, hours: seq<int>)
    requires Valid(dt)
    requires HourPass(dt, hours).Ok?
    ensures var r := HourPass(dt, hours).value;
      r.hour in hours && !Before(r, dt)
      && r.minute == dt.minute && r.second == dt.second && r.microsecond == dt.microsecond
  {
    FirstInRange(dt.hour, FieldParser.MaxHour, hours);
    var f := FirstCommon(FieldParser.Range(dt.hour, FieldParser.MaxHour), hours);
    if f.None? || (f.value != dt.hour && Replace(dt.(hour := f.value)).None?) {
      HourCarryFacts(dt, hours);
    }
  }

  // ------------------------------------------------------------------- day pass

  /** With v the first listed day from today on and v inside this month, the day-of-month
      candidate is day v of this month at the same time. */
  lemma DomInMonth(dt: DateTime, doms: seq<int>, v: int)
    requires Valid(dt)
    requires dt.day <= v <= DaysInMonth(dt.year, dt.month) && v in doms
    requires forall w :: dt.day <= w < v ==> w !in doms
    ensures DomCandidate(dt, doms) == Ok(dt.(day := v))
  {
    FirstIsLeast(dt.day, FieldParser.MaxDom, doms, v);
  }

  /** With no listed day left in this month, the day-of-month candidate advances by the days
      left in the month plus the first listed day. */
  lemma DomCarrySpec(dt: DateTime, doms: seq<int>)
    requires Valid(dt)
    requires forall w :: dt.day <= w < 32 && w in doms ==> w > DaysInMonth(dt.year, dt.month)
    ensures |doms| == 0 ==> DomCandidate(dt, doms) == Err(EmptySet)
    ensures |doms| > 0 ==>
      var n := DaysInMonth(dt.year, dt.month) - dt.day + doms[0];
      DomCandidate(dt, doms) == if AddDays(dt, n).Some? then Ok(AddDays(dt, n).value) else Err(Overflow)
  {
    FirstInRange(dt.day, FieldParser.MaxDom, doms);
  }

  /** The day-of-month candidate need not be a listed day: from 31 January 2024 with days [30],
      the carry lands on 1 March. */
  lemma DomCarryLeavesList()
    ensures DomCandidate(DateTime(2024, 1, 31, 0, 0, 0, 0), [30]) == Ok(DateTime(2024, 3, 1, 0, 0, 0, 0))
  {
    var dt := DateTime(2024, 1, 31, 0, 0, 0, 0);
    var feb := DateTime(2024, 2, 1, 0, 0, 0, 0);
    var mar := DateTime(2024, 3, 1, 0, 0, 0, 0);
    assert Valid(dt) && Valid(feb) && Valid(mar);
    DomCarrySpec(dt, [30]);
    assert AddDays(mar, 0) == Some(mar);
    assert AddDays(feb, 29) == AddDays(mar, 0);
    assert AddDays(dt, 30) == AddDays(feb, 29);
  }

  /** With v the first listed weekday from today's on, the day-of-week candidate is v - weekday
      days later; when that addition overflows, the next-week handler runs instead. */
  lemma DowInWeek(dt: DateTime, dows: seq<int>, v: int)
    requires Valid(dt)
    requires Weekday(dt) <= v < 7 && v in dows
    requires forall w :: Weekday(dt) <= w < v ==> w !in dows
    ensures AddDays(dt, v - Weekday(dt)).Some? ==>
      DowCandidate(dt, dows) == Ok(AddDays(dt, v - Weekday(dt)).value)
    ensures AddDays(dt, v - Weekday(dt)).None? ==> DowCandidate(dt, dows) == DowCarry(dt, Weekday(dt), dows)
  {
    var wd := Weekday(dt);
    FirstIsLeast(wd, FieldParser.MaxDow, dows, v);
  }

  /** With no listed weekday left this week, the day-of-week candidate advances to the first
      listed weekday of the next week. */
  lemma DowCarrySpec(dt: DateTime, dows: seq<int>)
    requires Valid(dt)
    requires forall w :: Weekday(dt) <= w < 7 ==> w !in dows
    ensures |dows| == 0 ==> DowCandidate(dt, dows) == Err(EmptySet)
    ensures |dows| > 0 ==>
      var n := 7 - Weekday(dt) + dows[0];
      DowCandidate(dt, dows) == if AddDays(dt, n).Some? then Ok(AddDays(dt, n).value) else Err(Overflow)
  {
    var wd := Weekday(dt);
    FirstInRange(wd, FieldParser.MaxDow, dows);
  }

  /** The weekday reached n days after weekday wd is listed, as long as wd + n is below two
      weeks. */
  predicate ReachesListed(wd: int, n: int, dows: seq<int>) {
    var k := wd + n;
    0 <= k < 14 && (if k < 7 then k else k - 7) in dows
  }

  /** The day-of-week candidate is dt moved by a number of days n that brings the weekday wd to
      a listed weekday, when every listed weekday is a weekday number; n is returned. */
  lemma DowFromShift(dt: DateTime, wd: int, dows: seq<int>) returns (n: int)
    requires Valid(dt) && 0 <= wd < 7
    requires forall x :: x in dows ==> 0 <= x < 7
    requires DowFrom(dt, wd, dows).Ok?
    ensures AddDays(dt, n) == Some(DowFrom(dt, wd, dows).value) && ReachesListed(wd, n, dows)
  {
    var f := FirstCommon(FieldParser.Range(wd, FieldParser.MaxDow), dows);
    if f.Some? && f.value - wd > 0 && AddDays(dt, f.value - wd).Some? {
      n := f.value - wd;
      assert AddDays(dt, n) == Some(DowFrom(dt, wd, dows).value);
    } else if f.Some? && f.value - wd <= 0 {
      FirstInRange(wd, FieldParser.MaxDow, dows);
      n := 0;
    } else {
      n := DowCarryShift(dt, wd, dows);
    }
  }

  lemma DowCarryShift(dt: DateTime, wd: int, dows: seq<int>) returns (n: int)
    requires Valid(dt) && 0 <= wd < 7
    requires forall x :: x in dows ==> 0 <= x < 7
    requires DowCarry(dt, wd, dows).Ok?
    ensures AddDays(dt, n) == Some(DowCarry(dt, wd, dows).value) && ReachesListed(wd, n, dows)
  {
    n := FieldParser.MaxDow - wd + dows[0];
    assert dows[0] in dows;
  }

  lemma WeekdayNumber(x: int)
    requires 0 <= x < 7
    ensures x % 7 == x && (x + 7) % 7 == x
  {
  }

  /** When every listed weekday is a weekday number, the day-of-week candidate falls on a
      listed weekday. */
  lemma DowListed(dt: DateTime, dows: seq<int>)
    requires Valid(dt)
    requires forall x :: x in dows ==> 0 <= x < 7
    requires DowCandidate(dt, dows).Ok?
    ensures Weekday(DowCandidate(dt, dows).value) in dows
  {
    var wd := Weekday(dt);
    var n := DowFromShift(dt, wd, dows);
    WeekdayAddDays(dt, n);
    if wd + n < 7 {
      WeekdayNumber(wd + n);
    } else {
      WeekdayNumber(wd + n - 7);
    }
  }

  lemma DomFacts(dt: DateTime, doms: seq<int>)
    requires Valid(dt)
    requires DomCandidate(dt, doms).Ok?
    ensures SameTime(DomCandidate(dt, doms).value, dt)
    ensures NonNegative(doms) ==> !Before(DomCandidate(dt, doms).value, dt)
  {
    FirstInRange(dt.day, FieldParser.MaxDom, doms);
    var f := FirstCommon(FieldParser.Range(dt.day, FieldParser.MaxDom), doms);
    if f.None? || (f.value != dt.day && Replace(dt.(day := f.value)).None?) {
      var n := DaysInMonth(dt.year, dt.month) - dt.day + doms[0];
      if NonNegative(doms) {
        assert doms[0] in doms;
        AddDaysDirection(dt, n);
      }
    }
  }

  lemma DowFromFacts(dt: DateTime, wd: int, dows: seq<int>)
    requires Valid(dt) && 0 <= wd < 7
    requires DowFrom(dt, wd, dows).Ok?
    ensures SameTime(DowFrom(dt, wd, dows).value, dt)
    ensures NonNegative(dows) ==> !Before(DowFrom(dt, wd, dows).value, dt)
  {
    FirstInRange(wd, FieldParser.MaxDow, dows);
    var f := FirstCommon(FieldParser.Range(wd, FieldParser.MaxDow), dows);
    if f.Some? && f.value - wd > 0 && AddDays(dt, f.value - wd).Some? {
      AddDaysDirection(dt, f.value - wd);
    } else if (f.None? || f.value - wd > 0) && NonNegative(dows) {
      assert dows[0] in dows;
      AddDaysDirection(dt, FieldParser.MaxDow - wd + dows[0]);
    }
  }

  lemma DowFacts(dt: DateTime, dows: seq<int>)
    requires Valid(dt)
    requires DowCandidate(dt, dows).Ok?
    ensures SameTime(DowCandidate(dt, dows).value, dt)
    ensures NonNegative(dows) ==> !Before(DowCandidate(dt, dows).value, dt)
  {
    DowFromFacts(dt, Weekday(dt), dows);
  }

  /** The day pass keeps the time of day and, for non-negative day lists, never goes back. */
  lemma DayFacts(dt: DateTime, s: Schedule)
    requires Valid(dt)
    requires DayPass(dt, s).Ok?
    ensures SameTime(DayPass(dt, s).value, dt)
    ensures NonNegative(s.doms) && NonNegative(s.dows) ==> !Before(DayPass(dt, s).value, dt)
  {
    DomFacts(dt, s.doms);
    DowFacts(dt, s.dows);
  }

  /** How set_next_day chooses, decided on the raw texts: a restricted day-of-month alone gives
      its candidate, a restricted day-of-week alone gives its candidate, both restricted give
      the earlier of the two (the day-of-week one when neither is earlier), neither gives the
      day-of-month candidate. Either candidate's
      failure fails the pass. */
  lemma DayPrecedence(dt: DateTime, s: Schedule)
    requires Valid(dt)
    ensures DomCandidate(dt, s.doms).Err? ==> DayPass(dt, s) == DomCandidate(dt, s.doms)
    ensures DomCandidate(dt, s.doms).Ok? && DowCandidate(dt, s.dows).Err? ==>
      DayPass(dt, s) == DowCandidate(dt, s.dows)
    ensures DomCandidate(dt, s.doms).Ok? && DowCandidate(dt, s.dows).Ok? ==>
      var a, b := DomCandidate(dt, s.doms).value, DowCandidate(dt, s.dows).value;
      (s.domText != "*" && s.dowText == "*" ==> DayPass(dt, s) == Ok(a))
      && (s.domText == "*" && s.dowText != "*" ==> DayPass(dt, s) == Ok(b))
      && (s.domText == "*" && s.dowText == "*" ==> DayPass(dt, s) == Ok(a))
      && (s.domText != "*" && s.dowText != "*" ==>
            var r := DayPass(dt, s).value;
            DayPass(dt, s).Ok? && (r == a || r == b) && !Before(a, r) && !Before(b, r)
            && (Before(a, b) ==> r == a) && (!Before(a, b) ==> r == b))
  {
    if DomCandidate(dt, s.doms).Ok? && DowCandidate(dt, s.dows).Ok? {
      BeforeTotal(DomCandidate(dt, s.doms).value, DowCandidate(dt, s.dows).value);
    }
  }

  // ------------------------------------------------------------------ month pass

  /** With v the first listed month from this one on in which today's day exists, the pass
      moves to month v of this year; a listed current month leaves the instant unchanged. */
  lemma MonthAdvance(dt: DateTime, months: seq<int>, v: int)
    requires Valid(dt)
    requires dt.month <= v <= 12 && v in months && dt.day <= DaysInMonth(dt.year, v)
    requires forall w :: dt.month <= w < v && w in months ==> dt.day > DaysInMonth(dt.year, w)
    ensures MonthPass(dt, months) == Ok(dt.(month := v))
  {
    FirstIsLeast(dt.month, FieldParser.MaxMonth, Fitting(dt.year, dt.day, months), v);
  }

  /** With no listed month left this year that has today's day, the pass fails on an empty
      list, in year 9999, and where no listed month of next year has the day either. */
  lemma MonthCarrySpec(dt: DateTime, months: seq<int>)
    requires Valid(dt)
    requires forall w :: dt.month <= w <= 12 && w in months ==> dt.day > DaysInMonth(dt.year, w)
    ensures |months| == 0 ==> MonthPass(dt, months) == Err(EmptySet)
    ensures |months| > 0 && dt.year == MaxYear ==> MonthPass(dt, months) == Err(InvalidValue)
    ensures |months| > 0 && (forall w :: 1 <= w <= 12 && w in months ==> dt.day > DaysInMonth(dt.year + 1, w))
      ==> MonthPass(dt, months) == Err(InvalidValue)
  {
    FirstInRange(dt.month, FieldParser.MaxMonth, Fitting(dt.year, dt.day, months));
    FirstInRange(FieldParser.MinMonth, FieldParser.MaxMonth, Fitting(dt.year + 1, dt.day, months));
  }

  /** With no listed month left this year that has today's day, and v the first listed month
      of next year that has it, the pass moves to month v of next year. */
  lemma MonthCarryTo(dt: DateTime, months: seq<int>, v: int)
    requires Valid(dt) && dt.year < MaxYear
    requires forall w :: dt.month <= w <= 12 && w in months ==> dt.day > DaysInMonth(dt.year, w)
    requires 1 <= v <= 12 && v in months && dt.day <= DaysInMonth(dt.year + 1, v)
    requires forall w :: 1 <= w < v && w in months ==> dt.day > DaysInMonth(dt.year + 1, w)
    ensures MonthPass(dt, months) == Ok(dt.(year := dt.year + 1, month := v))
  {
    FirstInRange(dt.month, FieldParser.MaxMonth, Fitting(dt.year, dt.day, months));
    FirstIsLeast(FieldParser.MinMonth, FieldParser.MaxMonth, Fitting(dt.year + 1, dt.day, months), v);
  }

  /** Whatever the month pass returns has a listed month, the input's day and time of day, and
      is not earlier than the input. */
  lemma MonthFacts(dt: DateTime, months: seq<int>)
    requires Valid(dt)
    requires MonthPass(dt, months).Ok?
    ensures var r := MonthPass(dt, months).value;
      r.month in months && r.day == dt.day && SameTime(r, dt) && !Before(r, dt)
  {
    FirstInRange(dt.month, FieldParser.MaxMonth, Fitting(dt.year, dt.day, months));
    FirstInRange(FieldParser.MinMonth, FieldParser.MaxMonth, Fitting(dt.year + 1, dt.day, months));
  }

  /** The month pass skips no listed month in which today's day exists: either the result is in
      this year and no such month comes between, or it is in the next year, no such month is
      left in this year and none comes before it in the next. */
  lemma MonthSkipsNothing(dt: DateTime, months: seq<int>)
    requires Valid(dt)
    requires MonthPass(dt, months).Ok?
    ensures var r := MonthPass(dt, months).value;
      (r.year == dt.year
        && forall w :: dt.month <= w < r.month && w in months ==> dt.day > DaysInMonth(dt.year, w))
      || (r.year == dt.year + 1
        && (forall w :: dt.month <= w <= 12 && w in months ==> dt.day > DaysInMonth(dt.year, w))
        && forall w :: 1 <= w < r.month && w in months ==> dt.day > DaysInMonth(r.year, w))
  {
    var here := Fitting(dt.year, dt.day, months);
    var f := FirstCommon(FieldParser.Range(dt.month, FieldParser.MaxMonth), here);
    FirstInRange(dt.month, FieldParser.MaxMonth, here);
    if f.None? {
      var next := Fitting(dt.year + 1, dt.day, months);
      var g := FirstCommon(FieldParser.Range(FieldParser.MinMonth, FieldParser.MaxMonth), next);
      FirstInRange(FieldParser.MinMonth, FieldParser.MaxMonth, next);
      assert MonthPass(dt, months).value == dt.(year := dt.year + 1, month := g.value);
    }
  }

  /** As written, where the first listed month from this one on has today's day, the pass moves
      there, and agrees with the intended pass. */
  lemma MonthAsWrittenAdvance(dt: DateTime, months: seq<int>, v: int)
    requires Valid(dt)
    requires dt.month <= v <= 12 && v in months && dt.day <= DaysInMonth(dt.year, v)
    requires forall w :: dt.month <= w < v ==> w !in months
    ensures MonthPassAsWritten(dt, months) == Ok(dt.(month := v))
    ensures MonthPassAsWritten(dt, months) == MonthPass(dt, months)
  {
    FirstIsLeast(dt.month, FieldParser.MaxMonth, months, v);
    MonthAdvance(dt, months, v);
  }

  /** As written, where no listed month is left this year or the first one lacks today's day,
      the pass moves to the first listed month of next year, failing on an empty list or on a
      date that does not exist. */
  lemma MonthAsWrittenCarry(dt: DateTime, months: seq<int>)
    requires Valid(dt)
    requires forall v ::
      (dt.month <= v <= 12 && v in months && (forall w :: dt.month <= w < v ==> w !in months))
      ==> dt.day > DaysInMonth(dt.year, v)
    ensures |months| == 0 ==> MonthPassAsWritten(dt, months) == Err(EmptySet)
    ensures |months| > 0 ==>
      var u := dt.(year := dt.year + 1, month := months[0]);
      MonthPassAsWritten(dt, months) == if Valid(u) then Ok(u) else Err(InvalidValue)
  {
    FirstInRange(dt.month, FieldParser.MaxMonth, months);
  }

  /** From 31 May 2024, months 1, 6 and 7 give 31 January 2025 as written, where 31 July 2024
      is meant, and months 6 and 7 fail as written on 31 June 2025. */
  lemma MonthFindingExample()
    ensures MonthPassAsWritten(DateTime(2024, 5, 31, 0, 0, 0, 0), [1, 6, 7]) == Ok(DateTime(2025, 1, 31, 0, 0, 0, 0))
    ensures MonthPass(DateTime(2024, 5, 31, 0, 0, 0, 0), [1, 6, 7]) == Ok(DateTime(2024, 7, 31, 0, 0, 0, 0))
    ensures MonthPassAsWritten(DateTime(2024, 5, 31, 0, 0, 0, 0), [6, 7]) == Err(InvalidValue)
    ensures MonthPass(DateTime(2024, 5, 31, 0, 0, 0, 0), [6, 7]) == Ok(DateTime(2024, 7, 31, 0, 0, 0, 0))
  {
    var dt := DateTime(2024, 5, 31, 0, 0, 0, 0);
    FirstIsLeast(dt.month, FieldParser.MaxMonth, [1, 6, 7], 6);
    FirstIsLeast(dt.month, FieldParser.MaxMonth, [6, 7], 6);
    MonthAdvance(dt, [1, 6, 7], 7);
    MonthAdvance(dt, [6, 7], 7);
  }

  // ----------------------------------------------------------- whole calculation

  /** Truncation keeps the date, hour and minute, zeroes the seconds and microseconds, and
      never moves the instant later. */
  lemma TruncateFacts(dt: DateTime)
    requires Valid(dt)
    ensures var t := Truncate(dt);
      Valid(t) && SameDate(t, dt) && t.hour == dt.hour && t.minute == dt.minute
      && t.second == 0 && t.microsecond == 0 && !Before(dt, t)
  {
  }

  /** Every run instant has a listed minute, a listed hour and a listed month, and no seconds:
      the day and month passes never touch the time of day, so what the first two passes
      settle survives. */
  lemma NextRunMatches(s: Schedule, start: DateTime)
    requires Valid(start)
    requires NextRunOf(s, start).Ok?
    ensures var r := NextRunOf(s, start).value;
      r.minute in s.minutes && r.hour in s.hours && r.month in s.months
      && r.second == 0 && r.microsecond == 0
  {
    var t := Truncate(start);
    MinuteFacts(t, s.minutes);
    var a := MinutePass(t, s.minutes).value;
    HourFacts(a, s.hours);
    var b := HourPass(a, s.hours).value;
    DayFacts(b, s);
    var c := DayPass(b, s).value;
    MonthFacts(c, s.months);
  }

  /** No pass moves backwards, so with non-negative day lists (which every parsed field
      gives) the run instant is never earlier than the truncated reference. */
  lemma NextRunNotEarlier(s: Schedule, start: DateTime)
    requires Valid(start)
    requires NonNegative(s.doms) && NonNegative(s.dows)
    requires NextRunOf(s, start).Ok?
    ensures !Before(NextRunOf(s, start).value, Truncate(start))
  {
    var t := Truncate(start);
    MinuteFacts(t, s.minutes);
    var a := MinutePass(t, s.minutes).value;
    HourFacts(a, s.hours);
    var b := HourPass(a, s.hours).value;
    DayFacts(b, s);
    var c := DayPass(b, s).value;
    MonthFacts(c, s.months);
    var r := MonthPass(c, s.months).value;
    BeforeTransitive(t, a, b);
    BeforeTransitive(t, b, c);
    BeforeTransitive(t, c, r);
  }

  /** The truncated reference matches the schedule: its minute, hour, day and month are listed
      and its weekday is too. */
  predicate Matches(s: Schedule, t: DateTime)
    requires ValidDate(t)
  {
    t.minute in s.minutes && t.hour in s.hours && t.day in s.doms && t.month in s.months
    && Weekday(t) in s.dows
  }

  /** A matching reference instant is its own next run (after truncation). */
  lemma NextRunFixpoint(s: Schedule, start: DateTime)
    requires Valid(start)
    requires Matches(s, Truncate(start))
    ensures NextRunOf(s, start) == Ok(Truncate(start))
  {
    var t := Truncate(start);
    MinuteAdvance(t, s.minutes, t.minute);
    HourAdvance(t, s.hours, t.hour);
    DomInMonth(t, s.doms, t.day);
    DowInWeek(t, s.dows, Weekday(t));
    DayPrecedence(t, s);
    MonthAdvance(t, s.months, t.month);
  }

  /** An empty value list makes the calculation fail instead of returning an instant. */
  lemma NextRunEmptyFails(s: Schedule, start: DateTime)
    requires Valid(start)
    requires |s.minutes| == 0 || |s.hours| == 0 || |s.doms| == 0 || |s.months| == 0 || |s.dows| == 0
    ensures NextRunOf(s, start).Err?
  {
    var t := Truncate(start);
    if MinutePass(t, s.minutes).Ok? {
      MinuteFacts(t, s.minutes);
      var a := MinutePass(t, s.minutes).value;
      if HourPass(a, s.hours).Ok? {
        HourFacts(a, s.hours);
        var b := HourPass(a, s.hours).value;
        if DayPass(b, s).Ok? {
          var c := DayPass(b, s).value;
          assert DomCandidate(b, s.doms).Ok? && DowCandidate(b, s.dows).Ok?;
          assert |s.doms| > 0 && |s.dows| > 0;
          if MonthPass(c, s.months).Ok? {
            MonthFacts(c, s.months);
          }
        }
      }
    }
  }

  /** The schedule of "30 2 * * 0": 02:30 on weekday 0, which is Monday. */
  function MondaysAt0230(): Schedule {
    Schedule([30], [2], FieldParser.Range(1, 32), FieldParser.Range(1, 13), [0], "*", "0")
  }

  /** 2 March 2024 is a Saturday, weekday 5. */
  lemma SaturdayInMarch()
    ensures Weekday(DateTime(2024, 3, 2, 2, 30, 0, 0)) == 5
  {
    assert DaysBeforeYear(2024) == 738885;
    assert DaysBeforeMonth(2024, 3) == 60;
  }

  /** The day pass of the example: from Saturday 2 March the day-of-week candidate is
      Monday 4 March, and it is chosen. */
  lemma MondaysAt0230Day()
    ensures DayPass(DateTime(2024, 3, 2, 2, 30, 0, 0), MondaysAt0230()) == Ok(DateTime(2024, 3, 4, 2, 30, 0, 0))
  {
    var s := MondaysAt0230();
    var b := DateTime(2024, 3, 2, 2, 30, 0, 0);
    var c := DateTime(2024, 3, 4, 2, 30, 0, 0);
    assert FieldParser.Range(1, 32)[1] == 2;
    DomInMonth(b, s.doms, 2);
    SaturdayInMarch();
    DowCarrySpec(b, [0]);
    assert AddDays(b, 2) == Some(c);
    assert DowCandidate(b, [0]) == Ok(c);
  }

  /** From Friday 1 March 2024 at 10:00:45.5, "30 2 * * 0" next runs on Monday 4 March at
      02:30: the minute pass reaches 10:30, the hour pass carries to 02:30 on Saturday, the
      day-of-week candidate Monday wins over the unrestricted day of month, and March is
      listed. */
  lemma MondaysAt0230Example()
    ensures NextRunOf(MondaysAt0230(), DateTime(2024, 3, 1, 10, 0, 45, 500000))
         == Ok(DateTime(2024, 3, 4, 2, 30, 0, 0))
  {
    var s := MondaysAt0230();
    var t := DateTime(2024, 3, 1, 10, 0, 0, 0);
    var a := DateTime(2024, 3, 1, 10, 30, 0, 0);
    var b := DateTime(2024, 3, 2, 2, 30, 0, 0);
    var c := DateTime(2024, 3, 4, 2, 30, 0, 0);
    assert Valid(t) && Valid(a) && Valid(b) && Valid(c);
    MinuteAdvance(t, [30], 30);
    HourCarrySpec(a, [2]);
    assert AddDays(a, 1) == Some(DateTime(2024, 3, 2, 10, 30, 0, 0));
    assert HourPass(a, [2]) == Ok(b);
    MondaysAt0230Day();
    assert FieldParser.Range(1, 13)[2] == 3;
    MonthAdvance(c, s.months, 3);
  }
}
