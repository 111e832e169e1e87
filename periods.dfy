/**
  The calendar period calculus of `periods.py`: the seven retention periods and
  the function of each that gives the start of the period before an instant.

  Instants are civil date-times with microsecond precision on the proleptic
  Gregorian calendar, all in one fixed UTC offset. They are ordered by `Micros`,
  the number of microseconds since the start of the day before 0001-01-01
  (CPython's proleptic ordinal scaled to microseconds).
*/
module Periods {

  // ------------------------------------------------------------------ calendar

  predicate IsLeap(year: int) {
    year % 4 == 0 && (year % 100 != 0 || year % 400 == 0)
  }

  function DaysInMonth(year: int, month: int): (n: int)
    requires 1 <= month <= 12
    ensures 28 <= n <= 31
    ensures n == 29 <==> month == 2 && IsLeap(year)
  {
    if month == 2 then (if IsLeap(year) then 29 else 28)
    else if month == 4 || month == 6 || month == 9 || month == 11 then 30
    else 31
  }

  /** Days of `year` that lie in the months before `month`. */
  function DaysBeforeMonth(year: int, month: int): int
    requires 1 <= month <= 12
  {
    [0, 31, 59, 90, 120, 151, 181, 212, 243, 273, 304, 334][month - 1]
      + (if month > 2 && IsLeap(year) then 1 else 0)
  }

  /** Days in the years before `year`, counted from 0001-01-01. */
  function DaysBeforeYear(year: int): int {
    var y := year - 1;
    y * 365 + y / 4 - y / 100 + y / 400
  }

  /** The proleptic Gregorian ordinal of a date: 0001-01-01 is day 1. */
  function Ordinal(year: int, month: int, day: int): int
    requires 1 <= month <= 12
  {
    DaysBeforeYear(year) + DaysBeforeMonth(year, month) + day
  }

  // ----------------------------------------------------------------- instants

  const MicrosPerSecond: int := 1_000_000
  const MicrosPerDay: int := 86_400_000_000

  datatype DateTime = DateTime(year: int, month: int, day: int,
                               hour: int, minute: int, second: int, microsecond: int)
  {
    predicate Valid() {
      && 1 <= month <= 12 && 1 <= day <= DaysInMonth(year, month)
      && 0 <= hour < 24 && 0 <= minute < 60 && 0 <= second < 60
      && 0 <= microsecond < 1_000_000
    }
  }

  /** A date-time whose fields are in range, as every Python `datetime` is. */
  type Instant = t: DateTime | t.Valid() witness DateTime(1, 1, 1, 0, 0, 0, 0)

  function DayNumber(t: Instant): int {
    Ordinal(t.year, t.month, t.day)
  }

  /** Monday is 0 and Sunday is 6, as for Python's `datetime.weekday()`. */
  function Weekday(t: Instant): (w: int)
    ensures 0 <= w < 7
  {
    (DayNumber(t) + 6) % 7
  }

  function TimeOfDay(t: Instant): (us: int)
    ensures 0 <= us < MicrosPerDay
  {
    ((t.hour * 60 + t.minute) * 60 + t.second) * MicrosPerSecond + t.microsecond
  }

  /** The position of an instant on the time line, in microseconds. */
  function Micros(t: Instant): int {
    DayNumber(t) * MicrosPerDay + TimeOfDay(t)
  }

  /** Lexicographic order of the fields, the way one reads a calendar. */
  predicate Earlier(a: DateTime, b: DateTime) {
    if a.year != b.year then a.year < b.year
    else if a.month != b.month then a.month < b.month
    else if a.day != b.day then a.day < b.day
    else if a.hour != b.hour then a.hour < b.hour
    else if a.minute != b.minute then a.minute < b.minute
    else if a.second != b.second then a.second < b.second
    else a.microsecond < b.microsecond
  }

  predicate DateEarlier(a: DateTime, b: DateTime) {
    if a.year != b.year then a.year < b.year
    else if a.month != b.month then a.month < b.month
    else a.day < b.day
  }

  // -------------------------------------------------------- calendar lemmas

  /** Stepping a year forward adds one to `y / n` exactly when it reaches a multiple of `n`. */
  lemma FloorDivStep(y: int)
    ensures y / 4 - (y - 1) / 4 == if y % 4 == 0 then 1 else 0
    ensures y / 100 - (y - 1) / 100 == if y % 100 == 0 then 1 else 0
    ensures y / 400 - (y - 1) / 400 == if y % 400 == 0 then 1 else 0
  {
  }

  /** A year adds 365 days, or 366 when it is a leap year. */
  lemma DaysBeforeNextYear(year: int)
    ensures DaysBeforeYear(year + 1) == DaysBeforeYear(year) + 365 + (if IsLeap(year) then 1 else 0)
  {
    FloorDivStep(year);
    DivisibilityChain(year);
    assert DaysBeforeYear(year + 1) - DaysBeforeYear(year)
      == 365 + (year / 4 - (year - 1) / 4) - (year / 100 - (year - 1) / 100) + (year / 400 - (year - 1) / 400);
  }

  lemma DivisibilityChain(y: int)
    ensures y % 400 == 0 ==> y % 100 == 0
    ensures y % 100 == 0 ==> y % 4 == 0
  {
    if y % 400 == 0 {
      MultipleOfMultiple(y, 400, 100);
    }
    if y % 100 == 0 {
      MultipleOfMultiple(y, 100, 4);
    }
  }

  lemma MultipleOfMultiple(y: int, m: int, n: int)
    requires (m == 400 && n == 100) || (m == 100 && n == 4)
    requires y % m == 0
    ensures y % n == 0
  {
    var k := y / m;
    assert y == m * k;
    if m == 400 {
      assert y == 100 * (4 * k);
    } else {
      assert y == 4 * (25 * k);
    }
  }

  lemma {:induction false} DaysBeforeYearMonotone(y1: int, y2: int)
    requires y1 <= y2
    ensures DaysBeforeYear(y1) <= DaysBeforeYear(y2)
    decreases y2 - y1
  {
    if y1 < y2 {
      DaysBeforeNextYear(y1);
      DaysBeforeYearMonotone(y1 + 1, y2);
    }
  }

  /** Each month starts where the one before it ends. */
  lemma MonthStep(year: int, month: int)
    requires 1 <= month < 12
    ensures DaysBeforeMonth(year, month + 1) == DaysBeforeMonth(year, month) + DaysInMonth(year, month)
  {
  }

  lemma {:induction false} DaysBeforeMonthMonotone(year: int, m1: int, m2: int)
    requires 1 <= m1 < m2 <= 12
    ensures DaysBeforeMonth(year, m1) + DaysInMonth(year, m1) <= DaysBeforeMonth(year, m2)
    decreases m2 - m1
  {
    MonthStep(year, m1);
    if m1 + 1 < m2 {
      DaysBeforeMonthMonotone(year, m1 + 1, m2);
    }
  }

  /** The last day of a year is the day before the next year's first. */
  lemma YearEnd(year: int)
    ensures Ordinal(year, 12, 31) + 1 == Ordinal(year + 1, 1, 1)
  {
    DaysBeforeNextYear(year);
  }

  /** Day numbers follow the order of the calendar. */
  lemma DayNumberMonotone(a: Instant, b: Instant)
    requires DateEarlier(a, b)
    ensures DayNumber(a) < DayNumber(b)
  {
    if a.year < b.year {
      if a.month < 12 {
        DaysBeforeMonthMonotone(a.year, a.month, 12);
      }
      YearEnd(a.year);
      DaysBeforeYearMonotone(a.year + 1, b.year);
    } else if a.month < b.month {
      DaysBeforeMonthMonotone(a.year, a.month, b.month);
    }
  }

  /** The order of the calendar and the order of the time line agree. */
  lemma EarlierIffMicrosLess(a: Instant, b: Instant)
    ensures Earlier(a, b) <==> Micros(a) < Micros(b)
  {
    if DateEarlier(a, b) {
      DayNumberMonotone(a, b);
    } else if DateEarlier(b, a) {
      DayNumberMonotone(b, a);
    } else {
      assert a.year == b.year && a.month == b.month && a.day == b.day;
    }
  }

  /** "Not after" is transitive: `c <= b <= a` gives `c <= a`. */
  lemma NotEarlierTransitive(a: DateTime, b: DateTime, c: DateTime)
    requires !Earlier(a, b) && !Earlier(b, c)
    ensures !Earlier(a, c)
  {
  }

  /** An instant that is not after another is not after it on the time line either. */
  lemma NotLater(a: Instant, b: Instant)
    requires !Earlier(b, a)
    ensures Micros(a) <= Micros(b)
  {
    EarlierIffMicrosLess(b, a);
  }

  // ---------------------------------------------------------- stepping back

  /** The same time of day on the day before. */
  function PreviousDay(t: Instant): (r: Instant)
    ensures DayNumber(r) == DayNumber(t) - 1
    ensures TimeOfDay(r) == TimeOfDay(t) && r.hour == t.hour && r.minute == t.minute
    ensures r.second == t.second && r.microsecond == t.microsecond
  {
    if t.day > 1 then
      t.(day := t.day - 1)
    else if t.month > 1 then
      MonthStep(t.year, t.month - 1);
      t.(month := t.month - 1, day := DaysInMonth(t.year, t.month - 1))
    else
      YearEnd(t.year - 1);
      t.(year := t.year - 1, month := 12, day := 31)
  }

  /** `t - timedelta(days=n)`. */
  function {:induction false} MinusDays(t: Instant, n: nat): (r: Instant)
    ensures DayNumber(r) == DayNumber(t) - n
    ensures r.hour == t.hour && r.minute == t.minute
    ensures r.second == t.second && r.microsecond == t.microsecond
    decreases n
  {
    if n == 0 then t else MinusDays(PreviousDay(t), n - 1)
  }

  /** `t - timedelta(seconds=1)`. */
  function MinusSecond(t: Instant): (r: Instant)
    ensures Micros(r) == Micros(t) - MicrosPerSecond
  {
    if t.second > 0 then
      t.(second := t.second - 1)
    else if t.minute > 0 then
      t.(minute := t.minute - 1, second := 59)
    else if t.hour > 0 then
      t.(hour := t.hour - 1, minute := 59, second := 59)
    else
      PreviousDay(t).(hour := 23, minute := 59, second := 59)
  }

  // ----------------------------------------------------------------- periods

  datatype Period = QuarterHourly | Hourly | Daily | Weekly | Monthly | QuarterYearly | Yearly

  /** The members of the enumeration, in declaration order. */
  const AllPeriods: seq<Period> :=
    [QuarterHourly, Hourly, Daily, Weekly, Monthly, QuarterYearly, Yearly]

  /** The position of a member in `AllPeriods`. */
  function Index(p: Period): (i: nat)
    ensures i < |AllPeriods| && AllPeriods[i] == p
  {
    match p
    case QuarterHourly => 0
    case Hourly => 1
    case Daily => 2
    case Weekly => 3
    case Monthly => 4
    case QuarterYearly => 5
    case Yearly => 6
  }

  /** The member's value, which is also its `config_name`. */
  function ConfigName(p: Period): string {
    match p
    case QuarterHourly => "quarter_hourly"
    case Hourly => "hourly"
    case Daily => "daily"
    case Weekly => "weekly"
    case Monthly => "monthly"
    case QuarterYearly => "quarter_yearly"
    case Yearly => "yearly"
  }

  /** The instants at which a period of kind `p` starts. */
  predicate IsBoundary(p: Period, t: Instant) {
    && t.second == 0 && t.microsecond == 0
    && match p
       case QuarterHourly => t.minute % 15 == 0
       case Hourly => t.minute == 0
       case Daily => t.hour == 0 && t.minute == 0
       case Weekly => Weekday(t) == 0 && t.hour == 0 && t.minute == 0
       case Monthly => t.day == 1 && t.hour == 0 && t.minute == 0
       case QuarterYearly => t.month % 3 == 1 && t.day == 1 && t.hour == 0 && t.minute == 0
       case Yearly => t.month == 1 && t.day == 1 && t.hour == 0 && t.minute == 0
  }

  /** The first minute of the quarter-hour that `minute` lies in: 0, 15, 30 or 45. */
  function QuarterHourStart(minute: int): (q: int)
    requires 0 <= minute < 60
    ensures 0 <= q <= minute && q % 15 == 0 && minute - q < 15
  {
    (minute / 15) * 15
  }

  function PreviousQuarterHour(t: Instant): (r: Instant)
    ensures IsBoundary(QuarterHourly, r) && Micros(r) <= Micros(t) - MicrosPerSecond
  {
    var prev := MinusSecond(t);
    var r := prev.(minute := QuarterHourStart(prev.minute), second := 0, microsecond := 0);
    NotLater(r, prev);
    r
  }

  function PreviousHour(t: Instant): (r: Instant)
    ensures IsBoundary(Hourly, r) && Micros(r) <= Micros(t) - MicrosPerSecond
  {
    var prev := MinusSecond(t);
    prev.(minute := 0, second := 0, microsecond := 0)
  }

  function PreviousDayStart(t: Instant): (r: Instant)
    ensures IsBoundary(Daily, r) && Micros(r) <= Micros(t) - MicrosPerSecond
  {
    var prev := MinusSecond(t);
    prev.(hour := 0, minute := 0, second := 0, microsecond := 0)
  }

  function PreviousWeek(t: Instant): (r: Instant)
    ensures IsBoundary(Weekly, r) && Micros(r) <= Micros(t) - MicrosPerSecond
  {
    var prev := MinusSecond(t);
    var monday := MinusDays(prev, Weekday(prev));
    var r := monday.(hour := 0, minute := 0, second := 0, microsecond := 0);
    WeekStart(prev, r);
    r
  }

  /** Midnight `Weekday(prev)` days before `prev` is a Monday midnight, and not after `prev`. */
  lemma WeekStart(prev: Instant, r: Instant)
    requires DayNumber(r) == DayNumber(prev) - Weekday(prev)
    requires r.hour == 0 && r.minute == 0 && r.second == 0 && r.microsecond == 0
    ensures Weekday(r) == 0 && Micros(r) <= Micros(prev)
  {
    MondayWeekday(DayNumber(prev));
    var d, w := DayNumber(prev), Weekday(prev);
    assert Micros(r) == (d - w) * MicrosPerDay;
    assert Micros(prev) == d * MicrosPerDay + TimeOfDay(prev);
  }

  lemma MondayWeekday(n: int)
    ensures (n - (n + 6) % 7 + 6) % 7 == 0
  {
  }

  function PreviousMonth(t: Instant): (r: Instant)
    ensures IsBoundary(Monthly, r) && Micros(r) <= Micros(t) - MicrosPerSecond
  {
    var prev := MinusSecond(t);
    prev.(day := 1, hour := 0, minute := 0, second := 0, microsecond := 0)
  }

  /** The first month of the quarter that `month` lies in: 1, 4, 7 or 10. */
  function QuarterStart(month: int): (q: int)
    requires 1 <= month <= 12
    ensures 1 <= q <= month && q % 3 == 1 && month - q < 3
  {
    ((month - 1) / 3) * 3 + 1
  }

  function PreviousQuarterYear(t: Instant): (r: Instant)
    ensures IsBoundary(QuarterYearly, r) && Micros(r) <= Micros(t) - MicrosPerSecond
  {
    var prev := MinusSecond(t);
    var r := prev.(month := QuarterStart(prev.month), day := 1,
                   hour := 0, minute := 0, second := 0, microsecond := 0);
    NotLater(r, prev);
    r
  }

  function PreviousYear(t: Instant): (r: Instant)
    ensures IsBoundary(Yearly, r) && Micros(r) <= Micros(t) - MicrosPerSecond
  {
    var prev := MinusSecond(t);
    var r := prev.(month := 1, day := 1, hour := 0, minute := 0, second := 0, microsecond := 0);
    NotLater(r, prev);
    r
  }

  /** The member's `previous_period` function. */
  function PreviousPeriod(p: Period, t: Instant): (r: Instant)
    ensures Micros(r) <= Micros(t) - MicrosPerSecond
  {
    match p
    case QuarterHourly => PreviousQuarterHour(t)
    case Hourly => PreviousHour(t)
    case Daily => PreviousDayStart(t)
    case Weekly => PreviousWeek(t)
    case Monthly => PreviousMonth(t)
    case QuarterYearly => PreviousQuarterYear(t)
    case Yearly => PreviousYear(t)
  }

  /** `previous_period(t)` is the start of a period of kind `p`. */
  lemma PreviousPeriodIsBoundary(p: Period, t: Instant)
    ensures IsBoundary(p, PreviousPeriod(p, t))
  {
  }

  /**
    `previous_period(t)` is the latest start of a period of kind `p` that lies at
    least one second before `t`: no such start is later than the result.
  */
  lemma PreviousPeriodIsLatestBoundary(p: Period, t: Instant, b: Instant)
    requires IsBoundary(p, b) && Micros(b) <= Micros(t) - MicrosPerSecond
    ensures Micros(b) <= Micros(PreviousPeriod(p, t))
  {
    var prev := MinusSecond(t);
    var r := PreviousPeriod(p, t);
    if p == Weekly {
      LatestWeek(prev, b);
    } else if Micros(r) < Micros(b) {
      EarlierIffMicrosLess(r, b);
      EarlierIffMicrosLess(prev, b);
      match p
      case QuarterHourly => NoQuarterHourBetween(prev, r, b);
      case Hourly => NoFieldBoundaryBetween(prev, r, b);
      case Daily => NoFieldBoundaryBetween(prev, r, b);
      case Monthly => NoFieldBoundaryBetween(prev, r, b);
      case QuarterYearly => NoQuarterYearBetween(prev, r, b);
      case Yearly => NoFieldBoundaryBetween(prev, r, b);
    }
  }

  /**
    Truncation sets the finer fields of `prev` to their least values; an instant
    `b` sandwiched between the truncation and `prev` agrees with `prev` on the
    coarser fields.
  */
  lemma NoFieldBoundaryBetween(prev: Instant, r: Instant, b: Instant)
    requires r.year == prev.year
    requires r.month == prev.month || r.month == 1
    requires r.day == prev.day || r.day == 1
    requires r.hour == prev.hour || r.hour == 0
    requires r.minute == 0 && r.second == 0 && r.microsecond == 0
    requires r.month != prev.month ==> r.day == 1
    requires r.day != prev.day ==> r.hour == 0
    requires b.second == 0 && b.microsecond == 0
    requires r.hour == 0 ==> b.hour == 0 && b.minute == 0
    requires r.day == 1 ==> b.day == 1 && b.hour == 0 && b.minute == 0
    requires r.month == 1 ==> b.month == 1 && b.day == 1 && b.hour == 0 && b.minute == 0
    requires b.minute == 0
    ensures Earlier(r, b) ==> Earlier(prev, b)
  {
  }

  lemma NoQuarterHourBetween(prev: Instant, r: Instant, b: Instant)
    requires r == prev.(minute := QuarterHourStart(prev.minute), second := 0, microsecond := 0)
    requires IsBoundary(QuarterHourly, b)
    ensures Earlier(r, b) ==> Earlier(prev, b)
  {
  }

  lemma NoQuarterYearBetween(prev: Instant, r: Instant, b: Instant)
    requires r == prev.(month := QuarterStart(prev.month), day := 1,
                        hour := 0, minute := 0, second := 0, microsecond := 0)
    requires IsBoundary(QuarterYearly, b)
    ensures Earlier(r, b) ==> Earlier(prev, b)
  {
  }

  lemma LatestWeek(prev: Instant, b: Instant)
    requires IsBoundary(Weekly, b) && Micros(b) <= Micros(prev)
    ensures Micros(b) <= Micros(MinusDays(prev, Weekday(prev)).(hour := 0, minute := 0, second := 0, microsecond := 0))
  {
    var w := Weekday(prev);
    var m := MinusDays(prev, w);
    var r := m.(hour := 0, minute := 0, second := 0, microsecond := 0);
    var d := DayNumber(prev);
    var db := DayNumber(b);
    assert w == (d + 6) % 7;
    assert DayNumber(r) == d - w;
    assert Micros(r) == (d - w) * MicrosPerDay;
    assert Micros(b) == db * MicrosPerDay;
    var tp := TimeOfDay(prev);
    assert Micros(prev) == d * MicrosPerDay + tp;
    DayOfMicros(db, d, tp);
    WeekStartsAreSevenApart(db, d);
  }

  lemma DayOfMicros(db: int, d: int, tp: int)
    requires 0 <= tp < MicrosPerDay && db * MicrosPerDay <= d * MicrosPerDay + tp
    ensures db <= d
  {
  }

  /** A Monday no later than day `d` is no later than the Monday of `d`'s week. */
  lemma WeekStartsAreSevenApart(monday: int, d: int)
    requires monday <= d && (monday + 6) % 7 == 0
    ensures monday <= d - (d + 6) % 7
  {
  }

  /**
    An instant that is itself the start of a period is mapped to the start of the
    period before it, never to itself: the result is earlier and no start of a
    period lies strictly between the two.
  */
  lemma PreviousPeriodOfBoundary(p: Period, t: Instant, b: Instant)
    requires IsBoundary(p, t) && IsBoundary(p, b) && Micros(b) < Micros(t)
    ensures Micros(PreviousPeriod(p, t)) < Micros(t)
    ensures Micros(b) <= Micros(PreviousPeriod(p, t))
  {
    WholeMinutesApart(b, t);
    PreviousPeriodIsLatestBoundary(p, t, b);
  }

  /** Two instants on whole minutes that differ lie at least a minute, so at least a second, apart. */
  lemma WholeMinutesApart(a: Instant, b: Instant)
    requires a.second == 0 && a.microsecond == 0 && b.second == 0 && b.microsecond == 0
    requires Micros(a) < Micros(b)
    ensures Micros(a) <= Micros(b) - MicrosPerSecond
  {
    var ka := DayNumber(a) * 1440 + a.hour * 60 + a.minute;
    var kb := DayNumber(b) * 1440 + b.hour * 60 + b.minute;
    assert Micros(a) == ka * 60_000_000;
    assert Micros(b) == kb * 60_000_000;
    MinutesApart(ka, kb);
  }

  lemma MinutesApart(ka: int, kb: int)
    requires ka * 60_000_000 < kb * 60_000_000
    ensures ka * 60_000_000 <= kb * 60_000_000 - MicrosPerSecond
  {
  }

  /**
    `previous_periods(start, count)`: `count` successive period starts going back
    from `start`, none when `count` is zero or negative.
  */
  function PreviousPeriods(p: Period, start: Instant, count: int): (r: seq<Instant>)
    ensures |r| == if count > 0 then count else 0
    decreases count
  {
    if count <= 0 then []
    else
      var first := PreviousPeriod(p, start);
      [first] + PreviousPeriods(p, first, count - 1)
  }

  /** The first start is `previous_period(start)`, and each later one is `previous_period` of the one before. */
  lemma {:induction false} PreviousPeriodsChain(p: Period, start: Instant, count: int)
    ensures |PreviousPeriods(p, start, count)| > 0 ==> PreviousPeriods(p, start, count)[0] == PreviousPeriod(p, start)
    ensures forall i :: 0 < i < |PreviousPeriods(p, start, count)| ==>
      PreviousPeriods(p, start, count)[i] == PreviousPeriod(p, PreviousPeriods(p, start, count)[i - 1])
    decreases count
  {
    if count > 0 {
      var first := PreviousPeriod(p, start);
      var rest := PreviousPeriods(p, first, count - 1);
      PreviousPeriodsChain(p, first, count - 1);
      var r := [first] + rest;
      forall i | 0 < i < |r| ensures r[i] == PreviousPeriod(p, r[i - 1]) {
        assert r[i] == rest[i - 1];
        if i > 1 {
          assert r[i - 1] == rest[i - 2];
        }
      }
    }
  }

  /** The yielded starts are strictly decreasing and before `start`. */
  lemma {:induction false} PreviousPeriodsDecrease(p: Period, start: Instant, count: int)
    ensures forall i :: 0 <= i < |PreviousPeriods(p, start, count)| ==> Micros(PreviousPeriods(p, start, count)[i]) < Micros(start)
    ensures forall i, j :: 0 <= i < j < |PreviousPeriods(p, start, count)| ==>
      Micros(PreviousPeriods(p, start, count)[j]) < Micros(PreviousPeriods(p, start, count)[i])
    decreases count
  {
    if count > 0 {
      var first := PreviousPeriod(p, start);
      var rest := PreviousPeriods(p, first, count - 1);
      PreviousPeriodsDecrease(p, first, count - 1);
      ConsDecreasing(first, rest, start, Micros);
    }
  }

  /** Every yielded start is the start of a period of kind `p`. */
  lemma PreviousPeriodsAreBoundaries(p: Period, start: Instant, count: int)
    ensures forall t :: t in PreviousPeriods(p, start, count) ==> IsBoundary(p, t)
  {
    var r := PreviousPeriods(p, start, count);
    PreviousPeriodsChain(p, start, count);
    forall t | t in r ensures IsBoundary(p, t) {
      var i :| 0 <= i < |r| && r[i] == t;
      if i == 0 {
        PreviousPeriodIsBoundary(p, start);
      } else {
        PreviousPeriodIsBoundary(p, r[i - 1]);
      }
    }
  }

  /** Putting an element in front of a sequence that decreases under `key` and lies below it keeps the sequence decreasing. */
  lemma ConsDecreasing(first: Instant, rest: seq<Instant>, bound: Instant, key: Instant -> int)
    requires key(first) < key(bound)
    requires forall i :: 0 <= i < |rest| ==> key(rest[i]) < key(first)
    requires forall i, j :: 0 <= i < j < |rest| ==> key(rest[j]) < key(rest[i])
    ensures forall i :: 0 <= i < |[first] + rest| ==> key(([first] + rest)[i]) < key(bound)
    ensures forall i, j :: 0 <= i < j < |[first] + rest| ==> key(([first] + rest)[j]) < key(([first] + rest)[i])
  {
    var r := [first] + rest;
    forall i | 0 <= i < |r| ensures key(r[i]) < key(bound) {
      if i > 0 {
        assert r[i] == rest[i - 1];
      }
    }
    forall i, j | 0 <= i < j < |r| ensures key(r[j]) < key(r[i]) {
      assert r[j] == rest[j - 1];
      if i > 0 {
        assert r[i] == rest[i - 1];
      }
    }
  }

  // ------------------------------------------------------------ examples

  lemma QuarterHoursBeforeMidnight()
    ensures PreviousPeriods(QuarterHourly, DateTime(2024, 3, 1, 0, 20, 0, 0), 3)
         == [DateTime(2024, 3, 1, 0, 15, 0, 0), DateTime(2024, 3, 1, 0, 0, 0, 0),
             DateTime(2024, 2, 29, 23, 45, 0, 0)]
  {
    var t0, t1, t2, t3 := DateTime(2024, 3, 1, 0, 20, 0, 0), DateTime(2024, 3, 1, 0, 15, 0, 0),
                          DateTime(2024, 3, 1, 0, 0, 0, 0), DateTime(2024, 2, 29, 23, 45, 0, 0);
    assert PreviousQuarterHour(t0) == t1;
    assert PreviousQuarterHour(t1) == t2;
    assert MinusSecond(t2) == DateTime(2024, 2, 29, 23, 59, 59, 0);
    assert PreviousQuarterHour(t2) == t3;
    assert PreviousPeriods(QuarterHourly, t3, 0) == [];
    assert PreviousPeriods(QuarterHourly, t2, 1) == [t3];
    assert PreviousPeriods(QuarterHourly, t1, 2) == [t2, t3];
  }

  lemma WeeksBackFromFriday()
    ensures PreviousPeriods(Weekly, DateTime(2024, 3, 1, 2, 20, 0, 0), 2)
         == [DateTime(2024, 2, 26, 0, 0, 0, 0), DateTime(2024, 2, 19, 0, 0, 0, 0)]
  {
    var t0, t1, t2 := DateTime(2024, 3, 1, 2, 20, 0, 0), DateTime(2024, 2, 26, 0, 0, 0, 0),
                      DateTime(2024, 2, 19, 0, 0, 0, 0);
    var prev0 := DateTime(2024, 3, 1, 2, 19, 59, 0);
    assert MinusSecond(t0) == prev0;
    assert DayNumber(prev0) == 738946;
    assert Weekday(prev0) == 4;
    assert MinusDays(prev0, 4) == DateTime(2024, 2, 26, 2, 19, 59, 0) by {
      assert PreviousDay(prev0) == DateTime(2024, 2, 29, 2, 19, 59, 0);
      assert MinusDays(DateTime(2024, 2, 27, 2, 19, 59, 0), 1) == DateTime(2024, 2, 26, 2, 19, 59, 0);
      assert MinusDays(DateTime(2024, 2, 28, 2, 19, 59, 0), 2) == DateTime(2024, 2, 26, 2, 19, 59, 0);
      assert MinusDays(DateTime(2024, 2, 29, 2, 19, 59, 0), 3) == DateTime(2024, 2, 26, 2, 19, 59, 0);
    }
    assert PreviousWeek(t0) == t1;
    var prev1 := DateTime(2024, 2, 25, 23, 59, 59, 0);
    assert MinusSecond(t1) == prev1;
    assert Weekday(prev1) == 6;
    assert MinusDays(prev1, 6) == DateTime(2024, 2, 19, 23, 59, 59, 0) by {
      assert MinusDays(DateTime(2024, 2, 20, 23, 59, 59, 0), 1) == DateTime(2024, 2, 19, 23, 59, 59, 0);
      assert MinusDays(DateTime(2024, 2, 21, 23, 59, 59, 0), 2) == DateTime(2024, 2, 19, 23, 59, 59, 0);
      assert MinusDays(DateTime(2024, 2, 22, 23, 59, 59, 0), 3) == DateTime(2024, 2, 19, 23, 59, 59, 0);
      assert MinusDays(DateTime(2024, 2, 23, 23, 59, 59, 0), 4) == DateTime(2024, 2, 19, 23, 59, 59, 0);
      assert MinusDays(DateTime(2024, 2, 24, 23, 59, 59, 0), 5) == DateTime(2024, 2, 19, 23, 59, 59, 0);
    }
    assert PreviousWeek(t1) == t2;
    assert PreviousPeriods(Weekly, t1, 1) == [t2];
  }

  lemma DaysBackAcrossLeapDay()
    ensures PreviousPeriods(Daily, DateTime(2024, 3, 1, 2, 20, 0, 0), 3)
         == [DateTime(2024, 3, 1, 0, 0, 0, 0), DateTime(2024, 2, 29, 0, 0, 0, 0),
             DateTime(2024, 2, 28, 0, 0, 0, 0)]
  {
    var t1, t2, t3 := DateTime(2024, 3, 1, 0, 0, 0, 0), DateTime(2024, 2, 29, 0, 0, 0, 0),
                      DateTime(2024, 2, 28, 0, 0, 0, 0);
    assert PreviousDayStart(DateTime(2024, 3, 1, 2, 20, 0, 0)) == t1;
    assert MinusSecond(t1) == DateTime(2024, 2, 29, 23, 59, 59, 0);
    assert PreviousDayStart(t1) == t2;
    assert PreviousDayStart(t2) == t3;
    assert PreviousPeriods(Daily, t2, 1) == [t3];
    assert PreviousPeriods(Daily, t1, 2) == [t2, t3];
  }

  lemma MonthsBackAcrossNewYear()
    ensures PreviousPeriods(Monthly, DateTime(2024, 1, 31, 2, 20, 0, 0), 3)
         == [DateTime(2024, 1, 1, 0, 0, 0, 0), DateTime(2023, 12, 1, 0, 0, 0, 0),
             DateTime(2023, 11, 1, 0, 0, 0, 0)]
  {
    var t1, t2, t3 := DateTime(2024, 1, 1, 0, 0, 0, 0), DateTime(2023, 12, 1, 0, 0, 0, 0),
                      DateTime(2023, 11, 1, 0, 0, 0, 0);
    assert PreviousMonth(DateTime(2024, 1, 31, 2, 20, 0, 0)) == t1;
    assert MinusSecond(t1) == DateTime(2023, 12, 31, 23, 59, 59, 0);
    assert PreviousMonth(t1) == t2;
    assert MinusSecond(t2) == DateTime(2023, 11, 30, 23, 59, 59, 0);
    assert PreviousMonth(t2) == t3;
    assert PreviousPeriods(Monthly, t2, 1) == [t3];
    assert PreviousPeriods(Monthly, t1, 2) == [t2, t3];
  }

  lemma QuartersBackAcrossNewYear()
    ensures PreviousPeriods(QuarterYearly, DateTime(2024, 1, 31, 2, 20, 0, 0), 2)
         == [DateTime(2024, 1, 1, 0, 0, 0, 0), DateTime(2023, 10, 1, 0, 0, 0, 0)]
  {
    var t1, t2 := DateTime(2024, 1, 1, 0, 0, 0, 0), DateTime(2023, 10, 1, 0, 0, 0, 0);
    assert PreviousQuarterYear(DateTime(2024, 1, 31, 2, 20, 0, 0)) == t1;
    assert MinusSecond(t1) == DateTime(2023, 12, 31, 23, 59, 59, 0);
    assert PreviousQuarterYear(t1) == t2;
    assert PreviousPeriods(QuarterYearly, t1, 1) == [t2];
  }

  lemma YearsBackFromLeapDay()
    ensures PreviousPeriods(Yearly, DateTime(2024, 2, 29, 2, 20, 0, 0), 2)
         == [DateTime(2024, 1, 1, 0, 0, 0, 0), DateTime(2023, 1, 1, 0, 0, 0, 0)]
  {
    var t1, t2 := DateTime(2024, 1, 1, 0, 0, 0, 0), DateTime(2023, 1, 1, 0, 0, 0, 0);
    assert PreviousYear(DateTime(2024, 2, 29, 2, 20, 0, 0)) == t1;
    assert MinusSecond(t1) == DateTime(2023, 12, 31, 23, 59, 59, 0);
    assert PreviousYear(t1) == t2;
    assert PreviousPeriods(Yearly, t1, 1) == [t2];
  }

  lemma HourOnBoundary()
    ensures PreviousPeriods(Hourly, DateTime(2024, 3, 1, 1, 0, 0, 0), 1) == [DateTime(2024, 3, 1, 0, 0, 0, 0)]
    ensures PreviousPeriods(Hourly, DateTime(2024, 3, 1, 1, 20, 0, 0), 0) == []
  {
    assert PreviousHour(DateTime(2024, 3, 1, 1, 0, 0, 0)) == DateTime(2024, 3, 1, 0, 0, 0, 0);
  }
}
