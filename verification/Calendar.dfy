/** UTC instants in nanoseconds since 1970-01-01, the Gregorian calendar, and the scheduler's
    next-run arithmetic. */
module Calendar {
  const SECOND := 1_000_000_000
  const HOUR := 3_600 * SECOND
  const DAY := 24 * HOUR

  /** Whole Unix seconds of an instant, as `Time.Unix` gives them. */
  function Sec(t: int): int {
    t / SECOND
  }

  lemma SecIs(t: int)
    ensures Sec(t) == t / 1_000_000_000
  {
  }

  datatype Frequency = Hourly | Daily | Weekly | Monthly | Unknown(name: string)

  datatype Weekday = Sunday | Monday | Tuesday | Wednesday | Thursday | Friday | Saturday

  /** The weekday of a day number; day 0, 1970-01-01, was a Thursday. */
  function WeekdayOf(day: int): Weekday {
    match (day + 4) % 7
    case 0 => Sunday
    case 1 => Monday
    case 2 => Tuesday
    case 3 => Wednesday
    case 4 => Thursday
    case 5 => Friday
    case _ => Saturday
  }

  // ---------- The Gregorian calendar ----------

  predicate IsLeap(year: int) {
    year % 4 == 0 && (year % 100 != 0 || year % 400 == 0)
  }

  function DaysInMonth(year: int, month: int): int
    requires 1 <= month <= 12
  {
    if month == 2 then (if IsLeap(year) then 29 else 28)
    else if month in {4, 6, 9, 11} then 30
    else 31
  }

  function DaysInYear(year: int): int {
    if IsLeap(year) then 366 else 365
  }

  /** Days from 0001-01-01 to the first of January of `year`. */
  function DaysBeforeYear(year: int): int {
    var y := year - 1;
    365 * y + y / 4 - y / 100 + y / 400
  }

  /** Days from the first of January of `year` to the first of `month`. */
  function DaysBeforeMonth(year: int, month: int): int
    requires 1 <= month <= 12
    decreases month
  {
    if month == 1 then 0 else DaysBeforeMonth(year, month - 1) + DaysInMonth(year, month - 1)
  }

  const EPOCH_DAYS := 719_162 // from 0001-01-01 to 1970-01-01

  /** The day number of the first of a month, counting from 1970-01-01. */
  function MonthStart(year: int, month: int): int
    requires 1 <= month <= 12
  {
    DaysBeforeYear(year) + DaysBeforeMonth(year, month) - EPOCH_DAYS
  }

  /** The year of a day number, by the 400-, 100-, 4- and 1-year cycles of the calendar. */
  function YearOf(day: int): int {
    var d := day + EPOCH_DAYS;
    var n400, d400 := d / 146_097, d % 146_097;
    var n100 := if d400 / 36_524 > 3 then 3 else d400 / 36_524;
    var d100 := d400 - 36_524 * n100;
    var n4, d4 := d100 / 1_461, d100 % 1_461;
    var n1 := if d4 / 365 > 3 then 3 else d4 / 365;
    400 * n400 + 100 * n100 + 4 * n4 + n1 + 1
  }

  /** The month of a day number: the last whose first day is not after it. */
  function MonthFrom(day: int, month: int): int
    requires 1 <= month <= 12
    decreases 12 - month
  {
    if month < 12 && MonthStart(YearOf(day), month + 1) <= day then MonthFrom(day, month + 1) else month
  }

  function MonthOf(day: int): int {
    MonthFrom(day, 1)
  }

  /** The days before a year, by the cycles the year is made of. */
  lemma YearDigits(a: int, b: int, c: int, d: int)
    requires 0 <= b <= 3 && 0 <= c <= 24 && 0 <= d <= 3
    ensures DaysBeforeYear(400 * a + 100 * b + 4 * c + d + 1) == 146_097 * a + 36_524 * b + 1_461 * c + 365 * d
  {
    var y := 400 * a + 100 * b + 4 * c + d;
    assert y / 400 == a;
    assert y / 100 == 4 * a + b;
    assert y / 4 == 100 * a + 25 * b + c;
  }

  lemma YearLength(year: int)
    ensures DaysBeforeYear(year + 1) == DaysBeforeYear(year) + DaysInYear(year)
  {
    var y := year - 1;
    var a := y / 400;
    var b := (y - 400 * a) / 100;
    var c := (y - 400 * a - 100 * b) / 4;
    var d := y - 400 * a - 100 * b - 4 * c;
    hide DaysBeforeYear, IsLeap;
    assert y == 400 * a + 100 * b + 4 * c + d;
    YearDigits(a, b, c, d);
    YearLeapByDigits(a, b, c, d);
    if d < 3 {
      YearDigits(a, b, c, d + 1);
    } else if c < 24 {
      YearDigits(a, b, c + 1, 0);
    } else if b < 3 {
      YearDigits(a, b + 1, 0, 0);
    } else {
      YearDigits(a + 1, 0, 0, 0);
    }
  }

  /** A day count split into whole cycles and a rest that fits the year it falls into. */
  lemma Cycles(day: int) returns (a: int, b: int, c: int, d: int, rest: int)
    ensures 0 <= b <= 3 && 0 <= c <= 24 && 0 <= d <= 3
    ensures YearOf(day) == 400 * a + 100 * b + 4 * c + d + 1
    ensures day + EPOCH_DAYS == 146_097 * a + 36_524 * b + 1_461 * c + 365 * d + rest
    ensures 0 <= rest < if d == 3 && (c < 24 || b == 3) then 366 else 365
  {
    var days := day + EPOCH_DAYS;
    a := days / 146_097;
    var d400 := days - 146_097 * a;
    assert d400 == days % 146_097;
    b := if d400 / 36_524 > 3 then 3 else d400 / 36_524;
    var d100 := d400 - 36_524 * b;
    c := d100 / 1_461;
    var d4 := d100 - 1_461 * c;
    assert d4 == d100 % 1_461;
    d := if d4 / 365 > 3 then 3 else d4 / 365;
    rest := d4 - 365 * d;
  }

  lemma YearOfBrackets(day: int)
    ensures DaysBeforeYear(YearOf(day)) <= day + EPOCH_DAYS < DaysBeforeYear(YearOf(day) + 1)
  {
    var a, b, c, d, rest := Cycles(day);
    hide YearOf, DaysBeforeYear, IsLeap;
    YearDigits(a, b, c, d);
    YearLength(YearOf(day));
    YearLeapByDigits(a, b, c, d);
  }

  lemma YearLeapByDigits(a: int, b: int, c: int, d: int)
    requires 0 <= b <= 3 && 0 <= c <= 24 && 0 <= d <= 3
    ensures IsLeap(400 * a + 100 * b + 4 * c + d + 1) <==> d == 3 && (c < 24 || b == 3)
  {
  }

  lemma MonthLengthsSum(year: int)
    ensures DaysBeforeMonth(year, 12) + 31 == DaysInYear(year)
  {
    assert DaysBeforeMonth(year, 3) == 31 + DaysInMonth(year, 2);
    assert DaysBeforeMonth(year, 6) == 31 + DaysInMonth(year, 2) + 31 + 30 + 31;
    assert DaysBeforeMonth(year, 9) == DaysBeforeMonth(year, 6) + 30 + 31 + 31;
    assert DaysBeforeMonth(year, 12) == DaysBeforeMonth(year, 9) + 30 + 31 + 30;
  }

  /** The month after, as `time.Date` normalises a month 13. */
  function YearAfter(year: int, month: int): int {
    if month == 12 then year + 1 else year
  }

  function MonthAfter(month: int): int {
    if month == 12 then 1 else month + 1
  }

  lemma MonthLength(year: int, month: int)
    requires 1 <= month <= 12
    ensures MonthStart(YearAfter(year, month), MonthAfter(month))
            == MonthStart(year, month) + DaysInMonth(year, month)
  {
    YearLength(year);
    MonthLengthsSum(year);
  }

  lemma MonthFromBrackets(day: int, month: int)
    requires 1 <= month <= 12 && MonthStart(YearOf(day), month) <= day
    ensures var y, m := YearOf(day), MonthFrom(day, month);
            && 1 <= m <= 12
            && MonthStart(y, m) <= day < MonthStart(y, m) + DaysInMonth(y, m)
    decreases 12 - month
  {
    YearOfBrackets(day);
    MonthLength(YearOf(day), month);
    if month == 12 || day < MonthStart(YearOf(day), month + 1) {
    } else {
      MonthFromBrackets(day, month + 1);
    }
  }

  /** Every day lies in the month that its year and month name. */
  lemma MonthOfBrackets(day: int)
    ensures var y, m := YearOf(day), MonthOf(day);
            && 1 <= m <= 12
            && MonthStart(y, m) <= day < MonthStart(YearAfter(y, m), MonthAfter(m))
    ensures MonthStart(1970, 1) == 0
  {
    YearOfBrackets(day);
    MonthFromBrackets(day, 1);
    MonthLength(YearOf(day), MonthOf(day));
  }

  /** A day's number in its month. */
  lemma DayOfMonth(day: int)
    ensures 1 <= MonthOf(day) <= 12
    ensures var y, m := YearOf(day), MonthOf(day);
            1 <= day - MonthStart(y, m) + 1 <= DaysInMonth(y, m) <= 31
  {
    MonthOfBrackets(day);
    MonthLength(YearOf(day), MonthOf(day));
    hide MonthStart, YearOf, MonthOf;
  }

  /** Months follow each other: the month after any month starts no later than any later month. */
  lemma {:induction false} MonthsInOrder(y1: int, m1: int, y2: int, m2: int)
    requires 1 <= m1 <= 12 && 1 <= m2 <= 12 && (y1 < y2 || (y1 == y2 && m1 < m2))
    ensures MonthStart(YearAfter(y1, m1), MonthAfter(m1)) <= MonthStart(y2, m2)
    decreases y2 - y1, 12 - m1
  {
    var y, m := YearAfter(y1, m1), MonthAfter(m1);
    if (y, m) == (y2, m2) {
    } else {
      MonthLength(y, m);
      MonthsInOrder(y, m, y2, m2);
    }
  }

  /** The lengths of the months against a formula: from March on, five months always have 153
      days, and a year begins with a January of 31. */
  lemma MonthLengthsByFormula(year: int, month: int)
    requires 3 <= month <= 12
    ensures DaysBeforeMonth(year, month) == DaysBeforeMonth(year, 3) + (153 * (month - 3) + 2) / 5
    ensures DaysBeforeMonth(year, 2) == 31 && DaysBeforeMonth(year, 3) == if IsLeap(year) then 60 else 59
    decreases month
  {
    if month == 3 {
      assert DaysBeforeMonth(year, 2) == DaysBeforeMonth(year, 1) + 31;
    } else {
      MonthLengthsByFormula(year, month - 1);
    }
  }

  // ---------- Next run ----------

  /** `Time.Truncate` to a whole unit. */
  function Truncate(t: int, unit: int): int
    requires unit > 0
  {
    t - t % unit
  }

  function NextMonday(day: int): int {
    day + (8 - (day + 4) % 7) % 7
  }

  /** The scheduler's next run after `from`. */
  function NextRun(f: Frequency, from: int): int {
    match f
    case Hourly => Truncate(from, HOUR) + HOUR
    case Daily => Truncate(from, DAY) + DAY
    case Weekly => NextMonday(from / DAY + 1) * DAY
    case Monthly =>
      MonthOfBrackets(from / DAY);
      var y, m := YearOf(from / DAY), MonthOf(from / DAY);
      MonthStart(YearAfter(y, m), MonthAfter(m)) * DAY
    case Unknown(_) => from + DAY
  }

  /** The instants at which a period of the given kind begins. */
  ghost predicate Boundary(f: Frequency, t: int) {
    match f
    case Hourly => t % HOUR == 0
    case Daily => t % DAY == 0
    case Weekly => t % DAY == 0 && WeekdayOf(t / DAY) == Monday
    case Monthly => exists y, m :: 1 <= m <= 12 && t == MonthStart(y, m) * DAY
    case Unknown(_) => false
  }

  /** Whole days against instants. */
  lemma DayBounds(t: int, day: int)
    ensures t / DAY * DAY <= t < (t / DAY + 1) * DAY
    ensures day * DAY / DAY == day && day * DAY % DAY == 0
    ensures t < day * DAY <==> t / DAY < day
    ensures t % DAY == 0 <==> t == t / DAY * DAY
    ensures Truncate(t, DAY) == t / DAY * DAY
  {
  }

  /** How far the calendar of a location runs ahead of UTC's for a frequency: weekdays are read
      at UTC midnights, so only whole days count there, months at the local first midnight. */
  function Ahead(f: Frequency, offset: int): int {
    match f
    case Weekly => offset / DAY * DAY
    case Monthly => offset
    case _ => 0
  }

  /** The next run where local time is UTC plus `offset`. */
  function NextRunAt(f: Frequency, from: int, offset: int): int {
    NextRun(f, from + Ahead(f, offset)) - Ahead(f, offset)
  }

  /** `nextRunTime` as written; the weekly loop takes at most six steps. */
  method NextRunTime(f: Frequency, from: int, offset: int) returns (next: int, ghost steps: nat)
    ensures next == NextRunAt(f, from, offset)
    ensures offset == 0 ==> next == NextRun(f, from)
    ensures steps <= 6 && (steps > 0 ==> f == Weekly)
  {
    NextRunAtIs(f, from, offset);
    hide MonthStart, YearOf, MonthOf, WeekdayOf, NextMonday, NextRunAt, NextRun, Ahead, Truncate;
    steps := 0;
    match f
    case Hourly => next := Truncate(from, HOUR) + HOUR;
    case Daily => next := Truncate(from, DAY) + DAY;
    case Weekly =>
      next, steps := NextLocalMonday(from, offset);
    case Monthly =>
      MonthOfBrackets((from + offset) / DAY);
      var y, m := YearOf((from + offset) / DAY), MonthOf((from + offset) / DAY);
      // `time.Date` takes month 13 as January of the year after
      next := MonthStart(YearAfter(y, m), MonthAfter(m)) * DAY - offset;
    case Unknown(_) => next := from + DAY;
  }

  /** The weekly case: from the next UTC midnight on, day by day to a local Monday. */
  method NextLocalMonday(from: int, offset: int) returns (d: int, ghost steps: nat)
    ensures d == (NextMonday(from / DAY + 1 + offset / DAY) - offset / DAY) * DAY
    ensures steps <= 6
  {
    hide WeekdayOf, NextMonday;
    ghost var first, ahead := from / DAY + 1, offset / DAY;
    NextMondayIsLeast(first + ahead, first + ahead);
    DayBounds(from, first);
    d, steps := Truncate(from, DAY) + DAY, 0;
    hide Truncate;
    LocalDay(first, offset);
    while WeekdayOf((d + offset) / DAY) != Monday
      invariant d == (first + steps) * DAY && (d + offset) / DAY == first + ahead + steps
      invariant first + ahead + steps <= NextMonday(first + ahead) <= first + ahead + 6
      decreases NextMonday(first + ahead) - first - ahead - steps
    {
      NextMondayIsLeast(first + ahead, first + ahead + steps);
      d := d + DAY;
      steps := steps + 1;
      LocalDay(first + steps, offset);
    }
    NextMondayIsLeast(first + ahead, first + ahead + steps);
  }

  /** The next run of a location, case by case. */
  lemma NextRunAtIs(f: Frequency, from: int, offset: int)
    ensures offset == 0 ==> NextRunAt(f, from, offset) == NextRun(f, from)
    ensures f == Hourly ==> NextRunAt(f, from, offset) == Truncate(from, HOUR) + HOUR
    ensures f == Daily ==> NextRunAt(f, from, offset) == Truncate(from, DAY) + DAY
    ensures f == Weekly ==>
              NextRunAt(f, from, offset) == (NextMonday(from / DAY + 1 + offset / DAY) - offset / DAY) * DAY
    ensures f == Monthly ==>
              var day := (from + offset) / DAY;
              1 <= MonthOf(day) <= 12 &&
              NextRunAt(f, from, offset)
              == MonthStart(YearAfter(YearOf(day), MonthOf(day)), MonthAfter(MonthOf(day))) * DAY - offset
    ensures f.Unknown? ==> NextRunAt(f, from, offset) == from + DAY
  {
    hide MonthStart, YearOf, MonthOf, NextMonday, Truncate;
    DaysAhead(from, offset / DAY);
    MonthOfBrackets((from + offset) / DAY);
  }

  /** The local day at a UTC midnight. */
  lemma LocalDay(day: int, offset: int)
    ensures (day * DAY + offset) / DAY == day + offset / DAY
  {
  }

  lemma DaysAhead(t: int, days: int)
    ensures (t + days * DAY) / DAY == t / DAY + days
  {
  }

  /** The next run is the least period boundary strictly after the given instant. */
  lemma NextRunIsLeastBoundary(f: Frequency, from: int, b: int)
    requires !f.Unknown?
    ensures from < NextRun(f, from) && Boundary(f, NextRun(f, from))
    ensures Boundary(f, b) && from < b ==> NextRun(f, from) <= b
  {
    hide Truncate, NextMonday, WeekdayOf, YearOf, MonthOf, MonthStart, YearAfter, MonthAfter;
    match f
    case Hourly => NextUnitIsLeast(from, b, HOUR);
    case Daily => NextUnitIsLeast(from, b, DAY);
    case Weekly => NextWeekIsLeast(from, b);
    case Monthly => NextMonthIsLeast(from, b);
  }

  /** The boundaries of a location: a week begins at the UTC midnight that falls on a local Monday,
      a month at local midnight. */
  ghost predicate BoundaryAt(f: Frequency, t: int, offset: int) {
    match f
    case Weekly => t % DAY == 0 && WeekdayOf((t + offset) / DAY) == Monday
    case Monthly => Boundary(Monthly, t + offset)
    case _ => Boundary(f, t)
  }

  lemma BoundaryShifts(f: Frequency, t: int, offset: int)
    ensures BoundaryAt(f, t, offset) <==> Boundary(f, t + Ahead(f, offset))
  {
    if f == Weekly {
      var days := offset / DAY;
      DayBounds(t, 0);
      DayBounds(t + days * DAY, 0);
      DaysAhead(t, days);
      if t % DAY == 0 { LocalDay(t / DAY, offset); }
      hide WeekdayOf;
    }
  }

  /** In every location the next run is the least local boundary strictly after the instant. */
  lemma LocalNextRunIsLeastBoundary(f: Frequency, from: int, offset: int, b: int)
    requires !f.Unknown?
    ensures var next := NextRunAt(f, from, offset);
            from < next && BoundaryAt(f, next, offset) && (BoundaryAt(f, b, offset) && from < b ==> next <= b)
  {
    hide NextRun, Boundary, BoundaryAt, Ahead;
    var ahead := Ahead(f, offset);
    NextRunIsLeastBoundary(f, from + ahead, b + ahead);
    BoundaryShifts(f, NextRunAt(f, from, offset), offset);
    BoundaryShifts(f, b, offset);
  }

  /** What the weekly case promises: the first Monday midnight of UTC after the instant. */
  ghost predicate NextUtcMonday(from: int, next: int) {
    && from < next && Boundary(Weekly, next)
    && forall b :: Boundary(Weekly, b) && from < b ==> next <= b
  }

  lemma OneNextMonday(from: int, next: int)
    ensures NextUtcMonday(from, next) <==> next == NextRun(Weekly, from)
  {
    hide Boundary, NextRun;
    NextRunIsLeastBoundary(Weekly, from, next);
    forall b | Boundary(Weekly, b) && from < b
      ensures NextRun(Weekly, from) <= b
    {
      NextRunIsLeastBoundary(Weekly, from, b);
    }
  }

  /** The weekly promise of Monday 00:00 UTC is kept from every instant exactly in the locations
      that are not behind UTC; behind it, it is never kept. */
  lemma WeeklyPromiseExactly(offset: int)
    requires -DAY < offset < DAY
    ensures (forall from :: NextUtcMonday(from, NextRunAt(Weekly, from, offset))) <==> offset >= 0
    ensures (exists from :: NextUtcMonday(from, NextRunAt(Weekly, from, offset))) <==> offset >= 0
  {
    hide NextUtcMonday, NextRunAt, Boundary;
    forall from
      ensures NextUtcMonday(from, NextRunAt(Weekly, from, offset)) <==> offset >= 0
    {
      OneNextMonday(from, NextRunAt(Weekly, from, offset));
      if offset >= 0 {
        NoDayAhead(from, offset);
      } else {
        BehindUtcIsTuesday(from, offset);
        NextWeekIsLeast(from, from);
      }
    }
    assert NextUtcMonday(0, NextRunAt(Weekly, 0, offset)) <==> offset >= 0;
  }

  lemma NoDayAhead(from: int, offset: int)
    requires 0 <= offset < DAY
    ensures NextRunAt(Weekly, from, offset) == NextRun(Weekly, from)
  {
    assert offset / DAY == 0;
    hide NextRun;
  }

  /** Behind UTC the weekly run always falls on a UTC Tuesday. */
  lemma BehindUtcIsTuesday(from: int, offset: int)
    requires -DAY < offset < 0
    ensures var next := NextRunAt(Weekly, from, offset);
            next % DAY == 0 && WeekdayOf(next / DAY) == Tuesday && !Boundary(Weekly, next)
  {
    assert offset / DAY == -1;
    var monday := NextMonday((from - DAY) / DAY + 1);
    NextMondayIsLeast((from - DAY) / DAY + 1, monday);
    DayBounds(from, monday + 1);
    assert NextRunAt(Weekly, from, offset) == (monday + 1) * DAY;
  }

  /** From the epoch, five hours behind UTC: Tuesday, 6 January 1970, not Monday the 5th. */
  lemma WesternWeek()
    ensures NextRunAt(Weekly, 0, -5 * HOUR) == 5 * DAY && NextRun(Weekly, 0) == 4 * DAY
    ensures !NextUtcMonday(0, NextRunAt(Weekly, 0, -5 * HOUR))
  {
    BehindUtcIsTuesday(0, -5 * HOUR);
  }

  lemma NextUnitIsLeast(t: int, b: int, unit: int)
    requires unit > 0
    ensures t < Truncate(t, unit) + unit && (Truncate(t, unit) + unit) % unit == 0
    ensures b % unit == 0 && t < b ==> Truncate(t, unit) + unit <= b
  {
    var q, k := t / unit, b / unit;
    UnitParts(t, unit);
    UnitParts(b, unit);
    UnitMultiple(q + 1, unit);
    assert (q + 1) * unit == q * unit + unit;
    UnitOrder(q, k, unit);
  }

  lemma UnitParts(t: int, unit: int)
    requires unit > 0
    ensures t == t / unit * unit + t % unit && 0 <= t % unit < unit
  {
  }

  lemma UnitOrder(q: int, k: int, unit: int)
    requires unit > 0
    ensures q < k ==> q * unit + unit <= k * unit
    ensures k <= q ==> k * unit <= q * unit
  {
    var n := k - q;
    assert k * unit == q * unit + n * unit;
    assert n >= 1 ==> n * unit >= unit;
    assert n <= 0 ==> n * unit <= 0;
  }

  lemma UnitMultiple(q: int, unit: int)
    requires unit > 0
    ensures q * unit % unit == 0
  {
    var t := q * unit;
    UnitParts(t, unit);
    UnitOrder(q, t / unit, unit);
    UnitOrder(t / unit, q, unit);
  }

  lemma NextWeekIsLeast(from: int, b: int)
    ensures from < NextRun(Weekly, from) && Boundary(Weekly, NextRun(Weekly, from))
    ensures Boundary(Weekly, b) && from < b ==> NextRun(Weekly, from) <= b
  {
    var first := from / DAY + 1;
    NextMondayIsLeast(first, b / DAY);
    DayBounds(from, NextMonday(first));
    DayBounds(from, b / DAY);
    DayBounds(b, NextMonday(first));
    hide NextMonday, WeekdayOf;
  }

  lemma NextMonthIsLeast(from: int, b: int)
    ensures from < NextRun(Monthly, from) && Boundary(Monthly, NextRun(Monthly, from))
    ensures Boundary(Monthly, b) && from < b ==> NextRun(Monthly, from) <= b
  {
    hide MonthStart, YearOf, MonthOf;
    var y, m := YearOf(from / DAY), MonthOf(from / DAY);
    MonthOfBrackets(from / DAY);
    var next := MonthStart(YearAfter(y, m), MonthAfter(m));
    DayBounds(from, next);
    if Boundary(Monthly, b) && from < b {
      var y2, m2 :| 1 <= m2 <= 12 && b == MonthStart(y2, m2) * DAY;
      DayBounds(from, MonthStart(y2, m2));
      if y2 < y || (y2 == y && m2 <= m) {
        if (y2, m2) != (y, m) {
          MonthsInOrder(y2, m2, y, m);
          MonthLength(y2, m2);
        }
        assert false;
      } else {
        MonthsInOrder(y, m, y2, m2);
      }
    }
  }

  lemma NextMondayIsLeast(day: int, b: int)
    ensures day <= NextMonday(day) <= day + 6 && WeekdayOf(NextMonday(day)) == Monday
    ensures WeekdayOf(b) == Monday && day <= b ==> NextMonday(day) <= b
  {
  }

  /** The week of 2026-08-15. */
  lemma KnownWeek()
    ensures WeekdayOf(20_680) == Saturday && WeekdayOf(20_681) == Sunday && WeekdayOf(20_682) == Monday
    ensures WeekdayOf(20_683) == Tuesday && WeekdayOf(20_684) == Wednesday && WeekdayOf(20_685) == Thursday
    ensures WeekdayOf(20_686) == Friday
  {
  }

  /** Runs in nanoseconds: from 2026-08-15 12:34:56 UTC, a Saturday, the next runs are at 13:00, on
      the 16th, on Monday the 17th and on the first of September. */
  lemma KnownRuns()
    ensures Sec(1_786_797_296_999_999_999) == 1_786_797_296
    ensures var t := 1_786_797_296_000_000_000;
            && NextRun(Hourly, t) == 1_786_798_800_000_000_000
            && NextRun(Daily, t) == 1_786_838_400_000_000_000
            && NextRun(Weekly, t) == 1_786_924_800_000_000_000
            && NextRun(Monthly, t) == 1_788_220_800_000_000_000
            && NextRun(Unknown("yearly"), t) == 1_786_883_696_000_000_000
  {
    var t := 1_786_797_296_000_000_000;
    KnownMonths();
    MonthStartsOnce(20_680, 2026, 8);
    hide MonthStart, YearOf, MonthOf, DaysInMonth;
    assert t / DAY == 20_680;
  }

  lemma KnownMonths()
    ensures MonthStart(2026, 8) == 20_666 && MonthStart(2026, 9) == 20_697
  {
    MonthLengthsByFormula(2026, 8);
    MonthLengthsByFormula(2026, 9);
    hide DaysBeforeMonth;
  }

  /** The month that holds a day is the one its year and month name. */
  lemma MonthStartsOnce(day: int, year: int, month: int)
    requires 1 <= month <= 12 && MonthStart(year, month) <= day < MonthStart(YearAfter(year, month), MonthAfter(month))
    ensures YearOf(day) == year && MonthOf(day) == month
  {
    MonthOfBrackets(day);
    var y, m := YearOf(day), MonthOf(day);
    hide MonthStart, YearOf, MonthOf;
    if y < year || (y == year && m < month) {
      MonthsInOrder(y, m, year, month);
    } else if (y, m) != (year, month) {
      MonthsInOrder(year, month, y, m);
    }
  }

  /** The next run moves forward with the instant, for every frequency. */
  lemma NextRunMonotone(f: Frequency, t1: int, t2: int)
    requires t1 <= t2
    ensures NextRun(f, t1) <= NextRun(f, t2)
    ensures t2 < NextRun(f, t2)
  {
    if !f.Unknown? {
      NextRunIsLeastBoundary(f, t2, 0);
      NextRunIsLeastBoundary(f, t1, NextRun(f, t2));
    }
  }

  /** Two instants have the same next run exactly when no boundary separates them. */
  lemma NextRunConstantWithinPeriod(f: Frequency, t1: int, t2: int)
    requires !f.Unknown? && t1 <= t2
    ensures NextRun(f, t1) == NextRun(f, t2) <==> forall b :: t1 < b <= t2 ==> !Boundary(f, b)
  {
    NextRunIsLeastBoundary(f, t1, NextRun(f, t2));
    NextRunIsLeastBoundary(f, t2, NextRun(f, t1));
    forall b | t1 < b <= t2 && Boundary(f, b)
      ensures NextRun(f, t1) <= b
    {
      NextRunIsLeastBoundary(f, t1, b);
    }
  }

  /** Next runs are whole seconds, and the second of an instant decides its next run. */
  lemma NextRunOfSecond(f: Frequency, t: int)
    ensures Sec(NextRun(f, Sec(t) * SECOND)) == Sec(NextRun(f, t))
    ensures NextRun(f, Sec(t) * SECOND) % SECOND == 0
  {
    var s := Sec(t) * SECOND;
    UnitParts(t, SECOND);
    UnitMultiple(Sec(t), SECOND);
    if f.Unknown? {
      UnitMultiple(Sec(t) + DAY / SECOND, SECOND);
    } else {
      hide NextRun, Boundary, Sec;
      var n1, n2 := NextRun(f, s), NextRun(f, t);
      NextRunIsLeastBoundary(f, s, n2);
      NextRunIsLeastBoundary(f, t, n1);
      BoundaryIsWholeSecond(f, n1);
      NextUnitIsLeast(s, n1, SECOND);
      assert n1 > t && n1 == n2;
    }
  }

  lemma BoundaryIsWholeSecond(f: Frequency, b: int)
    requires Boundary(f, b)
    ensures b % SECOND == 0
  {
    hide MonthStart, WeekdayOf;
    match f
    case Hourly => WholeHours(b / HOUR);
    case Daily => DayBounds(b, 0); WholeHours(24 * (b / DAY));
    case Weekly => DayBounds(b, 0); WholeHours(24 * (b / DAY));
    case Monthly =>
      var y, m :| 1 <= m <= 12 && b == MonthStart(y, m) * DAY;
      WholeHours(24 * MonthStart(y, m));
  }

  lemma WholeHours(hours: int)
    ensures hours * HOUR % SECOND == 0
  {
    WholeSeconds(3_600 * hours);
  }

  lemma WholeSeconds(seconds: int)
    ensures seconds * SECOND % SECOND == 0
  {
  }
}
