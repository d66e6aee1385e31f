/** Dates from day numbers: the arithmetic of `civil_from_days` is the proleptic Gregorian calendar. */
module Calendar {

  datatype Date = Date(year: int, month: int, day: int)

  /** Division that rounds toward zero, as on `i64`. */
  function TruncDiv(a: int, b: int): int
    requires b > 0
  {
    if a >= 0 then a / b else -((-a) / b)
  }

  // ---------------------------------------------------------------- the implementation

  function Era(z: int): int {
    TruncDiv(if z >= 0 then z else z - 146_096, 146_097)
  }

  function YearOfEra(doe: int): int {
    TruncDiv(doe - TruncDiv(doe, 1460) + TruncDiv(doe, 36_524) - TruncDiv(doe, 146_096), 365)
  }

  /** The date, from the year and day within the era. */
  function Assembled(era: int, doe: int, yoe: int): Date {
    var y := yoe + era * 400;
    var doy := doe - (365 * yoe + TruncDiv(yoe, 4) - TruncDiv(yoe, 100));
    var mp := TruncDiv(5 * doy + 2, 153);
    var d := doy - TruncDiv(153 * mp + 2, 5) + 1;
    var m := if mp < 10 then mp + 3 else mp - 9;
    Date(if m <= 2 then y + 1 else y, m, d)
  }

  function CivilFromDays(days: int): Date {
    var z := days + 719_468;
    var era := Era(z);
    var doe := z - era * 146_097;
    Assembled(era, doe, YearOfEra(doe))
  }

  // ---------------------------------------------------------------- the calendar

  predicate Leap(y: int) {
    y % 4 == 0 && (y % 100 != 0 || y % 400 == 0)
  }

  function DaysInMonth(y: int, m: int): int {
    if m == 2 then (if Leap(y) then 29 else 28)
    else if m == 4 || m == 6 || m == 9 || m == 11 then 30
    else 31
  }

  predicate ValidDate(date: Date) {
    1 <= date.month <= 12 && 1 <= date.day <= DaysInMonth(date.year, date.month)
  }

  function NextDay(date: Date): Date {
    if date.day < DaysInMonth(date.year, date.month) then date.(day := date.day + 1)
    else if date.month < 12 then Date(date.year, date.month + 1, 1)
    else Date(date.year + 1, 1, 1)
  }

  /** Days from 0001-01-01 to the first of January of `y`. */
  function DaysBeforeYear(y: int): int {
    365 * (y - 1) + (y - 1) / 4 - (y - 1) / 100 + (y - 1) / 400
  }

  function DaysBeforeMonth(y: int, m: int): int
    decreases m
  {
    if m <= 1 then 0 else DaysBeforeMonth(y, m - 1) + DaysInMonth(y, m - 1)
  }

  /** Days from 1970-01-01, counted year by year and month by month. */
  function DayCount(date: Date): int {
    DaysBeforeYear(date.year) + DaysBeforeMonth(date.year, date.month) + date.day - 1 - 719_162
  }

  // ---------------------------------------------------------------- the count orders dates

  lemma Fours(y: int)
    ensures y / 4 == (y - 1) / 4 + if y % 4 == 0 then 1 else 0
  {
  }

  lemma Hundreds(y: int)
    ensures y / 100 == (y - 1) / 100 + if y % 100 == 0 then 1 else 0
  {
  }

  lemma FourHundreds(y: int)
    ensures y / 400 == (y - 1) / 400 + if y % 400 == 0 then 1 else 0
    ensures y % 400 == 0 ==> y % 100 == 0
    ensures y % 100 == 0 ==> y % 4 == 0
  {
  }

  lemma YearLength(y: int)
    ensures DaysBeforeYear(y + 1) == DaysBeforeYear(y) + if Leap(y) then 366 else 365
  {
    Fours(y);
    Hundreds(y);
    FourHundreds(y);
  }

  lemma MonthStarts(y: int)
    ensures var l := if Leap(y) then 1 else 0;
      && DaysBeforeMonth(y, 1) == 0 && DaysBeforeMonth(y, 2) == 31 && DaysBeforeMonth(y, 3) == 59 + l
      && DaysBeforeMonth(y, 4) == 90 + l && DaysBeforeMonth(y, 5) == 120 + l && DaysBeforeMonth(y, 6) == 151 + l
      && DaysBeforeMonth(y, 7) == 181 + l && DaysBeforeMonth(y, 8) == 212 + l && DaysBeforeMonth(y, 9) == 243 + l
      && DaysBeforeMonth(y, 10) == 273 + l && DaysBeforeMonth(y, 11) == 304 + l && DaysBeforeMonth(y, 12) == 334 + l
  {
    assert DaysBeforeMonth(y, 3) == DaysBeforeMonth(y, 2) + DaysInMonth(y, 2);
    assert DaysBeforeMonth(y, 5) == DaysBeforeMonth(y, 4) + DaysInMonth(y, 4);
    assert DaysBeforeMonth(y, 7) == DaysBeforeMonth(y, 6) + DaysInMonth(y, 6);
    assert DaysBeforeMonth(y, 9) == DaysBeforeMonth(y, 8) + DaysInMonth(y, 8);
    assert DaysBeforeMonth(y, 11) == DaysBeforeMonth(y, 10) + DaysInMonth(y, 10);
  }

  /** Consecutive dates have consecutive counts. */
  lemma NextDayCounts(date: Date)
    requires ValidDate(date)
    ensures ValidDate(NextDay(date)) && DayCount(NextDay(date)) == DayCount(date) + 1
  {
    if date.day == DaysInMonth(date.year, date.month) && date.month == 12 {
      MonthStarts(date.year);
      YearLength(date.year);
    }
  }

  lemma {:induction false} YearsGrow(y: int, z: int)
    requires y <= z
    ensures DaysBeforeYear(y) + 365 * (z - y) <= DaysBeforeYear(z)
    decreases z - y
  {
    if y < z {
      YearsGrow(y, z - 1);
      YearLength(z - 1);
    }
  }

  lemma {:induction false} MonthsGrow(y: int, m: int, n: int)
    requires 1 <= m < n
    ensures DaysBeforeMonth(y, m) + DaysInMonth(y, m) <= DaysBeforeMonth(y, n)
    decreases n
  {
    if m < n - 1 {
      MonthsGrow(y, m, n - 1);
    }
  }

  predicate Before(a: Date, b: Date) {
    a.year < b.year || (a.year == b.year && (a.month < b.month || (a.month == b.month && a.day < b.day)))
  }

  /** The day of the year is below the year's length. */
  lemma DayOfYearBound(date: Date)
    requires ValidDate(date)
    ensures 0 <= DaysBeforeMonth(date.year, date.month) + date.day - 1 < if Leap(date.year) then 366 else 365
  {
    MonthStarts(date.year);
  }

  lemma CountIsMonotone(a: Date, b: Date)
    requires ValidDate(a) && ValidDate(b) && Before(a, b)
    ensures DayCount(a) < DayCount(b)
  {
    if a.year < b.year {
      DayOfYearBound(a);
      DayOfYearBound(b);
      YearLength(a.year);
      YearsGrow(a.year + 1, b.year);
    } else if a.month < b.month {
      MonthsGrow(a.year, a.month, b.month);
    }
  }

  /** No two dates have the same count. */
  lemma CountIsInjective(a: Date, b: Date)
    requires ValidDate(a) && ValidDate(b) && DayCount(a) == DayCount(b)
    ensures a == b
  {
    if Before(a, b) {
      CountIsMonotone(a, b);
    } else if Before(b, a) {
      CountIsMonotone(b, a);
    }
  }

  // ---------------------------------------------------------------- the implementation, taken apart

  /**
    A day within a 400-year era that starts in March, as centuries, four-year cycles, years and
    days. Only the last day of a leap year has `u == 365`.
  */
  ghost predicate Parts(doe: int, c: int, q: int, t: int, u: int) {
    && 0 <= c <= 3 && 0 <= q <= 24 && 0 <= t <= 3 && 0 <= u <= 365
    && doe == 36_524 * c + 1461 * q + 365 * t + u
    && (u == 365 ==> t == 3 && (q < 24 || c == 3))
  }

  lemma EraIs(z: int)
    ensures Era(z) == z / 146_097
  {
  }

  lemma TakeApart(doe: int) returns (c: int, q: int, t: int, u: int)
    requires 0 <= doe < 146_097
    ensures Parts(doe, c, q, t, u)
  {
    c := if doe / 36_524 > 3 then 3 else doe / 36_524;
    var r := doe - 36_524 * c;
    q := r / 1461;
    var s := r - 1461 * q;
    t := if s / 365 > 3 then 3 else s / 365;
    u := s - 365 * t;
  }

  /** The year formula counts the years that have gone by. */
  lemma YearOfEraIs(doe: int, c: int, q: int, t: int, u: int)
    requires Parts(doe, c, q, t, u)
    ensures YearOfEra(doe) == 100 * c + 4 * q + t
  {
    var e := if 24 * c + q + 365 * t + u >= 1460 then 1 else 0;
    assert doe / 1460 == 25 * c + q + e;
    if doe == 146_096 {
      assert c == 3 && q == 24 && t == 3 && u == 365;
    } else {
      assert doe / 36_524 == c && doe / 146_096 == 0;
    }
  }

  lemma YearStartIs(c: int, q: int, t: int)
    requires 0 <= c <= 3 && 0 <= q <= 24 && 0 <= t <= 3
    ensures var yoe := 100 * c + 4 * q + t; 365 * yoe + yoe / 4 - yoe / 100 == 36_524 * c + 1461 * q + 365 * t
  {
    var yoe := 100 * c + 4 * q + t;
    assert yoe / 4 == 25 * c + q && yoe / 100 == c;
  }

  /** The month and day of day `u` of a year that starts in March; months are numbered from March as 0. */
  function MonthOf(u: int): int
  {
    (5 * u + 2) / 153
  }

  function MonthStart(mp: int): int {
    (153 * mp + 2) / 5
  }

  /** The date of day `u` of the year that starts in March of year `y`. */
  function MarchDate(y: int, u: int): Date {
    var mp := MonthOf(u);
    var m := if mp < 10 then mp + 3 else mp - 9;
    Date(if m <= 2 then y + 1 else y, m, u - MonthStart(mp) + 1)
  }

  lemma AssembledIs(era: int, doe: int, c: int, q: int, t: int, u: int)
    requires Parts(doe, c, q, t, u)
    ensures Assembled(era, doe, 100 * c + 4 * q + t) == MarchDate(400 * era + 100 * c + 4 * q + t, u)
  {
    YearStartIs(c, q, t);
  }

  lemma CivilIsAssembled(days: int)
    ensures var z := days + 719_468; CivilFromDays(days) == Assembled(z / 146_097, z % 146_097, YearOfEra(z % 146_097))
  {
    EraIs(days + 719_468);
  }

  lemma CivilOf(days: int, era: int, c: int, q: int, t: int, u: int)
    requires era == (days + 719_468) / 146_097 && Parts((days + 719_468) % 146_097, c, q, t, u)
    ensures CivilFromDays(days) == MarchDate(400 * era + 100 * c + 4 * q + t, u)
  {
    var doe := (days + 719_468) % 146_097;
    CivilIsAssembled(days);
    YearOfEraIs(doe, c, q, t, u);
    AssembledIs(era, doe, c, q, t, u);
  }

  lemma LeapYearEnds(e: int, c: int, q: int, t: int)
    requires 0 <= c <= 3 && 0 <= q <= 24 && t == 3 && (q < 24 || c == 3)
    ensures Leap(400 * e + 100 * c + 4 * q + t + 1)
  {
    var y := 400 * e + 100 * c + 4 * q + t + 1;
    assert y == 4 * (100 * e + 25 * c + q + 1);
    if q < 24 {
      assert y % 100 == 4 * (q + 1);
    } else {
      assert y == 400 * (e + 1);
    }
  }

  lemma MarchDateIsValid(y: int, u: int)
    requires 0 <= u <= 365 && (u == 365 ==> Leap(y + 1))
    ensures ValidDate(MarchDate(y, u))
  {
    var mp := MonthOf(u);
    assert 0 <= mp <= 11;
    assert MonthStart(mp) <= u < MonthStart(mp + 1);
  }

  /** Counting from March: the first of March of `y` is 306 days before the next January. */
  lemma MarchDateCount(y: int, u: int)
    requires 0 <= u <= 365
    ensures DayCount(MarchDate(y, u)) == DaysBeforeYear(y + 1) - 306 + u - 719_162
  {
    var mp := MonthOf(u);
    assert 0 <= mp <= 11;
    MonthStarts(y);
    MonthStarts(y + 1);
    YearLength(y);
  }

  lemma YearsBefore(e: int, c: int, q: int, t: int)
    requires 0 <= c <= 3 && 0 <= q <= 24 && 0 <= t <= 3
    ensures DaysBeforeYear(400 * e + 100 * c + 4 * q + t + 1) == 146_097 * e + 36_524 * c + 1461 * q + 365 * t
  {
    var y := 400 * e + 100 * c + 4 * q + t;
    assert y / 4 == 100 * e + 25 * c + q;
    assert y / 100 == 4 * e + c;
    assert y / 400 == e;
  }

  lemma PartsCount(e: int, doe: int, c: int, q: int, t: int, u: int)
    requires Parts(doe, c, q, t, u)
    ensures var date := MarchDate(400 * e + 100 * c + 4 * q + t, u);
      ValidDate(date) && DayCount(date) == 146_097 * e + doe - 719_468
  {
    var y := 400 * e + 100 * c + 4 * q + t;
    if u == 365 {
      LeapYearEnds(e, c, q, t);
    }
    MarchDateIsValid(y, u);
    MarchDateCount(y, u);
    YearsBefore(e, c, q, t);
  }

  // ---------------------------------------------------------------- the theorems

  /** Every day number gives a date of the calendar, and counting to that date gives the day number back. */
  lemma CivilIsInverse(days: int)
    ensures ValidDate(CivilFromDays(days)) && DayCount(CivilFromDays(days)) == days
  {
    var e, doe := (days + 719_468) / 146_097, (days + 719_468) % 146_097;
    var c, q, t, u := TakeApart(doe);
    CivilOf(days, e, c, q, t, u);
    PartsCount(e, doe, c, q, t, u);
  }

  /** Every date of the calendar is the date of its day count. */
  lemma CivilIsOnto(date: Date)
    requires ValidDate(date)
    ensures CivilFromDays(DayCount(date)) == date
  {
    CivilIsInverse(DayCount(date));
    CountIsInjective(CivilFromDays(DayCount(date)), date);
  }

  /** Day zero is 1970-01-01. */
  lemma Epoch()
    ensures CivilFromDays(0) == Date(1970, 1, 1)
  {
    assert Era(719_468) == 4 && YearOfEra(135_080) == 369;
    assert Assembled(4, 135_080, 369) == Date(1970, 1, 1);
  }

  lemma CountedNext(a: Date, b: Date)
    requires ValidDate(a) && ValidDate(b) && DayCount(b) == DayCount(a) + 1
    ensures b == NextDay(a)
  {
    NextDayCounts(a);
    CountIsInjective(b, NextDay(a));
  }

  /** Each day number is followed by the next date. */
  lemma CivilFollowsCalendar(days: int, next: int)
    requires next == days + 1
    ensures CivilFromDays(next) == NextDay(CivilFromDays(days))
  {
    CivilIsInverse(days);
    CivilIsInverse(next);
    CountedNext(CivilFromDays(days), CivilFromDays(next));
  }

  lemma CivilIsInjective(a: int, b: int)
    ensures CivilFromDays(a) == CivilFromDays(b) <==> a == b
  {
    CivilIsInverse(a);
    CivilIsInverse(b);
  }

  // ---------------------------------------------------------------- EXTRACT

  const MICROS_PER_DAY: int := 86_400_000_000
  const DAYS_LIKE_THRESHOLD: int := 1_000_000_000_000
  const I64_MAX: int := 0x7FFF_FFFF_FFFF_FFFF

  /** The 64-bit product, held at the ends of the range. */
  function SaturatingMul(a: int, b: int): int {
    var p := a * b;
    if p > I64_MAX then I64_MAX else if p < -I64_MAX - 1 then -I64_MAX - 1 else p
  }

  /** A small value is a day number, a large one microseconds. */
  function Micros(value: int): int {
    if -DAYS_LIKE_THRESHOLD < value < DAYS_LIKE_THRESHOLD then SaturatingMul(value, MICROS_PER_DAY) else value
  }

  function ExtractedDay(value: int): int {
    TruncDiv(Micros(value), MICROS_PER_DAY)
  }

  /** The date whose year, month and day EXTRACT returns. */
  function ExtractedDate(value: int): Date {
    CivilFromDays(ExtractedDay(value))
  }

  lemma DayScaling(value: int)
    requires -DAYS_LIKE_THRESHOLD < value < DAYS_LIKE_THRESHOLD
    ensures ExtractedDay(value) ==
      if value > 106_751_991 then 106_751_991 else if value < -106_751_991 then -106_751_991 else value
  {
  }

  /** A day number keeps its date through the microsecond scaling exactly up to 106,751,991 days either way. */
  lemma ExtractFromDays(value: int)
    requires -DAYS_LIKE_THRESHOLD < value < DAYS_LIKE_THRESHOLD
    ensures ExtractedDate(value) == CivilFromDays(value) <==> -106_751_991 <= value <= 106_751_991
  {
    DayScaling(value);
    CivilIsInjective(ExtractedDay(value), value);
  }

  lemma TruncatedDay(value: int)
    requires value <= -DAYS_LIKE_THRESHOLD || DAYS_LIKE_THRESHOLD <= value
    ensures var day := value / MICROS_PER_DAY;
      ExtractedDay(value) == if value >= 0 || value % MICROS_PER_DAY == 0 then day else day + 1
  {
  }

  /** A timestamp keeps the date of its day exactly when it is not negative or falls on midnight. */
  lemma ExtractFromMicros(value: int)
    requires value <= -DAYS_LIKE_THRESHOLD || DAYS_LIKE_THRESHOLD <= value
    ensures ExtractedDate(value) == CivilFromDays(value / MICROS_PER_DAY) <==> value >= 0 || value % MICROS_PER_DAY == 0
  {
    TruncatedDay(value);
    CivilIsInjective(ExtractedDay(value), value / MICROS_PER_DAY);
  }

  /** The other timestamps are given the date of the following day. */
  lemma ExtractIsLate(value: int)
    requires value <= -DAYS_LIKE_THRESHOLD && value % MICROS_PER_DAY != 0
    ensures ExtractedDate(value) == NextDay(CivilFromDays(value / MICROS_PER_DAY))
  {
    TruncatedDay(value);
    CivilFollowsCalendar(value / MICROS_PER_DAY, ExtractedDay(value));
  }

  // ---------------------------------------------------------------- the clock

  datatype Field = Year | Month | Day | Hour | Minute | Second

  /** The remainder that goes with `TruncDiv`: it has the sign of the dividend. */
  function TruncMod(a: int, b: int): int
    requires b > 0
  {
    a - b * TruncDiv(a, b)
  }

  const MICROS_PER_SECOND: int := 1_000_000

  /** EXTRACT; the second is counted from the epoch, not from the minute. */
  function Extract(field: Field, value: int): int {
    var micros := Micros(value);
    var seconds := TruncDiv(micros, MICROS_PER_SECOND);
    match field
    case Year => ExtractedDate(value).year
    case Month => ExtractedDate(value).month
    case Day => ExtractedDate(value).day
    case Hour => TruncMod(TruncDiv(seconds, 3600), 24)
    case Minute => TruncMod(TruncDiv(seconds, 60), 60)
    case Second => seconds
  }

  /** The year, month and day EXTRACT returns are those of the one date that many days after the epoch. */
  lemma ExtractedParts(value: int)
    ensures var date := Date(Extract(Year, value), Extract(Month, value), Extract(Day, value));
      ValidDate(date) && DayCount(date) == ExtractedDay(value)
  {
    CivilIsInverse(ExtractedDay(value));
  }

  lemma DayOfSeconds(micros: nat)
    ensures micros / MICROS_PER_DAY == micros / MICROS_PER_SECOND / 86_400
  {
  }

  lemma SecondsSplit(s: nat)
    ensures TruncMod(TruncDiv(s, 3600), 24) == s / 3600 - 24 * (s / 86_400)
    ensures TruncMod(TruncDiv(s, 60), 60) == s / 60 - 60 * (s / 3600)
  {
    assert s / 3600 / 24 == s / 86_400;
    assert s / 60 / 60 == s / 3600;
  }

  /**
    The clock of a point in time from the epoch on: hours and minutes are within the day, and with
    the days and the odd seconds they make up the seconds since the epoch.
  */
  lemma ClockAddsUp(value: int)
    requires value >= 0
    ensures 0 <= Extract(Hour, value) < 24 && 0 <= Extract(Minute, value) < 60
    ensures Extract(Second, value) ==
            86_400 * ExtractedDay(value) + 3600 * Extract(Hour, value) + 60 * Extract(Minute, value) + Extract(Second, value) % 60
    ensures MICROS_PER_SECOND * Extract(Second, value) <= Micros(value) < MICROS_PER_SECOND * (Extract(Second, value) + 1)
  {
    DayOfSeconds(Micros(value));
    SecondsSplit(Extract(Second, value));
  }

  /** Saturation at the two ends of the range falls into the same second. */
  lemma SecondsNegated(value: int)
    requires -I64_MAX <= value < 0
    ensures TruncDiv(Micros(value), MICROS_PER_SECOND) == -TruncDiv(Micros(-value), MICROS_PER_SECOND)
  {
  }

  lemma Negated(a: int, b: int)
    requires a >= 0 && b > 0
    ensures TruncDiv(-a, b) == -TruncDiv(a, b) && TruncMod(-a, b) == -TruncMod(a, b)
  {
  }

  /** Before the epoch the same parts come out negated: hours and minutes are never positive there. */
  lemma ClockBeforeEpoch(value: int)
    requires -I64_MAX <= value < 0
    ensures Extract(Hour, value) == -Extract(Hour, -value) && Extract(Minute, value) == -Extract(Minute, -value)
    ensures Extract(Second, value) == -Extract(Second, -value)
  {
    SecondsNegated(value);
    var seconds := TruncDiv(Micros(-value), MICROS_PER_SECOND);
    Negated(seconds, 3600);
    Negated(seconds, 60);
    Negated(TruncDiv(seconds, 3600), 24);
    Negated(TruncDiv(seconds, 60), 60);
  }
}
