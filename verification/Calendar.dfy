/**
  Civil dates from day counts: the era arithmetic of `gmtime`, against the calendar itself, which is
  given by its first day and by what the next day of a date is.
 */
module Calendar {
  import opened Division

  datatype Date = Date(year: int, month: int, day: int)

  datatype Tm = Tm(year: int, month: int, day: int, hour: int, min: int, sec: int, wday: int, yday: int)

  /** Rust's integer division, which rounds toward zero. */
  function TruncDiv(a: int, b: int): int
    requires b > 0
  {
    if a >= 0 then a / b else -((-a) / b)
  }

  // ---- The proleptic Gregorian calendar ----------------------------------------------------------

  predicate Leap(year: int) {
    (year % 4 == 0 && year % 100 != 0) || year % 400 == 0
  }

  function MonthLength(year: int, month: int): int {
    if month == 2 then (if Leap(year) then 29 else 28)
    else if month == 4 || month == 6 || month == 9 || month == 11 then 30
    else 31
  }

  predicate ValidDate(date: Date) {
    1 <= date.month <= 12 && 1 <= date.day <= MonthLength(date.year, date.month)
  }

  function NextDay(date: Date): Date {
    if date.day < MonthLength(date.year, date.month) then date.(day := date.day + 1)
    else if date.month < 12 then Date(date.year, date.month + 1, 1)
    else Date(date.year + 1, 1, 1)
  }

  const EPOCH := Date(1970, 1, 1)

  // ---- The algorithm ---------------------------------------------------------------------------------

  function Era(z: int): int {
    TruncDiv(if z >= 0 then z else z - 146_096, 146_097)
  }

  function YearOfEra(doe: int): int {
    (doe - doe / 1460 + doe / 36524 - doe / 146_096) / 365
  }

  function DaysBefore(yoe: int): int {
    365 * yoe + yoe / 4 - yoe / 100
  }

  function MonthIndex(doy: int): int {
    (5 * doy + 2) / 153
  }

  function MonthStart(mp: int): int {
    (153 * mp + 2) / 5
  }

  /** The date `doy` days after 1 March of year `y`. */
  function FromMarch(y: int, doy: int): Date {
    var mp := MonthIndex(doy);
    var month := if mp < 10 then mp + 3 else mp - 9;
    Date(if month <= 2 then y + 1 else y, month, doy - MonthStart(mp) + 1)
  }

  /** `civil_from_days`; the same computation stands inside `gmtime`. */
  function CivilFromDays(days: int): Date {
    var z := days + 719_468;
    FromEra(Era(z), z - Era(z) * 146_097)
  }

  /** The date `doe` days into an era of 400 years. */
  function FromEra(era: int, doe: int): Date {
    var yoe := YearOfEra(doe);
    FromMarch(yoe + era * 400, doe - DaysBefore(yoe))
  }

  function CumulativeDays(month: int): int
    requires 1 <= month <= 12
  {
    [0, 31, 59, 90, 120, 151, 181, 212, 243, 273, 304, 334][month - 1]
  }

  function YearDay(date: Date): int
    requires 1 <= date.month <= 12
  {
    CumulativeDays(date.month) + (date.day - 1) + if Leap(date.year) && date.month > 2 then 1 else 0
  }

  function Gmtime(secs: int): Tm {
    var days := secs / 86_400;
    var rem := secs % 86_400;
    CivilIsValid(days);
    var date := CivilFromDays(days);
    Tm(date.year, date.month, date.day, rem / 3600, rem % 3600 / 60, rem % 60, (days % 7 + 4) % 7, YearDay(date))
  }

  // ---- Eras, years and months --------------------------------------------------------------------------

  /** Truncating division with the negative offset is floor division. */
  lemma EraIsFloor(z: int)
    ensures Era(z) == z / 146_097
    ensures 0 <= z - Era(z) * 146_097 < 146_097
  {
  }

  /** Length of the year that starts on 1 March of year `yoe` of an era. */
  function MarchYearLength(yoe: int): int {
    if Leap(yoe + 1) then 366 else 365
  }

  /** Century `c` of an era, four-year span `q` of it, year `k` of that: the year before the span when
      `k` is -1. */
  lemma YearStart(c: int, q: int, k: int)
    requires 0 <= c < 4 && 0 <= 4 * q + k < 100 && -1 <= k <= 3
    ensures DaysBefore(100 * c + 4 * q + k) == 36_524 * c + 1461 * q + 365 * k - (if k < 0 then 1 else 0)
    ensures Leap(100 * c + 4 * q + k + 1) <== (k == 3 || k == -1) && (4 * q + k < 99)
  {
    var yoe := 100 * c + 4 * q + k;
    assert yoe / 4 == 25 * c + q + (if k < 0 then -1 else 0);
    assert yoe / 100 == c;
    if (k == 3 || k == -1) && 4 * q + k < 99 {
      assert (yoe + 1) % 4 == 0 && (yoe + 1) % 100 == 4 * q + k + 1;
    }
  }

  /** The quotients of the formula: `u` days into the span, the span's own leap day taken off. */
  lemma YearQuotients(doe: int, c: int, q: int, t: int)
    requires 0 <= c < 4 && 0 <= t < 1460 && 0 <= 1460 * q + t - 24 * c < 36_524
    requires doe == 36_500 * c + 1460 * q + t
    ensures YearOfEra(doe) == 100 * c + 4 * q + (t - 24 * c - q) / 365
    ensures 0 <= q <= 25 && -97 <= t - 24 * c - q < 1460
    ensures q == 0 ==> t - 24 * c - q >= 0
    ensures q == 25 ==> t - 24 * c - q < -1
  {
    assert doe / 36_524 == c;
    assert doe / 1460 == 25 * c + q;
    assert doe / 146_096 == 0;
  }

  lemma LastDayOfEra()
    ensures YearOfEra(146_096) == 399 && 146_096 - DaysBefore(399) == 365 && Leap(400)
  {
  }

  lemma YearOfEraFits(doe: int)
    requires 0 <= doe < 146_097
    ensures 0 <= YearOfEra(doe) < 400
    ensures 0 <= doe - DaysBefore(YearOfEra(doe)) < MarchYearLength(YearOfEra(doe))
  {
    hide Leap, YearOfEra;
    if doe == 146_096 {
      LastDayOfEra();
    } else {
      var c := doe / 36_524;
      var s := doe - 36_500 * c;
      var q, t := s / 1460, s % 1460;
      YearQuotients(doe, c, q, t);
      var k := (t - 24 * c - q) / 365;
      YearStart(c, q, k);
    }
  }

  lemma MonthFits(doy: int)
    requires 0 <= doy < 366
    ensures 0 <= MonthIndex(doy) < 12
    ensures MonthStart(MonthIndex(doy)) <= doy < MonthStart(MonthIndex(doy) + 1)
  {
  }

  lemma MarchYearValid(y: int, doy: int)
    requires 0 <= doy < MarchYearLength(y)
    ensures ValidDate(FromMarch(y, doy))
    ensures NextDay(FromMarch(y, doy)) ==
      if doy + 1 < MarchYearLength(y) then FromMarch(y, doy + 1) else FromMarch(y + 1, 0)
  {
    MonthFits(doy);
    MonthLengths(MonthIndex(doy), y, doy - MonthStart(MonthIndex(doy)));
    var mp := MonthIndex(doy);
    if doy + 1 < MarchYearLength(y) {
      MonthUnique(doy + 1, if doy + 1 < MonthStart(mp + 1) then mp else mp + 1);
    } else {
      MonthUnique(doy, 11);
    }
  }

  lemma MonthUnique(doy: int, mp: int)
    requires 0 <= doy < 366 && 0 <= mp < 12 && MonthStart(mp) <= doy < MonthStart(mp + 1)
    ensures MonthIndex(doy) == mp
  {
  }

  /** The months from March on have the calendar's lengths; February ends with the year. */
  lemma MonthLengths(mp: int, y: int, day: int)
    requires 0 <= mp < 12
    ensures
      var month := if mp < 10 then mp + 3 else mp - 9;
      var year := if month <= 2 then y + 1 else y;
      if mp == 11 then MonthLength(year, month) == MarchYearLength(y) - MonthStart(11)
      else MonthLength(year, month) == MonthStart(mp + 1) - MonthStart(mp)
  {
  }

  /** A position within an era belongs to one year. */
  lemma YearUnique(doe: int, yoe: int)
    requires 0 <= doe < 146_097 && 0 <= yoe < 400
    requires 0 <= doe - DaysBefore(yoe) < MarchYearLength(yoe)
    ensures YearOfEra(doe) == yoe
  {
    YearOfEraFits(doe);
    YearsInOrder(yoe, YearOfEra(doe));
    YearsInOrder(YearOfEra(doe), yoe);
  }

  lemma YearsInOrder(a: int, b: int)
    requires 0 <= a < b < 400 || a >= b
    ensures a < b ==> DaysBefore(a) + MarchYearLength(a) <= DaysBefore(b)
  {
    NextYearStart(a);
  }

  lemma NextYearStart(a: int)
    ensures 0 <= a < 399 ==> DaysBefore(a + 1) == DaysBefore(a) + MarchYearLength(a)
    ensures a == 399 ==> DaysBefore(a) + MarchYearLength(a) == 146_097
  {
  }

  /** The position within the era advances by a day, and the next era starts where this one ends. */
  lemma EraStep(z: int)
    ensures var doe := z - Era(z) * 146_097;
      && 0 <= doe < 146_097
      && Era(z + 1) == (if doe + 1 < 146_097 then Era(z) else Era(z) + 1)
  {
    EraIsFloor(z);
    EraIsFloor(z + 1);
  }

  /** A day more within an era, or from the end of one era to the start of the next. */
  lemma FromEraSteps(era: int, doe: int)
    requires 0 <= doe < 146_097
    ensures ValidDate(FromEra(era, doe))
    ensures NextDay(FromEra(era, doe)) == if doe + 1 < 146_097 then FromEra(era, doe + 1) else FromEra(era + 1, 0)
  {
    hide FromMarch, NextDay, ValidDate, Leap, YearOfEra;
    YearOfEraFits(doe);
    YearOfEraSteps(doe);
    var yoe := YearOfEra(doe);
    LeapRepeats(yoe + 1, era);
    MarchYearValid(yoe + era * 400, doe - DaysBefore(yoe));
  }

  lemma YearOfEraSteps(doe: int)
    requires 0 <= doe < 146_097
    ensures var yoe := YearOfEra(doe);
      var doy := doe - DaysBefore(yoe);
      if doy + 1 < MarchYearLength(yoe) then doe + 1 < 146_097 && YearOfEra(doe + 1) == yoe
      else if doe + 1 < 146_097 then YearOfEra(doe + 1) == yoe + 1 && DaysBefore(yoe + 1) == doe + 1
      else yoe == 399
    ensures YearOfEra(0) == 0
  {
    YearOfEraFits(doe);
    var yoe := YearOfEra(doe);
    NextYearStart(yoe);
    if doe + 1 < 146_097 {
      YearUnique(doe + 1, if doe + 1 - DaysBefore(yoe) < MarchYearLength(yoe) then yoe else yoe + 1);
    } else {
      YearUnique(doe, 399);
    }
  }

  lemma LeapRepeats(year: int, eras: int)
    ensures Leap(year + eras * 400) == Leap(year)
  {
    QuotientIsUnique(year + eras * 400, 4, year / 4 + 100 * eras, year % 4);
    QuotientIsUnique(year + eras * 400, 100, year / 100 + 4 * eras, year % 100);
    QuotientIsUnique(year + eras * 400, 400, year / 400 + eras, year % 400);
  }

  lemma CivilIsValid(days: int)
    ensures ValidDate(CivilFromDays(days))
  {
    EraStep(days + 719_468);
    FromEraSteps(Era(days + 719_468), days + 719_468 - Era(days + 719_468) * 146_097);
  }

  // ---- The main results ------------------------------------------------------------------------------

  /** Day zero is the epoch, and the day after day `n` is the calendar's next day: no day is skipped,
      repeated or misnamed, before the epoch or after it. */
  lemma CivilIsTheCalendar(days: int)
    ensures CivilFromDays(0) == EPOCH
    ensures ValidDate(CivilFromDays(days))
    ensures CivilFromDays(days + 1) == NextDay(CivilFromDays(days))
  {
    hide FromEra, Era, NextDay, ValidDate;
    var z := days + 719_468;
    EraStep(z);
    FromEraSteps(Era(z), z - Era(z) * 146_097);
    EpochIsDayZero();
  }

  lemma EpochIsDayZero()
    ensures CivilFromDays(0) == EPOCH
  {
  }

  /** The days from the epoch to a date, counted by years, leap years and the day of the year. */
  function DayCount(date: Date): int
    requires 1 <= date.month <= 12
  {
    var y := date.year - 1;
    365 * y + y / 4 - y / 100 + y / 400 + YearDay(date) - 719_162
  }

  lemma DayCountNext(date: Date)
    requires ValidDate(date)
    ensures ValidDate(NextDay(date))
    ensures DayCount(NextDay(date)) == DayCount(date) + 1
    ensures YearDay(NextDay(date)) == if NextDay(date).year == date.year then YearDay(date) + 1 else 0
  {
    hide Leap;
    LeapDays(date.year);
    assert YearDay(NextDay(date)) == if NextDay(date).year == date.year then YearDay(date) + 1 else 0;
  }

  lemma LeapDays(year: int)
    ensures year / 4 - year / 100 + year / 400
         == (year - 1) / 4 - (year - 1) / 100 + (year - 1) / 400 + if Leap(year) then 1 else 0
  {
    QuotientStep(year, 4);
    QuotientStep(year, 100);
    QuotientStep(year, 400);
    assert year % 400 == 0 ==> year % 100 == 0;
    assert year % 100 == 0 ==> year % 4 == 0;
  }

  lemma QuotientStep(year: int, m: int)
    requires m > 1
    ensures year / m == (year - 1) / m + if year % m == 0 then 1 else 0
  {
    if year % m == 0 {
      QuotientIsUnique(year - 1, m, year / m - 1, m - 1);
    } else {
      QuotientIsUnique(year - 1, m, year / m, year % m - 1);
    }
  }

  ghost predicate FollowsCalendar(civil: int -> Date, n: int) {
    ValidDate(civil(n)) && civil(n + 1) == NextDay(civil(n))
  }

  /** Any numbering of days that follows the calendar from the epoch is the day count. */
  lemma {:induction false} NumberingIsDayCount(civil: int -> Date, days: int)
    requires civil(0) == EPOCH && forall n :: FollowsCalendar(civil, n)
    ensures ValidDate(civil(days)) && DayCount(civil(days)) == days
    decreases if days < 0 then -days else days
  {
    assert FollowsCalendar(civil, days);
    if days > 0 {
      NumberingIsDayCount(civil, days - 1);
      assert FollowsCalendar(civil, days - 1);
      DayCountNext(civil(days - 1));
    } else if days < 0 {
      NumberingIsDayCount(civil, days + 1);
      DayCountNext(civil(days));
    }
  }

  lemma DayCountInverts(days: int)
    ensures ValidDate(CivilFromDays(days)) && DayCount(CivilFromDays(days)) == days
  {
    hide CivilFromDays;
    forall n ensures FollowsCalendar(CivilFromDays, n) {
      CivilIsTheCalendar(n);
    }
    CivilIsTheCalendar(days);
    NumberingIsDayCount(CivilFromDays, days);
  }

  lemma YearDayFits(date: Date)
    requires ValidDate(date)
    ensures 0 <= YearDay(date) < if Leap(date.year) then 366 else 365
  {
  }

  lemma {:induction false} YearStartsInOrder(a: int, b: int)
    requires a < b
    ensures 365 * a + a / 4 - a / 100 + a / 400 <= 365 * b + b / 4 - b / 100 + b / 400 - 365
    decreases b - a
  {
    LeapDays(b);
    if a < b - 1 {
      YearStartsInOrder(a, b - 1);
    }
  }

  /** Two dates of one year with the same day of the year are the same date. */
  lemma YearDayInjective(a: Date, b: Date)
    requires ValidDate(a) && ValidDate(b) && a.year == b.year && YearDay(a) == YearDay(b)
    ensures a == b
  {
  }

  /** Every valid date has a day: together with `DayCountInverts`, dates and days correspond one to one. */
  lemma CivilOfDayCount(date: Date)
    requires ValidDate(date)
    ensures CivilFromDays(DayCount(date)) == date
  {
    var other := CivilFromDays(DayCount(date));
    DayCountInverts(DayCount(date));
    SameDaySameYear(date, other);
    SameDaySameYear(other, date);
    YearDayInjective(date, other);
  }

  lemma SameDaySameYear(a: Date, b: Date)
    requires ValidDate(a) && ValidDate(b) && DayCount(a) == DayCount(b)
    ensures a.year >= b.year
  {
    YearDayFits(a);
    YearDayFits(b);
    LeapDays(a.year);
    if a.year < b.year - 1 {
      YearStartsInOrder(a.year, b.year - 1);
    }
  }

  /** `gmtime` on every second count: a valid date, whose day count, weekday and day of the year are those
      of the day the second falls in, and a time of day that makes up the rest. */
  lemma GmtimeIsExact(secs: int)
    ensures var tm := Gmtime(secs);
      var date := Date(tm.year, tm.month, tm.day);
      && ValidDate(date)
      && 0 <= tm.hour < 24 && 0 <= tm.min < 60 && 0 <= tm.sec < 60
      && secs == 86_400 * DayCount(date) + 3600 * tm.hour + 60 * tm.min + tm.sec
      && tm.yday == DayCount(date) - DayCount(Date(tm.year, 1, 1))
      && 0 <= tm.wday < 7 && (DayCount(date) - (tm.wday - 4)) % 7 == 0
  {
    hide CivilFromDays, DayCount, YearDay;
    var days, rem := secs / 86_400, secs % 86_400;
    CivilIsValid(days);
    DayCountInverts(days);
    YearDayCounts(CivilFromDays(days));
    Weekdays(days);
    assert rem == 3600 * (rem / 3600) + 60 * (rem % 3600 / 60) + rem % 60;
  }

  lemma YearDayCounts(date: Date)
    requires ValidDate(date)
    ensures YearDay(date) == DayCount(date) - DayCount(Date(date.year, 1, 1))
  {
  }

  lemma Weekdays(days: int)
    ensures var wday := (days % 7 + 4) % 7; 0 <= wday < 7 && (days - (wday - 4)) % 7 == 0
  {
  }
}
