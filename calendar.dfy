/**
 * Calendar arithmetic of the bot: proleptic Gregorian dates as Python's
 * `datetime` sees them, the whole-day differences `(a - b).days`, integer
 * ages, the birthday-greeting test and the days left to the next birthday.
 *
 * `datetime.today()` is an explicit `Moment`: today's date and the time of
 * day in microseconds after midnight. Stored birth dates are midnights.
 */
module Calendar {

  datatype Date = Date(year: int, month: int, day: int)

  /** An instant: a date and the microseconds elapsed since its midnight. */
  datatype Moment = Moment(date: Date, micros: int)

  const MicrosPerDay: int := 86_400_000_000

  /** The Gregorian leap rule (bot.py line 251 and Python's `calendar.isleap`). */
  predicate IsLeap(y: int) {
    y % 4 == 0 && (y % 100 != 0 || y % 400 == 0)
  }

  function DaysInMonth(y: int, m: int): (n: int)
    requires 1 <= m <= 12
    ensures 28 <= n <= 31
    ensures n == 29 <==> m == 2 && IsLeap(y)
  {
    if m == 2 then (if IsLeap(y) then 29 else 28)
    else if m == 4 || m == 6 || m == 9 || m == 11 then 30
    else 31
  }

  /** A date `datetime(year, month, day)` accepts (the upper year bound 9999 is not modelled). */
  predicate ValidDate(d: Date) {
    1 <= d.year && 1 <= d.month <= 12 && 1 <= d.day <= DaysInMonth(d.year, d.month)
  }

  predicate ValidMoment(t: Moment) {
    ValidDate(t.date) && 0 <= t.micros < MicrosPerDay
  }

  function Midnight(d: Date): Moment {
    Moment(d, 0)
  }

  function DaysInYear(y: int): int {
    if IsLeap(y) then 366 else 365
  }

  /** Days of year `y` before the first of month `m`. */
  function DaysBeforeMonth(y: int, m: int): int
    requires 1 <= m <= 12
  {
    var common :=
      if m == 1 then 0 else if m == 2 then 31 else if m == 3 then 59
      else if m == 4 then 90 else if m == 5 then 120 else if m == 6 then 151
      else if m == 7 then 181 else if m == 8 then 212 else if m == 9 then 243
      else if m == 10 then 273 else if m == 11 then 304 else 334;
    common + (if m > 2 && IsLeap(y) then 1 else 0)
  }

  /** Days before January 1 of year `y`, counted from January 1 of year 1. */
  function DaysBeforeYear(y: int): int
    requires 1 <= y
  {
    var p := y - 1;
    p * 365 + p / 4 - p / 100 + p / 400
  }

  /** Day number with 0001-01-01 as day 1 (Python's `date.toordinal`). */
  function Ordinal(d: Date): int
    requires ValidDate(d)
  {
    DaysBeforeYear(d.year) + DaysBeforeMonth(d.year, d.month) + d.day
  }

  /** Monday is 0 and Sunday is 6 (Python's `date.weekday`). */
  function Weekday(d: Date): (w: int)
    requires ValidDate(d)
    ensures 0 <= w < 7
  {
    (Ordinal(d) + 6) % 7
  }

  /** 1 January 2024 was a Monday and 7 January 2024 a Sunday. */
  lemma WeekdayAnchors()
    ensures Weekday(Date(2024, 1, 1)) == 0 && Weekday(Date(2024, 1, 7)) == 6
  {
  }

  /** Lexicographic order of (year, month, day), which is how `datetime` compares dates. */
  predicate Before(a: Date, b: Date) {
    a.year < b.year || (a.year == b.year && (a.month < b.month || (a.month == b.month && a.day < b.day)))
  }

  /** Order of instants: by date, then by time of day. */
  predicate MomentBefore(a: Moment, b: Moment) {
    Before(a.date, b.date) || (a.date == b.date && a.micros < b.micros)
  }

  // ---------------------------------------------------------------------
  // Facts about day numbers

  lemma DayOfYearBounds(d: Date)
    requires ValidDate(d)
    ensures 1 <= DaysBeforeMonth(d.year, d.month) + d.day <= DaysInYear(d.year)
  {
  }

  lemma MonthOrder(y: int, m1: int, m2: int)
    requires 1 <= m1 < m2 <= 12
    ensures DaysBeforeMonth(y, m1) + DaysInMonth(y, m1) <= DaysBeforeMonth(y, m2)
  {
  }

  lemma DivStep(p: int)
    requires 0 <= p
    ensures (p + 1) / 4 == p / 4 + (if (p + 1) % 4 == 0 then 1 else 0)
    ensures (p + 1) / 100 == p / 100 + (if (p + 1) % 100 == 0 then 1 else 0)
    ensures (p + 1) / 400 == p / 400 + (if (p + 1) % 400 == 0 then 1 else 0)
  {
  }

  /** Year `y` is `DaysInYear(y)` days long. */
  lemma YearLength(y: int)
    requires 1 <= y
    ensures DaysBeforeYear(y + 1) == DaysBeforeYear(y) + DaysInYear(y)
  {
    var p := y - 1;
    DivStep(p);
  }

  lemma {:induction false} YearsApart(y1: int, y2: int)
    requires 1 <= y1 < y2
    ensures DaysBeforeYear(y1) + DaysInYear(y1) <= DaysBeforeYear(y2)
    decreases y2 - y1
  {
    YearLength(y1);
    if y1 + 1 < y2 {
      YearsApart(y1 + 1, y2);
    }
  }

  /** Day numbers follow the calendar order of dates exactly, in both directions. */
  lemma OrdinalOrder(a: Date, b: Date)
    requires ValidDate(a) && ValidDate(b)
    ensures Before(a, b) <==> Ordinal(a) < Ordinal(b)
    ensures a == b <==> Ordinal(a) == Ordinal(b)
  {
    DayOfYearBounds(a);
    DayOfYearBounds(b);
    if a.year < b.year {
      YearsApart(a.year, b.year);
    } else if b.year < a.year {
      YearsApart(b.year, a.year);
    } else if a.month < b.month {
      MonthOrder(a.year, a.month, b.month);
    } else if b.month < a.month {
      MonthOrder(a.year, b.month, a.month);
    }
  }

  // ---------------------------------------------------------------------
  // Whole-day differences

  /** Microseconds from `from` to `to`. */
  function ElapsedMicros(from: Moment, to: Moment): int
    requires ValidDate(from.date) && ValidDate(to.date)
  {
    (Ordinal(to.date) - Ordinal(from.date)) * MicrosPerDay + (to.micros - from.micros)
  }

  /**
   * `timedelta.days`: Python normalises a timedelta so that its seconds part
   * is non-negative, so `days` is the quotient rounded down. Dafny's `/` with
   * a positive divisor rounds down as well.
   */
  function TimedeltaDays(micros: int): int {
    micros / MicrosPerDay
  }

  lemma DivByDay(q: int, r: int)
    requires 0 <= r < MicrosPerDay
    ensures (q * MicrosPerDay + r) / MicrosPerDay == q
  {
  }

  /** `(datetime.today() - birth_date).days` (bot.py lines 177, 214, 344). */
  function DaysLived(birth: Date, now: Moment): (days: int)
    requires ValidDate(birth) && ValidMoment(now)
    ensures days == Ordinal(now.date) - Ordinal(birth)
  {
    DivByDay(Ordinal(now.date) - Ordinal(birth), now.micros);
    TimedeltaDays(ElapsedMicros(Midnight(birth), now))
  }

  /** `days // 7` (bot.py lines 178, 215). */
  function WeeksLived(birth: Date, now: Moment): (weeks: int)
    requires ValidDate(birth) && ValidMoment(now)
    ensures 7 * weeks <= DaysLived(birth, now) < 7 * weeks + 7
  {
    DaysLived(birth, now) / 7
  }

  /** Today has the birth date's `weekday()` exactly when a whole number of weeks has been lived. */
  lemma SameWeekdayIffWholeWeeks(birth: Date, now: Moment)
    requires ValidDate(birth) && ValidMoment(now)
    ensures Weekday(now.date) == Weekday(birth) <==> DaysLived(birth, now) % 7 == 0
  {
    var a, b := Ordinal(now.date) + 6, Ordinal(birth) + 6;
    var d := DaysLived(birth, now);
    assert d == a - b;
    assert a == 7 * (a / 7) + a % 7;
    assert b == 7 * (b / 7) + b % 7;
    assert d == 7 * (d / 7) + d % 7;
    assert d % 7 - (a % 7 - b % 7) == 7 * (a / 7 - b / 7 - d / 7);
  }

  // ---------------------------------------------------------------------
  // Ages

  /** Python's tuple comparison `(m1, d1) < (m2, d2)`. */
  predicate MonthDayBefore(m1: int, d1: int, m2: int, d2: int) {
    m1 < m2 || (m1 == m2 && d1 < d2)
  }

  /**
   * Integer age (bot.py lines 161-163 and 183-185): the year difference,
   * minus one while this year's (month, day) has not yet been reached.
   * It is the number of completed years: the anniversary tuple of that
   * many years is not after today, and the next one is.
   */
  function AgeOn(birth: Date, today: Date): (age: int)
    ensures !Before(today, Date(birth.year + age, birth.month, birth.day))
    ensures Before(today, Date(birth.year + age + 1, birth.month, birth.day))
    ensures !Before(today, birth) ==> age >= 0
  {
    today.year - birth.year - (if MonthDayBefore(today.month, today.day, birth.month, birth.day) then 1 else 0)
  }

  // ---------------------------------------------------------------------
  // Birthdays

  /**
   * `birth_date.replace(year=y)`, and `replace(year=y, day=28)` when that
   * raises ValueError (bot.py lines 143-146).
   */
  function BirthdayInYear(birth: Date, y: int): (d: Date)
    requires ValidDate(birth) && 1 <= y
    ensures ValidDate(d) && d.year == y && d.month == birth.month
    ensures d.day != birth.day <==> birth.month == 2 && birth.day == 29 && !IsLeap(y)
    ensures d.day != birth.day ==> d.day == 28
  {
    if birth.day <= DaysInMonth(y, birth.month) then Date(y, birth.month, birth.day)
    else Date(y, birth.month, 28)
  }

  /** `d + relativedelta(years=1)`: the same month and day, clipped to the month's length. */
  function AddOneYear(d: Date): (r: Date)
    requires ValidDate(d)
    ensures ValidDate(r) && r.year == d.year + 1 && r.month == d.month
    ensures r.day == d.day || (d.month == 2 && d.day == 29 && r.day == 28 && !IsLeap(r.year))
  {
    var last := DaysInMonth(d.year + 1, d.month);
    Date(d.year + 1, d.month, if d.day <= last then d.day else last)
  }

  /**
   * The test of `check_and_send_birthday` (bot.py lines 250-260): the day
   * with the birth month and day when that date exists in today's year,
   * otherwise the 28th of the birth month.
   */
  predicate IsGreetingDay(birth: Date, today: Date): (g: bool)
    ensures 1 <= today.year && ValidDate(birth) ==>
      (g <==> today.month == birth.month
              && today.day == if ValidDate(Date(today.year, birth.month, birth.day)) then birth.day else 28)
  {
    if birth.month == 2 && birth.day == 29 then
      (today.month == 2 && today.day == 28 && !IsLeap(today.year))
      || (today.month == 2 && today.day == 29 && IsLeap(today.year))
    else
      today.month == birth.month && today.day == birth.day
  }

  /**
   * A birthday is greeted on exactly one day of each year: the day that
   * `BirthdayInYear` gives, which for Feb 29 is Feb 28 outside leap years.
   */
  lemma GreetingDayIsBirthdayInYear(birth: Date, today: Date)
    requires ValidDate(birth) && ValidDate(today)
    ensures IsGreetingDay(birth, today) <==> today == BirthdayInYear(birth, today.year)
  {
  }

  /** The age the greeting announces (bot.py line 262). */
  function GreetingAge(birth: Date, today: Date): int {
    today.year - birth.year
  }

  /**
   * On the greeting day the announced age is the completed age, except for
   * a Feb-29 birthday greeted on Feb 28, where it is one more: the age being
   * turned that day.
   */
  lemma GreetingAgeIsAge(birth: Date, today: Date)
    requires ValidDate(birth) && ValidDate(today) && IsGreetingDay(birth, today)
    ensures GreetingAge(birth, today)
            == AgeOn(birth, today) + (if birth.day == 29 && today.day == 28 then 1 else 0)
  {
  }

  /**
   * The first greeting day on or after `today`: this year's birthday if it
   * has not passed, otherwise next year's.
   */
  function NextBirthday(birth: Date, today: Date): (next: Date)
    requires ValidDate(birth) && ValidDate(today)
    ensures ValidDate(next) && IsGreetingDay(birth, next) && !Before(next, today)
    ensures forall t :: ValidDate(t) && IsGreetingDay(birth, t) && !Before(t, today) ==> !Before(t, next)
  {
    var thisYear := BirthdayInYear(birth, today.year);
    var next := if Before(thisYear, today) then BirthdayInYear(birth, today.year + 1) else thisYear;
    assert forall t :: ValidDate(t) && IsGreetingDay(birth, t) ==> t == BirthdayInYear(birth, t.year) by {
      forall t | ValidDate(t) && IsGreetingDay(birth, t) ensures t == BirthdayInYear(birth, t.year) {
        GreetingDayIsBirthdayInYear(birth, t);
      }
    }
    GreetingDayIsBirthdayInYear(birth, next);
    next
  }

  /** Two consecutive greeting days are at most 366 days apart. */
  lemma BirthdaysOneYearApart(birth: Date, y: int)
    requires ValidDate(birth) && 1 <= y
    ensures 0 < Ordinal(BirthdayInYear(birth, y + 1)) - Ordinal(BirthdayInYear(birth, y)) <= 366
  {
    YearLength(y);
    var a, b := BirthdayInYear(birth, y), BirthdayInYear(birth, y + 1);
    DayOfYearBounds(a);
    DayOfYearBounds(b);
  }

  /**
   * Days until the next birthday, counted on whole dates: 0 exactly on the
   * greeting day, and never more than 365. This is the intended reading of
   * `get_days_to_birthday`; see `DaysToBirthdayAsWritten` for the code.
   */
  function DaysToBirthday(birth: Date, today: Date): (n: int)
    requires ValidDate(birth) && ValidDate(today)
    ensures 0 <= n <= 365
    ensures n == 0 <==> IsGreetingDay(birth, today)
    ensures n == Ordinal(NextBirthday(birth, today)) - Ordinal(today)
  {
    var next := NextBirthday(birth, today);
    var thisYear := BirthdayInYear(birth, today.year);
    OrdinalOrder(next, today);
    OrdinalOrder(thisYear, today);
    BirthdaysOneYearApart(birth, today.year);
    GreetingDayIsBirthdayInYear(birth, today);
    Ordinal(next) - Ordinal(today)
  }

  /**
   * `get_days_to_birthday` as written (bot.py lines 141-151): the midnight
   * of this year's birthday is compared with an instant that carries the
   * time of day, the following year is reached with `relativedelta`, and
   * the difference is rounded down to whole days.
   */
  function DaysToBirthdayAsWritten(birth: Date, now: Moment): (n: int)
    requires ValidDate(birth) && ValidMoment(now)
    ensures 0 <= n <= 365
  {
    AsWrittenTargetRange(birth, now);
    TimedeltaDays(ElapsedMicros(now, Midnight(AsWrittenTarget(birth, now))))
  }

  /**
   * The birthday `get_days_to_birthday` counts to: this year's, unless its
   * midnight lies before the current instant, then the one a year later.
   */
  function AsWrittenTarget(birth: Date, now: Moment): (next: Date)
    requires ValidDate(birth) && ValidMoment(now)
    ensures ValidDate(next)
  {
    var thisYear := BirthdayInYear(birth, now.date.year);
    if MomentBefore(Midnight(thisYear), now) then AddOneYear(thisYear) else thisYear
  }

  /** `AddOneYear` moves a date forward by at most 366 days. */
  lemma AddOneYearSpan(d: Date)
    requires ValidDate(d)
    ensures 365 <= Ordinal(AddOneYear(d)) - Ordinal(d) <= 366
  {
    YearLength(d.year);
  }

  /** When this year's birthday has passed, the next one is 1 to 366 days ahead. */
  lemma PassedBirthdayGap(birth: Date, today: Date)
    requires ValidDate(birth) && ValidDate(today)
    requires !Before(today, BirthdayInYear(birth, today.year))
    ensures var thisYear := BirthdayInYear(birth, today.year);
      1 <= Ordinal(AddOneYear(thisYear)) - Ordinal(today) <= 366
      && (thisYear != today ==> Ordinal(AddOneYear(thisYear)) - Ordinal(today) <= 365)
  {
    var thisYear := BirthdayInYear(birth, today.year);
    var next := AddOneYear(thisYear);
    OrdinalOrder(thisYear, today);
    AddOneYearSpan(thisYear);
    YearLength(today.year);
    DayOfYearBounds(today);
    DayOfYearBounds(next);
  }

  /** When this year's birthday is still ahead, it is 0 to 365 days away. */
  lemma ComingBirthdayGap(birth: Date, today: Date)
    requires ValidDate(birth) && ValidDate(today)
    requires !Before(BirthdayInYear(birth, today.year), today)
    ensures var thisYear := BirthdayInYear(birth, today.year);
      0 <= Ordinal(thisYear) - Ordinal(today) <= 365
      && (thisYear != today ==> 1 <= Ordinal(thisYear) - Ordinal(today))
  {
    var thisYear := BirthdayInYear(birth, today.year);
    OrdinalOrder(thisYear, today);
    DayOfYearBounds(thisYear);
    DayOfYearBounds(today);
  }

  /** The whole days the code finds to its target stay within [0, 365] on every input. */
  lemma AsWrittenTargetRange(birth: Date, now: Moment)
    requires ValidDate(birth) && ValidMoment(now)
    ensures 0 <= TimedeltaDays(ElapsedMicros(now, Midnight(AsWrittenTarget(birth, now)))) <= 365
  {
    var today := now.date;
    var thisYear := BirthdayInYear(birth, today.year);
    var passed := MomentBefore(Midnight(thisYear), now);
    var next := AsWrittenTarget(birth, now);
    if passed {
      PassedBirthdayGap(birth, today);
    } else {
      ComingBirthdayGap(birth, today);
    }
    var gap := Ordinal(next) - Ordinal(today);
    if now.micros > 0 {
      DivByDay(gap - 1, MicrosPerDay - now.micros);
      assert ElapsedMicros(now, Midnight(next)) == (gap - 1) * MicrosPerDay + (MicrosPerDay - now.micros);
    } else {
      DivByDay(gap, 0);
    }
  }

  /** After midnight on the greeting day itself the code never reports 0 days. */
  lemma AsWrittenMissesTheDayItself(birth: Date, now: Moment)
    requires ValidDate(birth) && ValidMoment(now)
    requires IsGreetingDay(birth, now.date) && now.micros > 0
    ensures DaysToBirthdayAsWritten(birth, now) >= 364
    ensures DaysToBirthday(birth, now.date) == 0
  {
    var today := now.date;
    GreetingDayIsBirthdayInYear(birth, today);
    var next := AddOneYear(today);
    AddOneYearSpan(today);
    var gap := Ordinal(next) - Ordinal(today);
    DivByDay(gap - 1, MicrosPerDay - now.micros);
    assert ElapsedMicros(now, Midnight(next)) == (gap - 1) * MicrosPerDay + (MicrosPerDay - now.micros);
  }

  /**
   * Away from a Feb-29 birth date the code counts to the same birthday as
   * `DaysToBirthday`, but rounds the time left from the current instant
   * down: after midnight it reports one day less (on every day but the
   * greeting day itself, see above), and at midnight the same number.
   */
  lemma AsWrittenFloorsTimeLeft(birth: Date, now: Moment)
    requires ValidDate(birth) && ValidMoment(now)
    requires !(birth.month == 2 && birth.day == 29)
    requires now.micros == 0 || !IsGreetingDay(birth, now.date)
    ensures DaysToBirthdayAsWritten(birth, now) == DaysToBirthday(birth, now.date) - (if now.micros > 0 then 1 else 0)
  {
    var today := now.date;
    var thisYear := BirthdayInYear(birth, today.year);
    var target := AsWrittenTarget(birth, now);
    GreetingDayIsBirthdayInYear(birth, today);
    assert target == NextBirthday(birth, today) by {
      if Before(thisYear, today) {
        assert AddOneYear(thisYear) == BirthdayInYear(birth, today.year + 1);
      }
    }
    var gap := Ordinal(target) - Ordinal(today);
    if now.micros > 0 {
      DivByDay(gap - 1, MicrosPerDay - now.micros);
      assert ElapsedMicros(now, Midnight(target)) == (gap - 1) * MicrosPerDay + (MicrosPerDay - now.micros);
    } else {
      DivByDay(gap, 0);
    }
  }

  /** 10 May 2024 at 09:00 for someone born on 10 May 1990: the code says 364, the intended answer is 0. */
  lemma AsWrittenOnTheBirthday()
    ensures DaysToBirthdayAsWritten(Date(1990, 5, 10), Moment(Date(2024, 5, 10), 9 * 3600 * 1_000_000)) == 364
    ensures DaysToBirthday(Date(1990, 5, 10), Date(2024, 5, 10)) == 0
  {
    AsWrittenMissesTheDayItself(Date(1990, 5, 10), Moment(Date(2024, 5, 10), 9 * 3600 * 1_000_000));
    var next := Date(2025, 5, 10);
    assert Ordinal(next) - Ordinal(Date(2024, 5, 10)) == 365;
    DivByDay(364, MicrosPerDay - 9 * 3600 * 1_000_000);
  }

  /**
   * 1 March 2023 at midnight for someone born on 29 February 2000: the code
   * counts 364 days to 28 February 2024, but 2024 is a leap year and the
   * greeting comes on 29 February 2024, 365 days away.
   */
  lemma AsWrittenLeapDaySkipsToFeb28()
    ensures DaysToBirthdayAsWritten(Date(2000, 2, 29), Moment(Date(2023, 3, 1), 0)) == 364
    ensures !IsGreetingDay(Date(2000, 2, 29), Date(2024, 2, 28))
    ensures DaysToBirthday(Date(2000, 2, 29), Date(2023, 3, 1)) == 365
  {
    var birth, today := Date(2000, 2, 29), Date(2023, 3, 1);
    assert Ordinal(Date(2024, 2, 28)) - Ordinal(today) == 364;
    DivByDay(364, 0);
    var next := NextBirthday(birth, today);
    assert next == Date(2024, 2, 29);
    assert Ordinal(Date(2024, 2, 29)) - Ordinal(today) == 365;
  }
}
