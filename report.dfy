/**
 * The integer content of the statistics reply (`generate_report_text`,
 * bot.py lines 171-201) and of the "time units" reply (`time_units`,
 * bot.py lines 337-355).
 */
module Report {
  import opened Wrappers
  import opened Calendar
  import opened Ages

  /** Which of the three comparison sentences follows the report, if any. */
  datatype Comparison = Older | Younger | SameAge | NoComparison

  /** The numbers the report text is built from. */
  datatype Stats = Stats(days: int, weeks: int, daysToBirthday: int, median: int, userAge: int, comparison: Comparison)

  /** The comparison with the median age: only a positive median is compared with. */
  function CompareToMedian(userAge: int, median: int): (c: Comparison)
    ensures c == NoComparison <==> median <= 0
    ensures c == Older <==> 0 < median < userAge
    ensures c == Younger <==> 0 < median && userAge < median
    ensures c == SameAge <==> 0 < median && userAge == median
  {
    if median > 0 then
      if userAge > median then Older
      else if userAge < median then Younger
      else SameAge
    else NoComparison
  }

  /** The report for a user born on `birth`, given the median age of the subscribers. */
  function StatsFor(birth: Date, median: int, now: Moment): (s: Stats)
    requires ValidDate(birth) && ValidMoment(now)
    ensures s.days == Ordinal(now.date) - Ordinal(birth)
    ensures 7 * s.weeks <= s.days < 7 * s.weeks + 7
    ensures 0 <= s.daysToBirthday <= 365 && (s.daysToBirthday == 0 <==> IsGreetingDay(birth, now.date))
    ensures s.userAge == AgeOn(birth, now.date)
    ensures s.median == median && s.comparison == CompareToMedian(s.userAge, median)
  {
    var age := AgeOn(birth, now.date);
    Stats(DaysLived(birth, now), WeeksLived(birth, now), DaysToBirthday(birth, now.date), median, age,
          CompareToMedian(age, median))
  }

  /**
   * `generate_report_text`: no report for a user without a stored birthday;
   * otherwise the user's numbers, with the median age over the active users.
   */
  method GenerateReport(uid: int, birthdays: map<int, Date>, active: set<int>, now: Moment) returns (r: Option<Stats>)
    requires ValidMoment(now) && (uid in birthdays ==> ValidDate(birthdays[uid]))
    ensures r.None? <==> uid !in birthdays
    ensures r.Some? ==> r.value == StatsFor(birthdays[uid], BagMedian(AgeBag(active, birthdays, now.date)), now)
  {
    if uid !in birthdays {
      return None;
    }
    var birth := birthdays[uid];
    var median := MedianAge(active, birthdays, now.date);
    r := Some(StatsFor(birth, median, now));
  }

  /** The numbers of the "time units" reply. */
  datatype TimeUnits = TimeUnits(days: int, hours: int, minutes: int, seconds: int)

  /**
   * `time_units`: nothing without a stored birthday; otherwise the whole
   * days lived, and hours, minutes and seconds as whole multiples of them.
   */
  function TimeUnitsFor(uid: int, birthdays: map<int, Date>, now: Moment): (r: Option<TimeUnits>)
    requires ValidMoment(now) && (uid in birthdays ==> ValidDate(birthdays[uid]))
    ensures r.None? <==> uid !in birthdays
    ensures r.Some? ==> r.value.days == Ordinal(now.date) - Ordinal(birthdays[uid])
  {
    if uid !in birthdays then None
    else
      var days := DaysLived(birthdays[uid], now);
      var hours := days * 24;
      var minutes := hours * 60;
      var seconds := minutes * 60;
      Some(TimeUnits(days, hours, minutes, seconds))
  }

  /**
   * The reported units are 24, 1440 and 86400 times the days, so the
   * reported seconds are the time since the birth midnight rounded down to
   * a whole day.
   */
  lemma TimeUnitsAreWholeDays(uid: int, birthdays: map<int, Date>, now: Moment)
    requires ValidMoment(now) && uid in birthdays && ValidDate(birthdays[uid])
    ensures var u := TimeUnitsFor(uid, birthdays, now).value;
      && u.hours == 24 * u.days && u.minutes == 1440 * u.days && u.seconds == 86400 * u.days
      && u.seconds * 1_000_000 <= ElapsedMicros(Midnight(birthdays[uid]), now) < (u.seconds + 86400) * 1_000_000
  {
  }
}
