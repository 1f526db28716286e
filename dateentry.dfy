/**
 * Reading a birth date typed by a user (`handle_message`, bot.py lines
 * 382-450): menu-button texts first, then `DD.MM.YYYY` (or with `/`),
 * range checks, Gregorian validity and the "not in the future" check.
 */
module DateEntry {
  import opened Wrappers
  import opened Calendar
  import opened PyText

  const TimeUnitsButton: string := "\U{1F552} Мои единицы времени"
  const StatsButton: string := "\U{1F4CA} Моя статистика"
  const EnterDateButton: string := "\U{1F4C5} Ввести дату рождения"

  /** The reply `handle_message` chooses. */
  datatype EntryOutcome =
    | ShowTimeUnits      // the "time units" button: `time_units` answers
    | ShowStats          // the "statistics" button: `show_my_stats` answers
    | AskForDate         // the "enter birth date" button: the format hint
    | BadFormat          // "❌ Формат: ДД.ММ.ГГГГ"
    | Unrecognised       // "❌ Не удалось распознать дату"
    | FutureDate         // "📅 Дата не может быть в будущем!"
    | Accepted(birth: Date)

  predicate IsMenuButton(t: string) {
    t == TimeUnitsButton || t == StatsButton || t == EnterDateButton
  }

  predicate IsMenuOutcome(r: EntryOutcome) {
    r.ShowTimeUnits? || r.ShowStats? || r.AskForDate?
  }

  /** `text.strip().replace("/", ".").strip().split(".")`. */
  function DateParts(text: string): seq<string> {
    Split(Strip(ReplaceChar(Strip(text), '/', '.')), '.')
  }

  /**
   * The range checks and `datetime(year, month, day)`: `None` where one of
   * them raises ValueError.
   */
  function CheckedDate(day: int, month: int, year: int, today: Date): Option<Date> {
    if !(1900 <= year <= today.year) then None
    else if !(1 <= month <= 12) then None
    else if !(1 <= day <= 31) then None
    else if day > DaysInMonth(year, month) then None
    else Some(Date(year, month, day))
  }

  /** The three numbers of a three-part entry, when `int()` accepts all of them. */
  function PartNumbers(parts: seq<string>): Option<Date>
    requires |parts| == 3
  {
    var day, month, year := ParseInt(parts[0]), ParseInt(parts[1]), ParseInt(parts[2]);
    if day.Some? && month.Some? && year.Some? then Some(Date(year.value, month.value, day.value)) else None
  }

  /** The menu button a stripped text names, if any. */
  function MenuChoice(t: string): (r: Option<EntryOutcome>)
    ensures r.Some? <==> IsMenuButton(t)
    ensures r.Some? ==> IsMenuOutcome(r.value)
  {
    if t == TimeUnitsButton then Some(ShowTimeUnits)
    else if t == StatsButton then Some(ShowStats)
    else if t == EnterDateButton then Some(AskForDate)
    else None
  }

  /** The checks that follow a successful `int()` of all three parts. */
  function ClassifyNumbers(n: Date, now: Moment): (r: EntryOutcome)
    requires ValidMoment(now)
    ensures r == Unrecognised || r == FutureDate || r == Accepted(n)
    ensures r.Accepted? ==> ValidDate(r.birth) && 1900 <= r.birth.year && !Before(now.date, r.birth)
  {
    match CheckedDate(n.day, n.month, n.year, now.date)
    case None => Unrecognised
    case Some(birth) => if MomentBefore(now, Midnight(birth)) then FutureDate else Accepted(birth)
  }

  /** What the date path makes of the split text. */
  function ClassifyParts(parts: seq<string>, now: Moment): (r: EntryOutcome)
    requires ValidMoment(now)
    ensures !IsMenuOutcome(r)
    ensures r.Accepted? ==> ValidDate(r.birth) && 1900 <= r.birth.year && !Before(now.date, r.birth)
  {
    if |parts| != 3 then BadFormat
    else
      var n := PartNumbers(parts);
      if n.None? then Unrecognised else ClassifyNumbers(n.value, now)
  }

  /** The outcome of one text message that reaches `handle_message`. */
  function ClassifyEntry(text: string, now: Moment): (r: EntryOutcome)
    requires ValidMoment(now)
    ensures r.Accepted? ==> ValidDate(r.birth) && 1900 <= r.birth.year && !Before(now.date, r.birth)
  {
    match MenuChoice(Strip(text))
    case Some(button) => button
    case None => ClassifyParts(DateParts(text), now)
  }

  /** The range checks and the `datetime` constructor accept exactly the valid dates from 1900 to this year. */
  lemma CheckedDateIsGregorian(day: int, month: int, year: int, today: Date)
    ensures CheckedDate(day, month, year, today).Some? <==>
              ValidDate(Date(year, month, day)) && 1900 <= year <= today.year
    ensures CheckedDate(day, month, year, today).Some? ==>
              CheckedDate(day, month, year, today).value == Date(year, month, day)
  {
  }

  /** Menu-button texts, and only they, are intercepted before any date handling. */
  lemma EntryMenu(text: string, now: Moment)
    requires ValidMoment(now)
    ensures IsMenuOutcome(ClassifyEntry(text, now)) <==> IsMenuButton(Strip(text))
  {
  }

  /** Texts other than the buttons take the date path. */
  lemma EntryDispatch(text: string, now: Moment)
    requires ValidMoment(now) && !IsMenuButton(Strip(text))
    ensures ClassifyEntry(text, now) == ClassifyParts(DateParts(text), now)
  {
  }

  /** The checks of the date path, on the parts of the split text. */
  lemma PartsOutcome(parts: seq<string>, now: Moment)
    requires ValidMoment(now)
    ensures ClassifyParts(parts, now) == BadFormat <==> |parts| != 3
    ensures ClassifyParts(parts, now) == Unrecognised <==>
              && |parts| == 3
              && var n := PartNumbers(parts);
                 !(n.Some? && ValidDate(n.value) && 1900 <= n.value.year <= now.date.year)
    ensures ClassifyParts(parts, now) == FutureDate <==>
              && |parts| == 3
              && var n := PartNumbers(parts);
                 && n.Some? && ValidDate(n.value) && 1900 <= n.value.year <= now.date.year
                 && Before(now.date, n.value)
    ensures forall birth :: ClassifyParts(parts, now) == Accepted(birth) <==>
              && |parts| == 3 && PartNumbers(parts) == Some(birth)
              && ValidDate(birth) && 1900 <= birth.year && !Before(now.date, birth)
  {
    if |parts| == 3 && PartNumbers(parts).Some? {
      var b := PartNumbers(parts).value;
      CheckedDateIsGregorian(b.day, b.month, b.year, now.date);
    }
  }

  /** A part count other than three is a format error. */
  lemma EntryBadFormat(text: string, now: Moment)
    requires ValidMoment(now)
    ensures ClassifyEntry(text, now) == BadFormat <==>
              !IsMenuButton(Strip(text)) && |DateParts(text)| != 3
  {
    if !IsMenuButton(Strip(text)) {
      EntryDispatch(text, now);
      PartsOutcome(DateParts(text), now);
    }
  }

  /**
   * Three parts that are not all integers, or that do not name a Gregorian
   * date with a year from 1900 to this year, are not recognised.
   */
  lemma EntryUnrecognised(text: string, now: Moment)
    requires ValidMoment(now)
    ensures ClassifyEntry(text, now) == Unrecognised <==>
              && !IsMenuButton(Strip(text)) && |DateParts(text)| == 3
              && var n := PartNumbers(DateParts(text));
                 !(n.Some? && ValidDate(n.value) && 1900 <= n.value.year <= now.date.year)
  {
    if !IsMenuButton(Strip(text)) {
      EntryDispatch(text, now);
      PartsOutcome(DateParts(text), now);
    }
  }

  /** A valid date of this year that lies after today is refused as a future date. */
  lemma EntryFuture(text: string, now: Moment)
    requires ValidMoment(now)
    ensures ClassifyEntry(text, now) == FutureDate <==>
              && !IsMenuButton(Strip(text)) && |DateParts(text)| == 3
              && var n := PartNumbers(DateParts(text));
                 && n.Some? && ValidDate(n.value) && 1900 <= n.value.year <= now.date.year
                 && Before(now.date, n.value)
  {
    if !IsMenuButton(Strip(text)) {
      EntryDispatch(text, now);
      PartsOutcome(DateParts(text), now);
    }
  }

  /**
   * The accepted date is exactly the (day, month, year) typed, and every
   * valid date from 1900 up to and including today is accepted.
   */
  lemma EntryAccepted(text: string, now: Moment, birth: Date)
    requires ValidMoment(now)
    ensures ClassifyEntry(text, now) == Accepted(birth) <==>
              && !IsMenuButton(Strip(text)) && |DateParts(text)| == 3
              && PartNumbers(DateParts(text)) == Some(birth)
              && ValidDate(birth) && 1900 <= birth.year && !Before(now.date, birth)
  {
    if !IsMenuButton(Strip(text)) {
      EntryDispatch(text, now);
      PartsOutcome(DateParts(text), now);
    }
  }

  /** The day or the month as typed: `str(n)`, or with a leading zero (`f"{n:02d}"`) when `pad`. */
  function DayMonthText(n: int, pad: bool): (s: string)
    ensures |s| > 0 && IsDigit(s[|s| - 1])
    ensures forall i :: 0 <= i < |s| ==> IsDigit(s[i]) || (i == 0 && s[i] == '-')
  {
    if pad then TwoDigits(n) else DecimalString(n)
  }

  /** Either way of writing a day or a month has no separator and reads back as the number. */
  lemma DayMonthTextRoundTrip(n: int, pad: bool)
    ensures '.' !in DayMonthText(n, pad) && '/' !in DayMonthText(n, pad) && NoSpace(DayMonthText(n, pad))
    ensures ParseInt(DayMonthText(n, pad)) == Some(n)
  {
    if pad {
      TwoDigitsHasNoSeparators(n);
      TwoDigitsRoundTrip(n);
    } else {
      DecimalHasNoSeparators(n);
      ParseDecimalRoundTrip(n);
    }
  }

  /**
   * A typed date: `DD.MM.YYYY` as the prompt shows it when `pad`, `D.M.YYYY` otherwise,
   * with `/` in place of `.` when `sep` is `/`; the year is written with `str()`.
   */
  function FormatDate(birth: Date, sep: char, pad: bool): string {
    DayMonthText(birth.day, pad) + [sep] + DayMonthText(birth.month, pad) + [sep] + DecimalString(birth.year)
  }

  /** A date written with `.` or `/` carries no whitespace at its ends and is no menu button. */
  lemma FormatDateStrip(birth: Date, sep: char, pad: bool)
    requires sep == '.' || sep == '/'
    ensures Strip(FormatDate(birth, sep, pad)) == FormatDate(birth, sep, pad)
    ensures !IsMenuButton(FormatDate(birth, sep, pad))
  {
    var text := FormatDate(birth, sep, pad);
    var d := DayMonthText(birth.day, pad);
    assert text[0] == d[0];
    assert TimeUnitsButton[0] == '\U{1F552}' && StatsButton[0] == '\U{1F4CA}' && EnterDateButton[0] == '\U{1F4C5}';
    assert text[|text| - 1] == DecimalString(birth.year)[|DecimalString(birth.year)| - 1];
    StripTrailing(text, []);
    assert text + [] == text;
  }

  /** Replacing `/` by `.` turns the `/` form into the `.` form. */
  lemma FormatDateReplace(birth: Date, sep: char, pad: bool)
    requires sep == '.' || sep == '/'
    ensures ReplaceChar(FormatDate(birth, sep, pad), '/', '.') == FormatDate(birth, '.', pad)
  {
    DayMonthTextRoundTrip(birth.day, pad);
    DayMonthTextRoundTrip(birth.month, pad);
    DecimalHasNoSeparators(birth.year);
    ReplaceJoined(DayMonthText(birth.day, pad), DayMonthText(birth.month, pad), DecimalString(birth.year), sep);
  }

  lemma ReplaceJoined(d: string, m: string, y: string, sep: char)
    requires '/' !in d && '/' !in m && '/' !in y
    requires sep == '.' || sep == '/'
    ensures ReplaceChar(d + [sep] + m + [sep] + y, '/', '.') == d + ['.'] + m + ['.'] + y
  {
    ReplaceAbsent(d, '/', '.');
    ReplaceAbsent(m, '/', '.');
    ReplaceAbsent(y, '/', '.');
    ReplaceConcat(d, [sep], '/', '.');
    ReplaceConcat(d + [sep], m, '/', '.');
    ReplaceConcat(d + [sep] + m, [sep], '/', '.');
    ReplaceConcat(d + [sep] + m + [sep], y, '/', '.');
  }

  /** The `.` form splits into the three numbers. */
  lemma FormatDateSplit(birth: Date, pad: bool)
    ensures Split(FormatDate(birth, '.', pad), '.') ==
              [DayMonthText(birth.day, pad), DayMonthText(birth.month, pad), DecimalString(birth.year)]
  {
    var d, m, y := DayMonthText(birth.day, pad), DayMonthText(birth.month, pad), DecimalString(birth.year);
    DayMonthTextRoundTrip(birth.day, pad);
    DayMonthTextRoundTrip(birth.month, pad);
    DecimalHasNoSeparators(birth.year);
    SplitThree(d, m, y, '.');
  }

  /** The formatted date splits into its three numbers. */
  lemma FormatDateParts(birth: Date, sep: char, pad: bool)
    requires sep == '.' || sep == '/'
    ensures DateParts(FormatDate(birth, sep, pad)) ==
              [DayMonthText(birth.day, pad), DayMonthText(birth.month, pad), DecimalString(birth.year)]
  {
    FormatDateStrip(birth, sep, pad);
    FormatDateReplace(birth, sep, pad);
    FormatDateStrip(birth, '.', pad);
    FormatDateSplit(birth, pad);
  }

  /** `int()` reads the three numbers back from the formatted date, padded or not. */
  lemma FormatDateNumbers(birth: Date, sep: char, pad: bool)
    requires sep == '.' || sep == '/'
    ensures |DateParts(FormatDate(birth, sep, pad))| == 3
    ensures PartNumbers(DateParts(FormatDate(birth, sep, pad))) == Some(birth)
  {
    FormatDateParts(birth, sep, pad);
    DayMonthTextRoundTrip(birth.day, pad);
    DayMonthTextRoundTrip(birth.month, pad);
    ParseDecimalRoundTrip(birth.year);
    PartNumbersOf(DayMonthText(birth.day, pad), DayMonthText(birth.month, pad), DecimalString(birth.year), birth);
  }

  lemma PartNumbersOf(d: string, m: string, y: string, birth: Date)
    requires ParseInt(d) == Some(birth.day) && ParseInt(m) == Some(birth.month) && ParseInt(y) == Some(birth.year)
    ensures PartNumbers([d, m, y]) == Some(birth)
  {
  }

  /**
   * Typing any date from 1900 to today, as `DD.MM.YYYY` or `D.M.YYYY`, with `.` or `/`,
   * stores exactly that date.
   */
  lemma EntryRoundTrip(birth: Date, now: Moment, sep: char, pad: bool)
    requires ValidMoment(now) && ValidDate(birth) && 1900 <= birth.year && !Before(now.date, birth)
    requires sep == '.' || sep == '/'
    ensures ClassifyEntry(FormatDate(birth, sep, pad), now) == Accepted(birth)
  {
    var text := FormatDate(birth, sep, pad);
    FormatDateStrip(birth, sep, pad);
    EntryDispatch(text, now);
    FormatDateNumbers(birth, sep, pad);
    PartsOutcome(DateParts(text), now);
  }
}
