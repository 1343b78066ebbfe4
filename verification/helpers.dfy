/** Conversion between NASA's calendar-date strings and date-time values
    (helpers.py): `cd_to_datetime`, which is `strptime` with the format
    `%Y-%b-%d %H:%M`, and `datetime_to_str`, which is `strftime` with
    `%Y-%m-%d %H:%M`. Seconds are never represented. */
module Helpers {
  import opened Common
  import opened Text

  datatype DateTime = DateTime(year: int, month: int, day: int, hour: int, minute: int)
  datatype Date = Date(year: int, month: int, day: int)

  predicate IsLeapYear(year: int)
  {
    year % 4 == 0 && (year % 100 != 0 || year % 400 == 0)
  }

  function DaysInMonth(year: int, month: int): int
    requires 1 <= month <= 12
  {
    if month == 2 then (if IsLeapYear(year) then 29 else 28)
    else if month == 4 || month == 6 || month == 9 || month == 11 then 30
    else 31
  }

  /** The range of Python's `datetime.date`: years 1 to 9999, a real day of the month. */
  predicate ValidDate(d: Date)
  {
    1 <= d.year <= 9999 && 1 <= d.month <= 12 && 1 <= d.day <= DaysInMonth(d.year, d.month)
  }

  predicate ValidDateTime(t: DateTime)
  {
    ValidDate(Date(t.year, t.month, t.day)) && 0 <= t.hour < 24 && 0 <= t.minute < 60
  }

  /** A Python `datetime.date`. */
  type CalendarDate = d: Date | ValidDate(d) witness Date(1, 1, 1)

  /** A naive Python `datetime.datetime` whose seconds and microseconds are zero. */
  type Timestamp = t: DateTime | ValidDateTime(t) witness DateTime(1, 1, 1, 0, 0)

  /** `datetime.date()`: the calendar date, dropping the time of day. */
  function DateOf(t: Timestamp): CalendarDate
  {
    Date(t.year, t.month, t.day)
  }

  /** Python's ordering of dates: by year, then month, then day. */
  predicate DateBefore(a: Date, b: Date)
  {
    || a.year < b.year
    || (a.year == b.year && a.month < b.month)
    || (a.year == b.year && a.month == b.month && a.day < b.day)
  }

  /** The C locale's month abbreviations, `%b`. */
  const MonthAbbreviations: seq<string> :=
    ["Jan", "Feb", "Mar", "Apr", "May", "Jun", "Jul", "Aug", "Sep", "Oct", "Nov", "Dec"]

  /** Whether `c` matches the lower-case letter `m` under `re.IGNORECASE`:
      either case of the ASCII letter, and for `s` also the long s (U+017F),
      which the regular-expression engine folds onto it. */
  predicate LetterMatches(c: char, m: char)
  {
    LowerChar(c) == m || (m == 's' && c == '\U{17F}')
  }

  predicate MatchesIgnoringCase(s: string, word: string)
  {
    |s| == |word| && forall i :: 0 <= i < |s| ==> LetterMatches(s[i], LowerChar(word[i]))
  }

  /** The `%b` group of the pattern: the twelve abbreviations as alternatives,
      matched under `re.IGNORECASE`. */
  predicate MonthMatches(s: string)
  {
    exists j :: 0 <= j < 12 && MatchesIgnoringCase(s, MonthAbbreviations[j])
  }

  /** The first of the months from `k` on whose lower-case abbreviation is
      `lowered`, numbered from 1. */
  function FindMonth(lowered: string, k: nat): (m: Option<int>)
    requires k <= 12
    ensures m.Some? ==> k < m.value <= 12 && lowered == Lower(MonthAbbreviations[m.value - 1])
    ensures m.None? ==> forall j :: k <= j < 12 ==> lowered != Lower(MonthAbbreviations[j])
    decreases 12 - k
  {
    if k == 12 then None
    else if lowered == Lower(MonthAbbreviations[k]) then Some(k + 1)
    else FindMonth(lowered, k + 1)
  }

  /** The month number (1 for January) of a matched `%b` field: `strptime`
      looks the field's `str.lower()` up in the lower-cased abbreviations.
      On text the `%b` group matched, `str.lower()` and the ASCII `Lower`
      agree: the only non-ASCII letter the group admits is the long s, which
      both leave unchanged, so that field is not found and `strptime` raises
      `ValueError`. */
  function MonthNumber(s: string): (m: Option<int>)
    ensures m.Some? ==> 1 <= m.value <= 12 && Lower(s) == Lower(MonthAbbreviations[m.value - 1])
    ensures m.None? ==> forall j :: 0 <= j < 12 ==> Lower(s) != Lower(MonthAbbreviations[j])
  {
    FindMonth(Lower(s), 0)
  }

  /** A field the month lookup finds is one the `%b` group matches. */
  lemma MonthNumberMatches(s: string)
    requires MonthNumber(s).Some?
    ensures MonthMatches(s)
  {
    var j := MonthNumber(s).value - 1;
    var word := MonthAbbreviations[j];
    assert |Lower(s)| == |s| && |Lower(word)| == |word|;
    forall i | 0 <= i < |s| ensures LetterMatches(s[i], LowerChar(word[i])) {
      assert Lower(s)[i] == LowerChar(s[i]);
      assert Lower(word)[i] == LowerChar(word[i]);
    }
    assert MatchesIgnoringCase(s, word);
  }

  /** `s[i..j]` is a field of one or two ASCII digits denoting `v`. */
  predicate NumberAt(s: string, i: nat, j: nat, v: int)
  {
    i < j <= |s| && j <= i + 2 && AllDigits(s[i..j]) && DigitsValue(s[i..j]) == v
  }

  /** `%d` matched at position `i`: the alternatives `3[01]`, `[12]\d`, `0[1-9]`,
      `[1-9]` and ` [1-9]`, tried in that order. The field is followed by `\s+`,
      so once an alternative matches, a shorter one can never rescue a failure
      of what follows; the first match is therefore the only one to consider.
      Yields the day and the position after the field. */
  function DayField(s: string, i: nat): (r: Option<(int, nat)>)
    ensures r.Some? ==> 1 <= r.value.0 <= 31 && i < r.value.1 <= |s|
    ensures r.Some? ==> if s[i] == ' ' then NumberAt(s, i + 1, r.value.1, r.value.0)
                        else NumberAt(s, i, r.value.1, r.value.0)
  {
    if i + 1 < |s| && ((s[i] == '3' && '0' <= s[i + 1] <= '1')
                       || ('1' <= s[i] <= '2' && IsDigit(s[i + 1]))
                       || (s[i] == '0' && '1' <= s[i + 1] <= '9')) then
      DigitsValueTwo(s[i..i + 2]);
      Some((DigitValue(s[i]) * 10 + DigitValue(s[i + 1]), i + 2))
    else if i < |s| && '1' <= s[i] <= '9' then
      DigitsValueOne(s[i..i + 1]);
      Some((DigitValue(s[i]), i + 1))
    else if i + 1 < |s| && s[i] == ' ' && '1' <= s[i + 1] <= '9' then
      DigitsValueOne(s[i + 1..i + 2]);
      Some((DigitValue(s[i + 1]), i + 2))
    else
      None
  }

  /** `%H` matched at position `i`: `2[0-3]`, `[0-1]\d`, `\d`, in that order.
      It is followed by `:`, so again the first alternative that matches decides. */
  function HourField(s: string, i: nat): (r: Option<(int, nat)>)
    ensures r.Some? ==> 0 <= r.value.0 <= 23 && NumberAt(s, i, r.value.1, r.value.0)
  {
    if i + 1 < |s| && ((s[i] == '2' && '0' <= s[i + 1] <= '3')
                       || ('0' <= s[i] <= '1' && IsDigit(s[i + 1]))) then
      DigitsValueTwo(s[i..i + 2]);
      Some((DigitValue(s[i]) * 10 + DigitValue(s[i + 1]), i + 2))
    else if i < |s| && IsDigit(s[i]) then
      DigitsValueOne(s[i..i + 1]);
      Some((DigitValue(s[i]), i + 1))
    else
      None
  }

  /** `%M` matched at position `i`: `[0-5]\d`, then `\d`. It ends the pattern,
      so the first alternative that matches is the match. */
  function MinuteField(s: string, i: nat): (r: Option<(int, nat)>)
    ensures r.Some? ==> 0 <= r.value.0 <= 59 && NumberAt(s, i, r.value.1, r.value.0)
  {
    if i + 1 < |s| && '0' <= s[i] <= '5' && IsDigit(s[i + 1]) then
      DigitsValueTwo(s[i..i + 2]);
      Some((DigitValue(s[i]) * 10 + DigitValue(s[i + 1]), i + 2))
    else if i < |s| && IsDigit(s[i]) then
      DigitsValueOne(s[i..i + 1]);
      Some((DigitValue(s[i]), i + 1))
    else
      None
  }

  /** The length of the run of whitespace starting at `i`: `\s+` is greedy, and
      giving any of it back would leave whitespace where `%H` needs a digit. */
  function SpaceRun(s: string, i: nat): (n: nat)
    requires i <= |s|
    ensures i + n <= |s|
    ensures i + n < |s| ==> !IsSpace(s[i + n])
    decreases |s| - i
  {
    if i < |s| && IsSpace(s[i]) then 1 + SpaceRun(s, i + 1) else 0
  }

  /** The run `SpaceRun` measures is all whitespace. */
  lemma {:induction false} SpaceRunIsBlank(s: string, i: nat)
    requires i <= |s|
    ensures forall j :: i <= j < i + SpaceRun(s, i) ==> IsSpace(s[j])
    decreases |s| - i
  {
    if i < |s| && IsSpace(s[i]) {
      SpaceRunIsBlank(s, i + 1);
    }
  }

  /** The `ValueError`s that `strptime` raises. */
  datatype ParseError =
    | FormatMismatch    // "time data ... does not match format ..."
    | UnconvertedData   // "unconverted data remains: ..."
    | YearOutOfRange    // year 0000
    | UnknownMonth      // the matched month is not among the lower-cased abbreviations
    | DayOutOfRange     // e.g. the 30th of February

  /** The part of the pattern after the month, `%d\s+%H:%M`, matched at
      position `i` and required to reach the end of `s` (`strptime` rejects
      leftover text). Yields the day, hour and minute fields. */
  function ClockFields(s: string, i: nat): (r: Result<(int, int, int), ParseError>)
    ensures r.Ok? ==> 1 <= r.value.0 <= 31 && 0 <= r.value.1 <= 23 && 0 <= r.value.2 <= 59
  {
    match DayField(s, i)
    case None => Err(FormatMismatch)
    case Some((day, j)) => AfterDay(s, j, day)
  }

  /** `\s+` after the day, which ended at `j`, then the hour. */
  function AfterDay(s: string, j: nat, day: int): (r: Result<(int, int, int), ParseError>)
    requires j <= |s|
    ensures r.Ok? ==> r.value.0 == day && 0 <= r.value.1 <= 23 && 0 <= r.value.2 <= 59
  {
    var k := j + SpaceRun(s, j);
    if k == j then Err(FormatMismatch) else AfterSpace(s, k, day)
  }

  /** `%H` after the whitespace, which ended at `k`, then the minute. */
  function AfterSpace(s: string, k: nat, day: int): (r: Result<(int, int, int), ParseError>)
    ensures r.Ok? ==> r.value.0 == day && 0 <= r.value.1 <= 23 && 0 <= r.value.2 <= 59
  {
    match HourField(s, k)
    case None => Err(FormatMismatch)
    case Some((hour, m)) => AfterHour(s, m, day, hour)
  }

  /** `:%M` after the hour, which ended at `m`, reaching the end of `s`. */
  function AfterHour(s: string, m: nat, day: int, hour: int): (r: Result<(int, int, int), ParseError>)
    ensures r.Ok? ==> r.value.0 == day && r.value.1 == hour && 0 <= r.value.2 <= 59
  {
    if m >= |s| || s[m] != ':' then Err(FormatMismatch)
    else
      match MinuteField(s, m + 1)
      case None => Err(FormatMismatch)
      case Some((minute, e)) =>
        if e != |s| then Err(UnconvertedData)
        else Ok((day, hour, minute))
  }

  /** What `ClockFields` accepted: the day (one or two digits, or a space and
      one digit), a non-empty run of whitespace, the hour, `:`, and the minute
      reaching the end of the string, each field denoting the value read. */
  lemma ClockFieldsLayout(s: string, i: nat)
    requires ClockFields(s, i).Ok?
    ensures var (day, hour, minute) := ClockFields(s, i).value;
      exists j: nat, k: nat, m: nat ::
        && (NumberAt(s, i, j, day) || (i < |s| && s[i] == ' ' && NumberAt(s, i + 1, j, day)))
        && j < k < |s| && (forall p :: j <= p < k ==> IsSpace(s[p]))
        && NumberAt(s, k, m, hour) && m < |s| && s[m] == ':'
        && NumberAt(s, m + 1, |s|, minute)
  {
    var (day, hour, minute) := ClockFields(s, i).value;
    var j, k, m := ClockFieldsSteps(s, i);
    SpaceRunIsBlank(s, j);
    assert NumberAt(s, i, j, day) || (i < |s| && s[i] == ' ' && NumberAt(s, i + 1, j, day));
    assert NumberAt(s, k, m, hour) && NumberAt(s, m + 1, |s|, minute);
  }

  /** The positions where `ClockFields` found each field. */
  lemma ClockFieldsSteps(s: string, i: nat) returns (j: nat, k: nat, m: nat)
    requires ClockFields(s, i).Ok?
    ensures DayField(s, i) == Some((ClockFields(s, i).value.0, j))
    ensures j < k <= |s| && k == j + SpaceRun(s, j)
    ensures HourField(s, k) == Some((ClockFields(s, i).value.1, m)) && m < |s| && s[m] == ':'
    ensures MinuteField(s, m + 1) == Some((ClockFields(s, i).value.2, |s|))
  {
    var day;
    day, j := DayField(s, i).value.0, DayField(s, i).value.1;
    assert ClockFields(s, i) == AfterDay(s, j, day);
    k := AfterDaySteps(s, j, day);
    var hour;
    hour, m := AfterSpaceSteps(s, k, day);
    AfterHourSteps(s, m, day, hour);
  }

  lemma AfterDaySteps(s: string, j: nat, day: int) returns (k: nat)
    requires j <= |s| && AfterDay(s, j, day).Ok?
    ensures j < k <= |s| && k == j + SpaceRun(s, j)
    ensures AfterDay(s, j, day) == AfterSpace(s, k, day)
  {
    k := j + SpaceRun(s, j);
  }

  lemma AfterSpaceSteps(s: string, k: nat, day: int) returns (hour: int, m: nat)
    requires AfterSpace(s, k, day).Ok?
    ensures HourField(s, k) == Some((hour, m)) && AfterSpace(s, k, day) == AfterHour(s, m, day, hour)
  {
    hour, m := HourField(s, k).value.0, HourField(s, k).value.1;
  }

  lemma AfterHourSteps(s: string, m: nat, day: int, hour: int)
    requires AfterHour(s, m, day, hour).Ok?
    ensures m < |s| && s[m] == ':'
    ensures MinuteField(s, m + 1) == Some((AfterHour(s, m, day, hour).value.2, |s|))
  {
  }

  /** `ClockFields` accepts a day, whitespace, an hour, `:` and a minute
      found where each ends the one before. */
  lemma ClockFieldsOfSteps(s: string, i: nat, day: int, j: nat, k: nat, hour: int, m: nat, minute: int)
    requires DayField(s, i) == Some((day, j))
    requires j < k <= |s| && SpaceRun(s, j) == k - j
    requires HourField(s, k) == Some((hour, m)) && m < |s| && s[m] == ':'
    requires MinuteField(s, m + 1) == Some((minute, |s|))
    ensures ClockFields(s, i) == Ok((day, hour, minute))
  {
    AfterHourOfMinute(s, m, day, hour, minute);
    AfterSpaceOfHour(s, k, day, hour, m);
    AfterDayOfSpaces(s, j, k, day);
    ClockFieldsOfDay(s, i, day, j, (day, hour, minute));
  }

  lemma ClockFieldsOfDay(s: string, i: nat, day: int, j: nat, x: (int, int, int))
    requires DayField(s, i) == Some((day, j)) && AfterDay(s, j, day) == Ok(x)
    ensures ClockFields(s, i) == Ok(x)
  {
  }

  lemma AfterDayOfSpaces(s: string, j: nat, k: nat, day: int)
    requires j < k <= |s| && SpaceRun(s, j) == k - j
    ensures AfterDay(s, j, day) == AfterSpace(s, k, day)
  {
  }

  lemma AfterSpaceOfHour(s: string, k: nat, day: int, hour: int, m: nat)
    requires HourField(s, k) == Some((hour, m))
    ensures AfterSpace(s, k, day) == AfterHour(s, m, day, hour)
  {
  }

  lemma AfterHourOfMinute(s: string, m: nat, day: int, hour: int, minute: int)
    requires m < |s| && s[m] == ':'
    requires MinuteField(s, m + 1) == Some((minute, |s|))
    ensures AfterHour(s, m, day, hour) == Ok((day, hour, minute))
  {
  }

  /** `cd_to_datetime` (helpers.py:14-25): `strptime(calendar_date, "%Y-%b-%d %H:%M")`.
      The pattern must match from the start and leave nothing over; the
      month is then looked up, and the fields checked as a calendar date. */
  function CdToDatetime(s: string): (r: Result<Timestamp, ParseError>)
    ensures r.Ok? ==> && 14 <= |s|
                      && AllDigits(s[..4]) && DigitsValue(s[..4]) == r.value.year
                      && s[4] == '-' && s[8] == '-'
                      && MonthNumber(s[5..8]) == Some(r.value.month)
                      && ClockFields(s, 9) == Ok((r.value.day, r.value.hour, r.value.minute))
    ensures r == Err(UnknownMonth) ==> 9 <= |s| && MonthMatches(s[5..8]) && MonthNumber(s[5..8]).None?
  {
    if |s| < 9 || !AllDigits(s[..4]) || s[4] != '-' || !MonthMatches(s[5..8]) || s[8] != '-' then
      Err(FormatMismatch)
    else
      match ClockFields(s, 9)
      case Err(e) => Err(e)
      case Ok((day, hour, minute)) =>
        match MonthNumber(s[5..8])
        case None => Err(UnknownMonth)
        case Some(month) =>
          var year := DigitsValue(s[..4]);
          if year == 0 then Err(YearOutOfRange)
          else if day > DaysInMonth(year, month) then Err(DayOutOfRange)
          else Ok(DateTime(year, month, day, hour, minute))
  }

  /** `datetime_to_str` (helpers.py:28-39): `strftime(dt, "%Y-%m-%d %H:%M")`. */
  function DatetimeToStr(t: Timestamp): (r: string)
    ensures |r| == 16
  {
    ZeroPad(t.year, 4) + "-" + ZeroPad(t.month, 2) + DayAndClock(t)
  }

  /** NASA's rendering of a timestamp, `YYYY-Mon-DD hh:mm`, the format the `cd`
      field of the close-approach data uses. */
  function NasaFormat(t: Timestamp): string
  {
    ZeroPad(t.year, 4) + "-" + MonthAbbreviations[t.month - 1] + DayAndClock(t)
  }

  /** What both renderings write after the month: `-DD hh:mm`. */
  function DayAndClock(t: Timestamp): string
  {
    "-" + ZeroPad(t.day, 2) + " " + ZeroPad(t.hour, 2) + ":" + ZeroPad(t.minute, 2)
  }

  /** The string `datetime_to_str` produces: zero-padded `YYYY-MM-DD hh:mm`, each
      field reading back as the timestamp's own value, and no seconds. */
  lemma DatetimeToStrFields(t: Timestamp)
    ensures var r := DatetimeToStr(t);
      && |r| == 16
      && r[4] == '-' && r[7] == '-' && r[10] == ' ' && r[13] == ':'
      && AllDigits(r[0..4]) && DigitsValue(r[0..4]) == t.year
      && AllDigits(r[5..7]) && DigitsValue(r[5..7]) == t.month
      && AllDigits(r[8..10]) && DigitsValue(r[8..10]) == t.day
      && AllDigits(r[11..13]) && DigitsValue(r[11..13]) == t.hour
      && AllDigits(r[14..16]) && DigitsValue(r[14..16]) == t.minute
  {
    var y, mo := ZeroPad(t.year, 4), ZeroPad(t.month, 2);
    var a, b, c := ZeroPad(t.day, 2), ZeroPad(t.hour, 2), ZeroPad(t.minute, 2);
    assert DatetimeToStr(t) == y + "-" + mo + ("-" + a + " " + b + ":" + c);
    StampLayout(y, mo, a, b, c);
    assert t.year < Pow10(4) && t.month < Pow10(2) by {
      assert Pow10(2) == 100 && Pow10(4) == 10000;
    }
  }

  /** Where each field of `YYYY-MM-DD hh:mm` sits. */
  lemma StampLayout(y: string, mo: string, a: string, b: string, c: string)
    requires |y| == 4 && |mo| == 2 && |a| == 2 && |b| == 2 && |c| == 2
    ensures var r := y + "-" + mo + ("-" + a + " " + b + ":" + c);
      && |r| == 16 && r[4] == '-' && r[7] == '-' && r[10] == ' ' && r[13] == ':'
      && r[0..4] == y && r[5..7] == mo && r[8..10] == a && r[11..13] == b && r[14..16] == c
  {
    var d := "-" + a + " " + b + ":" + c;
    var r := y + "-" + mo + d;
    ClockLayout(a, b, c);
    assert r[0..4] == y && r[5..7] == mo by {
      assert r[..7] == y + "-" + mo;
    }
    assert r[7..] == d;
    assert r[8..10] == d[1..3];
    assert r[11..13] == d[4..6];
    assert r[14..16] == d[7..9];
  }

  /** The characters both renderings write after the month. */
  lemma DayAndClockLayout(t: Timestamp)
    ensures var d := DayAndClock(t);
      && |d| == 9 && d[0] == '-' && d[3] == ' ' && d[6] == ':'
      && d[1..3] == ZeroPad(t.day, 2) && d[4..6] == ZeroPad(t.hour, 2) && d[7..9] == ZeroPad(t.minute, 2)
  {
    ClockLayout(ZeroPad(t.day, 2), ZeroPad(t.hour, 2), ZeroPad(t.minute, 2));
  }

  lemma ClockLayout(a: string, b: string, c: string)
    requires |a| == 2 && |b| == 2 && |c| == 2
    ensures var d := "-" + a + " " + b + ":" + c;
      && |d| == 9 && d[0] == '-' && d[3] == ' ' && d[6] == ':'
      && d[1..3] == a && d[4..6] == b && d[7..9] == c
  {
    var d := "-" + a + " " + b + ":" + c;
    assert d[1..3] == a by {
      assert d[..3] == "-" + a;
    }
    assert d[4..6] == b by {
      assert d[..6] == "-" + a + " " + b;
    }
    assert d[7..9] == c;
  }

  /** A two-digit field as `strftime` renders it, character by character. */
  lemma TwoDigits(n: nat)
    requires n < 100
    ensures ZeroPad(n, 2) == [DigitChar(n / 10), DigitChar(n % 10)]
  {
    assert ZeroPad(n / 10, 1) == [DigitChar(n / 10)];
  }

  /** Each abbreviation names its own month and no other. */
  lemma MonthNumberOfAbbreviation(month: int)
    requires 1 <= month <= 12
    ensures MonthNumber(MonthAbbreviations[month - 1]) == Some(month)
  {
    var s := MonthAbbreviations[month - 1];
    forall j | 0 <= j < month - 1 ensures Lower(s) != Lower(MonthAbbreviations[j]) {
      AbbreviationsDiffer(month - 1, j);
    }
    FindMonthFirst(Lower(s), 0, month);
  }

  lemma AbbreviationsDiffer(x: int, y: int)
    requires 0 <= x < 12 && 0 <= y < 12 && x != y
    ensures Lower(MonthAbbreviations[x]) != Lower(MonthAbbreviations[y])
  {
    var a, b := MonthAbbreviations[x], MonthAbbreviations[y];
    assert |a| == 3 && |b| == 3;
    assert Lower(a)[0] != Lower(b)[0] || Lower(a)[1] != Lower(b)[1] || Lower(a)[2] != Lower(b)[2];
  }

  lemma {:induction false} FindMonthFirst(lowered: string, k: nat, month: int)
    requires k < month <= 12
    requires lowered == Lower(MonthAbbreviations[month - 1])
    requires forall j :: k <= j < month - 1 ==> lowered != Lower(MonthAbbreviations[j])
    ensures FindMonth(lowered, k) == Some(month)
    decreases 12 - k
  {
    if k < month - 1 {
      FindMonthFirst(lowered, k + 1, month);
    }
  }

  lemma DayFieldOfTwoDigits(s: string, i: nat, n: int)
    requires 1 <= n <= 31 && i + 1 < |s|
    requires s[i] == DigitChar(n / 10) && s[i + 1] == DigitChar(n % 10)
    ensures DayField(s, i) == Some((n, i + 2))
  {
    assert DigitValue(s[i]) * 10 + DigitValue(s[i + 1]) == n;
    if n / 10 == 0 {
      assert s[i] == '0' && '1' <= s[i + 1] <= '9';
    } else if n / 10 == 3 {
      assert s[i] == '3' && '0' <= s[i + 1] <= '1';
    } else {
      assert '1' <= s[i] <= '2';
    }
  }

  lemma HourFieldOfTwoDigits(s: string, i: nat, n: int)
    requires 0 <= n <= 23 && i + 1 < |s|
    requires s[i] == DigitChar(n / 10) && s[i + 1] == DigitChar(n % 10)
    ensures HourField(s, i) == Some((n, i + 2))
  {
    assert DigitValue(s[i]) * 10 + DigitValue(s[i + 1]) == n;
    if n / 10 == 2 {
      assert s[i] == '2' && '0' <= s[i + 1] <= '3';
    } else {
      assert '0' <= s[i] <= '1';
    }
  }

  lemma MinuteFieldOfTwoDigits(s: string, i: nat, n: int)
    requires 0 <= n <= 59 && i + 1 < |s|
    requires s[i] == DigitChar(n / 10) && s[i + 1] == DigitChar(n % 10)
    ensures MinuteField(s, i) == Some((n, i + 2))
  {
    assert DigitValue(s[i]) * 10 + DigitValue(s[i + 1]) == n;
    assert '0' <= s[i] <= '5';
  }

  /** The characters of NASA's rendering, position by position. */
  lemma NasaFormatLayout(t: Timestamp)
    ensures var s := NasaFormat(t);
      && |s| == 17
      && s[..4] == ZeroPad(t.year, 4) && s[4] == '-'
      && s[5..8] == MonthAbbreviations[t.month - 1] && s[8] == '-'
      && s[9] == DigitChar(t.day / 10) && s[10] == DigitChar(t.day % 10)
      && s[11] == ' '
      && s[12] == DigitChar(t.hour / 10) && s[13] == DigitChar(t.hour % 10)
      && s[14] == ':'
      && s[15] == DigitChar(t.minute / 10) && s[16] == DigitChar(t.minute % 10)
  {
    var s := NasaFormat(t);
    var head := ZeroPad(t.year, 4) + "-" + MonthAbbreviations[t.month - 1];
    var d := DayAndClock(t);
    assert |MonthAbbreviations[t.month - 1]| == 3;
    assert s == head + d;
    assert s[..4] == ZeroPad(t.year, 4) && s[5..8] == MonthAbbreviations[t.month - 1] by {
      assert s[..8] == head;
    }
    DayAndClockLayout(t);
    TwoDigits(t.day);
    TwoDigits(t.hour);
    TwoDigits(t.minute);
    assert s[8..] == d;
    assert d[1] == d[1..3][0] && d[2] == d[1..3][1];
    assert d[4] == d[4..6][0] && d[5] == d[4..6][1];
    assert d[7] == d[7..9][0] && d[8] == d[7..9][1];
  }

  lemma ClockFieldsOfNasaFormat(t: Timestamp)
    ensures ClockFields(NasaFormat(t), 9) == Ok((t.day, t.hour, t.minute))
  {
    var s := NasaFormat(t);
    NasaFormatLayout(t);
    DayFieldOfTwoDigits(s, 9, t.day);
    assert SpaceRun(s, 11) == 1;
    HourFieldOfTwoDigits(s, 12, t.hour);
    MinuteFieldOfTwoDigits(s, 15, t.minute);
    ClockFieldsOfSteps(s, 9, t.day, 11, 12, t.hour, 14, t.minute);
  }

  /** Parsing NASA's rendering of a timestamp gives the timestamp back: no
      field is lost or altered, and nothing below the minute is invented. */
  lemma CdToDatetimeOfNasaFormat(t: Timestamp)
    ensures CdToDatetime(NasaFormat(t)) == Ok(t)
  {
    var s := NasaFormat(t);
    NasaFormatLayout(t);
    ClockFieldsOfNasaFormat(t);
    MonthNumberOfAbbreviation(t.month);
    MonthNumberMatches(s[5..8]);
    CdToDatetimeOfFields(s, t);
  }

  /** `cd_to_datetime` accepts a string whose pattern fields and month lookup
      give a valid date-time. */
  lemma CdToDatetimeOfFields(s: string, t: Timestamp)
    requires 9 <= |s| && s[4] == '-' && s[8] == '-'
    requires AllDigits(s[..4]) && DigitsValue(s[..4]) == t.year
    requires MonthMatches(s[5..8]) && MonthNumber(s[5..8]) == Some(t.month)
    requires ClockFields(s, 9) == Ok((t.day, t.hour, t.minute))
    ensures CdToDatetime(s) == Ok(t)
  {
  }

  /** `datetime_to_str` writes what NASA writes, except that the month is its
      two-digit number instead of its abbreviation. */
  lemma DatetimeToStrReplacesMonth(t: Timestamp)
    ensures var s := NasaFormat(t);
      DatetimeToStr(t) == s[..5] + ZeroPad(t.month, 2) + s[8..]
  {
    var s := NasaFormat(t);
    var head := ZeroPad(t.year, 4) + "-";
    assert |head| == 5 && |MonthAbbreviations[t.month - 1]| == 3;
    assert s == head + MonthAbbreviations[t.month - 1] + DayAndClock(t);
    assert s[..5] == head;
    assert s[8..] == DayAndClock(t);
  }

  /** The exact shape of NASA's `cd` field: `YYYY-Mon-DD hh:mm` with every
      numeric field at full width and the month spelled as NASA spells it. */
  predicate IsNasaCalendarDate(s: string)
  {
    && |s| == 17
    && AllDigits(s[..4]) && s[4] == '-' && s[5..8] in MonthAbbreviations && s[8] == '-'
    && AllDigits(s[9..11]) && s[11] == ' ' && AllDigits(s[12..14]) && s[14] == ':'
    && AllDigits(s[15..17])
  }

  lemma ClockFieldsOfNasaCalendarDate(s: string)
    requires IsNasaCalendarDate(s) && ClockFields(s, 9).Ok?
    ensures ClockFields(s, 9).value
         == (DigitsValue(s[9..11]), DigitsValue(s[12..14]), DigitsValue(s[15..17]))
  {
    assert IsDigit(s[9]) && IsDigit(s[10]) by {
      assert s[9..11][0] == s[9] && s[9..11][1] == s[10];
    }
    assert IsDigit(s[12]) && IsDigit(s[13]) by {
      assert s[12..14][0] == s[12] && s[12..14][1] == s[13];
    }
    ClockFieldsAtFullWidth(s);
  }

  /** A day and an hour written with two digits each leave one way to read
      the clock. */
  lemma ClockFieldsAtFullWidth(s: string)
    requires |s| == 17 && IsDigit(s[9]) && IsDigit(s[10]) && s[11] == ' '
    requires IsDigit(s[12]) && IsDigit(s[13]) && s[14] == ':'
    requires ClockFields(s, 9).Ok?
    ensures ClockFields(s, 9).value
         == (DigitsValue(s[9..11]), DigitsValue(s[12..14]), DigitsValue(s[15..17]))
  {
    var j, k, m := ClockFieldsSteps(s, 9);
    DayBeforeSpace(s, 9);
    assert SpaceRun(s, 11) == 1 by {
      assert !IsSpace(s[12]);
    }
    HourBeforeColon(s, 12);
  }

  /** A day that starts with two digits and is followed by whitespace was
      read at full width. */
  lemma DayBeforeSpace(s: string, i: nat)
    requires i + 1 < |s| && IsDigit(s[i]) && IsDigit(s[i + 1]) && DayField(s, i).Some?
    requires SpaceRun(s, DayField(s, i).value.1) > 0
    ensures DayField(s, i).value == (DigitsValue(s[i..i + 2]), i + 2)
  {
    assert !IsSpace(s[i + 1]);
  }

  /** An hour that starts with two digits and is followed by `:` was read
      at full width. */
  lemma HourBeforeColon(s: string, i: nat)
    requires i + 1 < |s| && IsDigit(s[i]) && IsDigit(s[i + 1]) && HourField(s, i).Some?
    requires HourField(s, i).value.1 < |s| && s[HourField(s, i).value.1] == ':'
    ensures HourField(s, i).value == (DigitsValue(s[i..i + 2]), i + 2)
  {
  }

  /** A NASA calendar date cut into its fields and separators. */
  lemma NasaCalendarDatePieces(s: string)
    requires IsNasaCalendarDate(s)
    ensures s == s[..4] + "-" + s[5..8] + ("-" + s[9..11] + " " + s[12..14] + ":" + s[15..17])
  {
  }

  /** The year and month `cd_to_datetime` reads from a NASA calendar date. */
  lemma YearAndMonthOfNasaCalendarDate(s: string, t: Timestamp)
    requires IsNasaCalendarDate(s) && CdToDatetime(s) == Ok(t)
    ensures ZeroPad(t.year, 4) == s[..4] && MonthAbbreviations[t.month - 1] == s[5..8]
  {
    var k :| 0 <= k < 12 && MonthAbbreviations[k] == s[5..8];
    MonthNumberOfAbbreviation(k + 1);
    ZeroPadOfDigits(s[..4]);
  }

  /** The day and time of day `cd_to_datetime` reads from a NASA calendar date. */
  lemma DayAndClockOfNasaCalendarDate(s: string, t: Timestamp)
    requires IsNasaCalendarDate(s) && CdToDatetime(s) == Ok(t)
    ensures DayAndClock(t) == "-" + s[9..11] + " " + s[12..14] + ":" + s[15..17]
  {
    ClockFieldsOfNasaCalendarDate(s);
    assert t.day == DigitsValue(s[9..11]);
    assert t.hour == DigitsValue(s[12..14]);
    assert t.minute == DigitsValue(s[15..17]);
    ZeroPadOfDigits(s[9..11]);
    ZeroPadOfDigits(s[12..14]);
    ZeroPadOfDigits(s[15..17]);
  }

  /** Every NASA calendar date that `cd_to_datetime` accepts is NASA's
      rendering of the timestamp it parses to. */
  lemma NasaFormatOfCdToDatetime(s: string, t: Timestamp)
    requires IsNasaCalendarDate(s) && CdToDatetime(s) == Ok(t)
    ensures NasaFormat(t) == s
  {
    NasaCalendarDatePieces(s);
    YearAndMonthOfNasaCalendarDate(s, t);
    DayAndClockOfNasaCalendarDate(s, t);
  }

  /** The round trip through both helpers: for a NASA calendar date that
      parses, `datetime_to_str(cd_to_datetime(s))` is `s` with the month
      abbreviation replaced by the month's two-digit number. */
  lemma DatetimeToStrOfCdToDatetime(s: string)
    requires IsNasaCalendarDate(s) && CdToDatetime(s).Ok?
    ensures DatetimeToStr(CdToDatetime(s).value)
         == s[..5] + ZeroPad(CdToDatetime(s).value.month, 2) + s[8..]
  {
    NasaFormatOfCdToDatetime(s, CdToDatetime(s).value);
    DatetimeToStrReplacesMonth(CdToDatetime(s).value);
  }

  lemma ExampleYear(y: string)
    requires y == "2020"
    ensures AllDigits(y) && DigitsValue(y) == 2020
  {
    assert IsDigit(y[0]) && IsDigit(y[1]) && IsDigit(y[2]) && IsDigit(y[3]);
    var a, b, c := y[..1], y[..2], y[..3];
    assert a[..0] == [] && b[..1] == a && c[..2] == b && y[..3] == c;
    assert DigitsValue(a) == 2;
    assert DigitsValue(b) == 20;
    assert DigitsValue(c) == 202;
  }

  lemma ExampleYearField(s: string)
    requires s == "2020-Dec-31 12:00"
    ensures AllDigits(s[..4]) && DigitsValue(s[..4]) == 2020
  {
    assert s[..4] == "2020";
    ExampleYear(s[..4]);
  }

  lemma ExampleMonthField(m: string)
    requires m == "Dec"
    ensures MonthNumber(m) == Some(12) && MonthMatches(m)
  {
    assert MonthAbbreviations[11] == "Dec";
    MonthNumberOfAbbreviation(12);
    MonthNumberMatches(m);
  }

  lemma ExampleClock(s: string)
    requires s == "2020-Dec-31 12:00"
    ensures ClockFields(s, 9) == Ok((31, 12, 0))
  {
    assert |s| == 17;
    assert s[9] == DigitChar(3) && s[10] == DigitChar(1);
    DayFieldOfTwoDigits(s, 9, 31);
    assert s[11] == ' ' && s[12] == DigitChar(1) && s[13] == DigitChar(2);
    assert SpaceRun(s, 11) == 1;
    HourFieldOfTwoDigits(s, 12, 12);
    assert s[14] == ':' && s[15] == DigitChar(0) && s[16] == DigitChar(0);
    MinuteFieldOfTwoDigits(s, 15, 0);
    ClockFieldsOfSteps(s, 9, 31, 11, 12, 12, 14, 0);
  }

  /** The example of helpers.py:17-20. */
  lemma CdToDatetimeExample()
    ensures CdToDatetime("2020-Dec-31 12:00") == Ok(DateTime(2020, 12, 31, 12, 0))
  {
    var s := "2020-Dec-31 12:00";
    ExampleYearField(s);
    assert s[4] == '-' && s[8] == '-' && s[5..8] == "Dec";
    ExampleMonthField(s[5..8]);
    ExampleClock(s);
    ExampleValid();
    var t: Timestamp := DateTime(2020, 12, 31, 12, 0);
    CdToDatetimeOfFields(s, t);
  }

  lemma ExampleValid()
    ensures ValidDateTime(DateTime(2020, 12, 31, 12, 0))
  {
    assert DaysInMonth(2020, 12) == 31;
  }

  /** The `%b` group matches `ſep` (a long s for the `s`), but the month
      lookup of its lower case finds nothing. */
  lemma LongSMonth(m: string)
    requires m == "\U{17F}ep"
    ensures MonthMatches(m) && MonthNumber(m).None?
  {
    assert MonthAbbreviations[8] == "Sep";
    assert MatchesIgnoringCase(m, MonthAbbreviations[8]);
    assert Lower(m)[0] == '\U{17F}';
    forall j | 0 <= j < 12 ensures Lower(m) != Lower(MonthAbbreviations[j]) {
      assert Lower(MonthAbbreviations[j])[0] != '\U{17F}';
    }
  }

  /** A string the pattern matches in full, whose month the lookup does not
      find, raises the lookup's `ValueError`. */
  lemma CdToDatetimeOfUnknownMonth(s: string, clock: (int, int, int))
    requires 9 <= |s| && s[4] == '-' && s[8] == '-' && AllDigits(s[..4])
    requires MonthMatches(s[5..8]) && MonthNumber(s[5..8]).None?
    requires ClockFields(s, 9) == Ok(clock)
    ensures CdToDatetime(s) == Err(UnknownMonth)
  {
  }

  lemma LongSClock(s: string)
    requires s == "2020-\U{17F}ep-01 12:00"
    ensures ClockFields(s, 9) == Ok((1, 12, 0))
  {
    assert |s| == 17;
    assert s[9] == DigitChar(0) && s[10] == DigitChar(1);
    DayFieldOfTwoDigits(s, 9, 1);
    assert s[11] == ' ' && s[12] == DigitChar(1) && s[13] == DigitChar(2);
    assert SpaceRun(s, 11) == 1;
    HourFieldOfTwoDigits(s, 12, 12);
    assert s[14] == ':' && s[15] == DigitChar(0) && s[16] == DigitChar(0);
    MinuteFieldOfTwoDigits(s, 15, 0);
    ClockFieldsOfSteps(s, 9, 1, 11, 12, 12, 14, 0);
  }

  /** `2020-ſep-01 12:00` raises `ValueError` instead of reading September. */
  lemma LongSMonthRejected()
    ensures CdToDatetime("2020-\U{17F}ep-01 12:00") == Err(UnknownMonth)
  {
    var s := "2020-\U{17F}ep-01 12:00";
    assert s[..4] == "2020";
    ExampleYear(s[..4]);
    assert s[4] == '-' && s[8] == '-';
    LongSMonth(s[5..8]);
    LongSClock(s);
    CdToDatetimeOfUnknownMonth(s, (1, 12, 0));
  }
}
