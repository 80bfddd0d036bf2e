/**
 * UTC date-times as `datetime.utcfromtimestamp` produces them from a whole
 * number of seconds since 1970-01-01 00:00:00, and the two `strftime`
 * formats the record uses: `%Y-%m-%d` and `%Y-%m-%d %H:%M:%S`.
 */
module UtcTime {
  import opened Civil
  import opened Decimal
  import opened Arith

  const SecondsPerDay := 86400

  /** Ordinal of 1970-01-01, the first day of Unix time */
  const EpochOrdinal := 719163

  /** First second of the year 10000: `utcfromtimestamp` refuses this and later */
  const MaxTimestamp := 253402300800

  /** First second of 9999-12-31: adding a day to this or later overflows */
  const LastDayTimestamp := 253402214400

  datatype DateTime = DateTime(date: Date, hour: int, minute: int, second: int)

  predicate IsValidDateTime(t: DateTime) {
    IsValid(t.date) && 0 <= t.hour < 24 && 0 <= t.minute < 60 && 0 <= t.second < 60
  }

  /** Seconds since the Unix epoch of a date-time read as UTC */
  function ToTimestamp(t: DateTime): int
    requires IsValid(t.date)
  {
    (Ordinal(t.date) - EpochOrdinal) * SecondsPerDay + t.hour * 3600 + t.minute * 60 + t.second
  }

  lemma EpochOrdinalIsJanuaryFirst1970()
    ensures IsValid(Date(1970, 1, 1)) && Ordinal(Date(1970, 1, 1)) == EpochOrdinal
    ensures DaysBeforeYear(1970) == EpochOrdinal - 1
  {
    DaysBeforeYearClosedForm(1970);
  }

  /** Every date on or after the epoch day is in 1970 or later */
  lemma AfterEpochYear(d: Date)
    requires IsValid(d) && EpochOrdinal <= Ordinal(d)
    ensures 1970 <= d.year
  {
    EpochOrdinalIsJanuaryFirst1970();
    YearBelowByOrdinal(d, 1970);
  }

  /** The date `days` days after 1970-01-01 */
  function DateOfDay(days: nat): (d: Date)
    ensures IsValid(d) && Ordinal(d) == days + EpochOrdinal
    ensures 1970 <= d.year
  {
    FromOrdinalCorrect(days + EpochOrdinal);
    AfterEpochYear(FromOrdinal(days + EpochOrdinal));
    FromOrdinal(days + EpochOrdinal)
  }

  /**
   * The UTC date and time t seconds after the epoch: whole days move the
   * date forward from 1970-01-01, the remainder is the time of day.
   */
  function FromTimestamp(t: nat): (r: DateTime)
    ensures IsValidDateTime(r) && ToTimestamp(r) == t
    ensures 1970 <= r.date.year
  {
    var secs := t % SecondsPerDay;
    DateTime(DateOfDay(t / SecondsPerDay), secs / 3600, secs % 3600 / 60, secs % 60)
  }

  /**
   * A valid date-time at or after the epoch is the one FromTimestamp gives
   * for its own timestamp: no other valid date-time has that timestamp.
   */
  lemma TimestampRoundTrip(t: DateTime)
    requires IsValidDateTime(t) && ToTimestamp(t) >= 0
    ensures FromTimestamp(ToTimestamp(t)) == t
  {
    var ts := ToTimestamp(t);
    var days := Ordinal(t.date) - EpochOrdinal;
    var secs := t.hour * 3600 + t.minute * 60 + t.second;
    assert 0 <= secs < SecondsPerDay;
    assert ts == days * SecondsPerDay + secs;
    DivModUnique(ts, SecondsPerDay, days, secs);
    var r := FromTimestamp(ts);
    assert Ordinal(r.date) == Ordinal(t.date);
    OrdinalInjective(r.date, t.date);
    DivModUnique(secs, 3600, t.hour, t.minute * 60 + t.second);
    DivModUnique(t.minute * 60 + t.second, 60, t.minute, t.second);
  }

  /** Two instants fall on the same UTC date exactly when they lie in the same 86400-second day */
  lemma SameDateIffSameDay(t1: nat, t2: nat)
    ensures FromTimestamp(t1).date == FromTimestamp(t2).date <==> t1 / SecondsPerDay == t2 / SecondsPerDay
  {
    var d1, d2 := FromTimestamp(t1).date, FromTimestamp(t2).date;
    assert Ordinal(d1) == t1 / SecondsPerDay + EpochOrdinal;
    assert Ordinal(d2) == t2 / SecondsPerDay + EpochOrdinal;
  }

  lemma DaysBeforeYear10000()
    ensures DaysBeforeYear(10000) == MaxOrdinal
  {
    DaysBeforeYearClosedForm(10000);
  }

  /** The date of t has a year Python can hold exactly when t is before year 10000 */
  lemma YearInRange(t: nat)
    ensures FromTimestamp(t).date.year <= MaxYear <==> t < MaxTimestamp
  {
    var d := FromTimestamp(t).date;
    assert Ordinal(d) == t / SecondsPerDay + EpochOrdinal;
    YearBelowByOrdinal(d, MaxYear + 1);
    DaysBeforeYear10000();
  }

  /** The day after the date of t is still a Python date exactly when t is before 9999-12-31 */
  lemma NextDayInRange(t: nat)
    ensures Ordinal(FromTimestamp(t).date) + 1 <= MaxOrdinal <==> t < LastDayTimestamp
  {
    var d := FromTimestamp(t).date;
    assert Ordinal(d) == t / SecondsPerDay + EpochOrdinal;
  }

  // ---------------------------------------------------------------------
  // strftime
  // ---------------------------------------------------------------------

  /** A date `strftime` can write with a four-digit year */
  predicate IsPrintable(d: Date) {
    IsValid(d) && 1000 <= d.year <= MaxYear
  }

  /** Text shaped like `YYYY-MM-DD` */
  predicate IsDateText(s: string) {
    |s| == 10 && s[4] == '-' && s[7] == '-' && IsDigits(s[..4]) && IsDigits(s[5..7]) && IsDigits(s[8..])
  }

  /** Text shaped like `YYYY-MM-DD HH:MM:SS` */
  predicate IsDateTimeText(s: string) {
    && |s| == 19 && IsDateText(s[..10]) && s[10] == ' '
    && s[13] == ':' && s[16] == ':'
    && IsDigits(s[11..13]) && IsDigits(s[14..16]) && IsDigits(s[17..])
  }

  /** `strftime('%Y-%m-%d')` */
  function FormatDate(d: Date): (s: string)
    requires IsPrintable(d)
    ensures IsDateText(s) && ParseDate(s) == d
  {
    var y, m, dd := ZeroPad(d.year, 4), ZeroPad(d.month, 2), ZeroPad(d.day, 2);
    var s := y + "-" + m + "-" + dd;
    assert s[..4] == y && s[5..7] == m && s[8..] == dd;
    s
  }

  /** Reads back the text `strftime('%Y-%m-%d')` writes */
  function ParseDate(s: string): Date
    requires IsDateText(s)
  {
    Date(FromDecimal(s[..4]), FromDecimal(s[5..7]), FromDecimal(s[8..]))
  }

  /** Date texts that read back as the same date are the same text */
  lemma ParseDateInjective(s1: string, s2: string)
    requires IsDateText(s1) && IsDateText(s2)
    requires ParseDate(s1) == ParseDate(s2)
    ensures s1 == s2
  {
    FixedWidthInjective(s1[..4], s2[..4]);
    FixedWidthInjective(s1[5..7], s2[5..7]);
    FixedWidthInjective(s1[8..], s2[8..]);
    assert s1 == s1[..4] + "-" + s1[5..7] + "-" + s1[8..];
    assert s2 == s2[..4] + "-" + s2[5..7] + "-" + s2[8..];
  }

  /** `strftime('%H:%M:%S')` */
  function FormatTime(t: DateTime): (s: string)
    requires IsValidDateTime(t)
    ensures |s| == 8 && s[2] == ':' && s[5] == ':'
    ensures IsDigits(s[..2]) && IsDigits(s[3..5]) && IsDigits(s[6..])
    ensures FromDecimal(s[..2]) == t.hour && FromDecimal(s[3..5]) == t.minute && FromDecimal(s[6..]) == t.second
  {
    var h, m, sec := ZeroPad(t.hour, 2), ZeroPad(t.minute, 2), ZeroPad(t.second, 2);
    var s := h + ":" + m + ":" + sec;
    assert s[..2] == h && s[3..5] == m && s[6..] == sec;
    s
  }

  /** `strftime('%Y-%m-%d %H:%M:%S')`; it starts with the `%Y-%m-%d` text of the same date */
  function FormatDateTime(t: DateTime): (s: string)
    requires IsValidDateTime(t) && IsPrintable(t.date)
    ensures IsDateTimeText(s) && s[..10] == FormatDate(t.date)
    ensures ParseDateTime(s) == t
  {
    var date, time := FormatDate(t.date), FormatTime(t);
    var s := date + " " + time;
    assert s[..10] == date && s[11..] == time;
    assert s[11..13] == time[..2] && s[14..16] == time[3..5] && s[17..] == time[6..];
    s
  }

  /** Reads back the text `strftime('%Y-%m-%d %H:%M:%S')` writes */
  function ParseDateTime(s: string): DateTime
    requires IsDateTimeText(s)
  {
    DateTime(ParseDate(s[..10]), FromDecimal(s[11..13]), FromDecimal(s[14..16]), FromDecimal(s[17..]))
  }

  /** Date-time texts that read back as the same date-time are the same text */
  lemma ParseDateTimeInjective(s1: string, s2: string)
    requires IsDateTimeText(s1) && IsDateTimeText(s2)
    requires ParseDateTime(s1) == ParseDateTime(s2)
    ensures s1 == s2
  {
    ParseDateInjective(s1[..10], s2[..10]);
    FixedWidthInjective(s1[11..13], s2[11..13]);
    FixedWidthInjective(s1[14..16], s2[14..16]);
    FixedWidthInjective(s1[17..], s2[17..]);
    assert s1 == s1[..10] + " " + s1[11..13] + ":" + s1[14..16] + ":" + s1[17..];
    assert s2 == s2[..10] + " " + s2[11..13] + ":" + s2[14..16] + ":" + s2[17..];
  }
}
