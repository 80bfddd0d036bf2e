/**
 * The calendar side: `new_event` turns a record into an all-day event on
 * the record's UTC date, `new_ical` is the fixed calendar container, and
 * `make_ical` puts the event built from the fetched record into it.
 * Calendar components are plain records of their property values.
 */
module Calendar {
  import opened Wrappers
  import opened Civil
  import opened Decimal
  import opened UtcTime
  import opened Payload
  import opened Errors
  import opened Fetch

  /** A VEVENT: its summary, all-day span, uid and timestamps */
  datatype Event = Event(
    summary: string,
    dtstart: Date,
    dtend: Date,
    uid: string,
    dtstamp: DateTime,
    lastModified: DateTime)

  /**
   * A VCALENDAR: its fixed properties, the zone its embedded VTIMEZONE
   * describes, and its events.
   */
  datatype Calendar = Calendar(
    dtstart: string,
    summary: string,
    prodid: string,
    calname: string,
    timezone: string,
    events: seq<Event>)

  /** The calendar's title, "national novel pneumonia outbreak real-time calendar" */
  const CalendarTitle := "全国新型肺炎疫情实时日历"

  /** The labels of the summary line: "daily report, confirmed", "suspected", "dead", "cured" */
  const ConfirmedLabel := "新型肺炎日报 确诊:"
  const SuspectedLabel := "/疑似:"
  const DeadLabel := "/死亡:"
  const CuredLabel := "/治愈:"

  /**
   * The daily summary line: confirmed, suspected, dead and cured counts, in
   * that order, each after its own label. Reading the line back recovers
   * all four counts.
   */
  function Summary(confirmed: nat, suspected: nat, dead: nat, cured: nat): (s: string)
    ensures ParseSummary(s) == Some((confirmed, suspected, dead, cured))
  {
    var last := Labelled(CuredLabel, cured, "");
    var third := Labelled(DeadLabel, dead, last);
    var second := Labelled(SuspectedLabel, suspected, third);
    var s := Labelled(ConfirmedLabel, confirmed, second);
    ParseSummaryOf(s, second, third, last, confirmed, suspected, dead, cured);
    s
  }

  /** A label, the decimal text of n, then rest; it reads back as n followed by rest */
  function Labelled(lead: string, n: nat, rest: string): (s: string)
    requires |rest| == 0 || rest[0] == '/'
    ensures ReadCount(s, lead) == Some((n, rest))
    ensures |lead| > 0 ==> |s| > 0 && s[0] == lead[0]
  {
    ReadCountOf(lead, n, rest);
    lead + (ToDecimal(n) + rest)
  }

  /** Four labelled counts read off in turn, with nothing after the last, make a summary line */
  lemma ParseSummaryOf(s: string, r1: string, r2: string, r3: string, c: nat, p: nat, d: nat, u: nat)
    requires ReadCount(s, ConfirmedLabel) == Some((c, r1)) && ReadCount(r1, SuspectedLabel) == Some((p, r2))
    requires ReadCount(r2, DeadLabel) == Some((d, r3)) && ReadCount(r3, CuredLabel) == Some((u, ""))
    ensures ParseSummary(s) == Some((c, p, d, u))
  {
  }

  /**
   * Reads the label `lead` followed by the decimal text of a number off the
   * front of s: a run of digits with no leading zero, as `str` writes it.
   * Returns the number and what follows the digits.
   */
  function ReadCount(s: string, lead: string): (r: Option<(nat, string)>)
    ensures r.Some? ==> s == lead + (ToDecimal(r.value.0) + r.value.1)
    ensures r.Some? ==> |r.value.1| == 0 || !IsDigit(r.value.1[0])
  {
    if |s| < |lead| || s[..|lead|] != lead then None
    else
      var t := s[|lead|..];
      var k := DigitRun(t);
      if k == 0 || (t[0] == '0' && k > 1) then None
      else
        var digits := t[..k];
        CanonicalDecimal(digits);
        assert s == lead + (digits + t[k..]);
        Some((FromDecimal(digits), t[k..]))
  }

  /** The four counts of a summary line, or None when s is not one */
  function ParseSummary(s: string): Option<(nat, nat, nat, nat)> {
    match ReadCount(s, ConfirmedLabel)
    case None => None
    case Some((c, r1)) =>
      match ReadCount(r1, SuspectedLabel)
      case None => None
      case Some((p, r2)) =>
        match ReadCount(r2, DeadLabel)
        case None => None
        case Some((d, r3)) =>
          match ReadCount(r3, CuredLabel)
          case None => None
          case Some((u, r4)) => if r4 == "" then Some((c, p, d, u)) else None
  }

  /** A label, the decimal text of n and a rest that starts with '/' read back as n and that rest */
  lemma ReadCountOf(lead: string, n: nat, rest: string)
    requires |rest| == 0 || rest[0] == '/'
    ensures ReadCount(lead + (ToDecimal(n) + rest), lead) == Some((n, rest))
  {
    var digits := ToDecimal(n);
    var s := lead + (digits + rest);
    assert s[..|lead|] == lead;
    var t := s[|lead|..];
    assert t == digits + rest;
    DigitRunOf(digits, rest);
    assert t[..|digits|] == digits && t[|digits|..] == rest;
  }

  /**
   * The date part of `datetime + timedelta(days=1)`: one is added to the
   * ordinal, which must stay within the last day a date can hold.
   */
  function DayAfter(d: Date): (r: Option<Date>)
    requires IsValid(d)
    ensures r.Some? <==> Ordinal(d) + 1 <= MaxOrdinal
    ensures r.Some? ==> r.value == NextDay(d)
  {
    var tomorrow := Ordinal(d) + 1;
    if tomorrow > MaxOrdinal then None
    else
      SuccessorOrdinal(d, Ordinal(d));
      Some(FromOrdinal(tomorrow))
  }

  /**
   * `new_event`: an all-day event from the record's UTC date to the next
   * date. Fails where the date library does: the record's instant is past
   * year 9999, or the day after it is.
   */
  function NewEvent(record: Record): (r: Result<Event, Error>)
    ensures r.Success? <==> record.updatedAtUnixTimestamp < LastDayTimestamp
    ensures r.Failure? ==> r.error == DateOutOfRange
    ensures r.Success? ==>
      var e := r.value;
      && IsValid(e.dtstart) && e.dtend == NextDay(e.dtstart)
      && e.dtstart == FromTimestamp(record.updatedAtUnixTimestamp).date
      && e.uid == record.uid
      && e.dtstamp == e.lastModified
      && IsValidDateTime(e.dtstamp) && ToTimestamp(e.dtstamp) == record.updatedAtUnixTimestamp
      && e.summary == Summary(record.confirmed, record.suspected, record.dead, record.cured)
  {
    var time := FromTimestamp(record.updatedAtUnixTimestamp);
    YearInRange(record.updatedAtUnixTimestamp);
    NextDayInRange(record.updatedAtUnixTimestamp);
    if time.date.year > MaxYear then
      Failure(DateOutOfRange)
    else
      match DayAfter(time.date)
      case None => Failure(DateOutOfRange)
      case Some(tomorrow) =>
        var summary := Summary(record.confirmed, record.suspected, record.dead, record.cured);
        Success(Event(summary, time.date, tomorrow, record.uid, time, time))
  }

  /** `new_ical`: the container with its fixed properties and no events yet */
  function NewIcal(): (c: Calendar)
    ensures c.events == [] && c.summary == c.calname
  {
    Calendar(
      dtstart := "20200120T080000",
      summary := CalendarTitle,
      prodid := "n-Cov-ical",
      calname := CalendarTitle,
      timezone := "Asia/Shanghai",
      events := [])
  }

  /** `make_ical`: the fixed container holding the one event built from the fetched record */
  function MakeIcal(status: int, body: Body): (r: Result<Calendar, Error>)
    ensures r.Success? <==>
      FetchLatestData(status, body).Success? && NewEvent(FetchLatestData(status, body).value).Success?
    ensures r.Success? ==>
      && r.value == NewIcal().(events := r.value.events)
      && r.value.events == [NewEvent(FetchLatestData(status, body).value).value]
    ensures r.Failure? && FetchLatestData(status, body).Failure? ==> r.error == FetchLatestData(status, body).error
    ensures r.Failure? && FetchLatestData(status, body).Success? ==> r.error == DateOutOfRange
  {
    var record :- FetchLatestData(status, body);
    var event :- NewEvent(record);
    Success(NewIcal().(events := [event]))
  }

  // ---------------------------------------------------------------------
  // Properties of the calendar step
  // ---------------------------------------------------------------------

  /** Every line that reads back as four counts is the summary of those counts */
  lemma SummaryOfParse(s: string)
    requires ParseSummary(s).Some?
    ensures var (c, p, d, u) := ParseSummary(s).value; Summary(c, p, d, u) == s
  {
    var (c, r1) := ReadCount(s, ConfirmedLabel).value;
    var (p, r2) := ReadCount(r1, SuspectedLabel).value;
    var (d, r3) := ReadCount(r2, DeadLabel).value;
    var (u, r4) := ReadCount(r3, CuredLabel).value;
    LabelledText(CuredLabel, u, "", ToDecimal(u), r3);
    LabelledText(DeadLabel, d, r3, ToDecimal(d), r2);
    LabelledText(SuspectedLabel, p, r2, ToDecimal(p), r1);
    LabelledText(ConfirmedLabel, c, r1, ToDecimal(c), s);
  }

  /** The labelled count whose decimal text is known */
  lemma LabelledText(lead: string, n: nat, rest: string, digits: string, text: string)
    requires |rest| == 0 || rest[0] == '/'
    requires ToDecimal(n) == digits && text == lead + (digits + rest)
    ensures Labelled(lead, n, rest) == text
  {
  }

  /** The summary determines all four counts: no two different snapshots share a summary */
  lemma SummaryInjective(c1: nat, s1: nat, d1: nat, u1: nat, c2: nat, s2: nat, d2: nat, u2: nat)
    requires Summary(c1, s1, d1, u1) == Summary(c2, s2, d2, u2)
    ensures c1 == c2 && s1 == s2 && d1 == d2 && u1 == u2
  {
    var a, b := Summary(c1, s1, d1, u1), Summary(c2, s2, d2, u2);
    assert ParseSummary(a) == ParseSummary(b);
  }

  /** The event's stamp is the update instant itself, the one datetime with that timestamp */
  lemma EventStampIsUpdateTime(record: Record)
    requires record.updatedAtUnixTimestamp < LastDayTimestamp
    ensures NewEvent(record).Success?
    ensures NewEvent(record).value.dtstamp == FromTimestamp(record.updatedAtUnixTimestamp)
    ensures NewEvent(record).value.lastModified == FromTimestamp(record.updatedAtUnixTimestamp)
  {
    TimestampRoundTrip(NewEvent(record).value.dtstamp);
  }

  /**
   * In a calendar built from a response, the event's uid names the event's
   * own start date, and the event ends on the following day.
   */
  lemma EventUidNamesStartDate(status: int, body: Body)
    requires Validate(status, body).Success? && body.results.value[0][UpdateTime] < LastDayTimestamp * 1000
    ensures MakeIcal(status, body).Success?
    ensures var e := MakeIcal(status, body).value.events[0];
      IsValid(e.dtstart) && IsUidFor(e.uid, e.dtstart) && e.dtend == NextDay(e.dtstart)
  {
    var record := FetchLatestData(status, body).value;
    var row := Validate(status, body).value;
    assert ParseData(row) == FetchLatestData(status, body);
  }

  /** A record parsed from a row gets an event unless its update time falls on 9999-12-31 */
  lemma EventExistsBeforeLastDay(row: Row)
    requires HasFields(row) && row[UpdateTime] < MaxTimestamp * 1000
    ensures ParseData(row).Success?
    ensures NewEvent(ParseData(row).value).Success? <==> row[UpdateTime] < LastDayTimestamp * 1000
  {
  }

  /** 1579500000 s is 2020-01-20 06:00:00 UTC */
  lemma InstantAt(seconds: nat, t: DateTime)
    requires seconds == 1579500000 && t == DateTime(Date(2020, 1, 20), 6, 0, 0)
    ensures FromTimestamp(seconds) == t
  {
    DaysBeforeYearClosedForm(2020);
    assert Ordinal(t.date) == 18281 + EpochOrdinal;
    TimestampRoundTrip(t);
  }

  lemma ExampleYearPad()
    ensures ZeroPad(2020, 4) == "2020"
  {
  }

  lemma ExampleTwoDigitPads()
    ensures ZeroPad(1, 2) == "01" && ZeroPad(20, 2) == "20"
    ensures ZeroPad(6, 2) == "06" && ZeroPad(0, 2) == "00"
  {
    assert ZeroPad(1, 2) == "01";
    assert ZeroPad(20, 2) == "20";
    assert ZeroPad(6, 2) == "06";
  }

  lemma ExampleDateText(d: Date, y: string, m: string, dd: string)
    requires d == Date(2020, 1, 20) && y == "2020" && m == "01" && dd == "20"
    ensures IsPrintable(d) && FormatDate(d) == y + "-" + m + "-" + dd
  {
    ExampleYearPad();
    ExampleTwoDigitPads();
  }

  lemma ExampleTimeText(t: DateTime, h: string, z: string)
    requires t == DateTime(Date(2020, 1, 20), 6, 0, 0) && h == "06" && z == "00"
    ensures IsValidDateTime(t) && FormatTime(t) == h + ":" + z + ":" + z
  {
    ExampleTwoDigitPads();
  }

  /** The two texts of 2020-01-20 06:00:00 */
  lemma ExampleTexts(t: DateTime)
    requires t == DateTime(Date(2020, 1, 20), 6, 0, 0)
    ensures IsValidDateTime(t) && IsPrintable(t.date)
    ensures FormatDate(t.date) == "2020-01-20" && FormatDateTime(t) == "2020-01-20 06:00:00"
  {
    ExampleDateText(t.date, "2020", "01", "20");
    ExampleTimeText(t, "06", "00");
    assert "2020" + "-" + "01" + "-" + "20" == "2020-01-20";
    assert "06" + ":" + "00" + ":" + "00" == "06:00:00";
    assert FormatDateTime(t) == FormatDate(t.date) + " " + FormatTime(t);
  }

  /** The summary line of the worked example, "新型肺炎日报 确诊:100/疑似:50/死亡:2/治愈:10" */
  const WorkedSummary := ConfirmedLabel + ("100" + (SuspectedLabel + ("50" + (DeadLabel + ("2" + (CuredLabel + "10"))))))

  lemma ExampleSummary(confirmed: nat, suspected: nat, dead: nat, cured: nat)
    requires confirmed == 100 && suspected == 50 && dead == 2 && cured == 10
    ensures Summary(confirmed, suspected, dead, cured) == WorkedSummary
  {
    var last := CuredLabel + "10";
    var third := DeadLabel + ("2" + last);
    var second := SuspectedLabel + ("50" + third);
    LabelledText(CuredLabel, cured, "", "10", last);
    LabelledText(DeadLabel, dead, last, "2", third);
    LabelledText(SuspectedLabel, suspected, third, "50", second);
    LabelledText(ConfirmedLabel, confirmed, second, "100", WorkedSummary);
  }

  /** What `parse_data` returns for a row whose update time falls at `time` */
  lemma ParsedAt(row: Row, time: DateTime)
    requires HasFields(row) && FromTimestamp(row[UpdateTime] / 1000) == time
    requires time.date.year <= MaxYear
    ensures IsValidDateTime(time) && IsPrintable(time.date)
    ensures ParseData(row) == Success(Record(
      row[ConfirmedCount], row[SuspectedCount], row[CuredCount], row[DeadCount],
      UidPrefix + FormatDate(time.date), FormatDateTime(time), row[UpdateTime] / 1000))
  {
  }

  /** The record of the worked example */
  lemma ExampleRecord(row: Row)
    requires HasFields(row) && row[UpdateTime] == 1579500000000
    requires row[ConfirmedCount] == 100 && row[SuspectedCount] == 50
    requires row[CuredCount] == 10 && row[DeadCount] == 2
    ensures ParseData(row)
         == Success(Record(100, 50, 10, 2, UidPrefix + "2020-01-20", "2020-01-20 06:00:00", 1579500000))
  {
    var time := DateTime(Date(2020, 1, 20), 6, 0, 0);
    InstantAt(row[UpdateTime] / 1000, time);
    ExampleTexts(time);
    ParsedAt(row, time);
  }

  /** What `new_event` returns for a record whose instant is `time`, before 9999-12-31 */
  lemma EventAt(record: Record, time: DateTime)
    requires FromTimestamp(record.updatedAtUnixTimestamp) == time
    requires record.updatedAtUnixTimestamp < LastDayTimestamp
    ensures IsValid(time.date)
    ensures NewEvent(record) == Success(Event(
      Summary(record.confirmed, record.suspected, record.dead, record.cured),
      time.date, NextDay(time.date), record.uid, time, time))
  {
    EventStampIsUpdateTime(record);
  }

  /** The event of the worked example */
  lemma ExampleEvent(record: Record)
    requires record == Record(100, 50, 10, 2, UidPrefix + "2020-01-20", "2020-01-20 06:00:00", 1579500000)
    ensures NewEvent(record)
         == Success(Event(
              WorkedSummary, Date(2020, 1, 20), Date(2020, 1, 21), UidPrefix + "2020-01-20",
              DateTime(Date(2020, 1, 20), 6, 0, 0), DateTime(Date(2020, 1, 20), 6, 0, 0)))
  {
    var time := DateTime(Date(2020, 1, 20), 6, 0, 0);
    ExampleSummary(record.confirmed, record.suspected, record.dead, record.cured);
    InstantAt(record.updatedAtUnixTimestamp, time);
    assert NextDay(time.date) == Date(2020, 1, 21);
    EventAt(record, time);
  }

  /**
   * The worked example: 100 confirmed, 50 suspected, 10 cured and 2 dead,
   * updated at 1579500000000 ms, gives the uid of 2020-01-20 and the
   * summary with the counts in confirmed, suspected, dead, cured order.
   */
  lemma WorkedExample(row: Row)
    requires HasFields(row) && row[UpdateTime] == 1579500000000
    requires row[ConfirmedCount] == 100 && row[SuspectedCount] == 50
    requires row[CuredCount] == 10 && row[DeadCount] == 2
    ensures MakeIcal(200, Body(Some(Bool(true)), Some([row])))
         == Success(NewIcal().(events := [Event(
              WorkedSummary, Date(2020, 1, 20), Date(2020, 1, 21), UidPrefix + "2020-01-20",
              DateTime(Date(2020, 1, 20), 6, 0, 0), DateTime(Date(2020, 1, 20), 6, 0, 0))]))
  {
    var body := Body(Some(Bool(true)), Some([row]));
    assert Validate(200, body) == Success(row);
    ExampleRecord(row);
    ExampleEvent(ParseData(row).value);
  }
}
