# 2019-n-Cov-iCal in Dafny

A model of `n-cov-ical.py`, the script that turns the latest nationwide
2019-nCoV statistics into a one-event iCalendar file. The script does four
things:

- It validates the response of the statistics API in `fetch_latest_data`.
  It checks the status code, the `success` flag, the `results` list and the
  five required fields of the first result, in that order.
- `parse_data` normalises that first result into a record. The record holds
  the four counts and a uid named after the UTC date of the update time. It
  also holds the update time as `%Y-%m-%d %H:%M:%S` text and as whole
  seconds.
- `new_event` builds an all-day event from the record. The event runs from
  the record's UTC date to the next day. Its summary lists the counts.
- `new_ical` builds the fixed calendar container, and `make_ical` puts the
  one event into it.

Modules:

- `Wrappers`: `Option` and `Result`.
- `Civil`: the proleptic Gregorian calendar of Python's `datetime`. This
  covers ordinals and the day after a date. It also covers the
  400/100/4/1-year cycle conversion from an ordinal back to a date, proved
  to invert the year-by-year and month-by-month reference definition.
- `Decimal`: `str(n)` and zero-padded fields, each with its read-back.
- `UtcTime`: `datetime.utcfromtimestamp` on whole seconds, and the two
  `strftime` formats the script uses.
- `Payload`: the decoded JSON response. It includes Python truthiness for
  the `success` value.
- `Errors`: the ways a run fails.
- `Fetch`: the response checks, `parse_data` and `fetch_latest_data`.
- `Calendar`: `new_event`, `new_ical` and `make_ical`.

Every exception the script can raise on the modelled path becomes an `Error`
value in a `Result`.

- The `FetchException`s map to `BadStatus`, `NotSuccess`, `EmptyResults` and
  `MissingField`.
- `DateOutOfRange` stands for the `ValueError` or `OverflowError` that
  `datetime` raises. `utcfromtimestamp` raises one for an update time in the
  year 10000 or later. `event_time + timedelta(days=1)` raises one on
  9999-12-31. The script does not catch either, so a run with such an
  update time fails.

Two details of the script that the model keeps as written:

- The calendar's series start is the literal text `20200120T080000`.
- The update time is converted to seconds with `int(x / 1e3)`, which
  truncates. The model states this truncation as integer division (see Left
  out).

## Model

| member | source | states |
|---|---|---|
| Fetch.Validate | n-cov-ical.py:32-61 | Accepts exactly when the status is at most 299, `success` is present and truthy, `results` is non-empty and its first element has all five fields. It then returns that first element. Each failure is reported by the first check that fails, and each error holds in both directions. |
| Fetch.FirstMissing | n-cov-ical.py:55-61 | Returns no field exactly when every required field is present. Otherwise it returns a missing field that every earlier field in the check order precedes, all of them present. |
| Fetch.ParseData | n-cov-ical.py:65-82 | Succeeds exactly when the update time is before year 10000. The counts are copied. The seconds are the milliseconds truncated. The uid is the prefix followed by text that reads back as the UTC date of those seconds. `updated_at` reads back as the UTC date-time of those seconds and starts with the same date text as the uid. |
| Fetch.FetchLatestData | n-cov-ical.py:47-62 | Succeeds exactly when validation succeeds and the first result's update time is in range. After validation it returns exactly `parse_data` of the first result. Any validation error is propagated unchanged. |
| Fetch.OnlyFirstResultConsulted | n-cov-ical.py:54 | Elements of `results` after the first never change the outcome. |
| Fetch.SuccessCheckedBeforeResults | n-cov-ical.py:47-52 | A missing or falsy `success` is reported as such, whatever `results` holds. |
| Fetch.UidIffSameDay | n-cov-ical.py:73-79 | Two parsed records share a uid exactly when their update times fall on the same UTC day. |
| Fetch.TruncationExample | n-cov-ical.py:81 | 1579500000999 ms becomes second 1579500000, so the value is truncated, not rounded. |
| Fetch.MissingFieldExample | n-cov-ical.py:55-61 | When `confirmedCount` and `deadCount` are both missing, `confirmedCount` is the one reported. |
| Calendar.NewEvent | n-cov-ical.py:112-124 | Succeeds exactly when the record's instant is before 9999-12-31. The event starts on the UTC date of the record's seconds and ends on the next calendar day. It keeps the record's uid. Its dtstamp and last-modified are one and the same valid UTC date-time, which converts back to the record's seconds. The summary is the summary line of the record's four counts. |
| Calendar.DayAfter | n-cov-ical.py:118 | Adding one day is defined exactly when the date is before 9999-12-31. The result is then the calendar day after the date. |
| Calendar.EventStampIsUpdateTime | n-cov-ical.py:116-123 | Both dtstamp and last-modified are the UTC date-time of the record's seconds. |
| Calendar.Summary | n-cov-ical.py:114-115 | Reading the summary line back, label by label, gives the confirmed, suspected, dead and cured counts in that order. |
| Calendar.SummaryOfParse | n-cov-ical.py:114-115 | Every line that reads back as four counts is the summary line of those counts, so reading back inverts the summary in both directions. |
| Calendar.SummaryInjective | n-cov-ical.py:114-115 | The summary text determines the confirmed, suspected, dead and cured counts. |
| Calendar.ExampleSummary | n-cov-ical.py:114-115 | 100 confirmed, 50 suspected, 2 dead and 10 cured give the line `新型肺炎日报 确诊:100/疑似:50/死亡:2/治愈:10`. |
| Calendar.NewIcal | n-cov-ical.py:101-109 | The container has no events, and its summary equals its display name. |
| Calendar.MakeIcal | n-cov-ical.py:127-131 | Succeeds exactly when fetching and building the event both succeed. The result is the fixed container with that single event. A fetch error is passed on unchanged, and any other failure is a date out of range. |
| Calendar.EventUidNamesStartDate | n-cov-ical.py:116-121 | When validation passes and the update time is before 9999-12-31, a calendar is built, and its event's uid names the event's own start date, and the event ends on the day after it. |
| Calendar.EventExistsBeforeLastDay | n-cov-ical.py:118 | A row whose update time is before year 10000 parses, and its record gets an event exactly when its update time is before 9999-12-31 00:00:00 UTC. |
| Calendar.WorkedExample | n-cov-ical.py:127-131 | 100 confirmed, 50 suspected, 2 dead and 10 cured, updated at 1579500000000 ms gives the one event from 2020-01-20 to 2020-01-21. The uid is `ical-2019-nCov-2020-01-20` and the stamp is 06:00:00 UTC. |
| UtcTime.FromTimestamp | n-cov-ical.py:73 | The date-time is valid, and converting it back gives the same number of seconds. |
| UtcTime.TimestampRoundTrip | n-cov-ical.py:73 | Every valid date-time at or after the epoch is the one given for its own number of seconds, so the conversion is a bijection onto valid date-times. |
| UtcTime.SameDateIffSameDay | n-cov-ical.py:116-117 | Two instants have the same UTC date exactly when they lie in the same 86400-second day. |
| UtcTime.YearInRange | n-cov-ical.py:73 | The year is at most 9999 exactly when the seconds are below 253402300800. |
| UtcTime.NextDayInRange | n-cov-ical.py:118 | The day after is still representable exactly when the seconds are below 253402214400. |
| UtcTime.FormatDate | n-cov-ical.py:74 | `%Y-%m-%d` writes ten characters shaped `YYYY-MM-DD` that read back as the date. |
| UtcTime.ParseDateInjective | n-cov-ical.py:74-78 | Two date texts that read back as the same date are the same text, so the date determines the uid. |
| UtcTime.FormatDateTime | n-cov-ical.py:75 | `%Y-%m-%d %H:%M:%S` writes nineteen characters that read back as the date-time and begin with the `%Y-%m-%d` text of its date. |
| UtcTime.ParseDateTimeInjective | n-cov-ical.py:75 | Two date-time texts that read back as the same date-time are the same text. |
| Civil.FromOrdinalCorrect | n-cov-ical.py:116-117 | The cycle-based conversion from ordinal to date gives a valid date with exactly that ordinal. |
| Civil.OrdinalInjective | n-cov-ical.py:117 | Distinct valid dates have distinct ordinals. |
| Civil.FromOrdinalSuccessor | n-cov-ical.py:118 | Adding one day adds one to the ordinal: the date of ordinal n+1 is the calendar day after the date of ordinal n. |
| Decimal.ToDecimal | n-cov-ical.py:114-115 | `str(n)` is non-empty and all digits. It has a leading zero only for 0, and it reads back as n. |
| Decimal.ZeroPad | n-cov-ical.py:74-75 | A padded field is all digits and reads back as the number. It has exactly the field width when the number fits. |
| Decimal.FixedWidthInjective | n-cov-ical.py:74-75 | Digit strings of equal length that denote the same number are equal. |

## Left out

- The HTTP request, `requests.exceptions.RequestException` and the request
  URL (lines 28-39) are left out. The status code and the decoded body are
  parameters of `Fetch.Validate`.
- JSON decoding and `JSONDecodeError` (lines 40-45) are left out. The model
  starts from the decoded body.
- Some body shapes are not modelled: a body that is not an object, a
  `results` that is not a list, and field values that are not non-negative
  integers. Rows map field names to `nat`.
- Negative update times (instants before 1970) are not modelled.
- Fetch.ParseData: the conversion `int(x / 1e3)` is modelled as exact
  integer division, without the float rounding. The two agree whenever the
  millisecond count is below 2^53. The whole representable range (below
  253402300800000 ms) lies under that bound.
- The log messages (lines 33-35, 48, 51, 57-60) are left out. Each error
  case keeps the information the message carries: the status code or the
  missing field name.
- `vtimezone.generate_vtimezone` (line 107) is external code. The embedded
  time zone is kept as its zone identifier, `Asia/Shanghai`.
- The `icalendar` library's object model, `to_ical` serialisation and
  property encoding are external code. Calendars and events are records of
  their property values.
- `load_storage`, `STORAGE_PATH` and `OUTPUT_PATH` (lines 23-24, 85-98) are
  left out. No operation of the pipeline uses the storage functions.
- `main` (lines 134-142) is left out, because it only writes a file and
  prints.
- The uid depends only on the UTC day, so two updates on the same day share
  a uid (`Fetch.UidIffSameDay`). The model keeps this behaviour: a calendar
  client then treats the later event as a revision of that day's event.
