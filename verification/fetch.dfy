/**
 * What `fetch_latest_data` does once the HTTP response is in hand: check the
 * status code, the `success` flag, the `results` list and the required
 * fields of its first element, in that order; then `parse_data` turns that
 * element into the record the calendar event is built from.
 */
module Fetch {
  import opened Wrappers
  import opened Civil
  import opened UtcTime
  import opened Payload
  import opened Errors

  const UpdateTime := "updateTime"
  const ConfirmedCount := "confirmedCount"
  const SuspectedCount := "suspectedCount"
  const CuredCount := "curedCount"
  const DeadCount := "deadCount"

  /** The required fields of a result, in the order they are checked */
  const Fields: seq<string> := [UpdateTime, ConfirmedCount, SuspectedCount, CuredCount, DeadCount]

  const UidPrefix := "ical-2019-nCov-"

  /** Largest status code that passes the status check */
  const MaxOkStatus := 299

  /** The normalised snapshot `parse_data` returns */
  datatype Record = Record(
    confirmed: nat,
    suspected: nat,
    cured: nat,
    dead: nat,
    uid: string,
    updatedAt: string,
    updatedAtUnixTimestamp: nat)

  /** row has every one of the required fields */
  predicate HasFields(row: Row) {
    UpdateTime in row && ConfirmedCount in row && SuspectedCount in row && CuredCount in row && DeadCount in row
  }

  /** `success` is present and truthy */
  predicate SuccessFlag(body: Body) {
    body.success.Some? && Truthy(body.success.value)
  }

  /** `results` is present and has at least one element */
  predicate HasResults(body: Body) {
    body.results.Some? && |body.results.value| > 0
  }

  /** f is the first of keys that row lacks */
  predicate IsFirstMissing(keys: seq<string>, row: Row, f: string) {
    exists i :: 0 <= i < |keys| && keys[i] == f && f !in row && forall j :: 0 <= j < i ==> keys[j] in row
  }

  /** The first of keys that row lacks, if any */
  function FirstMissing(keys: seq<string>, row: Row): (r: Option<string>)
    ensures r.None? <==> forall i :: 0 <= i < |keys| ==> keys[i] in row
    ensures r.Some? ==> IsFirstMissing(keys, row, r.value)
  {
    if |keys| == 0 then None
    else if keys[0] !in row then
      assert IsFirstMissing(keys, row, keys[0]) by {
        assert keys[0] == keys[0];
      }
      Some(keys[0])
    else
      var r := FirstMissing(keys[1..], row);
      assert r.Some? ==> IsFirstMissing(keys, row, r.value) by {
        if r.Some? {
          var i :| 0 <= i < |keys[1..]| && keys[1..][i] == r.value && r.value !in row
            && forall j :: 0 <= j < i ==> keys[1..][j] in row;
          assert keys[i + 1] == r.value;
          assert forall j :: 0 <= j < i + 1 ==> keys[j] in row by {
            forall j | 0 <= j < i + 1
              ensures keys[j] in row
            {
              if j > 0 {
                assert keys[j] == keys[1..][j - 1];
              }
            }
          }
        }
      }
      assert r.None? ==> forall i :: 0 <= i < |keys| ==> keys[i] in row by {
        if r.None? {
          forall i | 0 <= i < |keys|
            ensures keys[i] in row
          {
            if i > 0 {
              assert keys[i] == keys[1..][i - 1];
            }
          }
        }
      }
      r
  }

  /**
   * The checks `fetch_latest_data` makes after the HTTP call, in order; on
   * success, the first element of `results`.
   */
  function Validate(status: int, body: Body): (r: Result<Row, Error>)
    ensures r.Success? <==>
      status <= MaxOkStatus && SuccessFlag(body) && HasResults(body) && HasFields(body.results.value[0])
    ensures r.Success? ==> r.value == body.results.value[0]
    ensures r == Failure(BadStatus(status)) <==> status > MaxOkStatus
    ensures r == Failure(NotSuccess) <==> status <= MaxOkStatus && !SuccessFlag(body)
    ensures r == Failure(EmptyResults) <==> status <= MaxOkStatus && SuccessFlag(body) && !HasResults(body)
    ensures r.Failure? && r.error.MissingField? <==>
      status <= MaxOkStatus && SuccessFlag(body) && HasResults(body) && !HasFields(body.results.value[0])
    ensures r.Failure? && r.error.MissingField? ==> IsFirstMissing(Fields, body.results.value[0], r.error.field)
    ensures r.Failure? ==> !r.error.DateOutOfRange?
  {
    if status > MaxOkStatus then
      Failure(BadStatus(status))
    else if body.success.None? || !Truthy(body.success.value) then
      Failure(NotSuccess)
    else if body.results.None? || |body.results.value| == 0 then
      Failure(EmptyResults)
    else
      var latest := body.results.value[0];
      match FirstMissing(Fields, latest)
      case Some(field) => Failure(MissingField(field))
      case None =>
        assert Fields[0] in latest && Fields[1] in latest && Fields[2] in latest;
        assert Fields[3] in latest && Fields[4] in latest;
        Success(latest)
  }

  /** `uid` is the prefix followed by the `%Y-%m-%d` text of date */
  predicate IsUidFor(uid: string, date: Date) {
    && |uid| == |UidPrefix| + 10
    && uid[..|UidPrefix|] == UidPrefix
    && IsDateText(uid[|UidPrefix|..])
    && ParseDate(uid[|UidPrefix|..]) == date
  }

  /**
   * `parse_data`: copies the four counts, truncates the update time from
   * milliseconds to seconds, and names the record after its UTC date.
   */
  function ParseData(row: Row): (r: Result<Record, Error>)
    requires HasFields(row)
    ensures r.Success? <==> row[UpdateTime] < MaxTimestamp * 1000
    ensures r.Failure? ==> r.error == DateOutOfRange
    ensures r.Success? ==>
      var rec := r.value;
      var time := FromTimestamp(rec.updatedAtUnixTimestamp);
      && rec.confirmed == row[ConfirmedCount]
      && rec.suspected == row[SuspectedCount]
      && rec.cured == row[CuredCount]
      && rec.dead == row[DeadCount]
      && rec.updatedAtUnixTimestamp * 1000 <= row[UpdateTime] < rec.updatedAtUnixTimestamp * 1000 + 1000
      && IsUidFor(rec.uid, time.date)
      && IsDateTimeText(rec.updatedAt)
      && ParseDateTime(rec.updatedAt) == time
      && rec.updatedAt[..10] == rec.uid[|UidPrefix|..]
  {
    var seconds := row[UpdateTime] / 1000;
    var time := FromTimestamp(seconds);
    YearInRange(seconds);
    if time.date.year > MaxYear then
      Failure(DateOutOfRange)
    else
      var dateString := FormatDate(time.date);
      Success(Record(
        confirmed := row[ConfirmedCount],
        suspected := row[SuspectedCount],
        cured := row[CuredCount],
        dead := row[DeadCount],
        uid := UidPrefix + dateString,
        updatedAt := FormatDateTime(time),
        updatedAtUnixTimestamp := seconds))
  }

  /** `fetch_latest_data` from the status code and decoded body on */
  function FetchLatestData(status: int, body: Body): (r: Result<Record, Error>)
    ensures r.Success? <==>
      Validate(status, body).Success? && body.results.value[0][UpdateTime] < MaxTimestamp * 1000
    ensures Validate(status, body).Failure? ==> r == Failure(Validate(status, body).error)
    ensures Validate(status, body).Success? ==> r == ParseData(body.results.value[0])
  {
    var row :- Validate(status, body);
    ParseData(row)
  }

  // ---------------------------------------------------------------------
  // Properties of the fetch step
  // ---------------------------------------------------------------------

  /** Only the first element of `results` is read: the rest never changes the outcome */
  lemma OnlyFirstResultConsulted(status: int, success: Option<Value>, first: Row, rest1: seq<Row>, rest2: seq<Row>)
    ensures FetchLatestData(status, Body(success, Some([first] + rest1)))
         == FetchLatestData(status, Body(success, Some([first] + rest2)))
  {
    assert ([first] + rest1)[0] == first && ([first] + rest2)[0] == first;
  }

  /**
   * A falsy or missing `success` is reported before anything about
   * `results` is looked at, however well-formed `results` is.
   */
  lemma SuccessCheckedBeforeResults(status: int, success: Option<Value>, results: seq<Row>)
    requires status <= MaxOkStatus
    requires success.None? || !Truthy(success.value)
    ensures FetchLatestData(status, Body(success, Some(results))) == Failure(NotSuccess)
  {
  }

  /** The two uids of successfully parsed rows agree exactly when their seconds fall on the same UTC day */
  lemma UidIffSameDay(a: Row, b: Row)
    requires HasFields(a) && HasFields(b)
    requires a[UpdateTime] < MaxTimestamp * 1000 && b[UpdateTime] < MaxTimestamp * 1000
    ensures ParseData(a).value.uid == ParseData(b).value.uid
        <==> (a[UpdateTime] / 1000) / SecondsPerDay == (b[UpdateTime] / 1000) / SecondsPerDay
  {
    var ra, rb := ParseData(a).value, ParseData(b).value;
    var da := FromTimestamp(ra.updatedAtUnixTimestamp).date;
    var db := FromTimestamp(rb.updatedAtUnixTimestamp).date;
    assert ra.updatedAtUnixTimestamp == a[UpdateTime] / 1000;
    assert rb.updatedAtUnixTimestamp == b[UpdateTime] / 1000;
    SameDateIffSameDay(ra.updatedAtUnixTimestamp, rb.updatedAtUnixTimestamp);
    var n := |UidPrefix|;
    if da == db {
      ParseDateInjective(ra.uid[n..], rb.uid[n..]);
      assert ra.uid == ra.uid[..n] + ra.uid[n..];
      assert rb.uid == rb.uid[..n] + rb.uid[n..];
    }
  }

  /** Milliseconds are truncated, not rounded, to seconds: 1579500000999 ms is second 1579500000 */
  lemma TruncationExample(row: Row)
    requires HasFields(row) && row[UpdateTime] == 1579500000999
    ensures ParseData(row).Success? && ParseData(row).value.updatedAtUnixTimestamp == 1579500000
  {
  }

  /** Of several missing fields, the one that comes first in the field order is reported */
  lemma MissingFieldExample()
    ensures var row := map[UpdateTime := 1579500000000, SuspectedCount := 2, CuredCount := 3];
      FetchLatestData(200, Body(Some(Bool(true)), Some([row]))) == Failure(MissingField(ConfirmedCount))
  {
    var row := map[UpdateTime := 1579500000000, SuspectedCount := 2, CuredCount := 3];
    assert Fields[0] in row && Fields[1] !in row;
    assert IsFirstMissing(Fields, row, ConfirmedCount);
  }
}
