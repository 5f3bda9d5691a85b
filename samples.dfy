/** Feed records as the archive's test saves them, and why they pass its
    validation. */
module Samples {
  import opened Outcomes
  import opened Json
  import opened Text
  import opened Calendar
  import opened Snapshot
  import Scraper

  /** The test's sample record stamped with one timestamp `stamp` (and `ms`,
      the same instant in milliseconds). */
  function TestRecord(stamp: string, ms: int): Json {
    Scraper.ToJson(Scraper.FeedData(stamp, ["测试新闻1：这是一条测试新闻", "测试新闻2：这是另一条测试新闻"],
      Scraper.Audio("https://example.com/music.mp3", "https://example.com/news.mp3"),
      "这是一条测试提示", "https://example.com/cover.jpg", "https://example.com/news",
      stamp, ms, stamp, ms))
  }

  /** The timestamp of noon on day `d`. */
  function NoonOf(d: Day): string {
    DayToString(d) + "T12:00:00.000Z"
  }

  /** The record `testDataSaving` saves when stamped at noon on day `d`. */
  function TestSample(d: Day): Json {
    TestRecord(NoonOf(d), StartOfDay(d) + MsPerDay / 2)
  }

  lemma NoonOfDay(d: Day)
    ensures Before(NoonOf(d), 'T') == DayToString(d)
    ensures ParseTimestamp(NoonOf(d)) == Some(d)
  {
    ParseDayToString(d);
    DayNameDigits(DayToString(d), 'T');
    assert NoonOf(d) == DayToString(d) + ['T'] + "12:00:00.000Z";
    BeforeAppend(DayToString(d), 'T', "12:00:00.000Z");
  }

  /** The object has `key` once one of its members carries it. */
  lemma HasAt(v: Json, j: nat, key: string)
    requires v.JObj? && j < |v.members| && v.members[j].key == key
    ensures Has(v, key)
  {
  }

  /** A field that is present does not stop the search for a missing one. */
  lemma {:induction false} MissingFrom(v: Json, fields: seq<string>, k: nat)
    requires k < |fields| && Has(v, fields[k])
    ensures FirstMissing(v, fields[k..]) == FirstMissing(v, fields[k + 1..])
  {
    assert fields[k..][1..] == fields[k + 1..];
  }

  /** A field holding a valid date does not stop the search for a bad one. */
  lemma {:induction false} BadDateFrom(v: Json, fields: seq<string>, k: nat, value: Json)
    requires k < |fields| && Get(v, fields[k]) == Some(value) && DateValid(value)
    ensures FirstBadDate(v, fields[k..]) == FirstBadDate(v, fields[k + 1..])
  {
    assert fields[k..][1..] == fields[k + 1..];
  }

  /** The members of a record's JSON form, by position. */
  lemma RecordMembers(data: Scraper.FeedData)
    ensures var m := Scraper.ToJson(data).members;
      && |m| == 10
      && m[0] == Member("date", JStr(data.date)) && m[1].key == "news" && m[1].value.JArr?
      && |m[1].value.items| == |data.news| && m[2].key == "audio" && m[3].key == "tip"
      && m[4].key == "cover" && m[5].key == "link" && m[6] == Member("created", JStr(data.created))
      && m[7].key == "created_at" && m[8] == Member("updated", JStr(data.updated))
      && m[9].key == "updated_at"
  {
  }

  /** An object with all the required fields, at the positions a record's JSON
      form has them, has none missing. */
  lemma FieldsPresent(v: Json)
    requires v.JObj? && |v.members| == 10
    requires v.members[0].key == "date" && v.members[1].key == "news" && v.members[2].key == "audio" && v.members[3].key == "tip"
    requires v.members[4].key == "cover" && v.members[5].key == "link" && v.members[6].key == "created" && v.members[8].key == "updated"
    ensures FirstMissing(v, RequiredFields) == None
  {
    var f := RequiredFields;
    assert f[8..] == [];
    HasAt(v, 8, "updated");
    MissingFrom(v, f, 7);
    HasAt(v, 6, "created");
    MissingFrom(v, f, 6);
    HasAt(v, 5, "link");
    MissingFrom(v, f, 5);
    HasAt(v, 4, "cover");
    MissingFrom(v, f, 4);
    HasAt(v, 3, "tip");
    MissingFrom(v, f, 3);
    HasAt(v, 2, "audio");
    MissingFrom(v, f, 2);
    HasAt(v, 1, "news");
    MissingFrom(v, f, 1);
    HasAt(v, 0, "date");
    MissingFrom(v, f, 0);
    assert f[0..] == f;
  }

  /** The same object, with valid dates in its three date fields, has no bad
      date. */
  lemma DatesPresent(v: Json)
    requires v.JObj? && |v.members| == 10
    requires v.members[0].key == "date" && v.members[1].key == "news" && v.members[2].key == "audio" && v.members[3].key == "tip"
    requires v.members[4].key == "cover" && v.members[5].key == "link" && v.members[6].key == "created"
    requires v.members[7].key == "created_at" && v.members[8].key == "updated" && v.members[9].key == "updated_at"
    requires DateValid(v.members[0].value) && DateValid(v.members[6].value) && DateValid(v.members[8].value)
    ensures FirstBadDate(v, DateFields) == None
  {
    var f := DateFields;
    var m := v.members;
    assert f[3..] == [];
    assert "updated"[0] != "created"[0];
    assert "updated_at" != "updated";
    LookupLast(m, "updated", 8);
    BadDateFrom(v, f, 2, m[8].value);
    assert "created_at" != "created" && "updated"[0] != "created"[0] && "updated_at"[0] != "created"[0];
    LookupLast(m, "created", 6);
    BadDateFrom(v, f, 1, m[6].value);
    assert forall j :: 0 < j < 10 ==> m[j].key != "date";
    LookupLast(m, "date", 0);
    BadDateFrom(v, f, 0, m[0].value);
    assert f[0..] == f;
  }

  /** The same object, with a non-empty array under `news`, has news. */
  lemma NewsPresent(v: Json)
    requires v.JObj? && |v.members| == 10
    requires v.members[0].key == "date" && v.members[1].key == "news" && v.members[2].key == "audio" && v.members[3].key == "tip"
    requires v.members[4].key == "cover" && v.members[5].key == "link" && v.members[6].key == "created"
    requires v.members[7].key == "created_at" && v.members[8].key == "updated" && v.members[9].key == "updated_at"
    requires v.members[1].value.JArr? && |v.members[1].value.items| > 0
    ensures NewsNonEmpty(v)
  {
    assert forall j :: 1 < j < 10 ==> v.members[j].key[0] != 'n';
    LookupLast(v.members, "news", 1);
  }

  /** A feed record whose three timestamps are valid and which has at least
      one news line passes validation. */
  lemma FeedRecordValid(data: Scraper.FeedData)
    requires ParseTimestamp(data.date).Some? && ParseTimestamp(data.created).Some? && ParseTimestamp(data.updated).Some?
    requires |data.news| > 0
    ensures ValidateData(Scraper.ToJson(data))
  {
    var v := Scraper.ToJson(data);
    RecordMembers(data);
    FieldsPresent(v);
    DatesPresent(v);
    NewsPresent(v);
  }

  /** The sample stamped at noon on any day is valid, and is saved under that
      day's name. */
  lemma TestSampleValid(d: Day)
    ensures ValidateData(TestSample(d))
    ensures Before(NoonOf(d), 'T') == DayToString(d)
  {
    NoonOfDay(d);
    FeedRecordValid(Scraper.FeedData(NoonOf(d), ["测试新闻1：这是一条测试新闻", "测试新闻2：这是另一条测试新闻"],
      Scraper.Audio("https://example.com/music.mp3", "https://example.com/news.mp3"),
      "这是一条测试提示", "https://example.com/cover.jpg", "https://example.com/news",
      NoonOf(d), StartOfDay(d) + MsPerDay / 2, NoonOf(d), StartOfDay(d) + MsPerDay / 2));
  }
}
