/** The "60 seconds a day" feed and its scraper: one feed record becomes one
    content item per news line. */
module Scraper {
  import opened Outcomes
  import opened Json
  import opened Text
  import opened Calendar

  datatype Audio = Audio(music: string, news: string)

  /** The `data` part of a feed answer. */
  datatype FeedData = FeedData(
    date: string,
    news: seq<string>,
    audio: Audio,
    tip: string,
    cover: string,
    link: string,
    created: string,
    createdAt: int,
    updated: string,
    updatedAt: int)

  /** A feed answer: a status code, a message and the record. */
  datatype Response = Response(code: int, message: string, data: FeedData)

  datatype Source = Source(name: string, url: string)

  datatype Metadata = Metadata(keywords: seq<string>, summary: string, cover: string, audio: string)

  /** One scraped content item; `score` is the ranking score the item starts with. */
  datatype ScrapedContent = ScrapedContent(
    id: string,
    title: string,
    content: string,
    url: string,
    publishDate: string,
    source: Source,
    metadata: Metadata,
    score: real)

  const SourceName: string := "每天60秒读懂世界"
  const TitlePrefix: string := "每天60秒读懂世界 - "
  const IdPrefix: string := "60s-"

  /** The scraper reads its built-in sample record instead of the feed. */
  const UseMockData: bool := true

  /** The record as `JSON.stringify` sees it, members in declaration order. */
  function ToJson(data: FeedData): (v: Json)
    ensures v.JObj?
  {
    JObj([
      Member("date", JStr(data.date)),
      Member("news", JArr(seq(|data.news|, k requires 0 <= k < |data.news| => JStr(data.news[k])))),
      Member("audio", JObj([Member("music", JStr(data.audio.music)), Member("news", JStr(data.audio.news))])),
      Member("tip", JStr(data.tip)),
      Member("cover", JStr(data.cover)),
      Member("link", JStr(data.link)),
      Member("created", JStr(data.created)),
      Member("created_at", JNum(data.createdAt)),
      Member("updated", JStr(data.updated)),
      Member("updated_at", JNum(data.updatedAt))])
  }

  /** The sample record, stamped with the current time: `now` as an ISO string
      and `nowMs` in milliseconds. */
  function MockData(now: string, nowMs: int): FeedData {
    FeedData(now, ["测试新闻1：这是一条测试新闻", "测试新闻2：这是另一条测试新闻"],
      Audio("https://example.com/music.mp3", "https://example.com/news.mp3"),
      "这是一条测试提示", "https://example.com/cover.jpg", "https://example.com",
      now, nowMs, now, nowMs)
  }

  /** Where the record comes from: the sample in mock mode, otherwise the feed,
      whose request may fail (`response` is then the error) and whose answer
      must carry code 200. */
  function FetchData(useMock: bool, mock: FeedData, response: Result<Response>): (r: Result<FeedData>)
    ensures useMock ==> r == Ok(mock)
    ensures !useMock && response.Err? ==> r == Err(response.error)
    ensures !useMock && response.Ok? && response.value.code != 200 ==> r == Err(Remote(response.value.message))
    ensures !useMock && response.Ok? && response.value.code == 200 ==> r == Ok(response.value.data)
  {
    if useMock then Ok(mock)
    else if response.Err? then Err(response.error)
    else if response.value.code != 200 then Err(Remote(response.value.message))
    else Ok(response.value.data)
  }

  /** The time of day `toISOString` writes for a date-only string: midnight UTC. */
  const MidnightUtc: string := "T00:00:00.000Z"

  /** `new Date(date).toISOString()`: an invalid date throws; a day name on
      its own gains midnight UTC; a timestamp that has a time part is taken
      to be in ISO form already and is kept. The result names the same day. */
  function PublishDate(date: string): (r: Result<string>)
    ensures r.Ok? <==> ParseTimestamp(date).Some?
    ensures r.Ok? ==> ParseTimestamp(r.value) == ParseTimestamp(date) && 'T' in r.value
    ensures r.Ok? && 'T' !in date ==> r.value == date + MidnightUtc
    ensures r.Ok? && 'T' in date ==> r.value == date
  {
    if ParseTimestamp(date).None? then Err(BadTimestamp)
    else if 'T' in date then Ok(date)
    else
      BeforeAbsent(date, 'T');
      BeforeAppend(date, 'T', "00:00:00.000Z");
      assert date + MidnightUtc == date + ['T'] + "00:00:00.000Z";
      assert (date + MidnightUtc)[|date|] == 'T';
      Ok(date + MidnightUtc)
  }

  /** The item made from news line `i` of `data`. */
  function Item(data: FeedData, i: nat, publishDate: string): ScrapedContent
    requires i < |data.news|
  {
    ScrapedContent(
      IdPrefix + data.date + "-" + NatToString(i),
      TitlePrefix + Before(data.date, 'T'),
      data.news[i],
      data.link,
      publishDate,
      Source(SourceName, data.link),
      Metadata([], data.tip, data.cover, data.audio.news),
      1.0)
  }

  /** `data.news.map(...)`: one item per line; an invalid date throws as soon
      as the first item is built, so a record without news maps to nothing
      whatever its date. */
  function Items(data: FeedData): Result<seq<ScrapedContent>> {
    if |data.news| == 0 then Ok([])
    else match PublishDate(data.date)
      case Err(e) => Err(e)
      case Ok(publishDate) => Ok(seq(|data.news|, i requires 0 <= i < |data.news| => Item(data, i, publishDate)))
  }

  /** `scrape(identifier)`; the identifier is not read. */
  function Scrape(useMock: bool, mock: FeedData, response: Result<Response>): Result<seq<ScrapedContent>> {
    match FetchData(useMock, mock, response)
    case Err(e) => Err(e)
    case Ok(data) => Items(data)
  }

  /** `validateConfig()`: there is nothing to check. */
  function ValidateConfig(): (ok: bool)
    ensures ok
  {
    true
  }

  /** A record with a valid date maps to one item per news line, in order:
      line `i` gives the id `60s-<date>-<i>`, the title prefix and the day,
      the line itself as content, `link` as both urls, the date in ISO form
      as publish date, the tip, cover and news audio as metadata, and score 1. */
  lemma ItemsShape(data: FeedData)
    requires ParseTimestamp(data.date).Some?
    ensures var r := Items(data);
      && r.Ok? && |r.value| == |data.news|
      && forall i :: 0 <= i < |data.news| ==>
        && r.value[i].id == "60s-" + data.date + "-" + NatToString(i)
        && r.value[i].title == "每天60秒读懂世界 - " + Before(data.date, 'T')
        && r.value[i].content == data.news[i]
        && r.value[i].url == data.link && r.value[i].source.url == data.link
        && r.value[i].publishDate == (if 'T' in data.date then data.date else data.date + MidnightUtc)
        && r.value[i].metadata == Metadata([], data.tip, data.cover, data.audio.news)
        && r.value[i].score == 1.0
  {
  }

  /** A record with news and an invalid date makes `scrape` throw. */
  lemma BadDateThrows(data: FeedData)
    requires ParseTimestamp(data.date).None? && |data.news| > 0
    ensures Items(data) == Err(BadTimestamp)
  {
  }

  lemma {:induction false} PrefixCancel(p: string, x: string, y: string)
    requires p + x == p + y
    ensures x == y
  {
    assert (p + x)[|p|..] == x;
    assert (p + y)[|p|..] == y;
  }

  /** The items of one record have pairwise distinct ids. */
  lemma IdsDistinct(data: FeedData)
    requires Items(data).Ok?
    ensures var items := Items(data).value;
      forall i, j :: 0 <= i < j < |items| ==> items[i].id != items[j].id
  {
    var items := Items(data).value;
    forall i, j | 0 <= i < j < |items|
      ensures items[i].id != items[j].id
    {
      var p := IdPrefix + data.date + "-";
      assert items[i].id == p + NatToString(i);
      assert items[j].id == p + NatToString(j);
      if items[i].id == items[j].id {
        PrefixCancel(p, NatToString(i), NatToString(j));
        NatToStringInjective(i, j);
      }
    }
  }

  /** A failed request, or a feed answer whose code is not 200, makes `scrape`
      throw (the request's error, or the answer's message), unless the sample
      record is used. */
  lemma RemoteErrorThrown(mock: FeedData, response: Result<Response>)
    requires response.Err? || response.value.code != 200
    ensures !response.Err? ==> Scrape(false, mock, response) == Err(Remote(response.value.message))
    ensures response.Err? ==> Scrape(false, mock, response) == Err(response.error)
    ensures Scrape(true, mock, response) == Items(mock)
  {
  }

  /** In mock mode `scrape` gives the two sample lines whatever the feed says. */
  lemma MockScrape(now: string, nowMs: int, response: Result<Response>)
    requires ParseTimestamp(now).Some?
    ensures var r := Scrape(UseMockData, MockData(now, nowMs), response);
      r.Ok? && |r.value| == 2 && r.value[0].content == "测试新闻1：这是一条测试新闻"
      && r.value[1].content == "测试新闻2：这是另一条测试新闻"
  {
    ItemsShape(MockData(now, nowMs));
  }
}
