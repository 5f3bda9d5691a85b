/** What `queryData`, `exportData` and `getDataStats` compute from the primary
    directory: the files whose date part lies in a range, the news items that
    contain a keyword, the CSV, Markdown and JSON renderings, and the totals. */
module Reports {
  import opened Outcomes
  import opened Json
  import opened Text
  import opened Snapshot
  import Store
  import Integrity

  // ---- date ranges

  /** A JavaScript truthy option string: present and not empty. */
  predicate Active(o: Option<string>) {
    o.Some? && o.value != ""
  }

  /** `startDate && fileDate < startDate` and `endDate && fileDate > endDate` both fail. */
  predicate InRange(fileDate: string, startDate: Option<string>, endDate: Option<string>) {
    && !(Active(startDate) && Less(fileDate, startDate.value))
    && !(Active(endDate) && Less(endDate.value, fileDate))
  }

  /** `fileDate` lies between the bounds in string order (bounds included). */
  lemma InRangeMeaning(fileDate: string, startDate: string, endDate: string)
    requires startDate != "" && endDate != ""
    ensures InRange(fileDate, Some(startDate), Some(endDate)) <==>
      (fileDate == startDate || Less(startDate, fileDate)) && (fileDate == endDate || Less(fileDate, endDate))
  {
    if fileDate != startDate { LessTotal(fileDate, startDate); }
    if fileDate != endDate { LessTotal(fileDate, endDate); }
    if fileDate == startDate { LessIrreflexive(fileDate); }
    if fileDate == endDate { LessIrreflexive(fileDate); }
    if Less(startDate, fileDate) { LessAsymmetric(startDate, fileDate); }
    if Less(fileDate, endDate) { LessAsymmetric(fileDate, endDate); }
  }

  /** The records of the files in range, in listing order; the first file that
      cannot be read aborts with its error. */
  function Collect(dir: Store.Dir, names: seq<string>, startDate: Option<string>, endDate: Option<string>): Result<seq<Json>> {
    if names == [] then Ok([])
    else
      var last := names[|names| - 1];
      match Collect(dir, names[..|names| - 1], startDate, endDate)
      case Err(e) => Err(e)
      case Ok(records) =>
        if !InRange(FileDate(last), startDate, endDate) then Ok(records)
        else match ReadData(dir, last)
          case Err(e) => Err(e)
          case Ok(data) => Ok(records + [data])
  }

  /** The first file that cannot be read ends the collection with its error. */
  lemma {:induction false} CollectAborts(dir: Store.Dir, names: seq<string>, k: nat, startDate: Option<string>, endDate: Option<string>)
    requires k <= |names| && Collect(dir, names[..k], startDate, endDate).Err?
    ensures Collect(dir, names, startDate, endDate) == Collect(dir, names[..k], startDate, endDate)
  {
    if k < |names| {
      var init := names[..|names| - 1];
      assert init[..k] == names[..k];
      CollectAborts(dir, init, k, startDate, endDate);
    } else {
      assert names[..k] == names;
    }
  }

  // ---- queryData

  datatype QueryOptions = QueryOptions(startDate: Option<string>, endDate: Option<string>, keyword: Option<string>)

  /** One result: the whole record, or its date and the matching news. */
  datatype Hit = Record(data: Json) | Matches(date: Option<Json>, news: seq<string>)

  /** `news.toLowerCase().includes(keyword.toLowerCase())`. */
  predicate Mentions(news: string, keyword: string) {
    Contains(ToLower(news), ToLower(keyword))
  }

  /** `news.filter(...)` with the keyword test; an item that is not a string
      makes `toLowerCase` throw. */
  function MatchingNews(items: seq<Json>, keyword: string): (r: Result<seq<string>>)
    ensures r.Ok? <==> AllStrings(items)
    ensures r.Err? ==> r.error == TypeError
    ensures r.Ok? ==> |r.value| <= |items|
    ensures r.Ok? ==> forall x :: x in r.value <==> JStr(x) in items && Mentions(x, keyword)
  {
    if items == [] then Ok([])
    else if !items[0].JStr? then Err(TypeError)
    else
      match MatchingNews(items[1..], keyword)
      case Err(e) => Err(e)
      case Ok(rest) =>
        assert forall k :: 1 <= k < |items| ==> items[k] == items[1..][k - 1];
        assert forall x :: JStr(x) in items <==> x == items[0].s || JStr(x) in items[1..];
        Ok((if Mentions(items[0].s, keyword) then [items[0].s] else []) + rest)
  }

  /** The loop body for one file. */
  function QueryFile(dir: Store.Dir, name: string, options: QueryOptions): Result<seq<Hit>> {
    if !InRange(FileDate(name), options.startDate, options.endDate) then Ok([])
    else match ReadData(dir, name)
      case Err(e) => Err(e)
      case Ok(data) =>
        if !Active(options.keyword) then Ok([Record(data)])
        else
          var news := Get(data, "news");
          if !(news.Some? && news.value.JArr?) then Err(TypeError)
          else match MatchingNews(news.value.items, options.keyword.value)
            case Err(e) => Err(e)
            case Ok(matched) => if |matched| > 0 then Ok([Matches(Get(data, "date"), matched)]) else Ok([])
  }

  function Query(dir: Store.Dir, names: seq<string>, options: QueryOptions): Result<seq<Hit>> {
    if names == [] then Ok([])
    else
      match Query(dir, names[..|names| - 1], options)
      case Err(e) => Err(e)
      case Ok(hits) =>
        match QueryFile(dir, names[|names| - 1], options)
        case Err(e) => Err(e)
        case Ok(more) => Ok(hits + more)
  }

  /** An error in a file ends the query with that error. */
  lemma {:induction false} QueryAborts(dir: Store.Dir, names: seq<string>, k: nat, options: QueryOptions)
    requires k <= |names| && Query(dir, names[..k], options).Err?
    ensures Query(dir, names, options) == Query(dir, names[..k], options)
  {
    if k < |names| {
      var init := names[..|names| - 1];
      assert init[..k] == names[..k];
      QueryAborts(dir, init, k, options);
    } else {
      assert names[..k] == names;
    }
  }

  /** A hit for file `name`: it is in range, reads back, and the hit is the record
      or, under a keyword, its date with the non-empty list of matching news. */
  predicate HitOf(dir: Store.Dir, name: string, options: QueryOptions, hit: Hit) {
    && InRange(FileDate(name), options.startDate, options.endDate)
    && ReadData(dir, name).Ok?
    && var data := ReadData(dir, name).value;
      if !Active(options.keyword) then hit == Record(data)
      else
        && hit.Matches? && hit.date == Get(data, "date") && hit.news != []
        && (forall k :: 0 <= k < |hit.news| ==> Mentions(hit.news[k], options.keyword.value))
        && Get(data, "news").Some? && Get(data, "news").value.JArr?
        && forall k :: 0 <= k < |hit.news| ==> JStr(hit.news[k]) in Get(data, "news").value.items
  }

  lemma QueryFileHit(dir: Store.Dir, name: string, options: QueryOptions)
    ensures var r := QueryFile(dir, name, options);
      r.Ok? ==> |r.value| <= 1 && forall h :: h in r.value ==> HitOf(dir, name, options, h)
  {
    var r := QueryFile(dir, name, options);
    if r.Ok? && |r.value| == 1 && Active(options.keyword) {
      var items := Get(ReadData(dir, name).value, "news").value.items;
      var m := MatchingNews(items, options.keyword.value).value;
      assert forall k :: 0 <= k < |m| ==> m[k] in m;
    }
  }

  /** Every hit comes from a file of the listing that is in range and reads back:
      the whole record without a keyword, and otherwise only news of that record
      containing the keyword, ignoring case. There is at most one hit per file. */
  lemma {:induction false} QuerySound(dir: Store.Dir, names: seq<string>, options: QueryOptions)
    ensures var r := Query(dir, names, options);
      r.Ok? ==>
        && |r.value| <= |names|
        && forall i :: 0 <= i < |r.value| ==> exists k :: 0 <= k < |names| && HitOf(dir, names[k], options, r.value[i])
  {
    if names != [] {
      var init := names[..|names| - 1];
      var last := names[|names| - 1];
      QuerySound(dir, init, options);
      QueryFileHit(dir, last, options);
      var r := Query(dir, names, options);
      if r.Ok? {
        var hits := Query(dir, init, options).value;
        var more := QueryFile(dir, last, options).value;
        forall i | 0 <= i < |r.value|
          ensures exists k :: 0 <= k < |names| && HitOf(dir, names[k], options, r.value[i])
        {
          if i < |hits| {
            var k :| 0 <= k < |init| && HitOf(dir, init[k], options, hits[i]);
            assert names[k] == init[k];
          } else {
            assert r.value[i] == more[i - |hits|] && more[i - |hits|] in more;
            assert HitOf(dir, names[|names| - 1], options, r.value[i]);
          }
        }
      }
    }
  }

  /** An empty keyword, start or end is the same as none. */
  lemma {:induction false} EmptyOptionsIgnored(dir: Store.Dir, names: seq<string>, options: QueryOptions)
    ensures var plain := QueryOptions(
        if Active(options.startDate) then options.startDate else None,
        if Active(options.endDate) then options.endDate else None,
        if Active(options.keyword) then options.keyword else None);
      Query(dir, names, options) == Query(dir, names, plain)
  {
    if names != [] {
      EmptyOptionsIgnored(dir, names[..|names| - 1], options);
    }
  }

  /** Without a keyword the query returns the full records that the export
      collects, in the same order. */
  lemma {:induction false} QueryWithoutKeywordIsCollect(dir: Store.Dir, names: seq<string>, startDate: Option<string>, endDate: Option<string>)
    ensures var q := Query(dir, names, QueryOptions(startDate, endDate, None));
      var c := Collect(dir, names, startDate, endDate);
      && (q.Ok? <==> c.Ok?)
      && (q.Err? ==> q.error == c.error)
      && (q.Ok? ==> |q.value| == |c.value| && forall i :: 0 <= i < |q.value| ==> q.value[i] == Record(c.value[i]))
  {
    if names != [] {
      QueryWithoutKeywordIsCollect(dir, names[..|names| - 1], startDate, endDate);
    }
  }

  /** Lower-casing leaves a string without capitals as it is. */
  lemma LowerUnchanged(s: string)
    requires forall k :: 0 <= k < |s| ==> !('A' <= s[k] <= 'Z')
    ensures ToLower(s) == s
  {
    assert forall k :: 0 <= k < |s| ==> ToLower(s)[k] == s[k];
  }

  lemma MatchingCons(x: string, rest: seq<Json>, keyword: string)
    requires MatchingNews(rest, keyword).Ok?
    ensures MatchingNews([JStr(x)] + rest, keyword) == Ok((if Mentions(x, keyword) then [x] else []) + MatchingNews(rest, keyword).value)
  {
    assert ([JStr(x)] + rest)[1..] == rest;
  }

  lemma MatchingPair(x: string, y: string, keyword: string)
    requires Mentions(x, keyword) && !Mentions(y, keyword)
    ensures MatchingNews([JStr(x), JStr(y)], keyword) == Ok([x])
  {
    var none: seq<string> := [];
    MatchingCons(y, [], keyword);
    assert [JStr(y)] + [] == [JStr(y)];
    assert MatchingNews([JStr(y)], keyword) == Ok(none + none);
    MatchingCons(x, [JStr(y)], keyword);
    assert [JStr(x)] + [JStr(y)] == [JStr(x), JStr(y)];
    assert [x] + (none + none) == [x];
  }

  lemma AppleMentioned()
    ensures Mentions("apple pie", "apple")
  {
    LowerUnchanged("apple pie");
    LowerUnchanged("apple");
    assert IsPrefix("apple", "apple pie");
  }

  lemma BananaNotMentioned()
    ensures !Mentions("banana", "apple")
  {
    LowerUnchanged("banana");
    LowerUnchanged("apple");
    forall i ensures !OccursAt("banana", "apple", i) {
    }
    ContainsAt("banana", "apple");
  }

  /** Filtering `["apple pie", "banana"]` for `"apple"` keeps `"apple pie"` alone. */
  lemma KeywordFilterExample()
    ensures MatchingNews([JStr("apple pie"), JStr("banana")], "apple") == Ok(["apple pie"])
  {
    AppleMentioned();
    BananaNotMentioned();
    MatchingPair("apple pie", "banana", "apple");
  }

  /** Under a keyword, a record whose news match gives one hit: its date and
      the matching news. */
  lemma QueryFileMatches(dir: Store.Dir, name: string, data: Json, keyword: string, items: seq<Json>, matched: seq<string>)
    requires ReadData(dir, name) == Ok(data)
    requires Get(data, "news") == Some(JArr(items))
    requires keyword != "" && MatchingNews(items, keyword) == Ok(matched) && matched != []
    ensures QueryFile(dir, name, QueryOptions(None, None, Some(keyword))) == Ok([Matches(Get(data, "date"), matched)])
  {
  }

  /** A record with news `["apple pie", "banana"]` queried for `"apple"` gives its
      date and `["apple pie"]`. */
  lemma KeywordExample(dir: Store.Dir, name: string, data: Json)
    requires ReadData(dir, name) == Ok(data)
    requires Get(data, "news") == Some(JArr([JStr("apple pie"), JStr("banana")]))
    ensures QueryFile(dir, name, QueryOptions(None, None, Some("apple"))) == Ok([Matches(Get(data, "date"), ["apple pie"])])
  {
    KeywordFilterExample();
    QueryFileMatches(dir, name, data, "apple", [JStr("apple pie"), JStr("banana")], ["apple pie"]);
  }

  // ---- exportData

  /** `${data.date}`: a missing date renders as `undefined`. */
  function DateText(data: Json): string {
    match Get(data, "date")
    case None => "undefined"
    case Some(v) => Display(v)
  }

  /** The items of `data.news` when it is an array; anything else has no `join`
      or `forEach`. */
  function NewsItems(data: Json): Result<seq<Json>> {
    var news := Get(data, "news");
    if news.Some? && news.value.JArr? then Ok(news.value.items) else Err(TypeError)
  }

  datatype ExportFormat = Csv | JsonFormat | Markdown

  /** The exported document: text, or the array that is pretty-printed as JSON. */
  datatype Export = Text(content: string) | Document(value: Json)

  const CsvHeader: string := "Date,News\n"
  const MarkdownHeader: string := "# 每天60秒读懂世界新闻汇总\n\n"

  function CsvRow(data: Json): Result<string> {
    match NewsItems(data)
    case Err(e) => Err(e)
    case Ok(items) => Ok(Concat([DateText(data), ",\"", Join(JoinParts(items), "|"), "\"\n"]))
  }

  function Bullets(items: seq<Json>): string {
    if items == [] then "" else Bullets(items[..|items| - 1]) + "- " + Display(items[|items| - 1]) + "\n"
  }

  /** The bullets of one more item: its line after the others. */
  lemma BulletsSnoc(items: seq<Json>, j: nat)
    requires j < |items|
    ensures Bullets(items[..j + 1]) == Bullets(items[..j]) + ("- " + Display(items[j]) + "\n")
  {
    assert items[..j + 1][..j] == items[..j];
    AppendAssoc(Bullets(items[..j]) + "- ", Display(items[j]), "\n");
    AppendAssoc(Bullets(items[..j]), "- ", Display(items[j]) + "\n");
    AppendAssoc("- ", Display(items[j]), "\n");
  }

  function MarkdownSection(data: Json): Result<string> {
    match NewsItems(data)
    case Err(e) => Err(e)
    case Ok(items) => Ok(Concat(["## ", DateText(data), "\n\n", Bullets(items), "\n"]))
  }

  /** The text appended for one record. */
  function Part(format: ExportFormat, data: Json): Result<string>
    requires format != JsonFormat
  {
    if format == Csv then CsvRow(data) else MarkdownSection(data)
  }

  /** The text that `forEach` appends for `records`, after the header. */
  function Render(format: ExportFormat, records: seq<Json>): Result<string>
    requires format != JsonFormat
  {
    if records == [] then Ok(if format == Csv then CsvHeader else MarkdownHeader)
    else
      var last := records[|records| - 1];
      match Render(format, records[..|records| - 1])
      case Err(e) => Err(e)
      case Ok(content) =>
        match Part(format, last)
        case Err(e) => Err(e)
        case Ok(part) => Ok(content + part)
  }

  /** One more record appends its part to the text rendered so far. */
  lemma RenderStep(format: ExportFormat, records: seq<Json>, k: nat)
    requires format != JsonFormat
    requires k < |records| && Render(format, records[..k]).Ok?
    ensures Part(format, records[k]).Err? ==> Render(format, records[..k + 1]) == Err(Part(format, records[k]).error)
    ensures Part(format, records[k]).Ok? ==> Render(format, records[..k + 1]) == Ok(Render(format, records[..k]).value + Part(format, records[k]).value)
  {
    assert records[..k + 1][..k] == records[..k];
  }

  /** A record without a news array ends the rendering with its error. */
  lemma {:induction false} RenderAborts(format: ExportFormat, records: seq<Json>, k: nat)
    requires format != JsonFormat
    requires k <= |records| && Render(format, records[..k]).Err?
    ensures Render(format, records) == Render(format, records[..k])
  {
    if k < |records| {
      var init := records[..|records| - 1];
      assert init[..k] == records[..k];
      RenderAborts(format, init, k);
    } else {
      assert records[..k] == records;
    }
  }

  /** `exportData(format, startDate, endDate)`, returning the content it writes. */
  function ExportOf(dir: Store.Dir, format: ExportFormat, startDate: Option<string>, endDate: Option<string>): Result<Export> {
    match Collect(dir, dir.names, startDate, endDate)
    case Err(e) => Err(e)
    case Ok(records) =>
      if format == JsonFormat then Ok(Document(JArr(records)))
      else match Render(format, records)
        case Err(e) => Err(e)
        case Ok(content) => Ok(Text(content))
  }

  /** The number of occurrences of `c` in `s`. */
  function Occurrences(s: string, c: char): nat {
    if s == [] then 0 else (if s[0] == c then 1 else 0) + Occurrences(s[1..], c)
  }

  lemma {:induction false} OccurrencesAppend(a: string, b: string, c: char)
    ensures Occurrences(a + b, c) == Occurrences(a, c) + Occurrences(b, c)
  {
    if a != [] {
      assert (a + b)[1..] == a[1..] + b;
      OccurrencesAppend(a[1..], b, c);
    } else {
      assert a + b == b;
    }
  }

  lemma {:induction false} OccurrencesAbsent(s: string, c: char)
    requires c !in s
    ensures Occurrences(s, c) == 0
  {
    if s != [] {
      assert forall k :: 0 <= k < |s[1..]| ==> s[1..][k] == s[k + 1];
      OccurrencesAbsent(s[1..], c);
    }
  }

  /** A value whose strings hold no line break renders without one. */
  predicate SingleLine(v: Json) {
    match v
    case JStr(s) => '\n' !in s
    case JArr(items) => forall k :: 0 <= k < |items| ==> SingleLine(items[k])
    case _ => true
  }

  lemma NatToStringSingleLine(n: nat)
    ensures '\n' !in NatToString(n)
  {
  }

  lemma {:induction false} JoinSingleLine(parts: seq<string>, sep: string)
    requires '\n' !in sep && forall k :: 0 <= k < |parts| ==> '\n' !in parts[k]
    ensures '\n' !in Join(parts, sep)
  {
    if |parts| > 1 {
      JoinSingleLine(parts[1..], sep);
      assert parts[0] in parts;
    }
  }

  lemma {:induction false} DisplaySingleLine(v: Json)
    requires SingleLine(v)
    ensures '\n' !in Display(v)
    decreases v, 1
  {
    match v
    case JNum(n) =>
      if n < 0 { NatToStringSingleLine(-n); } else { NatToStringSingleLine(n); }
    case JArr(items) =>
      JoinPartsSingleLine(items);
      JoinSingleLine(JoinParts(items), ",");
    case _ =>
  }

  lemma {:induction false} JoinPartsSingleLine(items: seq<Json>)
    requires forall k :: 0 <= k < |items| ==> SingleLine(items[k])
    ensures forall k :: 0 <= k < |items| ==> '\n' !in JoinParts(items)[k]
    decreases items, 0
  {
    if items != [] {
      var first := items[0];
      assert first in items;
      DisplaySingleLine(first);
      JoinPartsSingleLine(items[1..]);
      assert forall k :: 1 <= k < |items| ==> items[k] == items[1..][k - 1];
      assert forall k :: 1 <= k < |items| ==> JoinParts(items)[k] == JoinParts(items[1..])[k - 1];
    }
  }

  /** A record whose date and news render on one line each. */
  predicate CsvSafe(data: Json) {
    && (Get(data, "date").Some? ==> SingleLine(Get(data, "date").value))
    && NewsItems(data).Ok? && SingleLine(JArr(NewsItems(data).value))
  }

  /** The row of a record without line breaks in its date and news ends in the
      only line break it holds. */
  lemma CsvRowLine(data: Json)
    requires CsvSafe(data)
    ensures CsvRow(data).Ok? && Occurrences(CsvRow(data).value, '\n') == 1
  {
    var items := NewsItems(data).value;
    if Get(data, "date").Some? { DisplaySingleLine(Get(data, "date").value); }
    JoinPartsSingleLine(items);
    JoinSingleLine(JoinParts(items), "|");
    var date := DateText(data);
    var joined := Join(JoinParts(items), "|");
    ConcatFour(date, ",\"", joined, "\"\n");
    OccurrencesAbsent(date, '\n');
    OccurrencesAbsent(joined, '\n');
    assert Occurrences(",\"", '\n') == 0 && Occurrences("\"\n", '\n') == 1;
    OccurrencesAppend(date, ",\"", '\n');
    OccurrencesAppend(date + ",\"", joined, '\n');
    OccurrencesAppend(date + ",\"" + joined, "\"\n", '\n');
  }

  /** When no date or news item holds a line break, the CSV has the header line
      and exactly one line per exported record. */
  lemma {:induction false} CsvLines(records: seq<Json>)
    requires forall k :: 0 <= k < |records| ==> CsvSafe(records[k])
    ensures Render(Csv, records).Ok?
    ensures Occurrences(Render(Csv, records).value, '\n') == |records| + 1
  {
    if records == [] {
      assert Occurrences(CsvHeader, '\n') == 1;
    } else {
      var init := records[..|records| - 1];
      var last := records[|records| - 1];
      CsvLines(init);
      CsvRowLine(last);
      OccurrencesAppend(Render(Csv, init).value, CsvRow(last).value, '\n');
    }
  }

  /** The text for one record fails exactly when its news is not an array. */
  lemma PartFails(format: ExportFormat, data: Json)
    requires format != JsonFormat
    ensures Part(format, data).Err? <==> NewsItems(data).Err?
  {
  }

  /** Every record's news is an array. */
  predicate NewsArrays(records: seq<Json>) {
    forall k :: 0 <= k < |records| ==> NewsItems(records[k]).Ok?
  }

  /** A CSV or Markdown export succeeds exactly when every exported record's news
      is an array. */
  lemma {:induction false} RenderSucceeds(format: ExportFormat, records: seq<Json>)
    requires format != JsonFormat
    ensures Render(format, records).Ok? <==> NewsArrays(records)
  {
    if records != [] {
      var init := records[..|records| - 1];
      var last := records[|records| - 1];
      RenderSucceeds(format, init);
      PartFails(format, last);
      NewsArraysSnoc(records);
    }
  }

  lemma NewsArraysSnoc(records: seq<Json>)
    requires records != []
    ensures NewsArrays(records) <==> NewsArrays(records[..|records| - 1]) && NewsItems(records[|records| - 1]).Ok?
  {
    var init := records[..|records| - 1];
    assert forall k :: 0 <= k < |init| ==> records[k] == init[k];
  }

  // ---- getDataStats

  /** `totalNews`: a sum of lengths, or `NaN` once a length is `undefined`. */
  datatype Tally = Count(n: int) | NotANumber

  datatype BackupStatus = BackupStatus(total: nat, synchronized: nat, needSync: int)

  datatype DataStats = DataStats(
    totalFiles: nat,
    totalSize: nat,
    oldestFile: string,
    newestFile: string,
    newsCount: Tally,
    backupStatus: BackupStatus)

  /** `data.news.length`: an array's or a string's length, an object's own
      `length` member as `+=` converts it (a number as it is, `true` as 1,
      `false` and `null` as 0), `undefined` (`None`) for anything else, and a
      `TypeError` for a missing or `null` `news`. */
  function NewsLength(data: Json): Result<Option<int>> {
    match Get(data, "news")
    case None => Err(TypeError)
    case Some(JNull) => Err(TypeError)
    case Some(JArr(items)) => Ok(Some(|items|))
    case Some(JStr(s)) => Ok(Some(|s|))
    case Some(JObj(members)) =>
      (match Get(JObj(members), "length")
       case Some(JNum(n)) => Ok(Some(n))
       case Some(JBool(b)) => Ok(Some(if b then 1 else 0))
       case Some(JNull) => Ok(Some(0))
       case _ => Ok(None))
    case Some(_) => Ok(None)
  }

  /** Wherever `news.length` is a number, that number is what the loop adds;
      `news` that is missing or `null` is the loop's `TypeError`. */
  lemma NewsLengthIsLength(data: Json)
    ensures Get(data, "news").None? || Get(data, "news") == Some(JNull) <==> NewsLength(data).Err?
    ensures forall n :: Get(data, "news").Some? && LengthOf(Get(data, "news").value) == Some(JNum(n)) ==>
      NewsLength(data) == Ok(Some(n))
  {
  }

  /** example: an array-like `news` object `{"length": 2, "0": "a", "1": "b"}`
      counts as two items. */
  lemma ArrayLikeNewsLength(day: string)
    ensures var news := JObj([Member("length", JNum(2)), Member("0", JStr("a")), Member("1", JStr("b"))]);
      NewsLength(JObj([Member("date", JStr(day)), Member("news", news)])) == Ok(Some(2))
  {
    var news := JObj([Member("length", JNum(2)), Member("0", JStr("a")), Member("1", JStr("b"))]);
    assert "0" != "length" && "1" != "length";
    LookupLast(news.members, "length", 0);
    LookupLast([Member("date", JStr(day)), Member("news", news)], "news", 1);
  }

  function AddTally(t: Tally, length: Option<int>): Tally {
    if t.Count? && length.Some? then Count(t.n + length.value) else NotANumber
  }

  /** The running values of the statistics loop. */
  datatype Totals = Totals(size: nat, oldest: string, newest: string, news: Tally)

  /** `if (!oldest || fileDate < oldest) oldest = fileDate`. */
  function Older(oldest: string, fileDate: string): string {
    if oldest == "" || Less(fileDate, oldest) then fileDate else oldest
  }

  /** `if (!newest || fileDate > newest) newest = fileDate`. */
  function Newer(newest: string, fileDate: string): string {
    if newest == "" || Less(newest, fileDate) then fileDate else newest
  }

  /** The statistics loop's body for one file. */
  function AddFile(dir: Store.Dir, t: Totals, file: string): Result<Totals>
    requires file in dir.blobs
  {
    var fileDate := FileDate(file);
    match ReadData(dir, file)
    case Err(e) => Err(e)
    case Ok(data) =>
      match NewsLength(data)
      case Err(e) => Err(e)
      case Ok(length) =>
        Ok(Totals(t.size + |dir.blobs[file]|, Older(t.oldest, fileDate), Newer(t.newest, fileDate), AddTally(t.news, length)))
  }

  function TotalsOf(dir: Store.Dir, names: seq<string>): Result<Totals>
    requires forall n :: n in names ==> n in dir.blobs
  {
    if names == [] then Ok(Totals(0, "", "", Count(0)))
    else
      var last := names[|names| - 1];
      assert last in names;
      match TotalsOf(dir, names[..|names| - 1])
      case Err(e) => Err(e)
      case Ok(t) => AddFile(dir, t, last)
  }

  /** The statistics over one more file of `names`. */
  lemma TotalsSnoc(dir: Store.Dir, names: seq<string>, i: nat, t: Totals)
    requires forall n :: n in names ==> n in dir.blobs
    requires i < |names| && TotalsOf(dir, names[..i]) == Ok(t)
    ensures names[i] in dir.blobs && forall n :: n in names[..i + 1] ==> n in dir.blobs
    ensures TotalsOf(dir, names[..i + 1]) == AddFile(dir, t, names[i])
  {
    assert names[..i + 1][..i] == names[..i];
    assert names[i] in names;
  }

  /** A file that cannot be read or has no news ends the statistics with its error. */
  lemma {:induction false} TotalsAbort(dir: Store.Dir, names: seq<string>, k: nat)
    requires forall n :: n in names ==> n in dir.blobs
    requires k <= |names| && (forall n :: n in names[..k] ==> n in dir.blobs) && TotalsOf(dir, names[..k]).Err?
    ensures TotalsOf(dir, names) == TotalsOf(dir, names[..k])
  {
    if k < |names| {
      var init := names[..|names| - 1];
      assert init[..k] == names[..k];
      assert forall n :: n in init ==> n in names;
      TotalsAbort(dir, init, k);
    } else {
      assert names[..k] == names;
    }
  }

  /** `getDataStats` over the primary directory and the backup's listing. */
  function StatsOf(primary: Store.Dir, backup: Store.Dir): Result<DataStats>
    requires Store.Valid(primary)
  {
    match TotalsOf(primary, primary.names)
    case Err(e) => Err(e)
    case Ok(t) =>
      Ok(DataStats(|primary.names|, t.size, t.oldest, t.newest, t.news,
        BackupStatus(|primary.names|, |backup.names|, |primary.names| - |backup.names|)))
  }

  /** A file the statistics loop stops at: unreadable, or without news. */
  predicate Unusable(dir: Store.Dir, name: string) {
    ReadData(dir, name).Err? || NewsLength(ReadData(dir, name).value).Err?
  }

  lemma TotalsStep(dir: Store.Dir, names: seq<string>)
    requires names != [] && forall n :: n in names ==> n in dir.blobs
    ensures TotalsOf(dir, names).Err? <==>
      TotalsOf(dir, names[..|names| - 1]).Err? || Unusable(dir, names[|names| - 1])
  {
  }

  lemma UsableSnoc(dir: Store.Dir, names: seq<string>, init: seq<string>)
    requires names != [] && init == names[..|names| - 1]
    ensures (forall k :: 0 <= k < |names| ==> !Unusable(dir, names[k])) <==>
      (forall k :: 0 <= k < |init| ==> !Unusable(dir, init[k])) && !Unusable(dir, names[|names| - 1])
  {
    assert forall k :: 0 <= k < |init| ==> names[k] == init[k];
  }

  /** The statistics succeed exactly when every file reads back and has news. */
  lemma {:induction false} TotalsSucceed(dir: Store.Dir, names: seq<string>)
    requires forall n :: n in names ==> n in dir.blobs
    ensures TotalsOf(dir, names).Ok? <==> forall k :: 0 <= k < |names| ==> !Unusable(dir, names[k])
  {
    if names != [] {
      var init := names[..|names| - 1];
      assert forall n :: n in init ==> n in names;
      TotalsSucceed(dir, init);
      TotalsStep(dir, names);
      UsableSnoc(dir, names, init);
    }
  }

  /** A successful run of the statistics loop moved the dates with its last file. */
  lemma TotalsDates(dir: Store.Dir, names: seq<string>)
    requires forall n :: n in names ==> n in dir.blobs
    requires names != [] && TotalsOf(dir, names).Ok?
    ensures forall n :: n in names[..|names| - 1] ==> n in dir.blobs
    ensures var init := TotalsOf(dir, names[..|names| - 1]);
      var last := FileDate(names[|names| - 1]);
      && init.Ok?
      && TotalsOf(dir, names).value.oldest == Older(init.value.oldest, last)
      && TotalsOf(dir, names).value.newest == Newer(init.value.newest, last)
  {
    assert forall n :: n in names[..|names| - 1] ==> n in names;
    assert names[|names| - 1] in names;
  }

  /** Folding one more date into non-empty running bounds moves them as the
      least and greatest of the longer list. */
  lemma BoundsSnoc(dates: seq<string>, date: string, oldest: string, newest: string)
    requires dates != [] && oldest == Integrity.Least(dates) && newest == Integrity.Greatest(dates)
    requires oldest != "" && newest != ""
    ensures Older(oldest, date) == Integrity.Least(dates + [date])
    ensures Newer(newest, date) == Integrity.Greatest(dates + [date])
  {
    Integrity.LeastSnoc(dates, date);
    Integrity.GreatestSnoc(dates, date);
  }

  lemma DatesNonEmpty(names: seq<string>)
    requires forall n :: n in names ==> FileDate(n) != ""
    ensures forall x :: x in Integrity.FileDates(names) ==> x != ""
  {
    var dates := Integrity.FileDates(names);
    forall x | x in dates ensures x != "" {
      var k :| 0 <= k < |names| && dates[k] == x;
      assert names[k] in names;
    }
  }

  /** When no file's date part is empty, the oldest and newest dates are the
      first and the last of the sorted date parts, the bounds the continuity
      check uses. */
  lemma {:induction false} TotalsBounds(dir: Store.Dir, names: seq<string>)
    requires forall n :: n in names ==> n in dir.blobs
    requires forall n :: n in names ==> FileDate(n) != ""
    requires names != [] && TotalsOf(dir, names).Ok?
    ensures TotalsOf(dir, names).value.oldest == Integrity.Least(Integrity.FileDates(names))
    ensures TotalsOf(dir, names).value.newest == Integrity.Greatest(Integrity.FileDates(names))
  {
    var init := names[..|names| - 1];
    var last := FileDate(names[|names| - 1]);
    TotalsDates(dir, names);
    assert Integrity.FileDates(names) == Integrity.FileDates(init) + [last];
    if init == [] {
      assert Integrity.FileDates(names) == [last];
      assert names[|names| - 1] in names;
    } else {
      assert forall n :: n in init ==> n in names;
      TotalsBounds(dir, init);
      DatesNonEmpty(init);
      var t := TotalsOf(dir, init).value;
      BoundsSnoc(Integrity.FileDates(init), last, t.oldest, t.newest);
    }
  }
}
