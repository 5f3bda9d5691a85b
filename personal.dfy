/** The personal workflow: `refresh` fetches the feed record and keeps a copy in
    the data directory, and `process` keeps the ranked contents that reach the
    score threshold, truncates them and hands them on in batches. */
module Personal {
  import opened Outcomes
  import opened Json
  import opened Codec
  import opened Text
  import opened Scraper
  import Store

  /** The content-processing settings of the workflow configuration. */
  datatype Processing = Processing(batchSize: nat, maxContents: nat, minScore: real)

  const PersonalProcessing: Processing := Processing(1, 10, 0.6)

  /** The days of data the configuration says to keep. */
  const RetentionDays: nat := 7

  /** What `refresh` hands the scheduler: the record's `updated` time. */
  datatype RefreshResult = RefreshResult(date: string)

  /** A ranking of one content item. */
  datatype RankResult = RankResult(id: string, score: real)

  /** The name `saveDataToFile` writes: the day part of the record's date. */
  function SavedFileName(data: FeedData): string {
    Before(data.date, 'T') + ".json"
  }

  /** The first ranking with the given id (`rankedContents.find`). */
  function FindRank(ranks: seq<RankResult>, id: string): (r: Option<RankResult>)
    ensures r.None? <==> forall k :: 0 <= k < |ranks| ==> ranks[k].id != id
    ensures r.Some? ==> r.value in ranks && r.value.id == id
  {
    if ranks == [] then None
    else if ranks[0].id == id then Some(ranks[0])
    else FindRank(ranks[1..], id)
  }

  /** The filter test: the item's first ranking reaches the threshold. */
  predicate Qualifies(content: ScrapedContent, ranks: seq<RankResult>, minScore: real) {
    var rank := FindRank(ranks, content.id);
    rank.Some? && rank.value.score >= minScore
  }

  /** `allContents.filter(...)`, order kept. */
  function Filtered(contents: seq<ScrapedContent>, ranks: seq<RankResult>, minScore: real): (r: seq<ScrapedContent>)
    ensures |r| <= |contents|
  {
    if contents == [] then []
    else (if Qualifies(contents[0], ranks, minScore) then [contents[0]] else []) + Filtered(contents[1..], ranks, minScore)
  }

  /** `filteredContents.slice(0, maxContents)`. */
  function Top(filtered: seq<ScrapedContent>, maxContents: nat): (r: seq<ScrapedContent>)
    ensures |r| == if maxContents < |filtered| then maxContents else |filtered|
    ensures r == filtered[..|r|]
  {
    if maxContents < |filtered| then filtered[..maxContents] else filtered
  }

  /** The concatenation of a list of batches. */
  function Flatten(batches: seq<seq<ScrapedContent>>): seq<ScrapedContent> {
    if batches == [] then [] else Flatten(batches[..|batches| - 1]) + batches[|batches| - 1]
  }

  /** The batch loop of `process`: `topContents.slice(i, i + batchSize)` for
      `i = 0, batchSize, 2 * batchSize, ...` while `i` is inside the list. */
  method Batches(top: seq<ScrapedContent>, batchSize: nat) returns (batches: seq<seq<ScrapedContent>>)
    requires batchSize >= 1
    ensures Flatten(batches) == top
    ensures forall k :: 0 <= k < |batches| ==> 0 < |batches[k]| <= batchSize
    ensures forall k :: 0 <= k < |batches| - 1 ==> |batches[k]| == batchSize
  {
    batches := [];
    var i := 0;
    while i < |top|
      invariant 0 <= i <= |top|
      invariant Flatten(batches) == top[..i]
      invariant forall k :: 0 <= k < |batches| ==> 0 < |batches[k]| <= batchSize
      invariant forall k :: 0 <= k < |batches| ==> |batches[k]| == batchSize || (k == |batches| - 1 && i == |top|)
      decreases |top| - i
    {
      var end := if i + batchSize < |top| then i + batchSize else |top|;
      var batch := top[i..end];
      assert top[..end] == top[..i] + batch;
      var before := batches;
      batches := before + [batch];
      assert batches[..|batches| - 1] == before;
      i := end;
    }
    assert top[..i] == top;
  }

  /** The filter keeps exactly the items whose first ranking reaches the
      threshold. */
  lemma {:induction false} FilteredExact(contents: seq<ScrapedContent>, ranks: seq<RankResult>, minScore: real, x: ScrapedContent)
    ensures x in Filtered(contents, ranks, minScore) <==> x in contents && Qualifies(x, ranks, minScore)
  {
    if contents != [] {
      FilteredExact(contents[1..], ranks, minScore, x);
      assert x in contents <==> x == contents[0] || x in contents[1..];
    }
  }

  /** `r` is `c` with some items dropped and the rest in their order. */
  predicate Subsequence(r: seq<ScrapedContent>, c: seq<ScrapedContent>)
    decreases |c|
  {
    r == [] || (c != [] && ((r[0] == c[0] && Subsequence(r[1..], c[1..])) || Subsequence(r, c[1..])))
  }

  /** The filter only drops items: what it keeps comes in the input's order. */
  lemma {:induction false} FilteredSubsequence(contents: seq<ScrapedContent>, ranks: seq<RankResult>, minScore: real)
    ensures Subsequence(Filtered(contents, ranks, minScore), contents)
  {
    if contents != [] {
      var rest := Filtered(contents[1..], ranks, minScore);
      FilteredSubsequence(contents[1..], ranks, minScore);
      if Qualifies(contents[0], ranks, minScore) {
        assert Filtered(contents, ranks, minScore) == [contents[0]] + rest;
        assert ([contents[0]] + rest)[1..] == rest;
      } else {
        assert Filtered(contents, ranks, minScore) == rest;
      }
    }
  }

  /** A qualifying item is kept as often as it occurs, any other dropped. */
  lemma {:induction false} FilteredCounts(contents: seq<ScrapedContent>, ranks: seq<RankResult>, minScore: real, x: ScrapedContent)
    ensures multiset(Filtered(contents, ranks, minScore))[x] ==
      if Qualifies(x, ranks, minScore) then multiset(contents)[x] else 0
  {
    if contents != [] {
      FilteredCounts(contents[1..], ranks, minScore, x);
      assert contents == [contents[0]] + contents[1..];
      assert multiset(contents) == multiset([contents[0]]) + multiset(contents[1..]);
    }
  }

  /** Filtering a concatenation filters each part. */
  lemma {:induction false} FilteredAppend(a: seq<ScrapedContent>, b: seq<ScrapedContent>, ranks: seq<RankResult>, minScore: real)
    ensures Filtered(a + b, ranks, minScore) == Filtered(a, ranks, minScore) + Filtered(b, ranks, minScore)
  {
    if a != [] {
      assert (a + b)[0] == a[0];
      assert (a + b)[1..] == a[1..] + b;
      FilteredAppend(a[1..], b, ranks, minScore);
    } else {
      assert a + b == b;
    }
  }

  /** When every item qualifies, the filter keeps the whole list in order. */
  lemma {:induction false} FilteredAllQualify(contents: seq<ScrapedContent>, ranks: seq<RankResult>, minScore: real)
    requires forall k :: 0 <= k < |contents| ==> Qualifies(contents[k], ranks, minScore)
    ensures Filtered(contents, ranks, minScore) == contents
  {
    if contents != [] {
      FilteredAllQualify(contents[1..], ranks, minScore);
      assert [contents[0]] + contents[1..] == contents;
    }
  }

  /** The selection `process` makes from the list it gathers: filter by score,
      then truncate. */
  function Selection(contents: seq<ScrapedContent>, ranks: seq<RankResult>, p: Processing): seq<ScrapedContent> {
    Top(Filtered(contents, ranks, p.minScore), p.maxContents)
  }

  /** The selection is at most `maxContents` long and holds only items that
      reach the threshold. */
  lemma SelectionBounds(contents: seq<ScrapedContent>, ranks: seq<RankResult>, p: Processing)
    ensures var s := Selection(contents, ranks, p);
      && |s| <= p.maxContents
      && forall x :: x in s ==> x in contents && Qualifies(x, ranks, p.minScore)
  {
    var f := Filtered(contents, ranks, p.minScore);
    var s := Selection(contents, ranks, p);
    forall x | x in s ensures x in contents && Qualifies(x, ranks, p.minScore) {
      assert x in f;
      FilteredExact(contents, ranks, p.minScore, x);
    }
  }

  /** The selection step of `process` over a gathered list: filter, truncate,
      then the batch loop. */
  method Select(contents: seq<ScrapedContent>, ranks: seq<RankResult>, p: Processing)
    returns (batches: seq<seq<ScrapedContent>>, top: seq<ScrapedContent>)
    requires p.batchSize >= 1
    ensures top == Selection(contents, ranks, p)
    ensures Flatten(batches) == top
    ensures forall k :: 0 <= k < |batches| ==> 0 < |batches[k]| <= p.batchSize
  {
    var filtered := Filtered(contents, ranks, p.minScore);
    top := Top(filtered, p.maxContents);
    batches := Batches(top, p.batchSize);
  }

  /** Batches that are all non-empty flatten to nothing only when there are none. */
  lemma NoBatches(batches: seq<seq<ScrapedContent>>)
    requires forall k :: 0 <= k < |batches| ==> batches[k] != []
    ensures Flatten(batches) == [] <==> batches == []
  {
  }

  /** A directory on disk, shared by every workflow that writes into it. */
  class Directory {
    var files: Store.Dir

    constructor (files: Store.Dir)
      ensures this.files == files
    {
      this.files := files;
    }
  }

  /** What `refresh` returns: nothing without the scraper, when the feed
      cannot be reached or when it answers with a code other than 200;
      otherwise the record's `updated` time. */
  function RefreshOf(hasScraper: bool, response: Result<Response>): (r: Option<RefreshResult>)
    ensures r.Some? <==> hasScraper && response.Ok? && response.value.code == 200
    ensures r.Some? ==> r.value.date == response.value.data.updated
  {
    if !hasScraper || response.Err? || response.value.code != 200 then None
    else Some(RefreshResult(response.value.data.updated))
  }

  /** The data directory after `refresh`: the record is written when, and
      only when, `refresh` returns it. */
  function RefreshedDir(dir: Store.Dir, hasScraper: bool, response: Result<Response>): Store.Dir
    requires Store.Valid(dir)
  {
    if RefreshOf(hasScraper, response).Some? then
      Store.Write(dir, SavedFileName(response.value.data), Serialize(ToJson(response.value.data)))
    else dir
  }

  /** How `process` ends: it rethrows a failure of the ranking step. */
  function ProcessOutcome(ranking: Result<seq<RankResult>>): Outcome {
    if ranking.Ok? then Pass else Fail(ranking.error)
  }

  class PersonalWorkflow {
    /** The data directory `data/60s`. */
    const dataDir: Directory

    constructor (dataDir: Directory)
      ensures this.dataDir == dataDir
    {
      this.dataDir := dataDir;
    }

    /** `saveDataToFile(data)`: the pretty-printed record under its day's name. */
    method SaveDataToFile(data: FeedData)
      requires Store.Valid(dataDir.files)
      modifies dataDir
      ensures Store.Valid(dataDir.files)
      ensures dataDir.files == Store.Write(old(dataDir.files), SavedFileName(data), Serialize(ToJson(data)))
    {
      dataDir.files := Store.Write(dataDir.files, SavedFileName(data), Serialize(ToJson(data)));
    }

    /** `refresh()`: `hasScraper` says whether the scraper is registered and
        `response` is the feed's answer, or the error fetching it. */
    method Refresh(hasScraper: bool, response: Result<Response>) returns (r: Option<RefreshResult>)
      requires Store.Valid(dataDir.files)
      modifies dataDir
      ensures Store.Valid(dataDir.files)
      ensures r == RefreshOf(hasScraper, response)
      ensures dataDir.files == RefreshedDir(old(dataDir.files), hasScraper, response)
    {
      if !hasScraper {
        return None;
      }
      if response.Err? || response.value.code != 200 {
        return None;
      }
      var data := response.value.data;
      SaveDataToFile(data);
      r := Some(RefreshResult(data.updated));
    }

    /** `process()`: `ranking` is what the ranker gives for the gathered
        contents, or the error it throws. The list gathered is empty, so
        whatever the ranking no batch is processed and nothing is handed on
        for publishing. */
    method Process(ranking: Result<seq<RankResult>>)
      returns (outcome: Outcome, batches: seq<seq<ScrapedContent>>, published: seq<ScrapedContent>)
      ensures outcome == ProcessOutcome(ranking)
      ensures batches == [] && published == []
    {
      var allContents: seq<ScrapedContent> := [];
      if ranking.Err? {
        return Fail(ranking.error), [], [];
      }
      batches, published := Select(allContents, ranking.value, PersonalProcessing);
      NoBatches(batches);
      outcome := Pass;
    }
  }

  /** After `refresh` returns a record, its copy reads back as the record and
      every other file is as it was; when it returns nothing, the directory is
      untouched. */
  lemma RefreshKeepsCopy(dir: Store.Dir, hasScraper: bool, response: Result<Response>)
    requires Store.Valid(dir)
    ensures var d := RefreshedDir(dir, hasScraper, response);
      && Store.Valid(d)
      && (RefreshOf(hasScraper, response).None? ==> d == dir)
      && (RefreshOf(hasScraper, response).Some? ==>
        var name := SavedFileName(response.value.data);
        && name in d.blobs && Parse(d.blobs[name]) == Some(ToJson(response.value.data))
        && forall n :: n in dir.blobs && n != name ==> n in d.blobs && d.blobs[n] == dir.blobs[n])
  {
    if RefreshOf(hasScraper, response).Some? {
      ParseSerialize(ToJson(response.value.data));
    }
  }
}
