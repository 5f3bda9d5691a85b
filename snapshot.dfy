/** One archived document: the checks `validateData` applies to a parsed payload,
    the strict and loose comparison of two payloads (`compareNewsData`), the file
    name and byte form a payload is saved under, and `readData`. */
module Snapshot {
  import opened Outcomes
  import opened Json
  import opened Codec
  import opened Calendar
  import opened Text
  import Store

  /** The archive's settings (`CONFIG`). */
  datatype Config = Config(compressionEnabled: bool, strictComparison: bool, retentionDays: nat)

  const DefaultConfig: Config := Config(true, true, 30)

  const RequiredFields: seq<string> := ["date", "news", "audio", "tip", "cover", "link", "created", "updated"]
  const DateFields: seq<string> := ["date", "created", "updated"]

  /** `!isNaN(new Date(v).getTime())` for a parsed value: `null` and booleans
      convert to 0 and 1; numbers are valid within the time range; strings are
      parsed; an array is converted to its joined text, which is parsed; an
      object converts to `[object Object]`, which is not a date. */
  predicate DateValid(v: Json) {
    match v
    case JNull => true
    case JBool(_) => true
    case JNum(n) => -MaxTime <= n <= MaxTime
    case JStr(s) => ParseTimestamp(s).Some?
    case JArr(_) => ParseTimestamp(Display(v)).Some?
    case JObj(_) => false
  }

  /** A one-element array holding a string (at any depth of nesting) is a
      valid date exactly when the string is; an empty array and an array
      holding only `null` are not, though `null` itself is. */
  lemma {:induction false} ArrayDates(s: string)
    ensures DateValid(JArr([JStr(s)])) <==> DateValid(JStr(s))
    ensures DateValid(JArr([JArr([JStr(s)])])) <==> DateValid(JStr(s))
    ensures !DateValid(JArr([])) && !DateValid(JArr([JNull])) && DateValid(JNull)
  {
    assert Display(JArr([JStr(s)])) == s;
    assert Display(JArr([JArr([JStr(s)])])) == s;
    assert Display(JArr([])) == "";
    assert Display(JArr([JNull])) == "";
  }

  /** The first of `fields` that `data` lacks (the one the loop reports). */
  function FirstMissing(data: Json, fields: seq<string>): (r: Option<string>)
    ensures r.None? <==> forall k :: 0 <= k < |fields| ==> Has(data, fields[k])
    ensures r.Some? ==> r.value in fields && !Has(data, r.value)
  {
    if fields == [] then None
    else if !Has(data, fields[0]) then Some(fields[0])
    else FirstMissing(data, fields[1..])
  }

  /** The first of `fields` whose value is present but not a valid date. */
  function FirstBadDate(data: Json, fields: seq<string>): (r: Option<string>)
    ensures r.None? <==> forall k :: 0 <= k < |fields| ==> Get(data, fields[k]).None? || DateValid(Get(data, fields[k]).value)
    ensures r.Some? ==> r.value in fields && Has(data, r.value) && !DateValid(Get(data, r.value).value)
  {
    if fields == [] then None
    else if Has(data, fields[0]) && !DateValid(Get(data, fields[0]).value) then Some(fields[0])
    else FirstBadDate(data, fields[1..])
  }

  /** `Array.isArray(data.news) && data.news.length > 0`. */
  predicate NewsNonEmpty(data: Json) {
    var news := Get(data, "news");
    news.Some? && news.value.JArr? && |news.value.items| > 0
  }

  /** `validateData`: the three checks in the order the source makes them. */
  function ValidateData(data: Json): (ok: bool)
    ensures ok <==>
      && data.JObj?
      && (forall f :: f in RequiredFields ==> Has(data, f))
      && (forall f :: f in DateFields ==> Has(data, f) && DateValid(Get(data, f).value))
      && NewsNonEmpty(data)
  {
    if FirstMissing(data, RequiredFields).Some? then false
    else
      assert Has(data, RequiredFields[0]);
      assert forall f :: f in DateFields ==> f in RequiredFields;
      if FirstBadDate(data, DateFields).Some? then false
      else NewsNonEmpty(data)
  }

  /** `news.every((n, i) => n === other[i])`: every item is strictly equal
      to what `other[i]` reads, and `undefined` equals no parsed item. */
  predicate SameItems(items: seq<Json>, other: Json) {
    forall k :: 0 <= k < |items| ==> IndexOf(other, k).Some? && StrictlyEqual(items[k], IndexOf(other, k).value)
  }

  /** Loose mode: the days (part of `date` before `T`) agree, the lengths of
      the two `news` values are the same number, and `news` agrees item by
      item; any step that would throw makes the comparison false. `every`
      exists only on arrays, so the first `news` must be one; the second may
      be anything whose `length` and indices read alike, an array-like object
      included. */
  predicate LooseEqual(data1: Json, data2: Json) {
    var d1 := AsString(Get(data1, "date"));
    var d2 := AsString(Get(data2, "date"));
    var n1 := Get(data1, "news");
    var n2 := Get(data2, "news");
    && d1.Some? && d2.Some? && Before(d1.value, 'T') == Before(d2.value, 'T')
    && n1.Some? && n1.value.JArr? && n2.Some? && !n2.value.JNull?
    && LengthOf(n2.value) == Some(JNum(|n1.value.items|))
    && SameItems(n1.value.items, n2.value)
  }

  /** `compareNewsData`: strict mode compares the full serialisations. */
  function CompareNewsData(data1: Json, data2: Json, strictMode: bool): bool {
    if strictMode then Serialize(data1) == Serialize(data2) else LooseEqual(data1, data2)
  }

  /** Strict comparison is equality of the payloads. */
  lemma StrictIsEquality(data1: Json, data2: Json)
    ensures CompareNewsData(data1, data2, true) <==> data1 == data2
  {
    if Serialize(data1) == Serialize(data2) { SerializeInjective(data1, data2); }
  }

  /** Loose comparison reads nothing but `date` and `news`. */
  lemma LooseReadsOnlyDateAndNews(a: Json, a': Json, b: Json, b': Json)
    requires Get(a, "date") == Get(a', "date") && Get(a, "news") == Get(a', "news")
    requires Get(b, "date") == Get(b', "date") && Get(b, "news") == Get(b', "news")
    ensures CompareNewsData(a, b, false) == CompareNewsData(a', b', false)
  {
  }

  predicate AllStrings(items: seq<Json>) {
    forall k :: 0 <= k < |items| ==> items[k].JStr?
  }

  /** For news lists of strings, loose comparison is: same day, same list. */
  lemma LooseOnStrings(data1: Json, data2: Json, news1: seq<Json>, news2: seq<Json>)
    requires AsString(Get(data1, "date")).Some? && AsString(Get(data2, "date")).Some?
    requires Get(data1, "news") == Some(JArr(news1)) && Get(data2, "news") == Some(JArr(news2))
    requires AllStrings(news1)
    ensures CompareNewsData(data1, data2, false) <==>
      Before(AsString(Get(data1, "date")).value, 'T') == Before(AsString(Get(data2, "date")).value, 'T') && news1 == news2
  {
    if |news1| == |news2| && SameItems(news1, JArr(news2)) {
      assert forall k :: 0 <= k < |news1| ==> news1[k] == news2[k];
    }
  }

  /** An array-like object in the backup, `{"length": 1, "0": "a"}`, compares
      loosely equal to the primary's `["a"]` on the same day. */
  lemma ArrayLikeNewsMatches(day: string)
    ensures var a := JObj([Member("date", JStr(day)), Member("news", JArr([JStr("a")]))]);
      var b := JObj([Member("date", JStr(day)), Member("news", JObj([Member("length", JNum(1)), Member("0", JStr("a"))]))]);
      CompareNewsData(a, b, false)
  {
    var like := JObj([Member("length", JNum(1)), Member("0", JStr("a"))]);
    var a := JObj([Member("date", JStr(day)), Member("news", JArr([JStr("a")]))]);
    var b := JObj([Member("date", JStr(day)), Member("news", like)]);
    assert "news" != "date";
    LookupLast(a.members, "date", 0);
    LookupLast(b.members, "date", 0);
    assert NatToString(0) == "0";
    assert IndexOf(like, 0) == Some(JStr("a"));
    assert LengthOf(like) == Some(JNum(1));
  }

  // ---- file names and the byte form of a save

  /** The date part of a file name, `file.split('.')[0]`. */
  function FileDate(name: string): string {
    Before(name, '.')
  }

  /** `${date}.json`, with `.gz` when compression is on. */
  function FileName(date: string, compressed: bool): string {
    date + ".json" + (if compressed then ".gz" else "")
  }

  /** What `saveData` writes: the serialised payload, gzip-compressed when enabled. */
  function Encode(data: Json, compressed: bool): Store.Blob {
    if compressed then Compress(Serialize(data)) else Serialize(data)
  }

  /** `readData`: gunzip for `.gz` names, then parse; a missing file or a failed
      decompression or parse is an error. */
  function ReadData(dir: Store.Dir, name: string): (r: Result<Json>)
    ensures r == Err(NotFound) <==> name !in dir.blobs
    ensures r.Err? ==> r.error in {NotFound, Corrupted}
  {
    if name !in dir.blobs then Err(NotFound)
    else
      var blob := dir.blobs[name];
      var text := if EndsWith(name, ".gz") then Decompress(blob) else Some(blob);
      if text.None? then Err(Corrupted)
      else match Parse(text.value)
        case None => Err(Corrupted)
        case Some(v) => Ok(v)
  }

  /** `readData` depends on nothing but the file's own bytes. */
  lemma ReadSameBlob(d1: Store.Dir, d2: Store.Dir, name: string)
    requires name in d1.blobs <==> name in d2.blobs
    requires name in d1.blobs ==> d1.blobs[name] == d2.blobs[name]
    ensures ReadData(d1, name) == ReadData(d2, name)
  {
  }

  /** An empty file reads as corrupt whatever its name. */
  lemma EmptyBlobCorrupt(dir: Store.Dir, name: string)
    requires name in dir.blobs && dir.blobs[name] == []
    ensures ReadData(dir, name) == Err(Corrupted)
  {
    assert ParseValue([]) == None;
  }

  lemma FileNameSuffix(date: string, compressed: bool)
    ensures EndsWith(FileName(date, compressed), ".gz") <==> compressed
    ensures FileDate(FileName(date, compressed)) == date || '.' in date
  {
    var name := FileName(date, compressed);
    if compressed {
      assert name[|name| - 3..] == ".gz";
    } else {
      assert name[|name| - 3..] == "son";
    }
    if '.' !in date {
      assert name == date + ['.'] + (if compressed then "json.gz" else "json");
      BeforeAppend(date, '.', if compressed then "json.gz" else "json");
    }
  }

  /** Round trip: what was saved under a date reads back as the payload, with or
      without compression. */
  lemma ReadEncoded(dir: Store.Dir, date: string, compressed: bool, data: Json)
    requires Store.Valid(dir)
    ensures ReadData(Store.Write(dir, FileName(date, compressed), Encode(data, compressed)), FileName(date, compressed)) == Ok(data)
  {
    FileNameSuffix(date, compressed);
    ParseSerialize(data);
    DecompressCompress(Serialize(data));
  }
}
