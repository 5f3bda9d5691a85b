/** The archive as the program runs it: the primary and backup directories are
    state that `saveData`, `cleanupOldData`, `restoreFromBackup` and `autoRepair`
    change file by file, and the read-only operations loop over the primary
    directory's listing. Each method is proved equal to the function of the
    same operation on directory values. */
module SnapshotArchive {
  import opened Outcomes
  import opened Json
  import opened Calendar
  import opened Snapshot
  import opened Integrity
  import opened Repository
  import opened Reports
  import opened Text
  import Store
  import opened Samples

  /** `cleanupOldData`'s inner loop: unlink, in listing order, every file of
      `dir` that has expired. */
  method CleanDir(dir: Store.Dir, now: int, retentionDays: nat) returns (r: Store.Dir)
    requires Store.Valid(dir)
    ensures r == Store.RemoveAll(dir, ExpiredNames(dir, now, retentionDays))
  {
    var files := dir.names;
    r := dir;
    ghost var gone: set<string> := {};
    Store.RemoveNothing(dir, gone);
    var i := 0;
    while i < |files|
      invariant 0 <= i <= |files|
      invariant forall n :: n in gone <==> n in files[..i] && IsExpired(n, now, retentionDays)
      invariant r == Store.RemoveAll(dir, gone)
    {
      var file := files[i];
      assert files[..i + 1] == files[..i] + [file];
      if IsExpired(file, now, retentionDays) {
        Store.RemoveAllTwice(dir, gone, {file});
        r := Store.RemoveAll(r, {file});
        gone := gone + {file};
      }
      i := i + 1;
    }
    assert files[..i] == files;
    assert gone == ExpiredNames(dir, now, retentionDays);
  }

  /** `cleanupTestData`'s loop: unlink every file of `dir`. */
  method ClearDir(dir: Store.Dir) returns (r: Store.Dir)
    requires Store.Valid(dir)
    ensures r == Store.Empty
  {
    var files := dir.names;
    r := dir;
    var i := 0;
    while i < |files|
      invariant 0 <= i <= |files|
      invariant Store.Valid(r)
      invariant forall n :: n in r.blobs <==> n in files[i..]
    {
      assert forall n :: n in files[i + 1..] ==> n in files[i..];
      r := Store.RemoveAll(r, {files[i]});
      i := i + 1;
    }
    Store.NothingStored(r);
  }

  /** The continuity loop: walk from the first to the last day, collecting
      the days that have no file. */
  method MissingDates(dates: seq<string>) returns (missing: seq<string>)
    ensures missing == Gaps(dates)
  {
    missing := [];
    if |dates| > 0 {
      GapsBounds(dates);
      var start := ParseDay(Least(dates));
      var end := ParseDay(Greatest(dates));
      if start.Some? && end.Some? && start.value <= end.value {
        missing := WalkDays(start.value, end.value, dates);
      }
    }
  }

  /** The walk itself, from day `start` to day `end` inclusive. */
  method WalkDays(start: Day, end: Day, dates: seq<string>) returns (missing: seq<string>)
    requires start <= end
    ensures missing == Absent(start, (end as nat) + 1, dates)
  {
    missing := [];
    var current: nat := start;
    while current <= end
      invariant start <= current <= end + 1
      invariant missing == Absent(start, current, dates)
      decreases end - current
    {
      var dateStr := DayToString(current);
      if dateStr !in dates {
        missing := missing + [dateStr];
      }
      current := current + 1;
    }
  }

  /** The inner `forEach` of the Markdown export: one bullet line per news item
      appended to `text`. */
  method AppendBullets(text: string, items: seq<Json>) returns (r: string)
    ensures r == text + Bullets(items)
  {
    r := text;
    var j := 0;
    while j < |items|
      invariant 0 <= j <= |items|
      invariant r == text + Bullets(items[..j])
    {
      var line := "- " + Display(items[j]) + "\n";
      BulletsSnoc(items, j);
      AppendAssoc(text, Bullets(items[..j]), line);
      r := r + line;
      j := j + 1;
    }
    assert items[..j] == items;
  }

  /** The Markdown part of `exportData`'s `forEach` for one record: the
      heading, the bullets, then a blank line; a record whose news is not an
      array throws. */
  method AppendSection(content: string, data: Json) returns (r: Result<string>)
    ensures MarkdownSection(data).Err? ==> r == Err(MarkdownSection(data).error)
    ensures MarkdownSection(data).Ok? ==> r == Ok(content + MarkdownSection(data).value)
  {
    var heading := "## " + DateText(data) + "\n\n";
    var news := NewsItems(data);
    if news.Err? {
      return Err(news.error);
    }
    var text := AppendBullets(content + heading, news.value);
    text := text + "\n";
    ConcatFive("## ", DateText(data), "\n\n", Bullets(news.value), "\n");
    AppendAssoc4(content, heading, Bullets(news.value), "\n");
    r := Ok(text);
  }

  /** `exportData`'s rendering of the collected records as CSV or Markdown. */
  method RenderText(format: ExportFormat, records: seq<Json>) returns (r: Result<string>)
    requires format != JsonFormat
    ensures r == Render(format, records)
  {
    var content := if format == Csv then CsvHeader else MarkdownHeader;
    var k := 0;
    while k < |records|
      invariant 0 <= k <= |records|
      invariant Render(format, records[..k]) == Ok(content)
    {
      var data := records[k];
      RenderStep(format, records, k);
      var part: Result<string>;
      if format == Csv {
        part := CsvRow(data);
        if part.Ok? {
          part := Ok(content + part.value);
        }
      } else {
        part := AppendSection(content, data);
      }
      if part.Err? {
        RenderAborts(format, records, k + 1);
        return Err(part.error);
      }
      content := part.value;
      k := k + 1;
    }
    assert records[..k] == records;
    r := Ok(content);
  }

  /** One turn of the statistics loop: add `file`'s size, dates and news
      count to the running totals, or stop with the error of reading it. */
  method AddFileStep(dir: Store.Dir, t: Totals, file: string) returns (r: Result<Totals>)
    requires file in dir.blobs
    ensures r == AddFile(dir, t, file)
  {
    var fileDate := FileDate(file);
    var totalSize := t.size + |dir.blobs[file]|;
    var oldest := Older(t.oldest, fileDate);
    var newest := Newer(t.newest, fileDate);
    var data := ReadData(dir, file);
    if data.Err? {
      return Err(data.error);
    }
    var length := NewsLength(data.value);
    if length.Err? {
      return Err(length.error);
    }
    r := Ok(Totals(totalSize, oldest, newest, AddTally(t.news, length.value)));
  }

  /** The statistics loop of `getDataStats` over `files`. */
  method Totalize(dir: Store.Dir, files: seq<string>) returns (r: Result<Totals>)
    requires forall n :: n in files ==> n in dir.blobs
    ensures r == TotalsOf(dir, files)
  {
    var totals := Totals(0, "", "", Count(0));
    var i := 0;
    while i < |files|
      invariant 0 <= i <= |files|
      invariant forall n :: n in files[..i] ==> n in dir.blobs
      invariant TotalsOf(dir, files[..i]) == Ok(totals)
    {
      TotalsSnoc(dir, files, i, totals);
      var step := AddFileStep(dir, totals, files[i]);
      if step.Err? {
        TotalsAbort(dir, files, i + 1);
        return step;
      }
      totals := step.value;
      i := i + 1;
    }
    assert files[..i] == files;
    r := Ok(totals);
  }

  class Archive {
    var primary: Store.Dir
    var backup: Store.Dir
    const config: Config

    /** Each directory lists every stored file exactly once. */
    predicate Valid()
      reads this
    {
      Store.Valid(primary) && Store.Valid(backup)
    }

    /** The two directories as one value. */
    function Contents(): Disk
      reads this
    {
      Disk(primary, backup)
    }

    /** An archive whose two directories are empty. */
    constructor (config: Config)
      ensures Valid()
      ensures primary == Store.Empty && backup == Store.Empty
      ensures this.config == config
    {
      primary := Store.Empty;
      backup := Store.Empty;
      this.config := config;
    }

    /** `saveData(data, date)`: the validation failure is the thrown error. */
    method SaveData(data: Json, date: string) returns (outcome: Outcome)
      requires Valid()
      modifies this
      ensures Valid()
      ensures Step(outcome, Contents()) == Save(old(Contents()), config, data, date)
    {
      if !ValidateData(data) {
        return Fail(Validation);
      }
      var name := FileName(date, config.compressionEnabled);
      var blob := Encode(data, config.compressionEnabled);
      primary := Store.Write(primary, name, blob);
      backup := Store.Write(backup, name, blob);
      outcome := Pass;
    }

    /** `cleanupOldData()` at time `now` (milliseconds since the epoch). */
    method CleanupOldData(now: int)
      requires Valid()
      modifies this
      ensures Valid()
      ensures Contents() == Cleanup(old(Contents()), config, now)
    {
      primary := CleanDir(primary, now, config.retentionDays);
      backup := CleanDir(backup, now, config.retentionDays);
    }

    /** `cleanupTestData()`: empty both directories. */
    method CleanupTestData()
      requires Valid()
      modifies this
      ensures Valid()
      ensures primary == Store.Empty && backup == Store.Empty
    {
      primary := ClearDir(primary);
      backup := ClearDir(backup);
    }

    /** `testDataSaving()` with the sample stamped at noon on day `d`, run at
        time `now`. The sample is valid and is saved under day `d`'s name. */
    method TestDataSaving(d: Day, now: int) returns (saved: Result<Json>)
      requires Valid()
      modifies this
      ensures Valid()
      ensures ValidateData(TestSample(d)) && Contents() == SaveLoseRestoreRun(old(Contents()), config, TestSample(d), d, now)
      ensures now - StartOfDay(d) <= config.retentionDays * MsPerDay ==> saved == Ok(TestSample(d))
      ensures now - StartOfDay(d) > config.retentionDays * MsPerDay ==> saved == Err(NotFound)
    {
      TestSampleValid(d);
      saved := SaveLoseRestoreSteps(TestSample(d), d, now);
    }

    /** The steps of `testDataSaving` for a valid record of day `d`: save it,
        delete the primary copy, restore it from the backup, clean up and read
        the primary copy back. The backup holds the record, so the restore
        succeeds; the read gives the record while the retention period since
        day `d` has not run out, and fails once the cleanup has removed it. */
    method SaveLoseRestoreSteps(data: Json, d: Day, now: int) returns (saved: Result<Json>)
      requires Valid() && ValidateData(data)
      modifies this
      ensures Valid()
      ensures Contents() == SaveLoseRestoreRun(old(Contents()), config, data, d, now)
      ensures now - StartOfDay(d) <= config.retentionDays * MsPerDay ==> saved == Ok(data)
      ensures now - StartOfDay(d) > config.retentionDays * MsPerDay ==> saved == Err(NotFound)
    {
      var date := DayToString(d);
      SaveLoseRestore(Contents(), config, data, d, now);
      var outcome := SaveData(data, date);
      var mainFile := FileName(date, config.compressionEnabled);
      primary := Store.RemoveAll(primary, {mainFile});
      outcome := RestoreFromBackup(date);
      CleanupOldData(now);
      saved := ReadData(primary, mainFile);
    }

    /** `restoreFromBackup(date)`: a missing backup is the thrown error. */
    method RestoreFromBackup(date: string) returns (outcome: Outcome)
      requires Valid()
      modifies this
      ensures Valid()
      ensures Step(outcome, Contents()) == Restore(old(Contents()), config, date)
    {
      var name := FileName(date, config.compressionEnabled);
      if name !in backup.blobs {
        return Fail(NotFound);
      }
      primary := Store.Write(primary, name, backup.blobs[name]);
      outcome := Pass;
    }

    /** The per-file body of the integrity loop. */
    method CheckFile(file: string) returns (v: Verdict)
      ensures v == Classify(primary, backup, file, config.strictComparison)
    {
      var mainData := ReadData(primary, file);
      if mainData.Err? || !ValidateData(mainData.value) {
        return Corrupt;
      }
      if file in backup.blobs {
        var backupData := ReadData(backup, file);
        if backupData.Err? || !CompareNewsData(mainData.value, backupData.value, config.strictComparison) {
          return Mismatch;
        }
        return Sound;
      }
      return Mismatch;
    }

    /** The file loop of `checkDataIntegrity`: the corrupt files and the
        mismatched ones, each in listing order. */
    method FileVerdicts(files: seq<string>) returns (corrupted: seq<string>, mismatches: seq<string>)
      ensures corrupted == Filed(files, VerdictOf(primary, backup, config.strictComparison), Corrupt)
      ensures mismatches == Filed(files, VerdictOf(primary, backup, config.strictComparison), Mismatch)
    {
      ghost var verdict := VerdictOf(primary, backup, config.strictComparison);
      corrupted := [];
      mismatches := [];
      var i := 0;
      while i < |files|
        invariant 0 <= i <= |files|
        invariant corrupted == Filed(files[..i], verdict, Corrupt)
        invariant mismatches == Filed(files[..i], verdict, Mismatch)
      {
        var file := files[i];
        assert files[..i + 1][..i] == files[..i];
        var v := CheckFile(file);
        if v == Corrupt {
          corrupted := corrupted + [file];
        } else if v == Mismatch {
          mismatches := mismatches + [file];
        }
        i := i + 1;
      }
      assert files[..i] == files;
    }

    /** `checkDataIntegrity()`, with a backup that cannot be read filed as a
        mismatch. */
    method CheckDataIntegrity() returns (report: IntegrityReport)
      requires Valid()
      ensures report == IntegrityOf(primary, backup, config.strictComparison)
    {
      var files := primary.names;
      var missing := MissingDates(FileDates(files));
      var corrupted, mismatches := FileVerdicts(files);
      report := IntegrityReport(missing, corrupted, mismatches, |files|, StatusOf(missing, corrupted, mismatches));
    }

    /** The body of `autoRepair`'s first loop: restore `file` from its backup,
        adding it to the restored or to the failed list. */
    method RestoreOne(file: string, start: RepairReport) returns (report: RepairReport)
      requires Valid()
      modifies this
      ensures Valid()
      ensures Progress(Contents(), report) == RestoreFile(Progress(old(Contents()), start), config, file)
    {
      var outcome := RestoreFromBackup(FileDate(file));
      if outcome == Pass {
        report := start.(restoredFromBackup := start.restoredFromBackup + [file],
                         totalRepaired := start.totalRepaired + 1);
      } else {
        report := start.(failedFiles := start.failedFiles + [file]);
      }
    }

    /** `autoRepair`'s first loop: restore each file of `files` from its
        backup. */
    method RestoreCorrupt(files: seq<string>, start: RepairReport) returns (report: RepairReport)
      requires Valid()
      modifies this
      ensures Valid()
      ensures Progress(Contents(), report) == RestorePass(Progress(old(Contents()), start), config, files)
    {
      ghost var p := Progress(Contents(), start);
      report := start;
      var i := 0;
      while i < |files|
        invariant 0 <= i <= |files|
        invariant Valid()
        invariant Progress(Contents(), report) == RestorePass(p, config, files[..i])
      {
        RestorePassStep(p, config, files, i);
        report := RestoreOne(files[i], report);
        i := i + 1;
      }
      assert files[..i] == files;
    }

    /** The body of `autoRepair`'s second loop: save `file` again when its
        primary copy exists and is valid; an unreadable copy is a failure and
        an invalid one is skipped. */
    method ResaveOne(file: string, start: RepairReport) returns (report: RepairReport)
      requires Valid()
      modifies this
      ensures Valid()
      ensures Progress(Contents(), report) == ResaveFile(Progress(old(Contents()), start), config, file)
    {
      report := start;
      if file in primary.blobs {
        var data := ReadData(primary, file);
        if data.Err? {
          report := start.(failedFiles := start.failedFiles + [file]);
        } else if ValidateData(data.value) {
          var outcome := SaveData(data.value, FileDate(file));
          if outcome == Pass {
            report := start.(repairedFiles := start.repairedFiles + [file],
                             totalRepaired := start.totalRepaired + 1);
          } else {
            report := start.(failedFiles := start.failedFiles + [file]);
          }
        }
      }
    }

    /** `autoRepair`'s second loop: save again each file of `files` whose
        primary copy exists and is valid. */
    method ResaveMismatched(files: seq<string>, start: RepairReport) returns (report: RepairReport)
      requires Valid()
      modifies this
      ensures Valid()
      ensures Progress(Contents(), report) == ResavePass(Progress(old(Contents()), start), config, files)
    {
      ghost var p := Progress(Contents(), start);
      report := start;
      var j := 0;
      while j < |files|
        invariant 0 <= j <= |files|
        invariant Valid()
        invariant Progress(Contents(), report) == ResavePass(p, config, files[..j])
      {
        ResavePassStep(p, config, files, j);
        report := ResaveOne(files[j], report);
        j := j + 1;
      }
      assert files[..j] == files;
    }

    /** `autoRepair()`: run the integrity check, restore every corrupt file
        from its backup, then save again every mismatched file whose primary
        copy is valid. */
    method AutoRepair() returns (report: RepairReport)
      requires Valid()
      modifies this
      ensures Valid()
      ensures Progress(Contents(), report) == Repair(old(Contents()), config)
    {
      var check := CheckDataIntegrity();
      report := RestoreCorrupt(check.corruptedFiles, NoRepairs);
      report := ResaveMismatched(check.backupMismatches, report);
    }

    /** `queryData(options)`. */
    method QueryData(options: QueryOptions) returns (r: Result<seq<Hit>>)
      ensures r == Query(primary, primary.names, options)
    {
      var files := primary.names;
      var results: seq<Hit> := [];
      var i := 0;
      while i < |files|
        invariant 0 <= i <= |files|
        invariant Query(primary, files[..i], options) == Ok(results)
      {
        var file := files[i];
        assert files[..i + 1][..i] == files[..i];
        var more := QueryFile(primary, file, options);
        if more.Err? {
          QueryAborts(primary, files, i + 1, options);
          return Err(more.error);
        }
        results := results + more.value;
        i := i + 1;
      }
      assert files[..i] == files;
      r := Ok(results);
    }

    /** `exportData(format, startDate, endDate)`, returning the content it
        writes. */
    method ExportData(format: ExportFormat, startDate: Option<string>, endDate: Option<string>) returns (r: Result<Export>)
      ensures r == ExportOf(primary, format, startDate, endDate)
    {
      var files := primary.names;
      var allData: seq<Json> := [];
      var i := 0;
      while i < |files|
        invariant 0 <= i <= |files|
        invariant Collect(primary, files[..i], startDate, endDate) == Ok(allData)
      {
        var file := files[i];
        assert files[..i + 1][..i] == files[..i];
        if InRange(FileDate(file), startDate, endDate) {
          var data := ReadData(primary, file);
          if data.Err? {
            CollectAborts(primary, files, i + 1, startDate, endDate);
            return Err(data.error);
          }
          allData := allData + [data.value];
        }
        i := i + 1;
      }
      assert files[..i] == files;
      if format == JsonFormat {
        return Ok(Document(JArr(allData)));
      }
      var content := RenderText(format, allData);
      if content.Err? {
        return Err(content.error);
      }
      r := Ok(Text(content.value));
    }


    /** `getDataStats()`. */
    method GetDataStats() returns (r: Result<DataStats>)
      requires Valid()
      ensures r == StatsOf(primary, backup)
    {
      var files := primary.names;
      var totals := Totalize(primary, files);
      if totals.Err? {
        return Err(totals.error);
      }
      var t := totals.value;
      r := Ok(DataStats(|files|, t.size, t.oldest, t.newest, t.news,
        BackupStatus(|files|, |backup.names|, |files| - |backup.names|)));
    }
  }
}
