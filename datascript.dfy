/** The stand-alone data script: it writes one compressed feed record to the
    data directory and to the backup directory, prunes the data directory of
    files more than seven whole days old, and reads the record back. */
module DataScript {
  import opened Outcomes
  import opened Json
  import opened Text
  import opened Calendar
  import opened Scraper
  import opened Snapshot
  import Store

  /** The script keeps seven days of data. */
  const KeepDays: int := 7

  /** The name the record is stored under: its day and `.json.gz`. */
  function ArchiveName(data: FeedData): string {
    FileName(Before(data.date, 'T'), true)
  }

  /** The stored bytes: the record's JSON text, gzip-compressed. */
  function ArchiveBlob(data: FeedData): Store.Blob {
    Encode(ToJson(data), true)
  }

  /** `Math.floor((now - fileDate) / day)`, in whole days since day `d` began;
      the divisor is positive, so Euclidean division is the floor. */
  function DiffDays(now: int, d: Day): int {
    (now - StartOfDay(d)) / MsPerDay
  }

  /** Whether the prune loop deletes `name`: a `.json.gz` file whose date part
      is a valid day more than seven whole days ago. An invalid date gives
      `NaN`, which is never greater than seven. */
  predicate Stale(name: string, now: int) {
    EndsWith(name, ".json.gz") && ParseDay(FileDate(name)).Some? && DiffDays(now, ParseDay(FileDate(name)).value) > KeepDays
  }

  function StaleNames(dir: Store.Dir, now: int): set<string> {
    set n | n in dir.blobs && Stale(n, now)
  }

  /** Flooring to whole days, "more than seven days" means at least eight full
      days since the day began. */
  lemma StaleMeansEightDays(now: int, d: Day)
    ensures DiffDays(now, d) > KeepDays <==> now - StartOfDay(d) >= 8 * MsPerDay
  {
    var t := now - StartOfDay(d);
    if t >= 8 * MsPerDay {
      assert t / MsPerDay >= 8 by {
        assert t == MsPerDay * (t / MsPerDay) + t % MsPerDay;
        assert t % MsPerDay < MsPerDay;
      }
    } else {
      assert t / MsPerDay <= 7 by {
        assert t == MsPerDay * (t / MsPerDay) + t % MsPerDay;
        assert t % MsPerDay >= 0;
      }
    }
  }

  /** The prune loop over the listing of the data directory. */
  method Prune(dir: Store.Dir, now: int) returns (r: Store.Dir)
    requires Store.Valid(dir)
    ensures r == Store.RemoveAll(dir, StaleNames(dir, now))
  {
    var files := dir.names;
    r := dir;
    ghost var gone: set<string> := {};
    Store.RemoveNothing(dir, gone);
    var i := 0;
    while i < |files|
      invariant 0 <= i <= |files|
      invariant forall n :: n in gone <==> n in files[..i] && Stale(n, now)
      invariant r == Store.RemoveAll(dir, gone)
    {
      var file := files[i];
      assert files[..i + 1] == files[..i] + [file];
      i := i + 1;
      if !EndsWith(file, ".json.gz") {
        continue;
      }
      var fileDate := ParseDay(FileDate(file));
      if fileDate.Some? && DiffDays(now, fileDate.value) > KeepDays {
        Store.RemoveAllTwice(dir, gone, {file});
        r := Store.RemoveAll(r, {file});
        gone := gone + {file};
      }
    }
    assert files[..i] == files;
    assert gone == StaleNames(dir, now);
  }

  /** What one run of the script leaves behind and what it reads back. */
  datatype Run = Run(primary: Store.Dir, backup: Store.Dir, readBack: Result<Json>)

  /** One run of the script at time `now`. */
  function Script(primary: Store.Dir, backup: Store.Dir, data: FeedData, now: int): Run
    requires Store.Valid(primary) && Store.Valid(backup)
  {
    var name := ArchiveName(data);
    var written := Store.Write(primary, name, ArchiveBlob(data));
    var pruned := Store.RemoveAll(written, StaleNames(written, now));
    Run(pruned, Store.Write(backup, name, ArchiveBlob(data)), ReadData(pruned, name))
  }

  /** `main()`: save to both directories, prune the data directory, read back. */
  method RunScript(primary: Store.Dir, backup: Store.Dir, data: FeedData, now: int) returns (run: Run)
    requires Store.Valid(primary) && Store.Valid(backup)
    ensures run == Script(primary, backup, data, now)
  {
    var name := ArchiveName(data);
    var compressed := ArchiveBlob(data);
    var dataDir := Store.Write(primary, name, compressed);
    var backupDir := Store.Write(backup, name, compressed);
    dataDir := Prune(dataDir, now);
    var parsed := ReadData(dataDir, name);
    run := Run(dataDir, backupDir, parsed);
  }

  /** Both directories receive the one compressed buffer under the one name;
      the primary copy stays, with those bytes, unless the prune removes it. */
  lemma SameBytes(primary: Store.Dir, backup: Store.Dir, data: FeedData, now: int)
    requires Store.Valid(primary) && Store.Valid(backup)
    ensures var run := Script(primary, backup, data, now);
      var name := ArchiveName(data);
      && name in run.backup.blobs && run.backup.blobs[name] == ArchiveBlob(data)
      && (name in run.primary.blobs <==> !Stale(name, now))
      && (name in run.primary.blobs ==> run.primary.blobs[name] == run.backup.blobs[name])
  {
  }

  /** The backup copy always reads back as the record; the prune does not
      touch the backup directory. */
  lemma BackupKeepsRecord(primary: Store.Dir, backup: Store.Dir, data: FeedData, now: int)
    requires Store.Valid(primary) && Store.Valid(backup)
    ensures ReadData(Script(primary, backup, data, now).backup, ArchiveName(data)) == Ok(ToJson(data))
  {
    ReadEncoded(backup, Before(data.date, 'T'), true, ToJson(data));
  }

  /** The read-back succeeds, giving the record, exactly when the prune has
      spared the file just written; otherwise the file is gone and the read
      fails. */
  lemma ReadBackUnlessPruned(primary: Store.Dir, backup: Store.Dir, data: FeedData, now: int)
    requires Store.Valid(primary) && Store.Valid(backup)
    ensures var run := Script(primary, backup, data, now);
      && (!Stale(ArchiveName(data), now) ==> run.readBack == Ok(ToJson(data)))
      && (Stale(ArchiveName(data), now) ==> run.readBack == Err(NotFound))
  {
    var name := ArchiveName(data);
    var written := Store.Write(primary, name, ArchiveBlob(data));
    var pruned := Store.RemoveAll(written, StaleNames(written, now));
    ReadEncoded(primary, Before(data.date, 'T'), true, ToJson(data));
    if !Stale(name, now) {
      ReadSameBlob(pruned, written, name);
    }
  }

  /** For a record whose day part is a valid day, the script deletes its own
      file, and its read-back fails, exactly when at least eight full days
      have passed since that day began. */
  lemma SelfPruneAfterEightDays(primary: Store.Dir, backup: Store.Dir, data: FeedData, now: int)
    requires Store.Valid(primary) && Store.Valid(backup)
    requires ParseTimestamp(data.date).Some?
    ensures var run := Script(primary, backup, data, now);
      run.readBack.Err? <==> now - StartOfDay(ParseTimestamp(data.date).value) >= 8 * MsPerDay
  {
    var day := Before(data.date, 'T');
    var name := ArchiveName(data);
    assert '.' !in day by {
      DayNameDigits(day, '.');
    }
    FileNameSuffix(day, true);
    assert EndsWith(name, ".json.gz") by {
      assert name[|name| - 8..] == ".json.gz";
    }
    StaleMeansEightDays(now, ParseTimestamp(data.date).value);
    ReadBackUnlessPruned(primary, backup, data, now);
  }

  /** Files the prune spares keep their contents; files that are not
      `.json.gz` archives are never pruned. */
  lemma PruneSpares(dir: Store.Dir, now: int, n: string)
    requires Store.Valid(dir)
    ensures var r := Store.RemoveAll(dir, StaleNames(dir, now));
      && (n in r.blobs <==> n in dir.blobs && !Stale(n, now))
      && (n in r.blobs ==> r.blobs[n] == dir.blobs[n])
      && (n in dir.blobs && !EndsWith(n, ".json.gz") ==> n in r.blobs)
  {
  }
}
