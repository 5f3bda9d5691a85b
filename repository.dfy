/** The archive's two directories as one value, and what each operation that
    writes to them does: `saveData`, `cleanupOldData`, `restoreFromBackup` and
    `autoRepair`. */
module Repository {
  import opened Outcomes
  import opened Json
  import opened Codec
  import opened Calendar
  import opened Text
  import opened Snapshot
  import opened Integrity
  import Store

  /** The primary data directory and its backup. */
  datatype Disk = Disk(primary: Store.Dir, backup: Store.Dir)

  predicate Valid(disk: Disk) {
    Store.Valid(disk.primary) && Store.Valid(disk.backup)
  }

  /** What an operation returned, and the directories after it. */
  datatype Step = Step(outcome: Outcome, disk: Disk)

  // ---- saveData

  /** `saveData(data, date)`: refuse invalid data, otherwise write the same bytes
      under the same name into both directories. */
  function Save(disk: Disk, cfg: Config, data: Json, date: string): (s: Step)
    requires Valid(disk)
    ensures Valid(s.disk)
    ensures !ValidateData(data) ==> s == Step(Fail(Validation), disk)
    ensures ValidateData(data) ==> s.outcome == Pass
  {
    if !ValidateData(data) then Step(Fail(Validation), disk)
    else
      var name := FileName(date, cfg.compressionEnabled);
      var blob := Encode(data, cfg.compressionEnabled);
      Step(Pass, Disk(Store.Write(disk.primary, name, blob), Store.Write(disk.backup, name, blob)))
  }

  /** After a save both copies hold the same bytes, both read back as the
      payload, and no other file changes. */
  lemma SaveMirrors(disk: Disk, cfg: Config, data: Json, date: string)
    requires Valid(disk) && ValidateData(data)
    ensures var s := Save(disk, cfg, data, date);
      var name := FileName(date, cfg.compressionEnabled);
      && s.disk.primary.blobs[name] == s.disk.backup.blobs[name]
      && ReadData(s.disk.primary, name) == Ok(data)
      && ReadData(s.disk.backup, name) == Ok(data)
      && (forall n :: n != name ==> ReadData(s.disk.primary, n) == ReadData(disk.primary, n))
      && (forall n :: n != name ==> ReadData(s.disk.backup, n) == ReadData(disk.backup, n))
  {
    var s := Save(disk, cfg, data, date);
    var name := FileName(date, cfg.compressionEnabled);
    ReadEncoded(disk.primary, date, cfg.compressionEnabled, data);
    ReadEncoded(disk.backup, date, cfg.compressionEnabled, data);
    forall n | n != name
      ensures ReadData(s.disk.primary, n) == ReadData(disk.primary, n)
      ensures ReadData(s.disk.backup, n) == ReadData(disk.backup, n)
    {
      ReadSameBlob(s.disk.primary, disk.primary, n);
      ReadSameBlob(s.disk.backup, disk.backup, n);
    }
  }

  /** Under strict comparison a file just saved passes the integrity check. */
  lemma SavedFileSound(disk: Disk, cfg: Config, data: Json, date: string)
    requires Valid(disk) && ValidateData(data)
    ensures var s := Save(disk, cfg, data, date);
      Classify(s.disk.primary, s.disk.backup, FileName(date, cfg.compressionEnabled), true) == Sound
  {
    SaveMirrors(disk, cfg, data, date);
    var s := Save(disk, cfg, data, date);
    IdenticalCopiesSound(s.disk.primary, s.disk.backup, FileName(date, cfg.compressionEnabled));
  }

  // ---- cleanupOldData

  /** A file is expired when its name's date part is a valid day and more than
      `retentionDays` days have passed since that day's midnight; a name whose
      date part is not a day gives `NaN`, which never exceeds the limit. */
  predicate IsExpired(name: string, now: int, retentionDays: nat) {
    var day := ParseDay(FileDate(name));
    day.Some? && now - StartOfDay(day.value) > retentionDays * MsPerDay
  }

  function ExpiredNames(dir: Store.Dir, now: int, retentionDays: nat): set<string> {
    set n | n in dir.blobs && IsExpired(n, now, retentionDays)
  }

  /** `cleanupOldData`: delete the expired files of both directories. */
  function Cleanup(disk: Disk, cfg: Config, now: int): (r: Disk)
    requires Valid(disk)
    ensures Valid(r)
  {
    Disk(Store.RemoveAll(disk.primary, ExpiredNames(disk.primary, now, cfg.retentionDays)),
         Store.RemoveAll(disk.backup, ExpiredNames(disk.backup, now, cfg.retentionDays)))
  }

  /** Cleanup keeps exactly the files that are not expired, with their contents. */
  lemma CleanupExact(disk: Disk, cfg: Config, now: int, n: string)
    requires Valid(disk)
    ensures var r := Cleanup(disk, cfg, now);
      && (n in r.primary.blobs <==> n in disk.primary.blobs && !IsExpired(n, now, cfg.retentionDays))
      && (n in r.backup.blobs <==> n in disk.backup.blobs && !IsExpired(n, now, cfg.retentionDays))
      && (n in r.primary.blobs ==> r.primary.blobs[n] == disk.primary.blobs[n])
      && (n in r.backup.blobs ==> r.backup.blobs[n] == disk.backup.blobs[n])
  {
  }

  /** A second cleanup at the same time deletes nothing. */
  lemma CleanupIdempotent(disk: Disk, cfg: Config, now: int)
    requires Valid(disk)
    ensures Cleanup(Cleanup(disk, cfg, now), cfg, now) == Cleanup(disk, cfg, now)
  {
    var r := Cleanup(disk, cfg, now);
    Store.RemoveNothing(r.primary, ExpiredNames(r.primary, now, cfg.retentionDays));
    Store.RemoveNothing(r.backup, ExpiredNames(r.backup, now, cfg.retentionDays));
  }

  /** The file saved for day `d` survives cleanup exactly while no more than
      `retentionDays` days have passed since that day began. */
  lemma CleanupKeepsRecentDay(disk: Disk, cfg: Config, now: int, d: Day)
    requires Valid(disk)
    ensures var name := FileName(DayToString(d), cfg.compressionEnabled);
      name in disk.primary.blobs ==>
        (name in Cleanup(disk, cfg, now).primary.blobs <==> now - StartOfDay(d) <= cfg.retentionDays * MsPerDay)
  {
    FileNameSuffix(DayToString(d), cfg.compressionEnabled);
    ParseDayToString(d);
  }

  // ---- restoreFromBackup

  /** `restoreFromBackup(date)`: copy the backup's file for that date over the
      primary one; fail when the backup has none. */
  function Restore(disk: Disk, cfg: Config, date: string): (s: Step)
    requires Valid(disk)
    ensures Valid(s.disk)
    ensures s.disk.backup == disk.backup
  {
    var name := FileName(date, cfg.compressionEnabled);
    if name !in disk.backup.blobs then Step(Fail(NotFound), disk)
    else Step(Pass, Disk(Store.Write(disk.primary, name, disk.backup.blobs[name]), disk.backup))
  }

  /** A restore succeeds exactly when the backup has the file, and then leaves the
      primary copy byte-for-byte equal to the backup and every other file as it was. */
  lemma RestoreCopies(disk: Disk, cfg: Config, date: string)
    requires Valid(disk)
    ensures var s := Restore(disk, cfg, date);
      var name := FileName(date, cfg.compressionEnabled);
      && (s.outcome == Pass <==> name in disk.backup.blobs)
      && (s.outcome.Fail? ==> s == Step(Fail(NotFound), disk))
      && (s.outcome == Pass ==>
            && s.disk.primary.blobs[name] == disk.backup.blobs[name]
            && ReadData(s.disk.primary, name) == ReadData(disk.backup, name))
      && (forall n :: n != name ==> ReadData(s.disk.primary, n) == ReadData(disk.primary, n))
  {
    var s := Restore(disk, cfg, date);
    var name := FileName(date, cfg.compressionEnabled);
    if s.outcome == Pass {
      ReadSameBlob(s.disk.primary, disk.backup, name);
    }
    forall n | n != name
      ensures ReadData(s.disk.primary, n) == ReadData(disk.primary, n)
    {
      ReadSameBlob(s.disk.primary, disk.primary, n);
    }
  }

  /** The directories after `testDataSaving`'s steps: save the record under
      day `d`, delete the primary copy, restore it from the backup, then clean
      up at time `now`. */
  function SaveLoseRestoreRun(disk: Disk, cfg: Config, data: Json, d: Day, now: int): (r: Disk)
    requires Valid(disk) && ValidateData(data)
    ensures Valid(r)
  {
    var date := DayToString(d);
    var name := FileName(date, cfg.compressionEnabled);
    var saved := Save(disk, cfg, data, date);
    var lost := Disk(Store.RemoveAll(saved.disk.primary, {name}), saved.disk.backup);
    Cleanup(Restore(lost, cfg, date).disk, cfg, now)
  }

  /** The file of day `d` is expired exactly when the retention period since
      that day began has run out. */
  lemma DayFileExpired(cfg: Config, now: int, d: Day)
    ensures IsExpired(FileName(DayToString(d), cfg.compressionEnabled), now, cfg.retentionDays) <==>
      now - StartOfDay(d) > cfg.retentionDays * MsPerDay
  {
    FileNameSuffix(DayToString(d), cfg.compressionEnabled);
    ParseDayToString(d);
  }

  /** Save, delete the primary copy and restore: the record's file is in both
      directories, and every other file is as it was. */
  lemma SaveLoseRestoreKeeps(disk: Disk, cfg: Config, data: Json, date: string)
    requires Valid(disk) && ValidateData(data)
    ensures var name := FileName(date, cfg.compressionEnabled);
      var saved := Save(disk, cfg, data, date).disk;
      var lost := Disk(Store.RemoveAll(saved.primary, {name}), saved.backup);
      var restored := Restore(lost, cfg, date).disk;
      && name in restored.primary.blobs && name in restored.backup.blobs
      && forall m :: m != name ==> SameFile(disk, restored, m)
  {
  }

  /** The steps of `testDataSaving` touch no file but the record's own beyond
      what the cleanup does: every other file of either directory is there
      afterwards exactly when the cleanup alone keeps it, with the same bytes.
      The record's own file is in the backup afterwards exactly while the
      retention period since day `d` has not run out. */
  lemma SaveLoseRestoreOthers(disk: Disk, cfg: Config, data: Json, d: Day, now: int, n: string)
    requires Valid(disk) && ValidateData(data)
    ensures var name := FileName(DayToString(d), cfg.compressionEnabled);
      var r := SaveLoseRestoreRun(disk, cfg, data, d, now);
      var c := Cleanup(disk, cfg, now);
      && (n != name ==>
            && (n in r.primary.blobs <==> n in c.primary.blobs)
            && (n in r.backup.blobs <==> n in c.backup.blobs)
            && (n in r.primary.blobs ==> r.primary.blobs[n] == c.primary.blobs[n])
            && (n in r.backup.blobs ==> r.backup.blobs[n] == c.backup.blobs[n]))
      && (name in r.backup.blobs <==> now - StartOfDay(d) <= cfg.retentionDays * MsPerDay)
  {
    var date := DayToString(d);
    var name := FileName(date, cfg.compressionEnabled);
    var saved := Save(disk, cfg, data, date).disk;
    var lost := Disk(Store.RemoveAll(saved.primary, {name}), saved.backup);
    var restored := Restore(lost, cfg, date).disk;
    SaveLoseRestoreKeeps(disk, cfg, data, date);
    assert SaveLoseRestoreRun(disk, cfg, data, d, now) == Cleanup(restored, cfg, now);
    CleanupExact(restored, cfg, now, n);
    CleanupExact(disk, cfg, now, n);
    CleanupExact(restored, cfg, now, name);
    DayFileExpired(cfg, now, d);
  }

  /** `testDataSaving`: save the record under day `d`, delete the primary copy,
      restore it from the backup, then clean up at time `now`. The restore
      succeeds, and afterwards the record reads back from the primary directory
      while the retention period since day `d` has not run out, and is gone
      once it has. */
  lemma SaveLoseRestore(disk: Disk, cfg: Config, data: Json, d: Day, now: int)
    requires Valid(disk) && ValidateData(data)
    ensures var date := DayToString(d);
      var name := FileName(date, cfg.compressionEnabled);
      var saved := Save(disk, cfg, data, date);
      var lost := Disk(Store.RemoveAll(saved.disk.primary, {name}), saved.disk.backup);
      var restored := Restore(lost, cfg, date);
      var cleaned := Cleanup(restored.disk, cfg, now);
      && restored.outcome == Pass
      && (now - StartOfDay(d) <= cfg.retentionDays * MsPerDay ==> ReadData(cleaned.primary, name) == Ok(data))
      && (now - StartOfDay(d) > cfg.retentionDays * MsPerDay ==> ReadData(cleaned.primary, name) == Err(NotFound))
  {
    var date := DayToString(d);
    var name := FileName(date, cfg.compressionEnabled);
    var saved := Save(disk, cfg, data, date);
    var lost := Disk(Store.RemoveAll(saved.disk.primary, {name}), saved.disk.backup);
    SaveMirrors(disk, cfg, data, date);
    assert name in lost.backup.blobs;
    RestoreCopies(lost, cfg, date);
    var restored := Restore(lost, cfg, date);
    assert ReadData(restored.disk.primary, name) == Ok(data);
    CleanupReads(restored.disk, cfg, now, d, data);
  }

  /** A file for day `d` that reads as `data` still does so after cleanup while
      the retention period has not run out, and is gone once it has. */
  lemma CleanupReads(disk: Disk, cfg: Config, now: int, d: Day, data: Json)
    requires Valid(disk)
    requires ReadData(disk.primary, FileName(DayToString(d), cfg.compressionEnabled)) == Ok(data)
    ensures var name := FileName(DayToString(d), cfg.compressionEnabled);
      var cleaned := Cleanup(disk, cfg, now);
      && (now - StartOfDay(d) <= cfg.retentionDays * MsPerDay ==> ReadData(cleaned.primary, name) == Ok(data))
      && (now - StartOfDay(d) > cfg.retentionDays * MsPerDay ==> ReadData(cleaned.primary, name) == Err(NotFound))
  {
    var name := FileName(DayToString(d), cfg.compressionEnabled);
    CleanupKeepsRecentDay(disk, cfg, now, d);
    if now - StartOfDay(d) <= cfg.retentionDays * MsPerDay {
      CleanupExact(disk, cfg, now, name);
      ReadSameBlob(Cleanup(disk, cfg, now).primary, disk.primary, name);
    }
  }

  // ---- autoRepair

  datatype RepairReport = RepairReport(
    repairedFiles: seq<string>,
    failedFiles: seq<string>,
    restoredFromBackup: seq<string>,
    totalRepaired: nat)

  const NoRepairs: RepairReport := RepairReport([], [], [], 0)

  /** The directories and the report as the repair loops go. */
  datatype Progress = Progress(disk: Disk, report: RepairReport)

  /** The first loop's body: restore a corrupt file from its backup. */
  function RestoreFile(p: Progress, cfg: Config, file: string): (q: Progress)
    requires Valid(p.disk)
    ensures Valid(q.disk)
  {
    var s := Restore(p.disk, cfg, FileDate(file));
    if s.outcome == Pass then
      Progress(s.disk, p.report.(restoredFromBackup := p.report.restoredFromBackup + [file],
                                 totalRepaired := p.report.totalRepaired + 1))
    else
      Progress(p.disk, p.report.(failedFiles := p.report.failedFiles + [file]))
  }

  function RestorePass(p: Progress, cfg: Config, files: seq<string>): (q: Progress)
    requires Valid(p.disk)
    ensures Valid(q.disk)
  {
    if files == [] then p
    else RestoreFile(RestorePass(p, cfg, files[..|files| - 1]), cfg, files[|files| - 1])
  }

  /** The second loop's body: if the primary copy exists and is valid, save it
      again (which rewrites both copies); an unreadable one is a failure, an
      invalid one is skipped. */
  function ResaveFile(p: Progress, cfg: Config, file: string): (q: Progress)
    requires Valid(p.disk)
    ensures Valid(q.disk)
  {
    if file !in p.disk.primary.blobs then p
    else match ReadData(p.disk.primary, file)
      case Err(_) => Progress(p.disk, p.report.(failedFiles := p.report.failedFiles + [file]))
      case Ok(data) =>
        if !ValidateData(data) then p
        else
          var s := Save(p.disk, cfg, data, FileDate(file));
          if s.outcome == Pass then
            Progress(s.disk, p.report.(repairedFiles := p.report.repairedFiles + [file],
                                       totalRepaired := p.report.totalRepaired + 1))
          else
            Progress(p.disk, p.report.(failedFiles := p.report.failedFiles + [file]))
  }

  function ResavePass(p: Progress, cfg: Config, files: seq<string>): (q: Progress)
    requires Valid(p.disk)
    ensures Valid(q.disk)
  {
    if files == [] then p
    else ResaveFile(ResavePass(p, cfg, files[..|files| - 1]), cfg, files[|files| - 1])
  }

  /** The restore loop after one more file. */
  lemma RestorePassStep(p: Progress, cfg: Config, files: seq<string>, i: nat)
    requires Valid(p.disk) && i < |files|
    ensures RestorePass(p, cfg, files[..i + 1]) == RestoreFile(RestorePass(p, cfg, files[..i]), cfg, files[i])
  {
    assert files[..i + 1][..i] == files[..i];
  }

  /** The resave loop after one more file. */
  lemma ResavePassStep(p: Progress, cfg: Config, files: seq<string>, i: nat)
    requires Valid(p.disk) && i < |files|
    ensures ResavePass(p, cfg, files[..i + 1]) == ResaveFile(ResavePass(p, cfg, files[..i]), cfg, files[i])
  {
    assert files[..i + 1][..i] == files[..i];
  }

  /** Both loops of `autoRepair` over the lists of an integrity report. */
  function RepairWith(disk: Disk, cfg: Config, check: IntegrityReport): (q: Progress)
    requires Valid(disk)
    ensures Valid(q.disk)
  {
    ResavePass(RestorePass(Progress(disk, NoRepairs), cfg, check.corruptedFiles), cfg, check.backupMismatches)
  }

  /** `autoRepair` driven by the corrected integrity check. */
  function Repair(disk: Disk, cfg: Config): (q: Progress)
    requires Valid(disk)
    ensures Valid(q.disk)
  {
    RepairWith(disk, cfg, IntegrityOf(disk.primary, disk.backup, cfg.strictComparison))
  }

  /** `autoRepair` driven by the integrity check as written. */
  function RepairAsWritten(disk: Disk, cfg: Config): (q: Progress)
    requires Valid(disk)
    ensures Valid(q.disk)
  {
    RepairWith(disk, cfg, IntegrityAsWritten(disk.primary, disk.backup, cfg.strictComparison))
  }

  /** `totalRepaired` counts the restored and the repaired files. */
  predicate Tallied(r: RepairReport) {
    r.totalRepaired == |r.restoredFromBackup| + |r.repairedFiles|
  }

  /** Whether `restoreFromBackup` finds a backup for `file`. */
  predicate Restorable(backup: Store.Dir, cfg: Config, file: string) {
    FileName(FileDate(file), cfg.compressionEnabled) in backup.blobs
  }

  /** The restore loop keeps the backup as it is, sends each file to exactly one
      of the restored and the failed list (according to whether its backup
      exists), and leaves the repaired list alone. */
  lemma {:induction false} RestorePassSorts(p: Progress, cfg: Config, files: seq<string>)
    requires Valid(p.disk)
    ensures var q := RestorePass(p, cfg, files);
      && q.disk.backup == p.disk.backup
      && q.report.repairedFiles == p.report.repairedFiles
      && (Tallied(p.report) ==> Tallied(q.report))
      && (forall x :: x in q.report.restoredFromBackup <==>
            x in p.report.restoredFromBackup || (x in files && Restorable(p.disk.backup, cfg, x)))
      && (forall x :: x in q.report.failedFiles <==>
            x in p.report.failedFiles || (x in files && !Restorable(p.disk.backup, cfg, x)))
  {
    if files != [] {
      var init := files[..|files| - 1];
      RestorePassSorts(p, cfg, init);
      assert files == init + [files[|files| - 1]];
    }
  }

  /** The resave loop adds only files of its list, and only to the repaired and
      the failed list. */
  lemma {:induction false} ResavePassSorts(p: Progress, cfg: Config, files: seq<string>)
    requires Valid(p.disk)
    ensures var q := ResavePass(p, cfg, files);
      && q.report.restoredFromBackup == p.report.restoredFromBackup
      && (Tallied(p.report) ==> Tallied(q.report))
      && (forall x :: x in q.report.repairedFiles ==> x in p.report.repairedFiles || x in files)
      && (forall x :: x in q.report.failedFiles ==> x in p.report.failedFiles || x in files)
      && (forall x :: x in p.report.repairedFiles ==> x in q.report.repairedFiles)
      && (forall x :: x in p.report.failedFiles ==> x in q.report.failedFiles)
  {
    if files != [] {
      var init := files[..|files| - 1];
      ResavePassSorts(p, cfg, init);
      assert files == init + [files[|files| - 1]];
    }
  }

  /** For any report whose two lists are disjoint: the repair report adds up,
      every corrupt file is either restored or failed according to whether its
      backup exists, restored files are corrupt ones, repaired files are
      mismatched ones, and failures come from either list. */
  lemma RepairWithAccounts(disk: Disk, cfg: Config, check: IntegrityReport)
    requires Valid(disk)
    requires forall x :: x in check.corruptedFiles ==> x !in check.backupMismatches
    ensures var r := RepairWith(disk, cfg, check).report;
      && Tallied(r)
      && (forall x :: x in check.corruptedFiles ==>
            && (x in r.restoredFromBackup <==> Restorable(disk.backup, cfg, x))
            && (x in r.failedFiles <==> !Restorable(disk.backup, cfg, x)))
      && (forall x :: x in r.restoredFromBackup ==> x in check.corruptedFiles)
      && (forall x :: x in r.repairedFiles ==> x in check.backupMismatches)
      && (forall x :: x in r.failedFiles ==> x in check.corruptedFiles || x in check.backupMismatches)
  {
    var start := Progress(disk, NoRepairs);
    RestorePassSorts(start, cfg, check.corruptedFiles);
    var mid := RestorePass(start, cfg, check.corruptedFiles);
    ResavePassSorts(mid, cfg, check.backupMismatches);
  }

  /** The repair report adds up, every corrupt file is either restored or failed
      and never both, restored files are corrupt ones and repaired files are
      mismatched ones. */
  lemma RepairAccounts(disk: Disk, cfg: Config)
    requires Valid(disk)
    ensures var check := IntegrityOf(disk.primary, disk.backup, cfg.strictComparison);
      var r := Repair(disk, cfg).report;
      && Tallied(r)
      && (forall x :: x in check.corruptedFiles ==>
            && (x in r.restoredFromBackup <==> Restorable(disk.backup, cfg, x))
            && (x in r.failedFiles <==> !Restorable(disk.backup, cfg, x)))
      && (forall x :: x in r.restoredFromBackup ==> x in check.corruptedFiles)
      && (forall x :: x in r.repairedFiles ==> x in check.backupMismatches)
      && (forall x :: x in r.failedFiles ==> x in check.corruptedFiles || x in check.backupMismatches)
  {
    var check := IntegrityOf(disk.primary, disk.backup, cfg.strictComparison);
    forall x | x in check.corruptedFiles
      ensures x !in check.backupMismatches
    {
      ReportLists(disk.primary, disk.backup, cfg.strictComparison, x);
    }
    RepairWithAccounts(disk, cfg, check);
  }

  /** The repair as written adds up in the same way over the lists of the
      check as written: corrupt files (an unreadable backup included) are
      restored or failed, restored files are corrupt ones and repaired files
      are mismatched ones. */
  lemma RepairAccountsAsWritten(disk: Disk, cfg: Config)
    requires Valid(disk)
    ensures var check := IntegrityAsWritten(disk.primary, disk.backup, cfg.strictComparison);
      var r := RepairAsWritten(disk, cfg).report;
      && Tallied(r)
      && (forall x :: x in check.corruptedFiles ==>
            && (x in r.restoredFromBackup <==> Restorable(disk.backup, cfg, x))
            && (x in r.failedFiles <==> !Restorable(disk.backup, cfg, x)))
      && (forall x :: x in r.restoredFromBackup ==> x in check.corruptedFiles)
      && (forall x :: x in r.repairedFiles ==> x in check.backupMismatches)
      && (forall x :: x in r.failedFiles ==> x in check.corruptedFiles || x in check.backupMismatches)
  {
    var check := IntegrityAsWritten(disk.primary, disk.backup, cfg.strictComparison);
    forall x | x in check.corruptedFiles
      ensures x !in check.backupMismatches
    {
      ReportListsAsWritten(disk.primary, disk.backup, cfg.strictComparison, x);
    }
    RepairWithAccounts(disk, cfg, check);
  }

  /** Both directories hold file `n`, with the same bytes. */
  predicate Mirrored(disk: Disk, n: string) {
    n in disk.primary.blobs && n in disk.backup.blobs && disk.primary.blobs[n] == disk.backup.blobs[n]
  }

  /** File `n` is the same in both disks: present in the same directories,
      with the same bytes. */
  predicate SameFile(d1: Disk, d2: Disk, n: string) {
    && (n in d1.primary.blobs <==> n in d2.primary.blobs)
    && (n in d1.primary.blobs ==> d1.primary.blobs[n] == d2.primary.blobs[n])
    && (n in d1.backup.blobs <==> n in d2.backup.blobs)
    && (n in d1.backup.blobs ==> d1.backup.blobs[n] == d2.backup.blobs[n])
  }

  /** The name `restoreFromBackup` and `saveData` write for a listed file: the
      one its date part gives under the current compression setting. */
  function Target(cfg: Config, file: string): string {
    FileName(FileDate(file), cfg.compressionEnabled)
  }

  /** Some file of the list writes name `n`. */
  predicate Touches(cfg: Config, files: seq<string>, n: string) {
    exists x :: x in files && Target(cfg, x) == n
  }

  /** One restore keeps mirrored files mirrored, mirrors the file's target
      when its backup exists, and changes no other name. */
  lemma RestoreFileCopies(p: Progress, cfg: Config, file: string)
    requires Valid(p.disk)
    ensures var q := RestoreFile(p, cfg, file);
      && (forall n :: Mirrored(p.disk, n) ==> Mirrored(q.disk, n))
      && (Restorable(p.disk.backup, cfg, file) ==> Mirrored(q.disk, Target(cfg, file)))
      && (forall n :: n != Target(cfg, file) ==> SameFile(p.disk, q.disk, n))
  {
  }

  /** A name no file of `files + [last]` writes is one that neither `files`
      nor `last` writes. */
  lemma TouchesSnoc(cfg: Config, files: seq<string>, n: string)
    requires files != []
    ensures !Touches(cfg, files, n) ==>
      !Touches(cfg, files[..|files| - 1], n) && n != Target(cfg, files[|files| - 1])
  {
    var init := files[..|files| - 1];
    assert files[|files| - 1] in files;
    assert forall x :: x in init ==> x in files;
  }

  /** The restore loop keeps mirrored files mirrored, leaves every primary
      copy equal to its backup for each file whose backup exists, and changes
      no file that no listed file names. */
  lemma {:induction false} RestorePassCopies(p: Progress, cfg: Config, files: seq<string>)
    requires Valid(p.disk)
    ensures var q := RestorePass(p, cfg, files);
      && (forall n :: Mirrored(p.disk, n) ==> Mirrored(q.disk, n))
      && (forall x :: x in files && Restorable(p.disk.backup, cfg, x) ==> Mirrored(q.disk, Target(cfg, x)))
      && (forall n :: !Touches(cfg, files, n) ==> SameFile(p.disk, q.disk, n))
  {
    if files != [] {
      var init := files[..|files| - 1];
      var last := files[|files| - 1];
      RestorePassCopies(p, cfg, init);
      RestorePassSorts(p, cfg, init);
      RestoreFileCopies(RestorePass(p, cfg, init), cfg, last);
      assert files == init + [last];
      forall n ensures !Touches(cfg, files, n) ==> !Touches(cfg, init, n) && n != Target(cfg, last) {
        TouchesSnoc(cfg, files, n);
      }
    }
  }

  /** One resave keeps mirrored files mirrored, mirrors the file's target
      when it adds the file to the repaired list, and changes no other name. */
  lemma ResaveFileCopies(p: Progress, cfg: Config, file: string)
    requires Valid(p.disk)
    ensures var q := ResaveFile(p, cfg, file);
      && (forall n :: Mirrored(p.disk, n) ==> Mirrored(q.disk, n))
      && (forall x :: x in q.report.repairedFiles && x !in p.report.repairedFiles ==> Mirrored(q.disk, Target(cfg, x)))
      && (forall n :: n != Target(cfg, file) ==> SameFile(p.disk, q.disk, n))
  {
  }

  /** The resave loop keeps mirrored files mirrored, leaves both copies equal
      for each file it adds to the repaired list, and changes no file that no
      listed file names. */
  lemma {:induction false} ResavePassCopies(p: Progress, cfg: Config, files: seq<string>)
    requires Valid(p.disk)
    ensures var q := ResavePass(p, cfg, files);
      && (forall n :: Mirrored(p.disk, n) ==> Mirrored(q.disk, n))
      && (forall x :: x in q.report.repairedFiles && x !in p.report.repairedFiles ==> Mirrored(q.disk, Target(cfg, x)))
      && (forall n :: !Touches(cfg, files, n) ==> SameFile(p.disk, q.disk, n))
  {
    if files != [] {
      var init := files[..|files| - 1];
      var last := files[|files| - 1];
      ResavePassCopies(p, cfg, init);
      ResaveFileCopies(ResavePass(p, cfg, init), cfg, last);
      forall n ensures !Touches(cfg, files, n) ==> !Touches(cfg, init, n) && n != Target(cfg, last) {
        TouchesSnoc(cfg, files, n);
      }
    }
  }

  /** For any report: after both loops every restored and every repaired
      file's primary copy equals its backup, and a file that no listed file
      names is as it was in both directories. */
  lemma RepairWithCopies(disk: Disk, cfg: Config, check: IntegrityReport)
    requires Valid(disk)
    ensures var q := RepairWith(disk, cfg, check);
      && (forall x :: x in q.report.restoredFromBackup ==> Mirrored(q.disk, Target(cfg, x)))
      && (forall x :: x in q.report.repairedFiles ==> Mirrored(q.disk, Target(cfg, x)))
      && (forall n :: !Touches(cfg, check.corruptedFiles, n) && !Touches(cfg, check.backupMismatches, n) ==>
            SameFile(disk, q.disk, n))
  {
    var start := Progress(disk, NoRepairs);
    RestorePassSorts(start, cfg, check.corruptedFiles);
    RestorePassCopies(start, cfg, check.corruptedFiles);
    var mid := RestorePass(start, cfg, check.corruptedFiles);
    ResavePassSorts(mid, cfg, check.backupMismatches);
    ResavePassCopies(mid, cfg, check.backupMismatches);
  }

  /** `autoRepair` over any archive: every restored and every repaired file's
      primary copy equals its backup afterwards, and a file that neither list
      of the integrity check names is as it was in both directories. */
  lemma RepairCopies(disk: Disk, cfg: Config)
    requires Valid(disk)
    ensures var check := IntegrityOf(disk.primary, disk.backup, cfg.strictComparison);
      var q := Repair(disk, cfg);
      && (forall x :: x in q.report.restoredFromBackup ==> Mirrored(q.disk, Target(cfg, x)))
      && (forall x :: x in q.report.repairedFiles ==> Mirrored(q.disk, Target(cfg, x)))
      && (forall n :: !Touches(cfg, check.corruptedFiles, n) && !Touches(cfg, check.backupMismatches, n) ==>
            SameFile(disk, q.disk, n))
  {
    RepairWithCopies(disk, cfg, IntegrityOf(disk.primary, disk.backup, cfg.strictComparison));
  }

  /** When the check finds nothing wrong, the repair changes nothing and reports
      nothing. */
  lemma RepairOfSoundArchive(disk: Disk, cfg: Config)
    requires Valid(disk)
    requires var check := IntegrityOf(disk.primary, disk.backup, cfg.strictComparison);
      check.corruptedFiles == [] && check.backupMismatches == []
    ensures Repair(disk, cfg) == Progress(disk, NoRepairs)
  {
  }

  /** A one-file archive: `data` saved for `date` in the primary directory and
      some other bytes in the backup. */
  function OneFileDisk(cfg: Config, data: Json, date: string, backupBlob: Store.Blob): Disk {
    var name := FileName(date, cfg.compressionEnabled);
    Disk(Store.Dir([name], map[name := Encode(data, cfg.compressionEnabled)]),
         Store.Dir([name], map[name := backupBlob]))
  }

  /** In that archive with an empty backup file, the primary copy reads back and
      the backup copy does not. */
  lemma OneFileReads(cfg: Config, data: Json, date: string)
    ensures var disk := OneFileDisk(cfg, data, date, []);
      var name := FileName(date, cfg.compressionEnabled);
      && Valid(disk)
      && ReadData(disk.primary, name) == Ok(data)
      && ReadData(disk.backup, name) == Err(Corrupted)
  {
    var disk := OneFileDisk(cfg, data, date, []);
    var name := FileName(date, cfg.compressionEnabled);
    ReadEncoded(Store.Empty, date, cfg.compressionEnabled, data);
    assert Store.Write(Store.Empty, name, Encode(data, cfg.compressionEnabled)) == disk.primary;
    EmptyBlobCorrupt(disk.backup, name);
  }

  /** The check as written files the one file as corrupt; the corrected check
      files it as a mismatch. */
  lemma OneFileChecks(cfg: Config, data: Json, date: string)
    requires ValidateData(data)
    ensures var disk := OneFileDisk(cfg, data, date, []);
      var name := FileName(date, cfg.compressionEnabled);
      && IntegrityAsWritten(disk.primary, disk.backup, cfg.strictComparison).corruptedFiles == [name]
      && IntegrityAsWritten(disk.primary, disk.backup, cfg.strictComparison).backupMismatches == []
      && IntegrityOf(disk.primary, disk.backup, cfg.strictComparison).corruptedFiles == []
      && IntegrityOf(disk.primary, disk.backup, cfg.strictComparison).backupMismatches == [name]
  {
    var disk := OneFileDisk(cfg, data, date, []);
    var name := FileName(date, cfg.compressionEnabled);
    var strict := cfg.strictComparison;
    OneFileReads(cfg, data, date);
    UnreadableBackupVerdicts(disk.primary, disk.backup, name, data, strict);
    ReportForOne(disk.primary, VerdictAsWritten(disk.primary, disk.backup, strict), name);
    ReportForOne(disk.primary, VerdictOf(disk.primary, disk.backup, strict), name);
  }

  /** A valid primary copy with an unreadable backup: corrupt for the check as
      written, a mismatch for the corrected one. */
  lemma UnreadableBackupVerdicts(primary: Store.Dir, backup: Store.Dir, name: string, data: Json, strict: bool)
    requires ReadData(primary, name) == Ok(data) && ValidateData(data)
    requires name in backup.blobs && ReadData(backup, name).Err?
    ensures VerdictAsWritten(primary, backup, strict)(name) == Corrupt
    ensures VerdictOf(primary, backup, strict)(name) == Mismatch
  {
  }

  /** The report over a one-file listing files that file by its verdict. */
  lemma ReportForOne(primary: Store.Dir, verdict: string -> Verdict, name: string)
    requires primary.names == [name]
    ensures ReportFor(primary, verdict).corruptedFiles == if verdict(name) == Corrupt then [name] else []
    ensures ReportFor(primary, verdict).backupMismatches == if verdict(name) == Mismatch then [name] else []
  {
    FiledOne(name, verdict, Corrupt);
    FiledOne(name, verdict, Mismatch);
  }

  lemma FiledOne(name: string, verdict: string -> Verdict, v: Verdict)
    ensures Filed([name], verdict, v) == if verdict(name) == v then [name] else []
  {
    assert [name][..0] == [];
    assert Filed([], verdict, v) == [];
  }

  /** Restoring the one file copies the backup's bytes over the primary copy. */
  lemma OneFileRestore(cfg: Config, data: Json, date: string)
    requires '.' !in date
    ensures var disk := OneFileDisk(cfg, data, date, []);
      var name := FileName(date, cfg.compressionEnabled);
      var q := RestorePass(Progress(disk, NoRepairs), cfg, [name]);
      && q.report == NoRepairs.(restoredFromBackup := [name], totalRepaired := 1)
      && name in q.disk.primary.blobs && q.disk.primary.blobs[name] == []
  {
    var disk := OneFileDisk(cfg, data, date, []);
    var name := FileName(date, cfg.compressionEnabled);
    FileNameSuffix(date, cfg.compressionEnabled);
    OneFileReads(cfg, data, date);
    RestoreSingle(Progress(disk, NoRepairs), cfg, name);
  }

  /** The restore loop over one file the backup has copies the backup's bytes
      to the primary directory and lists the file as restored. */
  lemma RestoreSingle(p: Progress, cfg: Config, file: string)
    requires Valid(p.disk) && file in p.disk.backup.blobs
    requires FileName(FileDate(file), cfg.compressionEnabled) == file
    ensures var q := RestorePass(p, cfg, [file]);
      && q.report == p.report.(restoredFromBackup := p.report.restoredFromBackup + [file], totalRepaired := p.report.totalRepaired + 1)
      && file in q.disk.primary.blobs && q.disk.primary.blobs[file] == p.disk.backup.blobs[file]
  {
    assert [file][..0] == [];
    assert RestorePass(p, cfg, [file]) == RestoreFile(p, cfg, file);
  }

  /** The repair runs the restore loop over the corrupt list, then the resave
      loop over the mismatch list. */
  lemma RepairWithLists(disk: Disk, cfg: Config, check: IntegrityReport)
    requires Valid(disk)
    ensures check.backupMismatches == [] ==>
      RepairWith(disk, cfg, check) == RestorePass(Progress(disk, NoRepairs), cfg, check.corruptedFiles)
    ensures check.corruptedFiles == [] ==>
      RepairWith(disk, cfg, check) == ResavePass(Progress(disk, NoRepairs), cfg, check.backupMismatches)
  {
  }

  /** The repair as written replaces a valid primary copy with an unreadable
      backup, and counts that as a restore. */
  lemma AsWrittenRepairOverwritesValidPrimary(cfg: Config, data: Json, date: string)
    requires ValidateData(data) && '.' !in date
    ensures var disk := OneFileDisk(cfg, data, date, []);
      var name := FileName(date, cfg.compressionEnabled);
      var q := RepairAsWritten(disk, cfg);
      && ReadData(disk.primary, name) == Ok(data)
      && q.report.restoredFromBackup == [name]
      && ReadData(q.disk.primary, name) == Err(Corrupted)
  {
    var disk := OneFileDisk(cfg, data, date, []);
    var name := FileName(date, cfg.compressionEnabled);
    OneFileReads(cfg, data, date);
    OneFileChecks(cfg, data, date);
    FileNameSuffix(date, cfg.compressionEnabled);
    var check := IntegrityAsWritten(disk.primary, disk.backup, cfg.strictComparison);
    OneFileRestore(cfg, data, date);
    var q := RestorePass(Progress(disk, NoRepairs), cfg, [name]);
    EmptyBlobCorrupt(q.disk.primary, name);
    RepairWithLists(disk, cfg, check);
  }

  /** The resave loop's body on a file whose primary copy is valid: it saves
      the record again and lists the file as repaired. */
  lemma ResaveValid(p: Progress, cfg: Config, file: string, data: Json)
    requires Valid(p.disk) && file in p.disk.primary.blobs
    requires ReadData(p.disk.primary, file) == Ok(data) && ValidateData(data)
    ensures ResaveFile(p, cfg, file) == Progress(Save(p.disk, cfg, data, FileDate(file)).disk,
      p.report.(repairedFiles := p.report.repairedFiles + [file], totalRepaired := p.report.totalRepaired + 1))
  {
  }

  /** With nothing corrupt and one mismatched file, the repair is the resave
      loop's body on that file. */
  lemma RepairOneMismatch(disk: Disk, cfg: Config, check: IntegrityReport, file: string)
    requires Valid(disk) && check.corruptedFiles == [] && check.backupMismatches == [file]
    ensures RepairWith(disk, cfg, check) == ResaveFile(Progress(disk, NoRepairs), cfg, file)
  {
    var start := Progress(disk, NoRepairs);
    assert RestorePass(start, cfg, check.corruptedFiles) == start;
    assert [file][..0] == [];
    assert ResavePass(start, cfg, [file]) == ResaveFile(ResavePass(start, cfg, []), cfg, file);
  }

  /** When the corrected check finds nothing corrupt and one mismatched file
      whose primary copy is valid, the repair saves that record again, lists
      the file as repaired, and both copies read back as the record. */
  lemma RepairResavesOne(disk: Disk, cfg: Config, file: string, data: Json)
    requires Valid(disk) && file in disk.primary.blobs
    requires ReadData(disk.primary, file) == Ok(data) && ValidateData(data)
    requires FileName(FileDate(file), cfg.compressionEnabled) == file
    requires IntegrityOf(disk.primary, disk.backup, cfg.strictComparison).corruptedFiles == []
    requires IntegrityOf(disk.primary, disk.backup, cfg.strictComparison).backupMismatches == [file]
    ensures var q := Repair(disk, cfg);
      && q.report.restoredFromBackup == [] && q.report.repairedFiles == [file]
      && ReadData(q.disk.primary, file) == Ok(data)
      && ReadData(q.disk.backup, file) == Ok(data)
  {
    var check := IntegrityOf(disk.primary, disk.backup, cfg.strictComparison);
    assert Repair(disk, cfg) == RepairWith(disk, cfg, check);
    RepairOneMismatch(disk, cfg, check, file);
    ResaveValid(Progress(disk, NoRepairs), cfg, file, data);
    SaveMirrors(disk, cfg, data, FileDate(file));
  }

  /** The corrected repair leaves the valid primary copy as it was and writes the
      same bytes over the unreadable backup. */
  lemma RepairKeepsValidPrimary(cfg: Config, data: Json, date: string)
    requires ValidateData(data) && '.' !in date
    ensures var disk := OneFileDisk(cfg, data, date, []);
      var name := FileName(date, cfg.compressionEnabled);
      var q := Repair(disk, cfg);
      && q.report.restoredFromBackup == [] && q.report.repairedFiles == [name]
      && ReadData(q.disk.primary, name) == Ok(data)
      && ReadData(q.disk.backup, name) == Ok(data)
  {
    var disk := OneFileDisk(cfg, data, date, []);
    var name := FileName(date, cfg.compressionEnabled);
    OneFileReads(cfg, data, date);
    OneFileChecks(cfg, data, date);
    FileNameSuffix(date, cfg.compressionEnabled);
    assert name in disk.primary.blobs;
    RepairResavesOne(disk, cfg, name, data);
  }
}
