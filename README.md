# The 60-second news archive, modelled in Dafny

This project models the daily snapshot archive of the "每天60秒读懂世界" news
feed, together with the code around it:

- the archive keeps one dated document per day in a data directory and
  mirrors it into a backup directory;
- it validates what it saves, compresses it, and deletes files older than
  the retention window;
- it restores lost files from the backup, checks the two directories for
  missing days, corrupt files and diverging copies, and repairs what it
  finds;
- it queries, exports (CSV, Markdown, JSON) and summarises what is stored.

Beside the archive the project models:

- the feed's scraper;
- the stand-alone data script that writes, prunes and reads back one record;
- the personal workflow that fetches a record and selects content from a
  ranking;
- the cron controller that runs the workflow of the day.

The modules are listed below.

- `Outcomes`, `Json` (json.dfy): Option/Result, the error kinds the code
  throws, and parsed JSON values.
- `Text`, `Calendar`, `Codec`, `Store`: string helpers, day names, the byte
  form of a document, and a directory as a listing plus a map from name to
  bytes.
- `Snapshot`: `validateData`, `compareNewsData`, file names and `readData`.
- `Integrity`: `checkDataIntegrity` as functions of the two directories.
- `Repository`: `saveData`, `cleanupOldData`, `restoreFromBackup` and
  `autoRepair` as functions of the two directories, with the lemmas about
  them.
- `Reports`: `queryData`, `exportData` and `getDataStats` as functions.
- `SnapshotArchive` (archive.dfy): the archive as a class `Archive` whose
  fields are the two directories. Its methods have the source's loops, and
  each method is proved equal to the function above it. The integrity check
  and the repair of the class run the corrected per-file check (see
  Findings); the check as the code writes it is modelled by functions.
- `Scraper`, `DataScript`, `Samples`, `Personal`, `Scheduler` (cron.dfy):
  the scraper, the data script, the sample records, the personal workflow
  and the cron controller.

Directories are values (`Store.Dir`) that the methods reassign. Time is a
parameter `now` in milliseconds. The feed's answer (or the error reaching
it) and the ranker's result are parameters too.

The model follows the code where it differs from the archive's written
design:

- `cleanupOldData` compares a fractional age in days with the retention
  window. It does not floor the age; only the data script floors.
- The second repair loop records nothing for a primary copy that is
  missing or invalid. It records a failure only when reading throws.
- The second repair loop does not skip files handled by the first loop.
  The two lists are disjoint anyway, both for the code as written
  (`Integrity.ReportListsAsWritten`) and for the corrected check
  (`Integrity.ReportLists`).
- A backup copy that cannot be read is caught by the same handler as a
  corrupt primary. `Integrity.ClassifyAsWritten`, `Integrity.IntegrityAsWritten`
  and `Repository.RepairAsWritten` model this, and the lemmas about the lists,
  the status and the repair accounts are proved for them as well as for the
  corrected check. The class `Archive` runs the corrected check. The Findings
  section has the details.

## Model

| member | source | states |
|---|---|---|
| Snapshot.ValidateData | src/test/60s-workflow.test.ts:91-123 | valid exactly when the value is an object with all eight required fields, its three date fields hold valid dates, and `news` is a non-empty array |
| Snapshot.FirstMissing | src/test/60s-workflow.test.ts:94-100 | none exactly when every listed field is present; otherwise a listed field that is absent |
| Snapshot.FirstBadDate | src/test/60s-workflow.test.ts:103-110 | none exactly when every present date field is a valid date; otherwise a present field with an invalid date |
| Snapshot.ArrayDates | src/test/60s-workflow.test.ts:105-106 | an array converts to its joined text: a one-element array of a date string is a valid date exactly when the string is; an empty array and `[null]` are not |
| Snapshot.StrictIsEquality | src/test/60s-workflow.test.ts:40-42 | strict comparison holds exactly when the two payloads are equal |
| Snapshot.LooseReadsOnlyDateAndNews | src/test/60s-workflow.test.ts:44-49 | loose comparison depends on nothing but the `date` and `news` fields of the two payloads |
| Snapshot.LooseOnStrings | src/test/60s-workflow.test.ts:44-49 | for news lists of strings, loose comparison holds exactly when the days before `T` agree and the lists are equal |
| Snapshot.ArrayLikeNewsMatches | src/test/60s-workflow.test.ts:44-49 | example: a second payload whose news is the array-like object `{"length": 1, "0": "a"}` loosely equals one whose news is `["a"]` |
| Snapshot.ReadData | src/test/60s-workflow.test.ts:196-210 | fails with NotFound exactly when the file is absent; every other failure is Corrupted |
| Snapshot.ReadSameBlob | src/test/60s-workflow.test.ts:196-210 | the result depends only on the file's own bytes |
| Snapshot.EmptyBlobCorrupt | src/test/60s-workflow.test.ts:198-204 | an empty file reads as corrupt, compressed or not |
| Snapshot.FileNameSuffix | src/test/60s-workflow.test.ts:214 | the name ends in `.gz` exactly when compression is on, and its date part is the date (for a date without a dot) |
| Snapshot.ReadEncoded | src/test/60s-workflow.test.ts:137-156 | what is saved under a date reads back as the payload, with or without compression |
| Codec.ParseSerialize | src/test/60s-workflow.test.ts:137-204 | parsing inverts the serialiser |
| Codec.SerializeInjective | src/test/60s-workflow.test.ts:41 | two values serialise alike only when they are equal |
| Codec.SerializeParse | src/test/60s-workflow.test.ts:201-204 | the parser accepts only the serialiser's output: re-serialising what it read gives the same bytes |
| Codec.TruncatedDoesNotParse | src/test/60s-workflow.test.ts:201-204 | a proper prefix of a serialisation does not parse |
| Codec.DecompressCompress | src/test/60s-workflow.test.ts:146-200 | gunzip inverts gzip |
| Codec.CompressedIsNotPlain | src/test/60s-workflow.test.ts:198-204 | compressed bytes never parse as a plain document |
| Codec.DecEncNat | src/test/60s-workflow.test.ts:137 | a natural number decodes back from its encoding, leaving the rest of the input |
| Codec.DecEncString | src/test/60s-workflow.test.ts:137 | a string decodes back from its encoding, leaving the rest of the input |
| Codec.ZigZagInverse | src/test/60s-workflow.test.ts:137 | the integer-to-natural mapping and its inverse undo each other |
| Calendar.ParseDayToString | src/test/60s-workflow.test.ts:496-501 | parsing a day's name gives back the day |
| Calendar.DayToStringParse | src/test/60s-workflow.test.ts:496-497 | a string that parses as a day is that day's name |
| Calendar.DayToStringInjective | src/test/60s-workflow.test.ts:501-502 | distinct days have distinct names |
| Calendar.DayToStringOrder | src/test/60s-workflow.test.ts:494 | string order on day names is the order of the days |
| Calendar.PadOrder | src/test/60s-workflow.test.ts:494 | zero-padded numbers of equal width compare as the numbers do |
| Calendar.DayNameDigits | src/test/60s-workflow.test.ts:179 | a day name holds only digits, so no `.` or `T` |
| Text.BeforeAppend | src/test/60s-workflow.test.ts:179 | `split(c)[0]` of `s + c + t` is `s` when `s` has no `c` |
| Text.LessIrreflexive | src/test/60s-workflow.test.ts:494 | no string is below itself in string order |
| Text.LessAsymmetric | src/test/60s-workflow.test.ts:494 | string order never holds both ways |
| Text.LessTransitive | src/test/60s-workflow.test.ts:494 | string order is transitive |
| Text.LessTotal | src/test/60s-workflow.test.ts:494 | of two distinct strings one is below the other |
| Text.ToLower | src/test/60s-workflow.test.ts:451 | lower-casing keeps the length and maps each character alone |
| Text.ContainsAt | src/test/60s-workflow.test.ts:451 | `includes` holds exactly when the keyword occurs at some position |
| Text.NatToStringInjective | src/scrapers/60s.scraper.ts:73 | distinct indexes print differently |
| Store.Write | src/test/60s-workflow.test.ts:145-156 | the file holds the new bytes, nothing else changes, and a new name is listed last |
| Store.RemoveAll | src/test/60s-workflow.test.ts:184 | exactly the named files are gone and the rest keep their bytes |
| Store.RemoveAllTwice | src/test/60s-workflow.test.ts:176-186 | two rounds of deletions are one round of both |
| Store.RemoveNothing | src/test/60s-workflow.test.ts:176-186 | deleting names that are not stored changes nothing |
| Json.Get | src/test/60s-workflow.test.ts:94-100 | a value exactly when the object has a member with that key, and then that member's value |
| Json.LookupLast | src/test/60s-workflow.test.ts:94-100 | of duplicate keys the last member supplies the value, as `JSON.parse` keeps the last |
| Repository.Save | src/test/60s-workflow.test.ts:126-164 | invalid data fails with Validation and changes nothing; valid data succeeds |
| Repository.SaveMirrors | src/test/60s-workflow.test.ts:137-156 | after a save both copies hold the same bytes, both read back as the payload, and no other file changes |
| Repository.SavedFileSound | src/test/60s-workflow.test.ts:514-530 | under strict comparison a file just saved passes the integrity check |
| Repository.Cleanup | src/test/60s-workflow.test.ts:167-193 | both directories stay consistent |
| Repository.CleanupExact | src/test/60s-workflow.test.ts:172-187 | each directory keeps exactly its files that are not expired, with their bytes |
| Repository.CleanupIdempotent | src/test/60s-workflow.test.ts:167-193 | a second cleanup at the same time changes nothing |
| Repository.CleanupKeepsRecentDay | src/test/60s-workflow.test.ts:179-186 | a day's file survives exactly while no more than `retentionDays` days have passed since the day began |
| Repository.CleanupReads | src/test/60s-workflow.test.ts:179-210 | a day's file that reads as a record still does within the retention window, and is absent after it |
| Repository.Restore | src/test/60s-workflow.test.ts:213-232 | the backup is never changed |
| Repository.RestoreCopies | src/test/60s-workflow.test.ts:219-225 | succeeds exactly when the backup has the file; then the primary copy equals the backup byte for byte and every other file reads as before; a failure is NotFound and changes nothing |
| Repository.DayFileExpired | src/test/60s-workflow.test.ts:176-186 | the file of day d is expired exactly when the retention period since that day began has run out |
| Repository.SaveLoseRestoreKeeps | src/test/60s-workflow.test.ts:254-266 | save, delete the primary copy and restore: the record's file is in both directories and every other file is as it was |
| Repository.SaveLoseRestore | src/test/60s-workflow.test.ts:254-276 | save, lose the primary copy, restore, clean up: the restore succeeds and the record reads back within the retention window, or is absent after it |
| Repository.SaveLoseRestoreOthers | src/test/60s-workflow.test.ts:254-276 | those steps leave every other file of both directories as the cleanup alone would, and keep the record in the backup exactly within the retention window |
| Repository.RestoreFile | src/test/60s-workflow.test.ts:572-579 | the first repair loop's body keeps both directories consistent |
| Repository.RestorePass | src/test/60s-workflow.test.ts:571-580 | the first repair loop keeps both directories consistent |
| Repository.ResaveFile | src/test/60s-workflow.test.ts:584-600 | the second repair loop's body keeps both directories consistent |
| Repository.ResavePass | src/test/60s-workflow.test.ts:583-601 | the second repair loop keeps both directories consistent |
| Repository.RestorePassStep | src/test/60s-workflow.test.ts:571-580 | the first loop over one more file is its body applied once more |
| Repository.ResavePassStep | src/test/60s-workflow.test.ts:583-601 | the second loop over one more file is its body applied once more |
| Repository.RepairWith | src/test/60s-workflow.test.ts:568-601 | both loops keep the directories consistent |
| Repository.Repair | src/test/60s-workflow.test.ts:558-608 | the repair keeps the directories consistent |
| Repository.RepairAsWritten | src/test/60s-workflow.test.ts:558-608 | the repair driven by the check as written keeps the directories consistent |
| Repository.RestorePassSorts | src/test/60s-workflow.test.ts:571-580 | the first loop leaves the backup and the repaired list alone, keeps the total equal to restored plus repaired, and sends each file to the restored list exactly when its backup exists, otherwise to the failed list |
| Repository.ResavePassSorts | src/test/60s-workflow.test.ts:583-601 | the second loop leaves the restored list alone, keeps the total, keeps earlier entries, and adds only files of its own list |
| Repository.RepairWithAccounts | src/test/60s-workflow.test.ts:568-601 | for disjoint lists: the total adds up; a corrupt file is restored exactly when its backup exists and failed otherwise; restored files are corrupt, repaired files are mismatched, failed files come from either list |
| Repository.RepairAccounts | src/test/60s-workflow.test.ts:558-608 | the same accounting for the corrected repair over the report of the corrected integrity check |
| Repository.RestoreFileCopies | src/test/60s-workflow.test.ts:572-579 | one restore keeps mirrored files mirrored, mirrors the file's target when its backup exists, and changes no other name |
| Repository.ResaveFileCopies | src/test/60s-workflow.test.ts:584-599 | one resave keeps mirrored files mirrored, mirrors the target of a file it reports repaired, and changes no other name |
| Repository.RestorePassCopies | src/test/60s-workflow.test.ts:570-580 | the restore loop keeps mirrored files mirrored, leaves each file with a backup mirrored, and changes no file no listed file names |
| Repository.ResavePassCopies | src/test/60s-workflow.test.ts:583-600 | the resave loop keeps mirrored files mirrored, leaves each newly repaired file mirrored, and changes no file no listed file names |
| Repository.RepairWithCopies | src/test/60s-workflow.test.ts:558-608 | for any report: every restored and repaired file's primary copy equals its backup afterwards; a file neither list names is unchanged in both directories |
| Repository.RepairCopies | src/test/60s-workflow.test.ts:558-608 | the same for `autoRepair` over any archive and the corrected check's lists |
| Repository.RepairAccountsAsWritten | src/test/60s-workflow.test.ts:558-608 | the same accounting for the repair as written over the report of the check as written, where an unreadable backup counts as corrupt |
| Repository.RepairOfSoundArchive | src/test/60s-workflow.test.ts:558-608 | when the check finds nothing corrupt or mismatched, the repair changes nothing and reports nothing |
| Repository.RepairWithLists | src/test/60s-workflow.test.ts:571-601 | with an empty mismatch list the repair is the first loop; with an empty corrupt list it is the second |
| Repository.RestoreSingle | src/test/60s-workflow.test.ts:571-580 | the first loop over one file the backup has copies the backup's bytes to the primary and lists the file as restored |
| Repository.ResaveValid | src/test/60s-workflow.test.ts:589-596 | the second loop's body on a valid primary copy saves the record again and lists it as repaired |
| Repository.RepairOneMismatch | src/test/60s-workflow.test.ts:568-601 | with no corrupt file and one mismatch, the repair is the second loop's body on that file |
| Repository.RepairResavesOne | src/test/60s-workflow.test.ts:583-601 | one valid mismatched file is saved again, listed as repaired, and both copies then read back as the record |
| Repository.OneFileReads | src/test/60s-workflow.test.ts:196-210 | in a one-file archive with an empty backup file, the primary copy reads back and the backup does not |
| Repository.OneFileChecks | src/test/60s-workflow.test.ts:514-533 | the check as written files that file as corrupt; the corrected check files it as a mismatch |
| Repository.UnreadableBackupVerdicts | src/test/60s-workflow.test.ts:514-533 | a valid primary copy with an unreadable backup is corrupt as written and a mismatch when corrected |
| Repository.ReportForOne | src/test/60s-workflow.test.ts:510-534 | over a one-file listing, each list holds that file exactly when its verdict matches |
| Repository.FiledOne | src/test/60s-workflow.test.ts:510-534 | a one-name listing files that name exactly when its verdict matches |
| Repository.OneFileRestore | src/test/60s-workflow.test.ts:571-580 | the first loop over that file copies the empty backup over the primary and counts one restore |
| Repository.AsWrittenRepairOverwritesValidPrimary | src/test/60s-workflow.test.ts:514-580 | the repair as written replaces a valid primary copy with the unreadable backup and counts it as restored |
| Repository.RepairKeepsValidPrimary | src/test/60s-workflow.test.ts:583-601 | the corrected repair keeps the valid primary copy and rewrites the backup, so both copies read back as the record |
| Integrity.FileDates | src/test/60s-workflow.test.ts:494 | one date per file, the date part of its name |
| Integrity.Least | src/test/60s-workflow.test.ts:494-496 | an element of the dates that no other date is below (the first after sorting) |
| Integrity.Greatest | src/test/60s-workflow.test.ts:494-497 | an element of the dates that no other date is above (the last after sorting) |
| Integrity.LeastSnoc | src/test/60s-workflow.test.ts:494-496 | one more date becomes the least exactly when it is below the old least |
| Integrity.GreatestSnoc | src/test/60s-workflow.test.ts:494-497 | one more date becomes the greatest exactly when it is above the old greatest |
| Integrity.GapsBounds | src/test/60s-workflow.test.ts:495-507 | the walk runs from the least to the greatest date when both are valid days in order, and finds nothing otherwise |
| Integrity.AbsentExact | src/test/60s-workflow.test.ts:500-506 | a name is collected exactly when it names a day of the walk and has no file |
| Integrity.AbsentAscending | src/test/60s-workflow.test.ts:500-506 | the collected names are strictly increasing, so none repeats |
| Integrity.WithinBounds | src/test/60s-workflow.test.ts:494-497 | every day among the dates lies between the least and the greatest |
| Integrity.GapsExact | src/test/60s-workflow.test.ts:494-507 | the missing dates are exactly the days between the first and last archived day that have no file |
| Integrity.OneDayNoGaps | src/test/60s-workflow.test.ts:494-507 | files of a single day leave no gap |
| Integrity.TwoDayBounds | src/test/60s-workflow.test.ts:494-497 | example: of two day names the earlier is the least and the later the greatest |
| Integrity.OneDayMissing | src/test/60s-workflow.test.ts:494-507 | example: files for days d and d + 2 leave exactly day d + 1 missing |
| Integrity.MiddleAbsent | src/test/60s-workflow.test.ts:500-506 | example: over three days with files for the first and last, the walk collects the middle one |
| Integrity.ClassifyAsWritten | src/test/60s-workflow.test.ts:514-533 | the per-file check as written: corrupt exactly when the primary copy is unreadable or invalid or the backup exists but cannot be read; sound only when the backup exists, reads back and compares equal |
| Integrity.Classify | src/test/60s-workflow.test.ts:514-533 | the corrected per-file check (see Findings): corrupt exactly when the primary copy is unreadable or invalid; sound only when the backup exists, reads back and compares equal |
| Integrity.ChecksDifferOnUnreadableBackup | src/test/60s-workflow.test.ts:514-533 | the two per-file checks disagree exactly on a valid primary copy whose backup exists but cannot be read: corrupt as written, a mismatch corrected |
| Integrity.FiledExact | src/test/60s-workflow.test.ts:510-534 | a file is on a list exactly when it is in the listing and its verdict is that list's |
| Integrity.FiledDistinct | src/test/60s-workflow.test.ts:510-534 | a list of a repeat-free listing has no repeats |
| Integrity.ReportForLists | src/test/60s-workflow.test.ts:510-534 | for any per-file check, the corrupt and mismatch lists hold exactly the files with those verdicts; no file is on both and neither repeats |
| Integrity.ReportLists | src/test/60s-workflow.test.ts:510-534 | the same for the corrected check |
| Integrity.ReportListsAsWritten | src/test/60s-workflow.test.ts:510-534 | the same for the check as written |
| Integrity.MissingBackupIsMismatch | src/test/60s-workflow.test.ts:523-530 | under the corrected check a valid primary copy without a backup is listed as a mismatch |
| Integrity.MissingBackupIsMismatchAsWritten | src/test/60s-workflow.test.ts:523-530 | under the check as written too, a valid primary copy without a backup is listed as a mismatch |
| Integrity.IdenticalCopiesSound | src/test/60s-workflow.test.ts:523-527 | under strict comparison a valid file whose backup has the same bytes passes |
| Integrity.ReportForStatus | src/test/60s-workflow.test.ts:536-541 | for any per-file check: error exactly when some file is corrupt; warning exactly when none is but a day is missing or a file is mismatched; ok exactly when no day is missing and every file passes |
| Integrity.StatusMeaning | src/test/60s-workflow.test.ts:536-541 | for the corrected check: error exactly when some file is corrupt; ok exactly when no day is missing and every file passes |
| Integrity.StatusMeaningAsWritten | src/test/60s-workflow.test.ts:536-541 | for the check as written: error exactly when some file is corrupt under it, an unreadable backup included; ok exactly when no day is missing and every file passes |
| Integrity.AsWrittenFilesUnreadableBackupAsCorrupt | src/test/60s-workflow.test.ts:514-533 | as written, a valid primary copy with an unreadable backup is listed as corrupt; corrected, it is a mismatch |
| Reports.InRangeMeaning | src/test/60s-workflow.test.ts:443-444 | with both bounds given, a file is in range exactly when its date lies between them in string order, bounds included |
| Reports.CollectAborts | src/test/60s-workflow.test.ts:383-391 | the first file that cannot be read ends the collection with its error |
| Reports.MatchingNews | src/test/60s-workflow.test.ts:450-452 | succeeds exactly when every item is a string (otherwise TypeError); keeps exactly the items that contain the keyword, ignoring case |
| Reports.QueryAborts | src/test/60s-workflow.test.ts:441-462 | an error in a file ends the query with that error |
| Reports.QueryFileHit | src/test/60s-workflow.test.ts:442-461 | one file gives at most one hit, and a hit satisfies the hit conditions |
| Reports.QuerySound | src/test/60s-workflow.test.ts:436-469 | at most one hit per file; every hit comes from an in-range file that reads back: the whole record without a keyword, otherwise its date with its non-empty list of matching news |
| Reports.EmptyOptionsIgnored | src/test/60s-workflow.test.ts:443-449 | an empty keyword, start or end acts as if absent |
| Reports.QueryWithoutKeywordIsCollect | src/test/60s-workflow.test.ts:459-461 | without a keyword the query returns, in order, the records the export collects, and fails alike |
| Reports.LowerUnchanged | src/test/60s-workflow.test.ts:451 | lower-casing leaves a string without capitals as it is |
| Reports.MatchingCons | src/test/60s-workflow.test.ts:450-452 | the filter keeps the first item exactly when it matches, before the filtered rest |
| Reports.MatchingPair | src/test/60s-workflow.test.ts:450-452 | example: of a matching and a non-matching item only the first is kept |
| Reports.AppleMentioned | src/test/60s-workflow.test.ts:451 | example: "apple pie" contains "apple" |
| Reports.BananaNotMentioned | src/test/60s-workflow.test.ts:451 | example: "banana" does not contain "apple" |
| Reports.KeywordFilterExample | src/test/60s-workflow.test.ts:450-452 | example: filtering ["apple pie", "banana"] for "apple" keeps "apple pie" alone |
| Reports.QueryFileMatches | src/test/60s-workflow.test.ts:449-458 | under a keyword, a record with matching news gives one hit: its date and the matching news |
| Reports.KeywordExample | src/test/60s-workflow.test.ts:449-458 | example: a record with news ["apple pie", "banana"] queried for "apple" gives its date and ["apple pie"] |
| Json.JoinParts | src/test/60s-workflow.test.ts:406 | one part per item: the empty string for `null`, the item's `join` text otherwise |
| Reports.BulletsSnoc | src/test/60s-workflow.test.ts:413-415 | one more news item appends its bullet line |
| Reports.RenderStep | src/test/60s-workflow.test.ts:405-417 | one more record appends its text, or ends the rendering with its error |
| Reports.RenderAborts | src/test/60s-workflow.test.ts:405-417 | a record whose news is not an array ends the rendering with its error |
| Reports.OccurrencesAppend | src/test/60s-workflow.test.ts:404-407 | line breaks of a concatenation add up |
| Reports.OccurrencesAbsent | src/test/60s-workflow.test.ts:404-407 | a string without line breaks has none |
| Reports.DisplaySingleLine | src/test/60s-workflow.test.ts:406 | a value whose strings have no line break renders without one |
| Reports.JoinSingleLine | src/test/60s-workflow.test.ts:406 | joining parts without line breaks by a separator without one gives none |
| Reports.JoinPartsSingleLine | src/test/60s-workflow.test.ts:406 | the rendered items of single-line values have no line break |
| Reports.NatToStringSingleLine | src/test/60s-workflow.test.ts:406 | a printed number has no line break |
| Reports.CsvRowLine | src/test/60s-workflow.test.ts:406 | the row of a record without line breaks is one line |
| Reports.CsvLines | src/test/60s-workflow.test.ts:403-408 | the CSV of records without line breaks has the header line and one line per record |
| Reports.PartFails | src/test/60s-workflow.test.ts:405-417 | a record's text fails exactly when its news is not an array |
| Reports.RenderSucceeds | src/test/60s-workflow.test.ts:403-418 | a CSV or Markdown export succeeds exactly when every exported record's news is an array |
| Reports.NewsArraysSnoc | src/test/60s-workflow.test.ts:405-417 | all records have news arrays exactly when all but the last do and the last does |
| Reports.NewsLengthIsLength | src/test/60s-workflow.test.ts:346 | `news` that is missing or `null` is exactly the loop's error; wherever `news.length` is a number the loop adds that number |
| Reports.ArrayLikeNewsLength | src/test/60s-workflow.test.ts:346 | example: an array-like news object with `length` 2 adds 2 |
| Reports.TotalsSnoc | src/test/60s-workflow.test.ts:334-354 | the statistics over one more file is the loop body applied once more |
| Reports.TotalsAbort | src/test/60s-workflow.test.ts:345-346 | a file that cannot be read or has no news ends the statistics with its error |
| Reports.TotalsStep | src/test/60s-workflow.test.ts:334-354 | the statistics fail exactly when they fail on the earlier files or the last file is unusable |
| Reports.UsableSnoc | src/test/60s-workflow.test.ts:334-354 | all files are usable exactly when all but the last are and the last is |
| Reports.TotalsSucceed | src/test/60s-workflow.test.ts:334-354 | the statistics succeed exactly when every file reads back and has news |
| Reports.TotalsDates | src/test/60s-workflow.test.ts:341-342 | a successful statistics loop moved the oldest and newest dates with its last file |
| Reports.BoundsSnoc | src/test/60s-workflow.test.ts:341-342 | folding one more date into the running oldest and newest gives the least and greatest of all the dates |
| Reports.DatesNonEmpty | src/test/60s-workflow.test.ts:337 | when no name has an empty date part, no date is empty |
| Reports.TotalsBounds | src/test/60s-workflow.test.ts:341-342 | when no date part is empty, oldest and newest are the least and greatest file dates |
| SnapshotArchive.CleanDir | src/test/60s-workflow.test.ts:175-187 | the loop deletes exactly the expired files of one directory |
| SnapshotArchive.ClearDir | src/test/60s-workflow.test.ts:615-618 | unlinking every listed file leaves the directory empty |
| SnapshotArchive.MissingDates | src/test/60s-workflow.test.ts:494-507 | the continuity loop computes exactly the gaps |
| SnapshotArchive.WalkDays | src/test/60s-workflow.test.ts:500-506 | the walk from the first to the last day collects exactly the days without a file |
| SnapshotArchive.AppendBullets | src/test/60s-workflow.test.ts:413-415 | appends exactly one bullet line per news item |
| SnapshotArchive.AppendSection | src/test/60s-workflow.test.ts:411-417 | appends the record's Markdown section, or fails when its news is not an array |
| SnapshotArchive.RenderText | src/test/60s-workflow.test.ts:403-418 | the CSV or Markdown loops compute exactly the rendering |
| SnapshotArchive.AddFileStep | src/test/60s-workflow.test.ts:335-353 | one turn of the statistics loop is the loop body |
| SnapshotArchive.Totalize | src/test/60s-workflow.test.ts:334-354 | the statistics loop computes exactly the totals |
| SnapshotArchive.Archive.constructor | src/test/60s-workflow.test.ts:58-64 | both directories are empty and the settings are the given ones |
| SnapshotArchive.Archive.SaveData | src/test/60s-workflow.test.ts:126-164 | the outcome and the new directories are the save's |
| SnapshotArchive.Archive.CleanupOldData | src/test/60s-workflow.test.ts:167-193 | the new directories are the cleanup's |
| SnapshotArchive.Archive.CleanupTestData | src/test/60s-workflow.test.ts:611-634 | both directories end empty |
| SnapshotArchive.Archive.TestDataSaving | src/test/60s-workflow.test.ts:234-292 | the new directories are those of save, delete, restore and cleanup applied to the old ones; the sample stamped at noon on day d reads back within the retention window and is absent after it |
| SnapshotArchive.Archive.SaveLoseRestoreSteps | src/test/60s-workflow.test.ts:254-276 | save, delete, restore, clean up and read: the new directories are those steps applied to the old ones, and the record reads back within the retention window and is absent after it |
| SnapshotArchive.Archive.RestoreFromBackup | src/test/60s-workflow.test.ts:213-232 | the outcome and the new directories are the restore's |
| SnapshotArchive.Archive.CheckFile | src/test/60s-workflow.test.ts:514-533 | the verdict is the corrected per-file check's (see Findings) |
| SnapshotArchive.Archive.FileVerdicts | src/test/60s-workflow.test.ts:510-534 | the loop builds exactly the corrected check's corrupt and mismatch lists, in listing order |
| SnapshotArchive.Archive.CheckDataIntegrity | src/test/60s-workflow.test.ts:480-548 | the report is the corrected integrity report (see Findings) |
| SnapshotArchive.Archive.RestoreOne | src/test/60s-workflow.test.ts:572-579 | one turn of the first repair loop |
| SnapshotArchive.Archive.RestoreCorrupt | src/test/60s-workflow.test.ts:571-580 | the first repair loop |
| SnapshotArchive.Archive.ResaveOne | src/test/60s-workflow.test.ts:584-600 | one turn of the second repair loop |
| SnapshotArchive.Archive.ResaveMismatched | src/test/60s-workflow.test.ts:583-601 | the second repair loop |
| SnapshotArchive.Archive.AutoRepair | src/test/60s-workflow.test.ts:558-608 | the report and the new directories are those of the repair driven by the corrected check (see Findings) |
| SnapshotArchive.Archive.QueryData | src/test/60s-workflow.test.ts:436-469 | the loop computes exactly the query over the primary listing |
| SnapshotArchive.Archive.ExportData | src/test/60s-workflow.test.ts:378-427 | the content is exactly the export of the in-range records |
| SnapshotArchive.Archive.GetDataStats | src/test/60s-workflow.test.ts:310-373 | the statistics are exactly those of the primary directory and the backup listing |
| Scraper.ToJson | src/scrapers/60s.scraper.ts:7-21 | the record as a JSON object, its members in declaration order |
| Scraper.FetchData | src/scrapers/60s.scraper.ts:38-68 | the sample in mock mode; otherwise the request's error, a Remote error carrying the message when the code is not 200, or the record |
| Scraper.ValidateConfig | src/scrapers/60s.scraper.ts:28-30 | always succeeds |
| Scraper.ItemsShape | src/scrapers/60s.scraper.ts:72-89 | a record with a valid date gives one item per news line, in order, with the id, title, content, urls, ISO publish date, metadata and score the map builds |
| Scraper.PublishDate | src/scrapers/60s.scraper.ts:77 | throws exactly for an invalid date; a day name alone gains midnight UTC (`T00:00:00.000Z`); the result names the same day |
| Scraper.BadDateThrows | src/scrapers/60s.scraper.ts:72-89 | a record with news and an invalid date makes the scrape fail |
| Scraper.IdsDistinct | src/scrapers/60s.scraper.ts:73 | the items of one record have pairwise distinct ids |
| Scraper.RemoteErrorThrown | src/scrapers/60s.scraper.ts:62-68 | outside mock mode a failed request or a code other than 200 makes the scrape fail; mock mode ignores the feed |
| Scraper.MockScrape | src/scrapers/60s.scraper.ts:26-59 | mock mode gives the two sample news lines |
| DataScript.StaleMeansEightDays | src/test/test-60s-data.ts:95-97 | a floored age above seven days means at least eight full days since the day began |
| DataScript.Prune | src/test/test-60s-data.ts:88-104 | the loop deletes exactly the stale `.json.gz` files |
| DataScript.RunScript | src/test/test-60s-data.ts:73-110 | the run is the script's: write both copies, prune the data directory, read back |
| DataScript.SameBytes | src/test/test-60s-data.ts:78-86 | both directories hold the one compressed buffer; the primary keeps it exactly when it is not stale |
| DataScript.BackupKeepsRecord | src/test/test-60s-data.ts:81-86 | the backup copy reads back as the record |
| DataScript.ReadBackUnlessPruned | src/test/test-60s-data.ts:88-110 | the read-back gives the record unless the prune removed the file, and fails with NotFound if it did |
| DataScript.SelfPruneAfterEightDays | src/test/test-60s-data.ts:88-110 | for a valid day, the read-back fails exactly when eight full days have passed since that day began |
| DataScript.PruneSpares | src/test/test-60s-data.ts:91-102 | the prune keeps exactly the files that are not stale, with their bytes, and never removes a file that is not `.json.gz` |
| Samples.NoonOfDay | src/test/60s-workflow.test.ts:246-255 | the noon timestamp's day part is the day's name and parses to that day |
| Samples.RecordMembers | src/test/60s-workflow.test.ts:67-89 | the members of a record's JSON form, by position |
| Samples.FieldsPresent | src/test/60s-workflow.test.ts:94-100 | an object with the required keys at a record's positions lacks no field |
| Samples.DatesPresent | src/test/60s-workflow.test.ts:103-110 | such an object with valid dates in its date fields has no bad date |
| Samples.NewsPresent | src/test/60s-workflow.test.ts:113-116 | such an object with a non-empty news array has news |
| Samples.MissingFrom | src/test/60s-workflow.test.ts:94-100 | a present field does not stop the search for a missing one |
| Samples.BadDateFrom | src/test/60s-workflow.test.ts:103-110 | a valid date field does not stop the search for a bad one |
| Samples.HasAt | src/test/60s-workflow.test.ts:94-100 | an object has a key once one of its members carries it |
| Samples.FeedRecordValid | src/test/60s-workflow.test.ts:91-123 | a feed record with three valid timestamps and some news passes validation |
| Samples.TestSampleValid | src/test/60s-workflow.test.ts:246-256 | the sample stamped at noon on any day passes validation and is saved under that day's name |
| Personal.FindRank | src/services/personal-workflow.ts:117 | none exactly when no ranking has the id; otherwise a ranking with that id |
| Personal.Filtered | src/services/personal-workflow.ts:118-121 | never longer than its input |
| Personal.FilteredExact | src/services/personal-workflow.ts:118-121 | keeps exactly the items whose first ranking reaches the threshold |
| Personal.FilteredAllQualify | src/services/personal-workflow.ts:118-121 | keeps the whole list, in order, when every item qualifies |
| Personal.FilteredSubsequence | src/services/personal-workflow.ts:118-121 | the kept items are a subsequence of the input: order kept, nothing added |
| Personal.FilteredCounts | src/services/personal-workflow.ts:118-121 | a qualifying item is kept as many times as it occurs, any other not at all |
| Personal.FilteredAppend | src/services/personal-workflow.ts:118-121 | filtering a concatenation is the concatenation of the filtered parts |
| Personal.Top | src/services/personal-workflow.ts:124-125 | the first `maxContents` items, or all of them when there are fewer |
| Personal.SelectionBounds | src/services/personal-workflow.ts:117-125 | at most `maxContents` items, each from the input and reaching the threshold |
| Personal.Batches | src/services/personal-workflow.ts:128-135 | the batches concatenate to the list, each holds 1 to `batchSize` items, and all but the last are full |
| Personal.Select | src/services/personal-workflow.ts:117-135 | filter, truncate, then batch: the batches concatenate to the selection |
| Personal.NoBatches | src/services/personal-workflow.ts:128-135 | non-empty batches concatenate to nothing only when there are none |
| Personal.RefreshOf | src/services/personal-workflow.ts:65-93 | a result exactly when the scraper is registered and the feed answers with code 200; the result is the record's `updated` time |
| Personal.Directory.constructor | src/services/personal-workflow.ts:32 | the directory holds the given files |
| Personal.PersonalWorkflow.constructor | src/services/personal-workflow.ts:32 | the workflow writes into the given directory |
| Personal.PersonalWorkflow.SaveDataToFile | src/services/personal-workflow.ts:48-63 | the serialised record is written under its day's `.json` name |
| Personal.PersonalWorkflow.Refresh | src/services/personal-workflow.ts:65-93 | returns the refresh result, and writes the record exactly when it returns one |
| Personal.PersonalWorkflow.Process | src/services/personal-workflow.ts:95-144 | fails exactly when the ranking fails; the gathered list is empty, so no batch is processed and nothing is published |
| Personal.RefreshKeepsCopy | src/services/personal-workflow.ts:48-84 | after a refresh with a result the copy parses as the record and other files are untouched; without a result nothing changes |
| Scheduler.AdjustedDay | src/controllers/cron.ts:66 | a day from 1 to 7 that is the weekday modulo 7 (Sunday becomes 7) |
| Scheduler.ScheduleCoverage | src/controllers/cron.ts:61-139 | at 00:00 two jobs run the workflow, at 23:59 and every other fifth minute one, at other minutes none |
| Scheduler.PollerSkipsHalfHours | src/controllers/cron.ts:97-139 | on a fifth minute the poller runs exactly when the minute is not 0 or 30, and then the half-hourly job does not |
| Scheduler.CursorOrdersDates | src/controllers/cron.ts:15-18 | no cursor accepts every date; a cursor accepts exactly the later dates, never its own |
| Scheduler.SameDateProcessedAgain | src/controllers/cron.ts:35-54 | a record with the date already recorded, which `needsUpdate` refuses, is still processed |
| Scheduler.Cron.constructor | src/controllers/cron.ts:9-12 | no workflows and no cursor |
| Scheduler.Cron.UpdateLastDate | src/controllers/cron.ts:21-24 | the cursor holds the date and the workflows are unchanged |
| Scheduler.Cron.InitializeWorkflows | src/controllers/cron.ts:27-32 | days 1 to 7 get new, distinct workflows; other entries and the cursor are kept |
| Scheduler.Cron.ExecuteWorkflow | src/controllers/cron.ts:35-54 | succeeds exactly when refresh gives a non-empty date and process does not fail; the cursor moves to that date only then; the data directory is the refresh's |
| Scheduler.Cron.Tick | src/controllers/cron.ts:61-139 | a fired job runs the day's workflow unless it is the poller at minute 0 or 30 or the day has no workflow |
| Scheduler.Cron.StartCronJobs | src/controllers/cron.ts:56-58 | afterwards every weekday, Sunday included, has a fresh and separate workflow, other entries are kept and the cursor is unchanged |

## Left out

- File system I/O, including `mkdir`, `existsSync`, `stat` and the listing order of `readdir`. Directories are values: a listing plus a map from names to bytes. A new file is listed last.
- Concurrency: `Promise.all` and `async` ordering. Both writes of a save land together; a crash between them is not modelled.
- Console output and logging.
- Real JSON text and gzip. A document's bytes come from a tagged, length-prefixed serialiser with a proved round trip. Compression is a two-byte magic header. Pretty-printing (`JSON.stringify(data, null, 2)`) and byte sizes of real JSON differ from this.
- Numbers are integers; no floating point. `averageNewsPerDay` and `compressionRatio` are left out of the statistics because both are fractions; the other statistics are modelled.
- Dates are day numbers. A day's name is eight zero-padded digits, standing for `YYYY-MM-DD`. An ordering and a round trip are proved for it; the calendar itself is not modelled.
- Time zones. A timestamp is valid when its day part is a day name, and the time of day is not examined.
- Scraper.PublishDate: a timestamp that has a time part is kept as written. `toISOString` would also rewrite a time-zone offset or a shortened time into the UTC `...Z` form.
- SnapshotArchive.Archive.CheckFile: runs the corrected per-file check, which files an unreadable backup as a mismatch. The check as written is `Integrity.ClassifyAsWritten` (see Findings).
- SnapshotArchive.Archive.FileVerdicts: builds the corrected check's lists. The lists as written are those of `Integrity.IntegrityAsWritten`.
- SnapshotArchive.Archive.CheckDataIntegrity: gives the corrected report `Integrity.IntegrityOf`. The report as written is `Integrity.IntegrityAsWritten`.
- SnapshotArchive.Archive.AutoRepair: performs the corrected repair `Repository.Repair`. The repair as written is `Repository.RepairAsWritten`, which can copy an unreadable backup over a valid primary copy (see Findings).
- Text.ToLower: lower-cases ASCII letters only; other Unicode case mappings are not modelled.
- Local and UTC clocks are not distinguished. `setDate(getDate() + 1)` is the next day number.
- Samples.TestSample: the sample is stamped at noon on a day parameter, in place of the fixed `2025-03-04T12:00:00.000Z`.
- `exportData` returns the content it would write. The export directory, the timestamped path and the write are left out, and the JSON export is the collected array itself.
- `testAllFeatures`: a driver that calls operations that are each modelled here.
- node-cron scheduling and the `Asia/Shanghai` time zone. `Scheduler.Cron.Tick` is one firing of one job; the clock that fires jobs is left out.
- axios and the feed endpoint. The answer, or the error reaching it, is a parameter `Result<Response>`.
- The content ranker (an LLM call). Its result is a parameter.
- ConfigManager, the parent workflow class behind `super.refresh`, `processContent`, `generateAndPublishContent`, and the other workflows of the week. The personal workflow's settings (`batchSize` 1, `maxContents` 10, `minScore` 0.6, 7 days, src/config/personal.config.ts:38-42, 63-65) are constants.
- Personal.Batches requires `batchSize >= 1`. The configured value is 1, and with 0 the loop would never end.
- Scheduler.Cron.ExecuteWorkflow does not consult `needsUpdate`, because the source does not. `Scheduler.SameDateProcessedAgain` states the result.
- The scraper's unit test under src/scrapers/__tests__ expects a different item shape than the scraper builds; the model follows the scraper.
- Snapshot.LooseEqual: a string's length and its indices count characters, where JavaScript counts UTF-16 code units; a news string with characters outside the Basic Multilingual Plane compares differently.
- Reports.NewsLength: a string's length counts characters, not UTF-16 code units. A `news` object whose `length` member is a string, an array or an object would make `totalNews` a string by concatenation; the model counts it as `NaN`.
- Json.Get: a parsed object keeps its members as written, duplicates included; a lookup gives the last, as `JSON.parse` does, but `Snapshot.StrictIsEquality` compares the members as written, so two payloads that `JSON.stringify` renders alike (one with a duplicate key dropped) can compare unequal.
- Snapshot.ReadData: a read that fails for a reason other than absence or bad content (permission denied) is not modelled.

## Findings

| source | as written | input that shows it | evidently intended | confidence | as-written member | corrected member |
|---|---|---|---|---|---|---|
| src/test/60s-workflow.test.ts:514-580 | the backup's read error at line 524 is caught by the handler meant for the primary copy, so the file is listed as corrupt; `autoRepair` then copies the backup over the valid primary copy | one file whose primary copy is a valid record and whose backup file is empty | file it as a backup mismatch, so the repair saves the valid primary copy again over both copies | not executed | Repository.AsWrittenRepairOverwritesValidPrimary | Repository.RepairKeepsValidPrimary |
