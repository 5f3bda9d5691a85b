/** What `checkDataIntegrity` reports about the primary and backup directories:
    the days missing between the first and the last archived day, the files that
    cannot be read or fail validation, and the files whose backup is absent or
    differs. */
module Integrity {
  import opened Outcomes
  import opened Text
  import opened Calendar
  import opened Snapshot
  import Store

  datatype Status = StatusOk | StatusWarning | StatusError

  datatype IntegrityReport = IntegrityReport(
    missingDates: seq<string>,
    corruptedFiles: seq<string>,
    backupMismatches: seq<string>,
    totalChecked: nat,
    status: Status)

  /** `files.map(f => f.split('.')[0])`. */
  function FileDates(names: seq<string>): (r: seq<string>)
    ensures |r| == |names|
    ensures forall k :: 0 <= k < |names| ==> r[k] == FileDate(names[k])
  {
    if names == [] then [] else FileDates(names[..|names| - 1]) + [FileDate(names[|names| - 1])]
  }

  /** The first element once `ds` is sorted: its least string. */
  function Least(ds: seq<string>): (r: string)
    requires ds != []
    ensures r in ds
    ensures forall x :: x in ds ==> !Less(x, r)
  {
    if |ds| == 1 then
      LessIrreflexive(ds[0]);
      ds[0]
    else
      var init := ds[..|ds| - 1];
      var last := ds[|ds| - 1];
      var m := Least(init);
      assert ds == init + [last];
      if Less(last, m) then
        forall x | x in ds ensures !Less(x, last) {
          if x in init && Less(x, last) { LessTransitive(x, last, m); }
          if x == last { LessIrreflexive(last); }
        }
        last
      else
        m
  }

  /** The last element once `ds` is sorted: its greatest string. */
  function Greatest(ds: seq<string>): (r: string)
    requires ds != []
    ensures r in ds
    ensures forall x :: x in ds ==> !Less(r, x)
  {
    if |ds| == 1 then
      LessIrreflexive(ds[0]);
      ds[0]
    else
      var init := ds[..|ds| - 1];
      var last := ds[|ds| - 1];
      var m := Greatest(init);
      assert ds == init + [last];
      if Less(m, last) then
        forall x | x in ds ensures !Less(last, x) {
          if x in init && Less(last, x) { LessTransitive(m, last, x); }
          if x == last { LessIrreflexive(last); }
        }
        last
      else
        m
  }

  /** One more string is the new least exactly when it is below the old one. */
  lemma LeastSnoc(init: seq<string>, x: string)
    requires init != []
    ensures Least(init + [x]) == if Less(x, Least(init)) then x else Least(init)
  {
    assert (init + [x])[..|init|] == init;
  }

  /** One more string is the new greatest exactly when it is above the old one. */
  lemma GreatestSnoc(init: seq<string>, x: string)
    requires init != []
    ensures Greatest(init + [x]) == if Less(Greatest(init), x) then x else Greatest(init)
  {
    assert (init + [x])[..|init|] == init;
  }

  /** The names of the days `from .. to - 1` that are not among `dates`, in order. */
  function Absent(from: Day, to: nat, dates: seq<string>): seq<string>
    requires from <= to <= DayCount
    decreases (to as int) - (from as int)
  {
    if to == from then []
    else Absent(from, to - 1, dates) + (if DayToString(to - 1) in dates then [] else [DayToString(to - 1)])
  }

  /** The continuity check: if both the least and the greatest date are valid
      days, the days between them that have no file; otherwise nothing. */
  function Gaps(dates: seq<string>): seq<string> {
    if dates == [] then []
    else
      match (ParseDay(Least(dates)), ParseDay(Greatest(dates)))
      case (Some(lo), Some(hi)) => if lo <= hi then Absent(lo, (hi as nat) + 1, dates) else []
      case _ => []
  }

  /** `Gaps` once its bounds are known. */
  lemma GapsBounds(dates: seq<string>)
    requires dates != []
    ensures var lo := ParseDay(Least(dates));
      var hi := ParseDay(Greatest(dates));
      Gaps(dates) == if lo.Some? && hi.Some? && lo.value <= hi.value then Absent(lo.value, (hi.value as nat) + 1, dates) else []
  {
  }

  /** How the per-file loop files one name. */
  datatype Verdict = Sound | Corrupt | Mismatch

  /** The per-file check as the source writes it: a primary copy that cannot be
      read or fails validation is corrupt, an absent or differing backup is a
      mismatch, and a backup that exists but cannot be read is also filed as
      corrupt, because its read error is caught by the same handler. */
  function ClassifyAsWritten(primary: Store.Dir, backup: Store.Dir, name: string, strict: bool): (v: Verdict)
    ensures v == Corrupt <==>
              || ReadData(primary, name).Err? || !ValidateData(ReadData(primary, name).value)
              || (name in backup.blobs && ReadData(backup, name).Err?)
    ensures v == Sound ==>
              && name in backup.blobs && ReadData(backup, name).Ok?
              && CompareNewsData(ReadData(primary, name).value, ReadData(backup, name).value, strict)
  {
    match ReadData(primary, name)
    case Err(_) => Corrupt
    case Ok(main) =>
      if !ValidateData(main) then Corrupt
      else if name !in backup.blobs then Mismatch
      else match ReadData(backup, name)
        case Err(_) => Corrupt
        case Ok(other) => if CompareNewsData(main, other, strict) then Sound else Mismatch
  }

  /** The per-file check with an unreadable backup filed as a mismatch: only a
      bad primary copy is corrupt. */
  function Classify(primary: Store.Dir, backup: Store.Dir, name: string, strict: bool): (v: Verdict)
    ensures v == Corrupt <==> ReadData(primary, name).Err? || !ValidateData(ReadData(primary, name).value)
    ensures v == Sound ==>
              && name in backup.blobs && ReadData(backup, name).Ok?
              && CompareNewsData(ReadData(primary, name).value, ReadData(backup, name).value, strict)
  {
    match ReadData(primary, name)
    case Err(_) => Corrupt
    case Ok(main) =>
      if !ValidateData(main) then Corrupt
      else if name !in backup.blobs then Mismatch
      else match ReadData(backup, name)
        case Err(_) => Mismatch
        case Ok(other) => if CompareNewsData(main, other, strict) then Sound else Mismatch
  }

  /** The names among `names` that `verdict` files as `v`, in order. */
  function Filed(names: seq<string>, verdict: string -> Verdict, v: Verdict): seq<string>
  {
    if names == [] then []
    else
      var init := names[..|names| - 1];
      var last := names[|names| - 1];
      Filed(init, verdict, v) + (if verdict(last) == v then [last] else [])
  }

  /** The status: corrupt files make an error; otherwise gaps or mismatches make a warning. */
  function StatusOf(missing: seq<string>, corrupted: seq<string>, mismatches: seq<string>): Status {
    if |corrupted| > 0 then StatusError
    else if |missing| > 0 || |mismatches| > 0 then StatusWarning
    else StatusOk
  }

  /** The report for the primary directory's listing under a per-file check. */
  function ReportFor(primary: Store.Dir, verdict: string -> Verdict): IntegrityReport {
    var missing := Gaps(FileDates(primary.names));
    var corrupted := Filed(primary.names, verdict, Corrupt);
    var mismatches := Filed(primary.names, verdict, Mismatch);
    IntegrityReport(missing, corrupted, mismatches, |primary.names|, StatusOf(missing, corrupted, mismatches))
  }

  /** `checkDataIntegrity` as written. */
  function IntegrityAsWritten(primary: Store.Dir, backup: Store.Dir, strict: bool): IntegrityReport {
    ReportFor(primary, VerdictAsWritten(primary, backup, strict))
  }

  /** The per-file check as written as a function of the file name. */
  function VerdictAsWritten(primary: Store.Dir, backup: Store.Dir, strict: bool): string -> Verdict {
    x => ClassifyAsWritten(primary, backup, x, strict)
  }

  /** The corrected per-file check as a function of the file name. */
  function VerdictOf(primary: Store.Dir, backup: Store.Dir, strict: bool): string -> Verdict {
    x => Classify(primary, backup, x, strict)
  }

  /** `checkDataIntegrity` with the corrected per-file check. */
  function IntegrityOf(primary: Store.Dir, backup: Store.Dir, strict: bool): IntegrityReport {
    ReportFor(primary, VerdictOf(primary, backup, strict))
  }

  // ---- continuity

  lemma {:induction false} AbsentExact(from: Day, to: nat, dates: seq<string>, x: string)
    requires from <= to <= DayCount
    ensures x in Absent(from, to, dates) <==> (x !in dates && exists k: Day :: from <= k < to && x == DayToString(k))
    decreases (to as int) - (from as int)
  {
    if to > from {
      AbsentExact(from, to - 1, dates, x);
      var t: Day := to - 1;
      if x == DayToString(t) && x !in dates {
        assert from <= t < to && x == DayToString(t);
      }
    }
  }

  /** The gap names are strictly increasing, hence also free of repeats. */
  lemma {:induction false} AbsentAscending(from: Day, to: nat, dates: seq<string>)
    requires from <= to <= DayCount
    ensures forall i, j :: 0 <= i < j < |Absent(from, to, dates)| ==>
              Less(Absent(from, to, dates)[i], Absent(from, to, dates)[j])
    decreases (to as int) - (from as int)
  {
    if to > from {
      AbsentAscending(from, to - 1, dates);
      var t: Day := to - 1;
      var a := Absent(from, to - 1, dates);
      forall i | 0 <= i < |a| ensures Less(a[i], DayToString(t)) {
        AbsentExact(from, to - 1, dates, a[i]);
        var k: Day :| from <= k < to - 1 && a[i] == DayToString(k);
        DayToStringOrder(k, t);
      }
    }
  }

  /** Every valid day among the dates lies between the least and the greatest. */
  lemma WithinBounds(dates: seq<string>, d: Day)
    requires dates != [] && DayToString(d) in dates
    requires ParseDay(Least(dates)).Some? && ParseDay(Greatest(dates)).Some?
    ensures ParseDay(Least(dates)).value <= d <= ParseDay(Greatest(dates)).value
  {
    var lo := ParseDay(Least(dates)).value;
    var hi := ParseDay(Greatest(dates)).value;
    DayToStringParse(Least(dates));
    DayToStringParse(Greatest(dates));
    DayToStringOrder(d, lo);
    DayToStringOrder(hi, d);
  }

  /** The gaps are exactly the days between the first and the last archived day
      that have no file. */
  lemma GapsExact(dates: seq<string>, lo: Day, hi: Day, x: string)
    requires dates != [] && ParseDay(Least(dates)) == Some(lo) && ParseDay(Greatest(dates)) == Some(hi)
    ensures lo <= hi
    ensures x in Gaps(dates) <==> (x !in dates && exists k: Day :: lo <= k <= hi && x == DayToString(k))
  {
    DayToStringParse(Least(dates));
    WithinBounds(dates, lo);
    AbsentExact(lo, (hi as nat) + 1, dates, x);
  }

  /** A single archived day, or several files of one day, leave no gap. */
  lemma OneDayNoGaps(dates: seq<string>, d: Day)
    requires dates != [] && forall x :: x in dates ==> x == DayToString(d)
    ensures Gaps(dates) == []
  {
    assert dates[0] in dates;
    assert Least(dates) == DayToString(d) && Greatest(dates) == DayToString(d);
    ParseDayToString(d);
    var next: nat := (d as nat) + 1;
    assert Absent(d, next, dates) == Absent(d, d, dates) + [];
  }

  /** Of two day names, the earlier day's is the least and the later day's the greatest. */
  lemma TwoDayBounds(a: Day, b: Day)
    requires a < b
    ensures Least([DayToString(a), DayToString(b)]) == DayToString(a)
    ensures Greatest([DayToString(a), DayToString(b)]) == DayToString(b)
  {
    DayToStringOrder(a, b);
    LessAsymmetric(DayToString(a), DayToString(b));
  }

  /** Files for days `d` and `d + 2` leave exactly day `d + 1` missing. */
  lemma OneDayMissing(d: Day)
    requires d + 2 < DayCount
    ensures Gaps([DayToString(d), DayToString(d + 2)]) == [DayToString(d + 1)]
  {
    var d1: Day := d + 1;
    var d2: Day := d + 2;
    var dates := [DayToString(d), DayToString(d2)];
    TwoDayBounds(d, d2);
    ParseDayToString(d);
    ParseDayToString(d2);
    var missing := DayToString(d1);
    assert missing !in dates by {
      if missing == DayToString(d) { DayToStringInjective(d1, d); }
      if missing == DayToString(d2) { DayToStringInjective(d1, d2); }
    }
    GapsBounds(dates);
    assert DayToString(d) in dates && DayToString(d2) in dates;
    MiddleAbsent(d, dates);
  }

  /** Over three days whose first and last have files, the walk finds the middle one. */
  lemma MiddleAbsent(d: Day, dates: seq<string>)
    requires d + 2 < DayCount
    requires DayToString(d) in dates && DayToString(d + 2) in dates && DayToString(d + 1) !in dates
    ensures Absent(d, d + 3, dates) == [DayToString(d + 1)]
  {
    assert Absent(d, d + 1, dates) == [];
    assert Absent(d, d + 2, dates) == [DayToString(d + 1)];
  }

  // ---- per-file checks

  lemma {:induction false} FiledExact(names: seq<string>, verdict: string -> Verdict, v: Verdict, x: string)
    ensures x in Filed(names, verdict, v) <==> x in names && verdict(x) == v
  {
    if names != [] {
      var init := names[..|names| - 1];
      FiledExact(init, verdict, v, x);
      assert names == init + [names[|names| - 1]];
    }
  }

  lemma {:induction false} FiledDistinct(names: seq<string>, verdict: string -> Verdict, v: Verdict)
    requires Store.Distinct(names)
    ensures Store.Distinct(Filed(names, verdict, v))
  {
    if names != [] {
      var init := names[..|names| - 1];
      var last := names[|names| - 1];
      FiledDistinct(init, verdict, v);
      FiledExact(init, verdict, v, last);
      assert last !in init;
    }
  }

  /** For any per-file check: a file is listed as corrupt exactly when the
      check says so, and likewise for mismatches; no file is listed as both,
      and neither list repeats a name. */
  lemma ReportForLists(primary: Store.Dir, verdict: string -> Verdict, x: string)
    requires Store.Valid(primary)
    ensures var r := ReportFor(primary, verdict);
      && (x in r.corruptedFiles <==> x in primary.names && verdict(x) == Corrupt)
      && (x in r.backupMismatches <==> x in primary.names && verdict(x) == Mismatch)
      && !(x in r.corruptedFiles && x in r.backupMismatches)
      && Store.Distinct(r.corruptedFiles) && Store.Distinct(r.backupMismatches)
  {
    FiledExact(primary.names, verdict, Corrupt, x);
    FiledExact(primary.names, verdict, Mismatch, x);
    FiledDistinct(primary.names, verdict, Corrupt);
    FiledDistinct(primary.names, verdict, Mismatch);
  }

  /** For any per-file check: the status is an error exactly when some file is
      corrupt, a warning exactly when none is but a day is missing or some
      file is mismatched, and ok exactly when no day is missing and every file
      passes. */
  lemma ReportForStatus(primary: Store.Dir, verdict: string -> Verdict)
    requires Store.Valid(primary)
    ensures var r := ReportFor(primary, verdict);
      && (r.status == StatusError <==> exists x :: x in primary.names && verdict(x) == Corrupt)
      && (r.status == StatusWarning <==>
            && (forall x :: x in primary.names ==> verdict(x) != Corrupt)
            && (r.missingDates != [] || exists x :: x in primary.names && verdict(x) == Mismatch))
      && (r.status == StatusOk <==> r.missingDates == [] && forall x :: x in primary.names ==> verdict(x) == Sound)
  {
    var r := ReportFor(primary, verdict);
    if r.corruptedFiles != [] {
      ReportForLists(primary, verdict, r.corruptedFiles[0]);
    }
    if r.backupMismatches != [] {
      ReportForLists(primary, verdict, r.backupMismatches[0]);
    }
    forall x | x in primary.names
      ensures verdict(x) == Corrupt ==> r.corruptedFiles != []
      ensures verdict(x) == Mismatch ==> r.backupMismatches != []
    {
      ReportForLists(primary, verdict, x);
    }
  }

  /** The corrected check's lists: exact, disjoint and without repeats. */
  lemma ReportLists(primary: Store.Dir, backup: Store.Dir, strict: bool, x: string)
    requires Store.Valid(primary)
    ensures var r := IntegrityOf(primary, backup, strict);
      && (x in r.corruptedFiles <==> x in primary.names && Classify(primary, backup, x, strict) == Corrupt)
      && (x in r.backupMismatches <==> x in primary.names && Classify(primary, backup, x, strict) == Mismatch)
      && !(x in r.corruptedFiles && x in r.backupMismatches)
      && Store.Distinct(r.corruptedFiles) && Store.Distinct(r.backupMismatches)
  {
    ReportForLists(primary, VerdictOf(primary, backup, strict), x);
  }

  /** The lists of the check as written: exact, disjoint and without repeats,
      so no file is both corrupt and mismatched there either. */
  lemma ReportListsAsWritten(primary: Store.Dir, backup: Store.Dir, strict: bool, x: string)
    requires Store.Valid(primary)
    ensures var r := IntegrityAsWritten(primary, backup, strict);
      && (x in r.corruptedFiles <==> x in primary.names && ClassifyAsWritten(primary, backup, x, strict) == Corrupt)
      && (x in r.backupMismatches <==> x in primary.names && ClassifyAsWritten(primary, backup, x, strict) == Mismatch)
      && !(x in r.corruptedFiles && x in r.backupMismatches)
      && Store.Distinct(r.corruptedFiles) && Store.Distinct(r.backupMismatches)
  {
    ReportForLists(primary, VerdictAsWritten(primary, backup, strict), x);
  }

  /** A readable, valid primary copy with no backup copy is a mismatch. */
  lemma MissingBackupIsMismatch(primary: Store.Dir, backup: Store.Dir, strict: bool, x: string)
    requires Store.Valid(primary)
    requires x in primary.names
    requires ReadData(primary, x).Ok? && ValidateData(ReadData(primary, x).value)
    requires x !in backup.blobs
    ensures x in IntegrityOf(primary, backup, strict).backupMismatches
  {
    ReportLists(primary, backup, strict, x);
  }

  /** As written too, a readable, valid primary copy with no backup copy is a
      mismatch. */
  lemma MissingBackupIsMismatchAsWritten(primary: Store.Dir, backup: Store.Dir, strict: bool, x: string)
    requires Store.Valid(primary)
    requires x in primary.names
    requires ReadData(primary, x).Ok? && ValidateData(ReadData(primary, x).value)
    requires x !in backup.blobs
    ensures x in IntegrityAsWritten(primary, backup, strict).backupMismatches
  {
    ReportListsAsWritten(primary, backup, strict, x);
  }

  /** Under strict comparison, a readable, valid file whose backup holds the same
      bytes passes. */
  lemma IdenticalCopiesSound(primary: Store.Dir, backup: Store.Dir, x: string)
    requires x in primary.blobs && x in backup.blobs && primary.blobs[x] == backup.blobs[x]
    requires ReadData(primary, x).Ok? && ValidateData(ReadData(primary, x).value)
    ensures Classify(primary, backup, x, true) == Sound
  {
  }

  /** The corrected check's status: an error exactly when some file is
      corrupt, ok exactly when no day is missing and every file passes. */
  lemma StatusMeaning(primary: Store.Dir, backup: Store.Dir, strict: bool)
    requires Store.Valid(primary)
    ensures var r := IntegrityOf(primary, backup, strict);
      && (r.status == StatusError <==> exists x :: x in primary.names && Classify(primary, backup, x, strict) == Corrupt)
      && (r.status == StatusOk <==> r.missingDates == [] && forall x :: x in primary.names ==> Classify(primary, backup, x, strict) == Sound)
  {
    ReportForStatus(primary, VerdictOf(primary, backup, strict));
  }

  /** The status of the check as written: an error exactly when some file is
      corrupt under that check (an unreadable backup included), ok exactly when
      no day is missing and every file passes. */
  lemma StatusMeaningAsWritten(primary: Store.Dir, backup: Store.Dir, strict: bool)
    requires Store.Valid(primary)
    ensures var r := IntegrityAsWritten(primary, backup, strict);
      && (r.status == StatusError <==> exists x :: x in primary.names && ClassifyAsWritten(primary, backup, x, strict) == Corrupt)
      && (r.status == StatusOk <==> r.missingDates == [] && forall x :: x in primary.names ==> ClassifyAsWritten(primary, backup, x, strict) == Sound)
  {
    ReportForStatus(primary, VerdictAsWritten(primary, backup, strict));
  }

  /** The two per-file checks differ on exactly one kind of file: a readable,
      valid primary copy whose backup exists but cannot be read, which the
      check as written files as corrupt and the corrected one as a mismatch. */
  lemma ChecksDifferOnUnreadableBackup(primary: Store.Dir, backup: Store.Dir, name: string, strict: bool)
    ensures ClassifyAsWritten(primary, backup, name, strict) != Classify(primary, backup, name, strict) <==>
              && ReadData(primary, name).Ok? && ValidateData(ReadData(primary, name).value)
              && name in backup.blobs && ReadData(backup, name).Err?
    ensures ClassifyAsWritten(primary, backup, name, strict) != Classify(primary, backup, name, strict) ==>
              ClassifyAsWritten(primary, backup, name, strict) == Corrupt && Classify(primary, backup, name, strict) == Mismatch
  {
  }

  /** As written, a valid primary copy whose backup cannot be read is listed as
      corrupt. */
  lemma AsWrittenFilesUnreadableBackupAsCorrupt(primary: Store.Dir, backup: Store.Dir, strict: bool, x: string)
    requires x in primary.names
    requires ReadData(primary, x).Ok? && ValidateData(ReadData(primary, x).value)
    requires x in backup.blobs && ReadData(backup, x).Err?
    ensures x in IntegrityAsWritten(primary, backup, strict).corruptedFiles
    ensures x in IntegrityOf(primary, backup, strict).backupMismatches
  {
    FiledExact(primary.names, y => ClassifyAsWritten(primary, backup, y, strict), Corrupt, x);
    FiledExact(primary.names, y => Classify(primary, backup, y, strict), Mismatch, x);
  }
}
