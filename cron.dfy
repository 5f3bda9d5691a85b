/** The cron controller: one workflow per day of the week, a cursor holding
    the last date processed, and four timed jobs that each run the day's
    workflow. */
module Scheduler {
  import opened Outcomes
  import opened Text
  import opened Scraper
  import opened Personal
  import Store

  /** The four schedules: 23:59, 00:00, minutes 0 and 30 of every hour, and
      every fifth minute. */
  datatype Job = Nightly | Midnight | HalfHourly | Poller

  /** Whether the cron expression of `job` matches a wall-clock time. */
  predicate Fires(job: Job, hour: int, minute: int) {
    match job
    case Nightly => hour == 23 && minute == 59
    case Midnight => hour == 0 && minute == 0
    case HalfHourly => minute == 0 || minute == 30
    case Poller => minute % 5 == 0
  }

  /** Whether a job's handler goes on to the workflow once fired: the poller
      leaves minutes 0 and 30 to the half-hourly job. */
  predicate Proceeds(job: Job, minute: int) {
    !(job == Poller && (minute == 0 || minute == 30))
  }

  /** Whether `job` attempts the workflow at a wall-clock time. */
  predicate Attempts(job: Job, hour: int, minute: int) {
    Fires(job, hour, minute) && Proceeds(job, minute)
  }

  /** How many jobs attempt the workflow at a wall-clock time. */
  function AttemptCount(hour: int, minute: int): nat {
    (if Attempts(Nightly, hour, minute) then 1 else 0)
    + (if Attempts(Midnight, hour, minute) then 1 else 0)
    + (if Attempts(HalfHourly, hour, minute) then 1 else 0)
    + (if Attempts(Poller, hour, minute) then 1 else 0)
  }

  /** The map key of a `getDay()` value: Sunday (0) becomes 7. */
  function AdjustedDay(dayOfWeek: int): (d: int)
    requires 0 <= dayOfWeek <= 6
    ensures 1 <= d <= 7
    ensures d % 7 == dayOfWeek
  {
    if dayOfWeek == 0 then 7 else dayOfWeek
  }

  /** The days the workflow map is filled for. */
  const WeekDays: set<int> := {1, 2, 3, 4, 5, 6, 7}

  /** `needsUpdate(currentDate)`: with no (or an empty) cursor every date is
      new; otherwise only a date after the cursor in string order. */
  predicate NeedsUpdate(last: Option<string>, current: string) {
    last.None? || last.value == "" || Less(last.value, current)
  }

  /** Whether `executeWorkflow` succeeds: `refresh` gave a result with a
      non-empty date and `process` did not throw. */
  predicate Executes(refreshed: Option<RefreshResult>, ranking: Result<seq<RankResult>>) {
    refreshed.Some? && refreshed.value.date != "" && ProcessOutcome(ranking) == Pass
  }

  /** Every minute of the day is attempted by at most two jobs: both the
      midnight and the half-hourly job at 00:00, one job at 23:59 and at every
      other fifth minute, and none at any other minute. */
  lemma ScheduleCoverage(hour: int, minute: int)
    requires 0 <= hour < 24 && 0 <= minute < 60
    ensures AttemptCount(hour, minute) ==
      if hour == 0 && minute == 0 then 2
      else if minute % 5 == 0 || (hour == 23 && minute == 59) then 1
      else 0
  {
  }

  /** The poller never runs the workflow at minute 0 or 30, and apart from
      those minutes it is the only job on a fifth minute other than 23:59. */
  lemma PollerSkipsHalfHours(hour: int, minute: int)
    requires 0 <= hour < 24 && 0 <= minute < 60 && minute % 5 == 0
    ensures Attempts(Poller, hour, minute) <==> minute != 0 && minute != 30
    ensures Attempts(HalfHourly, hour, minute) <==> !Attempts(Poller, hour, minute)
  {
  }

  /** Before any date is recorded `needsUpdate` accepts every date; once the
      cursor holds a non-empty date it accepts exactly the later dates, and in
      particular refuses the cursor's own date. */
  lemma {:induction false} CursorOrdersDates(last: string, current: string)
    requires last != ""
    ensures NeedsUpdate(None, current) && NeedsUpdate(Some(""), current)
    ensures NeedsUpdate(Some(last), current) <==> Less(last, current)
    ensures !NeedsUpdate(Some(last), last)
  {
    LessIrreflexive(last);
  }

  /** The cursor does not gate execution: a record carrying the date already
      recorded, which `needsUpdate` would refuse, is still processed. */
  lemma {:induction false} SameDateProcessedAgain(date: string, ranks: seq<RankResult>)
    requires date != ""
    ensures !NeedsUpdate(Some(date), date)
    ensures Executes(Some(RefreshResult(date)), Ok(ranks))
  {
    CursorOrdersDates(date, date);
  }

  /** The controller's module state. */
  class Cron {
    /** `workflowMap`: the workflow for each adjusted day. */
    var workflowMap: map<int, PersonalWorkflow>
    /** `lastUpdateDate`. */
    var lastUpdateDate: Option<string>
    /** The data directory every workflow writes into. */
    const dataDir: Directory

    /** Every workflow writes into the one data directory, whose listing is
        consistent. */
    predicate Valid()
      reads this, dataDir
    {
      Store.Valid(dataDir.files) && forall w :: w in workflowMap.Values ==> w.dataDir == dataDir
    }

    constructor (dataDir: Directory)
      requires Store.Valid(dataDir.files)
      ensures Valid()
      ensures workflowMap == map[] && lastUpdateDate == None && this.dataDir == dataDir
    {
      workflowMap := map[];
      lastUpdateDate := None;
      this.dataDir := dataDir;
    }

    /** `updateLastDate(date)`. */
    method UpdateLastDate(date: string)
      modifies this
      ensures lastUpdateDate == Some(date)
      ensures workflowMap == old(workflowMap)
    {
      lastUpdateDate := Some(date);
    }

    /** `initializeWorkflows()`: a new, separate workflow for each of the days
        1 to 7; other entries are kept. */
    method InitializeWorkflows()
      requires Valid()
      modifies this
      ensures Valid()
      ensures workflowMap.Keys == old(workflowMap).Keys + WeekDays
      ensures forall d :: 1 <= d <= 7 ==> fresh(workflowMap[d])
      ensures forall d, e :: 1 <= d < e <= 7 ==> workflowMap[d] != workflowMap[e]
      ensures forall d :: d in old(workflowMap) && d !in WeekDays ==> workflowMap[d] == old(workflowMap)[d]
      ensures lastUpdateDate == old(lastUpdateDate)
    {
      var i := 1;
      while i <= 7
        invariant 1 <= i <= 8
        invariant Valid()
        invariant forall d :: d in workflowMap <==> d in old(workflowMap) || 1 <= d < i
        invariant forall d :: 1 <= d < i ==> fresh(workflowMap[d])
        invariant forall d, e :: 1 <= d < e < i ==> workflowMap[d] != workflowMap[e]
        invariant forall d :: d in old(workflowMap) && !(1 <= d < i) ==> workflowMap[d] == old(workflowMap)[d]
        invariant lastUpdateDate == old(lastUpdateDate)
      {
        var workflow := new PersonalWorkflow(dataDir);
        workflowMap := workflowMap[i := workflow];
        i := i + 1;
      }
      assert forall d :: d in WeekDays <==> 1 <= d <= 7;
    }

    /** `executeWorkflow(workflow, ...)`: refresh, and when that gives a
        non-empty date, process and move the cursor to that date. Any error is
        caught and reported as `false`, leaving the cursor where it was. */
    method ExecuteWorkflow(workflow: PersonalWorkflow, hasScraper: bool, response: Result<Response>, ranking: Result<seq<RankResult>>)
      returns (ok: bool)
      requires Valid() && workflow.dataDir == dataDir
      modifies this, dataDir
      ensures Valid()
      ensures workflowMap == old(workflowMap)
      ensures ok == Executes(RefreshOf(hasScraper, response), ranking)
      ensures lastUpdateDate == if ok then Some(RefreshOf(hasScraper, response).value.date) else old(lastUpdateDate)
      ensures dataDir.files == RefreshedDir(old(dataDir.files), hasScraper, response)
    {
      var refreshResult := workflow.Refresh(hasScraper, response);
      if refreshResult.Some? && refreshResult.value.date != "" {
        var outcome, _, _ := workflow.Process(ranking);
        if outcome.Fail? {
          return false;
        }
        UpdateLastDate(refreshResult.value.date);
        return true;
      }
      return false;
    }

    /** The handler of `job` when it fires on weekday `dayOfWeek` at `minute`:
        the poller returns at minutes 0 and 30; otherwise the day's workflow,
        if there is one, is executed. */
    method Tick(job: Job, dayOfWeek: int, minute: int, hasScraper: bool, response: Result<Response>, ranking: Result<seq<RankResult>>)
      returns (attempted: bool, ok: bool)
      requires Valid() && 0 <= dayOfWeek <= 6
      modifies this, dataDir
      ensures Valid()
      ensures workflowMap == old(workflowMap)
      ensures attempted == (Proceeds(job, minute) && AdjustedDay(dayOfWeek) in workflowMap)
      ensures ok == (attempted && Executes(RefreshOf(hasScraper, response), ranking))
      ensures lastUpdateDate == if ok then Some(RefreshOf(hasScraper, response).value.date) else old(lastUpdateDate)
      ensures dataDir.files == if attempted then RefreshedDir(old(dataDir.files), hasScraper, response) else old(dataDir.files)
    {
      if !Proceeds(job, minute) {
        return false, false;
      }
      var adjustedDay := AdjustedDay(dayOfWeek);
      if adjustedDay !in workflowMap {
        return false, false;
      }
      var workflow := workflowMap[adjustedDay];
      ok := ExecuteWorkflow(workflow, hasScraper, response, ranking);
      attempted := true;
    }

    /** `startCronJobs()`, up to scheduling: after it every day of the week,
        Sunday included, has a workflow. */
    method StartCronJobs()
      requires Valid()
      modifies this
      ensures Valid()
      ensures forall dayOfWeek :: 0 <= dayOfWeek <= 6 ==> AdjustedDay(dayOfWeek) in workflowMap
      ensures workflowMap.Keys == old(workflowMap).Keys + WeekDays
      ensures forall d :: 1 <= d <= 7 ==> fresh(workflowMap[d])
      ensures forall d, e :: 1 <= d < e <= 7 ==> workflowMap[d] != workflowMap[e]
      ensures forall d :: d in old(workflowMap) && d !in WeekDays ==> workflowMap[d] == old(workflowMap)[d]
      ensures lastUpdateDate == old(lastUpdateDate)
    {
      InitializeWorkflows();
    }
  }
}
