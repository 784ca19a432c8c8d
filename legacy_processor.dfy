/** The original in-process bulk processor: the job is tracked only when
    both a job id and a job manager are supplied; every record's task reports
    its progress right after its create call returns; exceptions from a task
    are turned into "failed" results after the gather; and the batch is
    activated or rolled back exactly as in the rollback worker task. */
module LegacyProcessor {
  import opened Domain
  import opened RecordCreation
  import opened LegacyJobManager
  import RollbackTasks

  /** What one record's task yields to `asyncio.gather(return_exceptions=True)`. */
  datatype TaskResult = TaskReturned(result: ProcessingResult) | TaskRaised(error: string)

  /** `if job_id and self.job_manager`: an empty job id does not count. */
  predicate Tracking(manager: JobManager?, jobId: Option<string>) {
    manager != null && jobId.Some? && jobId.value != ""
  }

  /** `_create_single_hospital`: a raising create call raises out of the
      task before any progress update; otherwise the record's result. */
  function SingleTask(rec: HospitalRecord, outcome: CreateOutcome): (t: TaskResult)
    ensures t.TaskRaised? <==> outcome.Raised?
    ensures t.TaskReturned? ==> t.result == CreateSingle(rec, outcome)
  {
    if outcome.Raised? then TaskRaised(outcome.error) else TaskReturned(CreateSingle(rec, outcome))
  }

  /** The failed result the gather loop builds for a task that raised. */
  function RaisedResult(rec: HospitalRecord, error: string): ProcessingResult {
    ProcessingResult(rec.rowNumber, None, rec.name, RecordFailed, Some(UnexpectedPrefix + error))
  }

  /** The progress updates the first n tasks report, in order: one for each
      create call that returned, successful exactly when it returned a
      hospital; `tick(i)` is the clock reading of the i-th update. */
  function ProgressUpdates(records: seq<HospitalRecord>, create: nat -> CreateOutcome, tick: nat -> nat, n: nat): (us: seq<ProgressUpdate>)
    requires n <= |records|
    ensures |us| <= n
    decreases n
  {
    if n == 0 then [] else ProgressUpdates(records, create, tick, n - 1) + Reports(records[n - 1], create(n - 1), tick(n - 1))
  }

  /** What one task reports: nothing when its create call raised. */
  function Reports(rec: HospitalRecord, outcome: CreateOutcome, now: nat): seq<ProgressUpdate> {
    if outcome.Raised? then [] else [ProgressUpdate(rec.name, outcome.Returned?, now)]
  }

  /** When no create call raises (the legacy client catches every exception
      itself), each record issues exactly one update, at its own index, with
      its name, successful exactly when a hospital was returned. */
  lemma {:induction false} OneUpdatePerRecord(records: seq<HospitalRecord>, create: nat -> CreateOutcome, tick: nat -> nat, n: nat)
    requires n <= |records|
    requires forall i :: 0 <= i < n ==> !create(i).Raised?
    ensures var us := ProgressUpdates(records, create, tick, n);
      |us| == n
      && forall i :: 0 <= i < n ==> us[i] == ProgressUpdate(records[i].name, create(i).Returned?, tick(i))
    decreases n
  {
    if n > 0 {
      OneUpdatePerRecord(records, create, tick, n - 1);
    }
  }

  /** The failures reported through progress are the create calls that
      returned without a hospital. */
  lemma {:induction false} ReportedFailures(records: seq<HospitalRecord>, create: nat -> CreateOutcome, tick: nat -> nat, n: nat)
    requires n <= |records|
    ensures FailureCount(ProgressUpdates(records, create, tick, n)) == RejectedCalls(create, n)
    decreases n
  {
    if n > 0 {
      ReportedFailures(records, create, tick, n - 1);
      FailureStep(records, create, tick, n);
    }
  }

  /** One more task adds a failure exactly when its create call returned
      an error. */
  lemma FailureStep(records: seq<HospitalRecord>, create: nat -> CreateOutcome, tick: nat -> nat, n: nat)
    requires 0 < n <= |records|
    ensures FailureCount(ProgressUpdates(records, create, tick, n))
      == FailureCount(ProgressUpdates(records, create, tick, n - 1)) + (if create(n - 1).Rejected? then 1 else 0)
  {
    var before := ProgressUpdates(records, create, tick, n - 1);
    if create(n - 1).Raised? {
      assert ProgressUpdates(records, create, tick, n) == before + [];
      assert before + [] == before;
    } else {
      var u := ProgressUpdate(records[n - 1].name, create(n - 1).Returned?, tick(n - 1));
      assert ProgressUpdates(records, create, tick, n) == before + [u];
      FailureCountSnoc(before, u);
    }
  }

  function RejectedCalls(create: nat -> CreateOutcome, n: nat): (k: nat)
    ensures k <= n
    decreases n
  {
    if n == 0 then 0 else RejectedCalls(create, n - 1) + (if create(n - 1).Rejected? then 1 else 0)
  }

  lemma ApplyProgressSnoc(s: JobState, us: seq<ProgressUpdate>, u: ProgressUpdate)
    ensures ApplyProgress(s, us + [u]) == WithProgress(ApplyProgress(s, us), u)
  {
    assert (us + [u])[..|us|] == us;
  }

  /** The per-record tasks of `_create_hospitals_concurrently`, run in order; each
      one that did not raise reports its progress to the tracked job. */
  method RunTasks(manager: JobManager?, jobId: Option<string>, records: seq<HospitalRecord>,
                  create: nat -> CreateOutcome, tick: nat -> nat)
    returns (tasks: seq<TaskResult>)
    requires manager != null ==> manager.Valid()
    modifies if Tracking(manager, jobId) && jobId.value in manager.jobs then {manager.jobs[jobId.value]} else {}
    ensures |tasks| == |records|
    ensures forall j :: 0 <= j < |records| ==> tasks[j] == SingleTask(records[j], create(j))
    ensures manager != null ==> manager.Valid() && manager.jobs == old(manager.jobs)
    ensures Tracking(manager, jobId) && jobId.value in manager.jobs ==>
      manager.jobs[jobId.value].State() == ApplyProgress(old(manager.jobs[jobId.value].State()), ProgressUpdates(records, create, tick, |records|))
  {
    tasks := [];
    var tracked := Tracking(manager, jobId) && jobId.value in manager.jobs;
    ghost var s0 := if tracked then manager.jobs[jobId.value].State() else NewState(0, 0);
    var i := 0;
    while i < |records|
      invariant 0 <= i <= |records| && |tasks| == i
      invariant forall j :: 0 <= j < i ==> tasks[j] == SingleTask(records[j], create(j))
      invariant manager != null ==> manager.Valid() && manager.jobs == old(manager.jobs)
      invariant tracked ==> manager.jobs[jobId.value].State() == ApplyProgress(s0, ProgressUpdates(records, create, tick, i))
    {
      ReportNext(manager, jobId, records, create, tick, i, s0);
      tasks := tasks + [SingleTask(records[i], create(i))];
      i := i + 1;
    }
  }

  /** Task `i` of the run: its report takes the tracked job from what the
      first `i` tasks reported to what the first `i + 1` reported. */
  method ReportNext(manager: JobManager?, jobId: Option<string>, records: seq<HospitalRecord>,
                    create: nat -> CreateOutcome, tick: nat -> nat, i: nat, ghost s0: JobState)
    requires i < |records|
    requires manager != null ==> manager.Valid()
    requires Tracking(manager, jobId) && jobId.value in manager.jobs ==>
      manager.jobs[jobId.value].State() == ApplyProgress(s0, ProgressUpdates(records, create, tick, i))
    modifies if Tracking(manager, jobId) && jobId.value in manager.jobs then {manager.jobs[jobId.value]} else {}
    ensures manager != null ==> manager.Valid() && manager.jobs == old(manager.jobs)
    ensures Tracking(manager, jobId) && jobId.value in manager.jobs ==>
      manager.jobs[jobId.value].State() == ApplyProgress(s0, ProgressUpdates(records, create, tick, i + 1))
  {
    ReportTask(manager, jobId, records[i], create(i), tick(i));
    if Tracking(manager, jobId) && jobId.value in manager.jobs {
      ReportStep(s0, records, create, tick, i);
    }
  }

  /** The tracked job after one task: unchanged when the create call
      raised, one progress update otherwise. */
  function AfterTask(s: JobState, rec: HospitalRecord, outcome: CreateOutcome, now: nat): JobState {
    if outcome.Raised? then s else WithProgress(s, ProgressUpdate(rec.name, outcome.Returned?, now))
  }

  /** The progress report of one task: none when its create call raised. */
  method ReportTask(manager: JobManager?, jobId: Option<string>, rec: HospitalRecord, outcome: CreateOutcome, now: nat)
    requires manager != null ==> manager.Valid()
    modifies if Tracking(manager, jobId) && jobId.value in manager.jobs then {manager.jobs[jobId.value]} else {}
    ensures manager != null ==> manager.Valid() && manager.jobs == old(manager.jobs)
    ensures Tracking(manager, jobId) && jobId.value in manager.jobs ==>
      manager.jobs[jobId.value].State() == AfterTask(old(manager.jobs[jobId.value].State()), rec, outcome, now)
  {
    if Tracking(manager, jobId) && !outcome.Raised? {
      manager.UpdateJobProgress(jobId.value, rec.name, outcome.Returned?, now);
    }
  }

  /** One more task applies exactly what it reports. */
  lemma ReportStep(s0: JobState, records: seq<HospitalRecord>, create: nat -> CreateOutcome, tick: nat -> nat, i: nat)
    requires i < |records|
    ensures ApplyProgress(s0, ProgressUpdates(records, create, tick, i + 1))
      == AfterTask(ApplyProgress(s0, ProgressUpdates(records, create, tick, i)), records[i], create(i), tick(i))
  {
    var before := ProgressUpdates(records, create, tick, i);
    if create(i).Raised? {
      assert ProgressUpdates(records, create, tick, i + 1) == before + [];
      assert before + [] == before;
    } else {
      var u := ProgressUpdate(records[i].name, create(i).Returned?, tick(i));
      assert ProgressUpdates(records, create, tick, i + 1) == before + [u];
      ApplyProgressSnoc(s0, before, u);
    }
  }

  /** The gather loop: a task that raised becomes a "failed" result at its
      own index, with that record's row and name. */
  method CollectResults(records: seq<HospitalRecord>, create: nat -> CreateOutcome, tasks: seq<TaskResult>)
    returns (results: seq<ProcessingResult>)
    requires |tasks| == |records|
    requires forall j :: 0 <= j < |records| ==> tasks[j] == SingleTask(records[j], create(j))
    ensures results == CreateAll(records, create)
  {
    results := [];
    var i := 0;
    while i < |tasks|
      invariant 0 <= i <= |tasks| && |results| == i
      invariant forall j :: 0 <= j < i ==> results[j] == CreateSingle(records[j], create(j))
    {
      match tasks[i] {
        case TaskRaised(e) =>
          results := results + [RaisedResult(records[i], e)];
        case TaskReturned(r) =>
          results := results + [r];
      }
      i := i + 1;
    }
    assert forall j :: 0 <= j < |results| ==> results[j] == CreateAll(records, create)[j];
  }

  /** `_create_hospitals_concurrently`. */
  method CreateHospitalsConcurrently(manager: JobManager?, jobId: Option<string>, records: seq<HospitalRecord>,
                                     create: nat -> CreateOutcome, tick: nat -> nat)
    returns (results: seq<ProcessingResult>)
    requires manager != null ==> manager.Valid()
    modifies if Tracking(manager, jobId) && jobId.value in manager.jobs then {manager.jobs[jobId.value]} else {}
    ensures results == CreateAll(records, create)
    ensures manager != null ==> manager.Valid() && manager.jobs == old(manager.jobs)
    ensures Tracking(manager, jobId) && jobId.value in manager.jobs ==>
      manager.jobs[jobId.value].State() == ApplyProgress(old(manager.jobs[jobId.value].State()), ProgressUpdates(records, create, tick, |records|))
  {
    var tasks := RunTasks(manager, jobId, records, create, tick);
    results := CollectResults(records, create, tasks);
  }

  /** `process_bulk_upload`: PROCESSING when tracked, the fan-out with its
      progress reports, then the rollback decision. The response is returned
      to the caller; nothing here stores it or completes the job. An
      exception from activation or deletion propagates to the caller. */
  method ProcessBulkUpload(manager: JobManager?, jobId: Option<string>, records: seq<HospitalRecord>, batchId: string,
                           create: nat -> CreateOutcome, activation: ActivationOutcome, deletion: DeleteOutcome,
                           startClock: nat, tick: nat -> nat)
    returns (decision: RollbackTasks.Decision, activationAttempted: bool, deleteAttempted: bool)
    requires manager != null ==> manager.Valid()
    modifies if Tracking(manager, jobId) && jobId.value in manager.jobs then {manager.jobs[jobId.value]} else {}
    ensures decision == RollbackTasks.RollbackDecision(batchId, |records|, CreateAll(records, create), activation, deletion)
    ensures activationAttempted <==> FailedCount(CreateAll(records, create)) == 0
    ensures deleteAttempted <==> RollbackTasks.DeleteIssued(CreateAll(records, create), activation)
    ensures manager != null ==> manager.Valid() && manager.jobs == old(manager.jobs)
    ensures Tracking(manager, jobId) && jobId.value in manager.jobs ==>
      manager.jobs[jobId.value].State()
      == ApplyProgress(WithStatus(old(manager.jobs[jobId.value].State()), Processing, startClock), ProgressUpdates(records, create, tick, |records|))
  {
    if Tracking(manager, jobId) {
      manager.UpdateJobStatus(jobId.value, Processing, startClock);
    }
    var results := CreateHospitalsConcurrently(manager, jobId, records, create, tick);
    decision, activationAttempted, deleteAttempted := RollbackTasks.DecideWithRollback(batchId, |records|, results, activation, deletion);
  }

  /** What a tracked job looks like after the run: PROCESSING, one processed
      count per reported update, the reported failures, and the last ten
      updates in its buffer. */
  lemma TrackedJobAfterRun(s: JobState, records: seq<HospitalRecord>, create: nat -> CreateOutcome, tick: nat -> nat, startClock: nat)
    requires |s.recentUpdates| <= RecentUpdatesLimit
    ensures var us := ProgressUpdates(records, create, tick, |records|);
      var s' := ApplyProgress(WithStatus(s, Processing, startClock), us);
      && s'.status == Processing
      && s'.processedHospitals == s.processedHospitals + |us|
      && s'.failedHospitals == s.failedHospitals + RejectedCalls(create, |records|)
      && s'.recentUpdates == KeepRecent(s.recentUpdates + us)
  {
    var us := ProgressUpdates(records, create, tick, |records|);
    ApplyProgressCounts(WithStatus(s, Processing, startClock), us);
    ApplyProgressBuffer(WithStatus(s, Processing, startClock), us);
    ReportedFailures(records, create, tick, |records|);
  }
}
