/** The current worker task: create every hospital, auto-activate the batch
    only when all of them were created, and never roll anything back. Job
    state lives in the SQLite repository. */
module NoRollbackTasks {
  import opened Domain
  import opened RecordCreation
  import opened SqlJobRepository

  /** One queued record as it arrives at the worker: either it converts to a
      HospitalRecord, or the conversion raises with the given reason. */
  datatype Payload = Payload(record: HospitalRecord) | Malformed(reason: string)

  datatype Parsed = AllValid(records: seq<HospitalRecord>) | FirstMalformed(reason: string)

  /** An exception re-raised out of the worker. */
  datatype TaskError = StoreError(cause: RepoError) | Reraised(message: string)

  datatype TaskOutcome = Finished(response: BulkResponse) | Aborted(error: TaskError)

  const ErrorPrefix: string := "Error processing hospitals: "

  function NotFoundMessage(jobId: string): string {
    "Job " + jobId + " not found"
  }

  /** `[HospitalCreate(**h) for h in hospitals_data]`: all records, or the
      reason of the first one that does not convert. */
  function ParsePayloads(data: seq<Payload>): (p: Parsed)
    ensures p.AllValid? <==> forall i :: 0 <= i < |data| ==> data[i].Payload?
    ensures p.AllValid? ==> |p.records| == |data| && forall i :: 0 <= i < |data| ==> p.records[i] == data[i].record
    ensures p.FirstMalformed? ==> exists i :: 0 <= i < |data| && data[i] == Malformed(p.reason) && forall j :: 0 <= j < i ==> data[j].Payload?
    decreases |data|
  {
    if data == [] then AllValid([])
    else match data[0]
      case Malformed(reason) => FirstMalformed(reason)
      case Payload(rec) =>
        var rest := ParsePayloads(data[1..]);
        if rest.FirstMalformed? then
          var i :| 0 <= i < |data[1..]| && data[1..][i] == Malformed(rest.reason) && forall j :: 0 <= j < i ==> data[1..][j].Payload?;
          assert data[i + 1] == Malformed(rest.reason);
          rest
        else
          AllValid([rec] + rest.records)
  }

  /** The response of a completed run, as a function of the fan-out's
      results: activated exactly when nothing failed and activation succeeded. */
  function NoRollbackResponse(batchId: string, total: nat, results: seq<ProcessingResult>, activation: ActivationOutcome): BulkResponse
  {
    var failed := FailedCount(results);
    var activated := failed == 0 && activation.ActivationSucceeded?;
    BulkResponse(batchId, total, |results| - failed, failed, activated, if activated then ActivateAll(results) else results)
  }

  /** processed + failed == total, and failed counts the "failed" results. */
  lemma NoRollbackCounts(batchId: string, results: seq<ProcessingResult>, activation: ActivationOutcome)
    ensures var r := NoRollbackResponse(batchId, |results|, results, activation);
      r.processedHospitals + r.failedHospitals == r.totalHospitals == |results|
      && r.failedHospitals == FailedCount(r.hospitals)
  {
    var r := NoRollbackResponse(batchId, |results|, results, activation);
    if r.batchActivated {
      ActivateAllHasNoFailures(results);
    }
  }

  /** batch_activated holds exactly when no record failed and activation
      returned success; then every result is "created_and_activated". */
  lemma NoRollbackActivatedIff(batchId: string, results: seq<ProcessingResult>, activation: ActivationOutcome)
    ensures var r := NoRollbackResponse(batchId, |results|, results, activation);
      (r.batchActivated <==> (forall i :: 0 <= i < |results| ==> !IsFailed(results[i])) && activation.ActivationSucceeded?)
      && (r.batchActivated ==> forall i :: 0 <= i < |r.hospitals| ==> r.hospitals[i].status == CreatedAndActivated)
  {
    FailedCountZeroIff(results);
  }

  /** When activation fails or raises, nothing is rewritten: the results are
      exactly those of the fan-out, none is rolled back to "failed", and the
      batch is not activated. */
  lemma NoRollbackKeepsResultsOnActivationFailure(batchId: string, results: seq<ProcessingResult>, activation: ActivationOutcome)
    requires !activation.ActivationSucceeded?
    ensures var r := NoRollbackResponse(batchId, |results|, results, activation);
      !r.batchActivated && r.hospitals == results && r.failedHospitals == FailedCount(results)
  {
  }

  /** End to end over the fan-out: one result per record in input order with
      that record's row number, the success count is the number of records
      whose create call returned a hospital, and activation never turns a
      failed record into a created one. */
  lemma {:induction false} NoRollbackEndToEnd(batchId: string, records: seq<HospitalRecord>, create: nat -> CreateOutcome, activation: ActivationOutcome)
    ensures var r := NoRollbackResponse(batchId, |records|, CreateAll(records, create), activation);
      |r.hospitals| == |records|
      && (forall i :: 0 <= i < |records| ==> r.hospitals[i].row == records[i].rowNumber && r.hospitals[i].name == records[i].name)
      && r.failedHospitals == UnsuccessfulCalls(create, |records|)
      && (forall i :: 0 <= i < |records| ==> (IsFailed(r.hospitals[i]) <==> !create(i).Returned?))
  {
    var results := CreateAll(records, create);
    FailedCountOfCreateAll(records, create);
    FailedCountZeroIff(results);
  }

  /** The decision after the fan-out: count failures and, only when there are
      none, make the single activation attempt and rewrite every result on
      success. */
  method ActivateIfAllCreated(batchId: string, total: nat, fanOut: seq<ProcessingResult>, activation: ActivationOutcome)
    returns (response: BulkResponse, activationAttempted: bool)
    ensures response == NoRollbackResponse(batchId, total, fanOut, activation)
    ensures activationAttempted <==> FailedCount(fanOut) == 0
  {
    var results := fanOut;
    var failedCount := FailedCount(results);
    var successCount := |results| - failedCount;
    var batchActivated := false;
    activationAttempted := false;
    if failedCount == 0 {
      activationAttempted := true;
      // Activation failure and activation exceptions alike keep every result "created".
      if activation.ActivationSucceeded? {
        batchActivated := true;
        results := MarkAllActivated(results);
      }
    }
    response := BulkResponse(batchId, total, successCount, failedCount, batchActivated, results);
  }

  /** `_process_hospitals_async`: PROCESSING, fan-out, at most one activation
      attempt (only when nothing failed), then set_result and COMPLETED; an
      exception outside the per-record path marks the job FAILED through
      set_error and is re-raised. */
  method ProcessHospitals(
    repo: JobRepository, jobId: string, data: seq<Payload>, batchId: string,
    create: nat -> CreateOutcome, activation: ActivationOutcome, startClock: nat, endClock: nat)
    returns (outcome: TaskOutcome, activationAttempted: bool)
    modifies repo
    ensures old(jobId !in repo.rows) ==>
      outcome == Aborted(StoreError(JobNotFound(jobId))) && !activationAttempted && repo.rows == old(repo.rows)
    ensures old(jobId in repo.rows) && ParsePayloads(data).FirstMalformed? ==>
      var reason := ParsePayloads(data).reason;
      var processing := WithStatus(old(repo.rows)[jobId], Processing, startClock);
      outcome == Aborted(Reraised(reason)) && !activationAttempted
      && repo.rows == old(repo.rows)[jobId := WithError(processing, ErrorPrefix + reason, endClock)]
    ensures old(jobId in repo.rows) && ParsePayloads(data).AllValid? ==>
      var results := CreateAll(ParsePayloads(data).records, create);
      var processing := WithStatus(old(repo.rows)[jobId], Processing, startClock);
      activationAttempted == (FailedCount(results) == 0)
      && outcome == Finished(NoRollbackResponse(batchId, |data|, results, activation))
      && repo.rows == old(repo.rows)[jobId := WithStatus(WithResult(processing, outcome.response), Completed, endClock)]
  {
    activationAttempted := false;
    ghost var rows0 := repo.rows;
    var err := repo.UpdateStatus(jobId, Processing, startClock);
    if err.Some? {
      // The handler's own set_error raises JobNotFoundException in turn.
      err := repo.SetError(jobId, ErrorPrefix + NotFoundMessage(jobId), endClock);
      outcome := Aborted(StoreError(JobNotFound(jobId)));
      return;
    }
    ghost var processing := WithStatus(rows0[jobId], Processing, startClock);
    outcome, activationAttempted := RunProcessing(repo, jobId, data, batchId, create, activation, endClock);
    UpdateTwice(rows0, jobId, processing, repo.rows[jobId]);
  }

  /** The worker once its job is PROCESSING: a malformed record goes through
      set_error and is re-raised; otherwise the fan-out, the activation
      attempt, set_result and COMPLETED. */
  method RunProcessing(
    repo: JobRepository, jobId: string, data: seq<Payload>, batchId: string,
    create: nat -> CreateOutcome, activation: ActivationOutcome, endClock: nat)
    returns (outcome: TaskOutcome, activationAttempted: bool)
    requires jobId in repo.rows
    modifies repo
    ensures ParsePayloads(data).FirstMalformed? ==>
      var reason := ParsePayloads(data).reason;
      outcome == Aborted(Reraised(reason)) && !activationAttempted
      && repo.rows == old(repo.rows)[jobId := WithError(old(repo.rows)[jobId], ErrorPrefix + reason, endClock)]
    ensures ParsePayloads(data).AllValid? ==>
      var results := CreateAll(ParsePayloads(data).records, create);
      activationAttempted == (FailedCount(results) == 0)
      && outcome == Finished(NoRollbackResponse(batchId, |data|, results, activation))
      && repo.rows == old(repo.rows)[jobId := WithStatus(WithResult(old(repo.rows)[jobId], outcome.response), Completed, endClock)]
  {
    activationAttempted := false;
    var parsed := ParsePayloads(data);
    var err;
    if parsed.FirstMalformed? {
      err := repo.SetError(jobId, ErrorPrefix + parsed.reason, endClock);
      outcome := Aborted(Reraised(parsed.reason));
      return;
    }
    var results := CreateAll(parsed.records, create);
    var response;
    response, activationAttempted := ActivateIfAllCreated(batchId, |data|, results, activation);
    ghost var rows0 := repo.rows;
    err := repo.SetResult(jobId, response);
    assert repo.rows == rows0[jobId := WithResult(rows0[jobId], response)];
    err := repo.UpdateStatus(jobId, Completed, endClock);
    outcome := Finished(response);
  }
}
