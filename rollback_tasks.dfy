/** The earlier worker task of the layered architecture: create every
    hospital, activate only when all were created, and roll the batch back
    with delete_batch when a record failed or activation failed. Job state
    lives in the in-memory repository. */
module RollbackTasks {
  import opened Domain
  import opened RecordCreation
  import MemoryJobRepository
  import NoRollbackTasks

  /** What the batch decision produces: a response, or an exception from
      activate_batch or delete_batch escaping it. */
  datatype Decision = Decided(response: BulkResponse) | Escaped(error: string)

  /** An exception re-raised out of the worker. */
  datatype TaskError = StoreError(cause: MemoryJobRepository.RepoError) | Reraised(message: string)

  datatype TaskOutcome = Finished(response: BulkResponse) | Aborted(error: TaskError)

  /** The rollback decision shared by this task and the original in-process
      processor. */
  function RollbackDecision(batchId: string, total: nat, results: seq<ProcessingResult>,
                            activation: ActivationOutcome, deletion: DeleteOutcome): Decision
  {
    var failed := FailedCount(results);
    if failed == 0 then
      match activation
      case ActivationSucceeded => Decided(BulkResponse(batchId, total, |results|, 0, true, ActivateAll(results)))
      case ActivationRaised(e) => Escaped(e)
      case ActivationRejected(e) =>
        if deletion.DeleteRaised? then Escaped(deletion.error)
        else Decided(BulkResponse(batchId, total, 0, |results|, false, FailAll(results, e)))
    else if deletion.DeleteRaised? then Escaped(deletion.error)
    else Decided(BulkResponse(batchId, total, |results| - failed, failed, false, results))
  }

  /** delete_batch is called when a record failed or activation returned failure. */
  predicate DeleteIssued(results: seq<ProcessingResult>, activation: ActivationOutcome) {
    FailedCount(results) > 0 || activation.ActivationRejected?
  }

  /** processed + failed == total in every branch, and failed counts the
      "failed" results of the response. */
  lemma RollbackCounts(batchId: string, results: seq<ProcessingResult>, activation: ActivationOutcome, deletion: DeleteOutcome)
    ensures var d := RollbackDecision(batchId, |results|, results, activation, deletion);
      d.Decided? ==>
        d.response.processedHospitals + d.response.failedHospitals == d.response.totalHospitals == |results|
        && d.response.failedHospitals == FailedCount(d.response.hospitals)
  {
    if FailedCount(results) == 0 {
      ActivateAllHasNoFailures(results);
      if activation.ActivationRejected? {
        FailAllFailsEverything(results, activation.error);
      }
    }
  }

  /** Activation success: all "created_and_activated" and batch_activated;
      activation failure: all "failed" with the activation error, processed 0;
      a record failure: results left as produced and not activated. The batch
      is activated exactly when nothing failed and activation succeeded. */
  lemma RollbackOutcomes(batchId: string, results: seq<ProcessingResult>, activation: ActivationOutcome, deletion: DeleteOutcome)
    ensures var d := RollbackDecision(batchId, |results|, results, activation, deletion);
      && (d.Decided? ==> (d.response.batchActivated <==>
            (forall i :: 0 <= i < |results| ==> !IsFailed(results[i])) && activation.ActivationSucceeded?))
      && (d.Decided? && d.response.batchActivated ==>
            forall i :: 0 <= i < |results| ==> d.response.hospitals[i].status == CreatedAndActivated)
      && (d.Decided? && activation.ActivationRejected? && FailedCount(results) == 0 ==>
            d.response.processedHospitals == 0
            && forall i :: 0 <= i < |results| ==>
                 (d.response.hospitals[i].status == RecordFailed
                  && d.response.hospitals[i].errorMessage == Some(ActivationFailedPrefix + activation.error)))
      && (d.Decided? && FailedCount(results) > 0 ==> d.response.hospitals == results && !d.response.batchActivated)
      && (d.Escaped? <==> (FailedCount(results) == 0 && activation.ActivationRaised?)
                          || (DeleteIssued(results, activation) && deletion.DeleteRaised?))
  {
    FailedCountZeroIff(results);
  }

  /** Against the no-rollback task: both activate in exactly the same cases,
      and they agree except when activation fails, where this task fails
      every record and the other keeps them "created". */
  lemma RollbackVersusNoRollback(batchId: string, results: seq<ProcessingResult>, activation: ActivationOutcome)
    ensures var d := RollbackDecision(batchId, |results|, results, activation, DeleteReturned);
      var n := NoRollbackTasks.NoRollbackResponse(batchId, |results|, results, activation);
      && (d.Decided? ==> d.response.batchActivated == n.batchActivated)
      && (d.Decided? && !(FailedCount(results) == 0 && activation.ActivationRejected?) ==> d.response == n)
      && (FailedCount(results) == 0 && activation.ActivationRejected? && |results| > 0 ==>
            d.Decided? && d.response.processedHospitals == 0 && n.processedHospitals == |results|)
  {
  }

  /** The decision as the worker runs it, with the flags and counters it
      reassigns and the calls it makes. */
  method DecideWithRollback(batchId: string, total: nat, fanOut: seq<ProcessingResult>,
                            activation: ActivationOutcome, deletion: DeleteOutcome)
    returns (decision: Decision, activationAttempted: bool, deleteAttempted: bool)
    ensures decision == RollbackDecision(batchId, total, fanOut, activation, deletion)
    ensures activationAttempted <==> FailedCount(fanOut) == 0
    ensures deleteAttempted <==> DeleteIssued(fanOut, activation)
  {
    var results := fanOut;
    var failedCount := FailedCount(results);
    var successCount := |results| - failedCount;
    var batchActivated := false;
    activationAttempted := false;
    deleteAttempted := false;
    if failedCount == 0 {
      activationAttempted := true;
      match activation {
        case ActivationRaised(e) =>
          return Escaped(e), activationAttempted, deleteAttempted;
        case ActivationSucceeded =>
          batchActivated := true;
          results := MarkAllActivated(results);
        case ActivationRejected(e) =>
          deleteAttempted := true;
          if deletion.DeleteRaised? {
            return Escaped(deletion.error), activationAttempted, deleteAttempted;
          }
          results := MarkAllFailed(results, e);
          failedCount := |results|;
          successCount := 0;
      }
    } else {
      deleteAttempted := true;
      if deletion.DeleteRaised? {
        return Escaped(deletion.error), activationAttempted, deleteAttempted;
      }
    }
    decision := Decided(BulkResponse(batchId, total, successCount, failedCount, batchActivated, results));
  }

  /** `_process_hospitals_async` with rollback: PROCESSING, fan-out, the
      rollback decision, then set_result and COMPLETED; any exception outside
      the per-record path (a malformed record, activation or deletion
      raising) goes through set_error and is re-raised. */
  method ProcessHospitals(
    repo: MemoryJobRepository.JobRepository, jobId: string, data: seq<NoRollbackTasks.Payload>, batchId: string,
    create: nat -> CreateOutcome, activation: ActivationOutcome, deletion: DeleteOutcome, startClock: nat, endClock: nat)
    returns (outcome: TaskOutcome)
    modifies repo
    ensures old(jobId !in repo.jobs) ==>
      outcome == Aborted(StoreError(MemoryJobRepository.JobNotFound(jobId))) && repo.jobs == old(repo.jobs)
    ensures old(jobId in repo.jobs) && NoRollbackTasks.ParsePayloads(data).FirstMalformed? ==>
      var reason := NoRollbackTasks.ParsePayloads(data).reason;
      var processing := MemoryJobRepository.WithStatus(old(repo.jobs)[jobId], Processing, startClock);
      outcome == Aborted(Reraised(reason))
      && repo.jobs == old(repo.jobs)[jobId := MemoryJobRepository.WithError(processing, NoRollbackTasks.ErrorPrefix + reason, endClock)]
    ensures old(jobId in repo.jobs) && NoRollbackTasks.ParsePayloads(data).AllValid? ==>
      var d := RollbackDecision(batchId, |data|, CreateAll(NoRollbackTasks.ParsePayloads(data).records, create), activation, deletion);
      var processing := MemoryJobRepository.WithStatus(old(repo.jobs)[jobId], Processing, startClock);
      && (d.Escaped? ==>
            outcome == Aborted(Reraised(d.error))
            && repo.jobs == old(repo.jobs)[jobId := MemoryJobRepository.WithError(processing, NoRollbackTasks.ErrorPrefix + d.error, endClock)])
      && (d.Decided? ==>
            outcome == Finished(d.response)
            && repo.jobs == old(repo.jobs)[jobId := MemoryJobRepository.WithStatus(MemoryJobRepository.WithResult(processing, d.response), Completed, endClock)])
  {
    ghost var jobs0 := repo.jobs;
    var err := repo.UpdateStatus(jobId, Processing, startClock);
    if err.Some? {
      // The handler's own set_error raises JobNotFoundException in turn.
      err := repo.SetError(jobId, NoRollbackTasks.ErrorPrefix + NoRollbackTasks.NotFoundMessage(jobId), endClock);
      return Aborted(StoreError(MemoryJobRepository.JobNotFound(jobId)));
    }
    ghost var processing := MemoryJobRepository.WithStatus(jobs0[jobId], Processing, startClock);
    outcome := RunProcessing(repo, jobId, data, batchId, create, activation, deletion, endClock);
    UpdateTwice(jobs0, jobId, processing, repo.jobs[jobId]);
  }

  /** The worker once its job is PROCESSING: a malformed record goes through
      set_error and is re-raised; otherwise the fan-out and the rollback
      decision, recorded as below. */
  method RunProcessing(
    repo: MemoryJobRepository.JobRepository, jobId: string, data: seq<NoRollbackTasks.Payload>, batchId: string,
    create: nat -> CreateOutcome, activation: ActivationOutcome, deletion: DeleteOutcome, endClock: nat)
    returns (outcome: TaskOutcome)
    requires jobId in repo.jobs
    modifies repo
    ensures NoRollbackTasks.ParsePayloads(data).FirstMalformed? ==>
      var reason := NoRollbackTasks.ParsePayloads(data).reason;
      outcome == Aborted(Reraised(reason))
      && repo.jobs == old(repo.jobs)[jobId := MemoryJobRepository.WithError(old(repo.jobs)[jobId], NoRollbackTasks.ErrorPrefix + reason, endClock)]
    ensures NoRollbackTasks.ParsePayloads(data).AllValid? ==>
      var d := RollbackDecision(batchId, |data|, CreateAll(NoRollbackTasks.ParsePayloads(data).records, create), activation, deletion);
      && (d.Escaped? ==>
            outcome == Aborted(Reraised(d.error))
            && repo.jobs == old(repo.jobs)[jobId := MemoryJobRepository.WithError(old(repo.jobs)[jobId], NoRollbackTasks.ErrorPrefix + d.error, endClock)])
      && (d.Decided? ==>
            outcome == Finished(d.response)
            && repo.jobs == old(repo.jobs)[jobId := MemoryJobRepository.WithStatus(MemoryJobRepository.WithResult(old(repo.jobs)[jobId], d.response), Completed, endClock)])
  {
    var parsed := NoRollbackTasks.ParsePayloads(data);
    if parsed.FirstMalformed? {
      var err := repo.SetError(jobId, NoRollbackTasks.ErrorPrefix + parsed.reason, endClock);
      return Aborted(Reraised(parsed.reason));
    }
    var results := CreateAll(parsed.records, create);
    var decision, _, _ := DecideWithRollback(batchId, |data|, results, activation, deletion);
    outcome := RecordDecision(repo, jobId, decision, endClock);
  }

  /** The tail of the worker once the job is PROCESSING: a decided batch is
      stored with set_result and marked COMPLETED; an escaped exception goes
      through set_error and is re-raised. */
  method RecordDecision(repo: MemoryJobRepository.JobRepository, jobId: string, decision: Decision, endClock: nat)
    returns (outcome: TaskOutcome)
    requires jobId in repo.jobs
    modifies repo
    ensures decision.Escaped? ==>
      outcome == Aborted(Reraised(decision.error))
      && repo.jobs == old(repo.jobs)[jobId := MemoryJobRepository.WithError(old(repo.jobs)[jobId], NoRollbackTasks.ErrorPrefix + decision.error, endClock)]
    ensures decision.Decided? ==>
      outcome == Finished(decision.response)
      && repo.jobs == old(repo.jobs)[jobId := MemoryJobRepository.WithStatus(MemoryJobRepository.WithResult(old(repo.jobs)[jobId], decision.response), Completed, endClock)]
  {
    var err;
    if decision.Escaped? {
      err := repo.SetError(jobId, NoRollbackTasks.ErrorPrefix + decision.error, endClock);
      return Aborted(Reraised(decision.error));
    }
    ghost var jobs0 := repo.jobs;
    err := repo.SetResult(jobId, decision.response);
    assert repo.jobs == jobs0[jobId := MemoryJobRepository.WithResult(jobs0[jobId], decision.response)];
    err := repo.UpdateStatus(jobId, Completed, endClock);
    outcome := Finished(decision.response);
  }
}
