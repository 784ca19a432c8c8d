# Hospital bulk processor: a Dafny model of the job pipeline

The hospital bulk processor takes a CSV of hospitals and validates it. It
then creates every hospital through an external hospital API under a single
batch id, and activates the batch (or, in older generations, rolls it back).
Progress is tracked as a background job.

This project models the parts of that pipeline which decide what happens:

- **CSV validation.** Both validators, once the file has been tokenised. That
  covers file checks, header checks, row numbering, required-field errors,
  phone normalisation and the max-row rule, which the two versions apply at
  different moments.
- **The per-record step.** A create call has three outcomes:
  - it returns a hospital id;
  - it returns a failure with a message;
  - it raises.
- **The batch orchestrator, in three generations:**
  - the current no-rollback Celery task with auto-activation;
  - the earlier Celery task, which rolls back on failure;
  - the original in-process processor, which rolls back and reports
    per-record progress.
- **The TTL idempotency store and the key derived from a request.**
- **The two job services.** Submission with the cache, the job store and the
  queue; status lookup with its message rules; the job listing.
- **The three job stores:**
  - the SQLite repository, as a map from job id to row;
  - the in-memory repository;
  - the legacy `JobManager`, with its bounded buffer of recent updates,
    per-status statistics and eviction of the oldest finished jobs.

The clock is an explicit natural-number argument wherever the source reads
`time.time()` or `datetime.now()`. The behaviour of the external API, the
broker and the hash is passed in as parameters:

- `create: nat -> CreateOutcome` gives the outcome of the i-th create call;
- an `ActivationOutcome`, a `DeleteOutcome` and an `EnqueueOutcome` give the
  outcomes of the other calls;
- functions stand for the UTF-8 encoder and sha256.

Stateful parts are classes with `modifies` frames:

- the idempotency store;
- the two repositories;
- the legacy `JobManager` and its `Job` objects;
- the broker queue (`Queue.TaskQueue`).

Each method is specified by a function on the old state, and the properties
are proved about those functions. The per-record mapping, the status
messages, the result rewrites and the batch decision are pure functions.

Modules follow the source files:

| module | source |
|---|---|
| `Domain` | value types and constants |
| `Text` | decimal rendering, `strip`, `lower`, `join` |
| `RecordCreation` | the shared `_create_single_hospital` mapping and result rewrites |
| `NoRollbackTasks` | `app/tasks/tasks.py` |
| `RollbackTasks` | `app/infrastructure/celery/tasks.py` |
| `LegacyProcessor` | `app_old/services.py` |
| `Idempotency` | `app/core/idempotency.py` |
| `Queue` | the broker behind `.delay()` |
| `JobService` | `app/services/job_service.py` |
| `AppJobService` | `app/application/job_service.py` |
| `SqlJobRepository` | `app/repositories/job_repository.py` |
| `MemoryJobRepository` | `app/infrastructure/repositories/job_repository.py` |
| `LegacyJobManager` | `app_old/job_manager.py` |
| `StatusMessages` | the status-message rules shared by both services and the legacy manager |
| `CsvValidator` | `app/utils/csv_validator.py` |
| `LegacyCsvValidator` | `app_old/utils.py` |

## Model

| member | source | states |
|---|---|---|
| Domain.ProgressPercentage | app/repositories/job_repository.py:117-121 | The percentage is 0 when the total is 0. Otherwise it is processed/total times 100, and lies between 0 and 100 while processed ≤ total. |
| RecordCreation.CreateSingle | app/tasks/tasks.py:177-213 | A record's result has its row number and name. It is "failed" exactly when the call did not return a hospital. A returned hospital gives its id and no error, a returned failure gives the client's message, and an exception gives "Unexpected error: " plus its text. |
| RecordCreation.CreateAll | app/tasks/tasks.py:166-174 | The fan-out gives one result per record, in input order. Result i carries record i's row and name, and is failed exactly when call i did not return a hospital. |
| RecordCreation.FailedCount | app/tasks/tasks.py:76-77 | The failed count never exceeds the number of results. |
| RecordCreation.FailedCountZeroIff | app/tasks/tasks.py:79-92 | The failed count is zero exactly when no result failed. This is the activation guard. |
| RecordCreation.FailedCountAllIff | app/infrastructure/celery/tasks.py:76-84 | The failed count equals the length exactly when every result failed. |
| RecordCreation.FailedCountSamePattern | app/tasks/tasks.py:76-77 | Two result lists with the same failure pattern have the same count. |
| RecordCreation.FailedCountOfCreateAll | app/tasks/tasks.py:166-213 | The failed count of the fan-out is the number of create calls that did not return a hospital. |
| RecordCreation.ActivateAll | app/tasks/tasks.py:94-98 | The activation rewrite sets every result to "created_and_activated" and changes nothing else. |
| RecordCreation.FailAll | app/infrastructure/celery/tasks.py:76-84 | The rollback rewrite makes every result "failed", with error "Batch activation failed: " plus the message. |
| RecordCreation.ActivateAllHasNoFailures | app/tasks/tasks.py:94-98 | No result failed after the activation rewrite. |
| RecordCreation.FailAllFailsEverything | app/infrastructure/celery/tasks.py:76-84 | After the rollback rewrite, the failed count is the total. |
| RecordCreation.MarkAllActivated | app/tasks/tasks.py:94-98 | The in-place status loop computes the activation rewrite. |
| RecordCreation.MarkAllFailed | app/infrastructure/celery/tasks.py:76-82 | The in-place rollback loop computes the rollback rewrite. |
| NoRollbackTasks.ParsePayloads | app/tasks/tasks.py:64 | Every record is converted exactly when all payloads are well formed, and the order is kept. Otherwise the first malformed payload is reported. |
| NoRollbackTasks.NoRollbackCounts | app/tasks/tasks.py:76-77 | processed plus failed equals the total, and failed counts the "failed" results. This holds in both activation branches. |
| NoRollbackTasks.NoRollbackResponse | app/tasks/tasks.py:76-132 | The response of a completed run; NoRollbackCounts, NoRollbackActivatedIff and NoRollbackKeepsResultsOnActivationFailure state its properties. |
| NoRollbackTasks.NoRollbackActivatedIff | app/tasks/tasks.py:79-99 | batch_activated holds exactly when no record failed and activation succeeded. Then every result is "created_and_activated". |
| NoRollbackTasks.NoRollbackKeepsResultsOnActivationFailure | app/tasks/tasks.py:100-114 | If activation fails or raises, the results are returned unchanged, batch_activated is false and the counts stay as computed. |
| NoRollbackTasks.NoRollbackEndToEnd | app/tasks/tasks.py:124-132 | Over the fan-out, the response has one result per record in input order, the counts add up to the number of records, and failed counts the create calls that did not return a hospital. |
| NoRollbackTasks.ActivateIfAllCreated | app/tasks/tasks.py:76-132 | The decision computes the response. Activation is attempted, at most once, exactly when no record failed. |
| NoRollbackTasks.ProcessHospitals | app/tasks/tasks.py:44-163 | An unknown job aborts with not-found. A malformed record sets FAILED with "Error processing hospitals: …" and re-raises. Otherwise the job goes PROCESSING, gets set_result with the response, then COMPLETED, even when records failed. |
| NoRollbackTasks.RunProcessing | app/tasks/tasks.py:64-163 | Once the job is PROCESSING, the worker gives the set_error path for a malformed payload and the set_result-then-COMPLETED path otherwise. |
| RollbackTasks.RollbackCounts | app/infrastructure/celery/tasks.py:61-62 | processed plus failed equals the total in every branch, including the rollback. |
| RollbackTasks.RollbackDecision | app/infrastructure/celery/tasks.py:61-101 | The rollback decision over the fan-out results; RollbackCounts, RollbackOutcomes and RollbackVersusNoRollback state its outcome. |
| RollbackTasks.RollbackOutcomes | app/infrastructure/celery/tasks.py:64-88 | On activation success, every result is "created_and_activated" and the batch is activated. On activation failure, all results are failed, processed is 0 and failed is the total. If a record failed, statuses are kept and the batch is not activated. |
| RollbackTasks.RollbackVersusNoRollback | app/infrastructure/celery/tasks.py:64-101 | The rollback and no-rollback tasks activate in exactly the same cases. They differ only when activation is refused: one keeps the results, the other fails them all. |
| RollbackTasks.DecideWithRollback | app/infrastructure/celery/tasks.py:61-101 | The decision is computed with its flags. Activation is attempted exactly when no record failed. delete_batch is called exactly when a record failed or activation returned failure. |
| RollbackTasks.ProcessHospitals | app/infrastructure/celery/tasks.py:39-118 | An unknown job aborts. A malformed record or an escaping exception gives set_error and a re-raise. Otherwise the job goes PROCESSING, gets set_result, then COMPLETED. |
| RollbackTasks.RunProcessing | app/infrastructure/celery/tasks.py:49-118 | This is the worker once the job is PROCESSING: the set_error path for a malformed payload, the decision path otherwise. |
| RollbackTasks.RecordDecision | app/infrastructure/celery/tasks.py:104-118 | A decided batch gets set_result and then COMPLETED. An escaped exception gets set_error with "Error processing hospitals: …". |
| LegacyProcessor.SingleTask | app_old/services.py:243-291 | A task raises exactly when its create call raised. Otherwise its result is the shared per-record mapping. |
| LegacyProcessor.ProgressUpdates | app_old/services.py:269-274 | The first n tasks issue at most n progress updates. |
| LegacyProcessor.OneUpdatePerRecord | app_old/services.py:269-274 | If no create call raises, each record issues exactly one update, at its index, with its name. The update is successful exactly when a hospital was returned. |
| LegacyProcessor.ReportedFailures | app_old/services.py:269-274 | The failures reported through progress are the create calls that returned a failure. |
| LegacyProcessor.FailureStep | app_old/services.py:269-274 | One more task adds a reported failure exactly when its call returned a failure. |
| LegacyProcessor.RejectedCalls | app_old/services.py:269-274 | Returned failures among the first n calls number at most n. |
| LegacyProcessor.ReportStep | app_old/services.py:269-274 | One more task applies exactly the update it reports to the tracked job. |
| LegacyProcessor.ReportTask | app_old/services.py:269-274 | One task's report updates the tracked job by one update_progress, or not at all when the call raised. The job map is unchanged. |
| LegacyProcessor.ReportNext | app_old/services.py:222 | Task i of the run takes the tracked job from the state after i tasks to the state after i+1 tasks. |
| LegacyProcessor.RunTasks | app_old/services.py:222 | The per-record tasks run in order, giving one task result per record. The tracked job ends as its start state with all reported updates applied. |
| LegacyProcessor.CollectResults | app_old/services.py:225-241 | The gather loop turns a raised task into a "failed" result at its index, with that record's row and name. The list is the same as the fan-out. |
| LegacyProcessor.CreateHospitalsConcurrently | app_old/services.py:198-241 | This gives the fan-out results plus the progress applied to the tracked job. No other job is touched. |
| LegacyProcessor.ProcessBulkUpload | app_old/services.py:129-196 | PROCESSING is set only when a non-empty job id and a manager are both given. The decision is the rollback decision over the fan-out. Activation is attempted exactly when nothing failed, and delete exactly when something failed or activation was refused. |
| LegacyProcessor.TrackedJobAfterRun | app_old/services.py:146-147 | After the run, a tracked job is PROCESSING with one processed count per update and the reported failures. Its buffer holds the last ten updates. |
| Idempotency.Live | app/core/idempotency.py:18-28 | The cleanup keeps exactly the entries with age ≤ ttl, unchanged. |
| Idempotency.Lookup | app/core/idempotency.py:30-43 | What get returns; SetThenGet and LookupCases state when it hits. |
| Idempotency.AfterGet | app/core/idempotency.py:30-43 | The store after get; AfterGetKeepsExactlyLive states what it keeps. |
| Idempotency.SetThenGet | app/core/idempotency.py:30-48 | set(k, v) followed by get(k) at an age within the ttl returns v. |
| Idempotency.LookupCases | app/core/idempotency.py:23-43 | get misses for a key never set, a deleted key, or an entry older than the ttl at either reading. An age of exactly the ttl is a hit. |
| Idempotency.AfterGetKeepsExactlyLive | app/core/idempotency.py:30-43 | After get, no entry older than the ttl remains. Every live entry is kept, except the requested one if it expired by the second reading. |
| Idempotency.GetRepeatable | app/core/idempotency.py:30-43 | Repeating get at the same instant gives the same answer and the same store. |
| Idempotency.MissStaysMiss | app/core/idempotency.py:30-43 | A miss leaves no entry for its key, so later gets of that key miss until it is set again. |
| Idempotency.HexDigest | app/core/idempotency.py:61-63 | The hex digest has two lower-case hex characters per byte. |
| Idempotency.HexRoundTrip | app/core/idempotency.py:61-63 | Parsing the hex digest gives the bytes back. |
| Idempotency.GenerateIdempotencyKey | app/core/idempotency.py:61-63 | The key is a lower-case hex string twice as long as the digest, so a 32-byte digest gives 64 characters. |
| Idempotency.SameKeyIffSameDigest | app/core/idempotency.py:61-63 | Two requests get equal keys exactly when their digests are equal. |
| Idempotency.IdempotencyStore.constructor | app/core/idempotency.py:13-15 | A new store has the given ttl and no entries. |
| Idempotency.IdempotencyStore.Default | app/core/idempotency.py:56-58 | The global store uses the default ttl of 86400, not the configured 300. |
| Idempotency.IdempotencyStore.CleanupExpired | app/core/idempotency.py:18-28 | The deletion loop leaves exactly the live entries. |
| Idempotency.IdempotencyStore.Get | app/core/idempotency.py:30-43 | get returns the lookup and leaves the store after cleanup, minus the requested key if it expired by the second reading. |
| Idempotency.IdempotencyStore.Set | app/core/idempotency.py:45-48 | set overwrites that key's value and timestamp only. |
| Idempotency.IdempotencyStore.Delete | app/core/idempotency.py:50-54 | delete removes only that key. Deleting an absent key changes nothing. |
| Queue.TaskQueue.constructor | app/services/job_service.py:61-63 | The broker starts with no messages. |
| Queue.TaskQueue.Delay | app/services/job_service.py:61-63 | A publish appends one message. A failed publish queues nothing. |
| JobService.EnqueueHttpError | app/services/job_service.py:64-80 | An unreachable broker gives a 503. Any other publish failure gives a 500. |
| JobService.FailedEnqueueRow | app/services/job_service.py:64-80 | The job of a failed publish is FAILED with "Message queue unavailable" or "Failed to queue job: …", has zero counts and no result, and is stamped. |
| JobService.SubmitBulkJob | app/services/job_service.py:29-94 | A cache hit returns the cached response and changes nothing. A miss creates one job with total = len(hospitals). If the publish succeeds, the PENDING response is returned and cached. If it fails, the job is FAILED, the 503 or 500 error results, and nothing is cached. |
| JobService.RetryAfterSubmission | app/services/job_service.py:61-91 | A refused submission leaves its key a miss, so a retry submits again. After a successful one, the retry gets the cached response. |
| JobService.GetJobStatus | app/services/job_service.py:96-143 | An unknown id is not found, with the not-found message. Otherwise the response carries the row's fields and the status message chosen by status. |
| JobService.Insert | app/services/job_service.py:185-189 | Insertion keeps descending start order and adds exactly one element. |
| JobService.SortByStartDesc | app/services/job_service.py:185-189 | The result is sorted by start time descending, with unset start times last, and is a permutation of the input. |
| JobService.SortKey | app/services/job_service.py:185-189 | The start time, with an unset start below every start time. |
| JobService.SortedCons | app/services/job_service.py:185-189 | A sorted list stays sorted under a head whose key is at least that of the old head. |
| JobService.SummaryStep | app/services/job_service.py:167-183 | One loop step keeps the invariant: each visited job is summarised once, in visiting order. |
| JobService.CollectSummaries | app/services/job_service.py:167-183 | The listing loop yields exactly one summary per stored job. |
| JobService.SummaryOf | app/services/job_service.py:167-183 | The summary of one job with its progress percentage. |
| JobService.CollectedAll | app/services/job_service.py:167-183 | When the loop finishes, every job has its summary and the count is the number of jobs. |
| JobService.SortedListing | app/services/job_service.py:185-193 | Sorting keeps one summary per job, each job once. |
| JobService.GetAllJobs | app/services/job_service.py:145-193 | total_jobs equals len(jobs), which equals the number of stored jobs. The summaries are in descending start order with unset starts last, and each job appears exactly once. |
| JobService.CoverBound | app/services/job_service.py:167-183 | A list that contains every id of a set is at least as long as the set. |
| JobService.ExactCoverDistinct | app/services/job_service.py:167-183 | A list drawn from a set, covering it and as long as it, has no repeated id. |
| AppJobService.SubmitBulkJob | app/application/job_service.py:22-66 | A cache hit returns the cached response with no job and no publish. A miss creates one job, publishes it, and caches the PENDING response. A publish exception propagates before the cache write. |
| AppJobService.GetJobStatus | app/application/job_service.py:68-115 | An unknown id is not found. Otherwise the status message follows the same rules as the current service. |
| StatusMessages.ProcessingMessageDeterminesCounts | app/services/job_service.py:116-128 | The PROCESSING message determines both counts it shows. |
| StatusMessages.CompletedMessageDeterminesFailures | app/services/job_service.py:116-128 | The COMPLETED message determines the failure count, and reads "All hospitals processed successfully" exactly when none failed. |
| StatusMessages.StatusMessageDeterminesStatus | app_old/job_manager.py:107-119 | Different statuses never give the same message. |
| StatusMessages.KeyPrefix | app_old/job_manager.py:107-119 | Each message starts with a twelve-character prefix determined by its status. |
| StatusMessages.StatusMessage | app/services/job_service.py:116-128 | The message chosen by status, with the COMPLETED case split on failures; the lemmas above show that the message determines the status and the counts it shows. |
| SqlJobRepository.NewRow | app/repositories/job_repository.py:162-184 | A new row is PENDING with zero counts, no timestamps, and no result or error. |
| SqlJobRepository.WithStatus | app/repositories/job_repository.py:199-213 | PROCESSING sets started_at only if unset. COMPLETED and FAILED stamp completed_at and fill started_at if unset. With a clock not earlier than the row's times, started ≤ completed is kept. |
| SqlJobRepository.WithResult | app/repositories/job_repository.py:215-224 | set_result stores the result and copies its two counts. Status and timestamps are untouched. |
| SqlJobRepository.WithError | app/repositories/job_repository.py:226-236 | set_error makes the row FAILED with the error, stamps completed_at and fills started_at if unset. The time order is kept. |
| SqlJobRepository.ProcessingTwiceKeepsFirstStart | app/repositories/job_repository.py:205-207 | Repeating update_status(PROCESSING) keeps the first start time. |
| SqlJobRepository.JobRepository.constructor | app/repositories/job_repository.py:134-135 | The table starts empty. |
| SqlJobRepository.JobRepository.Create | app/repositories/job_repository.py:162-184 | A new id inserts the new row. An existing id is an integrity error and changes nothing. |
| SqlJobRepository.JobRepository.Get | app/repositories/job_repository.py:186-191 | An unknown id gives None. Otherwise the stored row is read back. |
| SqlJobRepository.JobRepository.GetOrRaise | app/repositories/job_repository.py:193-197 | An unknown id raises not-found. Otherwise the stored job is returned. |
| SqlJobRepository.JobRepository.UpdateStatus | app/repositories/job_repository.py:199-213 | Not-found for an unknown id. Otherwise exactly that row becomes WithStatus of its old value. |
| SqlJobRepository.JobRepository.SetResult | app/repositories/job_repository.py:215-224 | Not-found for an unknown id. Otherwise exactly that row becomes WithResult of its old value. |
| SqlJobRepository.JobRepository.SetError | app/repositories/job_repository.py:226-236 | Not-found for an unknown id. Otherwise exactly that row becomes WithError of its old value. |
| SqlJobRepository.JobRepository.GetAll | app/repositories/job_repository.py:238-244 | One job per row, under its own id. |
| MemoryJobRepository.NewJob | app/infrastructure/repositories/job_repository.py:13-25 | A new job is PENDING with zero counts, stamped at creation, with no completion time, result or error. |
| MemoryJobRepository.WithStatus | app/infrastructure/repositories/job_repository.py:68-74 | completed_at is stamped only for COMPLETED and FAILED. Nothing else changes. |
| MemoryJobRepository.WithResult | app/infrastructure/repositories/job_repository.py:76-82 | set_result copies the result's counts and leaves the status unchanged. |
| MemoryJobRepository.WithError | app/infrastructure/repositories/job_repository.py:84-90 | set_error makes the job FAILED with the error and stamps completed_at. |
| MemoryJobRepository.JobRepository.constructor | app/infrastructure/repositories/job_repository.py:45-47 | The store starts empty. |
| MemoryJobRepository.JobRepository.Create | app/infrastructure/repositories/job_repository.py:49-55 | The new job is stored under its id. |
| MemoryJobRepository.JobRepository.Get | app/infrastructure/repositories/job_repository.py:57-59 | An unknown id gives None. Otherwise the stored job is returned. |
| MemoryJobRepository.JobRepository.GetOrRaise | app/infrastructure/repositories/job_repository.py:61-66 | An unknown id raises not-found. |
| MemoryJobRepository.JobRepository.UpdateStatus | app/infrastructure/repositories/job_repository.py:68-74 | Not-found for an unknown id. Otherwise only that job changes. |
| MemoryJobRepository.JobRepository.SetResult | app/infrastructure/repositories/job_repository.py:76-82 | Not-found for an unknown id. Otherwise only that job changes. |
| MemoryJobRepository.JobRepository.SetError | app/infrastructure/repositories/job_repository.py:84-90 | Not-found for an unknown id. Otherwise only that job changes. |
| MemoryJobRepository.JobRepository.GetAll | app/infrastructure/repositories/job_repository.py:92-94 | A shallow copy of the dictionary: later changes to its set of keys stay separate. The Job objects are shared, so later updates to a job do show through the copy; that sharing is not modelled (see the aliasing line under "## Left out"). |
| LegacyJobManager.NewState | app_old/job_manager.py:26-38 | A new job is PENDING with zero counts, no current hospital, an empty buffer, and no result, error or completion time. |
| LegacyJobManager.KeepRecent | app_old/job_manager.py:35 | The buffer holds the last ten updates in arrival order. |
| LegacyJobManager.KeepRecentAppend | app_old/job_manager.py:77-83 | Appending to the bounded buffer is the same as appending to the full history and keeping the last ten. |
| LegacyJobManager.WithProgress | app_old/job_manager.py:67-83 | update_progress always increments processed, increments failed exactly when not successful, and sets the current hospital. |
| LegacyJobManager.FailureCount | app_old/job_manager.py:71-73 | Failures in a run number at most its length. |
| LegacyJobManager.FailureCountSnoc | app_old/job_manager.py:71-73 | One more update adds one failure exactly when it was unsuccessful. |
| LegacyJobManager.ApplyProgressCounts | app_old/job_manager.py:71-73 | Any run of updates adds its length to processed and its failures to failed, so failed ≤ processed is kept. Status, completion, result and error are untouched. |
| LegacyJobManager.ApplyProgress | app_old/job_manager.py:67-83 | A run of update_progress calls applied in order; ApplyProgressCounts and ApplyProgressBuffer state its effect. |
| LegacyJobManager.ApplyProgressBuffer | app_old/job_manager.py:77-83 | After any run, the buffer holds the last ten of the previous buffer plus the run. The current hospital is the last update's. |
| LegacyJobManager.BufferStep | app_old/job_manager.py:77-83 | One more update keeps the buffer equal to the last ten of the whole history. |
| LegacyJobManager.NewJobProgress | app_old/job_manager.py:26-83 | From a new job, the buffer is exactly the last ten updates. |
| LegacyJobManager.WithStatus | app_old/job_manager.py:169-181 | completed_at is stamped only for terminal statuses. Nothing else changes. |
| LegacyJobManager.WithError | app_old/job_manager.py:215-227 | set_job_error sets FAILED, the error and completed_at. Nothing else changes. |
| LegacyJobManager.EstimatedTimeRemaining | app_old/job_manager.py:54-65 | The estimate exists exactly when the job is PROCESSING with progress. It is never negative, and it is 0 once every hospital is processed. |
| LegacyJobManager.Job.constructor | app_old/job_manager.py:26-38 | A new Job object holds the new-job state, with its buffer within the bound of ten. |
| LegacyJobManager.Job.ProgressPercentage | app_old/job_manager.py:40-45 | The percentage is 0 when the total is 0. Otherwise it is processed/total times 100, and lies between 0 and 100 while processed ≤ total. |
| LegacyJobManager.Job.UpdateProgress | app_old/job_manager.py:67-83 | The object's state becomes WithProgress of its old state, and its buffer stays within the bound of ten. |
| LegacyJobManager.StatsOf | app_old/job_manager.py:322-338 | The per-status counts sum to total_jobs, which is the number of jobs. |
| LegacyJobManager.StatusPartition | app_old/job_manager.py:322-338 | Every job is in exactly one status. |
| LegacyJobManager.CompletionTimes | app_old/job_manager.py:250-255 | The eviction candidates are exactly the finished jobs with a completion time. |
| LegacyJobManager.OldestOf | app_old/job_manager.py:259-264 | Returns a candidate whose completion time is minimal. |
| LegacyJobManager.PickStep | app_old/job_manager.py:259-264 | Picking an oldest remaining candidate keeps the picked prefix sorted and no later than any remaining candidate. |
| LegacyJobManager.PickedRemaining | app_old/job_manager.py:259-264 | The remaining candidates number the total minus those picked. |
| LegacyJobManager.PickedDone | app_old/job_manager.py:259-264 | No kept candidate finished before a picked one. |
| LegacyJobManager.PickOldest | app_old/job_manager.py:259-264 | Returns a remaining candidate with minimal completion time. |
| LegacyJobManager.OldestFinished | app_old/job_manager.py:250-269 | The picked ids are distinct candidates, min(excess, candidates) of them, in completion order, and no unpicked candidate finished earlier. |
| LegacyJobManager.JobManager.States | app_old/job_manager.py:125-136 | The state of every tracked job, under its id. |
| LegacyJobManager.JobManager.constructor | app_old/job_manager.py:125-136 | A manager with the given limits and no jobs. |
| LegacyJobManager.JobManager.Default | app_old/job_manager.py:125 | The defaults are 1000 jobs and a ttl of 3600 s. |
| LegacyJobManager.JobManager.CleanupOldJobs | app_old/job_manager.py:244-271 | Within capacity, nothing happens. Otherwise min(excess, candidates) finished jobs are deleted, and none kept finished before one deleted; PENDING and PROCESSING jobs are never deleted, and the rest are untouched. |
| LegacyJobManager.JobManager.DeleteAll | app_old/job_manager.py:268-271 | The deletion loop removes exactly the listed ids. |
| LegacyJobManager.JobManager.CreateJob | app_old/job_manager.py:138-155 | A new PENDING job is stored under its id and then cleanup runs. Within capacity, the map is the old one plus the new job. |
| LegacyJobManager.JobManager.GetJob | app_old/job_manager.py:157-167 | An unknown id gives None. Otherwise the stored object is returned. |
| LegacyJobManager.JobManager.UpdateJobStatus | app_old/job_manager.py:169-181 | An unknown id is ignored. Otherwise the job's state becomes WithStatus of its old state. |
| LegacyJobManager.JobManager.UpdateJobProgress | app_old/job_manager.py:183-201 | An unknown id is ignored. Otherwise the job's state becomes WithProgress of its old state. |
| LegacyJobManager.JobManager.SetJobResult | app_old/job_manager.py:203-213 | An unknown id is ignored. Otherwise the result is stored. |
| LegacyJobManager.JobManager.SetJobError | app_old/job_manager.py:215-227 | An unknown id is ignored. Otherwise the job's state becomes WithError of its old state. |
| LegacyJobManager.JobManager.GetStats | app_old/job_manager.py:322-338 | The statistics of the tracked jobs. The counts sum to the number of jobs. |
| LegacyJobManager.JobManager.ActiveJobsCount | app_old/job_manager.py:316-320 | The active count is the number of PROCESSING jobs. |
| CsvValidator.ReadCheckAsWritten | app/utils/csv_validator.py:41-56 | The size and decoding checks as written (see Findings). |
| CsvValidator.ReadCheck | app/utils/csv_validator.py:41-56 | The read checks pass exactly when the size is within 5 MB and the content is UTF-8. An oversize file gets the size message, and a non-UTF-8 one the encoding message. |
| CsvValidator.OversizeDetailAsWritten | app/utils/csv_validator.py:41-56 | As written, an oversize file's detail is not the size message but has it as a proper suffix. |
| CsvValidator.HeaderCheck | app/utils/csv_validator.py:61-75 | No headers, then a missing "name", then a missing "address", in that order. |
| CsvValidator.FileCheck | app/utils/csv_validator.py:38-75 | The checks before the rows as written: the extension, the read checks with the wrapped oversize detail, then the headers. |
| CsvValidator.FileCheckIntended | app/utils/csv_validator.py:38-75 | The same checks with the oversize detail as intended. |
| CsvValidator.FileCheckAgreement | app/utils/csv_validator.py:38-75 | The written and intended file checks reject the same uploads, with the same detail except for an oversize ".csv" file, whose written detail is the intended one behind "Error reading file: 400: ". |
| CsvValidator.Headers | app/utils/csv_validator.py:61-75 | The header list keeps its length after strip and lower. |
| CsvValidator.NormalizeRowKeys | app/utils/csv_validator.py:86-88 | Every normalised column key is present in the normalised row. |
| CsvValidator.NormalizeRowKeysOnly | app/utils/csv_validator.py:86-88 | Every key of the normalised row is the normalised key of some column, so the keys are exactly those of the row. |
| CsvValidator.NormKeyUpToCase | app/utils/csv_validator.py:86-88 | A key written with any ASCII capitalisation and padded with whitespace normalises to the key. |
| CsvValidator.RequiredColumnUpToCase | app/utils/csv_validator.py:61-75 | "name" or "address" is found whatever its capitalisation and whitespace padding in the header row, and is then not reported missing. |
| CsvValidator.NormalizeRow | app/utils/csv_validator.py:86-88 | The dict comprehension over a row, a later column overwriting an earlier one with the same normalised key; the three lemmas above state its keys and values. |
| CsvValidator.NormalizeRowLastWins | app/utils/csv_validator.py:86-88 | A key's value comes from the last column with that key. |
| CsvValidator.CheckRowCases | app/utils/csv_validator.py:91-113 | A row is accepted exactly when name and address are both non-blank. An accepted record is trimmed, with None for an empty phone. A rejected row reports one or two errors. |
| CsvValidator.CheckRow | app/utils/csv_validator.py:86-113 | One row's record or errors; CheckRowCases states its outcome. |
| CsvValidator.CheckRows | app/utils/csv_validator.py:77-83 | Every row is checked, numbered from 2. |
| CsvValidator.CollectStep | app/utils/csv_validator.py:96-113 | One more row extends the records and the errors by what that row adds. |
| CsvValidator.CheckRowsAsChecked | app/utils/csv_validator.py:77-113 | Each row is accepted exactly when valid. Accepted records are well formed, and rejected rows report errors. |
| CsvValidator.RecordsWellFormed | app/utils/csv_validator.py:82-113 | The collected records have trimmed names and addresses, and strictly increasing row numbers of at least 2. |
| CsvValidator.DropLast | app/utils/csv_validator.py:77-113 | Dropping the last result keeps the row-check guarantees. |
| CsvValidator.RowAccounting | app/utils/csv_validator.py:96-113 | No error is collected exactly when every row was accepted, and then every row gives a record. |
| CsvValidator.ScanRows | app/utils/csv_validator.py:77-113 | The row loop computes the records and errors of the checked rows. |
| CsvValidator.EffectiveMaxRows | app/utils/csv_validator.py:35 | `max_rows or settings.max_csv_rows`: None and 0 fall back to 20. |
| CsvValidator.Conclude | app/utils/csv_validator.py:115-135 | The checks after the row loop in the source's order; ConcludeAccepts and ConcludeListsErrors state its outcome. |
| CsvValidator.Validate | app/utils/csv_validator.py:22-135 | The current validator as written; ValidateAccepts states when it accepts. |
| CsvValidator.ValidateIntended | app/utils/csv_validator.py:22-135 | The current validator with the oversize detail as intended. |
| CsvValidator.ValidateIntendedAgreement | app/utils/csv_validator.py:41-56 | The validator as written and as intended give the same outcome on every upload except an oversize ".csv" file, where they differ only in the detail. |
| CsvValidator.ValidateAndParseCsv | app/utils/csv_validator.py:22-135 | validate_and_parse_csv computes Validate, the source's outcome including the wrapped detail for an oversize file. |
| CsvValidator.ConcludeAccepts | app/utils/csv_validator.py:115-135 | After the loop, the upload is accepted exactly when there are no errors and 1 to max_rows records. The records are well formed. |
| CsvValidator.ValidateAccepts | app/utils/csv_validator.py:35-135 | An upload is accepted exactly when the file checks pass, every row is valid, and there are between 1 and the effective maximum (a falsy max_rows means 20) rows. |
| CsvValidator.ConcludeListsErrors | app/utils/csv_validator.py:129-132 | Within the limit, invalid rows give "CSV validation failed: " with all messages joined by "; ". Each message appears in the detail. |
| LegacyCsvValidator.LegacyScanCharacterised | app_old/utils.py:77-121 | The legacy loop overflows exactly when the records collected before the last data row reach max_rows. Otherwise it keeps the same records and errors as the current loop. |
| LegacyCsvValidator.LegacyScan | app_old/utils.py:77-121 | The legacy loop with the limit check before each row; LegacyScanCharacterised, OverflowSticks and LimitReached state its outcome. |
| LegacyCsvValidator.LegacyConclude | app_old/utils.py:77-133 | The overflow detail, then the no-data rule, then the collected errors. |
| LegacyCsvValidator.LegacyValidate | app_old/utils.py:17-135 | The file checks as written, then the legacy loop and its checks; LegacyValidateAccepts states when it accepts. |
| LegacyCsvValidator.LegacyConcludeAccepts | app_old/utils.py:77-135 | The legacy checks after the loop accept exactly when there are between 1 and `max_rows` rows and all are valid. The records are then one per row, at most `max_rows`, well formed, with increasing row numbers from 2. |
| LegacyCsvValidator.LegacyValidateAccepts | app_old/utils.py:17-135 | The original validator accepts exactly when the file checks pass, there are between 1 and `max_rows` data rows, and every row is valid. It then returns at most `max_rows` well-formed records with increasing row numbers. |
| LegacyCsvValidator.LegacyParsedIff | app_old/utils.py:77-133 | The legacy checks accept exactly the in-limit, all-valid row results, and they return the records the current loop collects. |
| LegacyCsvValidator.LegacyWithinLimit | app_old/utils.py:77-133 | With every row valid and no more rows than `max_rows`, the result is the records. |
| LegacyCsvValidator.LegacyOverLimit | app_old/utils.py:85-89 | With every row valid and more rows than `max_rows`, the result is the row-limit detail. |
| LegacyCsvValidator.LegacyRejectsInvalid | app_old/utils.py:109-133 | A collected row error means the upload is rejected. |
| LegacyCsvValidator.OverflowSticks | app_old/utils.py:84-89 | Once a prefix overflows, the whole scan overflows. |
| LegacyCsvValidator.LimitReached | app_old/utils.py:84-89 | Having max_rows records with a data row still to come overflows the scan. |
| LegacyCsvValidator.LegacyScanRows | app_old/utils.py:77-121 | The legacy row loop, which stops at the first row past the limit, computes the legacy scan. |
| LegacyCsvValidator.LegacyValidateAndParseCsv | app_old/utils.py:17-135 | It computes the legacy outcome as written, including the wrapped detail for an oversize file; on success the error list is empty. |
| LegacyCsvValidator.LimitAgreement | app_old/utils.py:84-133 | With a positive limit, both validators reject when there are more than max_rows valid rows, and they agree on uploads whose rows are all valid. |
| LegacyCsvValidator.TrailingInvalidRow | app_old/utils.py:84-89 | Where they differ: after max_rows valid rows, one invalid row gets "exceeds maximum" from the legacy validator and the joined errors from the current one. |
| LegacyCsvValidator.DetailsDiffer | app_old/utils.py:86-89 | A validation-failure detail never reads as a row-limit detail. |
| Text.NatToString | app/services/job_service.py:116-128 | Decimal text of a count: all digits, no leading zero. |
| Text.ParseNatToString | app/services/job_service.py:116-128 | Parsing the decimal text gives the number back. |
| Text.NatToStringInjective | app/services/job_service.py:116-128 | Different counts render differently. |
| Text.StripSpec | app/utils/csv_validator.py:86-93 | strip() keeps a middle slice and drops only the whitespace around it. |
| Text.StripEmptyIff | app/utils/csv_validator.py:91-104 | Stripping gives the empty string exactly for all-whitespace text. |
| Text.StripIdempotent | app/utils/csv_validator.py:91-93 | Stripping twice is the same as stripping once. |
| Text.Lower | app/utils/csv_validator.py:61-62 | Leaves no ASCII capital. A capital becomes the small letter at the same place in the alphabet, and every other character is kept. |
| Text.LowerIdentity | app/utils/csv_validator.py:61-62 | Text without capitals is its own lower case. |
| Text.LowerIdempotent | app/utils/csv_validator.py:61-62 | lower() applied twice is lower() applied once. |
| Text.StripPadded | app/utils/csv_validator.py:61-62 | strip() removes exactly the whitespace padding around text that neither starts nor ends with whitespace. |
| Text.Strip | app/utils/csv_validator.py:86-93 | str.strip(): never longer than its input; StripSpec, StripEmptyIff and StripIdempotent say what it keeps. |
| Text.EndsWith | app/utils/csv_validator.py:38-39 | str.endswith(): the suffix is the last characters of the text. |
| Text.Join | app/utils/csv_validator.py:129-132 | "; ".join(): the empty string for no parts and the part itself for one; JoinContains shows every part in the result. |
| Text.IntToString | app/utils/csv_validator.py:96-104 | str() of a row number or limit: never empty, a "-" before the digits of a negative number. |
| Text.JoinContains | app/utils/csv_validator.py:129-132 | Every part appears in the joined text. |

## Left out

- Circuit breaker, rate limiter and retry policy. They are library behaviour. Only the three per-record outcomes they lead to are modelled, as the `create` parameter.
- The HTTP client bodies, the FastAPI routes and exception handlers, and the legacy background-task wrapper in `app_old/main.py`. They only sequence calls that are modelled.
- Celery configuration and the `.delay()` transport. Publishing is an `EnqueueOutcome` parameter and the `Queue.TaskQueue` list.
- `process_bulk_hospitals_task` itself. It only runs `_process_hospitals_async` in an event loop and logs.
- Concurrency. `asyncio.gather` is modelled as an order-preserving sequential map, so the progress updates of the legacy processor arrive in task order.
- The cross-request idempotency race between a get and a set.
- The periodic `cleanup_expired_jobs` loop and `start_cleanup_task`/`stop_cleanup_task` of the legacy manager.
- Floating point. Progress percentages and the ETA are exact `real`s without rounding. `processing_time_seconds` and `format_processing_time` are not modelled.
- Clocks. `time.time()` and `datetime.now()` become explicit `nat` arguments. The SQL `update_status` reads the clock once (`now`), where the source may read it twice.
- Idempotency.GenerateIdempotencyKey: `hashlib.sha256` and `str.encode()` are parameters, so only the hex rendering is modelled.
- CsvValidator.NormalizeRow: a data row with more cells than the header is not modelled. `csv.DictReader` stores the extra cells under the key `None`, and `k.strip()` then raises `AttributeError` in both validators (app/utils/csv_validator.py:87, app_old/utils.py:93). Neither validator catches it, and the endpoint turns it into a 500 (app/api/v1/endpoints/hospitals.py:117-119). In the original validator the row-limit check for that row comes first. `RawRow` has only string keys, so every row in the model is one without extra cells.
- `csv.DictReader` tokenising, `file.read()` and UTF-8 decoding. The upload is given as its size, a decodes-as-UTF-8 flag, the header row and the rows.
- `str.strip()` and `str.lower()` are modelled on ASCII only. Unicode whitespace and case mapping are not modelled.
- SQLAlchemy sessions. Each `session_scope` is one atomic map update, and the JSON round-trip of a stored result is the identity.
- Aliasing of Job objects. The in-memory repository holds jobs as values. Two callers sharing one mutable Job object is not captured, nor is the sharing between the dict and the shallow copy `get_all` returns (app/infrastructure/repositories/job_repository.py:92-94).
- `get_all_jobs`: timezone normalisation of start times is not modelled. The order among equal start times depends on dict iteration order, which is also not modelled.
- The `idempotency_key` field of the original application's submit response.
- `to_status_response`, `get_job_status` and `get_all_jobs` of the legacy manager. They only read fields whose rules `StatusMessages` and `LegacyJobManager` already state.
- The "Unknown status" fallback of the status message. Every status has its own case, so the fallback cannot be reached.
- LegacyJobManager.JobManager.CleanupOldJobs: among jobs with equal `completed_at`, the source's stable sort evicts in dict insertion order. The model may evict any of them, so which tied job goes is not specified.
- Terminal-state immutability. No store prevents changing a COMPLETED or FAILED job, so none is claimed.

## Findings

| source | as written | input that shows it | evidently intended | confidence | as-written member | corrected member |
|---|---|---|---|---|---|---|
| app/utils/csv_validator.py:42-56 (same in app_old/utils.py:40-56) | The size `HTTPException` is raised inside the `try` block. Its own `except Exception` catches it and re-raises a 400 with "Error reading file: " plus the exception's text. | An upload of 5 MB plus one byte. The detail becomes "Error reading file: 400: File size exceeds 5MB limit". | The detail is "File size exceeds 5MB limit". | not executed | CsvValidator.ReadCheckAsWritten, CsvValidator.OversizeDetailAsWritten | CsvValidator.ReadCheck, CsvValidator.ValidateIntended |

Both validators follow the code as written: their file checks go through `ReadCheckAsWritten`. `ReadCheck` and
`ValidateIntended` are the corrected read checks and the corrected current
validator. `FileCheckAgreement` and `ValidateIntendedAgreement` prove that the
corrected and written versions differ only in the detail for an oversize
".csv" upload.
