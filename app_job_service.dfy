/** The earlier job service of the layered architecture, over the in-memory
    repository: no fail-fast handling, so an exception from publishing
    propagates after the job was created and before anything is cached. */
module AppJobService {
  import opened Domain
  import MemoryJobRepository
  import opened Queue
  import Idempotency
  import StatusMessages

  /** An exception from `.delay()` propagates unchanged. */
  datatype SubmitOutcome = Submitted(response: SubmitResponse) | Raised(error: string)

  /** submit_bulk_job: a cache hit returns the cached response without
      creating or publishing anything; a miss creates a PENDING job stamped
      at `createNow`, publishes it, and caches the response only once
      publishing returned. */
  method SubmitBulkJob(cache: Idempotency.IdempotencyStore<SubmitResponse>, repo: MemoryJobRepository.JobRepository,
                       queue: TaskQueue, hospitals: seq<HospitalRecord>, key: string, newJobId: string,
                       enqueue: EnqueueOutcome, cleanupNow: nat, checkNow: nat, createNow: nat, setNow: nat)
    returns (outcome: SubmitOutcome)
    modifies cache, repo, queue
    ensures var hit := Idempotency.Lookup(old(cache.store), cache.ttl, key, cleanupNow, checkNow);
      hit.Some? ==>
        outcome == Submitted(hit.value)
        && repo.jobs == old(repo.jobs) && queue.pending == old(queue.pending)
        && cache.store == Idempotency.AfterGet(old(cache.store), cache.ttl, key, cleanupNow, checkNow)
    ensures var hit := Idempotency.Lookup(old(cache.store), cache.ttl, key, cleanupNow, checkNow);
      hit.None? ==>
        repo.jobs == old(repo.jobs)[newJobId := MemoryJobRepository.NewJob(newJobId, |hospitals|, createNow)]
    ensures var hit := Idempotency.Lookup(old(cache.store), cache.ttl, key, cleanupNow, checkNow);
      hit.None? && enqueue.Enqueued? ==>
        outcome == Submitted(Accepted(newJobId, |hospitals|))
        && queue.pending == old(queue.pending) + [Message(newJobId, hospitals)]
        && cache.store == Idempotency.AfterGet(old(cache.store), cache.ttl, key, cleanupNow, checkNow)
                            [key := Idempotency.Entry(Accepted(newJobId, |hospitals|), setNow)]
    ensures var hit := Idempotency.Lookup(old(cache.store), cache.ttl, key, cleanupNow, checkNow);
      hit.None? && !enqueue.Enqueued? ==>
        outcome == Raised(enqueue.error)
        && queue.pending == old(queue.pending)
        && cache.store == Idempotency.AfterGet(old(cache.store), cache.ttl, key, cleanupNow, checkNow)
  {
    var cached := cache.Get(key, cleanupNow, checkNow);
    if cached.Some? {
      return Submitted(cached.value);
    }
    var job := repo.Create(newJobId, |hospitals|, createNow);
    queue.Delay(job.jobId, hospitals, enqueue);
    if !enqueue.Enqueued? {
      return Raised(enqueue.error);
    }
    var response := Accepted(job.jobId, |hospitals|);
    cache.Set(key, response, setNow);
    outcome := Submitted(response);
  }

  datatype StatusLookup = Found(response: JobStatusResponse) | NotFound(message: string)

  function NotFoundMessage(jobId: string): string {
    "Job with ID '" + jobId + "' not found"
  }

  /** get_job_status: JobNotFoundException for an unknown id; otherwise the
      job's fields, its progress and the message its status calls for. */
  method GetJobStatus(repo: MemoryJobRepository.JobRepository, jobId: string) returns (r: StatusLookup)
    ensures r.NotFound? <==> jobId !in repo.jobs
    ensures r.NotFound? ==> r.message == NotFoundMessage(jobId)
    ensures r.Found? ==>
      var job := repo.jobs[jobId];
      && r.response.jobId == job.jobId && r.response.status == job.status
      && r.response.totalHospitals == job.totalHospitals
      && r.response.processedHospitals == job.processedHospitals
      && r.response.failedHospitals == job.failedHospitals
      && r.response.progressPercentage == ProgressPercentage(job.processedHospitals, job.totalHospitals)
      && r.response.message == StatusMessages.StatusMessage(job.status, job.processedHospitals, job.totalHospitals, job.failedHospitals, job.error)
      && r.response.startedAt == Some(job.startedAt) && r.response.completedAt == job.completedAt
      && r.response.result == job.result && r.response.error == job.error
  {
    var found := repo.Get(jobId);
    if found.None? {
      return NotFound(NotFoundMessage(jobId));
    }
    var job := found.value;
    var message := StatusMessages.StatusMessage(job.status, job.processedHospitals, job.totalHospitals, job.failedHospitals, job.error);
    r := Found(JobStatusResponse(job.jobId, job.status, job.totalHospitals, job.processedHospitals, job.failedHospitals,
                                 job.ProgressPercentage(), message, Some(job.startedAt), job.completedAt, job.result, job.error));
  }
}
