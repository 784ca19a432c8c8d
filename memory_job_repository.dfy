/** The in-memory job repository of the layered architecture: a dictionary
    from job id to Job. Jobs are modelled as values held in the map, so the
    repository's mutators rewrite the entry of the named job. */
module MemoryJobRepository {
  import opened Domain

  datatype Job = Job(
    jobId: string,
    status: JobStatus,
    totalHospitals: nat,
    processedHospitals: nat,
    failedHospitals: nat,
    startedAt: nat,
    completedAt: Option<nat>,
    result: Option<BulkResponse>,
    error: Option<string>)
  {
    function ProgressPercentage(): real {
      Domain.ProgressPercentage(processedHospitals, totalHospitals)
    }
  }

  datatype RepoError = JobNotFound(jobId: string)

  /** A new job: PENDING, zero counts, started_at stamped at creation, no
      completion time, result or error. */
  function NewJob(jobId: string, total: nat, now: nat): (j: Job)
    ensures j.jobId == jobId && j.status == Pending && j.totalHospitals == total
    ensures j.processedHospitals == 0 && j.failedHospitals == 0
    ensures j.startedAt == now && j.completedAt == None && j.result == None && j.error == None
  {
    Job(jobId, Pending, total, 0, 0, now, None, None, None)
  }

  /** update_status: completed_at is stamped only for COMPLETED/FAILED. */
  function WithStatus(j: Job, status: JobStatus, now: nat): (j': Job)
    ensures j'.status == status
    ensures j'.completedAt == (if IsTerminal(status) then Some(now) else j.completedAt)
    ensures j' == j.(status := status, completedAt := j'.completedAt)
  {
    j.(status := status, completedAt := if IsTerminal(status) then Some(now) else j.completedAt)
  }

  /** set_result: stores the result and copies its counts; status untouched. */
  function WithResult(j: Job, result: BulkResponse): (j': Job)
    ensures j'.result == Some(result) && j'.status == j.status
    ensures j'.processedHospitals == result.processedHospitals && j'.failedHospitals == result.failedHospitals
    ensures j'.completedAt == j.completedAt && j'.error == j.error && j'.jobId == j.jobId
    ensures j'.totalHospitals == j.totalHospitals && j'.startedAt == j.startedAt
  {
    j.(result := Some(result), processedHospitals := result.processedHospitals, failedHospitals := result.failedHospitals)
  }

  /** set_error: FAILED, the error recorded, completed_at stamped. */
  function WithError(j: Job, error: string, now: nat): (j': Job)
    ensures j'.status == Failed && j'.error == Some(error) && j'.completedAt == Some(now)
    ensures j'.result == j.result && j'.processedHospitals == j.processedHospitals
    ensures j'.failedHospitals == j.failedHospitals && j'.jobId == j.jobId && j'.startedAt == j.startedAt
    ensures j'.totalHospitals == j.totalHospitals
  {
    j.(error := Some(error), status := Failed, completedAt := Some(now))
  }

  class JobRepository {
    var jobs: map<string, Job>

    constructor ()
      ensures jobs == map[]
    {
      jobs := map[];
    }

    /** Store a new job under the given id (a uuid4 in the source). */
    method Create(jobId: string, total: nat, now: nat) returns (job: Job)
      modifies this
      ensures job == NewJob(jobId, total, now)
      ensures jobs == old(jobs)[jobId := job]
    {
      job := NewJob(jobId, total, now);
      jobs := jobs[jobId := job];
    }

    method Get(jobId: string) returns (job: Option<Job>)
      ensures job.None? <==> jobId !in jobs
      ensures job.Some? ==> job.value == jobs[jobId]
    {
      job := if jobId in jobs then Some(jobs[jobId]) else None;
    }

    method GetOrRaise(jobId: string) returns (job: Job, err: Option<RepoError>)
      ensures err.Some? <==> jobId !in jobs
      ensures err.Some? ==> err.value == JobNotFound(jobId)
      ensures err.None? ==> job == jobs[jobId]
    {
      var found := Get(jobId);
      if found.None? {
        job := NewJob(jobId, 0, 0);
        err := Some(JobNotFound(jobId));
        return;
      }
      job := found.value;
      err := None;
    }

    method UpdateStatus(jobId: string, status: JobStatus, now: nat) returns (err: Option<RepoError>)
      modifies this
      ensures old(jobId !in jobs) ==> err == Some(JobNotFound(jobId)) && jobs == old(jobs)
      ensures old(jobId in jobs) ==> err == None && jobs == old(jobs)[jobId := WithStatus(old(jobs)[jobId], status, now)]
    {
      var job;
      job, err := GetOrRaise(jobId);
      if err.Some? {
        return;
      }
      jobs := jobs[jobId := WithStatus(job, status, now)];
    }

    method SetResult(jobId: string, result: BulkResponse) returns (err: Option<RepoError>)
      modifies this
      ensures old(jobId !in jobs) ==> err == Some(JobNotFound(jobId)) && jobs == old(jobs)
      ensures old(jobId in jobs) ==> err == None && jobs == old(jobs)[jobId := WithResult(old(jobs)[jobId], result)]
    {
      var job;
      job, err := GetOrRaise(jobId);
      if err.Some? {
        return;
      }
      jobs := jobs[jobId := WithResult(job, result)];
    }

    method SetError(jobId: string, error: string, now: nat) returns (err: Option<RepoError>)
      modifies this
      ensures old(jobId !in jobs) ==> err == Some(JobNotFound(jobId)) && jobs == old(jobs)
      ensures old(jobId in jobs) ==> err == None && jobs == old(jobs)[jobId := WithError(old(jobs)[jobId], error, now)]
    {
      var job;
      job, err := GetOrRaise(jobId);
      if err.Some? {
        return;
      }
      jobs := jobs[jobId := WithError(job, error, now)];
    }

    /** get_all returns a shallow copy of the dict: adding or removing a key
        on either side does not reach the other, but the Job objects are
        shared, so the source's later updates to a job show through the
        copy. Jobs are values here, so that sharing is not captured. */
    method GetAll() returns (all: map<string, Job>)
      ensures all == jobs
    {
      all := jobs;
    }
  }
}
