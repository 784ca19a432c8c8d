/** The SQLite-backed job repository. The `jobs` table is a map from job id to
    row; every `session_scope` is one atomic update of that map. The result
    column holds the bulk response as JSON; serialising and parsing it is
    modelled as the identity. Clock readings are explicit `now` arguments. */
module SqlJobRepository {
  import opened Domain

  datatype JobRow = JobRow(
    status: JobStatus,
    totalHospitals: nat,
    processedHospitals: nat,
    failedHospitals: nat,
    startedAt: Option<nat>,
    completedAt: Option<nat>,
    result: Option<BulkResponse>,
    error: Option<string>)

  /** The lightweight Job object handed to the rest of the application. */
  datatype Job = Job(jobId: string, row: JobRow) {
    function ProgressPercentage(): real {
      Domain.ProgressPercentage(row.processedHospitals, row.totalHospitals)
    }
  }

  datatype RepoError = JobNotFound(jobId: string) | IntegrityError(jobId: string)

  /** started_at, when set, is no later than completed_at. */
  predicate TimesOrdered(r: JobRow) {
    r.completedAt.Some? ==> r.startedAt.Some? && r.startedAt.value <= r.completedAt.value
  }

  /** No timestamp of the row lies after `now`. */
  predicate NotAfter(r: JobRow, now: nat) {
    (r.startedAt.Some? ==> r.startedAt.value <= now) && (r.completedAt.Some? ==> r.completedAt.value <= now)
  }

  /** The row `create` inserts. */
  function NewRow(total: nat): (r: JobRow)
    ensures r.status == Pending && r.totalHospitals == total
    ensures r.processedHospitals == 0 && r.failedHospitals == 0
    ensures r.startedAt == None && r.completedAt == None && r.result == None && r.error == None
  {
    JobRow(Pending, total, 0, 0, None, None, None, None)
  }

  /** The row after update_status(status) at time `now`: PROCESSING stamps
      started_at only when unset; COMPLETED and FAILED stamp completed_at and
      fill an unset started_at. Counts, result and error are untouched. */
  function WithStatus(r: JobRow, status: JobStatus, now: nat): (r': JobRow)
    ensures r'.status == status
    ensures r' == r.(status := status, startedAt := r'.startedAt, completedAt := r'.completedAt)
    ensures r.startedAt.Some? ==> r'.startedAt == r.startedAt
    ensures r.startedAt.None? ==> r'.startedAt == (if status == Pending then None else Some(now))
    ensures r'.completedAt == (if IsTerminal(status) then Some(now) else r.completedAt)
    ensures TimesOrdered(r) && NotAfter(r, now) ==> TimesOrdered(r') && NotAfter(r', now)
  {
    var started := if r.startedAt.None? && status != Pending then Some(now) else r.startedAt;
    var completed := if IsTerminal(status) then Some(now) else r.completedAt;
    r.(status := status, startedAt := started, completedAt := completed)
  }

  /** The row after set_result: the result is stored and the counts copied
      from it; status and timestamps are untouched. */
  function WithResult(r: JobRow, result: BulkResponse): (r': JobRow)
    ensures r'.result == Some(result)
    ensures r'.processedHospitals == result.processedHospitals && r'.failedHospitals == result.failedHospitals
    ensures r'.status == r.status && r'.startedAt == r.startedAt && r'.completedAt == r.completedAt
    ensures r'.totalHospitals == r.totalHospitals && r'.error == r.error
  {
    r.(result := Some(result), processedHospitals := result.processedHospitals, failedHospitals := result.failedHospitals)
  }

  /** The row after set_error: FAILED, the error recorded, completed_at
      stamped and an unset started_at filled. */
  function WithError(r: JobRow, error: string, now: nat): (r': JobRow)
    ensures r'.status == Failed && r'.error == Some(error)
    ensures r'.completedAt == Some(now)
    ensures r'.startedAt == (if r.startedAt.Some? then r.startedAt else Some(now))
    ensures r'.totalHospitals == r.totalHospitals && r'.result == r.result
    ensures r'.processedHospitals == r.processedHospitals && r'.failedHospitals == r.failedHospitals
    ensures TimesOrdered(r) && NotAfter(r, now) ==> TimesOrdered(r') && NotAfter(r', now)
  {
    WithStatus(r, Failed, now).(error := Some(error))
  }

  /** update_status(PROCESSING) repeated keeps the first start time. */
  lemma ProcessingTwiceKeepsFirstStart(r: JobRow, t1: nat, t2: nat)
    ensures WithStatus(WithStatus(r, Processing, t1), Processing, t2).startedAt == WithStatus(r, Processing, t1).startedAt
    ensures WithStatus(r, Processing, t1).startedAt.Some?
  {
  }

  class JobRepository {
    var rows: map<string, JobRow>

    constructor ()
      ensures rows == map[]
    {
      rows := map[];
    }

    /** Insert a PENDING row under the given fresh id; a primary-key clash
        raises IntegrityError and the transaction rolls back. */
    method Create(jobId: string, total: nat) returns (job: Job, err: Option<RepoError>)
      modifies this
      ensures old(jobId in rows) ==> err == Some(IntegrityError(jobId)) && rows == old(rows)
      ensures old(jobId !in rows) ==> err == None && rows == old(rows)[jobId := NewRow(total)]
      ensures err == None ==> job == Job(jobId, NewRow(total))
    {
      job := Job(jobId, NewRow(total));
      if jobId in rows {
        err := Some(IntegrityError(jobId));
        return;
      }
      rows := rows[jobId := NewRow(total)];
      err := None;
    }

    /** get: None for an unknown id; otherwise the stored row read back. */
    method Get(jobId: string) returns (job: Option<Job>)
      ensures job.None? <==> jobId !in rows
      ensures job.Some? ==> job.value.jobId == jobId && job.value.row == rows[jobId]
    {
      if jobId !in rows {
        return None;
      }
      job := Some(Job(jobId, rows[jobId]));
    }

    method GetOrRaise(jobId: string) returns (job: Job, err: Option<RepoError>)
      ensures err.Some? <==> jobId !in rows
      ensures err.Some? ==> err.value == JobNotFound(jobId)
      ensures err.None? ==> job == Job(jobId, rows[jobId])
    {
      var found := Get(jobId);
      if found.None? {
        job := Job(jobId, NewRow(0));
        err := Some(JobNotFound(jobId));
        return;
      }
      job := found.value;
      err := None;
    }

    method UpdateStatus(jobId: string, status: JobStatus, now: nat) returns (err: Option<RepoError>)
      modifies this
      ensures old(jobId !in rows) ==> err == Some(JobNotFound(jobId)) && rows == old(rows)
      ensures old(jobId in rows) ==> err == None && rows == old(rows)[jobId := WithStatus(old(rows)[jobId], status, now)]
    {
      if jobId !in rows {
        return Some(JobNotFound(jobId));
      }
      rows := rows[jobId := WithStatus(rows[jobId], status, now)];
      err := None;
    }

    method SetResult(jobId: string, result: BulkResponse) returns (err: Option<RepoError>)
      modifies this
      ensures old(jobId !in rows) ==> err == Some(JobNotFound(jobId)) && rows == old(rows)
      ensures old(jobId in rows) ==> err == None && rows == old(rows)[jobId := WithResult(old(rows)[jobId], result)]
    {
      if jobId !in rows {
        return Some(JobNotFound(jobId));
      }
      rows := rows[jobId := WithResult(rows[jobId], result)];
      err := None;
    }

    method SetError(jobId: string, error: string, now: nat) returns (err: Option<RepoError>)
      modifies this
      ensures old(jobId !in rows) ==> err == Some(JobNotFound(jobId)) && rows == old(rows)
      ensures old(jobId in rows) ==> err == None && rows == old(rows)[jobId := WithError(old(rows)[jobId], error, now)]
    {
      if jobId !in rows {
        return Some(JobNotFound(jobId));
      }
      rows := rows[jobId := WithError(rows[jobId], error, now)];
      err := None;
    }

    /** get_all: every row, read back into a fresh dictionary keyed by id. */
    method GetAll() returns (all: map<string, Job>)
      ensures all.Keys == rows.Keys
      ensures forall k :: k in all ==> all[k] == Job(k, rows[k])
    {
      all := map[];
      var pending := rows.Keys;
      while pending != {}
        invariant pending <= rows.Keys
        invariant all.Keys == rows.Keys - pending
        invariant forall k :: k in all ==> all[k] == Job(k, rows[k])
        decreases pending
      {
        var k :| k in pending;
        all := all[k := Job(k, rows[k])];
        pending := pending - {k};
      }
    }
  }
}
