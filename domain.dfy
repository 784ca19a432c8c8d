/** Shared value types of the bulk hospital processor: job status, the per-record
    result, the bulk response and the submission response, plus the configuration
    constants the core reads. */
module Domain {

  datatype Option<+T> = None | Some(value: T)

  /** Lifecycle of a background job. */
  datatype JobStatus = Pending | Processing | Completed | Failed

  predicate IsTerminal(s: JobStatus) {
    s == Completed || s == Failed
  }

  /** Status of one hospital record after processing ("created",
      "created_and_activated" or "failed"). */
  datatype RecordStatus = Created | CreatedAndActivated | RecordFailed

  /** One validated hospital row, as handed to the processor. */
  datatype HospitalRecord = HospitalRecord(name: string, address: string, phone: Option<string>, rowNumber: int)

  /** The outcome for one record. */
  datatype ProcessingResult = ProcessingResult(
    row: int,
    hospitalId: Option<int>,
    name: string,
    status: RecordStatus,
    errorMessage: Option<string>)

  /** The aggregated result of one bulk run (processing time is not modelled). */
  datatype BulkResponse = BulkResponse(
    batchId: string,
    totalHospitals: nat,
    processedHospitals: nat,
    failedHospitals: nat,
    batchActivated: bool,
    hospitals: seq<ProcessingResult>)

  /** What the submission path returns and caches. */
  datatype SubmitResponse = SubmitResponse(jobId: string, status: JobStatus, message: string, totalHospitals: nat)

  const AcceptedMessage: string := "Job accepted and queued for processing. Use the job_id to check status."

  /** The PENDING response of a newly queued job, which is also what gets cached. */
  function Accepted(jobId: string, total: nat): SubmitResponse {
    SubmitResponse(jobId, Pending, AcceptedMessage, total)
  }

  /** Summary row of the job listing. */
  datatype JobSummary = JobSummary(
    jobId: string,
    status: JobStatus,
    totalHospitals: nat,
    processedHospitals: nat,
    failedHospitals: nat,
    progressPercentage: real,
    startedAt: Option<nat>,
    completedAt: Option<nat>)

  /** What get_job_status returns (processing time is not modelled). */
  datatype JobStatusResponse = JobStatusResponse(
    jobId: string,
    status: JobStatus,
    totalHospitals: nat,
    processedHospitals: nat,
    failedHospitals: nat,
    progressPercentage: real,
    message: string,
    startedAt: Option<nat>,
    completedAt: Option<nat>,
    result: Option<BulkResponse>,
    error: Option<string>)

  /** What get_all_jobs returns. */
  datatype JobListResponse = JobListResponse(totalJobs: nat, jobs: seq<JobSummary>)

  // Configuration defaults.
  const MaxCsvRows: int := 20
  const MaxFileSizeMb: nat := 5
  const IdempotencyCacheTtl: nat := 300

  /** Progress of a job in percent; zero when there is nothing to process.
      Rounding to two decimals is not modelled. */
  function ProgressPercentage(processed: nat, total: nat): (r: real)
    ensures total == 0 ==> r == 0.0
    ensures total > 0 ==> r * (total as real) == (processed as real) * 100.0
    ensures processed <= total ==> 0.0 <= r <= 100.0
  {
    if total == 0 then 0.0 else (processed as real / total as real) * 100.0
  }

  /** A second write to the same key of a store replaces the first. */
  lemma UpdateTwice<K, V>(m: map<K, V>, k: K, a: V, b: V)
    ensures m[k := a][k := b] == m[k := b]
  {
  }
}
