/** The current job service: submission with idempotency and fail-fast
    enqueueing, the status query, and the listing of all jobs. The
    idempotency store, the SQL repository and the broker queue are passed in
    as the three stores it acts on; the uuid of a new job, the outcome of
    publishing and every clock reading are parameters. */
module JobService {
  import opened Domain
  import opened SqlJobRepository
  import opened Queue
  import Idempotency
  import StatusMessages

  const QueueUnavailableError: string := "Message queue unavailable"
  const QueueFailurePrefix: string := "Failed to queue job: "
  const UnavailableDetail: string := "Service temporarily unavailable. Please try again later."
  const SubmitFailedDetail: string := "Failed to submit job for processing. Please try again later."

  /** An exception leaving submit_bulk_job: an HTTPException, or a store
      error propagated unchanged. */
  datatype SubmitError = HttpError(statusCode: nat, detail: string) | StoreError(cause: RepoError)

  datatype SubmitOutcome = Submitted(response: SubmitResponse) | Refused(error: SubmitError)

  /** The error stored on a job whose message could not be published. */
  function EnqueueErrorText(e: EnqueueOutcome): string
    requires !e.Enqueued?
  {
    if e.BrokerUnavailable? then QueueUnavailableError else QueueFailurePrefix + e.error
  }

  /** The HTTP error raised for a publish failure: 503 for an unreachable
      broker, 500 for anything else. */
  function EnqueueHttpError(e: EnqueueOutcome): (r: SubmitError)
    requires !e.Enqueued?
    ensures r.HttpError? && (r.statusCode == 503 <==> e.BrokerUnavailable?)
    ensures r.statusCode == 503 || r.statusCode == 500
  {
    if e.BrokerUnavailable? then HttpError(503, UnavailableDetail) else HttpError(500, SubmitFailedDetail)
  }

  /** The row of a job whose publish failed: update_status(FAILED) at one
      clock reading, then set_error at the next. */
  function FailedEnqueueRow(total: nat, e: EnqueueOutcome, statusNow: nat, errorNow: nat): (r: JobRow)
    requires !e.Enqueued?
    ensures r.status == Failed && r.error == Some(EnqueueErrorText(e))
    ensures r.totalHospitals == total && r.processedHospitals == 0 && r.failedHospitals == 0 && r.result == None
    ensures r.startedAt == Some(statusNow) && r.completedAt == Some(errorNow)
  {
    WithError(WithStatus(NewRow(total), Failed, statusNow), EnqueueErrorText(e), errorNow)
  }

  /** submit_bulk_job. A cache hit returns the cached response and touches
      neither the repository nor the queue. On a miss a PENDING job is
      created and published; only a successful publish caches the response,
      and a failed one marks the job FAILED and raises 503 or 500. The cache
      always undergoes the cleanup pass of its get. */
  method SubmitBulkJob(cache: Idempotency.IdempotencyStore<SubmitResponse>, repo: JobRepository, queue: TaskQueue,
                       hospitals: seq<HospitalRecord>, key: string, newJobId: string, enqueue: EnqueueOutcome,
                       cleanupNow: nat, checkNow: nat, statusNow: nat, errorNow: nat, setNow: nat)
    returns (outcome: SubmitOutcome)
    modifies cache, repo, queue
    ensures var hit := Idempotency.Lookup(old(cache.store), cache.ttl, key, cleanupNow, checkNow);
      hit.Some? ==>
        outcome == Submitted(hit.value)
        && repo.rows == old(repo.rows) && queue.pending == old(queue.pending)
        && cache.store == Idempotency.AfterGet(old(cache.store), cache.ttl, key, cleanupNow, checkNow)
    ensures var hit := Idempotency.Lookup(old(cache.store), cache.ttl, key, cleanupNow, checkNow);
      hit.None? && newJobId in old(repo.rows) ==>
        outcome == Refused(StoreError(IntegrityError(newJobId)))
        && repo.rows == old(repo.rows) && queue.pending == old(queue.pending)
        && cache.store == Idempotency.AfterGet(old(cache.store), cache.ttl, key, cleanupNow, checkNow)
    ensures var hit := Idempotency.Lookup(old(cache.store), cache.ttl, key, cleanupNow, checkNow);
      hit.None? && newJobId !in old(repo.rows) && enqueue.Enqueued? ==>
        outcome == Submitted(Accepted(newJobId, |hospitals|))
        && repo.rows == old(repo.rows)[newJobId := NewRow(|hospitals|)]
        && queue.pending == old(queue.pending) + [Message(newJobId, hospitals)]
        && cache.store == Idempotency.AfterGet(old(cache.store), cache.ttl, key, cleanupNow, checkNow)
                            [key := Idempotency.Entry(Accepted(newJobId, |hospitals|), setNow)]
    ensures var hit := Idempotency.Lookup(old(cache.store), cache.ttl, key, cleanupNow, checkNow);
      hit.None? && newJobId !in old(repo.rows) && !enqueue.Enqueued? ==>
        outcome == Refused(EnqueueHttpError(enqueue))
        && repo.rows == old(repo.rows)[newJobId := FailedEnqueueRow(|hospitals|, enqueue, statusNow, errorNow)]
        && queue.pending == old(queue.pending)
        && cache.store == Idempotency.AfterGet(old(cache.store), cache.ttl, key, cleanupNow, checkNow)
  {
    var cached := cache.Get(key, cleanupNow, checkNow);
    if cached.Some? {
      return Submitted(cached.value);
    }
    var job, err := repo.Create(newJobId, |hospitals|);
    if err.Some? {
      return Refused(StoreError(err.value));
    }
    queue.Delay(job.jobId, hospitals, enqueue);
    if !enqueue.Enqueued? {
      ghost var rows0 := repo.rows;
      var _ := repo.UpdateStatus(job.jobId, Failed, statusNow);
      assert repo.rows == rows0[newJobId := WithStatus(NewRow(|hospitals|), Failed, statusNow)];
      var _ := repo.SetError(job.jobId, EnqueueErrorText(enqueue), errorNow);
      return Refused(EnqueueHttpError(enqueue));
    }
    var response := Accepted(job.jobId, |hospitals|);
    cache.Set(key, response, setNow);
    outcome := Submitted(response);
  }

  /** A submission that was refused leaves its key a miss, so a retry with
      the same key creates a new job; a successful one is returned for that
      key by every get within the ttl. */
  lemma RetryAfterSubmission(m: map<string, Idempotency.Entry<SubmitResponse>>, ttl: nat, key: string,
                             cleanupNow: nat, checkNow: nat, response: SubmitResponse, setNow: nat,
                             retryCleanup: nat, retryCheck: nat)
    requires Idempotency.Lookup(m, ttl, key, cleanupNow, checkNow) == None
    ensures Idempotency.Lookup(Idempotency.AfterGet(m, ttl, key, cleanupNow, checkNow), ttl, key, retryCleanup, retryCheck) == None
    ensures retryCleanup - setNow <= ttl && retryCheck - setNow <= ttl ==>
      Idempotency.Lookup(Idempotency.AfterGet(m, ttl, key, cleanupNow, checkNow)[key := Idempotency.Entry(response, setNow)],
                         ttl, key, retryCleanup, retryCheck) == Some(response)
  {
    Idempotency.MissStaysMiss(m, ttl, key, cleanupNow, checkNow, retryCleanup, retryCheck);
    if retryCleanup - setNow <= ttl && retryCheck - setNow <= ttl {
      Idempotency.SetThenGet(Idempotency.AfterGet(m, ttl, key, cleanupNow, checkNow), ttl, key, response, setNow, retryCleanup, retryCheck);
    }
  }

  datatype StatusLookup = Found(response: JobStatusResponse) | NotFound(message: string)

  function NotFoundMessage(jobId: string): string {
    "Job with ID '" + jobId + "' not found"
  }

  /** get_job_status: JobNotFoundException for an unknown id; otherwise the
      row's fields, its progress and the message its status calls for. */
  method GetJobStatus(repo: JobRepository, jobId: string) returns (r: StatusLookup)
    ensures r.NotFound? <==> jobId !in repo.rows
    ensures r.NotFound? ==> r.message == NotFoundMessage(jobId)
    ensures r.Found? ==>
      var row := repo.rows[jobId];
      && r.response.jobId == jobId && r.response.status == row.status
      && r.response.totalHospitals == row.totalHospitals
      && r.response.processedHospitals == row.processedHospitals
      && r.response.failedHospitals == row.failedHospitals
      && r.response.progressPercentage == ProgressPercentage(row.processedHospitals, row.totalHospitals)
      && r.response.message == StatusMessages.StatusMessage(row.status, row.processedHospitals, row.totalHospitals, row.failedHospitals, row.error)
      && r.response.startedAt == row.startedAt && r.response.completedAt == row.completedAt
      && r.response.result == row.result && r.response.error == row.error
  {
    var found := repo.Get(jobId);
    if found.None? {
      return NotFound(NotFoundMessage(jobId));
    }
    var job := found.value;
    var message := StatusMessages.StatusMessage(job.row.status, job.row.processedHospitals, job.row.totalHospitals,
                                                job.row.failedHospitals, job.row.error);
    r := Found(JobStatusResponse(job.jobId, job.row.status, job.row.totalHospitals, job.row.processedHospitals,
                                 job.row.failedHospitals, job.ProgressPercentage(), message,
                                 job.row.startedAt, job.row.completedAt, job.row.result, job.row.error));
  }

  /** The sort key of the listing: the start time, with a job not yet
      started below every start time. */
  function SortKey(s: JobSummary): int {
    if s.startedAt.Some? then s.startedAt.value else -1
  }

  predicate SortedByStartDesc(s: seq<JobSummary>) {
    forall i, j :: 0 <= i < j < |s| ==> SortKey(s[i]) >= SortKey(s[j])
  }

  /** Insert `x` after every element whose key is at least its own, which
      keeps elements of equal key in the order they were inserted. */
  function Insert(s: seq<JobSummary>, x: JobSummary): (r: seq<JobSummary>)
    requires SortedByStartDesc(s)
    ensures SortedByStartDesc(r)
    ensures multiset(r) == multiset(s) + multiset{x}
    ensures |r| == |s| + 1
    ensures r[0] == x || (s != [] && r[0] == s[0])
  {
    if s == [] then [x]
    else if SortKey(x) > SortKey(s[0]) then [x] + s
    else
      var tail := Insert(s[1..], x);
      assert s == [s[0]] + s[1..];
      SortedCons(s[0], tail);
      [s[0]] + tail
  }

  /** A sorted sequence stays sorted under a head whose key is at least that
      of its first element. */
  lemma SortedCons(h: JobSummary, t: seq<JobSummary>)
    requires SortedByStartDesc(t)
    requires t != [] ==> SortKey(h) >= SortKey(t[0])
    ensures SortedByStartDesc([h] + t)
  {
    forall i, j | 0 <= i < j < |[h] + t|
      ensures SortKey(([h] + t)[i]) >= SortKey(([h] + t)[j])
    {
      if i == 0 && j > 1 {
        assert SortKey(t[0]) >= SortKey(t[j - 1]);
      }
    }
  }

  /** `job_summaries.sort(key=..., reverse=True)`: sorted by start time,
      most recent first, and a permutation of its input. */
  function SortByStartDesc(s: seq<JobSummary>): (r: seq<JobSummary>)
    ensures SortedByStartDesc(r)
    ensures multiset(r) == multiset(s) && |r| == |s|
  {
    if s == [] then []
    else
      assert s == s[..|s| - 1] + [s[|s| - 1]];
      Insert(SortByStartDesc(s[..|s| - 1]), s[|s| - 1])
  }

  /** The summary of one job, with its progress percentage. */
  function SummaryOf(job: Job): JobSummary {
    JobSummary(job.jobId, job.row.status, job.row.totalHospitals, job.row.processedHospitals, job.row.failedHospitals,
               job.ProgressPercentage(), job.row.startedAt, job.row.completedAt)
  }

  /** The loop's invariant: `order` lists the visited ids, each once, with
      their summaries in `summaries`; `keys` holds the ids still to visit. */
  ghost predicate Collected(all: map<string, Job>, keys: set<string>, order: seq<string>, summaries: seq<JobSummary>) {
    && keys <= all.Keys
    && |order| == |summaries| == |all.Keys| - |keys|
    && (forall i :: 0 <= i < |order| ==> order[i] in all && order[i] !in keys)
    && (forall i :: 0 <= i < |order| ==> summaries[i] == SummaryOf(all[order[i]]))
    && (forall k :: k in all && k !in keys ==> k in order)
  }

  lemma SummaryStep(all: map<string, Job>, keys: set<string>, order: seq<string>, summaries: seq<JobSummary>, k: string)
    requires Collected(all, keys, order, summaries) && k in keys
    ensures Collected(all, keys - {k}, order + [k], summaries + [SummaryOf(all[k])])
  {
    var order', summaries' := order + [k], summaries + [SummaryOf(all[k])];
    assert |all.Keys| - |keys - {k}| == |all.Keys| - |keys| + 1;
    assert forall i :: 0 <= i < |order| ==> order'[i] == order[i] && summaries'[i] == summaries[i];
    assert order'[|order|] == k;
  }

  /** The loop of get_all_jobs over the copy get_all returns: one summary
      per job. */
  method CollectSummaries(all: map<string, Job>) returns (summaries: seq<JobSummary>)
    requires forall k :: k in all ==> all[k].jobId == k
    ensures |summaries| == |all.Keys|
    ensures forall i :: 0 <= i < |summaries| ==>
      summaries[i].jobId in all && summaries[i] == SummaryOf(all[summaries[i].jobId])
    ensures forall k :: k in all ==> SummaryOf(all[k]) in summaries
  {
    summaries := [];
    var keys := all.Keys;
    ghost var order: seq<string> := [];
    while keys != {}
      invariant Collected(all, keys, order, summaries)
      decreases keys
    {
      var k :| k in keys;
      SummaryStep(all, keys, order, summaries, k);
      summaries := summaries + [SummaryOf(all[k])];
      order := order + [k];
      keys := keys - {k};
    }
    CollectedAll(all, order, summaries);
  }

  lemma CollectedAll(all: map<string, Job>, order: seq<string>, summaries: seq<JobSummary>)
    requires forall k :: k in all ==> all[k].jobId == k
    requires Collected(all, {}, order, summaries)
    ensures |summaries| == |all.Keys|
    ensures forall i :: 0 <= i < |summaries| ==>
      summaries[i].jobId in all && summaries[i] == SummaryOf(all[summaries[i].jobId])
    ensures forall k :: k in all ==> SummaryOf(all[k]) in summaries
  {
    forall i | 0 <= i < |summaries|
      ensures summaries[i].jobId == order[i]
    {
      assert summaries[i] == SummaryOf(all[order[i]]);
    }
    forall k | k in all
      ensures SummaryOf(all[k]) in summaries
    {
      var i :| 0 <= i < |order| && order[i] == k;
      assert summaries[i] == SummaryOf(all[k]);
    }
  }

  /** The listing facts survive the sort: it only reorders the summaries. */
  lemma SortedListing(rows: map<string, JobRow>, summaries: seq<JobSummary>, sorted: seq<JobSummary>)
    requires |summaries| == |rows| && multiset(sorted) == multiset(summaries) && |sorted| == |summaries|
    requires forall i :: 0 <= i < |summaries| ==>
      summaries[i].jobId in rows && summaries[i] == SummaryOf(Job(summaries[i].jobId, rows[summaries[i].jobId]))
    requires forall k :: k in rows ==> SummaryOf(Job(k, rows[k])) in summaries
    ensures forall i :: 0 <= i < |sorted| ==>
      sorted[i].jobId in rows && sorted[i] == SummaryOf(Job(sorted[i].jobId, rows[sorted[i].jobId]))
    ensures forall k :: k in rows ==> SummaryOf(Job(k, rows[k])) in sorted
    ensures forall i, j :: 0 <= i < j < |sorted| ==> sorted[i].jobId != sorted[j].jobId
  {
    forall i | 0 <= i < |sorted|
      ensures sorted[i] in summaries
    {
      assert sorted[i] in multiset(sorted);
    }
    forall k | k in rows
      ensures SummaryOf(Job(k, rows[k])) in sorted
    {
      assert SummaryOf(Job(k, rows[k])) in multiset(summaries);
    }
    var ids := seq(|sorted|, i requires 0 <= i < |sorted| => sorted[i].jobId);
    forall k | k in rows
      ensures k in ids
    {
      var i :| 0 <= i < |sorted| && sorted[i] == SummaryOf(Job(k, rows[k]));
      assert ids[i] == k;
    }
    assert forall i :: 0 <= i < |sorted| ==> ids[i] == sorted[i].jobId && ids[i] in rows;
    ExactCoverDistinct(ids, rows.Keys);
  }

  /** get_all_jobs: one summary per stored job, each job once, newest start
      first with the jobs not yet started last, and a total equal to the
      number of jobs. */
  method GetAllJobs(repo: JobRepository) returns (r: JobListResponse)
    ensures r.totalJobs == |r.jobs| == |repo.rows|
    ensures SortedByStartDesc(r.jobs)
    ensures forall i :: 0 <= i < |r.jobs| ==>
      r.jobs[i].jobId in repo.rows && r.jobs[i] == SummaryOf(Job(r.jobs[i].jobId, repo.rows[r.jobs[i].jobId]))
    ensures forall k :: k in repo.rows ==> SummaryOf(Job(k, repo.rows[k])) in r.jobs
    ensures forall i, j :: 0 <= i < j < |r.jobs| ==> r.jobs[i].jobId != r.jobs[j].jobId
    ensures forall i, j :: 0 <= i < j < |r.jobs| && r.jobs[i].startedAt.None? ==> r.jobs[j].startedAt.None?
  {
    var all := repo.GetAll();
    var summaries := CollectSummaries(all);
    var sorted := SortByStartDesc(summaries);
    assert |all.Keys| == |repo.rows.Keys|;
    SortedListing(repo.rows, summaries, sorted);
    r := JobListResponse(|sorted|, sorted);
  }

  /** A sequence that contains every element of a set is at least as long
      as the set. */
  lemma {:induction false} CoverBound(ids: seq<string>, keys: set<string>)
    requires forall k :: k in keys ==> k in ids
    ensures |keys| <= |ids|
  {
    if ids == [] {
      assert keys == {};
    } else {
      var n := |ids| - 1;
      var init := ids[..n];
      forall k | k in keys - {ids[n]}
        ensures k in init
      {
        var i :| 0 <= i < |ids| && ids[i] == k;
        assert init[i] == k;
      }
      CoverBound(init, keys - {ids[n]});
    }
  }

  /** A sequence drawn from a set, covering it, and exactly as long as it
      holds each element once. */
  lemma {:induction false} ExactCoverDistinct(ids: seq<string>, keys: set<string>)
    requires |ids| == |keys|
    requires forall i :: 0 <= i < |ids| ==> ids[i] in keys
    requires forall k :: k in keys ==> k in ids
    ensures forall i, j :: 0 <= i < j < |ids| ==> ids[i] != ids[j]
  {
    if ids != [] {
      var n := |ids| - 1;
      var x := ids[n];
      var init := ids[..n];
      if x in init {
        forall k | k in keys
          ensures k in init
        {
          if k != x {
            var i :| 0 <= i < |ids| && ids[i] == k;
            assert init[i] == k;
          }
        }
        CoverBound(init, keys);
        assert false;
      } else {
        forall k | k in keys - {x}
          ensures k in init
        {
          var i :| 0 <= i < |ids| && ids[i] == k;
          assert init[i] == k;
        }
        assert forall i :: 0 <= i < n ==> init[i] == ids[i] && init[i] in keys - {x};
        ExactCoverDistinct(init, keys - {x});
      }
    }
  }
}
