/** The original in-process job manager: mutable Job objects held in a
    dictionary, a bounded buffer of recent progress updates, eviction of the
    oldest finished jobs beyond a capacity, and per-status statistics. Each
    Job's fields are collected into a JobState value so that its transitions
    are stated as functions. */
module LegacyJobManager {
  import opened Domain
  import StatusMessages

  /** One entry of the recent-updates buffer ("success" or "failed"). */
  datatype ProgressUpdate = ProgressUpdate(hospitalName: string, success: bool, timestamp: nat)

  /** The deque's maxlen. */
  const RecentUpdatesLimit: nat := 10
  const DefaultMaxJobs: nat := 1000
  const DefaultJobTtlSeconds: nat := 3600

  /** All fields of a Job at one moment. `startedAt` is both `started_at` and
      `start_time`, which read the same clock at construction. */
  datatype JobState = JobState(
    status: JobStatus,
    totalHospitals: nat,
    processedHospitals: nat,
    failedHospitals: nat,
    startedAt: nat,
    completedAt: Option<nat>,
    currentHospital: Option<string>,
    recentUpdates: seq<ProgressUpdate>,
    result: Option<BulkResponse>,
    error: Option<string>)

  function NewState(total: nat, now: nat): (s: JobState)
    ensures s.status == Pending && s.totalHospitals == total && s.startedAt == now
    ensures s.processedHospitals == 0 && s.failedHospitals == 0
    ensures s.completedAt == None && s.currentHospital == None && s.recentUpdates == []
    ensures s.result == None && s.error == None
  {
    JobState(Pending, total, 0, 0, now, None, None, [], None, None)
  }

  /** A deque with maxlen 10 after appends: the last ten elements, in order. */
  function KeepRecent(s: seq<ProgressUpdate>): (r: seq<ProgressUpdate>)
    ensures |r| == if |s| <= RecentUpdatesLimit then |s| else RecentUpdatesLimit
    ensures r == s[|s| - |r|..]
  {
    if |s| <= RecentUpdatesLimit then s else s[|s| - RecentUpdatesLimit..]
  }

  /** Appending to the bounded buffer is the same as appending to the full
      history and keeping its last ten. */
  lemma KeepRecentAppend(s: seq<ProgressUpdate>, u: ProgressUpdate)
    ensures KeepRecent(KeepRecent(s) + [u]) == KeepRecent(s + [u])
  {
    var k := KeepRecent(s);
    assert (s + [u])[|s + [u]| - |KeepRecent(k + [u])|..] == (k + [u])[|k + [u]| - |KeepRecent(k + [u])|..];
  }

  /** update_progress: processed always grows by one, failed exactly when
      the record did not succeed, the name becomes current, and the update is
      appended to the bounded buffer. */
  function WithProgress(s: JobState, u: ProgressUpdate): (s': JobState)
    ensures s'.processedHospitals == s.processedHospitals + 1
    ensures s'.failedHospitals == s.failedHospitals + (if u.success then 0 else 1)
    ensures s'.currentHospital == Some(u.hospitalName)
    ensures s'.recentUpdates == KeepRecent(s.recentUpdates + [u])
    ensures s'.status == s.status && s'.completedAt == s.completedAt && s'.result == s.result && s'.error == s.error
  {
    s.(processedHospitals := s.processedHospitals + 1,
       failedHospitals := s.failedHospitals + (if u.success then 0 else 1),
       currentHospital := Some(u.hospitalName),
       recentUpdates := KeepRecent(s.recentUpdates + [u]))
  }

  /** A run of update_progress calls, in order. */
  function ApplyProgress(s: JobState, us: seq<ProgressUpdate>): JobState
    decreases |us|
  {
    if us == [] then s else WithProgress(ApplyProgress(s, us[..|us| - 1]), us[|us| - 1])
  }

  function FailureCount(us: seq<ProgressUpdate>): (n: nat)
    ensures n <= |us|
    decreases |us|
  {
    if us == [] then 0 else FailureCount(us[..|us| - 1]) + (if us[|us| - 1].success then 0 else 1)
  }

  lemma FailureCountSnoc(us: seq<ProgressUpdate>, u: ProgressUpdate)
    ensures FailureCount(us + [u]) == FailureCount(us) + (if u.success then 0 else 1)
  {
    assert (us + [u])[..|us|] == us;
  }

  /** Any run of updates adds its length to processed and its failures to
      failed, so failed <= processed is kept; status, completion time,
      result and error are untouched. */
  lemma {:induction false} ApplyProgressCounts(s: JobState, us: seq<ProgressUpdate>)
    ensures var s' := ApplyProgress(s, us);
      && s'.processedHospitals == s.processedHospitals + |us|
      && s'.failedHospitals == s.failedHospitals + FailureCount(us)
      && (s.failedHospitals <= s.processedHospitals ==> s'.failedHospitals <= s'.processedHospitals)
      && s'.status == s.status && s'.completedAt == s.completedAt && s'.result == s.result && s'.error == s.error
    decreases |us|
  {
    if us != [] {
      ApplyProgressCounts(s, us[..|us| - 1]);
    }
  }

  /** The buffer after a run of updates holds the last ten of the whole
      history, and the last name becomes current. */
  lemma {:induction false} ApplyProgressBuffer(s: JobState, us: seq<ProgressUpdate>)
    requires |s.recentUpdates| <= RecentUpdatesLimit
    ensures ApplyProgress(s, us).recentUpdates == KeepRecent(s.recentUpdates + us)
    ensures us != [] ==> ApplyProgress(s, us).currentHospital == Some(us[|us| - 1].hospitalName)
    decreases |us|
  {
    var k := s.recentUpdates;
    if us == [] {
      assert k + us == k;
    } else {
      ApplyProgressBuffer(s, us[..|us| - 1]);
      BufferStep(k, us, ApplyProgress(s, us[..|us| - 1]));
    }
  }

  /** The last update on top of a buffer that holds the last ten of `k`
      and the earlier updates. */
  lemma BufferStep(k: seq<ProgressUpdate>, us: seq<ProgressUpdate>, before: JobState)
    requires us != [] && before.recentUpdates == KeepRecent(k + us[..|us| - 1])
    ensures WithProgress(before, us[|us| - 1]).recentUpdates == KeepRecent(k + us)
  {
    var init, u := us[..|us| - 1], us[|us| - 1];
    KeepRecentAppend(k + init, u);
    assert init + [u] == us;
    assert (k + init) + [u] == k + us;
  }

  /** From a new job, the buffer is exactly the last ten updates. */
  lemma NewJobProgress(total: nat, now: nat, us: seq<ProgressUpdate>)
    ensures var s := ApplyProgress(NewState(total, now), us);
      s.recentUpdates == KeepRecent(us) && s.processedHospitals == |us|
      && s.failedHospitals == FailureCount(us) <= s.processedHospitals
  {
    var s0 := NewState(total, now);
    ApplyProgressCounts(s0, us);
    ApplyProgressBuffer(s0, us);
    assert s0.recentUpdates + us == us;
  }

  /** update_job_status: completed_at stamped only for COMPLETED/FAILED. */
  function WithStatus(s: JobState, status: JobStatus, now: nat): (s': JobState)
    ensures s'.status == status
    ensures s'.completedAt == (if IsTerminal(status) then Some(now) else s.completedAt)
    ensures s' == s.(status := status, completedAt := s'.completedAt)
  {
    s.(status := status, completedAt := if IsTerminal(status) then Some(now) else s.completedAt)
  }

  /** set_job_error: the error, FAILED and completed_at. */
  function WithError(s: JobState, error: string, now: nat): (s': JobState)
    ensures s'.status == Failed && s'.error == Some(error) && s'.completedAt == Some(now)
    ensures s' == s.(status := Failed, error := Some(error), completedAt := Some(now))
  {
    s.(error := Some(error), status := Failed, completedAt := Some(now))
  }

  /** The remaining-time estimate: None unless PROCESSING with progress; the
      average time per processed hospital times the hospitals left, floored
      at zero. Rounding is not modelled. */
  function EstimatedTimeRemaining(s: JobState, now: nat): (r: Option<real>)
    ensures r.Some? <==> s.status == Processing && s.processedHospitals > 0
    ensures r.Some? ==> r.value >= 0.0
    ensures r.Some? && now >= s.startedAt && s.processedHospitals >= s.totalHospitals ==> r.value == 0.0
  {
    if s.processedHospitals == 0 || s.status != Processing then None
    else
      var elapsed := now as real - s.startedAt as real;
      var average := elapsed / s.processedHospitals as real;
      var remaining := s.totalHospitals as real - s.processedHospitals as real;
      var estimated := average * remaining;
      assert now >= s.startedAt && s.processedHospitals >= s.totalHospitals ==> estimated <= 0.0 by {
        if now >= s.startedAt && s.processedHospitals >= s.totalHospitals {
          NonNegTimesNonPos(average, remaining);
        }
      }
      if estimated > 0.0 then Some(estimated) else Some(0.0)
  }

  lemma NonNegTimesNonPos(a: real, b: real)
    requires a >= 0.0 && b <= 0.0
    ensures a * b <= 0.0
  {
  }

  class Job {
    const jobId: string
    var status: JobStatus
    var totalHospitals: nat
    var processedHospitals: nat
    var failedHospitals: nat
    var startedAt: nat
    var completedAt: Option<nat>
    var currentHospital: Option<string>
    var recentUpdates: seq<ProgressUpdate>
    var result: Option<BulkResponse>
    var error: Option<string>

    function State(): JobState
      reads this
    {
      JobState(status, totalHospitals, processedHospitals, failedHospitals, startedAt, completedAt,
               currentHospital, recentUpdates, result, error)
    }

    /** The recent-updates buffer never holds more than its maxlen. */
    ghost predicate Valid()
      reads this
    {
      |recentUpdates| <= RecentUpdatesLimit
    }

    constructor (jobId: string, total: nat, now: nat)
      ensures this.jobId == jobId && State() == NewState(total, now) && Valid()
    {
      this.jobId := jobId;
      status := Pending;
      totalHospitals := total;
      processedHospitals := 0;
      failedHospitals := 0;
      startedAt := now;
      completedAt := None;
      currentHospital := None;
      recentUpdates := [];
      result := None;
      error := None;
    }

    function ProgressPercentage(): (r: real)
      reads this
      ensures totalHospitals == 0 ==> r == 0.0
      ensures totalHospitals > 0 ==> r * (totalHospitals as real) == (processedHospitals as real) * 100.0
      ensures processedHospitals <= totalHospitals ==> 0.0 <= r <= 100.0
    {
      Domain.ProgressPercentage(processedHospitals, totalHospitals)
    }

    function StatusMessage(): string
      reads this
    {
      StatusMessages.StatusMessage(status, processedHospitals, totalHospitals, failedHospitals, error)
    }

    /** `update_progress` at time `now`. */
    method UpdateProgress(hospitalName: string, success: bool, now: nat)
      modifies this
      ensures State() == WithProgress(old(State()), ProgressUpdate(hospitalName, success, now))
      ensures Valid()
    {
      processedHospitals := processedHospitals + 1;
      if !success {
        failedHospitals := failedHospitals + 1;
      }
      currentHospital := Some(hospitalName);
      recentUpdates := KeepRecent(recentUpdates + [ProgressUpdate(hospitalName, success, now)]);
    }
  }

  /** The per-status counts of get_stats. */
  datatype JobStats = JobStats(total: nat, pending: nat, processing: nat, completed: nat, failed: nat)

  function WithStatusIn(m: map<string, JobState>, s: JobStatus): set<string> {
    set k | k in m && m[k].status == s
  }

  function StatsOf(m: map<string, JobState>): (r: JobStats)
    ensures r.pending + r.processing + r.completed + r.failed == r.total == |m|
  {
    StatusPartition(m);
    JobStats(|m|, |WithStatusIn(m, Pending)|, |WithStatusIn(m, Processing)|,
             |WithStatusIn(m, Completed)|, |WithStatusIn(m, Failed)|)
  }

  /** Every job is in exactly one status. */
  lemma StatusPartition(m: map<string, JobState>)
    ensures |WithStatusIn(m, Pending)| + |WithStatusIn(m, Processing)|
      + |WithStatusIn(m, Completed)| + |WithStatusIn(m, Failed)| == |m|
  {
    var p, q, c, f := WithStatusIn(m, Pending), WithStatusIn(m, Processing), WithStatusIn(m, Completed), WithStatusIn(m, Failed);
    forall k | k in m
      ensures k in p + q + c + f
    {
      match m[k].status
      case Pending => assert k in p;
      case Processing => assert k in q;
      case Completed => assert k in c;
      case Failed => assert k in f;
    }
    assert m.Keys == p + q + c + f;
    DisjointCard(p, q);
    DisjointCard(p + q, c);
    DisjointCard(p + q + c, f);
  }

  lemma DisjointCard(a: set<string>, b: set<string>)
    requires a !! b
    ensures |a + b| == |a| + |b|
  {
  }

  /** The jobs eligible for eviction, finished and with a completion time,
      mapped to that time. */
  function CompletionTimes(m: map<string, JobState>): (t: map<string, nat>)
    ensures forall k :: k in t <==> k in m && IsTerminal(m[k].status) && m[k].completedAt.Some?
    ensures forall k :: k in t ==> t[k] == m[k].completedAt.value
  {
    map k | k in m && IsTerminal(m[k].status) && m[k].completedAt.Some? :: m[k].completedAt.value
  }

  /** No kept candidate finished before an evicted one. */
  predicate OldestFirst(t: map<string, nat>, removed: set<string>)
    requires removed <= t.Keys
  {
    forall r, c :: r in removed && c in t && c !in removed ==> t[r] <= t[c]
  }

  /** What the cleanup promises over capacity: the evicted ids are
      candidates, as many as the excess or as there are candidates,
      whichever is fewer, and no kept candidate finished before an evicted
      one. */
  predicate EvictedOldest(stored: set<string>, kept: set<string>, candidates: map<string, nat>, excess: int) {
    var removed := stored - kept;
    && removed <= candidates.Keys
    && |removed| == Min(excess, |candidates|)
    && OldestFirst(candidates, removed)
  }

  /** An oldest candidate of a non-empty set of candidates. */
  ghost function OldestOf(t: map<string, nat>, s: set<string>): (k: string)
    requires s != {} && s <= t.Keys
    ensures k in s && forall c :: c in s ==> t[k] <= t[c]
    decreases |s|
  {
    var x :| x in s;
    if s == {x} then x
    else
      var y := OldestOf(t, s - {x});
      if t[x] <= t[y] then x else y
  }

  function Min(a: int, b: int): int {
    if a <= b then a else b
  }

  function ElementsOf(s: seq<string>): set<string> {
    set x | x in s
  }

  /** The loop's invariant: `oldest` holds distinct candidates in completion
      order, and none of the remaining ones finished before any of them. */
  ghost predicate PickedOldest(t: map<string, nat>, oldest: seq<string>, candidates: set<string>) {
    && (forall i :: 0 <= i < |oldest| ==> oldest[i] in t)
    && candidates == t.Keys - ElementsOf(oldest)
    && |ElementsOf(oldest)| == |oldest|
    && (forall i, j :: 0 <= i < j < |oldest| ==> t[oldest[i]] <= t[oldest[j]])
    && (forall i, c :: 0 <= i < |oldest| && c in candidates ==> t[oldest[i]] <= t[c])
  }

  lemma PickedNone(t: map<string, nat>)
    ensures PickedOldest(t, [], t.Keys)
  {
    assert ElementsOf([]) == {};
  }

  lemma ElementsOfSnoc(s: seq<string>, x: string)
    ensures ElementsOf(s + [x]) == ElementsOf(s) + {x}
  {
    assert forall y :: y in s + [x] <==> y in s || y == x;
  }

  /** Picking an oldest remaining candidate keeps the invariant. */
  lemma PickStep(t: map<string, nat>, oldest: seq<string>, candidates: set<string>, k: string)
    requires PickedOldest(t, oldest, candidates)
    requires k in candidates && forall c :: c in candidates ==> t[k] <= t[c]
    ensures PickedOldest(t, oldest + [k], candidates - {k})
  {
    var next := oldest + [k];
    var rest := candidates - {k};
    ElementsOfSnoc(oldest, k);
    assert k !in ElementsOf(oldest);
    assert |ElementsOf(next)| == |next|;
    assert rest == t.Keys - ElementsOf(next);
    forall i | 0 <= i < |next|
      ensures next[i] in t && t[next[i]] <= t[k]
    {
      if i < |oldest| {
        assert next[i] == oldest[i];
      }
    }
    forall i, j | 0 <= i < j < |next|
      ensures t[next[i]] <= t[next[j]]
    {
      if j < |oldest| {
        assert next[i] == oldest[i] && next[j] == oldest[j];
      }
    }
    forall i, c | 0 <= i < |next| && c in rest
      ensures t[next[i]] <= t[c]
    {
    }
  }

  lemma PickedRemaining(t: map<string, nat>, oldest: seq<string>, candidates: set<string>)
    requires PickedOldest(t, oldest, candidates)
    ensures ElementsOf(oldest) <= t.Keys
    ensures |candidates| == |t| - |oldest|
  {
    assert ElementsOf(oldest) <= t.Keys;
  }

  lemma PickedDone(t: map<string, nat>, oldest: seq<string>, candidates: set<string>)
    requires PickedOldest(t, oldest, candidates)
    ensures ElementsOf(oldest) <= t.Keys && OldestFirst(t, ElementsOf(oldest))
  {
    PickedRemaining(t, oldest, candidates);
    forall r, c | r in ElementsOf(oldest) && c in t && c !in ElementsOf(oldest)
      ensures t[r] <= t[c]
    {
      var i :| 0 <= i < |oldest| && oldest[i] == r;
      assert c in candidates;
    }
  }

  /** `min(..., key=...)` over the remaining candidates: any one of the
      oldest. */
  method PickOldest(t: map<string, nat>, candidates: set<string>) returns (k: string)
    requires candidates != {} && candidates <= t.Keys
    ensures k in candidates && forall c :: c in candidates ==> t[k] <= t[c]
  {
    ghost var w := OldestOf(t, candidates);
    k :| k in candidates && forall c :: c in candidates ==> t[k] <= t[c];
  }

  /** The candidates sorted by completion time, oldest first, cut to the
      first `excess` of them (all of them when there are fewer). */
  method OldestFinished(t: map<string, nat>, excess: nat) returns (oldest: seq<string>)
    ensures forall i :: 0 <= i < |oldest| ==> oldest[i] in t
    ensures ElementsOf(oldest) <= t.Keys
    ensures |oldest| == |ElementsOf(oldest)| == Min(excess, |t|)
    ensures forall i, j :: 0 <= i < j < |oldest| ==> t[oldest[i]] <= t[oldest[j]]
    ensures OldestFirst(t, ElementsOf(oldest))
  {
    var candidates := t.Keys;
    oldest := [];
    var count := Min(excess, |candidates|);
    PickedNone(t);
    while |oldest| < count
      invariant count == Min(excess, |t|) && |oldest| <= count
      invariant PickedOldest(t, oldest, candidates)
      decreases count - |oldest|
    {
      PickedRemaining(t, oldest, candidates);
      var k := PickOldest(t, candidates);
      PickStep(t, oldest, candidates, k);
      oldest := oldest + [k];
      candidates := candidates - {k};
    }
    PickedDone(t, oldest, candidates);
  }

  class JobManager {
    var jobs: map<string, Job>
    const maxJobs: nat
    const jobTtlSeconds: nat

    /** Each job is stored under its own id, so distinct keys hold distinct
        objects, and every job's buffer is within its bound. */
    ghost predicate Valid()
      reads this, jobs.Values
    {
      forall k :: k in jobs ==> jobs[k].jobId == k && jobs[k].Valid()
    }

    function States(): (m: map<string, JobState>)
      reads this, jobs.Values
      ensures m.Keys == jobs.Keys
    {
      map k | k in jobs :: jobs[k].State()
    }

    constructor (maxJobs: nat, jobTtlSeconds: nat)
      ensures this.maxJobs == maxJobs && this.jobTtlSeconds == jobTtlSeconds && jobs == map[] && Valid()
    {
      this.maxJobs := maxJobs;
      this.jobTtlSeconds := jobTtlSeconds;
      jobs := map[];
    }

    constructor Default()
      ensures maxJobs == DefaultMaxJobs && jobTtlSeconds == DefaultJobTtlSeconds && jobs == map[] && Valid()
    {
      maxJobs := DefaultMaxJobs;
      jobTtlSeconds := DefaultJobTtlSeconds;
      jobs := map[];
    }

    /** `_cleanup_old_jobs`: within capacity nothing happens; otherwise the
        oldest finished jobs are deleted, as many as the excess or as there
        are candidates, whichever is fewer. Job objects are not touched. */
    method CleanupOldJobs()
      requires Valid()
      modifies this
      ensures Valid()
      ensures jobs.Keys <= old(jobs).Keys && forall k :: k in jobs ==> jobs[k] == old(jobs)[k]
      ensures |old(jobs)| <= maxJobs ==> jobs == old(jobs)
      ensures |old(jobs)| > maxJobs ==>
        EvictedOldest(old(jobs).Keys, jobs.Keys, CompletionTimes(old(States())), |old(jobs)| - maxJobs)
    {
      if |jobs| <= maxJobs {
        return;
      }
      var m := States();
      var oldest := OldestFinished(CompletionTimes(m), |jobs| - maxJobs);
      DeleteAll(oldest);
    }

    /** The deletion loop of `_cleanup_old_jobs`. */
    method DeleteAll(ids: seq<string>)
      modifies this
      ensures jobs.Keys == old(jobs).Keys - ElementsOf(ids)
      ensures forall k :: k in jobs ==> jobs[k] == old(jobs)[k]
    {
      var i := 0;
      while i < |ids|
        invariant 0 <= i <= |ids|
        invariant jobs.Keys == old(jobs).Keys - ElementsOf(ids[..i])
        invariant forall k :: k in jobs ==> jobs[k] == old(jobs)[k]
      {
        assert ElementsOf(ids[..i + 1]) == ElementsOf(ids[..i]) + {ids[i]};
        jobs := jobs - {ids[i]};
        i := i + 1;
      }
      assert ids[..|ids|] == ids;
    }

    /** `create_job` with the given fresh id: a new PENDING job is stored,
        then the cleanup runs; the new job is never evicted. */
    method CreateJob(jobId: string, total: nat, now: nat) returns (job: Job)
      requires Valid()
      modifies this
      ensures Valid() && fresh(job)
      ensures job.jobId == jobId && job.State() == NewState(total, now)
      ensures jobId in jobs && jobs[jobId] == job
      ensures jobs.Keys <= old(jobs).Keys + {jobId}
      ensures forall k :: k in jobs && k != jobId ==> jobs[k] == old(jobs)[k]
      ensures |old(jobs)[jobId := job]| <= maxJobs ==> jobs == old(jobs)[jobId := job]
    {
      job := new Job(jobId, total, now);
      jobs := jobs[jobId := job];
      ghost var m := States();
      assert m[jobId].status == Pending;
      CleanupOldJobs();
    }

    method GetJob(jobId: string) returns (job: Option<Job>)
      ensures job.None? <==> jobId !in jobs
      ensures job.Some? ==> job.value == jobs[jobId]
    {
      job := if jobId in jobs then Some(jobs[jobId]) else None;
    }

    /** `update_job_status`; an unknown id is ignored. */
    method UpdateJobStatus(jobId: string, status: JobStatus, now: nat)
      requires Valid()
      modifies if jobId in jobs then {jobs[jobId]} else {}
      ensures Valid() && jobs == old(jobs)
      ensures jobId in jobs ==> jobs[jobId].State() == WithStatus(old(jobs[jobId].State()), status, now)
    {
      if jobId in jobs {
        var job := jobs[jobId];
        job.status := status;
        if IsTerminal(status) {
          job.completedAt := Some(now);
        }
      }
    }

    /** `update_job_progress`; an unknown id is ignored. */
    method UpdateJobProgress(jobId: string, hospitalName: string, success: bool, now: nat)
      requires Valid()
      modifies if jobId in jobs then {jobs[jobId]} else {}
      ensures Valid() && jobs == old(jobs)
      ensures jobId in jobs ==>
        jobs[jobId].State() == WithProgress(old(jobs[jobId].State()), ProgressUpdate(hospitalName, success, now))
    {
      if jobId in jobs {
        jobs[jobId].UpdateProgress(hospitalName, success, now);
      }
    }

    /** `set_job_result`; an unknown id is ignored. */
    method SetJobResult(jobId: string, result: BulkResponse)
      requires Valid()
      modifies if jobId in jobs then {jobs[jobId]} else {}
      ensures Valid() && jobs == old(jobs)
      ensures jobId in jobs ==> jobs[jobId].State() == old(jobs[jobId].State()).(result := Some(result))
    {
      if jobId in jobs {
        jobs[jobId].result := Some(result);
      }
    }

    /** `set_job_error`; an unknown id is ignored. */
    method SetJobError(jobId: string, error: string, now: nat)
      requires Valid()
      modifies if jobId in jobs then {jobs[jobId]} else {}
      ensures Valid() && jobs == old(jobs)
      ensures jobId in jobs ==> jobs[jobId].State() == WithError(old(jobs[jobId].State()), error, now)
    {
      if jobId in jobs {
        var job := jobs[jobId];
        job.error := Some(error);
        job.status := Failed;
        job.completedAt := Some(now);
      }
    }

    function GetStats(): (r: JobStats)
      reads this, jobs.Values
      ensures r == StatsOf(States())
      ensures r.pending + r.processing + r.completed + r.failed == r.total == |jobs|
    {
      StatsOf(States())
    }

    function ActiveJobsCount(): (n: nat)
      reads this, jobs.Values
      ensures n == GetStats().processing
    {
      |WithStatusIn(States(), Processing)|
    }
  }
}
