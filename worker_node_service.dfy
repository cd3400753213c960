/**
 * The worker runtime: the table of jobs a worker node is executing, its aggregate
 * status, admission of newly delivered jobs, and the life of one execution: the
 * job is marked started, follows the processor's progress reports, is classified
 * by the processor's outcome, and leaves the table when the execution ends.
 *
 * Executions run concurrently in the system; here each one is a single sequential
 * call, and what the processor does is supplied as an Execution value.
 */
module WorkerRuntime {
  import opened Domain
  import JobProcessing

  /** How one execution went, as seen by the runtime. */
  datatype Execution =
      /** The processor returned a result after emitting these progress reports. */
    | Returned(reports: seq<int>, result: JobProcessing.JobProcessResult)
      /** The processor threw, after emitting these progress reports. */
    | Threw(reports: seq<int>, message: string)
      /** Setting up the execution (scope and client resolution) threw before the processor ran. */
    | SetupFailed(message: string)

  /** The aggregate worker status a table of active jobs calls for. */
  function StatusFor(table: map<int, Job>): (s: WorkerStatus)
    ensures s == Busy <==> table != map[]
    ensures s == Idle <==> table == map[]
  {
    if |table| > 0 then Busy else Idle
  }

  /**
   * Admission of a delivered job into a table held to a concurrency limit: the
   * verdict and the table afterwards.
   */
  function Admit(table: map<int, Job>, limit: int, job: Job): (r: (bool, map<int, Job>))
    ensures r.0 ==> job.id !in table && r.1.Keys == table.Keys + {job.id}
    ensures !r.0 ==> r.1 == table
  {
    if |table| >= limit then (false, table)
    else if job.id in table then (false, table)
    else (true, table[job.id := job])
  }

  /** A table that respects the concurrency limit (an empty table always does). */
  predicate WithinLimit(table: map<int, Job>, limit: int)
  {
    table == map[] || |table| <= limit
  }

  /** Admission accepts exactly a new id while there is room, and stores that job under it. */
  lemma AdmitAcceptsExactly(table: map<int, Job>, limit: int, job: Job)
    ensures Admit(table, limit, job).0 <==> |table| < limit && job.id !in table
    ensures Admit(table, limit, job).0 ==>
      && Admit(table, limit, job).1[job.id] == job
      && |Admit(table, limit, job).1| == |table| + 1
      && (forall id :: id in table ==> Admit(table, limit, job).1[id] == table[id])
  {
  }

  /** Admission never takes a table past the concurrency limit. */
  lemma AdmitKeepsLimit(table: map<int, Job>, limit: int, job: Job)
    requires WithinLimit(table, limit)
    ensures WithinLimit(Admit(table, limit, job).1, limit)
  {
    var r := Admit(table, limit, job);
    if r.0 {
      assert r.1.Keys == table.Keys + {job.id};
      assert |r.1.Keys| == |table.Keys| + 1;
    }
  }

  /** Delivering the same job twice leaves one entry: the second delivery is refused and changes nothing. */
  lemma RedeliveryIsRefused(table: map<int, Job>, limit: int, job: Job)
    ensures var once := Admit(table, limit, job).1;
      Admit(once, limit, job) == (false, once)
  {
    var r := Admit(table, limit, job);
    if r.0 {
      assert job.id in r.1;
    }
  }

  /** An admitted job that finishes leaves the table, and the status, as they were before it came. */
  lemma AdmitThenFinishRestores(table: map<int, Job>, limit: int, job: Job)
    requires Admit(table, limit, job).0
    ensures Admit(table, limit, job).1 - {job.id} == table
    ensures StatusFor(Admit(table, limit, job).1) == Busy
    ensures StatusFor(Admit(table, limit, job).1 - {job.id}) == StatusFor(table)
  {
    var after := Admit(table, limit, job).1;
    assert job.id in after;
    assert (after - {job.id}).Keys == table.Keys;
  }

  /** The progress value a run of reports leaves on the job: the last one, or 0 when there were none. */
  function LastProgress(reports: seq<int>): int
  {
    if reports == [] then 0 else reports[|reports| - 1]
  }

  /**
   * The job as one execution leaves it: started (InProgress, progress 0), then
   * following the progress reports, then classified by the outcome, with the end
   * time stamped.
   */
  function Processed(job: Job, run: Execution, now: Time): (j: Job)
    ensures j == job.(status := j.status, progress := j.progress,
                      errorMessage := j.errorMessage, endTime := Some(now))
    ensures run.Returned? ==>
      && (j.status == Completed <==> run.result.success)
      && (!run.result.success ==> j.status == Failed)
      && j.errorMessage == run.result.errorMessage
      && j.progress == LastProgress(run.reports)
    ensures !run.Returned? ==>
      && j.status == RetryOrFail(job)
      && j.errorMessage == Some(run.message)
    ensures run.Threw? ==> j.progress == LastProgress(run.reports)
    ensures run.SetupFailed? ==> j.progress == 0
  {
    match run
    case Returned(reports, result) =>
      job.(status := if result.success then Completed else Failed, progress := LastProgress(reports),
           errorMessage := result.errorMessage, endTime := Some(now))
    case Threw(reports, message) =>
      job.(status := RetryOrFail(job), progress := LastProgress(reports),
           errorMessage := Some(message), endTime := Some(now))
    case SetupFailed(message) =>
      job.(status := RetryOrFail(job), progress := 0,
           errorMessage := Some(message), endTime := Some(now))
  }

  /** A handler that runs to the end leaves its job Completed at full progress, with no error. */
  lemma FinishedHandlerCompletesJob(job: Job, now: Time)
    ensures var run := Returned(JobProcessing.Steps(JobProcessing.HandlerFor(job.jobType)),
                            JobProcessing.JobProcessResult(true, None));
      && Processed(job, run, now).status == Completed
      && Processed(job, run, now).progress == 100
      && Processed(job, run, now).errorMessage == None
  {
    JobProcessing.HandlerProgressIsComplete(JobProcessing.HandlerFor(job.jobType));
  }

  /** A failure never consumes retry budget: the retry count and limit are the job's own. */
  lemma ExecutionKeepsRetryBudget(job: Job, run: Execution, now: Time)
    ensures Processed(job, run, now).retryCount == job.retryCount
    ensures Processed(job, run, now).maxRetries == job.maxRetries
    ensures Processed(job, run, now).status in {Completed, Failed, Retrying}
    ensures Processed(job, run, now).status == Retrying ==> job.retryCount < job.maxRetries
  {
  }

  /** The failure path: Retrying or Failed by the retry budget, the message, the end time. */
  function HandleJobFailure(job: Job, message: string, now: Time): (j: Job)
    ensures j.status == Retrying <==> job.retryCount < job.maxRetries
    ensures j.status == Retrying || j.status == Failed
    ensures j == job.(status := j.status, errorMessage := Some(message), endTime := Some(now))
  {
    job.(status := if job.retryCount < job.maxRetries then Retrying else Failed,
         errorMessage := Some(message), endTime := Some(now))
  }

  /** Applies the processor's progress reports to the job one by one. */
  method FollowProgress(job: Job, reports: seq<int>) returns (j: Job)
    ensures j == job.(progress := if reports == [] then job.progress else LastProgress(reports))
  {
    j := job;
    for k := 0 to |reports|
      invariant j == job.(progress := if k == 0 then job.progress else reports[k - 1])
    {
      j := j.(progress := reports[k]);
    }
  }

  /** One execution of a job, from the start notification to the final classification. */
  method ProcessJob(job: Job, run: Execution, now: Time) returns (j: Job)
    ensures j == Processed(job, run, now)
  {
    j := job.(status := InProgress, progress := 0);
    match run {
      case SetupFailed(message) =>
        j := HandleJobFailure(j, message, now);
      case Returned(reports, result) =>
        j := FollowProgress(j, reports);
        j := j.(status := if result.success then Completed else Failed,
                errorMessage := result.errorMessage, endTime := Some(now));
      case Threw(reports, message) =>
        j := FollowProgress(j, reports);
        j := j.(status := if j.retryCount < j.maxRetries then Retrying else Failed,
                errorMessage := Some(message), endTime := Some(now));
    }
  }

  class WorkerNodeService {
    const concurrencyLimit: int
    var activeJobs: map<int, Job>
    var status: WorkerStatus

    /** The table respects the limit, keys each job by its id, and the status reflects it. */
    ghost predicate Valid()
      reads this
    {
      && WithinLimit(activeJobs, concurrencyLimit)
      && (forall id :: id in activeJobs ==> activeJobs[id].id == id)
      && status == StatusFor(activeJobs)
    }

    constructor (concurrencyLimit: int)
      ensures Valid()
      ensures this.concurrencyLimit == concurrencyLimit
      ensures activeJobs == map[] && status == Idle
    {
      this.concurrencyLimit := concurrencyLimit;
      activeJobs := map[];
      status := Idle;
    }

    /** Recomputes the aggregate status from the table. */
    method UpdateWorkerStatus()
      modifies this
      ensures activeJobs == old(activeJobs)
      ensures status == StatusFor(activeJobs)
    {
      var newStatus := if |activeJobs| > 0 then Busy else Idle;
      if newStatus != status {
        status := newStatus;
      }
    }

    /**
     * Admits a delivered job: refused when the table is full or already holds its
     * id; otherwise added, and the status recomputed.
     */
    method AcceptJob(job: Job) returns (accepted: bool)
      requires Valid()
      modifies this
      ensures Valid()
      ensures (accepted, activeJobs) == Admit(old(activeJobs), concurrencyLimit, job)
      ensures status == StatusFor(activeJobs)
      ensures !accepted ==> status == old(status)
    {
      if |activeJobs| >= concurrencyLimit {
        return false;
      }
      if job.id in activeJobs {
        return false;
      }
      AdmitKeepsLimit(activeJobs, concurrencyLimit, job);
      activeJobs := activeJobs[job.id := job];
      UpdateWorkerStatus();
      accepted := true;
    }

    /**
     * Runs one execution of a job and, however it ends, removes the job from the
     * table and recomputes the status.
     */
    method ExecuteJob(job: Job, run: Execution, now: Time) returns (finished: Job)
      requires Valid()
      modifies this
      ensures Valid()
      ensures finished == Processed(job, run, now)
      ensures activeJobs == old(activeJobs) - {job.id}
      ensures status == StatusFor(activeJobs)
    {
      finished := ProcessJob(job, run, now);
      activeJobs := activeJobs - {job.id};
      assert |activeJobs.Keys| <= |old(activeJobs).Keys| by {
        assert activeJobs.Keys <= old(activeJobs).Keys;
      }
      UpdateWorkerStatus();
    }
  }
}
