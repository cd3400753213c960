/**
 * The store-side job service: creating a job, and the status rules for a progress
 * update, a stop, a restart and a deletion. Each operation finds the job by its
 * primary key, changes its record and writes it back (or deletes it).
 */
module JobService {
  import opened Domain
  import opened Persistence
  import JobProcessing
  import JobQueueService

  /**
   * A new job as a creation request leaves it: a default record with the
   * requested name and priority, Pending, created now, under the id the store
   * assigns.
   */
  function NewJobFor(jobName: string, priority: JobPriority, id: int, now: Time): (j: Job)
    ensures j.status == Pending && j.id == id && j.createdTime == now
    ensures j.jobName == jobName && j.priority == priority
    ensures j == NewJob().(id := id, jobName := jobName, priority := priority, createdTime := now)
  {
    var j := NewJob().(jobName := jobName, priority := priority);
    var j := j.(status := Pending);
    j.(createdTime := now, id := id)
  }

  /**
   * Creates a job and adds it to the store. The id is the one the store's identity
   * column hands out, which no stored job carries yet.
   */
  method CreateJob(store: JobStore, jobName: string, priority: JobPriority, freshId: int, now: Time) returns (created: Job)
    requires forall k :: 0 <= k < |store.jobs| ==> store.jobs[k].id != freshId
    modifies store
    ensures store.workers == old(store.workers)
    ensures created == NewJobFor(jobName, priority, freshId, now)
    ensures store.jobs == old(store.jobs) + [created]
  {
    var job := NewJob();
    job := job.(jobName := jobName, priority := priority);
    job := job.(status := Pending);
    job := job.(createdTime := now);
    job := job.(id := freshId);
    store.jobs := store.jobs + [job];
    created := job;
  }

  /** A created job is found by its id, and the queue picks it up from its creation onwards. */
  lemma CreatedJobIsQueued(jobs: seq<Job>, jobName: string, priority: JobPriority, freshId: int, now: Time, later: Time)
    requires forall k :: 0 <= k < |jobs| ==> jobs[k].id != freshId
    ensures var added := jobs + [NewJobFor(jobName, priority, freshId, now)];
      FindJobById(added, freshId) == Some(|jobs|)
    ensures JobQueueService.IsEligibleJob(NewJobFor(jobName, priority, freshId, now), later)
  {
    var added := jobs + [NewJobFor(jobName, priority, freshId, now)];
    assert forall k :: 0 <= k < |jobs| ==> added[k].id != freshId;
    assert added[|jobs|].id == freshId;
  }

  /** A job after a progress report: that progress; Completed at exactly 100, InProgress otherwise. */
  function WithProgress(j: Job, progress: int): (u: Job)
    ensures u.progress == progress
    ensures u.status == Completed <==> progress == 100
    ensures u.status == Completed || u.status == InProgress
    ensures u == j.(progress := u.progress, status := u.status)
  {
    j.(progress := progress, status := if progress == 100 then Completed else InProgress)
  }

  /**
   * Records a job's progress: false and nothing changed for an unknown id;
   * otherwise the progress and the status it implies are written back.
   */
  method UpdateJobProgress(store: JobStore, id: int, progress: int) returns (updated: bool)
    modifies store
    ensures store.workers == old(store.workers)
    ensures updated <==> FindJobById(old(store.jobs), id).Some?
    ensures !updated ==> store.jobs == old(store.jobs)
    ensures updated ==> var r := FindJobById(old(store.jobs), id).value;
      store.jobs == old(store.jobs)[r := WithProgress(old(store.jobs)[r], progress)]
  {
    var found := FindJobById(store.jobs, id);
    if found.None? {
      return false;
    }
    var r := found.value;
    var job := store.jobs[r];
    job := job.(progress := progress);
    job := job.(status := if progress == 100 then Completed else InProgress);
    store.jobs := store.jobs[r := job];
    updated := true;
  }

  /** A job after a series of progress reports, applied in order. */
  function AfterReports(j: Job, reports: seq<int>): (u: Job)
    ensures reports == [] ==> u == j
    decreases |reports|
  {
    if reports == [] then j else AfterReports(WithProgress(j, reports[0]), reports[1..])
  }

  /** Only the last report of a non-empty series decides the job's progress and status. */
  lemma {:induction false} AfterReportsIsLast(j: Job, reports: seq<int>)
    requires reports != []
    ensures AfterReports(j, reports) == WithProgress(j, reports[|reports| - 1])
    decreases |reports|
  {
    if |reports| > 1 {
      AfterReportsIsLast(WithProgress(j, reports[0]), reports[1..]);
    }
  }

  /**
   * A handler that runs to the end drives its job, through the progress updates
   * it reports, to Completed at 100; every earlier report leaves the job InProgress.
   */
  lemma HandlerReportsCompleteJob(j: Job, h: JobProcessing.Handler)
    ensures var steps := JobProcessing.Steps(h);
      && AfterReports(j, steps).status == Completed
      && AfterReports(j, steps).progress == 100
      && forall k :: 0 <= k < |steps| - 1 ==> WithProgress(j, steps[k]).status == InProgress
  {
    var steps := JobProcessing.Steps(h);
    JobProcessing.HandlerProgressIsComplete(h);
    AfterReportsIsLast(j, steps);
    forall k | 0 <= k < |steps| - 1 ensures WithProgress(j, steps[k]).status == InProgress {
      assert steps[k] < steps[|steps| - 1];
    }
  }

  /** A stopped job: Failed, nothing else touched. */
  function Stopped(j: Job): (u: Job)
    ensures u.status == Failed && u == j.(status := Failed)
  {
    j.(status := Failed)
  }

  /**
   * Stops a job: only a job InProgress can be stopped, and it becomes Failed;
   * any other request answers false and leaves the store as it was.
   */
  method StopJob(store: JobStore, id: int) returns (stopped: bool)
    modifies store
    ensures store.workers == old(store.workers)
    ensures var found := FindJobById(old(store.jobs), id);
      stopped <==> found.Some? && old(store.jobs)[found.value].status == InProgress
    ensures !stopped ==> store.jobs == old(store.jobs)
    ensures stopped ==> var r := FindJobById(old(store.jobs), id).value;
      store.jobs == old(store.jobs)[r := Stopped(old(store.jobs)[r])]
  {
    var found := FindJobById(store.jobs, id);
    if found.None? || store.jobs[found.value].status != InProgress {
      return false;
    }
    var r := found.value;
    store.jobs := store.jobs[r := store.jobs[r].(status := Failed)];
    stopped := true;
  }

  /** A restarted job: Pending at progress 0, nothing else touched. */
  function Restarted(j: Job): (u: Job)
    ensures u.status == Pending && u.progress == 0
    ensures u == j.(status := Pending, progress := 0)
  {
    j.(status := Pending, progress := 0)
  }

  /**
   * Restarts a job: refused for an unknown id or a job InProgress; otherwise the
   * job goes back to Pending with its progress reset.
   */
  method RestartJob(store: JobStore, id: int) returns (restarted: bool)
    modifies store
    ensures store.workers == old(store.workers)
    ensures var found := FindJobById(old(store.jobs), id);
      restarted <==> found.Some? && old(store.jobs)[found.value].status != InProgress
    ensures !restarted ==> store.jobs == old(store.jobs)
    ensures restarted ==> var r := FindJobById(old(store.jobs), id).value;
      store.jobs == old(store.jobs)[r := Restarted(old(store.jobs)[r])]
  {
    var found := FindJobById(store.jobs, id);
    if found.None? || store.jobs[found.value].status == InProgress {
      return false;
    }
    var r := found.value;
    var job := store.jobs[r];
    job := job.(status := Pending);
    job := job.(progress := 0);
    store.jobs := store.jobs[r := job];
    restarted := true;
  }

  /**
   * Restarting twice is restarting once: the restarted job can be restarted again,
   * and that changes nothing. A restarted job is queued again unless it is
   * scheduled for later.
   */
  lemma RestartIsIdempotent(j: Job, now: Time)
    ensures Restarted(j).status != InProgress
    ensures Restarted(Restarted(j)) == Restarted(j)
    ensures JobQueueService.IsEligibleJob(Restarted(j), now) <==>
      j.scheduledTime.None? || j.scheduledTime.value <= now
  {
  }

  /** Stopping and restarting apply to disjoint states: a stopped job is restartable, never stoppable again. */
  lemma StopThenRestart(j: Job)
    requires j.status == InProgress
    ensures Stopped(j).status != InProgress
    ensures Restarted(Stopped(j)) == Restarted(j)
  {
  }

  /** The table without row r. */
  function Without(jobs: seq<Job>, r: nat): (rest: seq<Job>)
    requires r < |jobs|
    ensures |rest| == |jobs| - 1
    ensures forall k :: 0 <= k < r ==> rest[k] == jobs[k]
    ensures forall k :: r <= k < |rest| ==> rest[k] == jobs[k + 1]
  {
    jobs[..r] + jobs[r + 1..]
  }

  /** A job that may be deleted: it has finished, one way or the other. */
  predicate Finished(j: Job)
  {
    j.status == Completed || j.status == Failed
  }

  /**
   * Deletes a finished job: refused for an unknown id or a job that is not
   * Completed or Failed, which stays in the store; otherwise its row is removed.
   */
  method DeleteCompletedOrFailedJob(store: JobStore, id: int) returns (deleted: bool)
    modifies store
    ensures store.workers == old(store.workers)
    ensures var found := FindJobById(old(store.jobs), id);
      deleted <==> found.Some? && Finished(old(store.jobs)[found.value])
    ensures !deleted ==> store.jobs == old(store.jobs)
    ensures deleted ==> store.jobs == Without(old(store.jobs), FindJobById(old(store.jobs), id).value)
  {
    var found := FindJobById(store.jobs, id);
    if found.None? || (store.jobs[found.value].status != Completed && store.jobs[found.value].status != Failed) {
      return false;
    }
    store.jobs := store.jobs[..found.value] + store.jobs[found.value + 1..];
    deleted := true;
  }

  /** Deleting a row keeps every other job, and only a finished job's row is ever removed. */
  lemma DeleteKeepsOthers(jobs: seq<Job>, r: nat, k: nat)
    requires r < |jobs| && k < |jobs| && k != r
    ensures jobs[k] in Without(jobs, r)
  {
    if k < r {
      assert Without(jobs, r)[k] == jobs[k];
    } else {
      assert Without(jobs, r)[k - 1] == jobs[k];
    }
  }
}
