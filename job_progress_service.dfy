/**
 * The worker-facing job progress service: the endpoints a worker calls to report a
 * job's status and its progress. Both find the job by its primary key and write
 * the changed record back.
 */
module JobProgressService {
  import opened Domain
  import opened Persistence
  import JobService

  /** The answer to a progress report: the job's id, progress and status after the update. */
  datatype JobStatusDto = JobStatusDto(id: int, progress: int, status: JobStatus)

  /**
   * Sets a job's status: false and nothing changed for an unknown id; otherwise
   * exactly the status changes.
   */
  method UpdateJobStatus(store: JobStore, id: int, status: JobStatus) returns (updated: bool)
    modifies store
    ensures store.workers == old(store.workers)
    ensures updated <==> FindJobById(old(store.jobs), id).Some?
    ensures !updated ==> store.jobs == old(store.jobs)
    ensures updated ==> var r := FindJobById(old(store.jobs), id).value;
      store.jobs == old(store.jobs)[r := old(store.jobs)[r].(status := status)]
  {
    var found := FindJobById(store.jobs, id);
    if found.None? {
      return false;
    }
    var r := found.value;
    store.jobs := store.jobs[r := store.jobs[r].(status := status)];
    updated := true;
  }

  /** The answer a progress report gets for a job: its fields after the update. */
  function ProgressAnswer(j: Job, progress: int): (dto: JobStatusDto)
    ensures dto.id == j.id && dto.progress == progress
    ensures dto.status == Completed <==> progress == 100
    ensures dto.status == Completed || dto.status == InProgress
  {
    var u := JobService.WithProgress(j, progress);
    JobStatusDto(u.id, u.progress, u.status)
  }

  /**
   * Records a job's progress and answers with the updated job's id, progress and
   * status; none, and nothing changed, for an unknown id.
   */
  method UpdateJobProgress(store: JobStore, id: int, progress: int) returns (answer: Option<JobStatusDto>)
    modifies store
    ensures store.workers == old(store.workers)
    ensures answer.Some? <==> FindJobById(old(store.jobs), id).Some?
    ensures answer.None? ==> store.jobs == old(store.jobs)
    ensures answer.Some? ==> var r := FindJobById(old(store.jobs), id).value;
      && store.jobs == old(store.jobs)[r := JobService.WithProgress(old(store.jobs)[r], progress)]
      && answer.value == JobStatusDto(store.jobs[r].id, store.jobs[r].progress, store.jobs[r].status)
      && answer.value == ProgressAnswer(old(store.jobs)[r], progress)
  {
    var found := FindJobById(store.jobs, id);
    if found.None? {
      return None;
    }
    var r := found.value;
    var job := store.jobs[r];
    job := job.(progress := progress);
    job := job.(status := if progress == 100 then Completed else InProgress);
    store.jobs := store.jobs[r := job];
    answer := Some(JobStatusDto(job.id, job.progress, job.status));
  }
}
