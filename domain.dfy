/**
 * The entities of the job queue: jobs, worker nodes, their status enumerations,
 * and the defaults a freshly constructed record carries.
 *
 * Time is a natural number of seconds since the earliest representable instant,
 * so the earliest instant (the value a missing scheduled time is ordered as) is 0.
 */
module Domain {

  datatype Option<T> = None | Some(value: T)

  type Time = nat

  /** The earliest representable instant. */
  const MinTime: Time := 0

  /** The six job states the queue service and the worker runtime use. */
  datatype JobStatus = Pending | Scheduled | InProgress | Retrying | Completed | Failed

  /** Job priority; an ordered enumeration with Regular = 10 and High = 20. */
  datatype JobPriority = Regular | High

  function PriorityValue(p: JobPriority): (v: int)
    ensures v == 10 || v == 20
    ensures (v == 20) <==> p == High
  {
    match p
    case Regular => 10
    case High => 20
  }

  datatype WorkerStatus = Idle | Busy | Offline

  datatype AssignJobResult = Success | NotFound | Offline | AtCapacity

  datatype Job = Job(
    id: int,
    jobName: string,
    priority: JobPriority,
    status: JobStatus,
    scheduledTime: Option<Time>,
    startTime: Option<Time>,
    endTime: Option<Time>,
    progress: int,
    errorMessage: Option<string>,
    retryCount: int,
    maxRetries: int,
    assignedWorker: Option<string>,
    jobData: Option<string>,
    jobType: string,
    createdTime: Time)

  datatype WorkerNode = WorkerNode(
    id: string,
    name: string,
    status: WorkerStatus,
    lastHeartbeat: Time,
    currentJobId: int,
    concurrencyLimit: int,
    activeJobCount: int)

  /** A job record as its parameterless constructor leaves it. */
  function NewJob(): Job
  {
    Job(0, "", Regular, Pending, None, None, None, 0, None, 0, 3, None, None, "", MinTime)
  }

  /**
   * A worker record as its parameterless constructor leaves it: the identifier is a
   * freshly generated one and the heartbeat is the construction instant.
   */
  function NewWorkerNode(freshId: string, now: Time): WorkerNode
  {
    WorkerNode(freshId, "", Idle, now, 0, 1, 0)
  }

  /** Capacity a worker has left. */
  function Spare(w: WorkerNode): int
  {
    w.concurrencyLimit - w.activeJobCount
  }

  /** The worker-record invariant the design intends: 0 <= activeJobCount <= concurrencyLimit. */
  predicate WithinCapacity(w: WorkerNode)
  {
    0 <= w.activeJobCount <= w.concurrencyLimit
  }

  /** Status a failed execution is classified into, by the job's retry budget. */
  function RetryOrFail(j: Job): (s: JobStatus)
    ensures s == Retrying || s == Failed
    ensures s == Retrying <==> j.retryCount < j.maxRetries
  {
    if j.retryCount < j.maxRetries then Retrying else Failed
  }

  /** A job nobody has touched yet: waiting, unassigned, with its whole retry budget. */
  lemma NewJobDefaults()
    ensures NewJob().status == Pending && NewJob().priority == Regular
    ensures NewJob().progress == 0 && NewJob().retryCount == 0 && NewJob().maxRetries == 3
    ensures NewJob().scheduledTime == None && NewJob().startTime == None && NewJob().endTime == None
    ensures NewJob().assignedWorker == None && NewJob().errorMessage == None
    ensures RetryOrFail(NewJob()) == Retrying
  {
  }

  /** A new worker is Idle with one free slot, so it satisfies the capacity invariant. */
  lemma NewWorkerNodeDefaults(freshId: string, now: Time)
    ensures NewWorkerNode(freshId, now).id == freshId
    ensures NewWorkerNode(freshId, now).status == Idle
    ensures NewWorkerNode(freshId, now).concurrencyLimit == 1
    ensures NewWorkerNode(freshId, now).activeJobCount == 0
    ensures WithinCapacity(NewWorkerNode(freshId, now)) && Spare(NewWorkerNode(freshId, now)) == 1
  {
  }

  /** Taking all of a sequence gives the sequence back. */
  lemma WholePrefix<T>(s: seq<T>)
    ensures s[..|s|] == s
  {
  }
}
