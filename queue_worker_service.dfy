/**
 * The queue-side copy of the worker service. Registration, status updates and the
 * assign guard chain are the same as the store-side service's; what it adds is
 * that a successful guard publishes an assignment message to the worker's own
 * queue before Success is answered. Whether publishing succeeds is supplied as a
 * parameter; a failed publish propagates as an error to the caller.
 */
module QueueWorkerService {
  import opened Domain
  import WorkerService
  import JobQueueService

  /** The kinds of control message a worker queue carries. */
  datatype JobControlType = AssignJobToWorker | StopJob | RestartJob

  /** A control message: its kind, a job id field, and the job itself. */
  datatype JobControlMessage = JobControlMessage(kind: JobControlType, jobId: int, job: Option<Job>)

  /** A message published to a named queue with a routing key. */
  datatype Publication = Publication(queueName: string, routingKey: string, message: JobControlMessage)

  /** What the assign call ends with: an answer, or the publish error it passes on. */
  datatype AssignOutcome = Answered(result: AssignJobResult) | PublishFailed

  /** The queue a worker listens on. */
  function WorkerQueue(workerId: string): (q: string)
    ensures q == "worker." + workerId
    ensures |q| == |workerId| + 7 && q[7..] == workerId
  {
    "worker." + workerId
  }

  /** The message that hands a job to a worker: an assignment carrying the job, on the worker's queue. */
  function AssignmentMessage(workerId: string, job: Job): (p: Publication)
    ensures p.message.kind == AssignJobToWorker && p.message.job == Some(job)
    ensures p.message.jobId == 0
    ensures p.queueName == WorkerQueue(workerId) && p.routingKey == p.queueName
  {
    var queue := WorkerQueue(workerId);
    Publication(queue, queue, JobControlMessage(AssignJobToWorker, 0, Some(job)))
  }

  /**
   * The queue-side assign: the guard chain, then, on Success, one publish of the
   * assignment message. The pair is the outcome and the publish attempted, if any:
   * the attempt is made on Success whether or not the broker then accepts it.
   */
  function AssignJobToWorkerAndPublish(workers: seq<WorkerNode>, workerId: string, job: Job, publishOk: bool)
    : (r: (AssignOutcome, Option<Publication>))
    ensures var verdict := WorkerService.AssignJobToWorker(workers, workerId, job);
      && (r.1.Some? <==> verdict == Success)
      && (r.1.Some? ==> r.1.value == AssignmentMessage(workerId, job))
      && (verdict != Success ==> r.0 == Answered(verdict))
      && (r.0 == Answered(Success) <==> verdict == Success && publishOk)
      && (r.0 == PublishFailed <==> verdict == Success && !publishOk)
  {
    var verdict := WorkerService.AssignJobToWorker(workers, workerId, job);
    if verdict != Success then (Answered(verdict), None)
    else
      var sent := AssignmentMessage(workerId, job);
      if publishOk then (Answered(Success), Some(sent)) else (PublishFailed, Some(sent))
  }

  /** Nothing is published, and Success is never answered, for a worker that is unknown, Offline or full. */
  lemma NoPublishUnlessAvailable(workers: seq<WorkerNode>, workerId: string, job: Job, publishOk: bool)
    requires forall k :: 0 <= k < |workers| && workers[k].id == workerId ==>
      !JobQueueService.IsAvailableWorker(workers[k])
    ensures AssignJobToWorkerAndPublish(workers, workerId, job, publishOk).1 == None
    ensures AssignJobToWorkerAndPublish(workers, workerId, job, publishOk).0 != Answered(Success)
  {
  }
}
