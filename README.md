# JobsDemo job queue: distribution and worker lifecycle

This project models the job-distribution and worker-lifecycle core of the JobsDemo
job queue system, and proves properties of that model in Dafny. The system's main parts:

- **The queue service.** It periodically picks the available workers and the eligible
  jobs, then hands them to a capacity- and priority-aware distributor. A second
  periodic sweep demotes workers whose heartbeat has gone stale and takes back the
  jobs they were running.
- **The worker node.** It keeps a table of the jobs it is running, bounded by its
  concurrency limit. It runs each job through a type-specific handler that reports
  progress, classifies the outcome, and registers itself with retries.
- **The store-side services.** They register workers, update worker status, guard
  job assignment, and apply the status rules for job progress, stop, restart and
  delete.

The store (both database contexts) is one object, `Persistence.JobStore`. It holds a
`jobs` table and a `workers` table as sequences of records. The model gives each table
a fixed row order and answers every unordered query in that order.

The queue tick reads and tracks its workers and jobs through `ApplicationDbContext`
and never saves that context. The distributor saves `JobDbContext` instead, and the
queue service's startup registers only `ApplicationDbContext`. The model treats the
distributor's save as committing the tick's changes to the store.

- A tracked entity is a row index into its table.
- Every operation that changes stored records is a method that `modifies` the store.
- Each such method ties the new tables to a pure function of the old ones. The
  properties are proved about those functions.

The worker node's in-memory state is the class `WorkerRuntime.WorkerNodeService`. Its
fields are the active-job table (a map from job id to job) and the aggregate status.

Some inputs are parameters of the model rather than computed:

- **Time** is a natural number of seconds (`now`), and `DateTime.MinValue` is 0.
- **Fresh ids.** Generated GUIDs and database identity values are supplied as fresh
  ids.
- **External answers.** What an external party answers is an input:
  - the worker's answer to each assignment call (a sequence of booleans);
  - whether a publish succeeds;
  - each registration attempt's HTTP outcome;
  - how a handler run ended (ran to the end, cancelled, or threw).
- **Progress reports** are the sequence of values a run reported.

Where the prose description of the system and the code disagree, the model follows
the code:

- **Zero-spare workers still get a job.** The distributor keeps buckets for workers
  with no spare capacity (spare zero or below). Such a worker passed directly to
  `DistributeJobs` still receives one job. The run capacity is therefore the sum of
  `max(1, spare)`. The queue tick only passes workers with spare capacity, so there it
  equals the total spare capacity.
- **Reactivation never happens with the repository lookup.** The repository's lookup
  by name skips Offline workers. So with that repository, registration never takes
  the reactivation branch: re-registering the name of an Offline worker appends a
  second record with that name. `WorkerService.RepositoryLookupNeverReactivates`
  proves this.
- **Reclaimed jobs are never re-queued.** Jobs taken back from a stale worker become
  Retrying, and no tick picks Retrying jobs up again. No code increments `RetryCount`.
- **A rolled-back worker keeps its `CurrentJobId`.** A refused assignment restores
  the worker's job count and status, but not its `CurrentJobId`.
- **The control message's `JobId` stays 0.** The assignment message published to a
  worker queue never sets `JobId`; only the job itself is carried.
- **The registration backoff is linear.** It waits 2, 4, … seconds, although the
  code's comment calls it exponential.

## Model

| member | source | states |
|---|---|---|
| `Domain.NewJobDefaults` | JobsServer.Domain/Entities/Job.cs:5-22 | A new job is Pending and Regular, with progress 0, retry count 0 and a retry budget of 3. It has no scheduled, start or end time, no worker and no error. |
| `Domain.NewWorkerNodeDefaults` | JobsServer.Domain/Entities/WorkerNode.cs:5-14 | A new worker has the fresh id, is Idle, and has concurrency limit 1 and no active jobs. So it starts within capacity, with one spare slot. |
| `Domain.RetryOrFail` | JobQueueSystem.WorkerNode/Services/WorkerNodeService.cs:184 | A failed or reclaimed job becomes Retrying exactly when its retry count is below its budget, and Failed otherwise. |
| `Persistence.FirstIndex` | JobsServer.Infrastructure/Repositories/JobRepository.cs:19 | The first position holding a key, or none exactly when no position holds it; shared by the lookups by key. |
| `Persistence.FindJobById` | JobsServer.Infrastructure/Repositories/JobRepository.cs:19 | The primary-key lookup returns the first row with that id, or none exactly when no row has it. |
| `Persistence.FindWorkerById` | JobsServer.Infrastructure/Repositories/WorkerRepository.cs:50-52 | The worker lookup by key returns the first row with that id, or none exactly when no row has it. |
| `JobDistributor.GetPrioritizedJobs` | JobQueueSystem.QueueService/Services/JobDistributor.cs:67-73 | The visiting order is a permutation of the jobs. It is non-decreasing in (priority descending, scheduled time ascending, a missing time as the earliest). Jobs that tie keep their list order. |
| `JobDistributor.PrioritizedOrderIsUnique` | JobQueueSystem.QueueService/Services/JobDistributor.cs:67-73 | Any permutation that is ordered by that key and stable on ties is exactly the prioritized order. |
| `JobDistributor.HighPriorityFirst` | JobQueueSystem.QueueService/Services/JobDistributor.cs:70 | No Regular job is visited before a High one. |
| `JobDistributor.VisitOrder` | JobQueueSystem.QueueService/Services/JobDistributor.cs:34-36 | The pending rows in visiting order: the same rows, each once, in rank order. |
| `JobDistributor.LoadOrder` | JobQueueSystem.QueueService/Services/JobDistributor.cs:61-62 | The order in which the workers are visited is a rearrangement of all their positions, each taken once. |
| `JobDistributor.LoadOrderIsStable` | JobQueueSystem.QueueService/Services/JobDistributor.cs:61-62 | That order ascends in active job count, and workers with equal counts keep their input order, as the stable ordering requires. |
| `JobDistributor.LoadOrderIsUnique` | JobQueueSystem.QueueService/Services/JobDistributor.cs:61-62 | Any rearrangement in ascending count that keeps tied workers in input order is exactly that order. |
| `JobDistributor.OrderByActiveJobCount` | JobQueueSystem.QueueService/Services/JobDistributor.cs:61-62 | The workers reordered: the same rows, each kept once. |
| `JobDistributor.OrderByActiveJobCountIsSorted` | JobQueueSystem.QueueService/Services/JobDistributor.cs:61-62 | The reordered workers are the workers taken in `LoadOrder`: ascending active job count, with ties in input order. |
| `JobDistributor.GroupWorkersByAvailableCapacity` | JobQueueSystem.QueueService/Services/JobDistributor.cs:59-65 | There is one bucket per spare-capacity value present, zero and negative values included. Each bucket is non-empty and lists exactly the workers with that spare capacity, in active-job-count order. |
| `JobDistributor.SelectWorkerWithCapacity` | JobQueueSystem.QueueService/Services/JobDistributor.cs:75-97 | It returns no worker exactly when every bucket is empty, and then the buckets are unchanged. Otherwise it returns the first worker of the largest non-empty bucket and moves that worker to the bucket one lower, dropping it when that key is not positive. |
| `JobDistributor.TopKey` | JobQueueSystem.QueueService/Services/JobDistributor.cs:77-79 | When some bucket is non-empty, the bucket taken from is the largest key with a non-empty bucket. |
| `JobDistributor.TopIsUnique` | JobQueueSystem.QueueService/Services/JobDistributor.cs:77-79 | There is only one such key, so the selection is determined by the buckets. |
| `JobDistributor.SelectionStep` | JobQueueSystem.QueueService/Services/JobDistributor.cs:75-93 | One more selection takes the head of the top bucket and moves it one bucket down. |
| `JobDistributor.SelectionsExtend` | JobQueueSystem.QueueService/Services/JobDistributor.cs:36-43 | Each job visited adds at most one pick, and later picks never change earlier ones. |
| `JobDistributor.SelectionsTrack` | JobQueueSystem.QueueService/Services/JobDistributor.cs:75-93 | Along the selections, every worker with slots left is listed once, in the bucket of its remaining spare capacity, and no worker is picked more than max(1, spare) times. |
| `JobDistributor.SelectionPicksWorker` | JobQueueSystem.QueueService/Services/JobDistributor.cs:79-81 | The worker at the head of the top non-empty bucket is one of the available workers, and taking it keeps every worker within max(1, spare capacity) picks. |
| `JobDistributor.SelectionsExhaust` | JobQueueSystem.QueueService/Services/JobDistributor.cs:84-96 | Once no bucket holds a worker, each available worker has been picked exactly max(1, spare capacity) times. |
| `JobDistributor.SelectNext` | JobQueueSystem.QueueService/Services/JobDistributor.cs:38-43 | One selection in the loop: either no worker, exactly when every bucket is empty, or the next worker of the selection rule, with the buckets it leaves. |
| `JobDistributor.SelectionIsGreedy` | JobQueueSystem.QueueService/Services/JobDistributor.cs:77-81 | The head of the top bucket has at least as much spare capacity left as every worker that still has a slot. |
| `JobDistributor.SelectionsAreGreedy` | JobQueueSystem.QueueService/Services/JobDistributor.cs:36-45 | Each selection from the initial grouping picks a worker with the most spare capacity left after the earlier picks. |
| `JobDistributor.DistributionIsGreedy` | JobQueueSystem.QueueService/Services/JobDistributor.cs:33-45 | In a run that follows the selection rule, the worker picked for each job has at least as much spare capacity left as any other worker that can still take a job. |
| `JobDistributor.AssignmentOutcome` | JobQueueSystem.QueueService/Services/JobDistributor.cs:99-120 | On acceptance, the job is InProgress on the worker, started now, and the worker is Busy with one more job and records the job. On refusal, the job is Pending with no worker and no start time. The worker keeps its previous count and is Busy exactly when that count is positive. |
| `JobDistributor.RunJobs` | JobQueueSystem.QueueService/Services/JobDistributor.cs:36-54 | After the loop, each visited job is the outcome of its own assignment step with its selected worker. Every job that was not visited is untouched. |
| `JobDistributor.RunWorkers` | JobQueueSystem.QueueService/Services/JobDistributor.cs:45-53 | A worker's job count rises by its accepted picks only, since a refused pick gives its slot back. Its id, name, limit and heartbeat are untouched. An unpicked worker is unchanged. A picked worker records the job of its last pick, and its status follows that last call. |
| `JobDistributor.AssignPrioritizedJobs` | JobQueueSystem.QueueService/Services/JobDistributor.cs:33-56 | The loop makes min(#jobs, capacity) picks, all among the given workers, and no worker more than max(1, its spare capacity) times. The picks are exactly the selections from the initial grouping: each is the head of the top bucket left by the earlier ones. The picked jobs are a prefix of the prioritized order, and the new tables are the result of that run. |
| `JobDistributor.DistributeJobs` | JobQueueSystem.QueueService/Services/JobDistributor.cs:28-57 | With no jobs or no workers, nothing changes. Otherwise the loop makes min(#jobs, capacity) picks, all among the given workers. No worker is picked more than max(1, its spare capacity) times. The picks are exactly the selections from the initial grouping, one per job. The picked jobs are a prefix of the prioritized order, and the new tables are the result of that run. |
| `JobDistributor.CapacityOfAvailable` | JobQueueSystem.QueueService/Services/JobDistributor.cs:63 | When every worker has spare capacity, the run capacity equals the total spare capacity. |
| `JobDistributor.PickSumAtMostCapacity` | JobQueueSystem.QueueService/Services/JobDistributor.cs:75-97 | The picks of all workers together never exceed the run capacity, and equal it when every worker's slots are used up. |
| `JobDistributor.CapacityNeverExceeded` | JobQueueSystem.QueueService/Services/JobDistributor.cs:36-54 | With workers that all have spare capacity, no worker ends a run above its concurrency limit. |
| `JobQueueService.AvailableWorkers` | JobQueueSystem.QueueService/Services/JobQueueService.cs:46-48 | Exactly the workers that are not Offline and are below their limit, each with positive spare capacity, in the model's table order. |
| `JobQueueService.EligibleJobs` | JobQueueSystem.QueueService/Services/JobQueueService.cs:58-60 | Exactly the Pending or Scheduled jobs that have no scheduled time or one that is not after now. |
| `JobQueueService.PendingQuery` | JobQueueSystem.QueueService/Services/JobQueueService.cs:58-64 | The fetched jobs number min(2 × workers, #eligible). All are eligible and ordered by rank, and no eligible job left out ranks before a fetched one. |
| `JobQueueService.ProcessQueue` | JobQueueSystem.QueueService/Services/JobQueueService.cs:38-75 | The tick queries the available workers and then, only if there are any, the eligible jobs (at most twice as many as workers). With either list empty nothing changes. Otherwise the tables become the distributor's run over those jobs, which makes min(#jobs, total spare capacity) picks, never gives a worker more picks than its spare capacity, and picks exactly by the selection rule. |
| `JobQueueService.ResortIsIdentity` | JobQueueSystem.QueueService/Services/JobDistributor.cs:67-73 | The distributor's re-sort leaves a list that is already in priority order exactly as it is. |
| `JobQueueService.ReclaimedJobsAreNotRequeued` | JobQueueSystem.QueueService/Services/JobQueueService.cs:59 | Retrying and Failed jobs are never eligible for a queue tick. |
| `JobQueueService.QueueTickRespectsCapacity` | JobQueueSystem.QueueService/Services/JobQueueService.cs:46-75 | After a queue tick, no worker that was handed work is over its concurrency limit. |
| `JobQueueService.StaleWorkers` | JobQueueSystem.QueueService/Services/JobQueueService.cs:96-99 | Exactly the workers that are not Offline and whose last heartbeat is strictly more than 120 seconds old. |
| `JobQueueService.ReclaimJobsOf` | JobQueueSystem.QueueService/Services/JobQueueService.cs:113-123 | Each InProgress job assigned to the given worker is reclaimed. Every other job is unchanged. |
| `JobQueueService.CheckWorkerHeartbeats` | JobQueueSystem.QueueService/Services/JobQueueService.cs:87-126 | The sweep leaves the worker table as every stale worker marked Offline, and the job table as every InProgress job of a stale worker reclaimed; see the two outcome lemmas below for what that means per row. |
| `JobQueueService.SweepWorkerOutcome` | JobQueueSystem.QueueService/Services/JobQueueService.cs:107-110 | A stale worker ends Offline with every other field unchanged, its active job count included. Any other worker is untouched. |
| `JobQueueService.SweepJobOutcome` | JobQueueSystem.QueueService/Services/JobQueueService.cs:113-123 | An InProgress job of a stale worker becomes Retrying when its retry budget is not spent and Failed otherwise. It gets the offline message, loses its worker and keeps its retry count. Every other job is untouched. |
| `JobQueueService.NothingStaleAfterSweep` | JobQueueSystem.QueueService/Services/JobQueueService.cs:96-110 | After a sweep, no worker is stale. |
| `JobQueueService.SweepIsIdempotent` | JobQueueSystem.QueueService/Services/JobQueueService.cs:87-126 | A second sweep at the same instant changes neither table. |
| `JobQueueService.StalenessBoundary` | JobQueueSystem.QueueService/Services/JobQueueService.cs:96-98 | Three minutes of silence is stale. Exactly two minutes is not, and neither is a heartbeat from now or later. |
| `JobProcessing.HandlerFor` | JobQueueSystem.WorkerNode/Services/JobProcessor.cs:31-38 | The four named job types each select their own handler. Every other type string selects the generic handler. |
| `JobProcessing.StepOf` | JobQueueSystem.WorkerNode/Services/JobProcessor.cs:64 | A counting handler's step is positive and divides 100, so its counter reaches 100 exactly. |
| `JobProcessing.Describe` | JobQueueSystem.WorkerNode/Services/JobProcessor.cs:40-56 | Cancellation gives the cancelled-by-user message. Any other exception gives the processor-exception prefix followed by its message. |
| `JobProcessing.RampIsWellFormed` | JobQueueSystem.WorkerNode/Services/JobProcessor.cs:64-69 | A counting loop reports strictly increasing values within 0..100, none below its start. |
| `JobProcessing.RampEndsAtHundred` | JobQueueSystem.WorkerNode/Services/JobProcessor.cs:155-160 | A counting loop whose start plus a whole number of steps is 100 ends with the report 100. |
| `JobProcessing.HandlerProgressIsComplete` | JobQueueSystem.WorkerNode/Services/JobProcessor.cs:60-166 | Every handler's reports are strictly increasing, within 0..100, non-empty, and end at 100. |
| `JobProcessing.CountingHandlersStartAtZero` | JobQueueSystem.WorkerNode/Services/JobProcessor.cs:83-91 | The counting handlers report 0 first and then their step (10, 5, 5 or 20). |
| `JobProcessing.CountUp` | JobQueueSystem.WorkerNode/Services/JobProcessor.cs:108-116 | The counter loop reports 0, step, 2·step, … up to 100, or the first stopAfter of them when interrupted. |
| `JobProcessing.EmitEach` | JobQueueSystem.WorkerNode/Services/JobProcessor.cs:132-139 | The report handler emits its fixed list in order (10, 20, 40, 50, 60, 85, 95, 100), or a prefix of it when interrupted. |
| `JobProcessing.RunHandler` | JobQueueSystem.WorkerNode/Services/JobProcessor.cs:40-166 | A handler run reports a prefix of its series. It succeeds with the whole series (ending at 100) exactly when the interruption point lies past its end. Otherwise it fails with the cancellation or exception message after the reports made so far. |
| `JobProcessing.ProcessJob` | JobQueueSystem.WorkerNode/Services/JobProcessor.cs:26-58 | The reports are a prefix of the selected handler's sequence. The run succeeds, with all reports (ending at 100) and no error, exactly when it is not interrupted before its end. Otherwise it fails with the interruption's message after the reports made so far. |
| `WorkerRuntime.StatusFor` | JobQueueSystem.WorkerNode/Services/WorkerNodeService.cs:228 | The aggregate status is Busy exactly when the active-job table is non-empty, and Idle exactly when it is empty. |
| `WorkerRuntime.Admit` | JobQueueSystem.WorkerNode/Services/WorkerNodeService.cs:134-144 | An accepted job was not in the table and is added under its id. A refused job leaves the table unchanged. |
| `WorkerRuntime.AdmitAcceptsExactly` | JobQueueSystem.WorkerNode/Services/WorkerNodeService.cs:132-150 | A job is accepted exactly when the table is below the limit and does not hold its id. Acceptance adds exactly that entry. |
| `WorkerRuntime.AdmitKeepsLimit` | JobQueueSystem.WorkerNode/Services/WorkerNodeService.cs:134-138 | The table never grows beyond the concurrency limit. |
| `WorkerRuntime.RedeliveryIsRefused` | JobQueueSystem.WorkerNode/Services/WorkerNodeService.cs:140-144 | Delivering the same job twice is refused the second time and leaves one entry. |
| `WorkerRuntime.AdmitThenFinishRestores` | JobQueueSystem.WorkerNode/Services/WorkerNodeService.cs:209-213 | Removing an accepted job at the end of its execution restores the table and the status it had before. |
| `WorkerRuntime.Processed` | JobQueueSystem.WorkerNode/Services/WorkerNodeService.cs:152-192 | Only the job's status, progress, error and end time change. A returned result gives Completed exactly on success, and Failed otherwise, with the result's message. A thrown exception gives Retrying or Failed by retry budget, with its message. The progress is the last report, or 0 when setup failed. |
| `WorkerRuntime.FinishedHandlerCompletesJob` | JobQueueSystem.WorkerNode/Services/WorkerNodeService.cs:167-177 | A handler that runs to the end leaves its job Completed at progress 100, with no error. |
| `WorkerRuntime.ExecutionKeepsRetryBudget` | JobQueueSystem.WorkerNode/Services/WorkerNodeService.cs:184-186 | Execution never changes the retry count or budget. It ends Completed, Failed or Retrying, and Retrying only while budget is left. |
| `WorkerRuntime.HandleJobFailure` | JobQueueSystem.WorkerNode/Services/WorkerNodeService.cs:215-224 | A failed job becomes Retrying when budget is left and Failed otherwise, with the exception's message and the end time. |
| `WorkerRuntime.FollowProgress` | JobQueueSystem.WorkerNode/Services/WorkerNodeService.cs:167-172 | Following the progress callbacks leaves the job at its last reported progress. |
| `WorkerRuntime.ProcessJob` | JobQueueSystem.WorkerNode/Services/WorkerNodeService.cs:152-192 | The job as the step-by-step processing leaves it is exactly `Processed`. |
| `WorkerRuntime.WorkerNodeService.constructor` | JobQueueSystem.WorkerNode/Services/WorkerNodeService.cs:18-21 | A worker starts with an empty table and is Idle. |
| `WorkerRuntime.WorkerNodeService.UpdateWorkerStatus` | JobQueueSystem.WorkerNode/Services/WorkerNodeService.cs:226-234 | The status becomes Busy exactly when the table is non-empty, and the table is unchanged. |
| `WorkerRuntime.WorkerNodeService.AcceptJob` | JobQueueSystem.WorkerNode/Services/WorkerNodeService.cs:132-150 | The answer and the new table are those of `Admit`. The status is recomputed, and a refusal leaves it unchanged. The table stays within the limit. |
| `WorkerRuntime.WorkerNodeService.ExecuteJob` | JobQueueSystem.WorkerNode/Services/WorkerNodeService.cs:198-214 | Whatever the outcome, the job leaves the table and the status is recomputed. The finished job is `Processed`. |
| `WorkerRepository.WorkersByStatus` | JobsServer.Infrastructure/Repositories/WorkerRepository.cs:30-40 | The rows of exactly the workers with the requested status (all of them when no status is given), in the model's table order. |
| `WorkerRepository.WorkerByName` | JobsServer.Infrastructure/Repositories/WorkerRepository.cs:42-46 | The first worker with that name that is not Offline, or none exactly when there is no such worker. |
| `WorkerRepository.LookupSkipsOffline` | JobsServer.Infrastructure/Repositories/WorkerRepository.cs:45 | The name lookup never returns an Offline worker. |
| `WorkerRepository.ApplyHeartbeat` | JobsServer.Infrastructure/Repositories/WorkerRepository.cs:56-58 | A heartbeat overwrites the heartbeat time, the status and the active job count. It keeps the id, name, limit and current job. |
| `WorkerRepository.UpdateWorkerHeartbeat` | JobsServer.Infrastructure/Repositories/WorkerRepository.cs:48-68 | An unknown id gives false and nothing changes. Otherwise the heartbeat is applied to that worker and true is returned. |
| `WorkerRepository.HeartbeatOverridesOffline` | JobsServer.Infrastructure/Repositories/WorkerRepository.cs:57 | A heartbeat brings an Offline worker back to the heartbeat's status. |
| `WorkerService.Registered` | JobsServer.Application/Services/WorkerService.cs:27-62 | The existing record passed in is one with the worker's name. A live record with the name is a conflict: none is returned and nothing changes. An Offline record is revived in place: Idle, heartbeated now, no load. Otherwise the worker keeps a non-empty id (or gets the fresh one), becomes Idle and is appended. |
| `WorkerService.RegisterWorker` | JobQueueSystem.QueueService/Services/WorkerService.cs:34-69 | The registered record and the new worker table are those of `Registered`, and the jobs are untouched. |
| `WorkerService.ReactivationRevives` | JobQueueSystem.QueueService/Services/WorkerService.cs:40-50 | A revived record keeps its id, name and limit. It is available exactly when its limit is positive, and it is not stale. |
| `WorkerService.RepositoryLookupNeverReactivates` | JobsServer.Infrastructure/Repositories/WorkerRepository.cs:44-45 | With the repository's lookup, a registration always appends. A name held by an Offline record is then held twice. |
| `WorkerService.StatusUpdated` | JobsServer.Application/Services/WorkerService.cs:76-77 | A status update sets the status and refreshes the heartbeat, and nothing else. |
| `WorkerService.UpdateWorkerStatus` | JobQueueSystem.QueueService/Services/WorkerService.cs:77-89 | An unknown id gives false and nothing changes. Otherwise that worker gets the new status and heartbeat. |
| `WorkerService.UpdatedWorkerIsFresh` | JobQueueSystem.QueueService/Services/WorkerService.cs:83-84 | A worker just set to a status other than Offline is not swept as stale at that instant. |
| `WorkerService.AssignVerdict` | JobsServer.Application/Services/WorkerService.cs:83-100 | The checks run in order: NotFound for no worker, Offline, then AtCapacity when the count reaches the limit. Success is returned exactly when the worker is available. |
| `WorkerService.AssignJobToWorker` | JobQueueSystem.QueueService/Services/WorkerService.cs:90-101 | NotFound exactly when no worker has the id. Success exactly when the worker with that id is available. The job plays no part. |
| `WorkerService.GetWorkerJobs` | JobQueueSystem.QueueService/Services/WorkerService.cs:131-138 | None exactly for an unknown worker; otherwise the repository's list. |
| `QueueWorkerService.WorkerQueue` | JobQueueSystem.QueueService/Services/WorkerService.cs:120 | A worker's queue is "worker." followed by its id. |
| `QueueWorkerService.AssignmentMessage` | JobQueueSystem.QueueService/Services/WorkerService.cs:110-121 | The message is an assignment carrying the job, with job id field 0. It goes to the worker's queue, with the same routing key. |
| `QueueWorkerService.AssignJobToWorkerAndPublish` | JobQueueSystem.QueueService/Services/WorkerService.cs:90-130 | A publish of the assignment message is attempted exactly when the guard chain says Success. Success is answered only when that publish succeeds, and a failed publish is passed on as an error. Any other verdict is answered as is. |
| `QueueWorkerService.NoPublishUnlessAvailable` | JobQueueSystem.QueueService/Services/WorkerService.cs:92-103 | For a worker that is unknown, Offline or full, nothing is published and Success is never answered. |
| `JobService.NewJobFor` | JobsServer.Application/Services/JobService.cs:36-43 | A created job is a default record with the requested name and priority. It is Pending, created now, under its assigned id. |
| `JobService.CreateJob` | JobsServer.Application/Services/JobService.cs:36-43 | The created job is appended to the job table, and workers are untouched. |
| `JobService.CreatedJobIsQueued` | JobsServer.Application/Services/JobService.cs:39 | A created job is found by its id, and a queue tick at any later time finds it eligible. |
| `JobService.WithProgress` | JobsServer.Application/Services/JobService.cs:50-51 | A progress update sets that progress. The job becomes Completed exactly at 100 and InProgress otherwise, and nothing else changes. |
| `JobService.UpdateJobProgress` | JobsServer.Application/Services/JobService.cs:45-58 | An unknown id gives false and nothing changes. Otherwise that job gets the progress and the status it implies. |
| `JobService.AfterReportsIsLast` | JobsServer.Application/Services/JobService.cs:45-58 | After a series of progress updates, only the last one decides the progress and the status. |
| `JobService.HandlerReportsCompleteJob` | JobQueueSystem.WorkerNode/Services/JobProcessor.cs:60-166 | A handler run to the end drives its job through its reports to Completed at 100. Every earlier report leaves the job InProgress. |
| `JobService.Stopped` | JobsServer.Application/Services/JobService.cs:64 | A stopped job is Failed, with nothing else changed. |
| `JobService.StopJob` | JobsServer.Application/Services/JobService.cs:60-67 | Stopping succeeds exactly for a job that exists and is InProgress, and that job becomes Failed. Otherwise it gives false and nothing changes. |
| `JobService.Restarted` | JobsServer.Application/Services/JobService.cs:73-74 | A restarted job is Pending at progress 0, with nothing else changed. |
| `JobService.RestartJob` | JobsServer.Application/Services/JobService.cs:69-77 | Restarting succeeds exactly for a job that exists and is not InProgress, and that job is restarted. Otherwise it gives false and nothing changes. |
| `JobService.RestartIsIdempotent` | JobsServer.Application/Services/JobService.cs:72-76 | A restarted job can be restarted again, and that changes nothing. It is queued again exactly when it has no scheduled time or one that is not after now. |
| `JobService.StopThenRestart` | JobsServer.Application/Services/JobService.cs:60-77 | A stopped job cannot be stopped again but can be restarted, to the same state as restarting it directly. |
| `JobService.Without` | JobsServer.Application/Services/JobService.cs:83 | Deleting a row keeps every other row, in order. |
| `JobService.DeleteCompletedOrFailedJob` | JobsServer.Application/Services/JobService.cs:79-85 | Deleting succeeds exactly for an existing Completed or Failed job, whose row is removed. Any other job stays, and nothing changes. |
| `JobService.DeleteKeepsOthers` | JobsServer.Application/Services/JobService.cs:81-84 | Every job other than the deleted one is still in the table. |
| `JobProgressService.UpdateJobStatus` | JobQueueSystem.WorkerNodes.Api/Services/JobProgressService.cs:21-33 | An unknown id gives false and nothing changes. Otherwise exactly that job's status is set. |
| `JobProgressService.ProgressAnswer` | JobQueueSystem.WorkerNodes.Api/Services/JobProgressService.cs:44-49 | The answer carries the job's id and the new progress. Its status is Completed exactly at 100 and InProgress otherwise. |
| `JobProgressService.UpdateJobProgress` | JobQueueSystem.WorkerNodes.Api/Services/JobProgressService.cs:34-53 | An unknown id gives none and nothing changes. Otherwise the job gets the progress and its implied status, and the answer mirrors the updated record. |
| `WorkerApiClient.FirstSuccess` | JobQueueSystem.WorkerNode/Services/WorkerApiClient.cs:42-45 | It returns the index of the first successful attempt, or none exactly when every attempt within the budget failed. |
| `WorkerApiClient.Backoff` | JobQueueSystem.WorkerNode/Services/WorkerApiClient.cs:54-59 | The pause after failed attempt k is 2k seconds. |
| `WorkerApiClient.BackoffTotal` | JobQueueSystem.WorkerNode/Services/WorkerApiClient.cs:54-59 | The pauses after m failed attempts add up to m(m+1) seconds. |
| `WorkerApiClient.BackoffIsLinear` | JobQueueSystem.WorkerNode/Services/WorkerApiClient.cs:56 | Each pause is two seconds longer than the one before: the growth is linear. |
| `WorkerApiClient.RegisterWorker` | JobQueueSystem.WorkerNode/Services/WorkerApiClient.cs:34-64 | It makes at most maxRetries attempts and stops at the first success, returning the server's record. Between attempts it pauses 2k seconds, with no pause after the last attempt. When every attempt fails it returns none. |
| `WorkerApiClient.DefaultRegistrationGivesUp` | JobQueueSystem.WorkerNode/Services/WorkerApiClient.cs:34-63 | With the default budget and every attempt failing: three attempts, pauses of 2 and 4 seconds (6 in total), no record. |
| `WorkerApiClient.AssignJobToWorker` | JobQueueSystem.WorkerNode/Services/WorkerApiClient.cs:113-127 | It returns the server's success flag, or false when the call throws. |
| `WorkerApiClient.GetJob` | JobQueueSystem.WorkerNode/Services/WorkerApiClient.cs:167-178 | It returns the server's job, or none when the call throws. |
| `WorkerApiClient.GetPendingJobsForWorker` | JobQueueSystem.WorkerNode/Services/WorkerApiClient.cs:180-191 | It returns the server's list, or an empty one when the call throws. |

## Left out

- Timers, hosting, `async`/`await` and `Task.Run`: each periodic tick and each handler is one sequential method.
- Races: the worker node's race between the capacity check and `TryAdd` is not modelled.
- The ordering of asynchronous progress callbacks is not modelled. The reports are applied in order, before the result.
- Delays: handler delays (`Task.Delay`) are not modelled. The registration pauses are recorded as seconds rather than slept.
- Transport and mapping are not modelled: RabbitMQ transport, the HTTP controllers and client plumbing, SignalR notifications, AutoMapper, and JSON serialization. A publish, an HTTP call and the worker's answer to an assignment are inputs.
- Worker-side API calls that swallow errors are not modelled: `UpdateJobStatus`, `UpdateJobProgress`, `SendHeartbeat` and `UpdateWorkerStatus`. Since they swallow every exception, the only failure that reaches the worker's `HandleJobFailure` is one before processing starts (`SetupFailed`).
- Cancellation of a running job from outside is not modelled: the worker passes no cancellation token, and no worker handler consumes Stop or Restart messages. The processor's cancellation branch is modelled as an interruption input.
- EF Core change tracking, `SaveChangesAsync` and the database's primary-key and identity rules are not modelled. Saving is "the changes are committed". Fresh ids are inputs, and `CreateJob` requires its id to be unused.
- Query order: the available-worker query and the repository's status query have no `ORDER BY`, and the pending-job query's `ORDER BY` leaves jobs with equal priority and scheduled time unordered before its `Take`. The model answers all three in table order, with ties in table order. In the source the database chooses that order, and with it which of several tied jobs is fetched and which of several tied workers heads a bucket.
- `JobQueueService.AvailableWorkers`, `JobQueueService.PendingQuery` and `WorkerRepository.WorkersByStatus` fix the result order that the source leaves to the database; see the line above.
- Duplicate ids in a table are not ruled out. Lookups by id return the first matching row.
- The queue-side repository's `GetWorkerByIdAsync` and `GetWorkerJobsAsync` are not part of this model. They are modelled as a lookup by key and as a parameter (the listed jobs).
- The validation of a job creation request (name length) is not modelled, and the request is taken as valid.
- The notifications broadcast after each tick are not modelled. The distributor's tables are saved once at the end of the run, as in the source.
- The assignment marking and its rollback are two plain functions without contracts of their own; their combined effect is stated by `JobDistributor.AssignmentOutcome`.
- `JobProcessing.ProcessJob` does not model the job payload (`JobData`) or the handlers' result data, which no caller reads.
