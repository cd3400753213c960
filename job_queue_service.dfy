/**
 * The two periodic ticks of the queue service, each as one sequential method over the
 * store: the queue tick (select available workers and eligible jobs, hand them to the
 * distributor) and the heartbeat sweep (demote workers whose heartbeat is more than two
 * minutes old and reclaim the jobs they were running).
 */
module JobQueueService {
  import opened Domain
  import opened Ordering
  import opened Persistence
  import opened JobDistributor

  // ---------------------------------------------------------------------------
  // Queue tick

  /** A worker the queue tick hands work to: online and below its concurrency limit. */
  predicate IsAvailableWorker(w: WorkerNode)
  {
    w.status != WorkerStatus.Offline && w.activeJobCount < w.concurrencyLimit
  }

  /** A job the queue tick picks up: Pending or Scheduled, and due (no scheduled time, or one not after now). */
  predicate IsEligibleJob(j: Job, now: Time)
  {
    (j.status == Pending || j.status == Scheduled) && (j.scheduledTime.None? || j.scheduledTime.value <= now)
  }

  /** The available-worker query: the rows of the available workers, in table order (the query has none). */
  function AvailableWorkers(workers: seq<WorkerNode>): (refs: seq<nat>)
    ensures RowsIn(refs, |workers|) && Distinct(refs) && |refs| <= |workers|
    ensures forall r: nat :: r in refs <==> r < |workers| && IsAvailableWorker(workers[r])
    ensures forall k :: 0 <= k < |refs| ==> Spare(workers[refs[k]]) > 0
  {
    var refs := RowsWhere(|workers|, (r: nat) => r < |workers| && IsAvailableWorker(workers[r]));
    assert forall k :: 0 <= k < |refs| ==> refs[k] in refs;
    refs
  }

  /** The rows of the eligible jobs, in table order. */
  function EligibleJobs(jobs: seq<Job>, now: Time): (refs: seq<nat>)
    ensures RowsIn(refs, |jobs|) && Distinct(refs)
    ensures forall r: nat :: r in refs <==> r < |jobs| && IsEligibleJob(jobs[r], now)
  {
    RowsWhere(|jobs|, (r: nat) => r < |jobs| && IsEligibleJob(jobs[r], now))
  }

  /**
   * The pending-job query: the eligible jobs ordered by priority descending then scheduled
   * time ascending, limited to twice the number of available workers. It fetches as many
   * as the limit allows, and no eligible job left out ranks before a fetched one.
   */
  function PendingQuery(jobs: seq<Job>, now: Time, workerCount: nat): (refs: seq<nat>)
    ensures RowsIn(refs, |jobs|) && Distinct(refs)
    ensures |refs| == Min(2 * workerCount, |EligibleJobs(jobs, now)|)
    ensures forall r :: r in refs ==> IsEligibleJob(jobs[r], now)
    ensures forall a, b :: 0 <= a < b < |refs| ==> RankAtMost(JobRank(jobs[refs[a]]), JobRank(jobs[refs[b]]))
    ensures forall r, x :: r in refs && 0 <= x < |jobs| && IsEligibleJob(jobs[x], now) && x !in refs ==>
      RankAtMost(JobRank(jobs[r]), JobRank(jobs[x]))
  {
    var eligible := EligibleJobs(jobs, now);
    var order := VisitOrder(jobs, eligible);
    var cut := Min(2 * workerCount, |order|);
    PrefixOfOrder(jobs, order, cut);
    PrefixHoldsTop(jobs, eligible, order, cut);
    order[..cut]
  }

  lemma PrefixOfOrder(jobs: seq<Job>, order: seq<nat>, cut: nat)
    requires RowsIn(order, |jobs|) && Distinct(order) && cut <= |order|
    requires forall a, b :: 0 <= a < b < |order| ==> RankAtMost(JobRank(jobs[order[a]]), JobRank(jobs[order[b]]))
    ensures RowsIn(order[..cut], |jobs|) && Distinct(order[..cut])
    ensures forall r :: r in order[..cut] ==> r in order
    ensures forall a, b :: 0 <= a < b < cut ==> RankAtMost(JobRank(jobs[order[..cut][a]]), JobRank(jobs[order[..cut][b]]))
  {
  }

  lemma PrefixHoldsTop(jobs: seq<Job>, eligible: seq<nat>, order: seq<nat>, cut: nat)
    requires RowsIn(order, |jobs|) && cut <= |order|
    requires forall a, b :: 0 <= a < b < |order| ==> RankAtMost(JobRank(jobs[order[a]]), JobRank(jobs[order[b]]))
    requires forall x :: x in eligible ==> x in order
    ensures forall r, x :: r in order[..cut] && x in eligible && x !in order[..cut] ==>
      RankAtMost(JobRank(jobs[r]), JobRank(jobs[x]))
  {
    forall r, x | r in order[..cut] && x in eligible && x !in order[..cut]
      ensures RankAtMost(JobRank(jobs[r]), JobRank(jobs[x]))
    {
      TakeKeepsTop(jobs, order, cut, r, x);
    }
  }

  /** In a list ordered by rank, an element of a prefix ranks at most any element outside it. */
  lemma TakeKeepsTop(jobs: seq<Job>, order: seq<nat>, cut: nat, r: nat, x: nat)
    requires RowsIn(order, |jobs|) && cut <= |order|
    requires forall a, b :: 0 <= a < b < |order| ==> RankAtMost(JobRank(jobs[order[a]]), JobRank(jobs[order[b]]))
    requires r in order[..cut] && x in order && x !in order[..cut]
    ensures RankAtMost(JobRank(jobs[r]), JobRank(jobs[x]))
  {
    var a :| 0 <= a < cut && order[..cut][a] == r;
    var b :| 0 <= b < |order| && order[b] == x;
    assert order[a] == r;
  }

  /**
   * The distributor re-sorts the pending list it is given; a list already in priority
   * order (as the pending query returns it) is visited exactly in its own order.
   */
  lemma ResortIsIdentity(jobs: seq<Job>, pending: seq<nat>)
    requires RowsIn(pending, |jobs|)
    requires forall a, b :: 0 <= a < b < |pending| ==> RankAtMost(JobRank(jobs[pending[a]]), JobRank(jobs[pending[b]]))
    ensures VisitOrder(jobs, pending) == pending
  {
    var values := seq(|pending|, i requires 0 <= i < |pending| => jobs[pending[i]]);
    var ranks := JobRanks(values);
    StableOrderOfSorted(ranks);
    assert GetPrioritizedJobs(values) == Identity(|pending|);
  }

  /** Jobs reclaimed by the heartbeat sweep are Retrying or Failed, so no later queue tick picks them up. */
  lemma ReclaimedJobsAreNotRequeued(j: Job, now: Time)
    requires j.status == Retrying || j.status == Failed
    ensures !IsEligibleJob(j, now)
  {
  }

  /**
   * ProcessQueue. Returns the two queried row lists and the picks the distributor made
   * (empty when either query came back empty, in which case nothing changes).
   */
  method ProcessQueue(store: JobStore, now: Time, accepted: seq<bool>)
    returns (available: seq<nat>, pending: seq<nat>, ghost chosen: seq<nat>)
    requires |accepted| >= 2 * |store.workers|
    modifies store
    ensures available == AvailableWorkers(old(store.workers))
    ensures pending == (if available == [] then [] else PendingQuery(old(store.jobs), now, |available|))
    ensures pending == [] ==>
      chosen == [] && store.jobs == old(store.jobs) && store.workers == old(store.workers)
    ensures |pending| <= |accepted|
    ensures |chosen| == Min(|pending|, TotalSpare(old(store.workers), available))
    ensures RowsIn(chosen, |old(store.workers)|) && RowsIn(pending, |old(store.jobs)|)
    ensures forall r :: r in available ==> Picks(chosen, r) <= Spare(old(store.workers)[r])
    ensures SelectedByPolicy(old(store.workers), available, chosen)
    ensures (store.jobs, store.workers) == Run(old(store.jobs), old(store.workers), pending, chosen, accepted, now)
  {
    available := AvailableWorkers(store.workers);
    CapacityOfAvailable(store.workers, available);
    if available == [] {
      pending, chosen := [], [];
      assert Run(store.jobs, store.workers, pending, chosen, accepted, now) == (store.jobs, store.workers);
      NothingSelected(store.workers, available);
      return;
    }
    pending := PendingQuery(store.jobs, now, |available|);
    if pending == [] {
      chosen := [];
      assert Run(store.jobs, store.workers, pending, chosen, accepted, now) == (store.jobs, store.workers);
      NothingSelected(store.workers, available);
      return;
    }
    ResortIsIdentity(store.jobs, pending);
    chosen := DistributeJobs(store, pending, available, accepted, now);
  }

  /** After a queue tick, no worker that was handed work is over its concurrency limit. */
  lemma QueueTickRespectsCapacity(J0: seq<Job>, W0: seq<WorkerNode>, pending: seq<nat>, chosen: seq<nat>,
                                  accepted: seq<bool>, now: Time, r: nat)
    requires RowsIn(pending, |J0|) && RowsIn(chosen, |W0|)
    requires |chosen| <= |pending| && |chosen| <= |accepted|
    requires r in AvailableWorkers(W0)
    requires Picks(chosen, r) <= Spare(W0[r])
    ensures Run(J0, W0, pending, chosen, accepted, now).1[r].activeJobCount <= W0[r].concurrencyLimit
  {
    RunWorkers(J0, W0, pending, chosen, accepted, now, r);
  }

  // ---------------------------------------------------------------------------
  // Heartbeat sweep

  /** Seconds after which a heartbeat is stale. */
  const StaleAfter: int := 120

  const OfflineMessage: string := "Worker went offline while processing job"

  /** Stale: not yet Offline, and the last heartbeat strictly earlier than two minutes before now. */
  predicate IsStale(w: WorkerNode, now: Time)
  {
    w.status != WorkerStatus.Offline && w.lastHeartbeat < now - StaleAfter
  }

  /** The job is running on one of the workers with the given ids. */
  predicate HeldByAny(j: Job, ids: seq<string>)
  {
    j.status == InProgress && j.assignedWorker.Some? && j.assignedWorker.value in ids
  }

  /** A job taken back from a worker that went offline. */
  function ReclaimJob(j: Job): Job
  {
    j.(status := RetryOrFail(j), errorMessage := Some(OfflineMessage), assignedWorker := None)
  }

  /** The stale-worker query: rows of stale workers, in table order. */
  function StaleWorkers(workers: seq<WorkerNode>, now: Time): (refs: seq<nat>)
    ensures RowsIn(refs, |workers|) && Distinct(refs)
    ensures forall r: nat :: r in refs <==> r < |workers| && IsStale(workers[r], now)
  {
    RowsWhere(|workers|, (r: nat) => r < |workers| && IsStale(workers[r], now))
  }

  function IdsOf(workers: seq<WorkerNode>, refs: seq<nat>): (ids: seq<string>)
    requires RowsIn(refs, |workers|)
    ensures |ids| == |refs| && forall k :: 0 <= k < |refs| ==> ids[k] == workers[refs[k]].id
  {
    seq(|refs|, k requires 0 <= k < |refs| => workers[refs[k]].id)
  }

  /** The worker table after the sweep. */
  function SweptWorkers(workers: seq<WorkerNode>, now: Time): seq<WorkerNode>
  {
    seq(|workers|, r requires 0 <= r < |workers| =>
      if IsStale(workers[r], now) then workers[r].(status := WorkerStatus.Offline) else workers[r])
  }

  /** The job table after reclaiming the jobs held by the workers with the given ids. */
  function Reclaimed(jobs: seq<Job>, ids: seq<string>): seq<Job>
  {
    seq(|jobs|, x requires 0 <= x < |jobs| => if HeldByAny(jobs[x], ids) then ReclaimJob(jobs[x]) else jobs[x])
  }

  /** The job table after the sweep. */
  function SweptJobs(jobs: seq<Job>, workers: seq<WorkerNode>, now: Time): seq<Job>
  {
    var stale := StaleWorkers(workers, now);
    Reclaimed(jobs, IdsOf(workers, stale))
  }

  /** Reclaims, in table order, every InProgress job assigned to the worker with the given id. */
  method ReclaimJobsOf(jobs: seq<Job>, id: string) returns (updated: seq<Job>)
    ensures |updated| == |jobs|
    ensures forall x :: 0 <= x < |jobs| ==>
      updated[x] == if HeldByAny(jobs[x], [id]) then ReclaimJob(jobs[x]) else jobs[x]
  {
    updated := jobs;
    var j := 0;
    while j < |updated|
      invariant 0 <= j <= |updated| == |jobs|
      invariant forall x :: 0 <= x < |jobs| ==>
        updated[x] == if x < j && HeldByAny(jobs[x], [id]) then ReclaimJob(jobs[x]) else jobs[x]
    {
      if updated[j].status == InProgress && updated[j].assignedWorker == Some(id) {
        updated := updated[j := ReclaimJob(updated[j])];
      }
      j := j + 1;
    }
  }

  /** Reclaiming for one more id is reclaiming for that id after the earlier ones. */
  lemma ReclaimedStep(J0: seq<Job>, ids: seq<string>, i: nat, jobs: seq<Job>, updated: seq<Job>)
    requires i < |ids| && jobs == Reclaimed(J0, ids[..i])
    requires |updated| == |jobs|
    requires forall x :: 0 <= x < |jobs| ==>
      updated[x] == if HeldByAny(jobs[x], [ids[i]]) then ReclaimJob(jobs[x]) else jobs[x]
    ensures updated == Reclaimed(J0, ids[..i + 1])
  {
    assert ids[..i + 1] == ids[..i] + [ids[i]];
  }

  /**
   * CheckWorkerHeartbeats: marks every stale worker Offline and, for each in turn, reclaims
   * the InProgress jobs assigned to it; the changes are saved together.
   */
  method CheckWorkerHeartbeats(store: JobStore, now: Time)
    modifies store
    ensures store.workers == SweptWorkers(old(store.workers), now)
    ensures store.jobs == SweptJobs(old(store.jobs), old(store.workers), now)
  {
    var stale := StaleWorkers(store.workers, now);
    ghost var ids := IdsOf(store.workers, stale);
    if stale == [] {
      NoStaleIsNoChange(store.jobs, store.workers, now);
      return;
    }
    ghost var J0, W0 := store.jobs, store.workers;
    var workers, jobs := store.workers, store.jobs;
    var i := 0;
    while i < |stale|
      invariant 0 <= i <= |stale|
      invariant MarkedOffline(W0, workers, stale[..i])
      invariant jobs == Reclaimed(J0, ids[..i])
    {
      var id := workers[stale[i]].id;
      assert id == ids[i];
      MarkStep(W0, workers, stale, i);
      workers := workers[stale[i] := workers[stale[i]].(status := WorkerStatus.Offline)];
      var next := ReclaimJobsOf(jobs, id);
      ReclaimedStep(J0, ids, i, jobs, next);
      jobs := next;
      i := i + 1;
    }
    WholePrefix(stale);
    WholePrefix(ids);
    MarkedAllIsSwept(W0, workers, now);
    store.workers, store.jobs := workers, jobs;
  }

  lemma NoStaleIsNoChange(jobs: seq<Job>, workers: seq<WorkerNode>, now: Time)
    requires StaleWorkers(workers, now) == []
    ensures SweptWorkers(workers, now) == workers
    ensures SweptJobs(jobs, workers, now) == jobs
  {
    assert IdsOf(workers, []) == [];
  }

  /** workers is W0 with exactly the rows in done marked Offline. */
  predicate MarkedOffline(W0: seq<WorkerNode>, workers: seq<WorkerNode>, done: seq<nat>)
  {
    |workers| == |W0| &&
    forall r :: 0 <= r < |W0| ==>
      workers[r] == if r in done then W0[r].(status := WorkerStatus.Offline) else W0[r]
  }

  lemma MarkStep(W0: seq<WorkerNode>, workers: seq<WorkerNode>, stale: seq<nat>, i: nat)
    requires RowsIn(stale, |W0|) && Distinct(stale) && i < |stale|
    requires MarkedOffline(W0, workers, stale[..i])
    ensures MarkedOffline(W0, workers[stale[i] := workers[stale[i]].(status := WorkerStatus.Offline)], stale[..i + 1])
  {
    assert stale[i] !in stale[..i];
    assert stale[..i + 1] == stale[..i] + [stale[i]];
  }

  lemma MarkedAllIsSwept(W0: seq<WorkerNode>, workers: seq<WorkerNode>, now: Time)
    requires MarkedOffline(W0, workers, StaleWorkers(W0, now))
    ensures workers == SweptWorkers(W0, now)
  {
  }

  /**
   * What the sweep does to each worker: a stale worker ends Offline with every other field
   * (its ActiveJobCount included) unchanged; any other worker is untouched.
   */
  lemma SweepWorkerOutcome(workers: seq<WorkerNode>, now: Time, r: nat)
    requires r < |workers|
    ensures |SweptWorkers(workers, now)| == |workers|
    ensures var w := SweptWorkers(workers, now)[r];
      && (IsStale(workers[r], now) ==> w == workers[r].(status := WorkerStatus.Offline))
      && (!IsStale(workers[r], now) ==> w == workers[r])
      && (w.status != WorkerStatus.Offline ==> w == workers[r])
  {
  }

  /**
   * What the sweep does to each job: an InProgress job assigned to a stale worker becomes
   * Retrying when its retry budget is not spent and Failed otherwise, gets the offline
   * message and loses its worker, keeping its RetryCount; every other job is untouched.
   */
  lemma {:induction false} SweepJobOutcome(jobs: seq<Job>, workers: seq<WorkerNode>, now: Time, x: nat)
    requires x < |jobs|
    ensures |SweptJobs(jobs, workers, now)| == |jobs|
    ensures var j := jobs[x];
      var held := j.status == InProgress && j.assignedWorker.Some?
        && exists r :: 0 <= r < |workers| && IsStale(workers[r], now) && workers[r].id == j.assignedWorker.value;
      var j' := SweptJobs(jobs, workers, now)[x];
      && (held ==>
            && j'.status == (if j.retryCount < j.maxRetries then Retrying else Failed)
            && j'.errorMessage == Some(OfflineMessage) && j'.assignedWorker == None
            && j' == j.(status := j'.status, errorMessage := j'.errorMessage, assignedWorker := None))
      && (!held ==> j' == j)
  {
    var stale := StaleWorkers(workers, now);
    var ids := IdsOf(workers, stale);
    var j := jobs[x];
    if j.status == InProgress && j.assignedWorker.Some? {
      if exists r :: 0 <= r < |workers| && IsStale(workers[r], now) && workers[r].id == j.assignedWorker.value {
        var r :| 0 <= r < |workers| && IsStale(workers[r], now) && workers[r].id == j.assignedWorker.value;
        assert r in stale;
        var k :| 0 <= k < |stale| && stale[k] == r;
        assert ids[k] == j.assignedWorker.value;
      }
    }
  }

  /** No worker is stale after a sweep. */
  lemma {:induction false} NothingStaleAfterSweep(workers: seq<WorkerNode>, now: Time)
    ensures StaleWorkers(SweptWorkers(workers, now), now) == []
  {
    var swept := SweptWorkers(workers, now);
    assert forall r: nat :: r < |swept| ==> !IsStale(swept[r], now);
  }

  /** A second sweep at the same instant changes nothing. */
  lemma SweepIsIdempotent(jobs: seq<Job>, workers: seq<WorkerNode>, now: Time)
    ensures SweptWorkers(SweptWorkers(workers, now), now) == SweptWorkers(workers, now)
    ensures SweptJobs(SweptJobs(jobs, workers, now), SweptWorkers(workers, now), now) == SweptJobs(jobs, workers, now)
  {
    NothingStaleAfterSweep(workers, now);
  }

  /** The boundary of staleness: three minutes of silence is stale, exactly two minutes is not. */
  lemma StalenessBoundary(w: WorkerNode, now: Time)
    requires w.status != WorkerStatus.Offline && now >= 180
    ensures w.lastHeartbeat == now - 180 ==> IsStale(w, now)
    ensures w.lastHeartbeat == now - 120 ==> !IsStale(w, now)
    ensures w.lastHeartbeat >= now ==> !IsStale(w, now)
  {
  }
}
