/**
 * The store-side worker service: registration (conflict, reactivation of an
 * Offline record, or creation), status updates, the guard chain that decides
 * whether a job may be assigned to a worker, and the listing of a worker's jobs.
 *
 * Registration receives the result of the lookup by name as a parameter (the row
 * of an existing record with the worker's name, or none), so the rules hold for
 * any lookup by name; the repository's own lookup is one instance of it.
 */
module WorkerService {
  import opened Domain
  import opened Persistence
  import WorkerRepository
  import JobQueueService

  /**
   * Registration over the WorkerNodes table: the record handed back (none for a
   * conflict) and the table afterwards.
   */
  function Registered(workers: seq<WorkerNode>, worker: WorkerNode, existing: Option<nat>,
                      freshId: string, now: Time): (r: (Option<WorkerNode>, seq<WorkerNode>))
    // existing is the lookup by the worker's name
    requires existing.Some? ==> existing.value < |workers| && workers[existing.value].name == worker.name
    // a conflict: a live record already holds the name, and nothing changes
    ensures r.0.None? <==> existing.Some? && workers[existing.value].status != WorkerStatus.Offline
    ensures r.0.None? ==> r.1 == workers
    // whatever record is handed back is Idle and heartbeated now
    ensures r.0.Some? ==> r.0.value.status == Idle && r.0.value.lastHeartbeat == now
    // reactivation: the same record, in place, with no load
    ensures existing.Some? && r.0.Some? ==>
      var e := existing.value;
      && r.0.value == workers[e].(status := Idle, lastHeartbeat := now, activeJobCount := 0)
      && r.1 == workers[e := r.0.value]
    // creation: the caller's record, keeping a non-empty id, appended at the end
    ensures existing.None? ==>
      && r.0.Some?
      && r.1 == workers + [r.0.value]
      && r.0.value.id == (if worker.id == "" then freshId else worker.id)
      && r.0.value == worker.(id := r.0.value.id, status := Idle, lastHeartbeat := now)
  {
    match existing
    case Some(e) =>
      if workers[e].status == WorkerStatus.Offline then
        var revived := workers[e].(status := Idle, lastHeartbeat := now, activeJobCount := 0);
        (Some(revived), workers[e := revived])
      else (None, workers)
    case None =>
      var id := if worker.id == "" then freshId else worker.id;
      var created := worker.(id := id, lastHeartbeat := now, status := Idle);
      (Some(created), workers + [created])
  }

  /**
   * Registers a worker: a conflict returns none; an Offline record with the name is
   * revived in place; otherwise the worker is given an id if it has none, marked
   * Idle and added.
   */
  method RegisterWorker(store: JobStore, worker: WorkerNode, existing: Option<nat>, freshId: string, now: Time)
    returns (registered: Option<WorkerNode>)
    requires existing.Some? ==> existing.value < |store.workers| && store.workers[existing.value].name == worker.name
    modifies store
    ensures store.jobs == old(store.jobs)
    ensures (registered, store.workers) == Registered(old(store.workers), worker, existing, freshId, now)
  {
    if existing.Some? {
      var e := existing.value;
      var found := store.workers[e];
      if found.status == WorkerStatus.Offline {
        found := found.(status := Idle);
        found := found.(lastHeartbeat := now);
        found := found.(activeJobCount := 0);
        store.workers := store.workers[e := found];
        return Some(found);
      }
      return None;
    }
    var w := worker;
    if w.id == "" {
      w := w.(id := freshId);
    }
    w := w.(lastHeartbeat := now);
    w := w.(status := Idle);
    store.workers := store.workers + [w];
    registered := Some(w);
  }

  /** A revived record keeps its identity and limit, and can take work again if its limit allows any. */
  lemma ReactivationRevives(workers: seq<WorkerNode>, worker: WorkerNode, e: nat, freshId: string, now: Time)
    requires e < |workers| && workers[e].name == worker.name && workers[e].status == WorkerStatus.Offline
    ensures var r := Registered(workers, worker, Some(e), freshId, now);
      && r.0.Some? && |r.1| == |workers|
      && r.0.value.id == workers[e].id && r.0.value.name == workers[e].name
      && r.0.value.concurrencyLimit == workers[e].concurrencyLimit
      && (JobQueueService.IsAvailableWorker(r.0.value) <==> workers[e].concurrencyLimit > 0)
      && !JobQueueService.IsStale(r.0.value, now)
  {
  }

  /**
   * Registration through the repository's lookup never reactivates: a name held
   * only by Offline records gets a new record appended, so the name is then held
   * twice.
   */
  lemma RepositoryLookupNeverReactivates(workers: seq<WorkerNode>, worker: WorkerNode, freshId: string, now: Time)
    ensures var r := Registered(workers, worker, WorkerRepository.WorkerByName(workers, worker.name), freshId, now);
      r.0.Some? ==> r.1 == workers + [r.0.value]
    ensures forall e :: 0 <= e < |workers| && workers[e].name == worker.name && workers[e].status == WorkerStatus.Offline ==>
      var r := Registered(workers, worker, WorkerRepository.WorkerByName(workers, worker.name), freshId, now);
      r.0.Some? ==> r.1[e].name == r.1[|workers|].name
  {
    var existing := WorkerRepository.WorkerByName(workers, worker.name);
    var r := Registered(workers, worker, existing, freshId, now);
    if r.0.Some? {
      assert existing.None?;
    }
  }

  /** A worker record after a status update: the new status, heartbeated now. */
  function StatusUpdated(w: WorkerNode, newStatus: WorkerStatus, now: Time): (u: WorkerNode)
    ensures u.status == newStatus && u.lastHeartbeat == now
    ensures u == w.(status := u.status, lastHeartbeat := u.lastHeartbeat)
  {
    w.(status := newStatus, lastHeartbeat := now)
  }

  /**
   * Sets a worker's status: false and nothing changed for an unknown id; otherwise
   * the status is set and the heartbeat time refreshed.
   */
  method UpdateWorkerStatus(store: JobStore, id: string, newStatus: WorkerStatus, now: Time) returns (updated: bool)
    modifies store
    ensures store.jobs == old(store.jobs)
    ensures updated <==> FindWorkerById(old(store.workers), id).Some?
    ensures !updated ==> store.workers == old(store.workers)
    ensures updated ==> var r := FindWorkerById(old(store.workers), id).value;
      store.workers == old(store.workers)[r := StatusUpdated(old(store.workers)[r], newStatus, now)]
  {
    var found := FindWorkerById(store.workers, id);
    if found.None? {
      return false;
    }
    var r := found.value;
    var worker := store.workers[r];
    worker := worker.(status := newStatus);
    worker := worker.(lastHeartbeat := now);
    store.workers := store.workers[r := worker];
    updated := true;
  }

  /** A worker whose status was just set to anything but Offline is not swept as stale at that instant. */
  lemma UpdatedWorkerIsFresh(w: WorkerNode, newStatus: WorkerStatus, now: Time)
    requires newStatus != WorkerStatus.Offline
    ensures !JobQueueService.IsStale(StatusUpdated(w, newStatus, now), now)
  {
  }

  /** The assign guard chain over the looked-up worker: NotFound, then Offline, then AtCapacity, else Success. */
  function AssignVerdict(worker: Option<WorkerNode>): (r: AssignJobResult)
    ensures r == NotFound <==> worker.None?
    ensures r == AssignJobResult.Offline <==> worker.Some? && worker.value.status == WorkerStatus.Offline
    ensures r == AtCapacity <==>
      worker.Some? && worker.value.status != WorkerStatus.Offline
      && worker.value.activeJobCount >= worker.value.concurrencyLimit
    ensures r == Success <==> worker.Some? && JobQueueService.IsAvailableWorker(worker.value)
  {
    if worker.None? then NotFound
    else if worker.value.status == WorkerStatus.Offline then AssignJobResult.Offline
    else if worker.value.activeJobCount >= worker.value.concurrencyLimit then AtCapacity
    else Success
  }

  /** The worker with that id, if there is one. */
  function WorkerWithId(workers: seq<WorkerNode>, id: string): (w: Option<WorkerNode>)
    ensures w.Some? <==> FindWorkerById(workers, id).Some?
    ensures w.Some? ==> w.value.id == id && w.value in workers
  {
    match FindWorkerById(workers, id)
    case None => None
    case Some(r) => Some(workers[r])
  }

  /**
   * Whether a job may be assigned to the worker with that id. It has no side
   * effect: the answer depends on the worker table alone, whatever the job.
   */
  function AssignJobToWorker(workers: seq<WorkerNode>, workerId: string, job: Job): (r: AssignJobResult)
    ensures r == NotFound <==> forall k :: 0 <= k < |workers| ==> workers[k].id != workerId
    ensures r == Success <==>
      exists k :: 0 <= k < |workers| && workers[k].id == workerId
        && (forall i :: 0 <= i < k ==> workers[i].id != workerId)
        && JobQueueService.IsAvailableWorker(workers[k])
  {
    var found := FindWorkerById(workers, workerId);
    assert found.Some? ==> workers[found.value] == WorkerWithId(workers, workerId).value;
    AssignVerdict(WorkerWithId(workers, workerId))
  }

  /** The answer to a request for a worker's jobs: none for an unknown worker, else the repository's list. */
  function GetWorkerJobs(workers: seq<WorkerNode>, workerId: string, listed: seq<Job>): (r: Option<seq<Job>>)
    ensures r.None? <==> forall k :: 0 <= k < |workers| ==> workers[k].id != workerId
    ensures r.Some? ==> r.value == listed
  {
    if FindWorkerById(workers, workerId).None? then None else Some(listed)
  }
}
