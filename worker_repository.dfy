/**
 * The worker repository over the WorkerNodes table: the status filter, the lookup
 * by name used at registration, and the heartbeat overwrite.
 */
module WorkerRepository {
  import opened Domain
  import opened Persistence

  /** What a worker reports in a heartbeat. */
  datatype WorkerHeartbeat = WorkerHeartbeat(workerId: string, status: WorkerStatus, activeJobCount: int, timestamp: Time)

  /** The workers with the given status, in table order (the query itself has no order); with no status, every worker. */
  function WorkersByStatus(workers: seq<WorkerNode>, status: Option<WorkerStatus>): (refs: seq<nat>)
    ensures RowsIn(refs, |workers|) && Distinct(refs)
    ensures forall r: nat :: r in refs <==> r < |workers| && (status.None? || workers[r].status == status.value)
    ensures forall a, b :: 0 <= a < b < |refs| ==> refs[a] < refs[b]
  {
    RowsWhere(|workers|, StatusFilter(workers, status))
  }

  /** The row test of the status query. */
  function StatusFilter(workers: seq<WorkerNode>, status: Option<WorkerStatus>): nat -> bool
  {
    (r: nat) => status.None? || (r < |workers| && workers[r].status == status.value)
  }

  /** The registration lookup: the first worker with that name that is not Offline. */
  function WorkerByName(workers: seq<WorkerNode>, name: string): (r: Option<nat>)
    ensures r.Some? ==> r.value < |workers| && workers[r.value].name == name
    ensures r.Some? ==> workers[r.value].status != WorkerStatus.Offline
    ensures r.Some? ==> forall k :: 0 <= k < r.value ==>
      workers[k].name != name || workers[k].status == WorkerStatus.Offline
    ensures r.None? <==> forall k :: 0 <= k < |workers| ==>
      workers[k].name != name || workers[k].status == WorkerStatus.Offline
  {
    if workers == [] then None
    else if workers[0].name == name && workers[0].status != WorkerStatus.Offline then Some(0)
    else match WorkerByName(workers[1..], name)
      case None => None
      case Some(k) => Some(k + 1)
  }

  /** The worker record after a heartbeat: time, status and load come from the heartbeat. */
  function ApplyHeartbeat(w: WorkerNode, hb: WorkerHeartbeat): (u: WorkerNode)
    ensures u.lastHeartbeat == hb.timestamp && u.status == hb.status && u.activeJobCount == hb.activeJobCount
    ensures u.id == w.id && u.name == w.name && u.concurrencyLimit == w.concurrencyLimit
    ensures u.currentJobId == w.currentJobId
  {
    w.(lastHeartbeat := hb.timestamp, status := hb.status, activeJobCount := hb.activeJobCount)
  }

  /**
   * Records a heartbeat for the worker with that id: false and nothing changed when
   * there is none; otherwise its heartbeat time, status and load are overwritten.
   */
  method UpdateWorkerHeartbeat(store: JobStore, id: string, hb: WorkerHeartbeat) returns (updated: bool)
    modifies store
    ensures store.jobs == old(store.jobs)
    ensures updated <==> FindWorkerById(old(store.workers), id).Some?
    ensures !updated ==> store.workers == old(store.workers)
    ensures updated ==> var r := FindWorkerById(old(store.workers), id).value;
      store.workers == old(store.workers)[r := ApplyHeartbeat(old(store.workers)[r], hb)]
  {
    var found := FindWorkerById(store.workers, id);
    if found.None? {
      return false;
    }
    var r := found.value;
    var worker := store.workers[r];
    worker := worker.(lastHeartbeat := hb.timestamp);
    worker := worker.(status := hb.status);
    worker := worker.(activeJobCount := hb.activeJobCount);
    store.workers := store.workers[r := worker];
    updated := true;
  }

  /**
   * A heartbeat brings back a worker the sweep took offline: the worker takes the
   * status it reports, however it was marked before.
   */
  lemma HeartbeatOverridesOffline(w: WorkerNode, hb: WorkerHeartbeat)
    requires w.status == WorkerStatus.Offline && hb.status != WorkerStatus.Offline
    ensures ApplyHeartbeat(w, hb).status == hb.status
    ensures ApplyHeartbeat(w, hb).status != WorkerStatus.Offline
  {
  }

  /**
   * The registration lookup never yields an Offline worker, so a registration
   * that goes through it never finds one to reactivate.
   */
  lemma LookupSkipsOffline(workers: seq<WorkerNode>, name: string, r: nat)
    requires r < |workers| && workers[r].status == WorkerStatus.Offline
    ensures WorkerByName(workers, name) != Some(r)
  {
  }
}
