/**
 * The job/worker store: the Jobs and WorkerNodes tables, each a sequence of rows in
 * a fixed table order, in which queries without an order are answered. A tracked
 * entity is referred to by its row number; a service that changes an entity and
 * then saves overwrites that row.
 */
module Persistence {
  import opened Domain

  class JobStore {
    var jobs: seq<Job>
    var workers: seq<WorkerNode>

    constructor (jobs: seq<Job>, workers: seq<WorkerNode>)
      ensures this.jobs == jobs && this.workers == workers
    {
      this.jobs := jobs;
      this.workers := workers;
    }
  }

  /** Every row reference in refs points into a table of n rows. */
  predicate RowsIn(refs: seq<nat>, n: nat)
  {
    forall k :: 0 <= k < |refs| ==> refs[k] < n
  }

  /** No row is referred to twice. */
  predicate Distinct(refs: seq<nat>)
  {
    forall a, b :: 0 <= a < b < |refs| ==> refs[a] != refs[b]
  }

  /** The first position holding key, or none exactly when no position does. */
  function FirstIndex<K(==)>(keys: seq<K>, key: K): (r: Option<nat>)
    ensures r.Some? ==> r.value < |keys| && keys[r.value] == key
    ensures r.Some? ==> forall k :: 0 <= k < r.value ==> keys[k] != key
    ensures r.None? <==> forall k :: 0 <= k < |keys| ==> keys[k] != key
  {
    if keys == [] then None
    else if keys[0] == key then Some(0)
    else match FirstIndex(keys[1..], key)
      case None => None
      case Some(k) => Some(k + 1)
  }

  /** Primary-key lookup of a job: the first row with that id. */
  function FindJobById(jobs: seq<Job>, id: int): (r: Option<nat>)
    ensures r.Some? ==> r.value < |jobs| && jobs[r.value].id == id
    ensures r.Some? ==> forall k :: 0 <= k < r.value ==> jobs[k].id != id
    ensures r.None? <==> forall k :: 0 <= k < |jobs| ==> jobs[k].id != id
  {
    var ids := seq(|jobs|, k requires 0 <= k < |jobs| => jobs[k].id);
    assert forall k :: 0 <= k < |jobs| ==> ids[k] == jobs[k].id;
    FirstIndex(ids, id)
  }

  /** Primary-key lookup of a worker: the first row with that id. */
  function FindWorkerById(workers: seq<WorkerNode>, id: string): (r: Option<nat>)
    ensures r.Some? ==> r.value < |workers| && workers[r.value].id == id
    ensures r.Some? ==> forall k :: 0 <= k < r.value ==> workers[k].id != id
    ensures r.None? <==> forall k :: 0 <= k < |workers| ==> workers[k].id != id
  {
    var ids := seq(|workers|, k requires 0 <= k < |workers| => workers[k].id);
    assert forall k :: 0 <= k < |workers| ==> ids[k] == workers[k].id;
    FirstIndex(ids, id)
  }

  /**
   * A Where query over a table of n rows: the rows satisfying keep, in table order.
   */
  function RowsWhere(n: nat, keep: nat -> bool): (refs: seq<nat>)
    ensures RowsIn(refs, n) && Distinct(refs) && |refs| <= n
    ensures forall a, b :: 0 <= a < b < |refs| ==> refs[a] < refs[b]
    ensures forall r: nat :: r in refs <==> r < n && keep(r)
    ensures (forall r: nat :: r < n ==> !keep(r)) ==> refs == []
  {
    if n == 0 then []
    else
      var prefix := RowsWhere(n - 1, keep);
      if keep(n - 1) then prefix + [n - 1] else prefix
  }
}
