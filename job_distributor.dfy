/**
 * The capacity- and priority-aware job distributor.
 *
 * Workers are grouped into buckets keyed by spare capacity (ConcurrencyLimit -
 * ActiveJobCount). Jobs are visited in priority order; each job takes the first worker
 * of the highest non-empty bucket, and that worker moves one bucket down (or leaves the
 * buckets when its new key is not positive). The job and worker are marked assigned,
 * the external assignment call is made, and a failed call is rolled back. The first
 * job that finds no worker ends the run.
 *
 * The two entity lists are row references into the store's tables; the bucket
 * dictionary is a map from key to a list of worker rows, passed to and returned from
 * the selection step. The outcome of the k-th external assignment call is accepted[k].
 */
module JobDistributor {
  import opened Domain
  import opened Ordering
  import opened Persistence

  /** The instant a job is ordered by: its scheduled time, or the earliest instant when it has none. */
  function TimeKey(j: Job): Time
  {
    match j.scheduledTime
    case None => MinTime
    case Some(t) => t
  }

  /** Sort key of a job: priority descending, then scheduled time ascending. */
  function JobRank(j: Job): Rank
  {
    (-PriorityValue(j.priority), TimeKey(j))
  }

  function JobRanks(jobs: seq<Job>): (ranks: seq<Rank>)
    ensures |ranks| == |jobs|
    ensures forall k :: 0 <= k < |jobs| ==> ranks[k] == JobRank(jobs[k])
  {
    seq(|jobs|, k requires 0 <= k < |jobs| => JobRank(jobs[k]))
  }

  /**
   * GetPrioritizedJobs: the order in which the jobs of a list are visited, as positions
   * into the list. It is a permutation, non-decreasing in JobRank, and stable: jobs with
   * equal priority and equal scheduled-time key keep their list order.
   */
  function GetPrioritizedJobs(jobs: seq<Job>): (p: seq<nat>)
    ensures IsPermutation(p, |jobs|)
    ensures forall a, b :: 0 <= a < b < |p| ==> RankAtMost(JobRank(jobs[p[a]]), JobRank(jobs[p[b]]))
    ensures forall a, b :: 0 <= a < b < |p| && JobRank(jobs[p[a]]) == JobRank(jobs[p[b]]) ==> p[a] < p[b]
  {
    var p := StableOrder(JobRanks(jobs));
    assert forall a, b :: 0 <= a < b < |p| ==> Precedes(JobRanks(jobs), p[a], p[b]);
    p
  }

  /**
   * The priority order is determined by its three properties: any permutation of the
   * positions that is non-decreasing in JobRank and keeps ties in list order is it.
   */
  lemma PrioritizedOrderIsUnique(jobs: seq<Job>, q: seq<nat>)
    requires IsPermutation(q, |jobs|)
    requires forall a, b :: 0 <= a < b < |q| ==> RankAtMost(JobRank(jobs[q[a]]), JobRank(jobs[q[b]]))
    requires forall a, b :: 0 <= a < b < |q| && JobRank(jobs[q[a]]) == JobRank(jobs[q[b]]) ==> q[a] < q[b]
    ensures q == GetPrioritizedJobs(jobs)
  {
    var ranks := JobRanks(jobs);
    assert SortedBy(ranks, q) by {
      forall a, b | 0 <= a < b < |q| ensures Precedes(ranks, q[a], q[b]) {
        assert q[a] in q && q[b] in q;
      }
    }
    var p := GetPrioritizedJobs(jobs);
    assert SortedBy(ranks, p);
    SortedIsUnique(ranks, p, q);
  }

  /** No Regular job is visited before a High one. */
  lemma HighPriorityFirst(jobs: seq<Job>, a: nat, b: nat)
    requires a < b < |jobs|
    ensures var p := GetPrioritizedJobs(jobs);
      jobs[p[b]].priority == High ==> jobs[p[a]].priority == High
  {
  }

  /** The row references refs rearranged by the position permutation p. */
  function Arrange(refs: seq<nat>, p: seq<nat>): (r: seq<nat>)
    requires IsPermutation(p, |refs|)
    ensures |r| == |refs|
    ensures forall k :: 0 <= k < |r| ==> r[k] == refs[p[k]]
  {
    seq(|p|, k requires 0 <= k < |p| => refs[p[k]])
  }

  lemma ArrangeKeepsRows(refs: seq<nat>, p: seq<nat>, n: nat)
    requires IsPermutation(p, |refs|)
    ensures forall x :: x in Arrange(refs, p) <==> x in refs
    ensures Distinct(refs) ==> Distinct(Arrange(refs, p))
    ensures RowsIn(refs, n) ==> RowsIn(Arrange(refs, p), n)
  {
    var r := Arrange(refs, p);
    forall x | x in refs ensures x in r {
      var i :| 0 <= i < |refs| && refs[i] == x;
      assert i in p;
      var a :| 0 <= a < |p| && p[a] == i;
      assert r[a] == x;
    }
  }

  /** The rows of the pending list in visiting order: GetPrioritizedJobs of their jobs. */
  function VisitOrder(jobs: seq<Job>, pendingJobs: seq<nat>): (order: seq<nat>)
    requires RowsIn(pendingJobs, |jobs|)
    ensures |order| == |pendingJobs|
    ensures RowsIn(order, |jobs|)
    ensures forall x :: x in order <==> x in pendingJobs
    ensures Distinct(pendingJobs) ==> Distinct(order)
    ensures forall a, b :: 0 <= a < b < |order| ==> RankAtMost(JobRank(jobs[order[a]]), JobRank(jobs[order[b]]))
  {
    var values := seq(|pendingJobs|, i requires 0 <= i < |pendingJobs| => jobs[pendingJobs[i]]);
    var p := GetPrioritizedJobs(values);
    ArrangeKeepsRows(pendingJobs, p, |jobs|);
    Arrange(pendingJobs, p)
  }

  /** The first n visited jobs, as they were before the run. */
  function Visited(jobs: seq<Job>, order: seq<nat>, n: nat): (v: seq<Job>)
    requires RowsIn(order, |jobs|) && n <= |order|
    ensures |v| == n
  {
    seq(n, a requires 0 <= a < n => jobs[order[a]])
  }

  // ---------------------------------------------------------------------------
  // Capacity buckets

  function WorkerLoads(workers: seq<WorkerNode>, refs: seq<nat>): (ranks: seq<Rank>)
    requires RowsIn(refs, |workers|)
    ensures |ranks| == |refs|
    ensures forall k :: 0 <= k < |refs| ==> ranks[k] == (workers[refs[k]].activeJobCount, 0)
  {
    seq(|refs|, k requires 0 <= k < |refs| => (workers[refs[k]].activeJobCount, 0))
  }

  /**
   * The order OrderBy(ActiveJobCount) visits the workers in, as positions into refs: a
   * permutation, ascending in ActiveJobCount, and stable: workers with equal counts keep
   * their list order.
   */
  function LoadOrder(workers: seq<WorkerNode>, refs: seq<nat>): (p: seq<nat>)
    requires RowsIn(refs, |workers|)
    ensures IsPermutation(p, |refs|)
  {
    StableOrder(WorkerLoads(workers, refs))
  }

  /** The load order is ascending in active job count, and workers with equal counts keep their input order. */
  lemma LoadOrderIsStable(workers: seq<WorkerNode>, refs: seq<nat>)
    requires RowsIn(refs, |workers|)
    ensures var p := LoadOrder(workers, refs);
      && (forall a, b :: 0 <= a < b < |p| ==>
            workers[refs[p[a]]].activeJobCount <= workers[refs[p[b]]].activeJobCount)
      && (forall a, b :: 0 <= a < b < |p| ==>
            workers[refs[p[a]]].activeJobCount == workers[refs[p[b]]].activeJobCount ==> p[a] < p[b])
  {
    var ranks := WorkerLoads(workers, refs);
    var p := StableOrder(ranks);
    assert forall a, b :: 0 <= a < b < |p| ==> Precedes(ranks, p[a], p[b]);
  }

  /**
   * The load order is determined by its three properties: any permutation of the positions
   * that is ascending in ActiveJobCount and keeps equal counts in list order is it.
   */
  lemma LoadOrderIsUnique(workers: seq<WorkerNode>, refs: seq<nat>, q: seq<nat>)
    requires RowsIn(refs, |workers|)
    requires IsPermutation(q, |refs|)
    requires forall a, b :: 0 <= a < b < |q| ==>
      workers[refs[q[a]]].activeJobCount <= workers[refs[q[b]]].activeJobCount
    requires forall a, b ::
      0 <= a < b < |q| && workers[refs[q[a]]].activeJobCount == workers[refs[q[b]]].activeJobCount ==> q[a] < q[b]
    ensures q == LoadOrder(workers, refs)
  {
    var ranks := WorkerLoads(workers, refs);
    assert SortedBy(ranks, q) by {
      forall a, b | 0 <= a < b < |q| ensures Precedes(ranks, q[a], q[b]) {
        assert q[a] in q && q[b] in q;
      }
    }
    var p := StableOrder(ranks);
    SortedIsUnique(ranks, p, q);
  }

  /** The worker rows stably ordered by ActiveJobCount. */
  function OrderByActiveJobCount(workers: seq<WorkerNode>, refs: seq<nat>): (ordered: seq<nat>)
    requires RowsIn(refs, |workers|)
    ensures |ordered| == |refs|
    ensures RowsIn(ordered, |workers|)
    ensures forall x :: x in ordered <==> x in refs
    ensures Distinct(refs) ==> Distinct(ordered)
  {
    var p := LoadOrder(workers, refs);
    ArrangeKeepsRows(refs, p, |workers|);
    Arrange(refs, p)
  }

  /**
   * The reordered workers are the list rearranged by the load order: their active job
   * counts never decrease, and workers with equal counts come in their list order.
   */
  lemma OrderByActiveJobCountIsSorted(workers: seq<WorkerNode>, refs: seq<nat>)
    requires RowsIn(refs, |workers|)
    ensures var ordered := OrderByActiveJobCount(workers, refs);
      var p := LoadOrder(workers, refs);
      && (forall k :: 0 <= k < |ordered| ==> ordered[k] == refs[p[k]])
      && (forall a, b :: 0 <= a < b < |ordered| ==>
            workers[ordered[a]].activeJobCount <= workers[ordered[b]].activeJobCount)
  {
    LoadOrderIsStable(workers, refs);
  }

  /** The rows of refs whose spare capacity is key, in the order of refs. */
  function WithSpare(workers: seq<WorkerNode>, refs: seq<nat>, key: int): (r: seq<nat>)
    requires RowsIn(refs, |workers|)
    ensures RowsIn(r, |workers|)
    ensures forall x :: x in r <==> x in refs && Spare(workers[x]) == key
    ensures Distinct(refs) ==> Distinct(r)
  {
    if refs == [] then []
    else
      var rest := WithSpare(workers, refs[1..], key);
      assert forall x :: x in refs <==> x == refs[0] || x in refs[1..];
      if Spare(workers[refs[0]]) == key then
        assert Distinct(refs) ==> refs[0] !in refs[1..];
        [refs[0]] + rest
      else rest
  }

  /**
   * GroupWorkersByAvailableCapacity: one bucket per spare-capacity value present among
   * the workers (zero and negative values included), listing the workers with that
   * spare capacity in ActiveJobCount order.
   */
  function GroupWorkersByAvailableCapacity(workers: seq<WorkerNode>, refs: seq<nat>): (buckets: map<int, seq<nat>>)
    requires RowsIn(refs, |workers|)
    ensures forall key :: key in buckets <==> exists i :: 0 <= i < |refs| && Spare(workers[refs[i]]) == key
    ensures forall key :: key in buckets ==>
      buckets[key] != [] && buckets[key] == WithSpare(workers, OrderByActiveJobCount(workers, refs), key)
  {
    var ordered := OrderByActiveJobCount(workers, refs);
    var keys := set i | 0 <= i < |refs| :: Spare(workers[refs[i]]);
    var buckets := map key | key in keys :: WithSpare(workers, ordered, key);
    assert forall key :: key in buckets ==> buckets[key] != [] by {
      forall key | key in buckets ensures buckets[key] != [] {
        var i :| 0 <= i < |refs| && Spare(workers[refs[i]]) == key;
        OwnBucket(workers, refs, i);
      }
    }
    buckets
  }

  /** Every worker is listed in the bucket of its own spare capacity. */
  lemma OwnBucket(workers: seq<WorkerNode>, refs: seq<nat>, i: nat)
    requires RowsIn(refs, |workers|) && i < |refs|
    ensures refs[i] in WithSpare(workers, OrderByActiveJobCount(workers, refs), Spare(workers[refs[i]]))
  {
    assert refs[i] in refs;
  }

  predicate AllEmpty(buckets: map<int, seq<nat>>)
  {
    forall k :: k in buckets ==> buckets[k] == []
  }

  /** key is the largest key whose bucket is non-empty. */
  predicate IsTopBucket(buckets: map<int, seq<nat>>, key: int)
  {
    key in buckets && buckets[key] != [] && forall k :: k in buckets && k > key ==> buckets[k] == []
  }

  /** The buckets after the first worker of bucket key moved one bucket down. */
  function TakeFirst(buckets: map<int, seq<nat>>, key: int): map<int, seq<nat>>
    requires key in buckets && buckets[key] != []
  {
    var worker := buckets[key][0];
    var rest := buckets[key := buckets[key][1..]];
    if key - 1 > 0 then rest[key - 1 := (if key - 1 in rest then rest[key - 1] else []) + [worker]]
    else rest
  }

  lemma HasMember(keys: set<int>)
    requires keys != {}
    ensures exists k :: k in keys
  {
    if forall k :: k !in keys {
      assert false;
    }
  }

  /** The largest key of a non-empty key set. */
  lemma {:induction false} MaxKey(keys: set<int>) returns (m: int)
    requires keys != {}
    ensures m in keys && forall k :: k in keys ==> k <= m
  {
    HasMember(keys);
    var x :| x in keys;
    var rest := keys - {x};
    if rest == {} {
      m := x;
      assert keys == rest + {x};
    } else {
      var r := MaxKey(rest);
      m := if r < x then x else r;
      forall k | k in keys ensures k <= m {
        if k != x {
          assert k in rest;
        }
      }
    }
  }

  /**
   * SelectWorkerWithCapacity: scans the keys from the largest down and takes the first
   * worker of the first non-empty bucket; no worker only when every bucket is empty.
   */
  method SelectWorkerWithCapacity(buckets: map<int, seq<nat>>)
    returns (updated: map<int, seq<nat>>, selected: Option<nat>, ghost key: int)
    ensures selected.None? <==> AllEmpty(buckets)
    ensures selected.None? ==> updated == buckets
    ensures selected.Some? ==>
      IsTopBucket(buckets, key) && selected.value == buckets[key][0] && updated == TakeFirst(buckets, key)
  {
    var keys := buckets.Keys;
    while keys != {}
      invariant keys <= buckets.Keys
      invariant forall k :: k in buckets && k !in keys ==> buckets[k] == []
      invariant forall k, k' :: k in buckets && k !in keys && k' in keys ==> k' < k
      decreases |keys|
    {
      ghost var top := MaxKey(keys);
      var capacity :| capacity in keys && forall k :: k in keys ==> k <= capacity;
      if buckets[capacity] != [] {
        var worker := buckets[capacity][0];
        updated := buckets[capacity := buckets[capacity][1..]];
        var newCapacity := capacity - 1;
        if newCapacity > 0 {
          if newCapacity !in updated {
            updated := updated[newCapacity := []];
          }
          updated := updated[newCapacity := updated[newCapacity] + [worker]];
        }
        return updated, Some(worker), capacity;
      }
      keys := keys - {capacity};
    }
    return buckets, None, 0;
  }

  /** Whenever some bucket is non-empty, there is a top bucket. */
  lemma TopExists(buckets: map<int, seq<nat>>)
    requires !AllEmpty(buckets)
    ensures exists key :: IsTopBucket(buckets, key)
  {
    var full := set k | k in buckets && buckets[k] != [];
    var k0 :| k0 in buckets && buckets[k0] != [];
    assert k0 in full;
    var m := MaxKey(full);
    forall k | k in buckets && buckets[k] != []
      ensures k <= m
    {
      assert k in full;
    }
    assert IsTopBucket(buckets, m);
  }

  lemma TopIsUnique(buckets: map<int, seq<nat>>, k1: int, k2: int)
    requires IsTopBucket(buckets, k1) && IsTopBucket(buckets, k2)
    ensures k1 == k2
  {
  }

  /** The bucket SelectWorkerWithCapacity takes from: the largest key with a non-empty bucket. */
  ghost function TopKey(buckets: map<int, seq<nat>>): (key: int)
    requires !AllEmpty(buckets)
    ensures IsTopBucket(buckets, key)
  {
    TopExists(buckets);
    var key :| IsTopBucket(buckets, key);
    key
  }

  /** The buckets after n selections from B0; a selection from empty buckets changes nothing. */
  ghost function BucketsAfter(B0: map<int, seq<nat>>, n: nat): map<int, seq<nat>>
  {
    if n == 0 then B0
    else
      var b := BucketsAfter(B0, n - 1);
      if AllEmpty(b) then b else TakeFirst(b, TopKey(b))
  }

  /**
   * The workers the first n selections from B0 return, in order: each is the head of
   * the top bucket of the buckets left by the earlier ones. Fewer than n once the
   * buckets run dry.
   */
  ghost function Selections(B0: map<int, seq<nat>>, n: nat): (picks: seq<nat>)
    ensures |picks| <= n
  {
    if n == 0 then []
    else
      var b := BucketsAfter(B0, n - 1);
      Selections(B0, n - 1) + (if AllEmpty(b) then [] else [b[TopKey(b)][0]])
  }

  /** Each selection adds at most one pick, and later selections extend earlier ones. */
  lemma {:induction false} SelectionsExtend(B0: map<int, seq<nat>>, m: nat, n: nat)
    requires m <= n
    ensures |Selections(B0, m)| <= |Selections(B0, n)| <= |Selections(B0, m)| + (n - m)
    ensures forall j :: 0 <= j < |Selections(B0, m)| ==> Selections(B0, n)[j] == Selections(B0, m)[j]
    decreases n - m
  {
    if m < n {
      SelectionsExtend(B0, m, n - 1);
    }
  }

  /**
   * chosen is what the selections from the grouping of the workers refs return: the head
   * of the top bucket, one pick after the other.
   */
  ghost predicate SelectedByPolicy(W0: seq<WorkerNode>, refs: seq<nat>, chosen: seq<nat>)
  {
    RowsIn(refs, |W0|) && chosen == Selections(GroupWorkersByAvailableCapacity(W0, refs), |chosen|)
  }

  /** Before any selection nothing is picked. */
  lemma NothingSelected(W0: seq<WorkerNode>, refs: seq<nat>)
    requires RowsIn(refs, |W0|)
    ensures SelectedByPolicy(W0, refs, [])
  {
  }

  /** buckets and chosen are the state after k selections from B0. */
  ghost predicate FollowsSelections(B0: map<int, seq<nat>>, k: nat, buckets: map<int, seq<nat>>, chosen: seq<nat>)
  {
    buckets == BucketsAfter(B0, k) && chosen == Selections(B0, k)
  }

  /** One more selection takes the head of the top bucket and moves it one bucket down. */
  lemma SelectionStep(B0: map<int, seq<nat>>, k: nat, buckets: map<int, seq<nat>>, chosen: seq<nat>, key: int)
    requires FollowsSelections(B0, k, buckets, chosen) && IsTopBucket(buckets, key)
    ensures FollowsSelections(B0, k + 1, TakeFirst(buckets, key), chosen + [buckets[key][0]])
  {
    TopIsUnique(buckets, key, TopKey(buckets));
  }

  /** If k + 1 selections pick k + 1 workers, the first k picked k and the buckets were not empty. */
  lemma SelectionsFull(B0: map<int, seq<nat>>, k: nat)
    requires |Selections(B0, k + 1)| == k + 1
    ensures var b := BucketsAfter(B0, k);
      && |Selections(B0, k)| == k && !AllEmpty(b)
      && Selections(B0, k + 1) == Selections(B0, k) + [b[TopKey(b)][0]]
  {
  }

  /** Along the selections from the initial grouping, the buckets keep tracking the picks. */
  lemma {:induction false} SelectionsTrack(B0: map<int, seq<nat>>, W0: seq<WorkerNode>, refs: seq<nat>, n: nat)
    requires Tracks(B0, W0, refs, []) && PicksBounded(W0, refs, [])
    ensures Tracks(BucketsAfter(B0, n), W0, refs, Selections(B0, n))
    ensures PicksBounded(W0, refs, Selections(B0, n))
  {
    if n == 0 {
      assert BucketsAfter(B0, 0) == B0 && Selections(B0, 0) == [];
    } else {
      SelectionsTrack(B0, W0, refs, n - 1);
      var b, c := BucketsAfter(B0, n - 1), Selections(B0, n - 1);
      if AllEmpty(b) {
        assert BucketsAfter(B0, n) == b && Selections(B0, n) == c;
      } else {
        var key := TopKey(b);
        SelectKeepsTracking(b, W0, refs, c, key);
        assert BucketsAfter(B0, n) == TakeFirst(b, key) && Selections(B0, n) == c + [b[key][0]];
      }
    }
  }

  /** The worker the next selection takes is one of the workers, and it can still take a job. */
  lemma SelectionPicksWorker(B0: map<int, seq<nat>>, W0: seq<WorkerNode>, refs: seq<nat>, k: nat, key: int)
    requires Tracks(B0, W0, refs, []) && PicksBounded(W0, refs, [])
    requires IsTopBucket(BucketsAfter(B0, k), key)
    ensures var x := BucketsAfter(B0, k)[key][0];
      x in refs && PicksBounded(W0, refs, Selections(B0, k) + [x])
  {
    SelectionsTrack(B0, W0, refs, k);
    SelectKeepsTracking(BucketsAfter(B0, k), W0, refs, Selections(B0, k), key);
  }

  /** Once the buckets are empty, every worker has been picked max(1, spare) times. */
  lemma SelectionsExhaust(B0: map<int, seq<nat>>, W0: seq<WorkerNode>, refs: seq<nat>, n: nat)
    requires Tracks(B0, W0, refs, []) && PicksBounded(W0, refs, [])
    requires AllEmpty(BucketsAfter(B0, n))
    ensures forall r :: r in refs ==> Picks(Selections(B0, n), r) == Max1(Spare(W0[r]))
  {
    SelectionsTrack(B0, W0, refs, n);
    EmptyBucketsMeanFull(BucketsAfter(B0, n), W0, refs, Selections(B0, n));
  }


  /** The selected worker has the most spare capacity left among the workers still live. */
  lemma SelectionIsGreedy(buckets: map<int, seq<nat>>, W0: seq<WorkerNode>, refs: seq<nat>, chosen: seq<nat>,
                          key: int, r: nat)
    requires Tracks(buckets, W0, refs, chosen) && IsTopBucket(buckets, key)
    requires r in refs && Live(W0, chosen, r)
    ensures var x := buckets[key][0];
      Spare(W0[r]) - Picks(chosen, r) <= Spare(W0[x]) - Picks(chosen, x)
  {
    var k := Spare(W0[r]) - Picks(chosen, r);
    assert Listed(buckets, r, k);
    assert BelongsAt(W0, refs, chosen, buckets[key][0], key);
  }

  /** Selection k + 1 from the initial grouping takes a worker with the most spare capacity left. */
  lemma SelectionsAreGreedy(W0: seq<WorkerNode>, refs: seq<nat>, k: nat, r: nat)
    requires RowsIn(refs, |W0|) && Distinct(refs)
    requires |Selections(GroupWorkersByAvailableCapacity(W0, refs), k + 1)| == k + 1
    requires r in refs && Live(W0, Selections(GroupWorkersByAvailableCapacity(W0, refs), k), r)
    ensures var B0 := GroupWorkersByAvailableCapacity(W0, refs);
      var picks, x := Selections(B0, k), Selections(B0, k + 1)[k];
      x in refs && Spare(W0[r]) - Picks(picks, r) <= Spare(W0[x]) - Picks(picks, x)
  {
    var B0 := GroupWorkersByAvailableCapacity(W0, refs);
    SelectionsFull(B0, k);
    var b := BucketsAfter(B0, k);
    GroupTracks(W0, refs);
    SelectionsTrack(B0, W0, refs, k);
    assert ListedAreLive(b, W0, refs, Selections(B0, k));
    SelectionIsGreedy(b, W0, refs, Selections(B0, k), TopKey(b), r);
  }

  /**
   * A run following the selections is greedy: the worker picked for the k-th job has,
   * after the first k picks, at least as much spare capacity left as every other worker
   * that can still take a job.
   */
  lemma DistributionIsGreedy(W0: seq<WorkerNode>, refs: seq<nat>, chosen: seq<nat>, k: nat, r: nat)
    requires RowsIn(refs, |W0|) && Distinct(refs)
    requires SelectedByPolicy(W0, refs, chosen)
    requires RowsIn(chosen, |W0|) && k < |chosen| && r in refs && Live(W0, chosen[..k], r)
    ensures Spare(W0[r]) - Picks(chosen[..k], r) <= Spare(W0[chosen[k]]) - Picks(chosen[..k], chosen[k])
  {
    var B0 := GroupWorkersByAvailableCapacity(W0, refs);
    SelectionsExtend(B0, k + 1, |chosen|);
    SelectionsExtend(B0, k, k + 1);
    assert chosen[..k] == Selections(B0, k);
    assert chosen[k] == Selections(B0, k + 1)[k];
    SelectionsAreGreedy(W0, refs, k, r);
  }

  // ---------------------------------------------------------------------------
  // Bookkeeping of a run: how often each worker was picked

  function Min(a: int, b: int): int
  {
    if a <= b then a else b
  }

  /** Picks a worker can take in one run: its spare capacity, but at least one. */
  function Max1(x: int): int
  {
    if x > 1 then x else 1
  }

  /** How often row r occurs in chosen. */
  function Picks(chosen: seq<nat>, r: nat): nat
  {
    multiset(chosen)[r]
  }

  /** Row r is still in some bucket. */
  ghost predicate Live(W0: seq<WorkerNode>, chosen: seq<nat>, r: nat)
  {
    r < |W0| && Picks(chosen, r) < Max1(Spare(W0[r]))
  }

  predicate Listed(buckets: map<int, seq<nat>>, r: nat, key: int)
  {
    key in buckets && r in buckets[key]
  }

  /** Worker r belongs in bucket key: it is live and key is its initial spare capacity minus its picks. */
  ghost predicate BelongsAt(W0: seq<WorkerNode>, refs: seq<nat>, chosen: seq<nat>, r: nat, key: int)
  {
    r in refs && Live(W0, chosen, r) && key == Spare(W0[r]) - Picks(chosen, r)
  }

  /** Every listed worker belongs where it is listed. */
  ghost predicate ListedAreLive(buckets: map<int, seq<nat>>, W0: seq<WorkerNode>, refs: seq<nat>, chosen: seq<nat>)
  {
    forall key, i :: key in buckets && 0 <= i < |buckets[key]| ==> BelongsAt(W0, refs, chosen, buckets[key][i], key)
  }

  /** No bucket lists a worker twice. */
  predicate ListedOnce(buckets: map<int, seq<nat>>)
  {
    forall key, i, j :: key in buckets && 0 <= i < j < |buckets[key]| ==> buckets[key][i] != buckets[key][j]
  }

  /** Every live worker is listed. */
  ghost predicate LiveAreListed(buckets: map<int, seq<nat>>, W0: seq<WorkerNode>, refs: seq<nat>, chosen: seq<nat>)
  {
    forall r :: r in refs && Live(W0, chosen, r) ==> Listed(buckets, r, Spare(W0[r]) - Picks(chosen, r))
  }

  /**
   * The bucket dictionary after the picks in chosen: each live worker is listed exactly
   * once, in the bucket of its initial spare capacity minus its picks; nothing else is listed.
   */
  ghost predicate Tracks(buckets: map<int, seq<nat>>, W0: seq<WorkerNode>, refs: seq<nat>, chosen: seq<nat>)
  {
    ListedAreLive(buckets, W0, refs, chosen) && ListedOnce(buckets) && LiveAreListed(buckets, W0, refs, chosen)
  }

  /** Every pick is one of the workers, and no worker is picked more than Max1(spare) times. */
  ghost predicate PicksBounded(W0: seq<WorkerNode>, refs: seq<nat>, chosen: seq<nat>)
  {
    && (forall x :: x in chosen ==> x in refs)
    && (forall r :: r in refs ==> r < |W0| && Picks(chosen, r) <= Max1(Spare(W0[r])))
  }

  lemma PicksAppend(chosen: seq<nat>, x: nat)
    ensures forall r :: Picks(chosen + [x], r) == Picks(chosen, r) + (if r == x then 1 else 0)
  {
    assert multiset(chosen + [x]) == multiset(chosen) + multiset{x};
  }

  lemma GroupListedAreLive(W0: seq<WorkerNode>, refs: seq<nat>)
    requires RowsIn(refs, |W0|)
    ensures ListedAreLive(GroupWorkersByAvailableCapacity(W0, refs), W0, refs, [])
  {
    var buckets := GroupWorkersByAvailableCapacity(W0, refs);
    forall key, i | key in buckets && 0 <= i < |buckets[key]| ensures BelongsAt(W0, refs, [], buckets[key][i], key) {
      GroupMember(W0, refs, key, buckets[key][i]);
    }
  }

  /** A worker in a bucket of the initial grouping is one of the workers, with that spare capacity. */
  lemma GroupMember(W0: seq<WorkerNode>, refs: seq<nat>, key: int, x: nat)
    requires RowsIn(refs, |W0|)
    requires key in GroupWorkersByAvailableCapacity(W0, refs)
    requires x in GroupWorkersByAvailableCapacity(W0, refs)[key]
    ensures BelongsAt(W0, refs, [], x, key)
  {
    var ordered := OrderByActiveJobCount(W0, refs);
    assert x in WithSpare(W0, ordered, key);
    assert x in ordered && Spare(W0[x]) == key;
    assert Picks([], x) == 0;
  }

  lemma GroupLiveAreListed(W0: seq<WorkerNode>, refs: seq<nat>)
    requires RowsIn(refs, |W0|)
    ensures LiveAreListed(GroupWorkersByAvailableCapacity(W0, refs), W0, refs, [])
  {
    var buckets := GroupWorkersByAvailableCapacity(W0, refs);
    forall r | r in refs && Live(W0, [], r) ensures Listed(buckets, r, Spare(W0[r]) - Picks([], r)) {
      NoPicksYet(r);
      GroupLists(W0, refs, r);
    }
  }

  /** Before any pick, no worker has been picked. */
  lemma NoPicksYet(r: nat)
    ensures Picks([], r) == 0
  {
  }

  /** The initial grouping lists every worker under its spare capacity. */
  lemma GroupLists(W0: seq<WorkerNode>, refs: seq<nat>, r: nat)
    requires RowsIn(refs, |W0|) && r in refs
    ensures Listed(GroupWorkersByAvailableCapacity(W0, refs), r, Spare(W0[r]))
  {
    GroupHasKey(W0, refs, r);
    GroupListsRow(W0, refs, r);
  }

  lemma GroupHasKey(W0: seq<WorkerNode>, refs: seq<nat>, r: nat)
    requires RowsIn(refs, |W0|) && r in refs
    ensures Spare(W0[r]) in GroupWorkersByAvailableCapacity(W0, refs)
  {
    var i :| 0 <= i < |refs| && refs[i] == r;
    assert Spare(W0[refs[i]]) == Spare(W0[r]);
  }

  lemma GroupListsRow(W0: seq<WorkerNode>, refs: seq<nat>, r: nat)
    requires RowsIn(refs, |W0|) && r in refs
    requires Spare(W0[r]) in GroupWorkersByAvailableCapacity(W0, refs)
    ensures r in GroupWorkersByAvailableCapacity(W0, refs)[Spare(W0[r])]
  {
    var i :| 0 <= i < |refs| && refs[i] == r;
    OwnBucket(W0, refs, i);
  }

  lemma GroupListedOnce(W0: seq<WorkerNode>, refs: seq<nat>)
    requires RowsIn(refs, |W0|) && Distinct(refs)
    ensures ListedOnce(GroupWorkersByAvailableCapacity(W0, refs))
  {
    var buckets := GroupWorkersByAvailableCapacity(W0, refs);
    forall key | key in buckets ensures Distinct(buckets[key]) {
    }
  }

  lemma GroupTracks(W0: seq<WorkerNode>, refs: seq<nat>)
    requires RowsIn(refs, |W0|) && Distinct(refs)
    ensures Tracks(GroupWorkersByAvailableCapacity(W0, refs), W0, refs, [])
    ensures PicksBounded(W0, refs, [])
  {
    GroupListedAreLive(W0, refs);
    GroupLiveAreListed(W0, refs);
    GroupListedOnce(W0, refs);
    assert forall r :: Picks([], r) == 0;
  }

  lemma TakeFirstShape(buckets: map<int, seq<nat>>, key: int)
    requires key in buckets && buckets[key] != []
    ensures var after := TakeFirst(buckets, key);
      && after.Keys == buckets.Keys + (if key - 1 > 0 then {key - 1} else {})
      && after[key] == buckets[key][1..]
      && (key - 1 > 0 ==> after[key - 1] == (if key - 1 in buckets then buckets[key - 1] else []) + [buckets[key][0]])
      && forall k :: k in buckets && k != key && (k != key - 1 || key - 1 <= 0) ==> after[k] == buckets[k]
  {
  }

  lemma TakeFirstListedAreLive(buckets: map<int, seq<nat>>, W0: seq<WorkerNode>, refs: seq<nat>, chosen: seq<nat>, key: int)
    requires ListedAreLive(buckets, W0, refs, chosen) && ListedOnce(buckets) && IsTopBucket(buckets, key)
    ensures ListedAreLive(TakeFirst(buckets, key), W0, refs, chosen + [buckets[key][0]])
  {
    var x := buckets[key][0];
    var c := chosen + [x];
    PicksAppend(chosen, x);
    var after := TakeFirst(buckets, key);
    TakeFirstShape(buckets, key);
    assert BelongsAt(W0, refs, chosen, x, key);
    forall k, i | k in after && 0 <= i < |after[k]| ensures BelongsAt(W0, refs, c, after[k][i], k) {
      var low := if key - 1 in buckets then buckets[key - 1] else [];
      if k == key {
        assert after[k][i] == buckets[key][i + 1];
      } else if key - 1 > 0 && k == key - 1 {
        if i == |low| {
          assert after[k][i] == x;
        } else {
          assert after[k][i] == buckets[k][i];
        }
      } else {
        assert after[k][i] == buckets[k][i];
      }
    }
  }

  lemma TakeFirstListedOnce(buckets: map<int, seq<nat>>, W0: seq<WorkerNode>, refs: seq<nat>, chosen: seq<nat>, key: int)
    requires ListedAreLive(buckets, W0, refs, chosen) && ListedOnce(buckets) && IsTopBucket(buckets, key)
    ensures ListedOnce(TakeFirst(buckets, key))
  {
    var x := buckets[key][0];
    var after := TakeFirst(buckets, key);
    TakeFirstShape(buckets, key);
    forall k, i, j | k in after && 0 <= i < j < |after[k]| ensures after[k][i] != after[k][j] {
      var low := if key - 1 in buckets then buckets[key - 1] else [];
      if k == key {
        assert after[k][i] == buckets[key][i + 1] && after[k][j] == buckets[key][j + 1];
      } else if key - 1 > 0 && k == key - 1 {
        if j == |low| {
          assert after[k][j] == x && after[k][i] == buckets[k][i];
        } else {
          assert after[k][i] == buckets[k][i] && after[k][j] == buckets[k][j];
        }
      } else {
        assert after[k][i] == buckets[k][i] && after[k][j] == buckets[k][j];
      }
    }
  }

  lemma TakeFirstLiveAreListed(buckets: map<int, seq<nat>>, W0: seq<WorkerNode>, refs: seq<nat>, chosen: seq<nat>, key: int)
    requires ListedAreLive(buckets, W0, refs, chosen) && LiveAreListed(buckets, W0, refs, chosen)
    requires IsTopBucket(buckets, key)
    ensures LiveAreListed(TakeFirst(buckets, key), W0, refs, chosen + [buckets[key][0]])
  {
    var x := buckets[key][0];
    var c := chosen + [x];
    PicksAppend(chosen, x);
    var after := TakeFirst(buckets, key);
    TakeFirstShape(buckets, key);
    assert x in refs && key == Spare(W0[x]) - Picks(chosen, x);
    forall r | r in refs && Live(W0, c, r) ensures Listed(after, r, Spare(W0[r]) - Picks(c, r)) {
      if r == x {
        assert after[key - 1][|after[key - 1]| - 1] == x;
      } else {
        var k := Spare(W0[r]) - Picks(chosen, r);
        assert Listed(buckets, r, k);
        var i :| 0 <= i < |buckets[k]| && buckets[k][i] == r;
        if k == key {
          assert after[k][i - 1] == r;
        } else if key - 1 > 0 && k == key - 1 {
          assert after[k][i] == r;
        }
      }
    }
  }

  lemma SelectKeepsTracking(buckets: map<int, seq<nat>>, W0: seq<WorkerNode>, refs: seq<nat>, chosen: seq<nat>, key: int)
    requires Tracks(buckets, W0, refs, chosen) && PicksBounded(W0, refs, chosen)
    requires IsTopBucket(buckets, key)
    ensures Tracks(TakeFirst(buckets, key), W0, refs, chosen + [buckets[key][0]])
    ensures PicksBounded(W0, refs, chosen + [buckets[key][0]])
  {
    TakeFirstListedAreLive(buckets, W0, refs, chosen, key);
    TakeFirstListedOnce(buckets, W0, refs, chosen, key);
    TakeFirstLiveAreListed(buckets, W0, refs, chosen, key);
    var x := buckets[key][0];
    PicksAppend(chosen, x);
    assert x in refs && Live(W0, chosen, x);
  }

  /** When every bucket is empty, every worker has been picked Max1(spare) times. */
  lemma EmptyBucketsMeanFull(buckets: map<int, seq<nat>>, W0: seq<WorkerNode>, refs: seq<nat>, chosen: seq<nat>)
    requires LiveAreListed(buckets, W0, refs, chosen) && PicksBounded(W0, refs, chosen)
    requires AllEmpty(buckets)
    ensures forall r :: r in refs ==> Picks(chosen, r) == Max1(Spare(W0[r]))
  {
    forall r | r in refs ensures Picks(chosen, r) == Max1(Spare(W0[r])) {
      if Live(W0, chosen, r) {
        assert false;
      }
    }
  }

  /** Total number of jobs the workers can take in one run: the sum of Max1(spare). */
  function Capacity(W0: seq<WorkerNode>, refs: seq<nat>): (c: int)
    requires RowsIn(refs, |W0|)
    ensures c >= |refs|
  {
    if refs == [] then 0
    else Capacity(W0, refs[..|refs| - 1]) + Max1(Spare(W0[refs[|refs| - 1]]))
  }

  /** Sum of Spare over the workers. */
  function TotalSpare(W0: seq<WorkerNode>, refs: seq<nat>): int
    requires RowsIn(refs, |W0|)
  {
    if refs == [] then 0
    else TotalSpare(W0, refs[..|refs| - 1]) + Spare(W0[refs[|refs| - 1]])
  }

  /** When every worker has spare capacity, the run capacity is the total spare capacity. */
  lemma {:induction false} CapacityOfAvailable(W0: seq<WorkerNode>, refs: seq<nat>)
    requires RowsIn(refs, |W0|)
    requires forall k :: 0 <= k < |refs| ==> Spare(W0[refs[k]]) > 0
    ensures Capacity(W0, refs) == TotalSpare(W0, refs)
  {
    if refs != [] {
      CapacityOfAvailable(W0, refs[..|refs| - 1]);
    }
  }

  function PickSum(chosen: seq<nat>, refs: seq<nat>): int
  {
    if refs == [] then 0
    else PickSum(chosen, refs[..|refs| - 1]) + Picks(chosen, refs[|refs| - 1])
  }

  lemma {:induction false} PickSumAppend(chosen: seq<nat>, x: nat, refs: seq<nat>)
    ensures PickSum(chosen + [x], refs) == PickSum(chosen, refs) + multiset(refs)[x]
  {
    assert multiset(chosen + [x]) == multiset(chosen) + multiset{x};
    if refs != [] {
      var n := |refs| - 1;
      PickSumAppend(chosen, x, refs[..n]);
      assert refs == refs[..n] + [refs[n]];
      assert multiset(refs) == multiset(refs[..n]) + multiset{refs[n]};
    }
  }

  lemma {:induction false} PickSumEmpty(refs: seq<nat>)
    ensures PickSum([], refs) == 0
  {
    if refs != [] {
      PickSumEmpty(refs[..|refs| - 1]);
    }
  }

  lemma {:induction false} DistinctOccursOnce(refs: seq<nat>, x: nat)
    requires Distinct(refs) && x in refs
    ensures multiset(refs)[x] == 1
  {
    var n := |refs| - 1;
    assert refs == refs[..n] + [refs[n]];
    assert multiset(refs) == multiset(refs[..n]) + multiset{refs[n]};
    if refs[n] == x {
      assert x !in refs[..n];
    } else {
      assert x in refs[..n];
      DistinctOccursOnce(refs[..n], x);
    }
  }

  /** Each pick is counted once in PickSum. */
  lemma {:induction false} PickSumIsCount(chosen: seq<nat>, refs: seq<nat>)
    requires Distinct(refs)
    requires forall x :: x in chosen ==> x in refs
    ensures PickSum(chosen, refs) == |chosen|
  {
    if chosen == [] {
      PickSumEmpty(refs);
    } else {
      var n := |chosen| - 1;
      assert chosen == chosen[..n] + [chosen[n]];
      PickSumIsCount(chosen[..n], refs);
      PickSumAppend(chosen[..n], chosen[n], refs);
      DistinctOccursOnce(refs, chosen[n]);
    }
  }

  lemma {:induction false} PickSumAtMostCapacity(chosen: seq<nat>, W0: seq<WorkerNode>, refs: seq<nat>)
    requires RowsIn(refs, |W0|)
    requires forall r :: r in refs ==> Picks(chosen, r) <= Max1(Spare(W0[r]))
    ensures PickSum(chosen, refs) <= Capacity(W0, refs)
    ensures (forall r :: r in refs ==> Picks(chosen, r) == Max1(Spare(W0[r]))) ==>
      PickSum(chosen, refs) == Capacity(W0, refs)
  {
    if refs != [] {
      var n := |refs| - 1;
      assert forall r :: r in refs[..n] ==> r in refs;
      assert refs[n] in refs;
      PickSumAtMostCapacity(chosen, W0, refs[..n]);
    }
  }

  // ---------------------------------------------------------------------------
  // Marking an assignment and rolling it back

  /** PrepareJobAssignment: the job runs on the worker from now; the worker is Busy with one more job. */
  function PrepareJobAssignment(job: Job, worker: WorkerNode, now: Time): (Job, WorkerNode)
  {
    (job.(status := InProgress, assignedWorker := Some(worker.id), startTime := Some(now)),
     worker.(status := Busy, activeJobCount := worker.activeJobCount + 1, currentJobId := job.id))
  }

  /** HandleAssignmentFailure: the job is Pending and unassigned again; the worker gives the slot back. */
  function HandleAssignmentFailure(job: Job, worker: WorkerNode): (Job, WorkerNode)
  {
    var count := worker.activeJobCount - 1;
    (job.(status := Pending, assignedWorker := None, startTime := None),
     worker.(activeJobCount := count, status := if count > 0 then Busy else Idle))
  }

  /** One iteration of the distribution loop for a job and its selected worker. */
  function AssignmentStep(job: Job, worker: WorkerNode, accepted: bool, now: Time): (Job, WorkerNode)
  {
    var prepared := PrepareJobAssignment(job, worker, now);
    if accepted then prepared else HandleAssignmentFailure(prepared.0, prepared.1)
  }

  /**
   * An accepted assignment leaves the job InProgress on the worker and the worker Busy with
   * one more job; a refused one leaves the job Pending with no worker and no start time, and
   * the worker with its previous job count, Busy exactly when that count is positive.
   */
  lemma AssignmentOutcome(job: Job, worker: WorkerNode, accepted: bool, now: Time)
    ensures var (j, w) := AssignmentStep(job, worker, accepted, now);
      && w.id == worker.id && w.name == worker.name && w.concurrencyLimit == worker.concurrencyLimit
      && w.currentJobId == job.id
      && (accepted ==>
            && j == job.(status := InProgress, assignedWorker := Some(worker.id), startTime := Some(now))
            && w.status == Busy && w.activeJobCount == worker.activeJobCount + 1)
      && (!accepted ==>
            && j == job.(status := Pending, assignedWorker := None, startTime := None)
            && w.activeJobCount == worker.activeJobCount
            && (w.status == Busy <==> worker.activeJobCount > 0) && w.status != WorkerStatus.Offline)
  {
  }

  /** The job side of an assignment step depends on the worker only through its id. */
  lemma StepJobNeedsOnlyWorkerId(job: Job, w1: WorkerNode, w2: WorkerNode, accepted: bool, now: Time)
    requires w1.id == w2.id
    ensures AssignmentStep(job, w1, accepted, now).0 == AssignmentStep(job, w2, accepted, now).0
  {
  }

  /** How many of the picks of row r were accepted. */
  function Successes(chosen: seq<nat>, accepted: seq<bool>, r: nat): nat
    requires |chosen| <= |accepted|
  {
    if chosen == [] then 0
    else
      var n := |chosen| - 1;
      Successes(chosen[..n], accepted, r) + (if chosen[n] == r && accepted[n] then 1 else 0)
  }

  /** Index of the last pick of row r. */
  function LastPick(chosen: seq<nat>, r: nat): (i: nat)
    requires r in chosen
    ensures i < |chosen| && chosen[i] == r
    ensures forall a :: i < a < |chosen| ==> chosen[a] != r
  {
    var n := |chosen| - 1;
    if chosen[n] == r then n
    else
      assert r in chosen[..n] by {
        var a :| 0 <= a < |chosen| && chosen[a] == r;
        assert chosen[..n][a] == r;
      }
      LastPick(chosen[..n], r)
  }

  /**
   * The job and worker tables after the distribution loop made the picks in chosen for
   * the first |chosen| rows of order: each step applies AssignmentStep to the job and the
   * worker as they are at that point.
   */
  function Run(J0: seq<Job>, W0: seq<WorkerNode>, order: seq<nat>, chosen: seq<nat>, accepted: seq<bool>, now: Time)
    : (tables: (seq<Job>, seq<WorkerNode>))
    requires RowsIn(order, |J0|) && RowsIn(chosen, |W0|)
    requires |chosen| <= |order| && |chosen| <= |accepted|
    ensures |tables.0| == |J0| && |tables.1| == |W0|
    decreases |chosen|
  {
    if chosen == [] then (J0, W0)
    else
      var n := |chosen| - 1;
      var before := Run(J0, W0, order, chosen[..n], accepted, now);
      var step := AssignmentStep(before.0[order[n]], before.1[chosen[n]], accepted[n], now);
      (before.0[order[n] := step.0], before.1[chosen[n] := step.1])
  }

  lemma RunStep(J0: seq<Job>, W0: seq<WorkerNode>, order: seq<nat>, chosen: seq<nat>, x: nat, accepted: seq<bool>, now: Time)
    requires RowsIn(order, |J0|) && RowsIn(chosen, |W0|) && x < |W0|
    requires |chosen| < |order| && |chosen| < |accepted|
    ensures RowsIn(chosen + [x], |W0|)
    ensures Run(J0, W0, order, chosen + [x], accepted, now) ==
      var before := Run(J0, W0, order, chosen, accepted, now);
      var row := order[|chosen|];
      var step := AssignmentStep(before.0[row], before.1[x], accepted[|chosen|], now);
      (before.0[row := step.0], before.1[x := step.1])
  {
    assert (chosen + [x])[..|chosen|] == chosen;
  }

  /** A run changes no job id and no worker id. */
  lemma {:induction false} RunKeepsIds(J0: seq<Job>, W0: seq<WorkerNode>, order: seq<nat>, chosen: seq<nat>, accepted: seq<bool>, now: Time)
    requires RowsIn(order, |J0|) && RowsIn(chosen, |W0|)
    requires |chosen| <= |order| && |chosen| <= |accepted|
    ensures var tables := Run(J0, W0, order, chosen, accepted, now);
      && (forall row :: 0 <= row < |J0| ==> tables.0[row].id == J0[row].id)
      && (forall r :: 0 <= r < |W0| ==> tables.1[r].id == W0[r].id)
  {
    if chosen != [] {
      RunKeepsIds(J0, W0, order, chosen[..|chosen| - 1], accepted, now);
    }
  }

  /**
   * The jobs after a run: the a-th visited job is the outcome of AssignmentStep on it and
   * the a-th chosen worker (InProgress on that worker, or back to Pending when the call was
   * refused); every job not visited is untouched.
   */
  lemma {:induction false} RunJobs(J0: seq<Job>, W0: seq<WorkerNode>, order: seq<nat>, chosen: seq<nat>, accepted: seq<bool>, now: Time)
    requires RowsIn(order, |J0|) && RowsIn(chosen, |W0|) && Distinct(order)
    requires |chosen| <= |order| && |chosen| <= |accepted|
    ensures var jobs := Run(J0, W0, order, chosen, accepted, now).0;
      && (forall a :: 0 <= a < |chosen| ==>
            jobs[order[a]] == AssignmentStep(J0[order[a]], W0[chosen[a]], accepted[a], now).0)
      && (forall row :: 0 <= row < |J0| && row !in order[..|chosen|] ==> jobs[row] == J0[row])
  {
    if chosen != [] {
      var n := |chosen| - 1;
      RunJobs(J0, W0, order, chosen[..n], accepted, now);
      RunKeepsIds(J0, W0, order, chosen[..n], accepted, now);
      var before := Run(J0, W0, order, chosen[..n], accepted, now);
      var jobs := Run(J0, W0, order, chosen, accepted, now).0;
      assert order[n] !in order[..n];
      assert before.0[order[n]] == J0[order[n]];
      assert before.1[chosen[n]].id == W0[chosen[n]].id;
      forall a | 0 <= a < |chosen|
        ensures jobs[order[a]] == AssignmentStep(J0[order[a]], W0[chosen[a]], accepted[a], now).0
      {
        if a < n {
          assert chosen[..n][a] == chosen[a];
          assert order[a] != order[n];
        } else {
          StepJobNeedsOnlyWorkerId(J0[order[n]], before.1[chosen[n]], W0[chosen[n]], accepted[n], now);
        }
      }
      forall row | 0 <= row < |J0| && row !in order[..|chosen|] ensures jobs[row] == J0[row] {
        assert order[..|chosen|][n] == order[n];
        NotInShorterPrefix(order, n, |chosen|, row);
      }
    }
  }

  lemma NotInShorterPrefix(s: seq<nat>, m: nat, n: nat, x: nat)
    requires m <= n <= |s| && x !in s[..n]
    ensures x !in s[..m]
  {
    forall k | 0 <= k < m ensures s[..m][k] != x {
      assert s[..m][k] == s[..n][k];
    }
  }

  /**
   * A worker after a run: its job count went up by its accepted picks only (a refused
   * assignment gives the slot back), its identity, name, limit and heartbeat are untouched,
   * an unpicked worker is untouched, and a picked one records the job of its last pick and
   * ends Busy unless that last call was refused and its count is back to zero or below.
   */
  lemma {:induction false} RunWorkers(J0: seq<Job>, W0: seq<WorkerNode>, order: seq<nat>, chosen: seq<nat>,
                                      accepted: seq<bool>, now: Time, r: nat)
    requires RowsIn(order, |J0|) && RowsIn(chosen, |W0|) && r < |W0|
    requires |chosen| <= |order| && |chosen| <= |accepted|
    ensures var w := Run(J0, W0, order, chosen, accepted, now).1[r];
      && w.activeJobCount == W0[r].activeJobCount + Successes(chosen, accepted, r)
      && Successes(chosen, accepted, r) <= Picks(chosen, r)
      && w.id == W0[r].id && w.name == W0[r].name && w.concurrencyLimit == W0[r].concurrencyLimit
      && w.lastHeartbeat == W0[r].lastHeartbeat
      && (Picks(chosen, r) == 0 ==> w == W0[r])
      && (Picks(chosen, r) > 0 ==>
            && w.currentJobId == J0[order[LastPick(chosen, r)]].id
            && w.status == (if accepted[LastPick(chosen, r)] || w.activeJobCount > 0 then Busy else Idle))
  {
    if chosen != [] {
      var n := |chosen| - 1;
      assert chosen == chosen[..n] + [chosen[n]];
      assert multiset(chosen) == multiset(chosen[..n]) + multiset{chosen[n]};
      RunWorkers(J0, W0, order, chosen[..n], accepted, now, r);
      RunKeepsIds(J0, W0, order, chosen[..n], accepted, now);
      if chosen[n] != r && Picks(chosen, r) > 0 {
        assert r in chosen[..n];
        assert LastPick(chosen, r) == LastPick(chosen[..n], r);
      }
    }
  }

  // ---------------------------------------------------------------------------
  // The run

  /**
   * SelectWorkerWithCapacity on the buckets left by k selections from B0: it returns the
   * next selection, or none exactly when the buckets are empty.
   */
  method SelectNext(buckets: map<int, seq<nat>>, ghost B0: map<int, seq<nat>>, ghost W0: seq<WorkerNode>,
                    ghost refs: seq<nat>, ghost k: nat, ghost chosen: seq<nat>)
    returns (updated: map<int, seq<nat>>, selected: Option<nat>)
    requires Tracks(B0, W0, refs, []) && PicksBounded(W0, refs, [])
    requires FollowsSelections(B0, k, buckets, chosen)
    ensures selected.None? ==> AllEmpty(buckets) && updated == buckets
    ensures selected.Some? ==>
      && selected.value in refs
      && FollowsSelections(B0, k + 1, updated, chosen + [selected.value])
      && PicksBounded(W0, refs, chosen + [selected.value])
  {
    ghost var key;
    updated, selected, key := SelectWorkerWithCapacity(buckets);
    if selected.Some? {
      SelectionPicksWorker(B0, W0, refs, k, key);
      SelectionStep(B0, k, buckets, chosen, key);
    }
  }

  /**
   * The assignment loop of DistributeJobs: the jobs in visiting order, each to the worker
   * SelectWorkerWithCapacity takes from workersByCapacity, until no worker is left; then
   * the changes are saved. workersByCapacity starts as a grouping of the workers refs
   * with nothing picked yet.
   */
  method AssignPrioritizedJobs(store: JobStore, order: seq<nat>, workersByCapacity: map<int, seq<nat>>,
                              refs: seq<nat>, accepted: seq<bool>, now: Time)
    returns (ghost chosen: seq<nat>)
    requires RowsIn(order, |store.jobs|) && Distinct(order) && |accepted| >= |order|
    requires RowsIn(refs, |store.workers|) && Distinct(refs)
    requires Tracks(workersByCapacity, store.workers, refs, []) && PicksBounded(store.workers, refs, [])
    modifies store
    ensures |chosen| == Min(|order|, Capacity(old(store.workers), refs))
    ensures forall x :: x in chosen ==> x in refs
    ensures RowsIn(chosen, |old(store.workers)|)
    ensures forall r :: r in refs ==> Picks(chosen, r) <= Max1(Spare(old(store.workers)[r]))
    ensures chosen == Selections(workersByCapacity, |chosen|)
    ensures (store.jobs, store.workers) == Run(old(store.jobs), old(store.workers), order, chosen, accepted, now)
  {
    ghost var J0, W0 := store.jobs, store.workers;
    var jobs, workers := store.jobs, store.workers;
    var buckets := workersByCapacity;
    chosen := [];
    var k := 0;
    ghost var exhausted := false;
    while k < |order|
      invariant 0 <= k <= |order| && |chosen| == k
      invariant RowsIn(chosen, |W0|) && PicksBounded(W0, refs, chosen)
      invariant exhausted ==> AllEmpty(buckets)
      invariant FollowsSelections(workersByCapacity, k, buckets, chosen)
      invariant (jobs, workers) == Run(J0, W0, order, chosen, accepted, now)
    {
      var selected;
      buckets, selected := SelectNext(buckets, workersByCapacity, W0, refs, k, chosen);
      if selected.None? {
        exhausted := true;
        break;
      }
      var r := selected.value;
      var row := order[k];
      var outcome := PrepareJobAssignment(jobs[row], workers[r], now);
      if !accepted[k] {
        outcome := HandleAssignmentFailure(outcome.0, outcome.1);
      }
      jobs := jobs[row := outcome.0];
      workers := workers[r := outcome.1];
      RunStep(J0, W0, order, chosen, r, accepted, now);
      chosen := chosen + [r];
      k := k + 1;
    }
    assert FollowsSelections(workersByCapacity, |chosen|, buckets, chosen);
    PickSumIsCount(chosen, refs);
    PickSumAtMostCapacity(chosen, W0, refs);
    if exhausted {
      SelectionsExhaust(workersByCapacity, W0, refs, |chosen|);
    }
    store.jobs, store.workers := jobs, workers;
  }

  /**
   * DistributeJobs. chosen lists the worker row selected for each visited job, in visiting
   * order; its length is the number of external assignment calls made. The run stops at the
   * first job for which no worker is left, so it assigns min(#jobs, capacity) jobs.
   */
  method DistributeJobs(store: JobStore, pendingJobs: seq<nat>, availableWorkers: seq<nat>,
                        accepted: seq<bool>, now: Time)
    returns (ghost chosen: seq<nat>)
    requires RowsIn(pendingJobs, |store.jobs|) && Distinct(pendingJobs)
    requires RowsIn(availableWorkers, |store.workers|) && Distinct(availableWorkers)
    requires |accepted| >= |pendingJobs|
    modifies store
    ensures pendingJobs == [] || availableWorkers == [] ==>
      chosen == [] && store.jobs == old(store.jobs) && store.workers == old(store.workers)
    ensures |chosen| == Min(|pendingJobs|, Capacity(old(store.workers), availableWorkers))
    ensures forall x :: x in chosen ==> x in availableWorkers
    ensures RowsIn(chosen, |old(store.workers)|)
    ensures forall r :: r in availableWorkers ==> Picks(chosen, r) <= Max1(Spare(old(store.workers)[r]))
    ensures SelectedByPolicy(old(store.workers), availableWorkers, chosen)
    ensures (store.jobs, store.workers) ==
      Run(old(store.jobs), old(store.workers), VisitOrder(old(store.jobs), pendingJobs), chosen, accepted, now)
  {
    if pendingJobs == [] || availableWorkers == [] {
      chosen := [];
      assert Run(store.jobs, store.workers, VisitOrder(store.jobs, pendingJobs), chosen, accepted, now) ==
        (store.jobs, store.workers);
      assert Min(|pendingJobs|, Capacity(store.workers, availableWorkers)) == 0;
      NothingSelected(store.workers, availableWorkers);
      return;
    }
    var workersByCapacity := GroupWorkersByAvailableCapacity(store.workers, availableWorkers);
    var prioritizedJobs := VisitOrder(store.jobs, pendingJobs);
    GroupTracks(store.workers, availableWorkers);
    chosen := AssignPrioritizedJobs(store, prioritizedJobs, workersByCapacity, availableWorkers, accepted, now);
  }


  /**
   * With workers that all have spare capacity (as the queue tick supplies them), the run
   * capacity is the total spare capacity, and no worker ends over its concurrency limit.
   */
  lemma CapacityNeverExceeded(J0: seq<Job>, W0: seq<WorkerNode>, order: seq<nat>, refs: seq<nat>,
                              chosen: seq<nat>, accepted: seq<bool>, now: Time, r: nat)
    requires RowsIn(order, |J0|) && RowsIn(chosen, |W0|) && RowsIn(refs, |W0|)
    requires |chosen| <= |order| && |chosen| <= |accepted|
    requires forall k :: 0 <= k < |refs| ==> Spare(W0[refs[k]]) > 0
    requires r in refs && Picks(chosen, r) <= Max1(Spare(W0[r]))
    ensures Run(J0, W0, order, chosen, accepted, now).1[r].activeJobCount <= W0[r].concurrencyLimit
    ensures Capacity(W0, refs) == TotalSpare(W0, refs)
  {
    RunWorkers(J0, W0, order, chosen, accepted, now, r);
    CapacityOfAvailable(W0, refs);
  }
}
