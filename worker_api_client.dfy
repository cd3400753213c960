/**
 * The worker's client for the queue service: registration with a bounded number
 * of attempts and a growing pause between them, and the calls that turn a failure
 * into a default answer instead of an error.
 *
 * What the server answers to each attempt or call is supplied as a parameter, and
 * the pauses are recorded in seconds rather than slept.
 */
module WorkerApiClient {
  import opened Domain

  /** How one registration attempt went: the server's record, or a failure (a non-success status or an exception). */
  datatype AttemptOutcome = Registered(worker: WorkerNode) | StatusFailure | CallFailed

  /** How a call went: it returned a value, or it threw. */
  datatype Call<T> = Returned(value: T) | Threw

  /** The default number of registration attempts. */
  const DefaultMaxRetries := 3

  /** The index of the first successful attempt among the first n, if any. */
  function FirstSuccess(responses: seq<AttemptOutcome>, n: nat): (r: Option<nat>)
    requires n <= |responses|
    ensures r.Some? ==> r.value < n && responses[r.value].Registered?
    ensures r.Some? ==> forall k :: 0 <= k < r.value ==> !responses[k].Registered?
    ensures r.None? <==> forall k :: 0 <= k < n ==> !responses[k].Registered?
  {
    if n == 0 then None
    else match FirstSuccess(responses, n - 1)
      case Some(k) => Some(k)
      case None => if responses[n - 1].Registered? then Some(n - 1) else None
  }

  /** The pauses after the first m failed attempts: 2, 4, ..., 2m seconds. */
  function Backoff(m: nat): (delays: seq<nat>)
    ensures |delays| == m
    ensures forall k :: 0 <= k < m ==> delays[k] == 2 * (k + 1)
  {
    if m == 0 then [] else Backoff(m - 1) + [2 * m]
  }

  function Sum(s: seq<nat>): nat
  {
    if s == [] then 0 else Sum(s[..|s| - 1]) + s[|s| - 1]
  }

  /** The pauses add up to m(m + 1) seconds: 6 seconds for the default three attempts. */
  lemma {:induction false} BackoffTotal(m: nat)
    ensures Sum(Backoff(m)) == m * (m + 1)
  {
    if m > 0 {
      BackoffTotal(m - 1);
      var prev := Backoff(m - 1);
      var b := prev + [2 * m];
      assert b[..|prev|] == prev;
      assert Sum(b) == Sum(prev) + 2 * m;
      assert m * (m + 1) == (m - 1) * m + 2 * m;
    }
  }

  /** The pause grows by the same two seconds each time: it is linear, not exponential. */
  lemma BackoffIsLinear(m: nat)
    ensures forall k :: 0 < k < m ==> Backoff(m)[k] - Backoff(m)[k - 1] == 2
  {
  }

  /**
   * Registers the worker: up to maxRetries attempts, returning the server's record
   * on the first success; after a failed attempt k that is not the last one it
   * pauses 2k seconds. When every attempt fails it returns none.
   */
  method RegisterWorker(worker: WorkerNode, responses: seq<AttemptOutcome>, maxRetries: int := DefaultMaxRetries)
    returns (registered: Option<WorkerNode>, attempts: nat, delays: seq<nat>)
    requires maxRetries <= |responses|
    ensures var budget := if maxRetries < 0 then 0 else maxRetries;
      && attempts <= budget
      && match FirstSuccess(responses, budget)
         case Some(s) =>
           attempts == s + 1 && registered == Some(responses[s].worker) && delays == Backoff(s)
         case None =>
           attempts == budget && registered == None && delays == Backoff(if budget == 0 then 0 else budget - 1)
  {
    ghost var budget := if maxRetries < 0 then 0 else maxRetries;
    delays := [];
    var attempt := 1;
    while attempt <= maxRetries
      invariant 1 <= attempt <= budget + 1
      invariant FirstSuccess(responses, attempt - 1).None?
      invariant delays == Backoff(if attempt <= budget || attempt == 1 then attempt - 1 else attempt - 2)
    {
      var response := responses[attempt - 1];
      if response.Registered? {
        assert FirstSuccess(responses, attempt) == Some(attempt - 1);
        FirstSuccessStays(responses, attempt, budget);
        return Some(response.worker), attempt, delays;
      }
      if attempt < maxRetries {
        var delaySeconds := 2 * attempt;
        delays := delays + [delaySeconds];
      }
      attempt := attempt + 1;
    }
    registered, attempts := None, attempt - 1;
  }

  /** Looking further ahead does not move the first success. */
  lemma {:induction false} FirstSuccessStays(responses: seq<AttemptOutcome>, n: nat, m: nat)
    requires n <= m <= |responses|
    requires FirstSuccess(responses, n).Some?
    ensures FirstSuccess(responses, m) == FirstSuccess(responses, n)
    decreases m - n
  {
    if m > n {
      FirstSuccessStays(responses, n, m - 1);
    }
  }

  /** With the default budget and every attempt failing: three attempts, pauses of 2 and 4 seconds, no record. */
  lemma DefaultRegistrationGivesUp(responses: seq<AttemptOutcome>)
    requires |responses| >= DefaultMaxRetries
    requires forall k :: 0 <= k < DefaultMaxRetries ==> !responses[k].Registered?
    ensures FirstSuccess(responses, DefaultMaxRetries).None?
    ensures Backoff(DefaultMaxRetries - 1) == [2, 4]
    ensures Sum(Backoff(DefaultMaxRetries - 1)) == 6
  {
    BackoffTotal(2);
  }

  /** Assigning a job through the worker API: the server's success flag, or false when the call throws. */
  function AssignJobToWorker(call: Call<bool>): (ok: bool)
    ensures ok <==> call.Returned? && call.value
  {
    match call
    case Returned(success) => success
    case Threw => false
  }

  /** Fetching a job: the server's answer, or none when the call throws. */
  function GetJob(call: Call<Option<Job>>): (job: Option<Job>)
    ensures call.Threw? ==> job.None?
    ensures call.Returned? ==> job == call.value
  {
    match call
    case Returned(answer) => answer
    case Threw => None
  }

  /** Fetching a worker's pending jobs: the server's list, or an empty one when the call throws. */
  function GetPendingJobsForWorker(call: Call<seq<Job>>): (jobs: seq<Job>)
    ensures call.Threw? ==> jobs == []
    ensures call.Returned? ==> jobs == call.value
  {
    match call
    case Returned(answer) => answer
    case Threw => []
  }
}
