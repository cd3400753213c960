/**
 * The worker's job processor: it dispatches a job to a handler by its type, and
 * each handler walks through a fixed series of progress values, reporting each
 * one, before it returns success. A cancellation or an exception thrown part-way
 * through a handler is turned into a failed result with an error message.
 *
 * The simulated work (the delays between reports) is not part of the model; what
 * interrupts a handler is supplied as a parameter.
 */
module JobProcessing {
  import opened Domain

  /** The five handlers the processor dispatches to. */
  datatype Handler = DataProcessing | FileConversion | Notification | ReportGeneration | Generic

  /** What the processor returns to the worker runtime. */
  datatype JobProcessResult = JobProcessResult(success: bool, errorMessage: Option<string>)

  /** What can stop a handler early. */
  datatype InterruptKind = Cancelled | Raised(message: string)

  /**
   * A handler is interrupted just before it would emit its report number before
   * (counting from 0); an interruption point past the last report is never reached.
   */
  datatype Interrupt = Interrupt(before: nat, kind: InterruptKind)

  const CancelledMessage := "Job was cancelled by user."
  const ExceptionPrefix := "Job processor exception: "

  /** Dispatch on the job type; every unrecognised type goes to the generic handler. */
  function HandlerFor(jobType: string): (h: Handler)
    ensures h == DataProcessing <==> jobType == "DataProcessing"
    ensures h == FileConversion <==> jobType == "FileConversion"
    ensures h == Notification <==> jobType == "Notification"
    ensures h == ReportGeneration <==> jobType == "Report"
    ensures h == Generic <==>
      jobType !in {"DataProcessing", "FileConversion", "Notification", "Report"}
  {
    if jobType == "DataProcessing" then DataProcessing
    else if jobType == "FileConversion" then FileConversion
    else if jobType == "Notification" then Notification
    else if jobType == "Report" then ReportGeneration
    else Generic
  }

  /** The values a counter loop starting at from, stepping by step, emits while it stays at most 100. */
  function Ramp(from: int, step: nat): seq<int>
    requires step > 0
    decreases 101 - from
  {
    if from > 100 then [] else [from] + Ramp(from + step, step)
  }

  /** The uneven series the report handler walks through. */
  const ReportSteps: seq<int> := [10, 20, 40, 50, 60, 85, 95, 100]

  /** The loop step of each counting handler; the report handler walks a fixed list instead. */
  function StepOf(h: Handler): (step: nat)
    requires h != ReportGeneration
    ensures step > 0 && 100 % step == 0
  {
    match h
    case DataProcessing => 10
    case FileConversion => 5
    case Notification => 5
    case Generic => 20
  }

  /** The full series of progress values a handler reports when nothing interrupts it. */
  function Steps(h: Handler): seq<int>
  {
    if h == ReportGeneration then ReportSteps else Ramp(0, StepOf(h))
  }

  /** The error message an interruption is turned into. */
  function Describe(kind: InterruptKind): (m: string)
    ensures kind.Cancelled? ==> m == CancelledMessage
    ensures kind.Raised? ==> m == ExceptionPrefix + kind.message
  {
    match kind
    case Cancelled => CancelledMessage
    case Raised(message) => ExceptionPrefix + message
  }

  /** A series of progress values is strictly increasing and within 0 .. 100. */
  predicate WellFormedProgress(s: seq<int>)
  {
    && (forall a, b :: 0 <= a < b < |s| ==> s[a] < s[b])
    && (forall k :: 0 <= k < |s| ==> 0 <= s[k] <= 100)
  }

  /** Every value a ramp emits lies in from .. 100, and the values increase strictly. */
  lemma {:induction false} RampIsWellFormed(from: int, step: nat)
    requires step > 0 && from >= 0
    ensures WellFormedProgress(Ramp(from, step))
    ensures forall k :: 0 <= k < |Ramp(from, step)| ==> from <= Ramp(from, step)[k]
    decreases 101 - from
  {
    if from <= 100 {
      var tail := Ramp(from + step, step);
      RampIsWellFormed(from + step, step);
      assert Ramp(from, step) == [from] + tail;
      forall k | 0 < k < |[from] + tail| ensures ([from] + tail)[k] == tail[k - 1] {
      }
    }
  }

  /** A ramp whose start is n steps below 100 ends exactly at 100. */
  lemma {:induction false} RampEndsAtHundred(from: int, step: nat, n: nat)
    requires step > 0 && from + n * step == 100
    ensures Ramp(from, step) != [] && Ramp(from, step)[|Ramp(from, step)| - 1] == 100
    decreases n
  {
    if n == 0 {
      assert Ramp(from + step, step) == [];
    } else {
      assert from + step + (n - 1) * step == 100;
      RampEndsAtHundred(from + step, step, n - 1);
    }
  }

  /** Every handler reports a strictly increasing series in 0 .. 100 that ends at 100. */
  lemma HandlerProgressIsComplete(h: Handler)
    ensures WellFormedProgress(Steps(h))
    ensures Steps(h) != [] && Steps(h)[|Steps(h)| - 1] == 100
  {
    if h != ReportGeneration {
      RampIsWellFormed(0, StepOf(h));
      RampEndsAtHundred(0, StepOf(h), 100 / StepOf(h));
    }
  }

  /** The counting handlers' series: 0, 10, ..., 100; 0, 5, ..., 100; 0, 20, ..., 100. */
  lemma CountingHandlersStartAtZero(h: Handler)
    requires h != ReportGeneration
    ensures Steps(h) != [] && Steps(h)[0] == 0
    ensures |Steps(h)| >= 2 && Steps(h)[1] == StepOf(h)
  {
    assert Ramp(0, StepOf(h)) == [0] + Ramp(StepOf(h), StepOf(h));
    assert Ramp(StepOf(h), StepOf(h)) == [StepOf(h)] + Ramp(2 * StepOf(h), StepOf(h));
  }

  /**
   * A counting handler's loop: from 0 it reports i and adds step while i <= 100,
   * stopping early once stopAfter values have been reported.
   */
  method CountUp(step: nat, stopAfter: nat) returns (reports: seq<int>)
    requires step > 0
    ensures var all := Ramp(0, step);
      reports == all[..if stopAfter < |all| then stopAfter else |all|]
  {
    reports := [];
    var i := 0;
    while i <= 100 && |reports| < stopAfter
      invariant i >= 0
      invariant reports + Ramp(i, step) == Ramp(0, step)
      invariant |reports| <= stopAfter
      decreases 101 - i
    {
      assert Ramp(i, step) == [i] + Ramp(i + step, step);
      reports := reports + [i];
      i := i + step;
    }
    var all := Ramp(0, step);
    assert all[..|reports|] == reports;
  }

  /** The report handler's loop over its fixed list, stopping early after stopAfter reports. */
  method EmitEach(steps: seq<int>, stopAfter: nat) returns (reports: seq<int>)
    ensures reports == steps[..if stopAfter < |steps| then stopAfter else |steps|]
  {
    reports := [];
    var k := 0;
    while k < |steps| && k < stopAfter
      invariant k <= |steps| && k <= stopAfter
      invariant reports == steps[..k]
    {
      reports := reports + [steps[k]];
      k := k + 1;
    }
  }

  /**
   * Processes a job: runs the handler its type selects, collecting the progress
   * reports it emits, and returns success when the handler runs to the end, or
   * the interruption's message when it is stopped part-way.
   */
  method ProcessJob(job: Job, interrupt: Option<Interrupt>) returns (reports: seq<int>, result: JobProcessResult)
    ensures var all := Steps(HandlerFor(job.jobType));
      && |reports| <= |all| && reports == all[..|reports|]
      && (result.success <==> interrupt.None? || interrupt.value.before >= |all|)
      && (result.success ==> reports == all && result.errorMessage == None)
      && (!result.success ==>
            reports == all[..interrupt.value.before]
            && result.errorMessage == Some(Describe(interrupt.value.kind)))
    ensures result.success ==> reports != [] && reports[|reports| - 1] == 100
    ensures WellFormedProgress(reports)
  {
    reports, result := RunHandler(HandlerFor(job.jobType), interrupt);
  }

  /**
   * Runs one handler: its loop reports the handler's series, or the part of it
   * before the interruption point; success when it runs to the end, the
   * interruption's message otherwise.
   */
  method RunHandler(h: Handler, interrupt: Option<Interrupt>) returns (reports: seq<int>, result: JobProcessResult)
    ensures var all := Steps(h);
      && |reports| <= |all| && reports == all[..|reports|]
      && (result.success <==> interrupt.None? || interrupt.value.before >= |all|)
      && (result.success ==> reports == all && result.errorMessage == None)
      && (!result.success ==>
            reports == all[..interrupt.value.before]
            && result.errorMessage == Some(Describe(interrupt.value.kind)))
    ensures result.success ==> reports != [] && reports[|reports| - 1] == 100
    ensures WellFormedProgress(reports)
  {
    var all := Steps(h);
    var stopAfter := match interrupt
      case None => |all|
      case Some(i) => i.before;
    reports := Emit(h, stopAfter);
    HandlerProgressIsComplete(h);
    PrefixIsWellFormed(all, |reports|);
    if interrupt.None? || interrupt.value.before >= |all| {
      assert |reports| == |all|;
      WholePrefix(all);
      assert reports == all;
      result := JobProcessResult(true, None);
    } else {
      result := JobProcessResult(false, Some(Describe(interrupt.value.kind)));
    }
  }

  /** The handler's own loop: the first stopAfter values of its series, or all of them. */
  method Emit(h: Handler, stopAfter: nat) returns (reports: seq<int>)
    ensures var all := Steps(h);
      reports == all[..if stopAfter < |all| then stopAfter else |all|]
  {
    if h == ReportGeneration {
      reports := EmitEach(ReportSteps, stopAfter);
    } else {
      reports := CountUp(StepOf(h), stopAfter);
    }
  }

  /** A prefix of a well-formed series is well-formed. */
  lemma PrefixIsWellFormed(s: seq<int>, n: nat)
    requires WellFormedProgress(s) && n <= |s|
    ensures WellFormedProgress(s[..n])
  {
  }
}
