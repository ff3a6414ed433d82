/** The initial index run: a producer stages and queues discovered sources, workers extract them, and a
    consumer writes what they report, over two bounded channels. */
module ExtractionPipeline {
  import opened GraphFacts
  import opened Sequences

  const QUEUE_CAPACITY := 32

  /** total sources are discovered unless the stream fails; there is at least one worker. */
  datatype Pipeline = Pipeline(total: nat, workers: nat) {
    predicate Valid() {
      workers > 0
    }
  }

  datatype Producer = Emitting(index: nat) | Offering(index: nat) | Stopped(index: nat)

  datatype Report = Extracted(index: nat) | ExtractError(index: nat) | InitError

  datatype Worker = Starting | Idle | Extracting(index: nat) | Reporting(report: Report) | Done

  /** received counts the errors the consumer has seen or caused, failures all that happened. */
  datatype State = State(
    producer: Producer,
    jobs: seq<nat>,
    workers: seq<Worker>,
    results: seq<Report>,
    closed: bool,
    finished: bool,
    written: seq<nat>,
    received: nat,
    producerError: bool,
    cancelled: bool,
    parentCancelled: bool,
    failures: nat)

  function NewWorkers(n: nat): (workers: seq<Worker>)
    ensures |workers| == n && forall w :: 0 <= w < n ==> workers[w].Starting?
  {
    if n == 0 then [] else NewWorkers(n - 1) + [Starting]
  }

  function Initial(pipeline: Pipeline): State {
    State(Emitting(0), [], NewWorkers(pipeline.workers), [], false, false, [], 0, false, false, false, 0)
  }

  datatype Step =
    | Stage(fails: bool)
    | Offer
    | StreamEnds
    | ProducerCancelled
    | StartWorker(worker: nat, fails: bool)
    | TakeJob(worker: nat)
    | Extract(worker: nat, fails: bool)
    | SendReport(worker: nat)
    | WorkerEnds(worker: nat)
    | CloseResults
    | Receive(writeFails: bool)
    | Finish
    | CancelParent

  predicate AllDone(workers: seq<Worker>) {
    forall w :: 0 <= w < |workers| ==> workers[w].Done?
  }

  predicate Enabled(pipeline: Pipeline, s: State, step: Step) {
    match step
    case Stage(fails) => s.producer.Emitting? && (fails || s.producer.index < pipeline.total)
    case Offer => s.producer.Offering? && |s.jobs| < QUEUE_CAPACITY
    case StreamEnds => s.producer == Emitting(pipeline.total)
    case ProducerCancelled => !s.producer.Stopped? && s.cancelled
    case StartWorker(w, _) => w < |s.workers| && s.workers[w].Starting?
    case TakeJob(w) => w < |s.workers| && s.workers[w].Idle? && s.jobs != []
    case Extract(w, _) => w < |s.workers| && s.workers[w].Extracting?
    case SendReport(w) => w < |s.workers| && s.workers[w].Reporting? && |s.results| < QUEUE_CAPACITY
    case WorkerEnds(w) => w < |s.workers| && s.workers[w].Idle? && s.jobs == [] && s.producer.Stopped?
    case CloseResults => !s.closed && AllDone(s.workers)
    case Receive(_) => !s.finished && s.results != []
    case Finish => !s.finished && s.results == [] && s.closed
    case CancelParent => !s.parentCancelled
  }

  function Fail(s: State): State {
    s.(cancelled := true, failures := s.failures + 1)
  }

  function Next(pipeline: Pipeline, s: State, step: Step): State
    requires Enabled(pipeline, s, step)
  {
    match step
    case Stage(fails) =>
      if fails then Fail(s).(producer := Stopped(s.producer.index), producerError := true)
      else s.(producer := Offering(s.producer.index))
    case Offer => s.(producer := Emitting(s.producer.index + 1), jobs := s.jobs + [s.producer.index])
    case StreamEnds => s.(producer := Stopped(s.producer.index))
    case ProducerCancelled => s.(producer := Stopped(s.producer.index))
    case StartWorker(w, fails) =>
      if fails then Fail(s).(workers := s.workers[w := Reporting(InitError)]) else s.(workers := s.workers[w := Idle])
    case TakeJob(w) => s.(workers := s.workers[w := Extracting(s.jobs[0])], jobs := s.jobs[1..])
    case Extract(w, fails) =>
      if fails then Fail(s).(workers := s.workers[w := Reporting(ExtractError(s.workers[w].index))])
      else s.(workers := s.workers[w := Reporting(Extracted(s.workers[w].index))])
    case SendReport(w) =>
      s.(workers := s.workers[w := if s.workers[w].report.Extracted? then Idle else Done],
         results := s.results + [s.workers[w].report])
    case WorkerEnds(w) => s.(workers := s.workers[w := Done])
    case CloseResults => s.(closed := true)
    case Receive(writeFails) =>
      var received := s.(results := s.results[1..]);
      if !s.results[0].Extracted? then received.(received := s.received + 1, cancelled := true)
      else if s.received > 0 then received
      else if writeFails then Fail(received).(received := 1)
      else received.(written := s.written + [s.results[0].index])
    case Finish => s.(finished := true)
    case CancelParent => s.(parentCancelled := true, cancelled := true)
  }

  /** consumeContributions returns no error. */
  predicate Succeeds(s: State) {
    s.finished && !s.parentCancelled && !s.producerError && s.received == 0
  }

  // ----- where the emitted sources and the errors are ---------------------------------------

  /** Errors are counted like sources, under an index of their own. */
  const ERROR := -1

  function Count(indexes: seq<nat>, k: int): nat {
    if indexes == [] then 0 else One(indexes[0] == k) + Count(indexes[1..], k)
  }

  function OfReport(report: Report, k: int): nat {
    match report
    case Extracted(index) => One(index == k)
    case _ => One(k == ERROR)
  }

  function OfWorker(worker: Worker, k: int): nat {
    match worker
    case Extracting(index) => One(index == k)
    case Reporting(report) => OfReport(report, k)
    case _ => 0
  }

  function AtIndex(k: int): Worker -> nat {
    worker => OfWorker(worker, k)
  }

  function InWorkers(workers: seq<Worker>, k: int): nat {
    Total(workers, AtIndex(k))
  }

  function InResults(results: seq<Report>, k: int): nat {
    if results == [] then 0 else OfReport(results[0], k) + InResults(results[1..], k)
  }

  lemma {:induction false} CountAppend(indexes: seq<nat>, index: nat, k: int)
    ensures Count(indexes + [index], k) == Count(indexes, k) + One(index == k)
  {
    if indexes == [] {
      assert [index][1..] == [];
    } else {
      CountAppend(indexes[1..], index, k);
      assert (indexes + [index])[1..] == indexes[1..] + [index];
    }
  }

  lemma {:induction false} ReportArrives(results: seq<Report>, report: Report, k: int)
    ensures InResults(results + [report], k) == InResults(results, k) + OfReport(report, k)
  {
    if results == [] {
      assert [report][1..] == [];
    } else {
      ReportArrives(results[1..], report, k);
      assert (results + [report])[1..] == results[1..] + [report];
    }
  }

  lemma WorkerChanges(workers: seq<Worker>, w: nat, worker: Worker, k: int)
    requires w < |workers|
    ensures InWorkers(workers[w := worker], k) + OfWorker(workers[w], k) == InWorkers(workers, k) + OfWorker(worker, k)
  {
    TotalChanges(workers, w, worker, AtIndex(k));
  }

  lemma {:induction false} NeverNegative(indexes: seq<nat>)
    ensures Count(indexes, ERROR) == 0
  {
    if indexes != [] {
      NeverNegative(indexes[1..]);
    }
  }

  lemma FirstCounts(indexes: seq<nat>, k: int)
    requires indexes != []
    ensures Count(indexes, k) == One(indexes[0] == k) + Count(indexes[1..], k)
  {}

  lemma FirstReport(results: seq<Report>, k: int)
    requires results != []
    ensures InResults(results, k) == OfReport(results[0], k) + InResults(results[1..], k)
  {}

  /** In how many places an emitted source is: queued, with a worker, reported, or written. */
  function Places(s: State, k: int): nat {
    Count(s.jobs, k) + InWorkers(s.workers, k) + InResults(s.results, k) + Count(s.written, k)
  }

  // ----- the invariant ----------------------------------------------------------------------

  ghost predicate Flags(pipeline: Pipeline, s: State) {
    && |s.workers| == pipeline.workers && s.producer.index <= pipeline.total
    && (s.producer.Offering? ==> s.producer.index < pipeline.total)
    && (s.cancelled <==> s.failures > 0 || s.parentCancelled)
    && (s.producer.Stopped? && !s.cancelled ==> s.producer.index == pipeline.total)
    && (s.producerError ==> s.producer.Stopped?)
    && (s.closed ==> AllDone(s.workers))
    && (s.finished ==> s.closed && s.results == [])
    && Left(s)
  }

  /** A worker that is done failed or found no more work. */
  ghost predicate Left(s: State) {
    forall w :: 0 <= w < |s.workers| && s.workers[w].Done? ==> s.failures > 0 || (s.producer.Stopped? && s.jobs == [])
  }

  /** Every failure is recorded or on its way to the consumer. */
  ghost predicate Accounted(s: State) {
    s.failures == One(s.producerError) + s.received + Places(s, ERROR)
  }

  ghost predicate OncePlaced(s: State) {
    forall k: nat :: Places(s, k) <= 1 && (Places(s, k) > 0 ==> k < s.producer.index)
  }

  ghost predicate NoneLost(s: State) {
    s.failures > 0 || forall k: nat :: k < s.producer.index ==> Places(s, k) > 0
  }

  ghost predicate Invariant(pipeline: Pipeline, s: State) {
    Flags(pipeline, s) && Accounted(s) && OncePlaced(s) && NoneLost(s)
  }

  // ----- one step ---------------------------------------------------------------------------

  function Created(pipeline: Pipeline, s: State, step: Step, k: int): nat
    requires Enabled(pipeline, s, step)
  {
    match step
    case Offer => One(k == s.producer.index)
    case StartWorker(_, fails) => One(fails && k == ERROR)
    case Extract(_, fails) => One(fails && k == ERROR)
    case _ => 0
  }

  function Removed(pipeline: Pipeline, s: State, step: Step, k: int): nat
    requires Enabled(pipeline, s, step)
  {
    match step
    case Extract(w, fails) => One(fails && k == s.workers[w].index)
    case Receive(writeFails) => if !s.results[0].Extracted? then One(k == ERROR)
      else One((writeFails || s.received > 0) && k == s.results[0].index)
    case _ => 0
  }

  ghost predicate Balanced(pipeline: Pipeline, s: State, step: Step, k: int)
    requires Enabled(pipeline, s, step)
  {
    Places(Next(pipeline, s, step), k) + Removed(pipeline, s, step, k) == Places(s, k) + Created(pipeline, s, step, k)
  }

  predicate MovesInWorker(step: Step) {
    step.StartWorker? || step.TakeJob? || step.Extract? || step.SendReport? || step.WorkerEnds?
  }

  lemma SendBalanced(pipeline: Pipeline, s: State, step: Step, k: int)
    requires Enabled(pipeline, s, step) && step.SendReport?
    ensures Balanced(pipeline, s, step, k)
  {
    hide InWorkers, InResults, Count, AllDone, OfReport;
    var report := s.workers[step.worker].report;
    WorkerChanges(s.workers, step.worker, if report.Extracted? then Idle else Done, k);
    ReportArrives(s.results, report, k);
  }

  lemma TakeBalanced(pipeline: Pipeline, s: State, step: Step, k: int)
    requires Enabled(pipeline, s, step) && step.TakeJob?
    ensures Balanced(pipeline, s, step, k)
  {
    hide InWorkers, InResults, Count, AllDone, OfReport, One;
    WorkerChanges(s.workers, step.worker, Extracting(s.jobs[0]), k);
    FirstCounts(s.jobs, k);
  }

  lemma ExtractBalanced(pipeline: Pipeline, s: State, step: Step, k: int)
    requires Enabled(pipeline, s, step) && step.Extract?
    ensures Balanced(pipeline, s, step, k)
  {
    hide InWorkers, InResults, Count, AllDone;
    WorkerChanges(s.workers, step.worker, Next(pipeline, s, step).workers[step.worker], k);
  }

  lemma StartBalanced(pipeline: Pipeline, s: State, step: Step, k: int)
    requires Enabled(pipeline, s, step) && (step.StartWorker? || step.WorkerEnds?)
    ensures Balanced(pipeline, s, step, k)
  {
    hide InWorkers, InResults, Count, AllDone;
    WorkerChanges(s.workers, step.worker, Next(pipeline, s, step).workers[step.worker], k);
  }

  lemma ReceiveBalanced(pipeline: Pipeline, s: State, step: Step, k: int)
    requires Enabled(pipeline, s, step) && step.Receive?
    ensures Balanced(pipeline, s, step, k)
  {
    hide InWorkers, InResults, Count, AllDone;
    FirstReport(s.results, k);
    if s.results[0].Extracted? {
      CountAppend(s.written, s.results[0].index, k);
    }
  }

  lemma StepBalanced(pipeline: Pipeline, s: State, step: Step, k: int)
    requires Enabled(pipeline, s, step)
    ensures Balanced(pipeline, s, step, k)
  {
    hide InWorkers, InResults, Count, AllDone, OfReport, One;
    match step
    case SendReport(_) => SendBalanced(pipeline, s, step, k);
    case TakeJob(_) => TakeBalanced(pipeline, s, step, k);
    case Extract(_, _) => ExtractBalanced(pipeline, s, step, k);
    case StartWorker(_, _) => StartBalanced(pipeline, s, step, k);
    case WorkerEnds(_) => StartBalanced(pipeline, s, step, k);
    case Receive(_) => ReceiveBalanced(pipeline, s, step, k);
    case Offer => CountAppend(s.jobs, s.producer.index, k);
    case _ =>
  }

  /** How many more failures happened, were recorded at the consumer, or by the producer. */
  lemma FailureStep(pipeline: Pipeline, s: State, step: Step)
    requires (s.producerError ==> s.producer.Stopped?) && Enabled(pipeline, s, step)
    ensures var t := Next(pipeline, s, step);
      t.failures - s.failures == (t.received - s.received) + (One(t.producerError) - One(s.producerError))
                               + (Created(pipeline, s, step, ERROR) - Removed(pipeline, s, step, ERROR))
  {
    hide AllDone, Next;
    if step.Receive? {
      ReceiveFailures(pipeline, s, step);
    } else if step.Stage? {
      StageFailures(pipeline, s, step);
    } else if step.Extract? {
      ExtractFailures(pipeline, s, step);
    } else if step.StartWorker? {
      StartFailures(pipeline, s, step);
    } else {
      NoFailures(pipeline, s, step);
    }
  }

  lemma ReceiveFailures(pipeline: Pipeline, s: State, step: Step)
    requires Enabled(pipeline, s, step) && step.Receive?
    ensures var t := Next(pipeline, s, step);
      t.producerError == s.producerError
        && t.failures - s.failures == t.received - s.received - Removed(pipeline, s, step, ERROR)
  {}

  lemma StageFailures(pipeline: Pipeline, s: State, step: Step)
    requires Enabled(pipeline, s, step) && step.Stage? && (s.producerError ==> s.producer.Stopped?)
    ensures var t := Next(pipeline, s, step);
      t.received == s.received && t.failures - s.failures == One(t.producerError) - One(s.producerError)
  {}

  lemma ExtractFailures(pipeline: Pipeline, s: State, step: Step)
    requires Enabled(pipeline, s, step) && step.Extract?
    ensures var t := Next(pipeline, s, step);
      && t.received == s.received && t.producerError == s.producerError
      && t.failures - s.failures == Created(pipeline, s, step, ERROR) - Removed(pipeline, s, step, ERROR)
  {
    hide AllDone;
  }

  lemma StartFailures(pipeline: Pipeline, s: State, step: Step)
    requires Enabled(pipeline, s, step) && step.StartWorker?
    ensures var t := Next(pipeline, s, step);
      && t.received == s.received && t.producerError == s.producerError
      && t.failures - s.failures == Created(pipeline, s, step, ERROR) - Removed(pipeline, s, step, ERROR)
  {
    hide AllDone;
  }

  lemma NoFailures(pipeline: Pipeline, s: State, step: Step)
    requires Enabled(pipeline, s, step) && !step.Stage? && !step.Receive? && !step.Extract? && !step.StartWorker?
    ensures var t := Next(pipeline, s, step);
      && t.received == s.received && t.producerError == s.producerError && t.failures == s.failures
      && Created(pipeline, s, step, ERROR) == Removed(pipeline, s, step, ERROR) == 0
  {
    hide AllDone;
  }

  lemma AccountedStep(pipeline: Pipeline, s: State, step: Step)
    requires Flags(pipeline, s) && Accounted(s) && Enabled(pipeline, s, step)
    ensures Accounted(Next(pipeline, s, step))
  {
    StepBalanced(pipeline, s, step, ERROR);
    FailureStep(pipeline, s, step);
    hide Places, AllDone, Next, Created, Removed, Flags, Enabled;
  }

  /** A source is thrown away only after something failed. */
  lemma DropsAfterFailure(pipeline: Pipeline, s: State, step: Step, k: nat)
    requires Accounted(s) && Enabled(pipeline, s, step) && Removed(pipeline, s, step, k) > 0
    ensures Next(pipeline, s, step).failures > 0
  {
    hide Places, AllDone;
  }

  lemma CreatedByOffer(pipeline: Pipeline, s: State, step: Step, k: nat)
    requires Enabled(pipeline, s, step)
    ensures Created(pipeline, s, step, k) == One(step.Offer? && k == s.producer.index)
  {
    hide AllDone, Next;
  }

  /** A worker's step changes that worker, leaves the producer alone and takes jobs but adds none. */
  lemma WorkerStep(pipeline: Pipeline, s: State, step: Step)
    requires Enabled(pipeline, s, step) && MovesInWorker(step)
    ensures var t := Next(pipeline, s, step);
      && step.worker < |s.workers| == |t.workers| && t.workers == s.workers[step.worker := t.workers[step.worker]]
      && t.producer == s.producer && t.failures >= s.failures && (s.jobs == [] ==> t.jobs == [])
  {
    hide AllDone;
  }

  lemma OtherStep(pipeline: Pipeline, s: State, step: Step)
    requires Enabled(pipeline, s, step) && !MovesInWorker(step)
    ensures var t := Next(pipeline, s, step);
      && t.workers == s.workers && t.failures >= s.failures
      && t.producer.index == s.producer.index + One(step.Offer?)
  {
    hide AllDone;
    if step.Receive? {
      ReceiveStep(pipeline, s, step);
    }
  }

  lemma ReceiveStep(pipeline: Pipeline, s: State, step: Step)
    requires Enabled(pipeline, s, step) && step.Receive?
    ensures var t := Next(pipeline, s, step);
      t.workers == s.workers && t.failures >= s.failures && t.producer == s.producer
  {}

  lemma IndexStep(pipeline: Pipeline, s: State, step: Step, k: nat)
    requires Enabled(pipeline, s, step)
    ensures Created(pipeline, s, step, k) == One(step.Offer? && k == s.producer.index)
    ensures Next(pipeline, s, step).producer.index == s.producer.index + One(step.Offer?)
    ensures Next(pipeline, s, step).failures >= s.failures
  {
    CreatedByOffer(pipeline, s, step, k);
    hide Enabled, Next, Created;
    if MovesInWorker(step) {
      WorkerStep(pipeline, s, step);
    } else {
      OtherStep(pipeline, s, step);
    }
  }

  lemma PlacesStep(pipeline: Pipeline, s: State, step: Step)
    requires Accounted(s) && OncePlaced(s) && NoneLost(s) && Enabled(pipeline, s, step)
    ensures OncePlaced(Next(pipeline, s, step)) && NoneLost(Next(pipeline, s, step))
  {
    hide Next, Places, Removed, Created, AllDone, Enabled;
    var t := Next(pipeline, s, step);
    forall k: nat
      ensures Places(t, k) <= 1 && (Places(t, k) > 0 ==> k < t.producer.index)
      ensures t.failures == 0 && k < t.producer.index ==> Places(t, k) > 0
    {
      assert Places(s, k) <= 1;
      StepBalanced(pipeline, s, step, k);
      IndexStep(pipeline, s, step, k);
      if Removed(pipeline, s, step, k) > 0 {
        DropsAfterFailure(pipeline, s, step, k);
      }
    }
  }

  lemma ErrorReported(s: State, w: nat)
    requires w < |s.workers| && s.workers[w].Reporting? && !s.workers[w].report.Extracted?
    ensures Places(s, ERROR) > 0
  {
    WorkerChanges(s.workers, w, Done, ERROR);
  }

  /** An error on its way, and so a failure, lies behind a worker or a report that says so. */
  lemma FailedBefore(pipeline: Pipeline, s: State, step: Step)
    requires Accounted(s) && Enabled(pipeline, s, step)
    ensures step.SendReport? && !s.workers[step.worker].report.Extracted? ==> s.failures > 0
    ensures step.Receive? && !s.results[0].Extracted? ==> s.failures > 0
  {
    if step.SendReport? && !s.workers[step.worker].report.Extracted? {
      ErrorReported(s, step.worker);
    }
    if step.Receive? && !s.results[0].Extracted? {
      assert InResults(s.results, ERROR) > 0;
    }
    hide AllDone;
  }

  lemma WorkerLeft(pipeline: Pipeline, s: State, step: Step)
    requires Left(s) && Enabled(pipeline, s, step) && MovesInWorker(step)
    requires step.SendReport? && !s.workers[step.worker].report.Extracted? ==> s.failures > 0
    ensures Left(Next(pipeline, s, step))
  {
    WorkerStep(pipeline, s, step);
    DoneHasCause(pipeline, s, step);
    hide Next, Enabled;
  }

  lemma DoneHasCause(pipeline: Pipeline, s: State, step: Step)
    requires Enabled(pipeline, s, step) && MovesInWorker(step)
    requires step.SendReport? && !s.workers[step.worker].report.Extracted? ==> s.failures > 0
    ensures var t := Next(pipeline, s, step);
      step.worker < |t.workers|
        && (t.workers[step.worker].Done? ==> t.failures > 0 || (t.producer.Stopped? && t.jobs == []))
  {
    hide AllDone;
    match step
    case SendReport(_) =>
    case WorkerEnds(_) =>
    case _ =>
  }

  /** Only a stopped producer lets workers leave, and it adds no jobs. */
  lemma StoppedStays(pipeline: Pipeline, s: State, step: Step)
    requires Enabled(pipeline, s, step) && !MovesInWorker(step) && s.producer.Stopped?
    ensures Next(pipeline, s, step).producer == s.producer && Next(pipeline, s, step).jobs == s.jobs
  {
    hide AllDone;
  }

  lemma OtherLeft(pipeline: Pipeline, s: State, step: Step)
    requires Left(s) && Enabled(pipeline, s, step) && !MovesInWorker(step)
    ensures Left(Next(pipeline, s, step))
  {
    OtherStep(pipeline, s, step);
    if s.producer.Stopped? {
      StoppedStays(pipeline, s, step);
    }
    hide Next, Enabled;
  }

  lemma WorkerFlags(pipeline: Pipeline, s: State, step: Step)
    requires Flags(pipeline, s) && Enabled(pipeline, s, step) && MovesInWorker(step)
    requires Left(Next(pipeline, s, step))
    ensures Flags(pipeline, Next(pipeline, s, step))
  {
    hide Left;
  }

  lemma OtherFlags(pipeline: Pipeline, s: State, step: Step)
    requires Flags(pipeline, s) && Enabled(pipeline, s, step) && !MovesInWorker(step)
    requires step.Receive? && !s.results[0].Extracted? ==> s.failures > 0
    requires Left(Next(pipeline, s, step))
    ensures Flags(pipeline, Next(pipeline, s, step))
  {
    hide Left;
  }

  lemma FlagsStep(pipeline: Pipeline, s: State, step: Step)
    requires Flags(pipeline, s) && Accounted(s) && Enabled(pipeline, s, step)
    ensures Flags(pipeline, Next(pipeline, s, step))
  {
    FailedBefore(pipeline, s, step);
    hide Accounted, Left, Next, AllDone;
    if MovesInWorker(step) {
      WorkerLeft(pipeline, s, step);
      WorkerFlags(pipeline, s, step);
    } else {
      OtherLeft(pipeline, s, step);
      OtherFlags(pipeline, s, step);
    }
  }

  lemma StepKeeps(pipeline: Pipeline, s: State, step: Step)
    requires Invariant(pipeline, s) && Enabled(pipeline, s, step)
    ensures Invariant(pipeline, Next(pipeline, s, step))
  {
    hide Flags, Accounted, OncePlaced, NoneLost, Next;
    AccountedStep(pipeline, s, step);
    FlagsStep(pipeline, s, step);
    PlacesStep(pipeline, s, step);
  }

  lemma {:induction false} NobodyWorks(workers: seq<Worker>, k: int)
    requires forall w :: 0 <= w < |workers| ==> workers[w].Starting? || workers[w].Done?
    ensures InWorkers(workers, k) == 0
  {
    if workers != [] {
      NobodyWorks(workers[..|workers| - 1], k);
    }
  }

  lemma InitiallyInvariant(pipeline: Pipeline)
    requires pipeline.Valid()
    ensures Invariant(pipeline, Initial(pipeline))
  {
    forall k: int
      ensures Places(Initial(pipeline), k) == 0
    {
      NobodyWorks(NewWorkers(pipeline.workers), k);
    }
    hide Places, NewWorkers;
  }

  // ----- what every interleaving keeps ------------------------------------------------------

  ghost predicate Run(pipeline: Pipeline, states: seq<State>, steps: seq<Step>) {
    && |states| == |steps| + 1 && states[0] == Initial(pipeline)
    && forall i ::
      0 <= i < |steps| ==>
      Enabled(pipeline, states[i], steps[i]) && states[i + 1] == Next(pipeline, states[i], steps[i])
  }

  lemma {:induction false} RunKeepsInvariant(pipeline: Pipeline, states: seq<State>, steps: seq<Step>)
    requires pipeline.Valid() && Run(pipeline, states, steps)
    ensures Invariant(pipeline, states[|steps|])
  {
    hide Invariant, Next, Enabled, Initial;
    if steps == [] {
      InitiallyInvariant(pipeline);
    } else {
      var last := |steps| - 1;
      RunKeepsInvariant(pipeline, states[..|steps|], steps[..last]);
      StepKeeps(pipeline, states[last], steps[last]);
    }
  }

  lemma BoundedStep(pipeline: Pipeline, s: State, step: Step)
    requires Enabled(pipeline, s, step) && |s.jobs| <= 32 && |s.results| <= 32
    ensures |Next(pipeline, s, step).jobs| <= 32 && |Next(pipeline, s, step).results| <= 32
  {
    hide AllDone;
    match step
    case Offer =>
    case TakeJob(_) =>
    case SendReport(_) =>
    case Receive(_) =>
    case _ =>
  }

  /** Neither channel ever holds more than 32 elements. */
  lemma {:induction false} ChannelsAreBounded(pipeline: Pipeline, states: seq<State>, steps: seq<Step>)
    requires Run(pipeline, states, steps)
    ensures |states[|steps|].jobs| <= 32 && |states[|steps|].results| <= 32
  {
    hide Next, Enabled;
    if steps != [] {
      var last := |steps| - 1;
      ChannelsAreBounded(pipeline, states[..|steps|], steps[..last]);
      BoundedStep(pipeline, states[last], steps[last]);
    }
  }

  /** Some goroutine of an unfinished run can always go on. */
  lemma NeverStuck(pipeline: Pipeline, s: State) returns (step: Step)
    requires pipeline.Valid() && Invariant(pipeline, s) && !s.finished
    ensures Enabled(pipeline, s, step) && !step.CancelParent?
  {
    if s.results != [] {
      return Receive(false);
    }
    if s.closed {
      return Finish;
    }
    if AllDone(s.workers) {
      return CloseResults;
    }
    var w :| 0 <= w < |s.workers| && !s.workers[w].Done?;
    if s.workers[w].Starting? {
      return StartWorker(w, false);
    }
    if s.workers[w].Extracting? {
      return Extract(w, false);
    }
    if s.workers[w].Reporting? {
      return SendReport(w);
    }
    if s.jobs != [] {
      return TakeJob(w);
    }
    match s.producer
    case Stopped(_) => step := WorkerEnds(w);
    case Offering(_) => step := Offer;
    case Emitting(index) => step := if index == pipeline.total then StreamEnds else Stage(false);
  }

  // ----- every run ends ---------------------------------------------------------------------

  function WorkerWork(worker: Worker): nat {
    match worker
    case Done => 0
    case Idle => 1
    case Reporting(_) => 6
    case Extracting(_) => 7
    case Starting => 8
  }

  function WorkersWork(workers: seq<Worker>): nat {
    Total(workers, WorkerWork)
  }

  lemma WorkChanges(workers: seq<Worker>, w: nat, worker: Worker)
    requires w < |workers|
    ensures WorkersWork(workers[w := worker]) + WorkerWork(workers[w]) == WorkersWork(workers) + WorkerWork(worker)
  {
    TotalChanges(workers, w, worker, WorkerWork);
  }

  function ProducerWork(pipeline: Pipeline, producer: Producer): int {
    match producer
    case Emitting(index) => 10 * (pipeline.total - index) + 2
    case Offering(index) => 10 * (pipeline.total - index) + 1
    case Stopped(_) => 0
  }

  /** How many steps a run can still take. */
  function Work(pipeline: Pipeline, s: State): int {
    ProducerWork(pipeline, s.producer) + 7 * |s.jobs| + WorkersWork(s.workers) + 4 * |s.results|
    + One(!s.closed) + One(!s.finished) + One(!s.parentCancelled)
  }

  lemma SendProgress(pipeline: Pipeline, s: State, step: Step)
    requires Enabled(pipeline, s, step) && (step.SendReport? || step.TakeJob?)
    ensures Work(pipeline, Next(pipeline, s, step)) < Work(pipeline, s)
  {
    hide WorkersWork, AllDone, ProducerWork, One;
    WorkChanges(s.workers, step.worker, Next(pipeline, s, step).workers[step.worker]);
  }

  lemma ExtractProgress(pipeline: Pipeline, s: State, step: Step)
    requires Enabled(pipeline, s, step) && step.Extract?
    ensures Work(pipeline, Next(pipeline, s, step)) < Work(pipeline, s)
  {
    hide WorkersWork, AllDone, ProducerWork, One;
    WorkChanges(s.workers, step.worker, Next(pipeline, s, step).workers[step.worker]);
  }

  lemma ChangeProgress(pipeline: Pipeline, s: State, step: Step)
    requires Enabled(pipeline, s, step) && (step.StartWorker? || step.WorkerEnds?)
    ensures Work(pipeline, Next(pipeline, s, step)) < Work(pipeline, s)
  {
    hide WorkersWork, AllDone, ProducerWork, One;
    WorkChanges(s.workers, step.worker, Next(pipeline, s, step).workers[step.worker]);
  }

  lemma ProducerProgress(pipeline: Pipeline, s: State, step: Step)
    requires Flags(pipeline, s) && Enabled(pipeline, s, step)
    requires step.Stage? || step.Offer? || step.StreamEnds? || step.ProducerCancelled?
    ensures Work(pipeline, Next(pipeline, s, step)) < Work(pipeline, s)
  {
    hide WorkersWork, AllDone, Left, One;
  }

  lemma ConsumerProgress(pipeline: Pipeline, s: State, step: Step)
    requires Enabled(pipeline, s, step)
    requires step.Receive? || step.Finish? || step.CloseResults? || step.CancelParent?
    ensures Work(pipeline, Next(pipeline, s, step)) < Work(pipeline, s)
  {
    hide WorkersWork, AllDone, ProducerWork;
  }

  lemma NoNegativeWork(pipeline: Pipeline, s: State)
    requires Invariant(pipeline, s)
    ensures Work(pipeline, s) >= 0
  {}

  lemma EveryStepIsProgress(pipeline: Pipeline, s: State, step: Step)
    requires Invariant(pipeline, s) && Enabled(pipeline, s, step)
    ensures 0 <= Work(pipeline, Next(pipeline, s, step)) < Work(pipeline, s)
  {
    hide Work, Next, Enabled, OncePlaced, NoneLost, Accounted, Flags;
    StepKeeps(pipeline, s, step);
    NoNegativeWork(pipeline, Next(pipeline, s, step));
    if step.SendReport? || step.TakeJob? {
      SendProgress(pipeline, s, step);
    } else if step.Extract? {
      ExtractProgress(pipeline, s, step);
    } else if MovesInWorker(step) {
      ChangeProgress(pipeline, s, step);
    } else if step.Receive? || step.Finish? || step.CloseResults? || step.CancelParent? {
      ConsumerProgress(pipeline, s, step);
    } else {
      ProducerProgress(pipeline, s, step);
    }
  }

  lemma {:induction false} RunsAreShort(pipeline: Pipeline, states: seq<State>, steps: seq<Step>)
    requires pipeline.Valid() && Run(pipeline, states, steps)
    ensures 0 <= Work(pipeline, states[|steps|]) <= Work(pipeline, Initial(pipeline)) - |steps|
  {
    hide Invariant, Next, Enabled, Initial, Work;
    if steps == [] {
      RunKeepsInvariant(pipeline, states, steps);
      NoNegativeWork(pipeline, states[0]);
    } else {
      var last := |steps| - 1;
      RunsAreShort(pipeline, states[..|steps|], steps[..last]);
      RunKeepsInvariant(pipeline, states[..|steps|], steps[..last]);
      EveryStepIsProgress(pipeline, states[last], steps[last]);
    }
  }

  /** A finished run returns no error exactly when no worker, producer or write failed and nobody
      cancelled it; then every emitted source was written exactly once. */
  lemma FinishedRuns(pipeline: Pipeline, s: State)
    requires pipeline.Valid() && Invariant(pipeline, s) && s.finished
    ensures Succeeds(s) <==> s.failures == 0 && !s.parentCancelled
    ensures Succeeds(s) ==>
      s.producer == Stopped(pipeline.total) && forall k: nat :: Count(s.written, k) == One(k < pipeline.total)
  {
    NobodyWorks(s.workers, ERROR);
    NeverNegative(s.jobs);
    NeverNegative(s.written);
    assert Places(s, ERROR) == 0;
    if s.failures == 0 && !s.parentCancelled {
      assert s.workers[0].Done?;
      forall k: nat
        ensures Count(s.written, k) == One(k < pipeline.total)
      {
        NobodyWorks(s.workers, k);
        assert Places(s, k) == Count(s.written, k);
      }
    }
  }

  // ----- orderedContributions ---------------------------------------------------------------

  ghost predicate Lists<T>(contributions: map<nat, T>, indexes: seq<nat>, ordered: seq<T>) {
    && |indexes| == |ordered| && (forall k :: k in indexes <==> k in contributions)
    && forall i :: 0 <= i < |indexes| ==> indexes[i] in contributions && ordered[i] == contributions[indexes[i]]
  }

  /** The contributions of a summary in the order of their indexes. */
  method OrderedContributions<T>(contributions: map<nat, T>) returns (ordered: seq<T>)
    ensures |ordered| == |contributions|
    ensures exists indexes: seq<nat> :: Increasing(indexes) && Lists(contributions, indexes, ordered)
  {
    var indexes := UniqueSorted(contributions.Keys);
    ordered := [];
    for i := 0 to |indexes|
      invariant |ordered| == i
      invariant forall j :: 0 <= j < i ==> indexes[j] in contributions && ordered[j] == contributions[indexes[j]]
    {
      assert indexes[i] in indexes;
      ordered := ordered + [contributions[indexes[i]]];
    }
    assert |contributions.Keys| == |contributions|;
  }

  lemma {:induction false} IncreasingFromZero(indexes: seq<nat>, total: nat)
    requires Increasing(indexes) && forall k: nat :: k in indexes <==> k < total
    ensures |indexes| == total && forall i :: 0 <= i < total ==> indexes[i] == i
  {
    if indexes == [] {
      assert 0 in indexes <==> 0 < total;
    } else {
      var before, last := indexes[..|indexes| - 1], indexes[|indexes| - 1];
      assert last in indexes && indexes == before + [last];
      assert total - 1 in indexes;
      var i :| 0 <= i < |indexes| && indexes[i] == total - 1;
      assert last == total - 1;
      forall k: nat
        ensures k in before <==> k < total - 1
      {
        assert k in indexes <==> k in before || k == last;
      }
      IncreasingFromZero(before, total - 1);
    }
  }

  /** What the consumer keeps of the sources it has written. */
  function Summary<T>(written: seq<nat>, sources: seq<T>): map<nat, T> {
    map k: nat | k < |sources| && k in written :: sources[k]
  }

  lemma CountedIsMember(written: seq<nat>, k: nat)
    ensures Count(written, k) > 0 <==> k in written
  {
    if written != [] {
      CountedIsMember(written[1..], k);
    }
  }

  /** After a run that returns no error, orderedContributions lists every emitted source in emission order. */
  lemma OrderedAsEmitted<T>(pipeline: Pipeline, s: State, sources: seq<T>, indexes: seq<nat>, ordered: seq<T>)
    requires pipeline.Valid() && Invariant(pipeline, s) && Succeeds(s) && |sources| == pipeline.total
    requires Increasing(indexes) && Lists(Summary(s.written, sources), indexes, ordered)
    ensures ordered == sources
  {
    FinishedRuns(pipeline, s);
    hide Invariant, Succeeds, Count;
    forall k: nat
      ensures k in Summary(s.written, sources) <==> k < pipeline.total
    {
      CountedIsMember(s.written, k);
      assert Count(s.written, k) == One(k < pipeline.total);
    }
    IncreasingFromZero(indexes, pipeline.total);
  }
}
