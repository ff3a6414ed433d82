/** The pool that prepares contributions for a publication: a producer that needs a credit for every
    index it hands out, workers, a bounded result queue, and a consumer that puts the results back in
    index order and returns one credit for each contribution it writes. */
module PublicationPool {
  import opened Intervals
  import opened Sequences

  /** total contributions, prepared by workers many goroutines.  The result queue has two places for each
      worker; all that matters is that workers have a queue with some place. */
  datatype Pool = Pool(total: nat, workers: nat, queueCapacity: nat) {
    predicate Valid() {
      (workers == 0 <==> total == 0) && (workers > 0 ==> queueCapacity > 0)
    }

    function Window(): nat {
      workers + queueCapacity
    }
  }

  /** The index is the next one to hand out; a cancelled producer may end with a token in hand. */
  datatype Producer = Taking(index: nat) | Holding(index: nat) | Finished(index: nat, withToken: bool)

  datatype Worker = Waiting | Got(index: nat) | Sending(index: nat) | SendingError | Done

  datatype Result = Prepared(index: nat) | PrepareError

  datatype Consumer = Receiving | Draining | Releasing | Ended

  datatype State = State(
    producer: Producer,
    workers: seq<Worker>,
    results: seq<Result>,
    closed: bool,
    tokens: nat,
    consumer: Consumer,
    pending: set<nat>,
    next: nat,
    written: seq<nat>,
    failed: bool,
    cancelled: bool,
    parentCancelled: bool,
    failures: nat)

  function Idle(n: nat): (workers: seq<Worker>)
    ensures |workers| == n && forall w :: 0 <= w < n ==> workers[w].Waiting?
  {
    if n == 0 then [] else Idle(n - 1) + [Waiting]
  }

  function Initial(pool: Pool): State {
    State(if pool.workers == 0 then Finished(0, false)
      else Taking(0), Idle(pool.workers), [], pool.workers == 0, pool.Window(),
          Receiving, {}, 0, [], false, false, false, 0)
  }

  datatype Step =
    | TakeToken
    | HandOut(worker: nat)
    | ProducerEnds
    | Prepare(worker: nat, fails: bool)
    | NoticeCancel(worker: nat, reports: bool)
    | Deliver(worker: nat)
    | GiveUp(worker: nat)
    | WorkerEnds(worker: nat)
    | CloseResults
    | Receive
    | Drain(fails: bool)
    | Release
    | End
    | CancelParent

  predicate HasRoom(pool: Pool, s: State) {
    |s.results| < pool.queueCapacity
  }

  predicate AllDone(workers: seq<Worker>) {
    forall i :: 0 <= i < |workers| ==> workers[i].Done?
  }

  predicate Enabled(pool: Pool, s: State, step: Step) {
    match step
    case TakeToken => s.producer.Taking? && s.producer.index < pool.total && s.tokens > 0
    case HandOut(w) => s.producer.Holding? && w < |s.workers| && s.workers[w].Waiting?
    case ProducerEnds => !s.producer.Finished?
      && (s.cancelled || (s.producer.Taking? && s.producer.index == pool.total))
    case Prepare(w, _) => w < |s.workers| && s.workers[w].Got? && !s.cancelled
    case NoticeCancel(w, reports) => w < |s.workers| && s.workers[w].Got? && s.cancelled
      && (reports ==> HasRoom(pool, s))
    case Deliver(w) => w < |s.workers| && (s.workers[w].Sending? || s.workers[w].SendingError?) && HasRoom(pool, s)
    case GiveUp(w) => w < |s.workers| && s.workers[w].Sending? && s.cancelled
    case WorkerEnds(w) => w < |s.workers| && s.workers[w].Waiting? && s.producer.Finished?
    case CloseResults => !s.closed && AllDone(s.workers)
    case Receive => s.consumer.Receiving? && s.results != []
    case Drain(_) => s.consumer.Draining?
    case Release => s.consumer.Releasing? && s.tokens < pool.Window()
    case End => s.consumer.Receiving? && s.results == [] && s.closed
    case CancelParent => !s.parentCancelled
  }

  function Next(pool: Pool, s: State, step: Step): State
    requires Enabled(pool, s, step)
  {
    match step
    case TakeToken => s.(producer := Holding(s.producer.index), tokens := s.tokens - 1)
    case HandOut(w) => s.(producer := Taking(s.producer.index + 1), workers := s.workers[w := Got(s.producer.index)])
    case ProducerEnds => s.(producer := Finished(s.producer.index, s.producer.Holding?))
    case Prepare(w, fails) =>
      s.(workers := s.workers[w := if fails then SendingError else Sending(s.workers[w].index)],
         failures := if fails then s.failures + 1 else s.failures)
    case NoticeCancel(w, reports) =>
      s.(workers := s.workers[w := Done], results := if reports then s.results + [PrepareError] else s.results)
    case Deliver(w) =>
      if s.workers[w].Sending? then
        s.(workers := s.workers[w := Waiting], results := s.results + [Prepared(s.workers[w].index)])
      else s.(workers := s.workers[w := Done], results := s.results + [PrepareError])
    case GiveUp(w) => s.(workers := s.workers[w := Done])
    case WorkerEnds(w) => s.(workers := s.workers[w := Done])
    case CloseResults => s.(closed := true)
    case Receive =>
      var received := s.(results := s.results[1..]);
      if s.results[0].PrepareError? then received.(failed := true, cancelled := true)
      else if s.failed then received
      else received.(pending := s.pending + {s.results[0].index}, consumer := Draining)
    case Drain(fails) =>
      if s.next !in s.pending then s.(consumer := Receiving)
      else
        var taken := s.(pending := s.pending - {s.next});
        if fails then taken.(failed := true, cancelled := true, failures := s.failures + 1, consumer := Receiving)
        else taken.(written := s.written + [s.next], consumer := Releasing)
    case Release => s.(tokens := s.tokens + 1, next := s.next + 1, consumer := Draining)
    case End => s.(consumer := Ended)
    case CancelParent => s.(parentCancelled := true, cancelled := true)
  }

  /** storePreparedPublication returns no error. */
  predicate Succeeds(pool: Pool, s: State) {
    s.consumer.Ended? && !s.failed && !s.parentCancelled && s.next == pool.total
  }

  // ----- where the handed-out indexes are ---------------------------------------------------

  function OfWorker(worker: Worker, k: nat): nat {
    if (worker.Got? || worker.Sending?) && worker.index == k then 1 else 0
  }

  function OfResult(result: Result, k: nat): nat {
    if result == Prepared(k) then 1 else 0
  }

  function AtIndex(k: nat): Worker -> nat {
    worker => OfWorker(worker, k)
  }

  function InWorkers(workers: seq<Worker>, k: nat): nat {
    Total(workers, AtIndex(k))
  }

  function InResults(results: seq<Result>, k: nat): nat {
    if results == [] then 0 else OfResult(results[0], k) + InResults(results[1..], k)
  }

  lemma WorkerChanges(workers: seq<Worker>, w: nat, worker: Worker, k: nat)
    requires w < |workers|
    ensures InWorkers(workers[w := worker], k) + OfWorker(workers[w], k) == InWorkers(workers, k) + OfWorker(worker, k)
  {
    TotalChanges(workers, w, worker, AtIndex(k));
  }

  lemma {:induction false} ResultArrives(results: seq<Result>, result: Result, k: nat)
    ensures InResults(results + [result], k) == InResults(results, k) + OfResult(result, k)
  {
    if results == [] {
      assert [result][1..] == [];
    } else {
      ResultArrives(results[1..], result, k);
      assert (results + [result])[1..] == results[1..] + [result];
    }
  }

  /** In how many places the index is: with workers, in the queue, in the reorder map. */
  function Places(s: State, k: nat): nat {
    InWorkers(s.workers, k) + InResults(s.results, k) + if k in s.pending then 1 else 0
  }

  /** The first index that was neither written nor taken out to be written. */
  function Low(s: State): nat {
    if s.consumer.Releasing? then s.next + 1 else s.next
  }

  // ----- the invariant ----------------------------------------------------------------------

  function HeldToken(s: State): nat {
    match s.producer
    case Taking(_) => 0
    case Holding(_) => 1
    case Finished(_, withToken) => if withToken then 1 else 0
  }

  /** Credits are never created or lost: what lies in the channel, what the producer holds, and what was
      handed out but not yet written make up the window. */
  ghost predicate Conserved(pool: Pool, s: State) {
    && s.next <= s.producer.index <= pool.total
    && s.tokens + HeldToken(s) + (s.producer.index - s.next) == pool.Window()
    && (s.producer.Holding? ==> s.producer.index < pool.total)
    && (s.consumer.Releasing? ==> s.next < s.producer.index)
  }

  /** The batch received 0, 1, 2, ... in order. */
  ghost predicate WrittenInOrder(s: State) {
    |s.written| == Low(s) && forall i :: 0 <= i < |s.written| ==> s.written[i] == i
  }

  ghost predicate Flags(pool: Pool, s: State) {
    && |s.workers| == pool.workers && |s.results| <= pool.queueCapacity
    && (s.cancelled <==> s.failed || s.parentCancelled)
    && (s.producer.Finished? && !s.cancelled ==> s.producer.index == pool.total)
    && (s.closed ==> AllDone(s.workers))
    && (s.consumer.Ended? ==> s.closed && s.results == [])
    && (s.failed ==> s.consumer.Receiving? || s.consumer.Ended?)
    && (!s.failed && (s.consumer.Receiving? || s.consumer.Ended?) ==> s.next !in s.pending)
    && (s.consumer.Releasing? ==> s.next !in s.pending)
  }

  /** An error that has not reached the consumer yet. */
  ghost predicate ErrorUnderway(s: State) {
    PrepareError in s.results || exists w :: 0 <= w < |s.workers| && s.workers[w].SendingError?
  }

  ghost predicate Accounted(pool: Pool, s: State) {
    && (s.failures > 0 ==> s.failed || ErrorUnderway(s))
    && (s.failed || ErrorUnderway(s) ==> s.failures > 0 || s.parentCancelled)
    && (forall w ::
      0 <= w < |s.workers| && s.workers[w].Done? ==> s.producer.Finished? || s.cancelled || ErrorUnderway(s))
    && (pool.workers == 0 ==> s.producer.Finished?)
  }

  /** No index is in two places; only handed-out indexes that are not yet written are anywhere. */
  ghost predicate OncePlaced(s: State) {
    forall k: nat :: Places(s, k) <= 1 && (Places(s, k) > 0 ==> Low(s) <= k < s.producer.index)
  }

  /** Unless something went wrong, every handed-out index that is not yet written is somewhere. */
  ghost predicate NoneLost(s: State) {
    s.cancelled || ErrorUnderway(s) || forall k: nat :: Low(s) <= k < s.producer.index ==> Places(s, k) > 0
  }

  ghost predicate Invariant(pool: Pool, s: State) {
    Conserved(pool, s) && WrittenInOrder(s) && Flags(pool, s) && Accounted(pool, s) && OncePlaced(s) && NoneLost(s)
  }

  lemma {:induction false} NothingInWaiting(n: nat, k: nat)
    ensures InWorkers(Idle(n), k) == 0
  {
    if n > 0 {
      NothingInWaiting(n - 1, k);
      assert Idle(n)[..n - 1] == Idle(n - 1);
    }
  }

  lemma NoPlacesInitially(pool: Pool)
    ensures forall k: nat :: Places(Initial(pool), k) == 0
  {
    forall k: nat
      ensures Places(Initial(pool), k) == 0
    {
      NothingInWaiting(pool.workers, k);
    }
  }

  /** Nothing has happened yet. */
  ghost predicate Fresh(pool: Pool, s: State) {
    && s.producer == (if pool.workers == 0 then Finished(0, false) else Taking(0))
    && |s.workers| == pool.workers && (forall w :: 0 <= w < |s.workers| ==> s.workers[w].Waiting?)
    && s.results == [] && s.closed == (pool.workers == 0) && s.tokens == pool.Window()
    && s.consumer.Receiving? && s.pending == {} && s.next == 0 && s.written == []
    && !s.failed && !s.cancelled && !s.parentCancelled && s.failures == 0
    && forall k: nat :: Places(s, k) == 0
  }

  lemma InitiallyFresh(pool: Pool)
    ensures Fresh(pool, Initial(pool))
  {
    NoPlacesInitially(pool);
    hide Places, Idle;
  }

  lemma FreshIsInvariant(pool: Pool, s: State)
    requires (pool.workers == 0 ==> pool.total == 0) && Fresh(pool, s)
    ensures Invariant(pool, s)
  {
    hide Places;
    assert Conserved(pool, s) && WrittenInOrder(s);
    assert OncePlaced(s) && NoneLost(s);
  }

  lemma InitiallyInvariant(pool: Pool)
    requires pool.Valid()
    ensures Invariant(pool, Initial(pool))
  {
    InitiallyFresh(pool);
    hide Initial;
    FreshIsInvariant(pool, Initial(pool));
  }

  lemma ProducerConserves(pool: Pool, s: State, step: Step)
    requires Conserved(pool, s) && WrittenInOrder(s) && Enabled(pool, s, step)
    requires step.TakeToken? || step.HandOut? || step.ProducerEnds?
    ensures Conserved(pool, Next(pool, s, step)) && WrittenInOrder(Next(pool, s, step))
  {
    hide Pool.Window;
  }

  lemma ConsumerConserves(pool: Pool, s: State, step: Step)
    requires Conserved(pool, s) && WrittenInOrder(s) && Enabled(pool, s, step)
    requires step.Drain? || step.Release? || step.Receive? || step.End?
    requires s.next in s.pending ==> s.next < s.producer.index
    ensures Conserved(pool, Next(pool, s, step)) && WrittenInOrder(Next(pool, s, step))
  {
    hide Pool.Window;
  }

  lemma ConservedStep(pool: Pool, s: State, step: Step)
    requires Conserved(pool, s) && WrittenInOrder(s) && OncePlaced(s) && Enabled(pool, s, step)
    ensures Conserved(pool, Next(pool, s, step)) && WrittenInOrder(Next(pool, s, step))
  {
    assert s.next in s.pending ==> Places(s, s.next) > 0;
    hide Places, OncePlaced;
    if step.TakeToken? || step.HandOut? || step.ProducerEnds? {
      ProducerConserves(pool, s, step);
    } else if step.Drain? || step.Release? || step.Receive? || step.End? {
      ConsumerConserves(pool, s, step);
    }
  }

  lemma ReceivedIsNew(s: State)
    requires OncePlaced(s) && s.results != [] && s.results[0].Prepared?
    ensures s.results[0].index !in s.pending
  {
    assert InResults(s.results, s.results[0].index) > 0;
    assert Places(s, s.results[0].index) <= 1;
  }

  lemma FlagsStep(pool: Pool, s: State, step: Step)
    requires Flags(pool, s) && Enabled(pool, s, step)
    requires forall k :: k in s.pending ==> Low(s) <= k
    ensures Flags(pool, Next(pool, s, step))
  {
    hide Pool.Valid;
  }

  /** Steps that throw a handed-out index away; all of them happen in a run that fails. */
  predicate Drops(s: State, step: Step) {
    match step
    case Prepare(_, fails) => fails
    case NoticeCancel(_, _) => true
    case GiveUp(_) => true
    case Receive => s.failed
    case _ => false
  }

  predicate TakesNext(s: State, step: Step) {
    step.Drain? && s.next in s.pending
  }

  /** How a step changes in how many places the index is. */
  ghost predicate Moves(s: State, step: Step, t: State, k: nat) {
    var before, after := Places(s, k) + One(step.HandOut? && k == s.producer.index), Places(t, k)
      + One(TakesNext(s, step) && k == s.next);
    after <= before && (!Drops(s, step) ==> after == before)
  }

  predicate MovesInWorker(step: Step) {
    step.HandOut? || step.Prepare? || step.NoticeCancel? || step.Deliver? || step.GiveUp? || step.WorkerEnds?
  }

  lemma WorkerMoves(pool: Pool, s: State, step: Step, k: nat)
    requires Enabled(pool, s, step) && MovesInWorker(step)
    ensures Moves(s, step, Next(pool, s, step), k)
  {
    hide InWorkers, InResults, HasRoom, AllDone;
    if step.NoticeCancel? || step.Deliver? {
      ResultMoves(pool, s, step, k);
    } else {
      WorkerChanges(s.workers, step.worker, Next(pool, s, step).workers[step.worker], k);
    }
  }

  lemma ResultMoves(pool: Pool, s: State, step: Step, k: nat)
    requires Enabled(pool, s, step) && (step.NoticeCancel? || step.Deliver?)
    ensures Moves(s, step, Next(pool, s, step), k)
  {
    hide InWorkers, InResults, HasRoom, AllDone;
    WorkerChanges(s.workers, step.worker, Next(pool, s, step).workers[step.worker], k);
    if step.NoticeCancel? {
      ResultArrives(s.results, PrepareError, k);
    } else {
      DeliveryMoves(pool, s, step, k);
    }
  }

  lemma DeliveryMoves(pool: Pool, s: State, step: Step, k: nat)
    requires Enabled(pool, s, step) && step.Deliver?
    ensures Moves(s, step, Next(pool, s, step), k)
  {
    hide InWorkers, InResults, HasRoom, AllDone;
    WorkerChanges(s.workers, step.worker, Next(pool, s, step).workers[step.worker], k);
    ResultArrives(s.results, if s.workers[step.worker].Sending? then Prepared(s.workers[step.worker].index)
      else PrepareError, k);
  }

  lemma PlacesStep(pool: Pool, s: State, step: Step, k: nat)
    requires Enabled(pool, s, step)
    requires s.results != [] && s.results[0].Prepared? ==> s.results[0].index !in s.pending
    ensures Moves(s, step, Next(pool, s, step), k)
  {
    hide InWorkers, InResults, HasRoom, AllDone;
    if MovesInWorker(step) {
      WorkerMoves(pool, s, step, k);
    } else if step.Receive? {
      ResultLeaves(s.results, k);
    }
  }

  lemma ResultLeaves(results: seq<Result>, k: nat)
    requires results != []
    ensures InResults(results, k) == OfResult(results[0], k) + InResults(results[1..], k)
  {}

  lemma IndexStep(pool: Pool, s: State, step: Step)
    requires Enabled(pool, s, step)
    ensures Next(pool, s, step).producer.index == s.producer.index + One(step.HandOut?)
  {
    hide AllDone, HasRoom;
    if step.Receive? || step.Drain? || step.Release? || step.End? {
      ConsumerKeepsProducer(pool, s, step);
    }
  }

  lemma ConsumerKeepsProducer(pool: Pool, s: State, step: Step)
    requires Enabled(pool, s, step) && (step.Receive? || step.Drain? || step.Release? || step.End?)
    ensures var t := Next(pool, s, step);
      t.producer == s.producer && t.workers == s.workers && t.closed == s.closed
        && t.parentCancelled == s.parentCancelled
  {}

  lemma LowStep(pool: Pool, s: State, step: Step)
    requires Enabled(pool, s, step)
    ensures Low(s) <= Low(Next(pool, s, step)) <= Low(s) + One(TakesNext(s, step))
    ensures TakesNext(s, step) ==> Low(s) == s.next
  {
    hide AllDone, HasRoom;
    if step.Receive? || step.Drain? || step.Release? || step.End? {
    } else {
      KeepsConsumer(pool, s, step);
    }
  }

  lemma KeepsConsumer(pool: Pool, s: State, step: Step)
    requires Enabled(pool, s, step) && !step.Receive? && !step.Drain? && !step.Release? && !step.End?
    ensures Next(pool, s, step).consumer == s.consumer && Next(pool, s, step).next == s.next
  {
    hide AllDone, HasRoom;
  }

  lemma OncePlacedStep(pool: Pool, s: State, step: Step)
    requires Conserved(pool, s) && OncePlaced(s) && Enabled(pool, s, step)
    ensures OncePlaced(Next(pool, s, step))
  {
    var t := Next(pool, s, step);
    if s.results != [] && s.results[0].Prepared? {
      ReceivedIsNew(s);
    }
    IndexStep(pool, s, step);
    LowStep(pool, s, step);
    hide Next, Places, Enabled, TakesNext;
    forall k: nat
      ensures Places(t, k) <= 1 && (Places(t, k) > 0 ==> Low(t) <= k < t.producer.index)
    {
      assert Places(s, k) <= 1;
      PlacesStep(pool, s, step, k);
    }
  }

  /** Where the errors are after a step. */
  lemma ErrorsStep(pool: Pool, s: State, step: Step)
    requires Flags(pool, s) && Enabled(pool, s, step)
    ensures var t := Next(pool, s, step);
      && (ErrorUnderway(s) ==> ErrorUnderway(t) || t.failed)
      && (step.Prepare? && step.fails ==> ErrorUnderway(t))
      && (t.failures > s.failures ==> ErrorUnderway(t) || t.failed)
      && (s.cancelled ==> t.cancelled) && (s.failed ==> t.failed)
  {
    var t := Next(pool, s, step);
    if ErrorUnderway(s) && !t.failed {
      if PrepareError in s.results {
        if step.Receive? {
          assert s.results == [s.results[0]] + t.results;
        }
        assert PrepareError in t.results;
      } else {
        var w :| 0 <= w < |s.workers| && s.workers[w].SendingError?;
        if step == Deliver(w) {
          assert t.results == s.results + [PrepareError];
        } else {
          assert t.workers[w].SendingError?;
        }
      }
    }
    if step.Prepare? && step.fails {
      assert t.workers[step.worker].SendingError?;
    }
  }

  lemma NoneLostStep(pool: Pool, s: State, step: Step)
    requires Flags(pool, s) && OncePlaced(s) && NoneLost(s) && Enabled(pool, s, step)
    ensures NoneLost(Next(pool, s, step))
  {
    var t := Next(pool, s, step);
    ErrorsStep(pool, s, step);
    if !t.cancelled && !ErrorUnderway(t) {
      if s.results != [] && s.results[0].Prepared? {
        ReceivedIsNew(s);
      }
      forall k: nat | Low(t) <= k < t.producer.index
        ensures Places(t, k) > 0
      {
        PlacesStep(pool, s, step, k);
        hide Places, ErrorUnderway;
      }
    }
  }

  lemma BlamedStep(pool: Pool, s: State, step: Step)
    requires Flags(pool, s) && Accounted(pool, s) && Enabled(pool, s, step)
    ensures var t := Next(pool, s, step);
      t.failed || ErrorUnderway(t) ==> t.failures > 0 || t.parentCancelled
  {
    var t := Next(pool, s, step);
    if t.failures == 0 && !t.parentCancelled && ErrorUnderway(t) {
      assert ErrorUnderway(s) by {
        if PrepareError !in t.results {
          var w :| 0 <= w < |t.workers| && t.workers[w].SendingError?;
          assert s.workers[w].SendingError?;
        }
      }
    }
  }

  lemma AccountedStep(pool: Pool, s: State, step: Step)
    requires Flags(pool, s) && Accounted(pool, s) && Enabled(pool, s, step)
    ensures Accounted(pool, Next(pool, s, step))
  {
    var t := Next(pool, s, step);
    ErrorsStep(pool, s, step);
    BlamedStep(pool, s, step);
    hide ErrorUnderway;
    forall w | 0 <= w < |t.workers| && t.workers[w].Done?
      ensures t.producer.Finished? || t.cancelled || ErrorUnderway(t)
    {
      if s.workers[w].SendingError? {
        SendsError(s, w);
      }
    }
  }

  lemma SendsError(s: State, w: nat)
    requires w < |s.workers| && s.workers[w].SendingError?
    ensures ErrorUnderway(s)
  {}

  lemma StepKeeps(pool: Pool, s: State, step: Step)
    requires Invariant(pool, s) && Enabled(pool, s, step)
    ensures Invariant(pool, Next(pool, s, step))
  {
    forall k | k in s.pending
      ensures Low(s) <= k
    {
      assert Places(s, k) > 0;
    }
    ConservedStep(pool, s, step);
    FlagsStep(pool, s, step);
    OncePlacedStep(pool, s, step);
    NoneLostStep(pool, s, step);
    AccountedStep(pool, s, step);
    hide Conserved, Flags, OncePlaced, NoneLost, Accounted, WrittenInOrder, Next;
  }

  // ----- what every interleaving keeps ------------------------------------------------------

  ghost predicate Run(pool: Pool, states: seq<State>, steps: seq<Step>) {
    && |states| == |steps| + 1 && states[0] == Initial(pool)
    && forall i ::
      0 <= i < |steps| ==> Enabled(pool, states[i], steps[i]) && states[i + 1] == Next(pool, states[i], steps[i])
  }

  lemma {:induction false} RunKeepsInvariant(pool: Pool, states: seq<State>, steps: seq<Step>)
    requires pool.Valid() && Run(pool, states, steps)
    ensures Invariant(pool, states[|steps|])
  {
    hide Invariant, Next, Enabled, Initial;
    if steps == [] {
      InitiallyInvariant(pool);
    } else {
      var last := |steps| - 1;
      RunKeepsInvariant(pool, states[..|steps|], steps[..last]);
      StepKeeps(pool, states[last], steps[last]);
    }
  }

  /** The consumer's send of a credit never blocks. */
  lemma ReleaseNeverBlocks(pool: Pool, s: State)
    requires Invariant(pool, s) && s.consumer.Releasing?
    ensures Enabled(pool, s, Release) && s.tokens < pool.workers + pool.queueCapacity
  {}

  /** The reorder map never holds more than the window. */
  lemma ReorderMapIsBounded(pool: Pool, s: State)
    requires Invariant(pool, s)
    ensures |s.pending| <= s.producer.index - Low(s) <= pool.Window()
  {
    forall k | k in s.pending
      ensures Low(s) <= k < s.producer.index
    {
      assert Places(s, k) > 0;
    }
    hide Places;
    SubsetSize(s.pending, Interval(Low(s), s.producer.index));
  }

  /** The step some goroutine of an unfinished pool can take. */
  lemma NeverStuck(pool: Pool, s: State) returns (step: Step)
    requires pool.Valid() && Invariant(pool, s) && !s.consumer.Ended?
    ensures Enabled(pool, s, step) && !step.CancelParent?
  {
    if s.consumer.Releasing? {
      ReleaseNeverBlocks(pool, s);
      return Release;
    }
    hide Conserved, WrittenInOrder, Accounted, OncePlaced, NoneLost;
    if s.consumer.Draining? {
      return Drain(false);
    }
    if s.results != [] {
      return Receive;
    }
    if s.closed {
      return End;
    }
    if AllDone(s.workers) {
      return CloseResults;
    }
    var w :| 0 <= w < |s.workers| && !s.workers[w].Done?;
    step := WorkerOrProducer(pool, s, w);
  }

  lemma WorkerOrProducer(pool: Pool, s: State, w: nat) returns (step: Step)
    requires Invariant(pool, s) && s.consumer.Receiving? && s.results == [] && pool.queueCapacity > 0
    requires w < |s.workers| && !s.workers[w].Done?
    ensures Enabled(pool, s, step) && !step.CancelParent?
  {
    if s.workers[w].Got? {
      return if s.cancelled then NoticeCancel(w, false) else Prepare(w, false);
    }
    if !s.workers[w].Waiting? {
      return Deliver(w);
    }
    if s.producer.Finished? {
      return WorkerEnds(w);
    }
    if s.producer.Holding? {
      return HandOut(w);
    }
    if s.producer.index == pool.total || s.cancelled {
      return ProducerEnds;
    }
    if v: nat :| v < |s.workers| && !s.workers[v].Waiting? && !s.workers[v].Done? {
      return if s.workers[v].Got? then Prepare(v, false) else Deliver(v);
    }
    CreditIsLeft(pool, s);
    return TakeToken;
  }

  lemma {:induction false} NobodyHolds(workers: seq<Worker>, k: nat)
    requires forall w :: 0 <= w < |workers| ==> workers[w].Waiting? || workers[w].Done?
    ensures InWorkers(workers, k) == 0
  {
    if workers != [] {
      NobodyHolds(workers[..|workers| - 1], k);
    }
  }

  /** With nothing under way the reorder map would have to hold the next index if all credits were out. */
  lemma CreditIsLeft(pool: Pool, s: State)
    requires Invariant(pool, s) && s.consumer.Receiving? && s.results == [] && !s.cancelled && pool.workers > 0
    requires s.producer.Taking?
    requires forall w :: 0 <= w < |s.workers| ==> s.workers[w].Waiting? || s.workers[w].Done?
    ensures s.tokens > 0
  {
    NobodyHolds(s.workers, s.next);
    assert Places(s, s.next) == if s.next in s.pending then 1 else 0;
  }

  // ----- every run ends ---------------------------------------------------------------------

  function WorkerWork(worker: Worker): nat {
    match worker
    case Done => 0
    case Waiting => 1
    case SendingError => 6
    case Sending(_) => 7
    case Got(_) => 8
  }

  function WorkersWork(workers: seq<Worker>): nat {
    Total(workers, WorkerWork)
  }

  lemma WorkChanges(workers: seq<Worker>, w: nat, worker: Worker)
    requires w < |workers|
    ensures WorkersWork(workers[w := worker]) + WorkerWork(workers[w]) == WorkersWork(workers) + WorkerWork(worker)
  {
    TotalChanges(workers, w, worker, WorkerWork);
  }

  function ProducerWork(pool: Pool, producer: Producer): int {
    match producer
    case Taking(index) => 10 * (pool.total - index) + 2
    case Holding(index) => 10 * (pool.total - index) + 1
    case Finished(_, _) => 0
  }

  function ConsumerWork(consumer: Consumer): nat {
    match consumer
    case Ended => 0
    case Receiving => 1
    case Draining => 2
    case Releasing => 3
  }

  /** How many steps a run can still take. */
  function Work(pool: Pool, s: State): int {
    ProducerWork(pool, s.producer) + WorkersWork(s.workers) + 5 * |s.results| + 3 * |s.pending|
      + ConsumerWork(s.consumer)
    + One(!s.closed) + One(!s.parentCancelled)
  }

  lemma SendProgress(pool: Pool, s: State, step: Step)
    requires Enabled(pool, s, step) && (step.NoticeCancel? || step.Deliver?)
    ensures Work(pool, Next(pool, s, step)) < Work(pool, s)
  {
    hide WorkersWork, HasRoom, AllDone, ProducerWork, ConsumerWork, One;
    WorkChanges(s.workers, step.worker, Next(pool, s, step).workers[step.worker]);
  }

  lemma WorkerProgress(pool: Pool, s: State, step: Step)
    requires Enabled(pool, s, step) && MovesInWorker(step)
    ensures Work(pool, Next(pool, s, step)) < Work(pool, s)
  {
    hide WorkersWork, HasRoom, AllDone, ConsumerWork, One;
    if step.NoticeCancel? || step.Deliver? {
      SendProgress(pool, s, step);
    } else {
      WorkChanges(s.workers, step.worker, Next(pool, s, step).workers[step.worker]);
    }
  }

  lemma ProducerProgress(pool: Pool, s: State, step: Step)
    requires Conserved(pool, s) && Enabled(pool, s, step) && (step.TakeToken? || step.ProducerEnds?)
    ensures Work(pool, Next(pool, s, step)) < Work(pool, s)
  {
    hide WorkersWork, Pool.Window, ConsumerWork, One;
  }

  lemma ConsumerProgress(pool: Pool, s: State, step: Step)
    requires Enabled(pool, s, step) && (step.Receive? || step.Drain? || step.Release? || step.End?)
    ensures Work(pool, Next(pool, s, step)) < Work(pool, s)
  {
    hide WorkersWork, Pool.Window, ProducerWork, One;
    var t := Next(pool, s, step);
    ConsumerKeepsProducer(pool, s, step);
    assert |t.pending| <= |s.pending| + 1;
    if step.Drain? && s.next in s.pending {
      assert |t.pending| == |s.pending| - 1;
    }
  }

  lemma FlagProgress(pool: Pool, s: State, step: Step)
    requires Enabled(pool, s, step) && (step.CloseResults? || step.CancelParent?)
    ensures Work(pool, Next(pool, s, step)) < Work(pool, s)
  {
    hide WorkersWork, AllDone, ConsumerWork, ProducerWork;
  }

  lemma EveryStepIsProgress(pool: Pool, s: State, step: Step)
    requires Invariant(pool, s) && Enabled(pool, s, step)
    ensures 0 <= Work(pool, Next(pool, s, step)) < Work(pool, s)
  {
    hide Work, Next, Enabled, Places, OncePlaced, NoneLost, Accounted, WrittenInOrder, Flags, Conserved;
    StepKeeps(pool, s, step);
    NoNegativeWork(pool, Next(pool, s, step));
    if MovesInWorker(step) {
      WorkerProgress(pool, s, step);
    } else if step.TakeToken? || step.ProducerEnds? {
      ProducerProgress(pool, s, step);
    } else if step.CloseResults? || step.CancelParent? {
      FlagProgress(pool, s, step);
    } else {
      ConsumerProgress(pool, s, step);
    }
  }

  lemma {:induction false} RunsAreShort(pool: Pool, states: seq<State>, steps: seq<Step>)
    requires pool.Valid() && Run(pool, states, steps)
    ensures |steps| + Work(pool, states[|steps|]) <= Work(pool, Initial(pool)) && Work(pool, states[|steps|]) >= 0
  {
    RunKeepsInvariant(pool, states, steps);
    hide Invariant, Next, Enabled, Initial, Work;
    if steps == [] {
      NoNegativeWork(pool, states[0]);
    } else {
      var last := |steps| - 1;
      RunsAreShort(pool, states[..|steps|], steps[..last]);
      RunKeepsInvariant(pool, states[..|steps|], steps[..last]);
      EveryStepIsProgress(pool, states[last], steps[last]);
    }
  }

  lemma NoNegativeWork(pool: Pool, s: State)
    requires Invariant(pool, s)
    ensures Work(pool, s) >= 0
  {}

  /** A finished pool succeeded exactly when nothing failed and nobody cancelled it, and then every
      contribution was written, once and in order. */
  lemma FinishedRuns(pool: Pool, s: State)
    requires Invariant(pool, s) && s.consumer.Ended?
    ensures Succeeds(pool, s) <==> s.failures == 0 && !s.parentCancelled
    ensures Succeeds(pool, s) ==> |s.written| == pool.total && forall i :: 0 <= i < pool.total ==> s.written[i] == i
  {
    if !s.failed && !s.parentCancelled {
      NobodyHolds(s.workers, s.next);
      assert Places(s, s.next) == 0;
      assert !ErrorUnderway(s);
      if pool.workers > 0 {
        assert s.workers[0].Done?;
      }
    }
  }
}
