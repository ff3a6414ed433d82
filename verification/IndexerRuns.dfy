/** Every interleaving of the sections that touch one workspace: enqueuing, timer callbacks, the end of a
    publication, starting and stopping.  A timer callback that may still run is a token. */
module IndexerRuns {
  import opened Wrappers
  import opened IndexerQueue
  import opened Sequences

  datatype Progress = InFlight | Succeeded | Failed

  /** A call of the publisher, by the worker of the given generation. */
  datatype Batch = Batch(generation: nat, paths: seq<Path>, progress: Progress)

  /** An accepted event, and how many batches had been taken before it. */
  datatype Acceptance = Acceptance(generation: nat, path: Path, taken: nat)

  /** generation counts the workers started; batches and accepted are the history of the run. */
  datatype System = System(worker: Option<Worker>, generation: nat, tokens: nat, failures: nat, batches: seq<Batch>,
    accepted: seq<Acceptance>)

  const IDLE_SYSTEM := System(None, 0, 0, 0, [], [])

  datatype Step =
    | Start
    | EnqueueEvents(events: seq<Event>)
    | Fire
    | Finish(call: nat, failed: bool)
    | StopOnce(cancelled: bool, closeFails: bool)

  function Armed(scheduled: Option<nat>): nat {
    if scheduled.Some? then 1 else 0
  }

  function Record(accepted: seq<Acceptance>, generation: nat, paths: seq<Path>, taken: nat): seq<Acceptance> {
    accepted + seq(|paths|, i requires 0 <= i < |paths| => Acceptance(generation, paths[i], taken))
  }

  /** The worker whose publication ends is the registered one, as Invariant shows. */
  predicate Enabled(s: System, step: Step) {
    match step
    case Fire => s.tokens > 0
    case Finish(call, _) => call < |s.batches| && s.batches[call].progress.InFlight?
    case _ => true
  }

  function Next(config: Config, s: System, step: Step): System
    requires Enabled(s, step)
  {
    match step
    case Start =>
      if s.worker.Some? then s
      else s.(worker := Some(NEW_WORKER), generation := s.generation + 1, failures := 0)
    case EnqueueEvents(events) =>
      if s.worker.None? || s.worker.value.stopping then s
      else
        var outcome := Enqueue(config, s.worker.value, events);
        s.(worker := Some(outcome.worker), tokens := s.tokens + Armed(outcome.scheduled),
           accepted := Record(s.accepted, s.generation, Accepted(events), |s.batches|))
    case Fire =>
      var fired := s.(tokens := s.tokens - 1);
      if s.worker.None? || !CanPublish(s.worker.value) then fired
      else fired.(worker := Some(BeginPublish(s.worker.value)),
                  batches := s.batches + [Batch(s.generation, s.worker.value.pending, InFlight)])
    case Finish(call, failed) =>
      var batch := s.batches[call];
      var finished := s.(batches := s.batches[call := batch.(progress := if failed then Failed else Succeeded)]);
      if s.worker.None? || batch.generation != s.generation then finished
      else
        var outcome := EndPublish(config, s.worker.value, batch.paths, failed);
        finished.(worker := Some(outcome.worker), tokens := s.tokens + Armed(outcome.scheduled),
                  failures := if failed then s.failures + 1 else 0)
    case StopOnce(cancelled, closeFails) =>
      if s.worker.None? then s
      else
        var left := if s.worker.value.armed && cancelled && s.tokens > 0 then s.tokens - 1 else s.tokens;
        match TryStop(s.worker.value, closeFails)
        case Waiting(worker) => s.(worker := Some(worker), tokens := left)
        case CloseFailed(worker) => s.(worker := Some(worker), tokens := left)
        case Removed => s.(worker := None, tokens := left)
  }

  ghost predicate Run(config: Config, states: seq<System>, steps: seq<Step>) {
    && |states| == |steps| + 1 && states[0] == IDLE_SYSTEM
    && forall i ::
      0 <= i < |steps| ==> Enabled(states[i], steps[i]) && states[i + 1] == Next(config, states[i], steps[i])
  }

  // ----- the invariant ----------------------------------------------------------------------

  /** At most one call of the publisher is in flight, and exactly while its worker says so. */
  ghost predicate OneFlight(s: System) {
    && (forall i :: 0 <= i < |s.batches| && s.batches[i].progress.InFlight? ==>
      s.worker.Some? && s.worker.value.publishing && s.batches[i].generation == s.generation && i == |s.batches| - 1)
    && (s.worker.Some? && s.worker.value.publishing ==>
      s.batches != [] && s.batches[|s.batches| - 1].progress.InFlight?)
  }

  /** The event's path is pending, or in a batch that was taken later and is in flight or succeeded. */
  ghost predicate Safe(s: System, event: Acceptance)
    requires s.worker.Some?
  {
    || event.path in s.worker.value.pending
    || exists i :: event.taken <= i < |s.batches| && s.batches[i].generation == event.generation
                   && event.path in s.batches[i].paths && !s.batches[i].progress.Failed?
  }

  /** No accepted event of the running worker is lost. */
  ghost predicate NothingLost(s: System)
    requires s.worker.Some?
  {
    forall i :: 0 <= i < |s.accepted| && s.accepted[i].generation == s.generation ==> Safe(s, s.accepted[i])
  }

  ghost predicate Dated(s: System) {
    && (forall i ::
      0 <= i < |s.accepted| ==> s.accepted[i].generation <= s.generation && s.accepted[i].taken <= |s.batches|)
    && (forall i :: 0 <= i < |s.batches| ==> s.batches[i].generation <= s.generation)
  }

  ghost predicate Invariant(config: Config, s: System) {
    && OneFlight(s) && Dated(s)
    && (s.worker.Some? ==>
      && Consistent(s.worker.value)
      && (s.worker.value.armed ==> s.tokens > 0)
      && s.worker.value.retryDelay == DelayAfter(config, s.failures)
      && NothingLost(s))
  }

  ghost predicate Wakeful(s: System) {
    s.worker.Some? ==> !Stalled(s.worker.value)
  }

  /** The steps after which a worker with pending paths is left without a wake-up: an Enqueue that failed
      after it queued the first paths of an idle worker, and a Stop whose Close failed. */
  predicate Stalls(s: System, step: Step) {
    match step
    case EnqueueEvents(events) =>
      s.worker.Some? && !s.worker.value.stopping && !s.worker.value.publishing && s.worker.value.pending == []
      && None in events && Accepted(events) != []
    case StopOnce(_, closeFails) =>
      s.worker.Some? && !s.worker.value.publishing && closeFails && |s.worker.value.pending| > 0
    case _ => false
  }

  lemma SafeStays(s: System, t: System, event: Acceptance)
    requires s.worker.Some? && t.worker.Some? && Safe(s, event)
    requires forall path :: path in s.worker.value.pending ==> path in t.worker.value.pending
    requires s.batches <= t.batches
    ensures Safe(t, event)
  {}

  lemma EnqueueStep(config: Config, s: System, events: seq<Event>)
    requires Invariant(config, s) && s.worker.Some? && !s.worker.value.stopping
    ensures var t := Next(config, s, EnqueueEvents(events));
      Invariant(config, t) && (Wakeful(s) ==> (Wakeful(t) <==> !Stalls(s, EnqueueEvents(events))))
  {
    var worker, paths := s.worker.value, Accepted(events);
    EnqueueKeeps(config, worker, events);
    var t := Next(config, s, EnqueueEvents(events));
    forall i | 0 <= i < |t.accepted| && t.accepted[i].generation == t.generation
      ensures Safe(t, t.accepted[i])
    {
      if i < |s.accepted| {
        assert forall path :: path in worker.pending ==> path in Members(t.worker.value.pending);
        SafeStays(s, t, s.accepted[i]);
      } else {
        var path := paths[i - |s.accepted|];
        assert path in Members(paths) && path in Members(t.worker.value.pending);
      }
    }
  }

  lemma FireStep(config: Config, s: System)
    requires Invariant(config, s) && s.tokens > 0
    ensures var t := Next(config, s, Fire);
      Invariant(config, t) && (Wakeful(s) ==> Wakeful(t))
  {
    var t := Next(config, s, Fire);
    if s.worker.Some? && CanPublish(s.worker.value) {
      forall i | 0 <= i < |t.accepted| && t.accepted[i].generation == t.generation
        ensures Safe(t, t.accepted[i])
      {
        assert Safe(s, s.accepted[i]);
        var event := s.accepted[i];
        if event.path in s.worker.value.pending {
          assert t.batches[|s.batches|] == Batch(s.generation, s.worker.value.pending, InFlight);
        } else {
          var k :| event.taken <= k < |s.batches| && s.batches[k].generation == event.generation
            && event.path in s.batches[k].paths && !s.batches[k].progress.Failed?;
          assert t.batches[k] == s.batches[k];
        }
      }
    } else if s.worker.Some? {
      forall i | 0 <= i < |t.accepted| && t.accepted[i].generation == t.generation
        ensures Safe(t, t.accepted[i])
      {
        SafeStays(s, t, s.accepted[i]);
      }
    }
  }

  lemma FinishStep(config: Config, s: System, call: nat, failed: bool)
    requires config.Valid() && Invariant(config, s) && Enabled(s, Finish(call, failed))
    ensures var t := Next(config, s, Finish(call, failed));
      Invariant(config, t) && Wakeful(t)
  {
    var worker, batch := s.worker.value, s.batches[call];
    EndPublishKeeps(config, worker, batch.paths, failed);
    var t := Next(config, s, Finish(call, failed));
    forall i | 0 <= i < |t.accepted| && t.accepted[i].generation == t.generation
      ensures Safe(t, t.accepted[i])
    {
      var event := s.accepted[i];
      assert Safe(s, event);
      if event.path in worker.pending {
        assert event.path in Members(worker.pending) && event.path in Members(t.worker.value.pending);
      } else {
        var k :| event.taken <= k < |s.batches| && s.batches[k].generation == event.generation
          && event.path in s.batches[k].paths && !s.batches[k].progress.Failed?;
        if k == call && failed {
          assert event.path in Members(batch.paths) && event.path in Members(t.worker.value.pending);
        } else {
          assert t.batches[k].paths == s.batches[k].paths && !t.batches[k].progress.Failed?;
        }
      }
    }
  }

  lemma StopStep(config: Config, s: System, cancelled: bool, closeFails: bool)
    requires Invariant(config, s)
    ensures var t := Next(config, s, StopOnce(cancelled, closeFails));
      && Invariant(config, t) && (Wakeful(s) ==> (Wakeful(t) <==> !Stalls(s, StopOnce(cancelled, closeFails))))
      && (s.worker.Some? && t.worker.None? ==> forall i :: 0 <= i < |t.batches| ==> !t.batches[i].progress.InFlight?)
  {
    var t := Next(config, s, StopOnce(cancelled, closeFails));
    if t.worker.Some? {
      forall i | 0 <= i < |t.accepted| && t.accepted[i].generation == t.generation
        ensures Safe(t, t.accepted[i])
      {
        SafeStays(s, t, s.accepted[i]);
      }
    }
  }

  lemma StepKeeps(config: Config, s: System, step: Step)
    requires config.Valid() && Invariant(config, s) && Enabled(s, step)
    ensures Invariant(config, Next(config, s, step))
    ensures Wakeful(s) ==> (Wakeful(Next(config, s, step)) <==> !Stalls(s, step))
  {
    match step
    case Start =>
    case EnqueueEvents(events) =>
      if s.worker.Some? && !s.worker.value.stopping {
        EnqueueStep(config, s, events);
      }
    case Fire => FireStep(config, s);
    case Finish(call, failed) => FinishStep(config, s, call, failed);
    case StopOnce(cancelled, closeFails) => StopStep(config, s, cancelled, closeFails);
  }

  /** In every interleaving: one publisher call at a time, pending paths listed once, no accepted event
      lost, and retry delays by the number of failures in a row. */
  lemma {:induction false} RunKeepsInvariant(config: Config, states: seq<System>, steps: seq<Step>)
    requires config.Valid() && Run(config, states, steps)
    ensures Invariant(config, states[|steps|])
  {
    if steps != [] {
      var last := |steps| - 1;
      RunKeepsInvariant(config, states[..|steps|], steps[..last]);
      StepKeeps(config, states[last], steps[last]);
    }
  }

  // ----- timers and their callbacks ---------------------------------------------------------

  /** A timer is created when the worker becomes armed. */
  predicate Arms(s: System, t: System) {
    t.worker.Some? && t.worker.value.armed && !(s.worker.Some? && s.worker.value.armed)
  }

  /** A timer is used up when its callback runs, or when a Stop comes in time to cancel it. */
  predicate UsesUp(s: System, step: Step) {
    step.Fire? || (step.StopOnce? && step.cancelled && s.worker.Some? && s.worker.value.armed)
  }

  function TimersCreated(states: seq<System>): nat {
    if |states| < 2 then 0
    else TimersCreated(states[..|states| - 1]) + One(Arms(states[|states| - 2], states[|states| - 1]))
  }

  function TimersUsedUp(states: seq<System>, steps: seq<Step>): nat
    requires |states| == |steps| + 1
  {
    if steps == [] then 0
    else
      var last := |steps| - 1;
      TimersUsedUp(states[..|steps|], steps[..last]) + One(UsesUp(states[last], steps[last]))
  }

  lemma StepMovesTimers(config: Config, s: System, step: Step)
    requires Invariant(config, s) && Enabled(s, step)
    ensures var t := Next(config, s, step);
      t.tokens + One(UsesUp(s, step)) == s.tokens + One(Arms(s, t))
  {
    if step.EnqueueEvents? && s.worker.Some? && !s.worker.value.stopping {
      EnqueueKeeps(config, s.worker.value, step.events);
    }
  }

  /** In every interleaving the timers created are the callbacks that ran, the timers cancelled in time and
      the callbacks still to come. */
  lemma {:induction false} EveryTimerFiresOnce(config: Config, states: seq<System>, steps: seq<Step>)
    requires config.Valid() && Run(config, states, steps)
    ensures TimersCreated(states) == TimersUsedUp(states, steps) + states[|steps|].tokens
  {
    if steps != [] {
      var last := |steps| - 1;
      EveryTimerFiresOnce(config, states[..|steps|], steps[..last]);
      RunKeepsInvariant(config, states[..|steps|], steps[..last]);
      StepMovesTimers(config, states[last], steps[last]);
      assert states[..|states| - 1] == states[..|steps|];
    }
  }

  // ----- wake-ups ---------------------------------------------------------------------------

  /** As long as no step stalls, a running worker with pending paths is publishing or has an armed timer
      whose callback is still to come. */
  lemma {:induction false} RunStaysWakeful(config: Config, states: seq<System>, steps: seq<Step>)
    requires config.Valid() && Run(config, states, steps)
    requires forall i :: 0 <= i < |steps| ==> !Stalls(states[i], steps[i])
    ensures Wakeful(states[|steps|])
    ensures states[|steps|].worker.Some? && states[|steps|].worker.value.armed ==> states[|steps|].tokens > 0
  {
    RunKeepsInvariant(config, states, steps);
    if steps != [] {
      var last := |steps| - 1;
      RunStaysWakeful(config, states[..|steps|], steps[..last]);
      RunKeepsInvariant(config, states[..|steps|], steps[..last]);
      StepKeeps(config, states[last], steps[last]);
    }
  }

  /** The steps that end a stall: an Enqueue that succeeds, even one without events, a callback of an earlier
      timer that Stop came too late to cancel, and a Stop that removes the worker. */
  predicate Wakes(step: Step) {
    match step
    case EnqueueEvents(events) => None !in events
    case Fire => true
    case StopOnce(_, closeFails) => !closeFails
    case _ => false
  }

  /** A stalled worker stays stalled exactly through the other steps. */
  lemma StallEnds(config: Config, s: System, step: Step)
    requires config.Valid() && Invariant(config, s) && Enabled(s, step) && !Wakeful(s)
    ensures Wakeful(Next(config, s, step)) <==> Wakes(step)
    ensures Stalls(s, step) ==> !Wakes(step)
  {
    if step.EnqueueEvents? {
      EnqueueKeeps(config, s.worker.value, step.events);
    }
  }

  /** Some step stalled and none after it woke the worker. */
  ghost predicate LeftStalled(states: seq<System>, steps: seq<Step>)
    requires |states| == |steps| + 1
  {
    exists i :: 0 <= i < |steps| && Stalls(states[i], steps[i]) && forall j :: i < j < |steps| ==> !Wakes(steps[j])
  }

  lemma LeftStalledNext(states: seq<System>, steps: seq<Step>)
    requires |states| == |steps| + 1 && steps != []
    ensures var last := |steps| - 1;
      LeftStalled(states, steps) <==>
        Stalls(states[last], steps[last]) || (LeftStalled(states[..last + 1], steps[..last]) && !Wakes(steps[last]))
  {
    var last := |steps| - 1;
    if i :| 0 <= i < |steps| && Stalls(states[i], steps[i]) && forall j :: i < j < |steps| ==> !Wakes(steps[j]) {
      if i < last {
        assert Stalls(states[..last + 1][i], steps[..last][i]);
      }
    }
    if LeftStalled(states[..last + 1], steps[..last]) && !Wakes(steps[last]) {
      var i :| 0 <= i < last && Stalls(states[..last + 1][i], steps[..last][i])
        && forall j :: i < j < last ==> !Wakes(steps[..last][j]);
      assert Stalls(states[i], steps[i]);
      assert forall j :: i < j < last ==> steps[..last][j] == steps[j];
    }
  }

  /** In every run the worker is left without a wake-up if and only if a step stalled it and no later one
      woke it. */
  lemma {:induction false} StalledExactly(config: Config, states: seq<System>, steps: seq<Step>)
    requires config.Valid() && Run(config, states, steps)
    ensures !Wakeful(states[|steps|]) <==> LeftStalled(states, steps)
  {
    if steps != [] {
      var last := |steps| - 1;
      hide LeftStalled, Invariant, Next, Enabled, Stalls, Wakes, Wakeful;
      assert Run(config, states[..|steps|], steps[..last]);
      StalledExactly(config, states[..|steps|], steps[..last]);
      RunKeepsInvariant(config, states[..|steps|], steps[..last]);
      LeftStalledNext(states, steps);
      StepKeeps(config, states[last], steps[last]);
      if !Wakeful(states[last]) {
        StallEnds(config, states[last], steps[last]);
      }
    }
  }

  /** The first kind of stalling run: an Enqueue whose later event is rejected. */
  lemma RejectedEventStalls(config: Config, events: seq<Event>)
    requires None in events && Accepted(events) != []
    ensures var started := Next(config, IDLE_SYSTEM, Start);
      var enqueued := Next(config, started, EnqueueEvents(events));
      enqueued.worker.Some? && enqueued.tokens == 0 && !Wakeful(enqueued)
  {
    EnqueueKeeps(config, NEW_WORKER, events);
  }

  /** The second: a Stop that cancels the timer and then fails to close. */
  lemma FailedCloseStalls(config: Config, events: seq<Event>)
    requires None !in events && events != []
    ensures var started := Next(config, IDLE_SYSTEM, Start);
      var enqueued := Next(config, started, EnqueueEvents(events));
      var stopped := Next(config, enqueued, StopOnce(true, true));
      enqueued.tokens == 1 && stopped.tokens == 0 && stopped.worker.Some? && !Wakeful(stopped)
  {
    EnqueueKeeps(config, NEW_WORKER, events);
    NonEmpty(Accepted(events));
    NonEmpty(Enqueue(config, NEW_WORKER, events).worker.pending);
  }
}
