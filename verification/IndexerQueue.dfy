/** One workspace's event queue: what each mutex-held section does to a worker. */
module IndexerQueue {
  import opened Sequences
  import opened Wrappers

  type Path = string

  /** Delays in milliseconds; the options never make one of them zero. */
  datatype Config = Config(throttle: nat, retryBase: nat, retryMax: nat) {
    predicate Valid() {
      throttle > 0 && retryBase > 0 && retryMax > 0
    }
  }

  /** armed says that worker.timer is not nil. */
  datatype Worker = Worker(pending: seq<Path>, pendingSet: set<Path>, armed: bool, publishing: bool, stopping: bool,
    retryDelay: nat)

  const NEW_WORKER := Worker([], {}, false, false, false, 0)

  /** An event whose path normalizeEventPath rejects is None. */
  type Event = Option<Path>

  /** A worker after a section, whether the section succeeded, and the delay of a newly created timer. */
  datatype Outcome = Outcome(worker: Worker, ok: bool, scheduled: Option<nat>)

  // ----- Enqueue ----------------------------------------------------------------------------

  function Append(worker: Worker, path: Path): Worker {
    if path in worker.pendingSet then worker
    else worker.(pending := worker.pending + [path], pendingSet := worker.pendingSet + {path})
  }

  /** The events before the first rejected one. */
  function Accepted(events: seq<Event>): (accepted: seq<Path>)
    ensures |accepted| <= |events| && forall i :: 0 <= i < |accepted| ==> events[i] == Some(accepted[i])
    ensures |accepted| < |events| ==> events[|accepted|].None?
    ensures |accepted| == |events| <==> None !in events
  {
    if events == [] then []
    else
      var before, last := Accepted(events[..|events| - 1]), events[|events| - 1];
      if |before| < |events| - 1 || last.None? then before else before + [last.value]
  }

  function AppendAll(worker: Worker, paths: seq<Path>): Worker {
    if paths == [] then worker else Append(AppendAll(worker, paths[..|paths| - 1]), paths[|paths| - 1])
  }

  function Enqueue(config: Config, worker: Worker, events: seq<Event>): Outcome {
    if worker.stopping then Outcome(worker, false, None)
    else
      var accepted := Accepted(events);
      var queued := AppendAll(worker, accepted);
      if |accepted| < |events| then Outcome(queued, false, None)
      else if |queued.pending| > 0 && !queued.publishing
        && !queued.armed then Outcome(queued.(armed := true), true, Some(config.throttle))
      else Outcome(queued, true, None)
  }

  // ----- publish ----------------------------------------------------------------------------

  predicate CanPublish(worker: Worker) {
    !worker.stopping && !worker.publishing && |worker.pending| > 0
  }

  function BeginPublish(worker: Worker): Worker {
    worker.(pending := [], pendingSet := {}, armed := false, publishing := true)
  }

  /** uniquePaths */
  function Unique(paths: seq<Path>): (unique: seq<Path>)
    ensures Distinct(unique) && Members(unique) == Members(paths)
  {
    if paths == [] then []
    else
      var before, last := Unique(paths[..|paths| - 1]), paths[|paths| - 1];
      assert last in before <==> last in Members(before);
      assert Members(paths) == Members(paths[..|paths| - 1]) + {last};
      if last in before then before else before + [last]
  }

  function NextDelay(config: Config, delay: nat): nat {
    if delay == 0 then config.retryBase
    else if 2 * delay > config.retryMax then config.retryMax
    else 2 * delay
  }

  function EndPublish(config: Config, worker: Worker, batch: seq<Path>, failed: bool): Outcome {
    var ended :=
      if failed then
        var pending := Unique(batch + worker.pending);
        worker.(publishing := false, pending := pending, pendingSet := Members(pending),
          retryDelay := NextDelay(config, worker.retryDelay))
      else worker.(publishing := false, retryDelay := 0);
    if |ended.pending| > 0 && !ended.stopping && !ended.armed then
      Outcome(ended.(armed := true), !failed, Some(if failed then ended.retryDelay else config.throttle))
    else Outcome(ended, !failed, None)
  }

  // ----- Stop -------------------------------------------------------------------------------

  datatype StopResult = Waiting(worker: Worker) | CloseFailed(worker: Worker) | Removed

  function TryStop(worker: Worker, closeFails: bool): StopResult {
    var stopped := worker.(stopping := true, armed := false);
    if worker.publishing then Waiting(stopped)
    else if closeFails then CloseFailed(stopped.(stopping := false))
    else Removed
  }

  // ----- what every section keeps -----------------------------------------------------------

  /** pending lists pendingSet once each; an armed worker is idle and has something to publish. */
  ghost predicate Consistent(worker: Worker) {
    && Distinct(worker.pending) && worker.pendingSet == Members(worker.pending)
    && (worker.armed ==> |worker.pending| > 0 && !worker.publishing && !worker.stopping)
  }

  /** Some place of p comes before every place of q. */
  ghost predicate OccursBefore(paths: seq<Path>, p: Path, q: Path) {
    exists i :: 0 <= i < |paths| && paths[i] == p && q !in paths[..i + 1]
  }

  /** Every path once, in the order of the first occurrences. */
  ghost predicate FirstOccurrences(paths: seq<Path>, unique: seq<Path>) {
    && Distinct(unique) && (forall path :: path in unique <==> path in paths)
    && forall i, j :: 0 <= i < j < |unique| ==> OccursBefore(paths, unique[i], unique[j])
  }

  lemma OccursBeforeMore(paths: seq<Path>, last: Path, p: Path, q: Path)
    ensures OccursBefore(paths, p, q) ==> OccursBefore(paths + [last], p, q)
    ensures p in paths && last !in paths ==> OccursBefore(paths + [last], p, last)
  {
    var more := paths + [last];
    if OccursBefore(paths, p, q) {
      var i :| 0 <= i < |paths| && paths[i] == p && q !in paths[..i + 1];
      assert more[i] == p && more[..i + 1] == paths[..i + 1];
    }
    if p in paths && last !in paths {
      var i :| 0 <= i < |paths| && paths[i] == p;
      assert more[i] == p && more[..i + 1] == paths[..i + 1];
    }
  }

  lemma FirstOccurrencesNext(paths: seq<Path>, unique: seq<Path>, last: Path)
    requires FirstOccurrences(paths, unique)
    ensures FirstOccurrences(paths + [last], if last in unique then unique else unique + [last])
  {
    var more := if last in unique then unique else unique + [last];
    hide OccursBefore;
    forall i, j | 0 <= i < j < |more|
      ensures OccursBefore(paths + [last], more[i], more[j])
    {
      assert more[i] in unique;
      OccursBeforeMore(paths, last, more[i], more[j]);
    }
  }

  lemma {:induction false} UniqueInOrder(paths: seq<Path>)
    ensures FirstOccurrences(paths, Unique(paths))
  {
    if paths != [] {
      var before, last := paths[..|paths| - 1], paths[|paths| - 1];
      UniqueInOrder(before);
      FirstOccurrencesNext(before, Unique(before), last);
      assert paths == before + [last];
    }
  }

  lemma DistinctInOrder(paths: seq<Path>)
    requires Distinct(paths)
    ensures FirstOccurrences(paths + [], paths)
  {
    UniqueOfDistinct(paths);
    UniqueInOrder(paths);
    assert paths + [] == paths;
  }

  lemma AppendNext(paths: seq<Path>, queued: Worker, last: Path)
    requires Consistent(queued) && FirstOccurrences(paths, queued.pending)
    ensures FirstOccurrences(paths + [last], Append(queued, last).pending)
  {
    hide FirstOccurrences;
    assert last in queued.pendingSet <==> last in queued.pending;
    FirstOccurrencesNext(paths, queued.pending, last);
  }

  lemma {:induction false} AppendedInOrder(worker: Worker, paths: seq<Path>)
    requires Consistent(worker) && !worker.stopping
    ensures FirstOccurrences(worker.pending + paths, AppendAll(worker, paths).pending)
  {
    hide FirstOccurrences, Append;
    if paths == [] {
      DistinctInOrder(worker.pending);
    } else {
      var before, last := paths[..|paths| - 1], paths[|paths| - 1];
      hide Consistent, Members;
      AppendedInOrder(worker, before);
      AppendAllQueues(worker, before);
      AppendNext(worker.pending + before, AppendAll(worker, before), last);
      assert worker.pending + paths == worker.pending + before + [last];
    }
  }

  /** Running with something to publish, but neither publishing nor waiting for a timer. */
  predicate Stalled(worker: Worker) {
    |worker.pending| > 0 && !worker.stopping && !worker.publishing && !worker.armed
  }

  lemma {:induction false} AppendAllQueues(worker: Worker, paths: seq<Path>)
    requires Consistent(worker) && !worker.stopping
    ensures var after := AppendAll(worker, paths);
      && Consistent(after)
      && Members(after.pending) == Members(worker.pending) + Members(paths)
      && worker.pending <= after.pending
      && after == worker.(pending := after.pending, pendingSet := after.pendingSet)
  {
    if paths != [] {
      var before, last := paths[..|paths| - 1], paths[|paths| - 1];
      AppendAllQueues(worker, before);
      var queued := AppendAll(worker, before);
      assert Members(paths) == Members(before) + {last};
      assert Members(queued.pending + [last]) == Members(queued.pending) + {last};
      assert last in queued.pending <==> last in Members(queued.pending);
    }
  }

  /** A successful Enqueue never leaves the worker stalled; a failing one does exactly when it accepted a
      first path before the rejected one, or found the worker stalled. */
  lemma EnqueueKeeps(config: Config, worker: Worker, events: seq<Event>)
    requires Consistent(worker)
    ensures var outcome := Enqueue(config, worker, events);
      && Consistent(outcome.worker)
      && (outcome.ok <==> !worker.stopping && None !in events)
      && (!worker.stopping ==> Members(outcome.worker.pending) == Members(worker.pending) + Members(Accepted(events)))
      && (worker.stopping ==> outcome.worker == worker)
      && outcome.worker
        == worker.(pending := outcome.worker.pending, pendingSet := outcome.worker.pendingSet,
        armed := outcome.worker.armed)
      && (!worker.stopping ==> FirstOccurrences(worker.pending + Accepted(events), outcome.worker.pending))
      && (outcome.scheduled.Some? <==> outcome.worker.armed && !worker.armed)
      && (outcome.scheduled.Some? ==> outcome.scheduled.value == config.throttle)
      && (outcome.ok ==> !Stalled(outcome.worker))
      && (!outcome.ok && !worker.stopping ==>
        (Stalled(outcome.worker) <==>
          Stalled(worker) || (worker.pending == [] && !worker.publishing && Accepted(events) != [])))
  {
    if !worker.stopping {
      AppendAllQueues(worker, Accepted(events));
      AppendedInOrder(worker, Accepted(events));
      hide FirstOccurrences;
      var queued := AppendAll(worker, Accepted(events));
      assert |queued.pending| > 0 <==> Members(queued.pending) != {} by {
        NonEmpty(queued.pending);
      }
      NonEmpty(worker.pending);
      NonEmpty(Accepted(events));
    }
  }

  lemma NonEmpty(paths: seq<Path>)
    ensures |paths| > 0 <==> Members(paths) != {}
  {
    if |paths| > 0 {
      assert paths[0] in Members(paths);
    }
  }

  lemma EndPublishKeeps(config: Config, worker: Worker, batch: seq<Path>, failed: bool)
    requires config.Valid() && Consistent(worker) && worker.publishing
    ensures var outcome := EndPublish(config, worker, batch, failed);
      && Consistent(outcome.worker) && !outcome.worker.publishing && outcome.worker.stopping == worker.stopping
      && !Stalled(outcome.worker)
      && Members(outcome.worker.pending) == Members(worker.pending) + (if failed then Members(batch) else {})
      && (if failed then FirstOccurrences(batch + worker.pending, outcome.worker.pending)
          else outcome.worker.pending == worker.pending)
      && (outcome.scheduled.Some? <==> outcome.worker.armed)
      && outcome.worker.retryDelay == (if failed then NextDelay(config, worker.retryDelay) else 0)
      && (outcome.scheduled.Some? ==> outcome.scheduled.value == if failed then outcome.worker.retryDelay
        else config.throttle)
  {
    assert Members(batch + worker.pending) == Members(batch) + Members(worker.pending);
    UniqueInOrder(batch + worker.pending);
    hide FirstOccurrences;
  }

  lemma {:induction false} UniqueOfDistinct(paths: seq<Path>)
    requires Distinct(paths)
    ensures Unique(paths) == paths
  {
    if paths != [] {
      UniqueOfDistinct(paths[..|paths| - 1]);
    }
  }

  /** The paths of a failed batch go back in front, in their order. */
  lemma {:induction false} BatchGoesFirst(batch: seq<Path>, pending: seq<Path>)
    requires Distinct(batch)
    ensures batch <= Unique(batch + pending)
  {
    if pending == [] {
      assert batch + pending == batch;
      UniqueOfDistinct(batch);
    } else {
      BatchGoesFirst(batch, pending[..|pending| - 1]);
      assert (batch + pending)[..|batch + pending| - 1] == batch + pending[..|pending| - 1];
    }
  }

  // ----- the retry delay --------------------------------------------------------------------

  function Doubled(base: nat, times: nat): nat {
    if times == 0 then base else 2 * Doubled(base, times - 1)
  }

  /** The delay after that many failures in a row. */
  function DelayAfter(config: Config, failures: nat): nat {
    if failures == 0 then 0 else NextDelay(config, DelayAfter(config, failures - 1))
  }

  /** The first delay is the base; later ones double it and stop at the maximum. */
  lemma {:induction false} DelayIsCappedDoubling(config: Config, failures: nat)
    requires config.Valid() && failures > 0
    ensures DelayAfter(config, failures) == if failures == 1 then config.retryBase
      else Min(Doubled(config.retryBase, failures - 1), config.retryMax)
    ensures config.retryBase <= config.retryMax ==>
      DelayAfter(config, failures) == Min(Doubled(config.retryBase, failures - 1), config.retryMax)
    ensures Doubled(config.retryBase, failures - 1) >= config.retryBase
  {
    if failures > 1 {
      DelayIsCappedDoubling(config, failures - 1);
    }
  }

  /** No delay ever exceeds the maximum exactly when the base does not; otherwise the first one alone does. */
  lemma DelaysStayCapped(config: Config)
    requires config.Valid()
    ensures (forall failures: nat {:trigger DelayAfter(config, failures)} ::
      DelayAfter(config, failures) <= config.retryMax)
       <==> config.retryBase <= config.retryMax
    ensures forall failures: nat {:trigger DelayAfter(config, failures)} :: failures != 1 ==>
      DelayAfter(config, failures) <= config.retryMax
  {
    forall failures: nat | failures > 0
      ensures DelayAfter(config, failures) <= config.retryMax
        || (failures == 1 && DelayAfter(config, failures) == config.retryBase)
    {
      DelayIsCappedDoubling(config, failures);
    }
    DelayIsCappedDoubling(config, 1);
  }
}
