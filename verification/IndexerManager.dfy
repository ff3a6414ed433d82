/** The manager object: workers by workspace, each changed by one mutex-held section at a time. */
module IndexerManager {
  import opened Wrappers
  import opened IndexerQueue
  import opened Sequences

  datatype ManagerError = NotRunning | InvalidEvent | NotAcquired | CloseError

  class WorkerRecord {
    var pending: seq<Path>
    var pendingSet: set<Path>
    /** The timer is not nil. */
    var armed: bool
    var publishing: bool
    var stopping: bool
    var retryDelay: nat

    ghost function View(): Worker
      reads this
    {
      Worker(pending, pendingSet, armed, publishing, stopping, retryDelay)
    }

    constructor ()
      ensures View() == NEW_WORKER
    {
      pending, pendingSet, armed, publishing, stopping, retryDelay := [], {}, false, false, false, 0;
    }

    /** The loop of Enqueue over its events. */
    method Accept(events: seq<Event>) returns (ok: bool)
      modifies `pending, `pendingSet
      ensures View() == AppendAll(old(View()), Accepted(events))
      ensures ok <==> |Accepted(events)| == |events|
    {
      for i := 0 to |events|
        invariant View() == AppendAll(old(View()), Accepted(events[..i]))
        invariant |Accepted(events[..i])| == i
      {
        AcceptedSoFar(events, i);
        if events[i].None? {
          RejectedHere(events, i);
          return false;
        }
        var path := events[i].value;
        assert Accepted(events[..i + 1])[..i] == Accepted(events[..i]);
        if path !in pendingSet {
          pendingSet := pendingSet + {path};
          pending := pending + [path];
        }
      }
      assert events[..|events|] == events;
      return true;
    }

    method Enqueue(config: Config, events: seq<Event>) returns (ok: bool, ghost scheduled: Option<nat>)
      requires !stopping
      modifies this
      ensures Outcome(View(), ok, scheduled) == IndexerQueue.Enqueue(config, old(View()), events)
    {
      scheduled := None;
      ok := Accept(events);
      if !ok {
        return;
      }
      if |pending| > 0 && !publishing && !armed {
        armed := true;
        scheduled := Some(config.throttle);
      }
    }

    /** The first half of publish: the callback of a timer. */
    method PublishBegin() returns (batch: Option<seq<Path>>)
      modifies this
      ensures batch.Some? <==> CanPublish(old(View()))
      ensures batch.Some? ==> batch.value == old(pending) && View() == BeginPublish(old(View()))
      ensures batch.None? ==> View() == old(View())
    {
      if stopping || publishing || |pending| == 0 {
        return None;
      }
      batch := Some(pending);
      pending, pendingSet, armed, publishing := [], {}, false, true;
    }

    /** The second half, once the publisher has returned or panicked. */
    method PublishEnd(config: Config, batch: seq<Path>, failed: bool) returns (ghost scheduled: Option<nat>)
      modifies this
      ensures Outcome(View(), !failed, scheduled) == EndPublish(config, old(View()), batch, failed)
    {
      hide Unique;
      scheduled := None;
      publishing := false;
      if failed {
        var merged := UniquePaths(batch + pending);
        pending := merged;
        pendingSet := Members(merged);
        if retryDelay == 0 {
          retryDelay := config.retryBase;
        } else {
          retryDelay := retryDelay * 2;
          if retryDelay > config.retryMax {
            retryDelay := config.retryMax;
          }
        }
      } else {
        retryDelay := 0;
      }
      if |pending| > 0 && !stopping && !armed {
        armed := true;
        scheduled := Some(if failed then retryDelay else config.throttle);
      }
    }
  }

  lemma AcceptedSoFar(events: seq<Event>, i: nat)
    requires i < |events| && |Accepted(events[..i])| == i
    ensures Accepted(events[..i + 1]) == if events[i].None? then Accepted(events[..i])
      else Accepted(events[..i]) + [events[i].value]
  {
    assert events[..i + 1][..i] == events[..i];
  }

  lemma {:induction false} RejectedHere(events: seq<Event>, i: nat)
    requires i < |events| && events[i].None? && |Accepted(events[..i])| == i
    ensures Accepted(events) == Accepted(events[..i])
    decreases |events|
  {
    if i == |events| - 1 {
      AcceptedSoFar(events, i);
      assert events[..i + 1] == events;
    } else {
      var before := events[..|events| - 1];
      assert before[..i] == events[..i];
      RejectedHere(before, i);
    }
  }

  /** uniquePaths */
  method UniquePaths(paths: seq<Path>) returns (unique: seq<Path>)
    ensures unique == Unique(paths) && FirstOccurrences(paths, unique)
  {
    UniqueInOrder(paths);
    hide FirstOccurrences;
    var seen: set<Path> := {};
    unique := [];
    for i := 0 to |paths|
      invariant unique == Unique(paths[..i]) && seen == Members(unique)
    {
      assert paths[..i + 1][..i] == paths[..i];
      if paths[i] in seen {
        continue;
      }
      assert Members(unique + [paths[i]]) == Members(unique) + {paths[i]};
      seen := seen + {paths[i]};
      unique := unique + [paths[i]];
    }
    assert paths[..|paths|] == paths;
  }

  class Manager {
    const config: Config
    var workers: map<string, WorkerRecord>

    /** No two workspaces share a worker. */
    ghost predicate Valid()
      reads this
    {
      config.Valid() && forall a, b :: a in workers && b in workers && a != b ==> workers[a] != workers[b]
    }

    constructor (config: Config)
      requires config.Valid()
      ensures Valid() && workers == map[] && this.config == config
    {
      this.config := config;
      workers := map[];
    }

    /** Start: a running worker is kept as it is. */
    method Start(workspace: string, acquired: bool) returns (outcome: Wrappers.Outcome<ManagerError>)
      requires Valid()
      modifies this
      ensures Valid()
      ensures workspace in old(workers) ==> outcome.Pass? && workers == old(workers)
      ensures workspace !in old(workers) && !acquired ==> outcome == Fail(NotAcquired) && workers == old(workers)
      ensures workspace !in old(workers) && acquired ==>
        && outcome.Pass? && workspace in workers && fresh(workers[workspace])
        && workers == old(workers)[workspace := workers[workspace]] && workers[workspace].View() == NEW_WORKER
    {
      if workspace in workers {
        return Pass;
      }
      if !acquired {
        return Fail(NotAcquired);
      }
      var worker := new WorkerRecord();
      workers := workers[workspace := worker];
      return Pass;
    }

    method Enqueue(workspace: string, events: seq<Event>) returns (outcome: Wrappers.Outcome<ManagerError>,
            ghost scheduled: Option<nat>)
      requires Valid()
      modifies if workspace in workers then {workers[workspace]} else {}
      ensures workspace !in workers || old(workers[workspace].stopping) ==>
        outcome == Fail(NotRunning) && scheduled == None
      ensures workspace in workers ==>
        var expected := IndexerQueue.Enqueue(config, old(workers[workspace].View()), events);
        workers[workspace].View() == expected.worker && outcome.Pass? == expected.ok && scheduled == expected.scheduled
    {
      scheduled := None;
      if workspace !in workers || workers[workspace].stopping {
        outcome := Fail(NotRunning);
        return;
      }
      var ok;
      ok, scheduled := workers[workspace].Enqueue(config, events);
      outcome := if ok then Pass else Fail(InvalidEvent);
    }

    /** What a timer callback does first; the worker it found is the one its publication will end on. */
    method PublishBegin(workspace: string) returns (batch: Option<seq<Path>>, worker: WorkerRecord?)
      requires Valid()
      modifies if workspace in workers then {workers[workspace]} else {}
      ensures batch.Some? <==> workspace in workers && CanPublish(old(workers[workspace].View()))
      ensures batch.Some? <==>
        && workspace in workers && !old(workers[workspace].stopping) && !old(workers[workspace].publishing)
        && old(workers[workspace].pending) != []
      ensures batch.Some? ==>
        && workers[workspace].View() == Worker([], {}, false, true, false, old(workers[workspace].retryDelay))
      ensures batch.Some? ==>
        && worker == workers[workspace] && batch.value == old(workers[workspace].pending)
        && worker.View() == BeginPublish(old(workers[workspace].View()))
      ensures batch.None? && workspace in workers ==> workers[workspace].View() == old(workers[workspace].View())
    {
      if workspace !in workers {
        return None, null;
      }
      worker := workers[workspace];
      batch := worker.PublishBegin();
    }

    /** One round of Stop's loop. */
    method StopOnce(workspace: string, closeFails: bool) returns (result: Option<StopResult>)
      requires Valid()
      modifies this, if workspace in workers then {workers[workspace]} else {}
      ensures Valid()
      ensures workspace !in old(workers) ==> result == None && workers == old(workers)
      ensures workspace in old(workers) ==>
        && result == Some(TryStop(old(workers[workspace].View()), closeFails))
        && (match result.value
            case Removed => workers == old(workers) - {workspace} && !old(workers[workspace].publishing)
            case Waiting(worker) => workers == old(workers) && workers[workspace].View() == worker
            case CloseFailed(worker) => workers == old(workers) && workers[workspace].View() == worker)
        && (result.value.Waiting? <==> old(workers[workspace].publishing))
        && (result.value.CloseFailed? <==> !old(workers[workspace].publishing) && closeFails)
        && (!result.value.Removed? ==>
          var before, after := old(workers[workspace].View()), workers[workspace].View();
          && after.stopping == result.value.Waiting? && !after.armed && after.pending == before.pending
          && after.pendingSet == before.pendingSet && after.publishing == before.publishing
          && after.retryDelay == before.retryDelay)
    {
      if workspace !in workers {
        return None;
      }
      var worker := workers[workspace];
      worker.stopping := true;
      worker.armed := false;
      if worker.publishing {
        return Some(Waiting(Worker(worker.pending, worker.pendingSet, worker.armed, worker.publishing, worker.stopping,
          worker.retryDelay)));
      }
      if closeFails {
        worker.stopping := false;
        return Some(CloseFailed(Worker(worker.pending, worker.pendingSet, worker.armed, worker.publishing,
          worker.stopping, worker.retryDelay)));
      }
      workers := workers - {workspace};
      return Some(Removed);
    }
  }
}
