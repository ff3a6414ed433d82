/** The initial index run on a contribution session: what the pipeline's producer stages and its consumer writes,
    in every interleaving. */
module InitialIndex {
  import opened ContributionHistory
  import opened ContributionSession
  import opened ContributionSessionFacts
  import opened ContributionTables
  import EP = ExtractionPipeline
  import GD = GraphDatabase
  import opened Sequences
  import opened SqlTransaction
  import opened StoredFacts
  import opened StoreRuns

  /** The paths of the first so many sources, marked as the written ones are. */
  ghost predicate StagedAs(contributions: seq<Contribution>, staged: nat, written: seq<nat>, sources: Sources) {
    && staged <= |contributions|
    && (forall path :: path in sources ==> exists k :: 0 <= k < staged && contributions[k].path == path)
    && forall k :: 0 <= k < staged ==>
      contributions[k].path in sources && (sources[contributions[k].path] <==> k in written)
  }

  /** Sources are staged one ahead of the queue; a cancelled producer may have staged one it never offered. */
  ghost predicate StagedSoFar(s: EP.State, staged: nat) {
    match s.producer
    case Emitting(index) => staged == index
    case Offering(index) => staged == index + 1
    case Stopped(index) => index <= staged <= index + 1
  }

  ghost predicate WrittenAs(contributions: seq<Contribution>, indexes: seq<nat>, written: map<Path, Record>) {
    forall k :: k in indexes ==>
      k < |contributions| && contributions[k].path in written
      && written[contributions[k].path] == Stored(contributions[k])
  }

  ghost predicate Matches(contributions: seq<Contribution>, s: EP.State, staged: nat, sources: Sources,
          written: map<Path, Record>) {
    StagedSoFar(s, staged) && StagedAs(contributions, staged, s.written, sources)
    && WrittenAs(contributions, s.written, written)
  }

  /** The consumer receives an extracted source and has seen no error: it writes it. */
  predicate Writes(s: EP.State, step: EP.Step) {
    step.Receive? && s.results != [] && s.results[0].Extracted? && s.received == 0
  }

  lemma NewlyStaged(contributions: seq<Contribution>, staged: nat, indexes: seq<nat>, sources: Sources)
    requires DistinctPaths(contributions) && StagedAs(contributions, staged, indexes, sources)
    requires staged < |contributions| && staged !in indexes
    ensures contributions[staged].path !in sources
    ensures StagedAs(contributions, staged + 1, indexes, sources[contributions[staged].path := false])
  {}

  lemma NewlyWritten(contributions: seq<Contribution>, staged: nat, indexes: seq<nat>, sources: Sources, k: nat)
    requires DistinctPaths(contributions) && StagedAs(contributions, staged, indexes, sources)
    requires k < staged && k !in indexes
    ensures contributions[k].path in sources && !sources[contributions[k].path]
    ensures StagedAs(contributions, staged, indexes + [k], sources[contributions[k].path := true])
  {}

  lemma RecordWritten(contributions: seq<Contribution>, indexes: seq<nat>, written: map<Path, Record>, k: nat)
    requires DistinctPaths(contributions) && WrittenAs(contributions, indexes, written) && k < |contributions|
    ensures WrittenAs(contributions, indexes + [k], written[contributions[k].path := Stored(contributions[k])])
  {
    hide Stored;
  }

  /** A source about to be staged was not written yet. */
  lemma StagedIsNew(pipeline: EP.Pipeline, s: EP.State)
    requires EP.Invariant(pipeline, s)
    ensures s.producer.index !in s.written
  {
    EP.CountedIsMember(s.written, s.producer.index);
    assert EP.Places(s, s.producer.index) >= EP.Count(s.written, s.producer.index);
    hide EP.Places, EP.Count, EP.Flags, EP.Accounted, EP.NoneLost;
  }

  /** An extracted source that arrives was emitted before and not written yet. */
  lemma ReceivedIsNew(pipeline: EP.Pipeline, s: EP.State)
    requires EP.Invariant(pipeline, s) && Writes(s, EP.Receive(false))
    ensures s.results[0].index < s.producer.index && s.results[0].index !in s.written
  {
    var k := s.results[0].index;
    EP.FirstReport(s.results, k);
    EP.CountedIsMember(s.written, k);
    assert EP.Places(s, k) >= 1 + EP.Count(s.written, k);
    hide EP.Places, EP.Count, EP.Flags, EP.Accounted, EP.NoneLost;
  }

  lemma StagesNewPath(pipeline: EP.Pipeline, contributions: seq<Contribution>, s: EP.State, staged: nat,
          sources: Sources, written: map<Path, Record>)
    requires DistinctPaths(contributions) && |contributions| == pipeline.total
    requires EP.Invariant(pipeline, s) && EP.Enabled(pipeline, s, EP.Stage(false))
    requires Matches(contributions, s, staged, sources, written)
    ensures staged < |contributions| && contributions[staged].path !in sources
    ensures Matches(contributions, EP.Next(pipeline, s, EP.Stage(false)), staged + 1,
      sources[contributions[staged].path := false], written)
  {
    StagedIsNew(pipeline, s);
    NewlyStaged(contributions, staged, s.written, sources);
    hide StagedAs, WrittenAs, EP.Invariant;
  }

  lemma WritesStagedPath(pipeline: EP.Pipeline, contributions: seq<Contribution>, s: EP.State, staged: nat,
          sources: Sources, written: map<Path, Record>)
    requires DistinctPaths(contributions) && |contributions| == pipeline.total
    requires EP.Invariant(pipeline, s) && EP.Enabled(pipeline, s, EP.Receive(false)) && Writes(s, EP.Receive(false))
    requires Matches(contributions, s, staged, sources, written)
    ensures var k := s.results[0].index;
      && k < |contributions| && contributions[k].path in sources && !sources[contributions[k].path]
      && Matches(contributions, EP.Next(pipeline, s, EP.Receive(false)), staged,
        sources[contributions[k].path := true], written[contributions[k].path := Stored(contributions[k])])
  {
    var k := s.results[0].index;
    ReceivedIsNew(pipeline, s);
    NewlyWritten(contributions, staged, s.written, sources, k);
    RecordWritten(contributions, s.written, written, k);
    hide StagedAs, WrittenAs, EP.Invariant, Stored;
  }

  lemma OtherStepsKeep(pipeline: EP.Pipeline, contributions: seq<Contribution>, s: EP.State, step: EP.Step, staged: nat,
          sources: Sources, written: map<Path, Record>)
    requires EP.Enabled(pipeline, s, step) && step != EP.Stage(false) && !Writes(s, step)
    requires Matches(contributions, s, staged, sources, written)
    ensures Matches(contributions, EP.Next(pipeline, s, step), staged, sources, written)
  {
    hide StagedAs, WrittenAs;
  }

  // ----- the run ----------------------------------------------------------------------------

  /** The sources to be indexed: extracted contributions of distinct, named files. */
  ghost predicate Indexable(contributions: seq<Contribution>) {
    DistinctPaths(contributions)
    && forall i :: 0 <= i < |contributions| ==> contributions[i].WellFormed() && contributions[i].path != ""
  }

  /** The snapshot holds exactly the contributions' facts under their paths. */
  ghost predicate HoldsExactly(contents: map<Path, Record>, contributions: seq<Contribution>) {
    && (forall path :: path in contents ==> exists k :: 0 <= k < |contributions| && contributions[k].path == path)
    && forall k :: 0 <= k < |contributions| ==>
      contributions[k].path in contents && HoldsFacts(contents[contributions[k].path], contributions[k].facts)
  }

  lemma NothingStaged(contributions: seq<Contribution>, pipeline: EP.Pipeline, sources: Sources,
          written: map<Path, Record>)
    requires sources.Keys == {}
    ensures Matches(contributions, EP.Initial(pipeline), 0, sources, written)
  {
    assert forall path :: path in sources ==> path in sources.Keys;
  }

  /** After a run without an error every source is staged and written, so that is what a commit publishes. */
  lemma AllIsWritten(pipeline: EP.Pipeline, contributions: seq<Contribution>, s: EP.State, staged: nat,
          sources: Sources, written: map<Path, Record>, head: GD.VersionFacts, nodes: GD.NodeTable,
          edges: GD.EdgeTable)
    requires pipeline.Valid() && EP.Invariant(pipeline, s) && EP.Succeeds(s) && |contributions| == pipeline.total
    requires Matches(contributions, s, staged, sources, written)
    ensures HoldsExactly(SessionFacts(head, SessionWork(sources.Keys, written, nodes, edges)).contributions,
      contributions)
  {
    EP.FinishedRuns(pipeline, s);
    hide EP.Invariant, EP.Succeeds, EP.Count, Stored, SessionFacts, HoldsFacts;
    var work := SessionWork(sources.Keys, written, nodes, edges);
    forall path
      ensures path in SessionFacts(head, work).contributions ==> path in sources
    {
      CommittedPath(head, work, path);
    }
    forall k: nat | k < |contributions|
      ensures var path := contributions[k].path;
        path in SessionFacts(head, work).contributions
        && HoldsFacts(SessionFacts(head, work).contributions[path], contributions[k].facts)
    {
      StoredHolds(contributions[k]);
      EP.CountedIsMember(s.written, k);
      assert EP.Count(s.written, k) == One(k < pipeline.total);
      CommittedPath(head, work, contributions[k].path);
    }
  }

  /** The session is open and has done what the pipeline's state says. */
  ghost predicate Indexing(contributions: seq<Contribution>, s: EP.State, staged: nat, session: Session)
    reads session, session.tx, session.writer
  {
    session.Valid() && !session.closed && !session.sealed
    && Matches(contributions, s, staged, session.sources, session.written)
  }

  /** What one step of the pipeline does to the session. */
  method TakeStep(pipeline: EP.Pipeline, contributions: seq<Contribution>, session: Session, s: EP.State,
          step: EP.Step, ghost staged: nat) returns (refused: bool, ghost stagedNow: nat)
    requires EP.Invariant(pipeline, s) && EP.Enabled(pipeline, s, step)
    requires Writes(s, step) ==> step == EP.Receive(false)
    requires Indexable(contributions) && |contributions| == pipeline.total
    requires Indexing(contributions, s, staged, session) && session.tx.Dependable()
    modifies session`sources, session`closed, session`written, session.tx, session.writer
    ensures Indexing(contributions, EP.Next(pipeline, s, step), stagedNow, session) && !refused
  {
    refused, stagedNow := false, staged;
    hide Session.Valid, EP.Invariant, EP.Next, Stored, Contribution.WellFormed;
    if step == EP.Stage(false) {
      StagesNewPath(pipeline, contributions, s, staged, session.sources, session.written);
      stagedNow := staged + 1;
      hide StagedAs, WrittenAs;
      var outcome := session.StageSource(contributions[s.producer.index].path);
      refused := outcome.Fail?;
    } else if Writes(s, step) {
      WritesStagedPath(pipeline, contributions, s, staged, session.sources, session.written);
      hide Matches;
      var outcome := session.WriteContribution(contributions[s.results[0].index]);
      refused := outcome.Fail?;
    } else {
      hide Matches;
      OtherStepsKeep(pipeline, contributions, s, step, staged, session.sources, session.written);
    }
  }

  /** A run of the pipeline in which no write fails; whether one does is up to the session. */
  ghost predicate WritingRun(pipeline: EP.Pipeline, states: seq<EP.State>, steps: seq<EP.Step>) {
    EP.Run(pipeline, states, steps)
    && forall i :: 0 <= i < |steps| && Writes(states[i], steps[i]) ==> steps[i] == EP.Receive(false)
  }

  lemma PendingHolds(pipeline: EP.Pipeline, contributions: seq<Contribution>, s: EP.State, staged: nat,
          session: Session)
    requires pipeline.Valid() && EP.Invariant(pipeline, s) && |contributions| == pipeline.total
    requires Indexing(contributions, s, staged, session)
    ensures session.Valid() && !session.closed
    ensures EP.Succeeds(s) ==> HoldsExactly(session.Pending().contributions, contributions)
  {
    hide EP.Invariant, EP.Succeeds, Matches, HoldsExactly, SessionFacts, Session.Valid;
    if EP.Succeeds(s) {
      AllIsWritten(pipeline, contributions, s, staged, session.sources, session.written,
        GD.HeadFacts(GD.HistoryOf(session.base)), session.nodes, session.edges);
    }
  }

  lemma IndexingStarts(pipeline: EP.Pipeline, contributions: seq<Contribution>, session: Session)
    requires session.Valid() && !session.closed && !session.sealed && session.Work().staged == {}
    ensures Indexing(contributions, EP.Initial(pipeline), 0, session)
  {
    hide Session.Valid;
    NothingStaged(contributions, pipeline, session.sources, session.written);
  }

  lemma RunStep(pipeline: EP.Pipeline, states: seq<EP.State>, steps: seq<EP.Step>, i: nat)
    requires pipeline.Valid() && WritingRun(pipeline, states, steps) && i <= |steps|
    ensures |states| == |steps| + 1 && states[0] == EP.Initial(pipeline) && EP.Invariant(pipeline, states[i])
    ensures i < |steps| ==>
      && EP.Enabled(pipeline, states[i], steps[i]) && states[i + 1] == EP.Next(pipeline, states[i], steps[i])
      && (Writes(states[i], steps[i]) ==> steps[i] == EP.Receive(false))
  {
    hide EP.Invariant, EP.Enabled, EP.Next;
    EP.RunKeepsInvariant(pipeline, states[..i + 1], steps[..i]);
  }

  /** Every call of StageSource and WriteContribution that a run of the pipeline makes, in its order. */
  method IndexSources(pipeline: EP.Pipeline, contributions: seq<Contribution>, session: Session,
          states: seq<EP.State>, steps: seq<EP.Step>) returns (refused: bool)
    requires pipeline.Valid() && WritingRun(pipeline, states, steps)
    requires Indexable(contributions) && |contributions| == pipeline.total
    requires session.Valid() && !session.closed && !session.sealed && session.Work().staged == {}
    requires session.tx.Dependable()
    modifies session`sources, session`closed, session`written, session.tx, session.writer
    ensures session.Valid() && !session.closed && !refused
    ensures EP.Succeeds(states[|steps|]) ==> HoldsExactly(session.Pending().contributions, contributions)
  {
    hide *;
    hide Session.Valid, Session.Pending, Session.Work, Transaction.Dependable, EP.Pipeline.Valid;
    refused := false;
    ghost var staged := 0;
    IndexingStarts(pipeline, contributions, session);
    RunStep(pipeline, states, steps, 0);
    for i := 0 to |steps|
      invariant Indexing(contributions, states[i], staged, session) && !refused
    {
      RunStep(pipeline, states, steps, i);
      refused, staged := TakeStep(pipeline, contributions, session, states[i], steps[i], staged);
    }
    RunStep(pipeline, states, steps, |steps|);
    PendingHolds(pipeline, contributions, states[|steps|], staged, session);
  }
}
