/** What happens to a sealed session between a resolver's read and the commit, and why the read stays true. */
module SealedSession {
  import opened Wrappers
  import opened ContributionTables
  import opened ContributionHistory
  import GD = GraphDatabase
  import opened StoreRuns
  import opened GraphStore
  import opened DependencyReplacement
  import opened ContributionSessionFacts
  import opened ResolverTargets

  /** The steps that change what a sealed session will publish. */
  datatype SealedStep =
    | Replacement(contributions: seq<Contribution>)
    | FactsWritten(nodes: seq<GD.WorkspaceNode>, edges: seq<GD.WorkspaceEdge>)

  function AfterStep(work: SessionWork, step: SealedStep): SessionWork {
    match step
    case Replacement(contributions) => work.(written := WithAllDependencies(work.written, contributions))
    case FactsWritten(nodes, edges) =>
      work.(nodes := GD.StoreNodes(work.nodes, nodes), edges := GD.StoreEdges(work.edges, edges))
  }

  function AfterSteps(work: SessionWork, steps: seq<SealedStep>): SessionWork {
    if steps == [] then work
    else AfterStep(AfterSteps(work, steps[..|steps| - 1]), steps[|steps| - 1])
  }

  /** What the session answers when it has done this work. */
  function TargetAt(head: GD.VersionFacts, work: SessionWork, request: TargetRequest): Option<Target> {
    TargetIn(SessionFacts(head, work).contributions, request)
  }

  /** Before the missing sources are closed the session joins with the staged paths instead. */
  lemma StagedTarget(head: map<Path, Record>, written: map<Path, Record>, sources: Sources, missingClosed: bool,
          request: TargetRequest)
    requires request.path in sources
    ensures TargetIn(Contents(head, written, sources, missingClosed), request)
         == TargetIn(Restrict(head + written, sources.Keys), request)
  {}

  lemma UnstagedTarget(contents: map<Path, Record>, sources: Sources, request: TargetRequest)
    requires request.path !in sources
    ensures TargetIn(Restrict(contents, sources.Keys), request) == None
  {}

  // ----- later steps change no answer -------------------------------------------------------

  lemma RecordTarget(record: Record, contribution: Contribution, request: TargetRequest)
    ensures TargetOf(WithDependencies(record, contribution), request) == TargetOf(record, request)
  {
    assert TargetFacts(WithDependencies(record, contribution)) == TargetFacts(record);
  }

  /** The answer depends on the record of the request's path only. */
  lemma PathTarget(head: GD.VersionFacts, work: SessionWork, request: TargetRequest)
    ensures TargetAt(head, work, request) ==
      if request.path !in work.staged then None
      else if request.path in work.written then TargetOf(work.written[request.path], request)
      else TargetIn(head.contributions, request)
  {
    hide TargetOf;
  }

  lemma {:induction false} ReplacementKeepsRecord(records: map<Path, Record>, contributions: seq<Contribution>,
          request: TargetRequest)
    ensures request.path in WithAllDependencies(records, contributions) <==> request.path in records
    ensures request.path in records ==>
      TargetOf(WithAllDependencies(records, contributions)[request.path], request)
        == TargetOf(records[request.path], request)
  {
    hide TargetOf, WithDependencies;
    if contributions != [] {
      var before, last := contributions[..|contributions| - 1], contributions[|contributions| - 1];
      ReplacementKeepsRecord(records, before, request);
      if request.path == last.path && request.path in records {
        RecordTarget(WithAllDependencies(records, before)[last.path], last, request);
      }
    }
  }

  /** Resolving does not look at dependencies or workspace facts, so no step changes an answer. */
  lemma StepKeepsTarget(head: GD.VersionFacts, work: SessionWork, step: SealedStep, request: TargetRequest)
    ensures TargetAt(head, AfterStep(work, step), request) == TargetAt(head, work, request)
  {
    PathTarget(head, work, request);
    PathTarget(head, AfterStep(work, step), request);
    hide TargetAt, TargetOf, TargetIn, WithAllDependencies;
    match step
    case Replacement(contributions) => ReplacementKeepsRecord(work.written, contributions, request);
    case FactsWritten(_, _) =>
  }

  lemma {:induction false} StepsKeepTarget(head: GD.VersionFacts, work: SessionWork, steps: seq<SealedStep>,
          request: TargetRequest)
    ensures TargetAt(head, AfterSteps(work, steps), request) == TargetAt(head, work, request)
  {
    hide TargetAt, AfterStep;
    if steps != [] {
      var last := |steps| - 1;
      StepsKeepTarget(head, work, steps[..last], request);
      StepKeepsTarget(head, AfterSteps(work, steps[..last]), steps[last], request);
    }
  }

  // ----- the commit -------------------------------------------------------------------------

  /** The committed version answers what the session's facts answer. */
  lemma TargetAtCommit(base: GD.Database, facts: GD.VersionFacts, after: GD.Database, request: TargetRequest)
    requires GD.Append(GD.HistoryOf(base), facts) == Ok(GD.HistoryOf(after))
    ensures GD.Newest(base.versions) + 1 in after.versions
    ensures TargetIn(Snapshot(after.tables, GD.Newest(base.versions) + 1), request)
      == TargetIn(facts.contributions, request)
  {
    assert GD.HistoryOf(base).Keys == base.versions;
    AppendContents(GD.HistoryOf(base), facts, GD.HistoryOf(after));
    HistoryFacts(after, GD.Newest(base.versions) + 1);
  }

  /** What a sealed session answers at any time is what the store answers for the version the session
      commits, whatever dependencies and workspace facts are written in between. */
  lemma AnswersAsCommitted(base: GD.Database, work: SessionWork, steps: seq<SealedStep>, after: GD.Database,
          request: TargetRequest)
    requires var head := GD.HeadFacts(GD.HistoryOf(base));
      GD.Append(GD.HistoryOf(base), SessionFacts(head, AfterSteps(work, steps))) == Ok(GD.HistoryOf(after))
    ensures GD.Newest(base.versions) + 1 in after.versions
    ensures TargetIn(Snapshot(after.tables, GD.Newest(base.versions) + 1), request)
         == TargetAt(GD.HeadFacts(GD.HistoryOf(base)), work, request)
  {
    var head := GD.HeadFacts(GD.HistoryOf(base));
    StepsKeepTarget(head, work, steps, request);
    TargetAtCommit(base, SessionFacts(head, AfterSteps(work, steps)), after, request);
  }
}
