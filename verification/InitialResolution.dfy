/** Resolving the pages of a sealed session and committing it: answers that were read early hold at the
    version that is published late. */
module InitialResolution {
  import opened Wrappers
  import opened ContributionTables
  import GD = GraphDatabase
  import opened StoreRuns
  import opened GraphStore
  import opened ResolverTargets
  import opened SealedSession
  import opened ContributionSession

  /** One page: what its resolver asks, and what it writes once it has the answers. */
  datatype Page = Page(requests: seq<TargetRequest>, updated: seq<Contribution>, edges: seq<GD.WorkspaceEdge>)

  datatype Answer = Answer(request: TargetRequest, target: Option<Target>)

  ghost predicate AnsweredBy(contents: map<Path, Record>, answers: seq<Answer>) {
    forall i :: 0 <= i < |answers| ==> answers[i].target == TargetIn(contents, answers[i].request)
  }

  lemma StillAnswered(head: GD.VersionFacts, work: SessionWork, step: SealedStep, answers: seq<Answer>)
    requires AnsweredBy(SessionFacts(head, work).contributions, answers)
    ensures AnsweredBy(SessionFacts(head, AfterStep(work, step)).contributions, answers)
  {
    forall i | 0 <= i < |answers|
      ensures answers[i].target == TargetAt(head, AfterStep(work, step), answers[i].request)
    {
      StepKeepsTarget(head, work, step, answers[i].request);
    }
  }

  /** The resolver's reads of one page. */
  method ReadAnswers(session: Session, requests: seq<TargetRequest>)
    returns (result: Result<seq<Answer>, GD.StoreError>)
    requires session.Valid()
    ensures result.Ok? ==> |result.value| == |requests| && AnsweredBy(session.Pending().contributions, result.value)
    ensures result.Ok? ==> forall i :: 0 <= i < |requests| ==> result.value[i].request == requests[i]
    ensures session.tx.reliable && !session.closed && session.sealed && result.Err? ==>
      (exists r :: r in requests && (r.projectId == "" || r.language == "" || r.path == ""))
  {
    hide Session.Valid, Session.Pending, TargetIn;
    var answers: seq<Answer> := [];
    for i := 0 to |requests|
      invariant |answers| == i && AnsweredBy(session.Pending().contributions, answers)
      invariant forall j :: 0 <= j < i ==> answers[j].request == requests[j]
    {
      var read := session.ResolverTarget(session.workspace, requests[i]);
      if read.Err? {
        return Err(read.error);
      }
      answers := answers + [Answer(requests[i], read.value)];
    }
    return Ok(answers);
  }

  /** One turn of the loop in resolveProjectionPages; the answers read before this page stay true as well. */
  method ResolvePage(session: Session, page: Page, earlier: seq<Answer>)
    returns (result: Result<seq<Answer>, GD.StoreError>)
    requires session.Valid() && AnsweredBy(session.Pending().contributions, earlier)
    modifies session, session.tx
    ensures session.Valid()
    ensures result.Ok? ==>
      && |result.value| == |earlier| + |page.requests| && earlier <= result.value
      && AnsweredBy(session.Pending().contributions, result.value)
  {
    var read := ReadAnswers(session, page.requests);
    if read.Err? {
      return Err(read.error);
    }
    var answers := earlier + read.value;
    ghost var head := GD.HeadFacts(GD.HistoryOf(session.base));
    hide Session.Valid, AnsweredBy, SessionFacts, AfterStep, Replaceable;
    StillAnswered(head, session.Work(), Replacement(page.updated), answers);
    var replaced := session.ReplaceContributionDependencies(page.updated);
    if replaced.Fail? {
      return Err(replaced.error);
    }
    StillAnswered(head, session.Work(), FactsWritten([], page.edges), answers);
    var written := session.WriteWorkspaceFacts([], page.edges);
    if written.Fail? {
      return Err(written.error);
    }
    return Ok(answers);
  }

  /** resolveProjectionPages, given what each page's resolver asks and writes. */
  method ResolveProjectionPages(session: Session, pages: seq<Page>) returns (result: Result<seq<Answer>, GD.StoreError>)
    requires session.Valid()
    modifies session, session.tx
    ensures session.Valid()
    ensures result.Ok? ==> AnsweredBy(session.Pending().contributions, result.value)
  {
    var answers: seq<Answer> := [];
    assert AnsweredBy(session.Pending().contributions, answers);
    hide Session.Valid, AnsweredBy, Session.Pending, Session.Work;
    for i := 0 to |pages|
      invariant session.Valid() && AnsweredBy(session.Pending().contributions, answers)
    {
      var page := ResolvePage(session, pages[i], answers);
      if page.Err? {
        return Err(page.error);
      }
      answers := page.value;
    }
    return Ok(answers);
  }

  lemma AnsweredAtCommit(base: GD.Database, facts: GD.VersionFacts, after: GD.Database, answers: seq<Answer>)
    requires GD.Append(GD.HistoryOf(base), facts) == Ok(GD.HistoryOf(after)) && AnsweredBy(facts.contributions, answers)
    ensures GD.Newest(base.versions) + 1 in after.versions
    ensures AnsweredBy(Snapshot(after.tables, GD.Newest(base.versions) + 1), answers)
  {
    hide GD.Append, GD.HistoryOf, Snapshot, TargetIn;
    TargetAtCommit(base, facts, after, TargetRequest("", "", ""));
    forall i | 0 <= i < |answers|
      ensures answers[i].target == TargetIn(Snapshot(after.tables, GD.Newest(base.versions) + 1), answers[i].request)
    {
      TargetAtCommit(base, facts, after, answers[i].request);
    }
  }

  method CommitAnswered(session: Session, answers: seq<Answer>) returns (result: Result<Version, GD.StoreError>)
    requires session.Valid() && session.store.Valid() && AnsweredBy(session.Pending().contributions, answers)
    modifies session, session.tx, session.writer, session.store`databases, session.store.cache
    ensures session.Valid() && session.store.Valid()
    ensures result.Ok? ==>
      && result.value in session.store.Workspace(session.workspace).versions
      && AnsweredBy(Snapshot(session.store.Workspace(session.workspace).tables, result.value), answers)
  {
    hide AnsweredBy, Snapshot, SessionFacts, GD.Append, GD.HistoryOf, Session.Writable, Session.Flags, Store.Valid,
      CommitsWith, GD.Valid;
    ghost var facts := session.Pending();
    result := session.Commit();
    if result.Ok? {
      AnsweredAtCommit(session.base, facts, session.store.Workspace(session.workspace), answers);
    }
  }

  /** Every answer the resolvers were given while pages were resolved is what the store answers for the
      published version. */
  method ResolveAndCommit(session: Session, pages: seq<Page>)
    returns (result: Result<Version, GD.StoreError>, answers: seq<Answer>)
    requires session.Valid() && session.store.Valid()
    modifies session, session.tx, session.writer, session.store`databases, session.store.cache
    ensures session.Valid() && session.store.Valid()
    ensures result.Ok? ==>
      && result.value in session.store.Workspace(session.workspace).versions
      && AnsweredBy(Snapshot(session.store.Workspace(session.workspace).tables, result.value), answers)
  {
    hide AnsweredBy, Snapshot, SessionFacts, Session.Valid, Store.Valid, GD.HistoryOf, GD.HeadFacts;
    var resolved := ResolveProjectionPages(session, pages);
    if resolved.Err? {
      return Err(resolved.error), [];
    }
    answers := resolved.value;
    var counts := session.SealWorkspaceFacts();
    if counts.Err? {
      return Err(counts.error), answers;
    }
    result := CommitAnswered(session, answers);
  }
}
