/** What a contribution session has done so far, as values: the transaction's tables with every buffered
    row applied, against the committed tables it began from. */
module ContributionSessionFacts {
  import opened ContributionTables
  import opened ContributionHistory
  import GD = GraphDatabase
  import opened GraphRefinement
  import opened StoreRuns
  import opened DependencyReplacement

  /** contribution_session_sources: staged paths, and whether their contribution is written. */
  type Sources = map<Path, bool>

  function Contents(head: map<Path, Record>, written: map<Path, Record>, sources: Sources,
          missingClosed: bool): map<Path, Record> {
    if missingClosed then Restrict(head + written, sources.Keys) else head + written
  }

  function Head(base: GD.Database): map<Path, Record> {
    GD.HeadFacts(GD.HistoryOf(base)).contributions
  }

  /** The written paths are the staged ones marked as written. */
  ghost predicate Marks(sources: Sources, written: map<Path, Record>) {
    forall path :: path in written <==> path in sources && sources[path]
  }

  lemma MarkWritten(sources: Sources, written: map<Path, Record>, path: Path, record: Record)
    requires Marks(sources, written)
    ensures Marks(sources[path := true], written[path := record])
    ensures written[path := record].Keys == written.Keys + {path}
  {}

  ghost predicate InSession(base: GD.Database, version: Version, tx: GD.Database, sources: Sources,
          written: map<Path, Record>, nodes: GD.NodeTable, edges: GD.EdgeTable, missingClosed: bool) {
    && Next(base.versions, version)
    && Marks(sources, written)
    && Writing(base, version, tx, written.Keys,
               GD.VersionFacts(Contents(Head(base), written, sources, missingClosed), nodes, edges))
  }

  lemma SessionBegins(base: GD.Database)
    requires GD.Valid(base)
    ensures InSession(base, GD.Newest(base.versions) + 1, base, map[], map[], map[], map[], false)
  {
    hide Pending, Snapshot, LockStep, Bounded, GD.HistoryOf, GD.HeadFacts, GD.IndexExact, Contiguous;
    var version := GD.Newest(base.versions) + 1;
    NextIsNewest(base);
    HeadOf(base);
    PendingStart(base.tables, base.versions, version);
    var none: map<Path, Record> := map[];
    assert Head(base) + none == Head(base);
    assert version !in base.versions;
    assert none.Keys == {};
    assert Writing(base, version, base, none.Keys, GD.VersionFacts(Head(base), map[], map[]));
  }

  lemma SessionStages(base: GD.Database, version: Version, tx: GD.Database, sources: Sources,
          written: map<Path, Record>, nodes: GD.NodeTable, edges: GD.EdgeTable, path: Path)
    requires InSession(base, version, tx, sources, written, nodes, edges, false) && path !in sources
    ensures InSession(base, version, tx, sources[path := false], written, nodes, edges, false)
  {
    hide Pending, WrittenAt, Next, Head;
    assert Marks(sources[path := false], written);
  }

  lemma SessionWrites(base: GD.Database, version: Version, tx: GD.Database, sources: Sources,
          written: map<Path, Record>, nodes: GD.NodeTable, edges: GD.EdgeTable, contribution: Contribution)
    requires InSession(base, version, tx, sources, written, nodes, edges, false)
    requires contribution.WellFormed() && contribution.path in sources && !sources[contribution.path]
    ensures InSession(base, version, tx.(tables := AddContribution(tx.tables, contribution, version)),
                      sources[contribution.path := true], written[contribution.path := Stored(contribution)], nodes,
                        edges, false)
  {
    assert contribution.path !in written;
    MarkWritten(sources, written, contribution.path, Stored(contribution));
    hide Pending, AddContribution, Stored, Head, Contribution.WellFormed, WrittenAt, Next, Marks;
    var after := tx.(tables := AddContribution(tx.tables, contribution, version));
    var more := written[contribution.path := Stored(contribution)];
    AddKeepsPending(base.tables, base.versions, version, tx.tables, written.Keys, Head(base) + written, contribution);
    OverwriteLast(Head(base), written, contribution.path, Stored(contribution));
    assert Pending(base.tables, base.versions, version, after.tables, more.Keys, Head(base) + more);
  }

  /** closeMissingSources; the first version has nothing to close. */
  function CloseMissingSources(tx: GD.Database, version: Version, sources: Sources): GD.Database {
    if version > 1 then tx.(tables := ExecuteAll(tx.tables, CloseMissing(sources.Keys, version - 1))) else tx
  }

  lemma SessionCloses(base: GD.Database, version: Version, tx: GD.Database, sources: Sources,
          written: map<Path, Record>, nodes: GD.NodeTable, edges: GD.EdgeTable)
    requires InSession(base, version, tx, sources, written, nodes, edges, false)
    ensures InSession(base, version, CloseMissingSources(tx, version, sources), sources, written, nodes, edges, true)
  {
    if version > 1 {
      CloseMissingKeepsPending(base.tables, base.versions, version, tx.tables, written.Keys, Head(base) + written,
        sources.Keys);
    } else {
      assert base.versions == {};
      assert GD.HistoryOf(base) == map[];
      assert Restrict(Head(base) + written, sources.Keys) == Head(base) + written;
    }
  }

  lemma Rewritten<K, V>(before: map<Version, map<K, V>>, current: map<Version, map<K, V>>, version: Version,
          rows: map<K, V>, more: map<K, V>)
    requires WrittenAt(before, current, version, rows)
    ensures WrittenAt(before, current[version := more], version, more)
  {
    forall v | v != version
      ensures GD.At(current[version := more], v) == GD.At(before, v)
    {
      assert GD.At(current, v) == GD.At(before, v);
    }
  }

  lemma SessionWritesWorkspaceFacts(base: GD.Database, version: Version, tx: GD.Database, sources: Sources,
          written: map<Path, Record>, nodes: GD.NodeTable, edges: GD.EdgeTable, missingClosed: bool,
          moreNodes: GD.NodeTable, moreEdges: GD.EdgeTable)
    requires InSession(base, version, tx, sources, written, nodes, edges, missingClosed)
    ensures InSession(base, version,
                      tx.(workspaceNodes := tx.workspaceNodes[version := moreNodes],
                        workspaceEdges := tx.workspaceEdges[version := moreEdges]),
                      sources, written, moreNodes, moreEdges, missingClosed)
  {
    hide Pending, Next, Contents, Head, Marks, WrittenAt;
    var after :=
      tx.(workspaceNodes := tx.workspaceNodes[version := moreNodes],
      workspaceEdges := tx.workspaceEdges[version := moreEdges]);
    Rewritten(base.workspaceNodes, tx.workspaceNodes, version, nodes, moreNodes);
    Rewritten(base.workspaceEdges, tx.workspaceEdges, version, edges, moreEdges);
  }

  lemma RestrictUpdate<K, V>(m: map<K, V>, keys: set<K>, key: K, value: V)
    requires key in keys
    ensures Restrict(m[key := value], keys) == Restrict(m, keys)[key := value]
  {}

  lemma ContentsReplaced(head: map<Path, Record>, written: map<Path, Record>, sources: Sources, missingClosed: bool,
          path: Path, record: Record)
    requires Marks(sources, written) && path in written
    ensures path in Contents(head, written, sources, missingClosed)
    ensures Contents(head, written, sources, missingClosed)[path] == written[path]
    ensures Contents(head, written[path := record], sources, missingClosed)
         == Contents(head, written, sources, missingClosed)[path := record]
  {
    OverwriteLast(head, written, path, record);
    RestrictUpdate(head + written, sources.Keys, path, record);
    hide Restrict;
  }

  /** The transaction after the dependencies of some contributions have been replaced in turn. */
  function ReplacedAll(tx: GD.Database, contributions: seq<Contribution>, version: Version): GD.Database {
    tx.(tables := tx.tables[Dependencies := ReplaceAll(tx.tables[Dependencies], contributions, version)])
  }

  lemma SessionReplacesOne(base: GD.Database, version: Version, tx: GD.Database, sources: Sources,
          written: map<Path, Record>, nodes: GD.NodeTable, edges: GD.EdgeTable, missingClosed: bool,
            contribution: Contribution)
    requires InSession(base, version, tx, sources, written, nodes, edges, missingClosed) && contribution.path in written
    ensures InSession(base, version, tx.(tables := ReplaceIn(tx.tables, contribution, version)), sources,
                      written[contribution.path := WithDependencies(written[contribution.path], contribution)], nodes,
                        edges, missingClosed)
  {
    hide Pending, ReplaceIn, WithDependencies, Head, WrittenAt, Next, Contents;
    var path := contribution.path;
    var record := WithDependencies(written[path], contribution);
    assert Marks(sources, written[path := record]);
    assert written[path := record].Keys == written.Keys;
    hide Marks;
    ContentsReplaced(Head(base), written, sources, missingClosed, path, record);
    ReplaceKeepsPending(base.tables, base.versions, version, tx.tables, written.Keys,
                        Contents(Head(base), written, sources, missingClosed), contribution);
  }

  lemma ReplacedNext(tx: GD.Database, contributions: seq<Contribution>, version: Version)
    ensures contributions == [] ==> ReplacedAll(tx, contributions, version) == tx
    ensures contributions != [] ==>
      var before := ReplacedAll(tx, contributions[..|contributions| - 1], version);
      ReplacedAll(tx, contributions, version)
        == before.(tables := ReplaceIn(before.tables, contributions[|contributions| - 1], version))
  {
    hide Replace;
    if contributions == [] {
      assert ReplacedAll(tx, contributions, version).tables == tx.tables;
    } else {
      var before, last := ReplacedAll(tx, contributions[..|contributions| - 1], version),
        contributions[|contributions| - 1];
      assert ReplaceIn(before.tables, last, version) == ReplacedAll(tx, contributions, version).tables;
    }
  }

  lemma {:induction false} SessionReplaces(base: GD.Database, version: Version, tx: GD.Database, sources: Sources,
          written: map<Path, Record>, nodes: GD.NodeTable, edges: GD.EdgeTable, missingClosed: bool,
          contributions: seq<Contribution>)
    requires InSession(base, version, tx, sources, written, nodes, edges, missingClosed)
    requires forall i :: 0 <= i < |contributions| ==> contributions[i].path in written
    ensures InSession(base, version, ReplacedAll(tx, contributions, version), sources,
                      WithAllDependencies(written, contributions), nodes, edges, missingClosed)
  {
    hide InSession, WithDependencies, ReplacedAll, ReplaceIn;
    ReplacedNext(tx, contributions, version);
    if contributions != [] {
      var before, last := contributions[..|contributions| - 1], contributions[|contributions| - 1];
      SessionReplaces(base, version, tx, sources, written, nodes, edges, missingClosed, before);
      ReplacedPaths(written, before);
      assert last.path in WithAllDependencies(written, before);
      SessionReplacesOne(base, version, ReplacedAll(tx, before, version), sources,
        WithAllDependencies(written, before), nodes, edges, missingClosed, last);
    }
  }

  /** Committing publishes exactly the session's facts, through the same end as Publish. */
  lemma SessionCommits(base: GD.Database, version: Version, tx: GD.Database, sources: Sources,
          written: map<Path, Record>, nodes: GD.NodeTable, edges: GD.EdgeTable)
    requires GD.Valid(base) && InSession(base, version, tx, sources, written, nodes, edges, true)
    ensures var work := SessionWork(sources.Keys, written, nodes, edges);
      && Refines(GD.Finish(tx, version),
        GD.Append(GD.HistoryOf(base), SessionFacts(GD.HeadFacts(GD.HistoryOf(base)), work)))
      && CommitsWith(base, work, tx, Committed(base, GD.Finish(tx, version)))
  {
    var work := SessionWork(sources.Keys, written, nodes, edges);
    FinishRefines(base, version, tx, written.Keys, SessionFacts(GD.HeadFacts(GD.HistoryOf(base)), work));
  }
}
