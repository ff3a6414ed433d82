/** A contribution session: one long transaction that stages sources, writes contributions and workspace
    facts, answers resolver reads against its own pending version, and commits or vanishes. */
module ContributionSession {
  import opened Wrappers
  import opened ContributionTables
  import opened ContributionHistory
  import GD = GraphDatabase
  import opened GraphRefinement
  import opened StoreRuns
  import opened SqlTransaction
  import opened PublicationBatch
  import opened ProjectionCache
  import opened GraphStore
  import opened ContributionSessionFacts
  import opened ResolverTargets
  import opened SealedSession
  import opened DependencyReplacement
  import opened StoredFacts

  /** What ReplaceContributionDependencies asks of its argument: written sources, each named once. */
  predicate Replaceable(sources: Sources, contributions: seq<Contribution>) {
    && DistinctPaths(contributions)
    && forall i :: 0 <= i < |contributions| ==> contributions[i].path in sources && sources[contributions[i].path]
  }

  /** What a commit publishes for one path. */
  lemma CommittedPath(head: GD.VersionFacts, work: SessionWork, path: Path)
    ensures var facts := SessionFacts(head, work).contributions;
      && (path !in work.staged ==> path !in facts)
      && (path in work.staged && path in work.written ==> path in facts && facts[path] == work.written[path])
      && (path in work.staged && path !in work.written ==>
        (path in facts <==> path in head.contributions) && (path in facts ==> facts[path] == head.contributions[path]))
  {}

  lemma CommittedVersion(base: GD.Database, facts: GD.VersionFacts, after: GD.Database)
    requires GD.Append(GD.HistoryOf(base), facts) == Ok(GD.HistoryOf(after))
    ensures GD.FactsAt(after, GD.Newest(base.versions) + 1) == facts
    ensures KeepsVersions(base, after, Exactly(GD.Newest(base.versions) + 1))
  {
    hide GD.Append, GD.FactsAt, GD.HistoryOf, KeepsVersions;
    AppendKeepsVersions(base, after, facts);
    AppendedHead(GD.HistoryOf(base), facts, after);
    VersionsOf(base);
  }

  // ----- the session ------------------------------------------------------------------------

  function Virtual(db: GD.Database, buffers: Buffers): GD.Database {
    db.(tables := Flushed(db.tables, buffers))
  }

  /** The buffered rows can be inserted and belong to written paths; with them the transaction holds what
      the session has done. */
  ghost predicate Consistent(base: GD.Database, version: Version, db: GD.Database, buffers: Buffers, sources: Sources,
          written: map<Path, Record>, nodes: GD.NodeTable, edges: GD.EdgeTable, missingClosed: bool) {
    && Fits(db.tables, buffers, [])
    && (forall path :: Buffered(buffers, path) ==> path in written)
    && InSession(base, version, Virtual(db, buffers), sources, written, nodes, edges, missingClosed)
  }

  /** Nothing waits in any buffer. */
  ghost predicate Drained(buffers: Buffers) {
    buffers == EMPTY_BUFFERS
  }

  lemma VirtualWhenEmpty(db: GD.Database)
    ensures Virtual(db, EMPTY_BUFFERS) == db
  {
    NothingToFlush(db.tables);
  }

  lemma ConsistentWhenEmpty(base: GD.Database, version: Version, db: GD.Database, sources: Sources,
          written: map<Path, Record>,
          nodes: GD.NodeTable, edges: GD.EdgeTable, missingClosed: bool)
    ensures Consistent(base, version, db, EMPTY_BUFFERS, sources, written, nodes, edges, missingClosed)
       <==> InSession(base, version, db, sources, written, nodes, edges, missingClosed)
  {
    VirtualWhenEmpty(db);
    NothingWaiting(db.tables);
    NothingBuffered();
    hide Fits, Buffered, InSession;
  }

  /** A staged, unwritten source can join the buffers. */
  lemma JoinsSession(base: GD.Database, version: Version, db: GD.Database, buffers: Buffers, sources: Sources,
          written: map<Path, Record>, nodes: GD.NodeTable, edges: GD.EdgeTable, contribution: Contribution)
    requires Consistent(base, version, db, buffers, sources, written, nodes, edges, false)
    requires contribution.WellFormed() && contribution.path in sources && !sources[contribution.path]
    ensures !Buffered(buffers, contribution.path)
    ensures Fits(db.tables, buffers, PreparedRows(contribution, version)[FileContributions])
  {
    hide Flushed, Fits, PreparedRows, LockStep, Bounded, Superseded, Snapshot, WrittenAt, Contents, Buffered;
    assert OnlyHeaders(Flushed(db.tables, buffers), version, written.Keys);
    NewPathFits(db.tables, buffers, contribution, version, written.Keys);
  }

  lemma ConsistentWrite(base: GD.Database, version: Version, db: GD.Database, buffers: Buffers, after: GD.Database,
          later: Buffers,
          sources: Sources, written: map<Path, Record>, nodes: GD.NodeTable, edges: GD.EdgeTable,
            contribution: Contribution)
    requires Consistent(base, version, db, buffers, sources, written, nodes, edges, false)
    requires contribution.WellFormed() && contribution.path in sources && !sources[contribution.path]
    requires after == db.(tables := after.tables)
    requires Flushed(after.tables, later) == AddContribution(Flushed(db.tables, buffers), contribution, version)
    requires forall path :: Buffered(later, path) ==> path == contribution.path || Buffered(buffers, path)
    requires Fits(after.tables, later, [])
    ensures Consistent(base, version, after, later, sources[contribution.path := true],
                       written[contribution.path := Stored(contribution)], nodes, edges, false)
  {
    hide InSession, Flushed, AddContribution, Stored, Buffered, Contribution.WellFormed, Fits;
    SessionWrites(base, version, Virtual(db, buffers), sources, written, nodes, edges, contribution);
  }

  lemma ConsistentReplacement(base: GD.Database, version: Version, db: GD.Database, buffers: Buffers, sources: Sources,
          written: map<Path, Record>,
          nodes: GD.NodeTable, edges: GD.EdgeTable, missingClosed: bool, contributions: seq<Contribution>)
    requires Drained(buffers) && Consistent(base, version, db, buffers, sources, written, nodes, edges, missingClosed)
    requires Replaceable(sources, contributions)
    ensures Consistent(base, version, ReplacedAll(db, contributions, version), buffers, sources,
                       WithAllDependencies(written, contributions), nodes, edges, missingClosed)
  {
    ConsistentWhenEmpty(base, version, db, sources, written, nodes, edges, missingClosed);
    assert forall i :: 0 <= i < |contributions| ==> contributions[i].path in written;
    hide InSession, Consistent, WithAllDependencies, ReplacedAll;
    SessionReplaces(base, version, db, sources, written, nodes, edges, missingClosed, contributions);
    ConsistentWhenEmpty(base, version, ReplacedAll(db, contributions, version), sources,
                        WithAllDependencies(written, contributions), nodes, edges, missingClosed);
  }

  function WithFacts(db: GD.Database, version: Version, nodes: GD.NodeTable, edges: GD.EdgeTable): GD.Database {
    db.(workspaceNodes := db.workspaceNodes[version := nodes], workspaceEdges := db.workspaceEdges[version := edges])
  }

  lemma ConsistentFacts(base: GD.Database, version: Version, db: GD.Database, buffers: Buffers, sources: Sources,
          written: map<Path, Record>,
          nodes: GD.NodeTable, edges: GD.EdgeTable, missingClosed: bool, moreNodes: GD.NodeTable,
            moreEdges: GD.EdgeTable)
    requires Drained(buffers) && Consistent(base, version, db, buffers, sources, written, nodes, edges, missingClosed)
    ensures GD.At(db.workspaceNodes, version) == nodes && GD.At(db.workspaceEdges, version) == edges
    ensures Consistent(base, version, WithFacts(db, version, moreNodes, moreEdges), buffers, sources, written,
                       moreNodes, moreEdges, missingClosed)
  {
    ConsistentWhenEmpty(base, version, db, sources, written, nodes, edges, missingClosed);
    PendingWorkspaceFacts(base, version, db, sources, written, nodes, edges, missingClosed);
    hide InSession, Consistent;
    SessionWritesWorkspaceFacts(base, version, db, sources, written, nodes, edges, missingClosed, moreNodes, moreEdges);
    ConsistentWhenEmpty(base, version, WithFacts(db, version, moreNodes, moreEdges), sources, written, moreNodes,
      moreEdges, missingClosed);
  }

  class Session {
    const store: Store
    const workspace: string
    const base: GD.Database
    const pendingVersion: Version
    const tx: Transaction
    const writer: Writer
    /** contribution_session_sources */
    var sources: Sources
    var sealed: bool
    var missingSourcesClosed: bool
    var workspaceFactsWritten: bool
    var workspaceFactsSealed: bool
    var closed: bool
    ghost var written: map<Path, Record>
    ghost var nodes: GD.NodeTable
    ghost var edges: GD.EdgeTable

    /** What a commit of the session as it is now would publish. */
    ghost function Work(): SessionWork
      reads this
    {
      SessionWork(sources.Keys, written, nodes, edges)
    }

    ghost function Pending(): GD.VersionFacts
      reads this
    {
      SessionFacts(GD.HeadFacts(GD.HistoryOf(base)), Work())
    }

    ghost predicate Writable()
      reads this, tx, writer
    {
      && tx.WithinVariableLimit() && writer.Valid()
      && Consistent(base, pendingVersion, tx.db, writer.buffers, sources, written, nodes, edges, missingSourcesClosed)
    }

    ghost predicate Flags()
      reads this, writer
    {
      && (sealed ==> Drained(writer.buffers))
      && (missingSourcesClosed ==> sealed)
      && (workspaceFactsWritten ==> sealed)
      && (workspaceFactsSealed ==> missingSourcesClosed)
    }

    ghost predicate Valid()
      reads this, tx, writer
    {
      && GD.Valid(base) && pendingVersion == GD.Newest(base.versions) + 1
      && (!closed ==> Writable() && Flags())
    }

    /** BeginContributionSession */
    constructor (store: Store, workspace: string, limits: BatchLimits, reliable: bool)
      requires store.Valid() && workspace != ""
      ensures Valid() && !closed && !sealed && !workspaceFactsWritten
      ensures fresh(tx) && fresh(writer) && tx.reliable == reliable && tx.variableLimit == store.variableLimit
      ensures this.store == store && this.workspace == workspace && base == store.Workspace(workspace)
      ensures Work() == SessionWork({}, map[], map[], map[])
    {
      var before := store.Workspace(workspace);
      EmptyIsValid();
      this.store, this.workspace, base := store, workspace, before;
      pendingVersion := GD.Newest(before.versions) + 1;
      tx := new Transaction(before, store.variableLimit, reliable);
      writer := new Writer(limits, store.width);
      sources, written, nodes, edges := map[], map[], map[], map[];
      sealed, missingSourcesClosed, workspaceFactsWritten, workspaceFactsSealed, closed := false, false, false, false,
        false;
      new;
      NothingToFlush(before.tables);
      NothingBuffered();
      SessionBegins(before);
    }

    method StageSource(path: Path) returns (outcome: Outcome<GD.StoreError>)
      requires Valid()
      modifies `sources, `closed
      ensures Valid()
      ensures old(closed || sealed) ==>
        outcome == Fail(GD.InvalidRequest) && closed == old(closed) && sources == old(sources)
      ensures !old(closed || sealed) ==> closed == outcome.Fail?
      ensures !old(closed || sealed) && (path == "" || path in old(sources)) ==> outcome.Fail?
      ensures outcome.Pass? ==> sources == old(sources)[path := false]
      ensures tx.reliable && !old(closed || sealed) && path != "" && path !in old(sources) ==> outcome.Pass?
    {
      hide InSession, GD.Valid, Writer.Valid;
      if closed || sealed {
        return Fail(GD.InvalidRequest);
      }
      var busy: bool := *;
      if path == "" || path in sources || (busy && !tx.reliable) {
        closed := true;
        return Fail(if path == "" then GD.InvalidRequest else GD.Unavailable);
      }
      SessionStages(base, pendingVersion, Virtual(tx.db, writer.buffers), sources, written, nodes, edges, path);
      sources := sources[path := false];
      return Pass;
    }

    /** The session remembers what its transaction now holds. */
    method KeepWritten(marked: Sources, ghost more: map<Path, Record>)
      requires !closed && GD.Valid(base) && pendingVersion == GD.Newest(base.versions) + 1 && Flags()
      requires tx.WithinVariableLimit() && writer.Valid()
      requires Consistent(base, pendingVersion, tx.db, writer.buffers, marked, more, nodes, edges, missingSourcesClosed)
      modifies `sources, `written
      ensures Valid() && sources == marked && written == more
    {
      hide Consistent, Drained, Writer.Valid, GD.Valid, Transaction.WithinVariableLimit;
      sources, written := marked, more;
    }

    /** What WriteContribution does to the transaction once the source is known to be staged and unwritten. */
    method AddToBatch(contribution: Contribution) returns (outcome: Outcome<GD.StoreError>)
      requires Writable() && !missingSourcesClosed && contribution.WellFormed()
      requires contribution.path in sources && !sources[contribution.path]
      modifies tx, writer
      ensures tx.WithinVariableLimit()
      ensures outcome.Pass? ==> writer.Valid() && Consistent(base, pendingVersion, tx.db, writer.buffers,
        sources[contribution.path := true], written[contribution.path := Stored(contribution)], nodes, edges, false)
      ensures tx.Dependable() ==> outcome.Pass?
    {
      hide Consistent, Writer.Valid, Writer.State, Flushed, AddContribution, Stored, Buffered, Contribution.WellFormed;
      hide FlushesSince, TotalRows, TotalBytes, PreparedRows, Fits, Joined, Transaction.WithinVariableLimit;
      JoinsSession(base, pendingVersion, tx.db, writer.buffers, sources, written, nodes, edges, contribution);
      outcome := writer.Add(tx, contribution, pendingVersion);
      if outcome.Pass? {
        ConsistentWrite(base, pendingVersion, old(tx.db), old(writer.buffers), tx.db, writer.buffers, sources, written,
          nodes, edges, contribution);
      }
    }

    method WriteContribution(contribution: Contribution) returns (outcome: Outcome<GD.StoreError>)
      requires Valid() && contribution.WellFormed()
      modifies `sources, `closed, `written, tx, writer
      ensures Valid()
      ensures old(closed || sealed) ==>
        outcome == Fail(GD.InvalidRequest) && closed == old(closed) && Work() == old(Work())
      ensures !old(closed || sealed) ==> closed == outcome.Fail?
      ensures outcome.Pass? ==>
        && contribution.path in old(sources) && !old(sources)[contribution.path]
        && sources == old(sources)[contribution.path := true]
        && written == old(written)[contribution.path := Stored(contribution)]
        && HoldsFacts(written[contribution.path], contribution.facts)
      ensures tx.Dependable() && !old(closed || sealed) ==>
        contribution.path in old(sources) && !old(sources)[contribution.path] ==> outcome.Pass?
    {
      if closed || sealed {
        return Fail(GD.InvalidRequest);
      }
      if contribution.path !in sources || sources[contribution.path] {
        closed := true;
        return Fail(GD.InvalidRequest);
      }
      StoredHolds(contribution);
      hide Valid, Stored, Contribution.WellFormed, HoldsFacts;
      outcome := WriteUnwritten(contribution);
    }

    /** What WriteContribution does once the source is known to be staged and unwritten. */
    method WriteUnwritten(contribution: Contribution) returns (outcome: Outcome<GD.StoreError>)
      requires Valid() && !closed && !sealed && contribution.WellFormed()
      requires contribution.path in sources && !sources[contribution.path]
      modifies `sources, `closed, `written, tx, writer
      ensures Valid() && closed == outcome.Fail?
      ensures outcome.Pass? ==>
        && sources == old(sources)[contribution.path := true]
        && written == old(written)[contribution.path := Stored(contribution)]
      ensures tx.Dependable() ==> outcome.Pass?
    {
      hide Consistent, Drained, Writer.Valid, GD.Valid, Stored, Contribution.WellFormed,
        Transaction.WithinVariableLimit;
      outcome := AddToBatch(contribution);
      if outcome.Fail? {
        closed := true;
        return;
      }
      KeepWritten(sources[contribution.path := true], written[contribution.path := Stored(contribution)]);
    }

    method FlushBuffers() returns (outcome: Outcome<GD.StoreError>)
      requires Valid() && !closed
      modifies `closed, tx, writer
      ensures Valid() && closed == outcome.Fail?
      ensures outcome.Pass? ==> Drained(writer.buffers)
      ensures tx.Dependable() ==> outcome.Pass?
    {
      hide InSession, GD.Valid, Flushed, Buffered, Fits, Joined, Writer.Valid, TotalRows, TotalBytes,
        Transaction.WithinVariableLimit;
      ghost var before := Virtual(tx.db, writer.buffers);
      outcome := writer.Flush(tx, []);
      if outcome.Fail? {
        closed := true;
        return;
      }
      NothingToFlush(tx.db.tables);
      NothingBuffered();
      EmptyIsCounted();
      assert Virtual(tx.db, writer.buffers) == before;
    }

    lemma EmptyIsCounted()
      requires writer.rowCount == writer.estimatedBytes == writer.sourceCount == 0
      requires writer.buffers == EMPTY_BUFFERS
      ensures writer.Valid()
    {}

    method SealContributions() returns (outcome: Outcome<GD.StoreError>)
      requires Valid()
      modifies `sealed, `closed, tx, writer
      ensures Valid()
      ensures old(closed) ==> outcome == Fail(GD.InvalidRequest) && closed
      ensures !old(closed) ==> closed == outcome.Fail?
      ensures outcome.Pass? ==> sealed
      ensures tx.Dependable() && !old(closed) ==> outcome.Pass?
      ensures old(sealed) ==> sealed
    {
      hide InSession, GD.Valid, Writer.Valid;
      if closed {
        return Fail(GD.InvalidRequest);
      }
      if sealed {
        return Pass;
      }
      outcome := FlushBuffers();
      if outcome.Pass? {
        sealed := true;
      }
    }

    method CheckReplaceable(contributions: seq<Contribution>) returns (outcome: Outcome<GD.StoreError>)
      ensures outcome.Pass? ==> Replaceable(sources, contributions)
      ensures tx.reliable && Replaceable(sources, contributions) ==> outcome.Pass?
    {
      var updated: set<Path> := {};
      for i := 0 to |contributions|
        invariant Replaceable(sources, contributions[..i])
        invariant updated == set j | 0 <= j < i :: contributions[j].path
      {
        var path, busy: bool := contributions[i].path, *;
        if busy && !tx.reliable {
          return Fail(GD.Unavailable);
        }
        if path !in sources || !sources[path] || path in updated {
          return Fail(GD.InvalidRequest);
        }
        updated := updated + {path};
      }
      assert contributions[..|contributions|] == contributions;
      return Pass;
    }

    /** One DELETE statement per contribution. */
    method DeleteDependencies(contributions: seq<Contribution>) returns (outcome: Outcome<GD.StoreError>)
      modifies tx`db
      ensures outcome.Pass? ==>
        tx.db == WithRows(old(tx.db), Dependencies,
          WithoutAll(old(tx.db.tables[Dependencies]), contributions, pendingVersion))
      ensures tx.reliable ==> outcome.Pass?
    {
      hide Without;
      var rows := tx.db.tables[Dependencies];
      for i := 0 to |contributions|
        invariant rows == WithoutAll(old(tx.db.tables[Dependencies]), contributions[..i], pendingVersion)
        modifies {}
      {
        var busy: bool := *;
        if busy && !tx.reliable {
          return Fail(GD.Unavailable);
        }
        assert contributions[..i + 1][..i] == contributions[..i];
        rows := Without(rows, contributions[i].path, pendingVersion);
      }
      assert contributions[..|contributions|] == contributions;
      tx.db := WithRows(tx.db, Dependencies, rows);
      return Pass;
    }

    method ListDependencies(contributions: seq<Contribution>) returns (rows: seq<Row>)
      ensures rows == DependencyRows(contributions, pendingVersion)
    {
      hide Contribution.Rows;
      rows := [];
      for i := 0 to |contributions|
        invariant rows == DependencyRows(contributions[..i], pendingVersion)
      {
        assert contributions[..i + 1][..i] == contributions[..i];
        rows := rows + contributions[i].Rows(Dependencies, pendingVersion);
      }
      assert contributions[..|contributions|] == contributions;
    }

    /** The DELETE statements, then one batch of INSERT statements. */
    method RewriteDependencies(contributions: seq<Contribution>) returns (outcome: Outcome<GD.StoreError>)
      requires tx.WithinVariableLimit() && DistinctPaths(contributions)
      modifies tx
      ensures tx.WithinVariableLimit()
      ensures outcome.Pass? ==> tx.db == ReplacedAll(old(tx.db), contributions, pendingVersion)
      ensures tx.Dependable() ==> outcome.Pass?
    {
      hide ReplaceAll, InsertAll, WithoutAll, DependencyRows, KeysFree, JoinedAt;
      DeleteAllThenInsert(tx.db.tables[Dependencies], contributions, pendingVersion);
      RowsTwice(tx.db, Dependencies, WithoutAll(tx.db.tables[Dependencies], contributions, pendingVersion),
                ReplaceAll(tx.db.tables[Dependencies], contributions, pendingVersion));
      outcome := DeleteDependencies(contributions);
      if outcome.Fail? {
        return;
      }
      var rows := ListDependencies(contributions);
      hide WithRows;
      outcome := tx.InsertRows(Dependencies, MAXIMUM_BATCH_ROWS, rows);
    }

    /** What ReplaceContributionDependencies does to the transaction once its argument has passed the checks. */
    method ReplaceWritten(contributions: seq<Contribution>) returns (outcome: Outcome<GD.StoreError>)
      requires Writable() && Drained(writer.buffers) && Replaceable(sources, contributions)
      modifies tx
      ensures tx.WithinVariableLimit()
      ensures outcome.Pass? ==> Consistent(base, pendingVersion, tx.db, writer.buffers,
        sources, WithAllDependencies(written, contributions), nodes, edges, missingSourcesClosed)
      ensures tx.Dependable() ==> outcome.Pass?
    {
      assert DistinctPaths(contributions);
      hide Consistent, Drained, Writer.Valid, ReplacedAll, WithAllDependencies, Transaction.WithinVariableLimit,
        DistinctPaths, Replaceable;
      ConsistentReplacement(base, pendingVersion, tx.db, writer.buffers, sources, written, nodes, edges,
        missingSourcesClosed, contributions);
      outcome := RewriteDependencies(contributions);
    }

    /** The records written so far keep everything but their dependencies. */
    method ReplaceContributionDependencies(contributions: seq<Contribution>) returns (outcome: Outcome<GD.StoreError>)
      requires Valid()
      modifies `closed, `sources, `written, tx
      ensures Valid()
      ensures old(closed || !sealed) ==>
        outcome == Fail(GD.InvalidRequest) && closed == old(closed) && Work() == old(Work())
      ensures !old(closed || !sealed) ==> closed == outcome.Fail?
      ensures sources == old(sources)
      ensures outcome.Pass? ==>
        && Replaceable(sources, contributions) && Work() == AfterStep(old(Work()), Replacement(contributions))
        && DependenciesReplaced(old(written), contributions, written)
      ensures tx.Dependable() && !old(closed || !sealed) && Replaceable(sources, contributions) ==> outcome.Pass?
    {
      if closed || !sealed {
        return Fail(GD.InvalidRequest);
      }
      outcome := CheckReplaceable(contributions);
      if outcome.Fail? {
        closed := true;
        return;
      }
      ReplacementHolds(written, contributions);
      hide Valid, Replaceable, DependenciesReplaced;
      outcome := ReplaceChecked(contributions);
    }

    method ReplaceChecked(contributions: seq<Contribution>) returns (outcome: Outcome<GD.StoreError>)
      requires Valid() && !closed && sealed && Replaceable(sources, contributions)
      modifies `closed, `sources, `written, tx
      ensures Valid() && closed == outcome.Fail? && sources == old(sources)
      ensures outcome.Pass? ==> Work() == AfterStep(old(Work()), Replacement(contributions))
      ensures tx.Dependable() ==> outcome.Pass?
    {
      hide Consistent, Drained, Writer.Valid, GD.Valid, WithAllDependencies, Transaction.WithinVariableLimit,
        Replaceable;
      outcome := ReplaceWritten(contributions);
      if outcome.Fail? {
        closed := true;
        return;
      }
      KeepWritten(sources, WithAllDependencies(written, contributions));
    }

    method StoreMoreFacts(moreNodes: seq<GD.WorkspaceNode>, moreEdges: seq<GD.WorkspaceEdge>)
      requires Valid() && !closed && sealed && !workspaceFactsSealed
      modifies `workspaceFactsWritten, `nodes, `edges, tx`db
      ensures Valid() && workspaceFactsWritten && Work() == AfterStep(old(Work()), FactsWritten(moreNodes, moreEdges))
      ensures NodesAdded(old(nodes), moreNodes, nodes) && EdgesAdded(old(edges), moreEdges, edges)
    {
      hide GD.At, GD.Newest, Consistent, Drained, GD.Valid, Writer.Valid, GD.StoreNodes, GD.StoreEdges, WithFacts,
        NodesAdded, EdgesAdded;
      InsertionsAdd(nodes, moreNodes, edges, moreEdges);
      ConsistentFacts(base, pendingVersion, tx.db, writer.buffers, sources, written, nodes, edges, missingSourcesClosed,
                      GD.StoreNodes(nodes, moreNodes), GD.StoreEdges(edges, moreEdges));
      var nodeRows := GraphStore.StoreNodes(GD.At(tx.db.workspaceNodes, pendingVersion), moreNodes);
      var edgeRows := GraphStore.StoreEdges(GD.At(tx.db.workspaceEdges, pendingVersion), moreEdges);
      tx.db := WithFacts(tx.db, pendingVersion, nodeRows, edgeRows);
      nodes, edges := nodeRows, edgeRows;
      workspaceFactsWritten := true;
    }

    /** A fact over the session's byte limit counts as a statement the database does not answer. */
    method WriteWorkspaceFacts(moreNodes: seq<GD.WorkspaceNode>,
            moreEdges: seq<GD.WorkspaceEdge>) returns (outcome: Outcome<GD.StoreError>)
      requires Valid()
      modifies `workspaceFactsWritten, `closed, `nodes, `edges, tx`db
      ensures Valid()
      ensures old(closed || !sealed || workspaceFactsSealed) ==>
        outcome == Fail(GD.InvalidRequest) && closed == old(closed) && Work() == old(Work())
      ensures !old(closed || !sealed || workspaceFactsSealed) ==> closed == outcome.Fail?
      ensures outcome.Pass? ==>
        && workspaceFactsWritten && Work() == AfterStep(old(Work()), FactsWritten(moreNodes, moreEdges))
        && NodesAdded(old(nodes), moreNodes, nodes) && EdgesAdded(old(edges), moreEdges, edges)
      ensures tx.reliable && !old(closed || !sealed || workspaceFactsSealed) ==> outcome.Pass?
    {
      if closed || !sealed || workspaceFactsSealed {
        return Fail(GD.InvalidRequest);
      }
      var busy: bool := *;
      if busy && !tx.reliable {
        closed := true;
        return Fail(GD.Unavailable);
      }
      hide Valid, AfterStep, NodesAdded, EdgesAdded;
      StoreMoreFacts(moreNodes, moreEdges);
      return Pass;
    }

    /** closeMissingSources */
    method CloseUnstaged() returns (outcome: Outcome<GD.StoreError>)
      requires Valid() && !closed && Drained(writer.buffers)
      modifies `missingSourcesClosed, `closed, tx`db
      ensures GD.Valid(base) && pendingVersion == GD.Newest(base.versions) + 1
      ensures closed == outcome.Fail?
      ensures outcome.Pass? ==> Writable() && missingSourcesClosed
      ensures tx.reliable ==> outcome.Pass?
    {
      hide InSession, GD.Valid, Writer.Valid;
      NothingToFlush(tx.db.tables);
      if missingSourcesClosed {
        return Pass;
      }
      var busy: bool := *;
      if busy && !tx.reliable && pendingVersion > 1 {
        closed := true;
        return Fail(GD.Unavailable);
      }
      SessionCloses(base, pendingVersion, tx.db, sources, written, nodes, edges);
      if pendingVersion > 1 {
        tx.ExecuteOnAll(CloseMissing(sources.Keys, pendingVersion - 1));
      }
      NothingToFlush(tx.db.tables);
      missingSourcesClosed := true;
      return Pass;
    }

    method SealWorkspaceFacts() returns (result: Result<(nat, nat), GD.StoreError>)
      requires Valid()
      modifies `missingSourcesClosed, `workspaceFactsSealed, `closed, tx`db
      ensures Valid()
      ensures old(closed || !sealed) ==> result == Err(GD.InvalidRequest) && closed == old(closed)
      ensures !old(closed || !sealed) ==> closed == result.Err?
      ensures result.Ok? ==> workspaceFactsSealed && missingSourcesClosed && result.value == (|nodes|, |edges|)
      ensures tx.reliable && !old(closed || !sealed) ==> result.Ok?
    {
      hide InSession, GD.Valid, Writer.Valid, Buffered, Flushed;
      if closed || !sealed {
        return Err(GD.InvalidRequest);
      }
      var outcome := CloseUnstaged();
      if outcome.Fail? {
        return Err(outcome.error);
      }
      PendingWorkspaceFacts(base, pendingVersion, Virtual(tx.db, writer.buffers), sources, written, nodes, edges,
        missingSourcesClosed);
      workspaceFactsSealed := true;
      return Ok((|GD.At(tx.db.workspaceNodes, pendingVersion)|, |GD.At(tx.db.workspaceEdges, pendingVersion)|));
    }

    /** Everything Commit does before it commits its transaction. */
    method Conclude() returns (outcome: Outcome<GD.StoreError>)
      requires Valid() && !closed
      modifies `missingSourcesClosed, `closed, tx, writer
      ensures Valid() && closed
      ensures outcome.Pass? ==>
        && GD.Valid(tx.db) && GD.Append(GD.HistoryOf(base), old(Pending())) == Ok(GD.HistoryOf(tx.db))
        && exists written :: CommitsWith(base, old(Work()), written, tx.db)
      ensures tx.Dependable() && outcome.Fail? ==> GD.Append(GD.HistoryOf(base), old(Pending())) == Err(outcome.error)
    {
      hide InSession, GD.Valid, Writer.Valid, Buffered, Flushed, GD.Finish, GD.Append, GD.HistoryOf, GD.HeadFacts,
        SessionFacts, CommitsWith, GD.Prune;
      outcome := FlushBuffers();
      if outcome.Fail? {
        return;
      }
      outcome := CloseUnstaged();
      if outcome.Fail? {
        return;
      }
      NothingToFlush(tx.db.tables);
      SessionCommits(base, pendingVersion, tx.db, sources, written, nodes, edges);
      outcome := FinishPublication(tx, pendingVersion);
      closed := true;
    }

    /** COMMIT of the session's transaction. */
    method InstallCopy(ghost facts: GD.VersionFacts)
      requires store.Valid() && store.Workspace(workspace) == base && GD.Valid(tx.db)
      requires pendingVersion == GD.Newest(base.versions) + 1
      requires GD.Append(GD.HistoryOf(base), facts) == Ok(GD.HistoryOf(tx.db))
      modifies store`databases, store.cache
      ensures store.Valid() && store.databases == old(store.databases)[workspace := tx.db]
      ensures store.Workspace(workspace) == tx.db && GD.FactsAt(tx.db, pendingVersion) == facts
    {
      hide *;
      hide GD.Valid, GD.Append, GD.HistoryOf, GD.FactsAt, GD.Newest, Store.Valid, Store.Workspace;
      CommittedVersion(base, facts, tx.db);
      store.Install(workspace, tx.db, Exactly(pendingVersion));
    }

    /** A commit publishes exactly the session's facts as the next version; a session that fails leaves
        the store as it was. */
    method Commit() returns (result: Result<Version, GD.StoreError>)
      requires Valid() && store.Valid()
      modifies `missingSourcesClosed, `closed, tx, writer, store`databases, store.cache
      ensures Valid() && store.Valid()
      ensures old(closed) || (old(workspaceFactsWritten) && !old(workspaceFactsSealed)) ==>
        result == Err(GD.InvalidRequest) && closed == old(closed)
      ensures result.Err? ==> store.databases == old(store.databases) && store.cache.entries == old(store.cache.entries)
      ensures result.Ok? ==>
        && closed && result.value == pendingVersion
        && old(store.Workspace(workspace)) == base
        && store.databases == old(store.databases)[workspace := store.Workspace(workspace)]
        && GD.Append(GD.HistoryOf(base), old(Pending())) == Ok(GD.HistoryOf(store.Workspace(workspace)))
        && GD.FactsAt(store.Workspace(workspace), result.value) == old(Pending())
        && (exists committed :: CommitsWith(base, old(Work()), committed, store.Workspace(workspace)))
      ensures result.Err? && tx.Dependable() && !old(closed || (workspaceFactsWritten && !workspaceFactsSealed)) ==>
        old(store.Workspace(workspace)) == base ==>
        GD.Append(GD.HistoryOf(base), old(Pending())) == Err(result.error)
    {
      assert pendingVersion == GD.Newest(base.versions) + 1;
      hide *;
      hide Valid, Pending, Work, GD.Valid, GD.Append, GD.HistoryOf, GD.FactsAt, Store.Valid, Store.Workspace,
        Transaction.Dependable;
      if closed || (workspaceFactsWritten && !workspaceFactsSealed) {
        return Err(GD.InvalidRequest);
      }
      var outcome := Conclude();
      if outcome.Fail? {
        return Err(outcome.error);
      }
      var unavailable: bool := *;
      if (unavailable && !tx.reliable) || store.Workspace(workspace) != base {
        return Err(GD.Unavailable);
      }
      InstallCopy(old(Pending()));
      return Ok(pendingVersion);
    }

    method Rollback()
      requires Valid()
      modifies `closed
      ensures Valid() && closed
    {
      closed := true;
    }

    /** An open sealed session answers as the store will for the version its commit publishes. */
    method ResolverTarget(workspace: string, request: TargetRequest)
      returns (result: Result<Option<Target>, GD.StoreError>)
      requires Valid()
      ensures closed || !sealed || workspace != this.workspace ==> result == Err(GD.InvalidRequest)
      ensures request.projectId == "" || request.language == "" || request.path == "" ==>
        result == Err(GD.InvalidRequest)
      ensures tx.reliable && !closed && sealed && workspace == this.workspace && result.Err? ==>
        request.projectId == "" || request.language == "" || request.path == ""
      ensures result.Ok? ==>
        result.value == TargetIn(Pending().contributions, request)
        && Answers(Pending().contributions, request, result.value)
    {
      if closed || !sealed || workspace != this.workspace || request.Incomplete() {
        return Err(GD.InvalidRequest);
      }
      var busy: bool := *;
      if busy && !tx.reliable {
        return Err(GD.Unavailable);
      }
      TargetAnswers(Pending().contributions, request);
      hide Answers;
      if request.path !in sources {
        UnstagedTarget(Head(base) + written, sources, request);
        return Ok(None);
      }
      NothingToFlush(tx.db.tables);
      StagedTarget(Head(base), written, sources, missingSourcesClosed, request);
      var target := ReadTarget(tx.db.tables, pendingVersion, request);
      return Ok(target);
    }
  }

  /** BeginContributionSession: the session works on what is committed when it begins. */
  method BeginContributionSession(store: Store, workspace: string, limits: BatchLimits, reliable: bool)
    returns (outcome: Outcome<GD.StoreError>, session: Session?)
    requires store.Valid()
    ensures workspace == "" ==> outcome == Fail(GD.InvalidRequest)
    ensures reliable && workspace != "" ==> outcome.Pass?
    ensures outcome.Pass? ==>
      && session != null && fresh(session) && session.Valid() && !session.closed && !session.sealed
      && session.store == store && session.workspace == workspace && session.base == store.Workspace(workspace)
      && session.Work() == SessionWork({}, map[], map[], map[])
  {
    var busy: bool := *;
    if workspace == "" || (busy && !reliable) {
      return Fail(if workspace == "" then GD.InvalidRequest else GD.Unavailable), null;
    }
    session := new Session(store, workspace, limits, reliable);
    outcome := Pass;
  }

  lemma PendingWorkspaceFacts(base: GD.Database, version: Version, tx: GD.Database, sources: Sources,
          written: map<Path, Record>, nodes: GD.NodeTable, edges: GD.EdgeTable, missingClosed: bool)
    requires InSession(base, version, tx, sources, written, nodes, edges, missingClosed)
    ensures GD.At(tx.workspaceNodes, version) == nodes && GD.At(tx.workspaceEdges, version) == edges
  {}
}
