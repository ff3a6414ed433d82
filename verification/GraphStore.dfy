/** The store object: committed tables per workspace, changed by whole transactions, and the cache of
    resolver projections kept beside them. */
module GraphStore {
  import opened Wrappers
  import opened ContributionTables
  import opened ContributionHistory
  import GD = GraphDatabase
  import opened GraphRefinement
  import opened StoreRuns
  import opened SqlTransaction
  import opened PublicationBatch
  import opened ProjectionCache
  import opened ResolverTargets
  import opened StoredFacts

  // ----- what a commit must drop from the cache ---------------------------------------------

  /** Every version of after that the selection misses existed before with the same facts. */
  ghost predicate KeepsVersions(before: GD.Database, after: GD.Database, selection: Selection) {
    forall v :: v in after.versions && !selection.Selects(v) ==>
      v in before.versions && GD.FactsAt(after, v) == GD.FactsAt(before, v)
  }

  /** A version that both databases have holds the same facts in both. */
  ghost predicate ReadAsBefore(before: GD.Database, after: GD.Database) {
    forall v :: v in before.versions && v in after.versions ==> GD.FactsAt(after, v) == GD.FactsAt(before, v)
  }

  lemma HistoryFacts(db: GD.Database, v: Version)
    requires v in db.versions
    ensures v in GD.HistoryOf(db) && GD.HistoryOf(db)[v] == GD.FactsAt(db, v)
  {}

  lemma AppendKeepsVersions(before: GD.Database, after: GD.Database, facts: GD.VersionFacts)
    requires GD.Append(GD.HistoryOf(before), facts) == Ok(GD.HistoryOf(after))
    ensures KeepsVersions(before, after, Exactly(GD.Newest(before.versions) + 1))
  {
    assert GD.HistoryOf(before).Keys == before.versions;
    forall v | v in after.versions && v != GD.Newest(before.versions) + 1
      ensures v in before.versions && GD.FactsAt(after, v) == GD.FactsAt(before, v)
    {
      HistoryFacts(after, v);
      AppendedFacts(GD.HistoryOf(before), facts, GD.HistoryOf(after), v);
      hide GD.HistoryOf, GD.FactsAt, GD.Append;
      HistoryFacts(before, v);
    }
  }

  lemma AppendedFacts(history: GD.History, facts: GD.VersionFacts, after: GD.History, v: Version)
    requires GD.Append(history, facts) == Ok(after) && v in after && v != GD.Newest(history.Keys) + 1
    ensures v in history && after[v] == history[v]
  {}

  lemma RestrictKeepsVersions(before: GD.Database, after: GD.Database, versions: set<Version>, selection: Selection)
    requires GD.HistoryOf(after) == Restrict(GD.HistoryOf(before), versions)
    ensures KeepsVersions(before, after, selection)
  {
    forall v | v in after.versions
      ensures v in before.versions && GD.FactsAt(after, v) == GD.FactsAt(before, v)
    {
      HistoryFacts(after, v);
      HistoryFacts(before, v);
    }
  }

  /** Cached projections of existing versions are what a fresh read would return. */
  ghost predicate Coherent(databases: map<string, GD.Database>, entries: Entries) {
    forall key :: key in entries && key.workspace in databases && key.version in databases[key.workspace].versions ==>
      entries[key].values == FreshRead(Snapshot(databases[key.workspace].tables, key.version))
  }

  lemma CommitKeepsCoherence(databases: map<string, GD.Database>, entries: Entries, workspace: string,
          before: GD.Database, after: GD.Database, selection: Selection)
    requires Coherent(databases, entries)
    requires before == if workspace in databases then databases[workspace] else GD.EMPTY_DATABASE
    requires KeepsVersions(before, after, selection)
    ensures Coherent(databases[workspace := after], entries - Removed(entries, workspace, selection))
  {
    var kept := entries - Removed(entries, workspace, selection);
    forall key | key in kept && key.workspace == workspace && key.version in after.versions
      ensures kept[key].values == FreshRead(Snapshot(after.tables, key.version))
    {
      assert !selection.Selects(key.version);
      assert GD.FactsAt(after, key.version) == GD.FactsAt(before, key.version);
    }
  }

  lemma StoreKeepsCoherence(databases: map<string, GD.Database>, before: Entries, after: Entries, key: CacheKey,
          values: Projections)
    requires Coherent(databases, before)
    requires after == before || (key in after && after[key].values == values && NewestKept(before, after - {key}))
    requires key.workspace in databases ==> values == FreshRead(Snapshot(databases[key.workspace].tables, key.version))
    ensures Coherent(databases, after)
  {
    forall other | other in after && other != key
      ensures other in before && after[other] == before[other]
    {
      assert other in after - {key};
    }
  }

  lemma ReindexCoherence(databases: map<string, GD.Database>, entries: Entries, workspace: string, before: GD.Database)
    requires Coherent(databases, entries)
    requires before == if workspace in databases then databases[workspace] else GD.EMPTY_DATABASE
    ensures Coherent(databases[workspace := GD.Reindex(before)], entries)
  {}

  lemma AppendedHead(history: GD.History, facts: GD.VersionFacts, db: GD.Database)
    requires GD.Append(history, facts) == Ok(GD.HistoryOf(db))
    ensures GD.FactsAt(db, GD.Newest(history.Keys) + 1) == facts
  {
    AppendContents(history, facts, GD.HistoryOf(db));
    hide GD.Append, GD.FactsAt;
  }

  lemma VersionsOf(db: GD.Database)
    ensures GD.HistoryOf(db).Keys == db.versions
  {}

  /** The version a publication installs reads as the request and the previous head say, and no other
      version reads differently. */
  lemma PublishedVersion(before: GD.Database, request: GD.PublishRequest, after: GD.Database)
    requires GD.Valid(before) && GD.Publish(before, request) == Ok(after)
    requires forall contribution :: contribution in request.update ==> contribution.WellFormed()
    ensures GD.Valid(after) && KeepsVersions(before, after, Exactly(GD.Newest(before.versions) + 1))
    ensures Publishes(GD.HeadFacts(GD.HistoryOf(before)), request, GD.FactsAt(after, GD.Newest(before.versions) + 1))
    ensures ReadAsBefore(before, after) && KeepsNewest(before.versions, after.versions, GD.Newest(before.versions) + 1)
  {
    PublishRefines(before, request);
    assert Contiguous(before.versions);
    hide GD.Valid, GD.Publish, GD.PublishHistory, GD.HistoryOf, GD.FactsAt, Publishes, KeepsVersions, KeepsNewest;
    AfterPublish(before, request, after);
    KeptReads(before, after);
  }

  lemma KeptVersions(history: GD.History, facts: GD.VersionFacts, after: GD.History)
    requires Contiguous(history.Keys) && GD.Append(history, facts) == Ok(after)
    ensures KeepsNewest(history.Keys, after.Keys, GD.Newest(history.Keys) + 1)
  {
    AppendAdvances(history, facts);
  }

  lemma KeptReads(before: GD.Database, after: GD.Database)
    requires KeepsVersions(before, after, Exactly(GD.Newest(before.versions) + 1))
    ensures ReadAsBefore(before, after)
  {
    hide GD.FactsAt;
  }

  /** The versions after a publication: the new one and the ones less than 25 below it. */
  ghost predicate KeepsNewest(before: set<Version>, after: set<Version>, version: Version) {
    forall v :: v in after <==> v == version || (v in before && v + 25 > version)
  }

  lemma RestrictReads(before: GD.Database, after: GD.Database, versions: set<Version>)
    requires GD.HistoryOf(after) == Restrict(GD.HistoryOf(before), versions)
    ensures ReadAsBefore(before, after)
  {
    forall v | v in before.versions && v in after.versions
      ensures GD.FactsAt(after, v) == GD.FactsAt(before, v)
    {
      HistoryFacts(after, v);
      HistoryFacts(before, v);
    }
  }

  lemma RolledBack(before: GD.Database, version: Version, after: GD.Database)
    requires GD.Valid(before) && GD.Rollback(before, version) == Ok(after)
    ensures GD.Valid(after) && KeepsVersions(before, after, Above(version)) && ReadAsBefore(before, after)
    ensures forall v :: v in after.versions <==> v in before.versions && v <= version
  {
    RollbackRefines(before, version);
    hide GD.Valid, GD.HistoryOf, GD.FactsAt;
    RestrictKeepsVersions(before, after, UpTo(GD.HistoryOf(before).Keys, version), Above(version));
    RestrictReads(before, after, UpTo(GD.HistoryOf(before).Keys, version));
  }

  lemma PrunedBefore(before: GD.Database, version: Version, after: GD.Database)
    requires GD.Valid(before) && GD.Prune(before, version) == Ok(after)
    ensures GD.Valid(after) && KeepsVersions(before, after, Below(version)) && ReadAsBefore(before, after)
    ensures forall v :: v in after.versions <==> v in before.versions && v >= version
  {
    PruneRefines(before, version);
    hide GD.Valid, GD.HistoryOf, GD.FactsAt;
    RestrictKeepsVersions(before, after, From(GD.HistoryOf(before).Keys, version), Below(version));
    RestrictReads(before, after, From(GD.HistoryOf(before).Keys, version));
  }

  lemma AfterPublish(before: GD.Database, request: GD.PublishRequest, after: GD.Database)
    requires Contiguous(before.versions)
    requires GD.PublishHistory(GD.HistoryOf(before), request) == Ok(GD.HistoryOf(after))
    ensures KeepsVersions(before, after, Exactly(GD.Newest(before.versions) + 1))
    ensures Publishes(GD.HeadFacts(GD.HistoryOf(before)), request, GD.FactsAt(after, GD.Newest(before.versions) + 1))
    ensures KeepsNewest(before.versions, after.versions, GD.Newest(before.versions) + 1)
  {
    var facts := GD.PublishedFacts(GD.HeadFacts(GD.HistoryOf(before)), request);
    hide GD.HistoryOf, GD.HeadFacts, GD.PublishedFacts, GD.Append, GD.FactsAt, Publishes, KeepsVersions, KeepsNewest;
    AppendKeepsVersions(before, after, facts);
    AppendedHead(GD.HistoryOf(before), facts, after);
    VersionsOf(before);
    VersionsOf(after);
    KeptVersions(GD.HistoryOf(before), facts, GD.HistoryOf(after));
    PublicationStores(GD.HeadFacts(GD.HistoryOf(before)), request);
  }

  // ----- statements with loops --------------------------------------------------------------

  method StoreNodes(stored: GD.NodeTable, nodes: seq<GD.WorkspaceNode>) returns (rows: GD.NodeTable)
    ensures rows == GD.StoreNodes(stored, nodes) && NodesAdded(stored, nodes, rows)
  {
    InsertionsAdd(stored, nodes, map[], []);
    hide NodesAdded, EdgesAdded;
    rows := stored;
    for i := 0 to |nodes|
      invariant rows == GD.StoreNodes(stored, nodes[..i])
    {
      assert nodes[..i + 1][..i] == nodes[..i];
      if nodes[i].text.id !in rows {
        rows := rows[nodes[i].text.id := nodes[i]];
      }
    }
    assert nodes[..|nodes|] == nodes;
  }

  method StoreEdges(stored: GD.EdgeTable, edges: seq<GD.WorkspaceEdge>) returns (rows: GD.EdgeTable)
    ensures rows == GD.StoreEdges(stored, edges) && EdgesAdded(stored, edges, rows)
  {
    InsertionsAdd(map[], [], stored, edges);
    hide NodesAdded, EdgesAdded;
    rows := stored;
    for i := 0 to |edges|
      invariant rows == GD.StoreEdges(stored, edges[..i])
    {
      assert edges[..i + 1][..i] == edges[..i];
      if edges[i].key !in rows {
        rows := rows[edges[i].key := edges[i]];
      }
    }
    assert edges[..|edges|] == edges;
  }

  /** The search table has no key: inserting a tuple twice would count it twice. */
  function InsertSearchRow(indexed: map<NodeText, nat>, text: NodeText): map<NodeText, nat> {
    indexed[text := (if text in indexed then indexed[text] else 0) + 1]
  }

  /** rebuildLexicalSnapshot: one INSERT per distinct visible tuple after clearing the version. */
  method RebuildLexicalSnapshot(tx: Transaction, version: Version)
    modifies tx`db
    ensures tx.db == GD.RebuildSearch(old(tx.db), version)
  {
    var indexed: map<NodeText, nat> := map[];
    var texts := GD.VisibleTexts(tx.db, version);
    var remaining := texts;
    while remaining != {}
      invariant remaining <= texts
      invariant indexed == GD.IndexOf(texts - remaining)
      decreases remaining
      modifies {}
    {
      var text :| text in remaining;
      remaining := remaining - {text};
      indexed := InsertSearchRow(indexed, text);
    }
    assert texts - remaining == texts;
    tx.db := tx.db.(search := tx.db.search[version := indexed]);
  }

  /** pruneVersions */
  method PruneVersions(tx: Transaction, version: Version) returns (outcome: Outcome<GD.StoreError>)
    requires version > 0
    modifies tx`db
    ensures match GD.Prune(old(tx.db), version)
      case Ok(after) => outcome.Pass? && tx.db == after
      case Err(error) => outcome == Fail(error)
  {
    if version !in tx.db.versions {
      return Fail(GD.GraphVersionNotFound);
    }
    tx.ExecuteOnAll(Rebase(version));
    tx.ExecuteOnAll(DeleteBefore(version));
    tx.db := tx.db.(workspaceNodes := Restrict(tx.db.workspaceNodes, From(tx.db.workspaceNodes.Keys, version)));
    tx.db := tx.db.(workspaceEdges := Restrict(tx.db.workspaceEdges, From(tx.db.workspaceEdges.Keys, version)));
    tx.db := tx.db.(search := Restrict(tx.db.search, From(tx.db.search.Keys, version)));
    tx.db := tx.db.(versions := From(tx.db.versions, version));
    return Pass;
  }

  /** The end of Publish and of Commit: record the version, prune, index. */
  method FinishPublication(tx: Transaction, version: Version) returns (outcome: Outcome<GD.StoreError>)
    modifies tx`db
    ensures match GD.Finish(old(tx.db), version)
      case Ok(after) => outcome.Pass? && tx.db == after
      case Err(error) => outcome == Fail(error)
  {
    tx.db := tx.db.(versions := tx.db.versions + {version});
    if version > GD.RETAINED_GRAPH_VERSIONS {
      outcome := PruneVersions(tx, version - GD.RETAINED_GRAPH_VERSIONS + 1);
      if outcome.Fail? {
        return;
      }
    }
    RebuildLexicalSnapshot(tx, version);
    return Pass;
  }

  /** retainWorkspaceFacts and storeWorkspaceFacts */
  method StoreWorkspaceFacts(tx: Transaction, version: Version, request: GD.PublishRequest)
    modifies tx`db
    ensures tx.db == GD.Write(old(tx.db), version, request).(tables := old(tx.db.tables))
  {
    var previous := if version <= 1 then map[] else GD.At(tx.db.workspaceEdges, version - 1);
    var retained := GD.At(tx.db.workspaceEdges, version) + GD.RetainedEdges(previous, request.replacedOwners);
    var nodes := StoreNodes(GD.At(tx.db.workspaceNodes, version), request.nodes);
    var edges := StoreEdges(retained, request.edges);
    tx.db := tx.db.(workspaceNodes := tx.db.workspaceNodes[version := nodes],
                    workspaceEdges := tx.db.workspaceEdges[version := edges]);
  }

  function PathsOf(update: seq<Contribution>): set<Path> {
    set contribution | contribution in update :: contribution.path
  }

  lemma PathsOfNext(update: seq<Contribution>, i: nat)
    requires i < |update| && DistinctPaths(update)
    ensures PathsOf(update[..i + 1]) == PathsOf(update[..i]) + {update[i].path}
      && update[i].path !in PathsOf(update[..i])
  {
    assert update[..i + 1] == update[..i] + [update[i]];
  }

  /** The first contributions have gone through the writer. */
  ghost predicate WrittenSoFar(db0: GD.Database, log0: Buffers, update: seq<Contribution>, version: Version, count: nat,
          db: GD.Database, log: Buffers, buffers: Buffers)
    requires count <= |update|
  {
    && db == db0.(tables := db.tables)
    && Flushed(db.tables, buffers) == AddContributions(db0.tables, update[..count], version)
    && Joined(log, buffers) == Logged(log0, update[..count], version)
    && Fits(db.tables, buffers, [])
    && OnlyHeaders(Flushed(db.tables, buffers), version, PathsOf(update[..count]))
    && forall i :: count <= i < |update| ==> !Buffered(buffers, update[i].path)
  }

  lemma WritingStarts(db: GD.Database, log: Buffers, update: seq<Contribution>, version: Version)
    requires OnlyHeaders(db.tables, version, {})
    ensures WrittenSoFar(db, log, update, version, 0, db, log, EMPTY_BUFFERS)
  {
    NothingToFlush(db.tables);
    NothingJoined(log);
    NothingWaiting(db.tables);
    NothingBuffered();
    assert PathsOf([]) == {} && update[..0] == [];
    hide Flushed, Joined, Fits, Buffered, PathsOf, OnlyHeaders;
  }

  /** One round of the loop over the contributions. */
  method WriteNext(tx: Transaction, writer: Writer, version: Version, update: seq<Contribution>, i: nat,
          ghost db0: GD.Database,
          ghost log0: Buffers) returns (outcome: Outcome<GD.StoreError>)
    requires i < |update| && DistinctPaths(update) && |update[i].facts[FileContributions]| == 1
    requires writer.Valid() && tx.WithinVariableLimit()
    requires WrittenSoFar(db0, log0, update, version, i, tx.db, tx.log, writer.buffers)
    modifies tx, writer
    ensures outcome.Pass? ==>
      writer.Valid() && WrittenSoFar(db0, log0, update, version, i + 1, tx.db, tx.log, writer.buffers)
    ensures tx.Dependable() ==> outcome.Pass?
    ensures tx.WithinVariableLimit()
  {
    AddOneMore(db0.tables, log0, update, version, i);
    PathsOfNext(update, i);
    NewPathFits(tx.db.tables, writer.buffers, update[i], version, PathsOf(update[..i]));
    AddOpensPath(Flushed(tx.db.tables, writer.buffers), update[i], version, PathsOf(update[..i]));
    hide Flushed, Joined, Fits, AddContribution, AddContributions, Logged, PreparedRows, Writer.Valid, Buffered,
      PathsOf, OnlyHeaders,
      Transaction.WithinVariableLimit;
    outcome := writer.Add(tx, update[i], version);
  }

  /** The contributions in index order through the writer, which is flushed at the end.  Every prepared row
      reaches its table's INSERT statements once and in order; nothing collides in a new version. */
  method WriteContributions(tx: Transaction, writer: Writer, version: Version,
          update: seq<Contribution>) returns (outcome: Outcome<GD.StoreError>)
    requires writer.Valid() && writer.buffers == EMPTY_BUFFERS && tx.WithinVariableLimit()
    requires DistinctPaths(update) && forall contribution :: contribution in update ==> contribution.WellFormed()
    requires OnlyHeaders(tx.db.tables, version, {})
    modifies tx, writer
    ensures outcome.Pass? ==>
      && tx.db == old(tx.db).(tables := AddContributions(old(tx.db.tables), update, version))
      && tx.log == Logged(old(tx.log), update, version)
    ensures tx.Dependable() ==> outcome.Pass?
    ensures tx.WithinVariableLimit()
  {
    WritingStarts(tx.db, tx.log, update, version);
    hide WrittenSoFar, Writer.Valid, Transaction.WithinVariableLimit;
    for i := 0 to |update|
      invariant WrittenSoFar(old(tx.db), old(tx.log), update, version, i, tx.db, tx.log, writer.buffers)
      invariant writer.Valid() && tx.WithinVariableLimit()
    {
      assert update[i] in update;
      outcome := WriteNext(tx, writer, version, update, i, old(tx.db), old(tx.log));
      if outcome.Fail? {
        return;
      }
    }
    outcome := FlushLast(tx, writer, version, update, old(tx.db), old(tx.log));
  }

  method FlushLast(tx: Transaction, writer: Writer, version: Version, update: seq<Contribution>, ghost db0: GD.Database,
          ghost log0: Buffers) returns (outcome: Outcome<GD.StoreError>)
    requires tx.WithinVariableLimit()
      && WrittenSoFar(db0, log0, update, version, |update|, tx.db, tx.log, writer.buffers)
    modifies tx, writer
    ensures outcome.Pass? ==>
      tx.db == db0.(tables := AddContributions(db0.tables, update, version)) && tx.log == Logged(log0, update, version)
    ensures tx.Dependable() ==> outcome.Pass?
    ensures tx.WithinVariableLimit()
  {
    assert update[..|update|] == update;
    hide Flushed, Joined, Fits, AddContributions, Logged, Buffered, PathsOf, OnlyHeaders,
      Transaction.WithinVariableLimit;
    outcome := writer.Flush(tx, []);
  }

  lemma AddOneMore(tables: Tables, log: Buffers, update: seq<Contribution>, version: Version, i: nat)
    requires i < |update|
    ensures AddContributions(tables, update[..i + 1], version)
         == AddContribution(AddContributions(tables, update[..i], version), update[i], version)
    ensures Logged(log, update[..i + 1], version)
      == Joined(Logged(log, update[..i], version), PreparedRows(update[i], version))
  {
    assert update[..i + 1][..i] == update[..i];
  }

  /** storePreparedPublication: workspace facts first, then the contributions. */
  method StorePreparedPublication(tx: Transaction, writer: Writer, version: Version,
          request: GD.PublishRequest) returns (outcome: Outcome<GD.StoreError>)
    requires writer.Valid() && writer.buffers == EMPTY_BUFFERS && tx.WithinVariableLimit()
    requires DistinctPaths(request.update) && forall contribution ::
      contribution in request.update ==> contribution.WellFormed()
    requires OnlyHeaders(tx.db.tables, version, {})
    modifies tx, writer
    ensures outcome.Pass? ==>
      tx.db == GD.Write(old(tx.db), version, request) && tx.log == Logged(old(tx.log), request.update, version)
    ensures tx.Dependable() ==> outcome.Pass?
    ensures tx.WithinVariableLimit()
  {
    StoreWorkspaceFacts(tx, version, request);
    outcome := WriteContributions(tx, writer, version, request.update);
  }

  // ----- whole transactions on a private copy -----------------------------------------------

  lemma PublishWithoutDuplicates(before: GD.Database, request: GD.PublishRequest)
    requires DistinctPaths(request.update)
    ensures GD.Publish(before, request)
      == GD.Finish(GD.Write(before, GD.Newest(before.versions) + 1, request), GD.Newest(before.versions) + 1)
  {
    hide GD.Write, GD.Finish, GD.Newest;
  }

  lemma NewVersionIsEmpty(before: GD.Database)
    requires GD.Valid(before)
    ensures OnlyHeaders(before.tables, GD.Newest(before.versions) + 1, {})
  {
    assert Bounded(before.tables, before.versions);
  }

  /** Everything Publish does between BEGIN and COMMIT. */
  method PublishCopy(before: GD.Database, request: GD.PublishRequest, variableLimit: nat, width: Row -> nat,
          reliable: bool) returns (result: Result<GD.Database, GD.StoreError>)
    requires GD.Valid(before) && forall contribution :: contribution in request.update ==> contribution.WellFormed()
    ensures result.Ok? || (reliable && variableLimit >= 16) ==> GD.Publish(before, request) == result
  {
    if !DistinctPaths(request.update) {
      return Err(GD.InvalidRequest);
    }
    var version := GD.Newest(before.versions) + 1;
    PublishWithoutDuplicates(before, request);
    NewVersionIsEmpty(before);
    hide GD.Valid, OnlyHeaders, GD.Publish, GD.Write, GD.Finish;
    var tx := new Transaction(before, variableLimit, reliable);
    var writer := new Writer(BatchLimits(0, 0, 0), width);
    var outcome := StorePreparedPublication(tx, writer, version, request);
    if outcome.Fail? {
      return Err(outcome.error);
    }
    outcome := FinishPublication(tx, version);
    if outcome.Fail? {
      return Err(outcome.error);
    }
    var overBudget: bool := *;
    if overBudget && !reliable {
      return Err(GD.Unavailable);
    }
    return Ok(tx.db);
  }

  method RollbackCopy(before: GD.Database, version: Version, variableLimit: nat,
          reliable: bool) returns (result: Result<GD.Database, GD.StoreError>)
    ensures result == GD.Rollback(before, version)
  {
    if version !in before.versions {
      return Err(GD.GraphVersionNotFound);
    }
    var tx := new Transaction(before, variableLimit, reliable);
    tx.ExecuteOnAll(DeleteAfter(version));
    tx.db := tx.db.(workspaceNodes := Restrict(tx.db.workspaceNodes, UpTo(tx.db.workspaceNodes.Keys, version)));
    tx.db := tx.db.(workspaceEdges := Restrict(tx.db.workspaceEdges, UpTo(tx.db.workspaceEdges.Keys, version)));
    tx.db := tx.db.(search := Restrict(tx.db.search, UpTo(tx.db.search.Keys, version)));
    tx.ExecuteOnAll(Reopen(version));
    tx.db := tx.db.(versions := UpTo(tx.db.versions, version));
    return Ok(tx.db);
  }

  lemma DroppedVersions(before: GD.Database, version: Version)
    requires GD.Prune(before, version).Ok?
    ensures Below(version).Versions(before.versions) == before.versions - GD.Prune(before, version).value.versions
  {}

  method PruneCopy(before: GD.Database, version: Version, variableLimit: nat,
          reliable: bool) returns (result: Result<GD.Database, GD.StoreError>)
    ensures result == GD.Prune(before, version)
  {
    if version == 0 {
      return Err(GD.InvalidRequest);
    }
    var tx := new Transaction(before, variableLimit, reliable);
    var outcome := PruneVersions(tx, version);
    result := if outcome.Pass? then Ok(tx.db) else Err(outcome.error);
  }

  /** RebuildLexicalIndex clears the workspace's index and builds every version's part again. */
  method ReindexCopy(before: GD.Database, variableLimit: nat) returns (after: GD.Database)
    ensures after == GD.Reindex(before)
  {
    var tx := new Transaction(before.(search := map[]), variableLimit, true);
    var remaining := before.versions;
    while remaining != {}
      invariant remaining <= before.versions
      invariant tx.db == before.(search := tx.db.search)
      invariant tx.db.search == map v | v in before.versions - remaining :: GD.IndexOf(GD.VisibleTexts(before, v))
      decreases remaining
    {
      var version :| version in remaining;
      ghost var indexed := tx.db.search;
      assert GD.VisibleTexts(tx.db, version) == GD.VisibleTexts(before, version);
      RebuildLexicalSnapshot(tx, version);
      remaining := remaining - {version};
    }
    assert before.versions - {} == before.versions;
    after := tx.db;
  }

  class Store {
    var databases: map<string, GD.Database>
    const cache: Cache
    const variableLimit: nat
    /** The byte estimate of one prepared row. */
    const width: Row -> nat

    function Workspace(workspace: string): GD.Database
      reads this
    {
      if workspace in databases then databases[workspace] else GD.EMPTY_DATABASE
    }

    ghost predicate Valid()
      reads this, cache
    {
      && cache.Valid()
      && (forall workspace :: workspace in databases ==> GD.Valid(databases[workspace]))
      && Coherent(databases, cache.entries)
    }

    constructor (variableLimit: nat, width: Row -> nat, maximumProjectionBytes: nat, measure: Projections -> nat)
      ensures Valid() && databases == map[]
      ensures fresh(cache)
    {
      this.variableLimit, this.width := variableLimit, width;
      databases := map[];
      cache := new Cache(maximumProjectionBytes, measure);
    }

    /** COMMIT, then drop what the selection names from the cache. */
    method Install(workspace: string, after: GD.Database, selection: Selection)
      requires Valid() && GD.Valid(after)
      requires KeepsVersions(Workspace(workspace), after, selection)
      modifies `databases, cache
      ensures Valid() && databases == old(databases)[workspace := after] && Workspace(workspace) == after
      ensures cache.entries == old(cache.entries) - Removed(old(cache.entries), workspace, selection)
    {
      CommitKeepsCoherence(databases, cache.entries, workspace, Workspace(workspace), after, selection);
      databases := databases[workspace := after];
      cache.Invalidate(workspace, selection);
    }
  
    lemma WorkspaceIsValid(workspace: string)
      requires Valid()
      ensures GD.Valid(Workspace(workspace))
    {
      EmptyIsValid();
    }

    /** Publish: the next version is the overwritten head, or nothing changes at all. */
    method Publish(workspace: string, request: GD.PublishRequest, reliable: bool)
      returns (result: Result<Version, GD.StoreError>)
      requires Valid()
      requires forall contribution :: contribution in request.update ==> contribution.WellFormed()
      modifies `databases, cache
      ensures Valid()
      ensures result.Err? ==> databases == old(databases) && cache.entries == old(cache.entries)
      ensures result.Ok? ==>
        && workspace != "" && result.value == GD.Newest(old(Workspace(workspace)).versions) + 1
        && cache.entries == old(cache.entries) - Removed(old(cache.entries), workspace, Exactly(result.value))
        && databases == old(databases)[workspace := Workspace(workspace)]
        && GD.Publish(old(Workspace(workspace)), request) == Ok(Workspace(workspace))
        && KeepsNewest(old(Workspace(workspace)).versions, Workspace(workspace).versions, result.value)
        && ReadAsBefore(old(Workspace(workspace)), Workspace(workspace))
        && Publishes(GD.HeadFacts(GD.HistoryOf(old(Workspace(workspace)))), request,
          GD.FactsAt(Workspace(workspace), result.value))
      ensures reliable && variableLimit >= 16 && result.Err? ==>
        if workspace == "" then result == Err(GD.InvalidRequest)
          else GD.Publish(Workspace(workspace), request) == Err(result.error)
    {
      hide *;
      hide Valid, GD.Valid, GD.Publish, GD.FactsAt, GD.HistoryOf, GD.HeadFacts, GD.Newest, Contribution.WellFormed;
      if workspace == "" {
        return Err(GD.InvalidRequest);
      }
      var before := Workspace(workspace);
      WorkspaceIsValid(workspace);
      var published := PublishCopy(before, request, variableLimit, width, reliable);
      var busy: bool := *;
      if published.Err? {
        return Err(published.error);
      }
      if busy && !reliable {
        return Err(GD.Unavailable);
      }
      PublishedVersion(before, request, published.value);
      var version := GD.Newest(before.versions) + 1;
      Install(workspace, published.value, Exactly(version));
      return Ok(version);
    }

    method Rollback(workspace: string, version: Version, reliable: bool)
      returns (result: Result<Version, GD.StoreError>)
      requires Valid()
      modifies `databases, cache
      ensures Valid()
      ensures result.Err? ==> databases == old(databases) && cache.entries == old(cache.entries)
      ensures result.Ok? ==>
        && workspace != "" && result.value == version
        && cache.entries == old(cache.entries) - Removed(old(cache.entries), workspace, Above(version))
        && databases == old(databases)[workspace := Workspace(workspace)]
        && GD.Rollback(old(Workspace(workspace)), version) == Ok(Workspace(workspace))
        && (forall v :: v in Workspace(workspace).versions <==> v in old(Workspace(workspace)).versions && v <= version)
        && ReadAsBefore(old(Workspace(workspace)), Workspace(workspace))
      ensures reliable && result.Err? ==>
        if workspace == "" then result == Err(GD.InvalidRequest)
          else GD.Rollback(Workspace(workspace), version) == Err(result.error)
    {
      hide *;
      hide Valid, GD.Valid, GD.Rollback, GD.FactsAt, GD.HistoryOf;
      if workspace == "" {
        return Err(GD.InvalidRequest);
      }
      var before := Workspace(workspace);
      WorkspaceIsValid(workspace);
      var rolledBack := RollbackCopy(before, version, variableLimit, reliable);
      var busy: bool := *;
      if rolledBack.Err? {
        return Err(rolledBack.error);
      }
      if busy && !reliable {
        return Err(GD.Unavailable);
      }
      RolledBack(before, version, rolledBack.value);
      Install(workspace, rolledBack.value, Above(version));
      return Ok(version);
    }

    /** Prune; the result counts the versions that dropped out. */
    method Prune(workspace: string, version: Version, reliable: bool) returns (result: Result<nat, GD.StoreError>)
      requires Valid()
      modifies `databases, cache
      ensures Valid()
      ensures result.Err? ==> databases == old(databases) && cache.entries == old(cache.entries)
      ensures result.Ok? ==>
        && workspace != ""
        && cache.entries == old(cache.entries) - Removed(old(cache.entries), workspace, Below(version))
        && databases == old(databases)[workspace := Workspace(workspace)]
        && GD.Prune(old(Workspace(workspace)), version) == Ok(Workspace(workspace))
        && (forall v :: v in Workspace(workspace).versions <==> v in old(Workspace(workspace)).versions && v >= version)
        && ReadAsBefore(old(Workspace(workspace)), Workspace(workspace))
        && result.value == |old(Workspace(workspace)).versions - Workspace(workspace).versions|
      ensures reliable && result.Err? ==>
        if workspace == "" then result == Err(GD.InvalidRequest)
          else GD.Prune(Workspace(workspace), version) == Err(result.error)
    {
      hide *;
      hide Valid, GD.Valid, GD.Prune, GD.FactsAt, GD.HistoryOf;
      if workspace == "" {
        return Err(GD.InvalidRequest);
      }
      var before := Workspace(workspace);
      WorkspaceIsValid(workspace);
      var pruned := PruneCopy(before, version, variableLimit, reliable);
      var busy: bool := *;
      if pruned.Err? {
        return Err(pruned.error);
      }
      if busy && !reliable {
        return Err(GD.Unavailable);
      }
      PrunedBefore(before, version, pruned.value);
      DroppedVersions(before, version);
      var dropped := |Below(version).Versions(before.versions)|;
      Install(workspace, pruned.value, Below(version));
      return Ok(dropped);
    }

    method RebuildLexicalIndex(workspace: string, reliable: bool) returns (outcome: Outcome<GD.StoreError>)
      requires Valid()
      modifies `databases
      ensures Valid()
      ensures outcome.Fail? ==> databases == old(databases)
      ensures outcome.Pass? ==> databases == old(databases)[workspace := GD.Reindex(old(Workspace(workspace)))]
      ensures reliable ==> outcome == if workspace == "" then Fail(GD.InvalidRequest) else Pass
    {
      if workspace == "" {
        return Fail(GD.InvalidRequest);
      }
      var before := Workspace(workspace);
      EmptyIsValid();
      var after := ReindexCopy(before, variableLimit);
      var busy: bool := *;
      if busy && !reliable {
        return Fail(GD.Unavailable);
      }
      ReindexKeeps(before);
      ReindexCoherence(databases, cache.entries, workspace, before);
      databases := databases[workspace := after];
      return Pass;
    }

    /** A cached answer for an existing version is the answer a fresh read would give. */
    method ResolverProjections(workspace: string, version: Version,
            reliable: bool) returns (result: Result<Projections, GD.StoreError>)
      requires Valid()
      modifies cache
      ensures Valid()
      ensures result.Ok? && version in Workspace(workspace).versions ==>
        && result.value == FreshRead(Snapshot(Workspace(workspace).tables, version))
        && ReadsSnapshot(Snapshot(Workspace(workspace).tables, version), result.value)
      ensures result == Err(GD.InvalidRequest) <==> workspace == "" || version == 0
      ensures workspace != "" && version > 0 && (reliable || CacheKey(workspace, version) in old(cache.entries)) ==>
        result.Ok?
      ensures result.Err? ==> cache.entries == old(cache.entries)
    {
      if workspace == "" || version == 0 {
        return Err(GD.InvalidRequest);
      }
      FreshReadIs(Snapshot(Workspace(workspace).tables, version));
      hide ReadsSnapshot, FreshRead;
      var key := CacheKey(workspace, version);
      var cached := cache.Lookup(key);
      if cached.Some? {
        return Ok(cached.value);
      }
      var busy: bool := *;
      if busy && !reliable {
        return Err(GD.Unavailable);
      }
      var values := FreshRead(Snapshot(Workspace(workspace).tables, version));
      cache.Store(key, values);
      StoreKeepsCoherence(databases, old(cache.entries), cache.entries, key, values);
      return Ok(values);
    }

    method ResolverTarget(workspace: string, version: Version, request: TargetRequest,
            reliable: bool) returns (result: Result<Option<Target>, GD.StoreError>)
      ensures result == Err(GD.InvalidRequest) <==>
        workspace == "" || version == 0 || request.projectId == "" || request.language == "" || request.path == ""
      ensures reliable ==> result.Ok? || result == Err(GD.InvalidRequest)
      ensures result.Ok? ==>
        && result.value == TargetIn(Snapshot(Workspace(workspace).tables, version), request)
        && Answers(Snapshot(Workspace(workspace).tables, version), request, result.value)
    {
      if workspace == "" || version == 0 || request.Incomplete() {
        return Err(GD.InvalidRequest);
      }
      var busy: bool := *;
      if busy && !reliable {
        return Err(GD.Unavailable);
      }
      var target := ReadTarget(Workspace(workspace).tables, version, request);
      return Ok(target);
    }
  }
}
