/** Runs of store operations against the plain map of versions, and what the retention rule allows. */
module StoreRuns {
  import opened Wrappers
  import opened ContributionTables
  import opened ContributionHistory
  import opened GraphDatabase
  import opened GraphRefinement
  import opened Intervals

  // ----- runs -------------------------------------------------------------------------------

  /** What a contribution session did before it committed. */
  datatype SessionWork = SessionWork(staged: set<Path>, written: map<Path, Record>, nodes: NodeTable, edges: EdgeTable)

  datatype Operation =
    | PublishOp(request: PublishRequest)
    | CommitOp(work: SessionWork)
    | RollbackOp(version: Version)
    | PruneOp(version: Version)
    | ReindexOp

  /** A committed session publishes the written contribution of a staged and written path, the previous
      one of a staged but unwritten path, and nothing for a path it did not stage. */
  function SessionFacts(head: VersionFacts, work: SessionWork): VersionFacts {
    VersionFacts(Restrict(head.contributions + work.written, work.staged), work.nodes, work.edges)
  }

  /** A failed transaction leaves the database as it was. */
  function Committed(before: Database, outcome: Result<Database, StoreError>): Database {
    match outcome
    case Ok(after) => after
    case Err(_) => before
  }

  /** A call that fails for a reason outside the model changes nothing and is not a step. */
  ghost predicate Step(before: Database, operation: Operation, after: Database) {
    match operation
    case PublishOp(request) => after == Committed(before, Publish(before, request))
    case RollbackOp(version) => after == Committed(before, Rollback(before, version))
    case PruneOp(version) => after == Committed(before, Prune(before, version))
    case ReindexOp => after == Reindex(before)
    case CommitOp(work) => exists tx :: CommitsWith(before, work, tx, after)
  }

  ghost predicate Run(states: seq<Database>, operations: seq<Operation>) {
    && |states| == |operations| + 1
    && states[0] == EMPTY_DATABASE
    && forall i :: 0 <= i < |operations| ==> Step(states[i], operations[i], states[i + 1])
  }

  function After(history: History, outcome: Result<History, StoreError>): History {
    match outcome
    case Ok(after) => after
    case Err(_) => history
  }

  function StepHistory(history: History, operation: Operation): History {
    match operation
    case PublishOp(request) => After(history, PublishHistory(history, request))
    case CommitOp(work) => After(history, Append(history, SessionFacts(HeadFacts(history), work)))
    case RollbackOp(version) => After(history, RollbackHistory(history, version))
    case PruneOp(version) => After(history, PruneHistory(history, version))
    case ReindexOp => history
  }

  function RunHistory(start: History, operations: seq<Operation>): History {
    if operations == [] then start
    else StepHistory(RunHistory(start, operations[..|operations| - 1]), operations[|operations| - 1])
  }

  ghost predicate Prepared(operation: Operation) {
    operation.PublishOp? ==>
      forall contribution :: contribution in operation.request.update ==> contribution.WellFormed()
  }

  lemma EmptyIsValid()
    ensures Valid(EMPTY_DATABASE) && HistoryOf(EMPTY_DATABASE) == map[]
  {}

  lemma ReindexKeeps(db: Database)
    requires Valid(db)
    ensures Valid(Reindex(db)) && HistoryOf(Reindex(db)) == HistoryOf(db)
  {
    hide LockStep, Bounded, Contiguous, Snapshot;
    var after := Reindex(db);
    forall v | v in db.versions
      ensures IndexExact(after, v) && FactsAt(after, v) == FactsAt(db, v)
    {
      assert VisibleTexts(after, v) == VisibleTexts(db, v);
    }
  }

  lemma OutcomeRefines(before: Database, outcome: Result<Database, StoreError>, expected: Result<History, StoreError>)
    requires Valid(before) && Refines(outcome, expected)
    ensures Valid(Committed(before, outcome))
    ensures HistoryOf(Committed(before, outcome)) == After(HistoryOf(before), expected)
  {}

  ghost predicate CommitsWith(before: Database, work: SessionWork, tx: Database, after: Database) {
    && Writing(before, Newest(before.versions) + 1, tx, work.written.Keys,
      SessionFacts(HeadFacts(HistoryOf(before)), work))
    && after == Committed(before, Finish(tx, Newest(before.versions) + 1))
  }

  lemma CommitStep(before: Database, work: SessionWork, tx: Database, after: Database)
    requires Valid(before) && CommitsWith(before, work, tx, after)
    ensures Valid(after) && HistoryOf(after) == StepHistory(HistoryOf(before), CommitOp(work))
  {
    var version := Newest(before.versions) + 1;
    var facts := SessionFacts(HeadFacts(HistoryOf(before)), work);
    FinishRefines(before, version, tx, work.written.Keys, facts);
    OutcomeRefines(before, Finish(tx, version), Append(HistoryOf(before), facts));
  }

  lemma StepRefines(before: Database, operation: Operation, after: Database)
    requires Valid(before) && Prepared(operation) && Step(before, operation, after)
    ensures Valid(after) && HistoryOf(after) == StepHistory(HistoryOf(before), operation)
  {
    match operation
    case PublishOp(request) => PublishRefines(before, request);
    case RollbackOp(version) => RollbackRefines(before, version);
    case PruneOp(version) => PruneRefines(before, version);
    case ReindexOp => ReindexKeeps(before);
    case CommitOp(work) =>
      var tx :| CommitsWith(before, work, tx, after);
      CommitStep(before, work, tx, after);
  }

  /** After any run, reading any version through the interval rows of the twelve tables gives what a
      plain map from version to facts would hold, and the lexical index is exact for every version. */
  lemma {:induction false} RunRefines(states: seq<Database>, operations: seq<Operation>)
    requires Run(states, operations)
    requires forall i :: 0 <= i < |operations| ==> Prepared(operations[i])
    ensures Valid(states[|operations|]) && HistoryOf(states[|operations|]) == RunHistory(map[], operations)
  {
    EmptyIsValid();
    if operations != [] {
      var last := |operations| - 1;
      RunRefines(states[..|operations|], operations[..last]);
      StepRefines(states[last], operations[last], states[|operations|]);
    }
  }

  // ----- workspace edges --------------------------------------------------------------------

  function KeysOf(edges: seq<WorkspaceEdge>): set<EdgeKey> {
    set edge | edge in edges :: edge.key
  }

  /** The first edge of the list with that key. */
  ghost predicate FirstEdge(edges: seq<WorkspaceEdge>, key: EdgeKey, edge: WorkspaceEdge) {
    exists i ::
      0 <= i < |edges| && edges[i] == edge && edge.key == key && forall j :: 0 <= j < i ==> edges[j].key != key
  }

  /** The first node of the list with that id. */
  ghost predicate FirstNode(nodes: seq<WorkspaceNode>, id: string, node: WorkspaceNode) {
    exists i :: 0 <= i < |nodes| && nodes[i] == node && node.text.id == id && forall j :: 0 <= j < i ==>
      nodes[j].text.id != id
  }

  lemma FirstEdgeStays(edges: seq<WorkspaceEdge>, last: WorkspaceEdge, key: EdgeKey, edge: WorkspaceEdge)
    requires FirstEdge(edges, key, edge)
    ensures FirstEdge(edges + [last], key, edge)
  {
    var i :| 0 <= i < |edges| && edges[i] == edge && edge.key == key && forall j :: 0 <= j < i ==> edges[j].key != key;
    assert (edges + [last])[i] == edge;
  }

  lemma FirstNodeStays(nodes: seq<WorkspaceNode>, last: WorkspaceNode, id: string, node: WorkspaceNode)
    requires FirstNode(nodes, id, node)
    ensures FirstNode(nodes + [last], id, node)
  {
    var i :| 0 <= i < |nodes| && nodes[i] == node && node.text.id == id && forall j :: 0 <= j < i ==>
      nodes[j].text.id != id;
    assert (nodes + [last])[i] == node;
  }

  lemma LastIsFirstEdge(edges: seq<WorkspaceEdge>, last: WorkspaceEdge)
    requires last.key !in KeysOf(edges)
    ensures FirstEdge(edges + [last], last.key, last)
  {
    assert (edges + [last])[|edges|] == last;
    assert forall j :: 0 <= j < |edges| ==> edges[j].key in KeysOf(edges);
  }

  lemma LastIsFirstNode(nodes: seq<WorkspaceNode>, last: WorkspaceNode)
    requires last.text.id !in IdsOf(nodes)
    ensures FirstNode(nodes + [last], last.text.id, last)
  {
    assert (nodes + [last])[|nodes|] == last;
    assert forall j :: 0 <= j < |nodes| ==> nodes[j].text.id in IdsOf(nodes);
  }

  /** Inserting edges changes none that is stored, and stores the first of each new key. */
  lemma {:induction false} StoredEdges(stored: EdgeTable, edges: seq<WorkspaceEdge>)
    ensures StoreEdges(stored, edges).Keys == stored.Keys + KeysOf(edges)
    ensures forall key :: key in stored ==> StoreEdges(stored, edges)[key] == stored[key]
    ensures forall key :: key in StoreEdges(stored, edges) && key !in stored ==>
      FirstEdge(edges, key, StoreEdges(stored, edges)[key])
  {
    if edges != [] {
      var before, last := edges[..|edges| - 1], edges[|edges| - 1];
      StoredEdges(stored, before);
      assert edges == before + [last];
      assert KeysOf(edges) == KeysOf(before) + {last.key};
      var rows := StoreEdges(stored, edges);
      hide FirstEdge;
      forall key | key in rows && key !in stored
        ensures FirstEdge(edges, key, rows[key])
      {
        if key in StoreEdges(stored, before) {
          FirstEdgeStays(before, last, key, rows[key]);
        } else {
          LastIsFirstEdge(before, last);
        }
      }
    }
  }

  function IdsOf(nodes: seq<WorkspaceNode>): set<string> {
    set node | node in nodes :: node.text.id
  }

  /** Inserting nodes changes none that is stored, and stores the first of each new id. */
  lemma {:induction false} StoredNodes(stored: NodeTable, nodes: seq<WorkspaceNode>)
    ensures StoreNodes(stored, nodes).Keys == stored.Keys + IdsOf(nodes)
    ensures forall id :: id in stored ==> StoreNodes(stored, nodes)[id] == stored[id]
    ensures forall id :: id in StoreNodes(stored, nodes) && id !in stored ==>
      FirstNode(nodes, id, StoreNodes(stored, nodes)[id])
  {
    if nodes != [] {
      var before, last := nodes[..|nodes| - 1], nodes[|nodes| - 1];
      StoredNodes(stored, before);
      assert nodes == before + [last];
      assert IdsOf(nodes) == IdsOf(before) + {last.text.id};
      var rows := StoreNodes(stored, nodes);
      hide FirstNode;
      forall id | id in rows && id !in stored
        ensures FirstNode(nodes, id, rows[id])
      {
        if id in StoreNodes(stored, before) {
          FirstNodeStays(before, last, id, rows[id]);
        } else {
          LastIsFirstNode(before, last);
        }
      }
    }
  }

  /** The rows after an insertion: those that were there, and the first new one of each other key. */
  ghost predicate EdgesAdded(stored: EdgeTable, edges: seq<WorkspaceEdge>, rows: EdgeTable) {
    && (forall key :: key in stored ==> key in rows && rows[key] == stored[key])
    && (forall i :: 0 <= i < |edges| ==> edges[i].key in rows)
    && forall key :: key in rows && key !in stored ==> FirstEdge(edges, key, rows[key])
  }

  ghost predicate NodesAdded(stored: NodeTable, nodes: seq<WorkspaceNode>, rows: NodeTable) {
    && (forall id :: id in stored ==> id in rows && rows[id] == stored[id])
    && (forall i :: 0 <= i < |nodes| ==> nodes[i].text.id in rows)
    && forall id :: id in rows && id !in stored ==> FirstNode(nodes, id, rows[id])
  }

  lemma InsertionsAdd(storedNodes: NodeTable, nodes: seq<WorkspaceNode>, storedEdges: EdgeTable,
          edges: seq<WorkspaceEdge>)
    ensures NodesAdded(storedNodes, nodes, StoreNodes(storedNodes, nodes))
    ensures EdgesAdded(storedEdges, edges, StoreEdges(storedEdges, edges))
  {
    StoredNodes(storedNodes, nodes);
    StoredEdges(storedEdges, edges);
    hide StoreNodes, StoreEdges, FirstNode, FirstEdge;
    assert forall i :: 0 <= i < |nodes| ==> nodes[i].text.id in IdsOf(nodes);
    assert forall i :: 0 <= i < |edges| ==> edges[i].key in KeysOf(edges);
  }

  /** An edge of the previous head that is taken over: its owner is not replaced, and some owner is. */
  predicate TakenOver(previous: EdgeTable, replacedOwners: set<string>, key: EdgeKey) {
    replacedOwners != {} && key in previous && previous[key].owner !in replacedOwners
  }

  /** A publication's edges are the previous head's edges that no replaced owner owns, unchanged, and of all
      others the first new one of each key; without a replaced owner nothing is taken over. */
  ghost predicate EdgesPublished(previous: EdgeTable, request: PublishRequest, edges: EdgeTable) {
    && (forall key :: TakenOver(previous, request.replacedOwners, key) ==> key in edges && edges[key] == previous[key])
    && (forall i :: 0 <= i < |request.edges| ==> request.edges[i].key in edges)
    && forall key :: key in edges && !TakenOver(previous, request.replacedOwners, key) ==>
      FirstEdge(request.edges, key, edges[key])
  }

  lemma PublishedEdges(head: VersionFacts, request: PublishRequest)
    ensures EdgesPublished(head.edges, request, PublishedFacts(head, request).edges)
    ensures NodesAdded(map[], request.nodes, PublishedFacts(head, request).nodes)
  {
    InsertionsAdd(map[], request.nodes, RetainedEdges(head.edges, request.replacedOwners), request.edges);
    hide StoreNodes, StoreEdges, FirstNode, FirstEdge;
    assert forall key :: key in RetainedEdges(head.edges, request.replacedOwners) <==>
      TakenOver(head.edges, request.replacedOwners, key);
  }

  // ----- retention --------------------------------------------------------------------------

  /** The retention boundary of the next publication exists exactly when 24 versions do. */
  lemma BoundaryExists(versions: set<Version>)
    requires Contiguous(versions) && Newest(versions) >= RETAINED_GRAPH_VERSIONS
    ensures Newest(versions) + 1 - RETAINED_GRAPH_VERSIONS + 1 in versions <==>
      |versions| >= RETAINED_GRAPH_VERSIONS - 1
  {
    var newest := Newest(versions);
    var boundary := newest + 1 - RETAINED_GRAPH_VERSIONS + 1;
    assert newest in versions;
    if boundary in versions {
      assert AllBetween(versions, boundary, newest);
      assert Interval(boundary, newest + 1) <= versions;
      SubsetSize(Interval(boundary, newest + 1), versions);
    } else {
      forall v | v in versions
        ensures v in Interval(boundary + 1, newest + 1)
      {
        assert AllBetween(versions, v, newest);
      }
      SubsetSize(versions, Interval(boundary + 1, newest + 1));
    }
  }

  predicate Blocked(versions: set<Version>) {
    Newest(versions) >= RETAINED_GRAPH_VERSIONS && |versions| < RETAINED_GRAPH_VERSIONS - 1
  }

  /** A publication can only fail for want of its retention boundary. */
  lemma PublishNeedsBoundary(db: Database, request: PublishRequest)
    requires DistinctPaths(request.update)
    ensures var version := Newest(db.versions) + 1;
      && (version <= RETAINED_GRAPH_VERSIONS || version - RETAINED_GRAPH_VERSIONS + 1 in db.versions + {version} ==>
        Publish(db, request).Ok?)
      && (version > RETAINED_GRAPH_VERSIONS && version - RETAINED_GRAPH_VERSIONS + 1 !in db.versions + {version} ==>
        Publish(db, request) == Err(GraphVersionNotFound))
  {
    hide Newest, StoreNodes, StoreEdges, RetainedEdges, AddContributions, PruneTables, RebuildSearch, From, Restrict;
  }

  /** Publishing does not always succeed: it does exactly when the store has fewer than 25 versions
      behind it or still holds at least 24 of them. */
  lemma PublishSucceedsUnlessBlocked(db: Database, request: PublishRequest)
    requires Valid(db) && DistinctPaths(request.update)
    ensures Publish(db, request).Ok? <==> !Blocked(db.versions)
    ensures Blocked(db.versions) ==> Publish(db, request) == Err(GraphVersionNotFound)
  {
    PublishNeedsBoundary(db, request);
    assert Contiguous(db.versions);
    hide Publish, Valid;
    if Newest(db.versions) >= RETAINED_GRAPH_VERSIONS {
      BoundaryExists(db.versions);
    }
  }

  lemma AppendSucceedsUnlessBlocked(history: History, facts: VersionFacts)
    requires Contiguous(history.Keys)
    ensures Append(history, facts).Ok? <==> !Blocked(history.Keys)
  {
    if Newest(history.Keys) >= RETAINED_GRAPH_VERSIONS {
      BoundaryExists(history.Keys);
    }
  }

  /** A store with at least 25 versions behind it refuses every publication once all but its newest
      version are pruned by hand. */
  lemma PruningToTheHeadBlocks(db: Database, request: PublishRequest)
    requires Valid(db) && Newest(db.versions) >= RETAINED_GRAPH_VERSIONS && DistinctPaths(request.update)
    ensures Prune(db, Newest(db.versions)).Ok?
    ensures Publish(Prune(db, Newest(db.versions)).value, request) == Err(GraphVersionNotFound)
  {
    var newest := Newest(db.versions);
    PruneRefines(db, newest);
    var after := Prune(db, newest).value;
    assert after.versions == {newest};
    PublishSucceedsUnlessBlocked(after, request);
  }

  lemma BlockedStep(history: History, operation: Operation)
    requires Contiguous(history.Keys) && Blocked(history.Keys) && !operation.RollbackOp?
    ensures var after := StepHistory(history, operation);
      && Contiguous(after.Keys) && Blocked(after.Keys)
      && Newest(after.Keys) == Newest(history.Keys)
      && after.Keys <= history.Keys && (forall v :: v in after ==> after[v] == history[v])
  {
    match operation
    case PublishOp(request) => AppendSucceedsUnlessBlocked(history, PublishedFacts(HeadFacts(history), request));
    case CommitOp(work) => AppendSucceedsUnlessBlocked(history, SessionFacts(HeadFacts(history), work));
    case PruneOp(version) =>
      var after := StepHistory(history, operation);
      assert Newest(history.Keys) in history.Keys;
      if after != history {
        RestrictedKeys(history, From(history.Keys, version));
        assert Newest(history.Keys) in after.Keys;
      }
      StillContiguous(history.Keys, version);
      SubsetSize(after.Keys, history.Keys);
    case ReindexOp =>
  }

  /** A blocked store stays blocked, with the same newest version, until it is rolled back. */
  lemma {:induction false} BlockedUntilRollback(history: History, operations: seq<Operation>)
    requires Contiguous(history.Keys) && Blocked(history.Keys)
    requires forall i :: 0 <= i < |operations| ==> !operations[i].RollbackOp?
    ensures var after := RunHistory(history, operations);
      && Contiguous(after.Keys) && Blocked(after.Keys)
      && Newest(after.Keys) == Newest(history.Keys)
      && after.Keys <= history.Keys && (forall v :: v in after ==> after[v] == history[v])
  {
    if operations != [] {
      var last := |operations| - 1;
      BlockedUntilRollback(history, operations[..last]);
      BlockedStep(RunHistory(history, operations[..last]), operations[last]);
    }
  }

  lemma RestrictedKeys<K, V>(m: map<K, V>, keys: set<K>)
    requires keys <= m.Keys
    ensures Restrict(m, keys).Keys == keys
  {}

  /** What a publication that is not refused does to the set of versions. */
  function Advance(versions: set<Version>): set<Version> {
    var version := Newest(versions) + 1;
    if version <= RETAINED_GRAPH_VERSIONS then versions + {version}
    else From(versions + {version}, version - RETAINED_GRAPH_VERSIONS + 1)
  }

  lemma AppendAdvances(history: History, facts: VersionFacts)
    requires Append(history, facts).Ok?
    ensures Append(history, facts).value.Keys == Advance(history.Keys)
  {
    var version := Newest(history.Keys) + 1;
    AppendUnfolds(history, version, facts);
    var appended := history[version := facts];
    assert appended.Keys == history.Keys + {version};
    if version > RETAINED_GRAPH_VERSIONS {
      RestrictedKeys(appended, From(appended.Keys, version - RETAINED_GRAPH_VERSIONS + 1));
    }
  }

  lemma NewestIs(versions: set<Version>, version: Version)
    requires version in versions && forall v :: v in versions ==> v <= version
    ensures Newest(versions) == version
  {}

  lemma AdvanceRetains(versions: set<Version>)
    requires Contiguous(versions)
    ensures Contiguous(Advance(versions)) && |Advance(versions)| <= RETAINED_GRAPH_VERSIONS
    ensures Newest(Advance(versions)) == Newest(versions) + 1
  {
    var version := Newest(versions) + 1;
    var low := if version <= RETAINED_GRAPH_VERSIONS then 1 else version - RETAINED_GRAPH_VERSIONS + 1;
    StillContiguous(versions, version);
    StillContiguous(versions + {version}, low);
    assert Contiguous(versions + {version}) && Contiguous(Advance(versions));
    hide Contiguous;
    NewestIs(Advance(versions), version);
    assert 0 !in versions;
    assert Advance(versions) <= Interval(low, version + 1);
    SubsetSize(Advance(versions), Interval(low, version + 1));
  }

  lemma AppendContents(history: History, facts: VersionFacts, after: History)
    requires Append(history, facts) == Ok(after)
    ensures Newest(history.Keys) + 1 in after && after[Newest(history.Keys) + 1] == facts
    ensures history != map[] ==> Newest(history.Keys) in after && after[Newest(history.Keys)] == HeadFacts(history)
  {
    assert history != map[] ==> Newest(history.Keys) in history.Keys;
  }

  /** A successful publication leaves at most 25 versions, with no gaps, and the previous head one below
      the new one. */
  lemma AppendRetains(history: History, facts: VersionFacts, after: History)
    requires Contiguous(history.Keys) && Append(history, facts) == Ok(after)
    ensures Contiguous(after.Keys) && |after.Keys| <= RETAINED_GRAPH_VERSIONS
    ensures Newest(after.Keys) == Newest(history.Keys) + 1
    ensures Newest(after.Keys) in after && after[Newest(after.Keys)] == facts
    ensures history != map[] ==>
      Newest(history.Keys) in after && after[Newest(history.Keys)] == HeadFacts(history)
  {
    hide Contiguous, Append, Advance;
    AppendAdvances(history, facts);
    AdvanceRetains(history.Keys);
    AppendContents(history, facts, after);
  }

  predicate Appends(operation: Operation) {
    match operation
    case PublishOp(request) => DistinctPaths(request.update)
    case CommitOp(_) => true
    case _ => false
  }

  /** The versions a store holds after n publications and nothing else: the newest min(n, 25). */
  ghost predicate HoldsNewest(versions: set<Version>, n: nat) {
    forall v :: v in versions <==> 1 <= v <= n < v + RETAINED_GRAPH_VERSIONS
  }

  lemma HoldsNewestIsOpen(versions: set<Version>, n: nat)
    requires HoldsNewest(versions, n)
    ensures Contiguous(versions) && Newest(versions) == n && !Blocked(versions)
  {
    if n > 0 {
      assert n in versions;
    }
    if n >= RETAINED_GRAPH_VERSIONS {
      BoundaryExists(versions);
    }
  }

  lemma AdvanceHoldsNewest(versions: set<Version>, n: nat)
    requires HoldsNewest(versions, n)
    ensures HoldsNewest(Advance(versions), n + 1)
  {
    HoldsNewestIsOpen(versions, n);
  }

  lemma AppendHoldsNewest(history: History, n: nat, facts: VersionFacts)
    requires HoldsNewest(history.Keys, n)
    ensures HoldsNewest(After(history, Append(history, facts)).Keys, n + 1)
  {
    HoldsNewestIsOpen(history.Keys, n);
    AppendSucceedsUnlessBlocked(history, facts);
    AppendAdvances(history, facts);
    AdvanceHoldsNewest(history.Keys, n);
  }

  /** Without manual pruning or rollback no publication is ever refused: after n of them the store holds
      the newest min(n, 25) versions, numbered up to n. */
  lemma {:induction false} PublicationsNeverBlock(operations: seq<Operation>)
    requires forall i :: 0 <= i < |operations| ==> Appends(operations[i])
    ensures HoldsNewest(RunHistory(map[], operations).Keys, |operations|)
    ensures !Blocked(RunHistory(map[], operations).Keys)
  {
    if operations != [] {
      var last := |operations| - 1;
      PublicationsNeverBlock(operations[..last]);
      var before := RunHistory(map[], operations[..last]);
      match operations[last]
      case PublishOp(request) => AppendHoldsNewest(before, last, PublishedFacts(HeadFacts(before), request));
      case CommitOp(work) => AppendHoldsNewest(before, last, SessionFacts(HeadFacts(before), work));
    }
    HoldsNewestIsOpen(RunHistory(map[], operations).Keys, |operations|);
  }
}
