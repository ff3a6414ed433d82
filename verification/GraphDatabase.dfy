/** One workspace's tables and the transactions that change them, as the relational meaning of their
    SQL statements. */
module GraphDatabase {
  import opened Wrappers
  import opened ContributionTables
  import opened ContributionHistory

  const RETAINED_GRAPH_VERSIONS := 25

  datatype WorkspaceNode = WorkspaceNode(text: NodeText, evidence: string)

  datatype EdgeKey = EdgeKey(sourceId: string, targetId: string, relation: string)

  datatype WorkspaceEdge = WorkspaceEdge(key: EdgeKey, evidence: string, owner: string)

  type NodeTable = map<string, WorkspaceNode>
  type EdgeTable = map<EdgeKey, WorkspaceEdge>

  /** workspace_nodes, workspace_edges and node_search are grouped by their version column; the first
      two are keyed by the rest of their primary key, the search index counts its rows. */
  datatype Database = Database(
    versions: set<Version>,
    tables: Tables,
    workspaceNodes: map<Version, NodeTable>,
    workspaceEdges: map<Version, EdgeTable>,
    search: map<Version, map<NodeText, nat>>)

  const EMPTY_DATABASE := Database({}, EMPTY_TABLES, map[], map[], map[])

  datatype StoreError = InvalidRequest | GraphVersionNotFound | KeyTaken | Unavailable

  function At<K, V>(groups: map<Version, map<K, V>>, v: Version): map<K, V> {
    if v in groups then groups[v] else map[]
  }

  // ----- queries ----------------------------------------------------------------------------

  lemma NewestExists(versions: set<Version>)
    requires versions != {}
    ensures exists v :: v in versions && forall w :: w in versions ==> w <= v
  {
    var v :| v in versions;
    if versions != {v} {
      NewestExists(versions - {v});
      var w :| w in versions - {v} && forall x :: x in versions - {v} ==> x <= w;
      var newest := if v < w then w else v;
      forall x | x in versions
        ensures x <= newest
      {
        assert x == v || x in versions - {v};
      }
    }
  }

  /** SELECT COALESCE(MAX(version), 0) */
  function Newest(versions: set<Version>): (v: Version)
    ensures versions == {} ==> v == 0
    ensures versions != {} ==> v in versions
    ensures forall w :: w in versions ==> w <= v
  {
    if versions == {} then 0
    else
      NewestExists(versions);
      var v :| v in versions && forall w :: w in versions ==> w <= v;
      v
  }

  /** The distinct node tuples a snapshot shows; both branches of the UNION in rebuildLexicalSnapshot. */
  function VisibleTexts(db: Database, v: Version): set<NodeText> {
    (set row | row in db.tables[Nodes] && row.VisibleAt(v) && row.payload.NodeFact? :: row.payload.text)
    + (set id | id in At(db.workspaceNodes, v) :: At(db.workspaceNodes, v)[id].text)
  }

  // ----- statements -------------------------------------------------------------------------

  function StoreNodes(stored: NodeTable, nodes: seq<WorkspaceNode>): NodeTable {
    if nodes == [] then stored
    else
      var before, last := StoreNodes(stored, nodes[..|nodes| - 1]), nodes[|nodes| - 1];
      if last.text.id in before then before else before[last.text.id := last]
  }

  function StoreEdges(stored: EdgeTable, edges: seq<WorkspaceEdge>): EdgeTable {
    if edges == [] then stored
    else
      var before, last := StoreEdges(stored, edges[..|edges| - 1]), edges[|edges| - 1];
      if last.key in before then before else before[last.key := last]
  }

  /** retainWorkspaceFacts: the previous version's edges whose owner is not replaced. */
  function RetainedEdges(previous: EdgeTable, replacedOwners: set<string>): EdgeTable {
    if replacedOwners == {} then map[]
    else map key | key in previous && previous[key].owner !in replacedOwners :: previous[key]
  }

  function IndexOf(texts: set<NodeText>): map<NodeText, nat> {
    map text | text in texts :: 1
  }

  /** rebuildLexicalSnapshot */
  function RebuildSearch(db: Database, version: Version): Database {
    db.(search := db.search[version := IndexOf(VisibleTexts(db, version))])
  }

  /** pruneVersions once the retention boundary is known to exist. */
  function PruneBefore(db: Database, version: Version): Database {
    Database(
      From(db.versions, version),
      PruneTables(db.tables, version),
      Restrict(db.workspaceNodes, From(db.workspaceNodes.Keys, version)),
      Restrict(db.workspaceEdges, From(db.workspaceEdges.Keys, version)),
      Restrict(db.search, From(db.search.Keys, version)))
  }

  function RollBackTo(db: Database, version: Version): Database {
    Database(
      UpTo(db.versions, version),
      RollbackTables(db.tables, version),
      Restrict(db.workspaceNodes, UpTo(db.workspaceNodes.Keys, version)),
      Restrict(db.workspaceEdges, UpTo(db.workspaceEdges.Keys, version)),
      Restrict(db.search, UpTo(db.search.Keys, version)))
  }

  // ----- transactions -----------------------------------------------------------------------

  datatype PublishRequest = PublishRequest(
    update: seq<Contribution>,
    nodes: seq<WorkspaceNode>,
    edges: seq<WorkspaceEdge>,
    replacedOwners: set<string>)

  /** storePreparedPublication: facts written at the version, before the version counts as published. */
  function Write(db: Database, version: Version, request: PublishRequest): Database {
    var previous := if version <= 1 then map[] else At(db.workspaceEdges, version - 1);
    db.(tables := AddContributions(db.tables, request.update, version),
        workspaceNodes := db.workspaceNodes[version := StoreNodes(At(db.workspaceNodes, version), request.nodes)],
        workspaceEdges := db.workspaceEdges[version :=
          StoreEdges(At(db.workspaceEdges, version) + RetainedEdges(previous, request.replacedOwners), request.edges)])
  }

  function Prune(db: Database, version: Version): Result<Database, StoreError> {
    if version == 0 then Err(InvalidRequest)
    else if version !in db.versions then Err(GraphVersionNotFound)
    else Ok(PruneBefore(db, version))
  }

  function Rollback(db: Database, version: Version): Result<Database, StoreError> {
    if version !in db.versions then Err(GraphVersionNotFound) else Ok(RollBackTo(db, version))
  }

  /** The end shared by Publish and Commit: record the version, prune, index. */
  function Finish(db: Database, version: Version): Result<Database, StoreError> {
    var recorded := db.(versions := db.versions + {version});
    if version > RETAINED_GRAPH_VERSIONS then
      match Prune(recorded, version - RETAINED_GRAPH_VERSIONS + 1)
      case Ok(pruned) => Ok(RebuildSearch(pruned, version))
      case Err(error) => Err(error)
    else Ok(RebuildSearch(recorded, version))
  }

  function Publish(db: Database, request: PublishRequest): Result<Database, StoreError> {
    if !DistinctPaths(request.update) then Err(InvalidRequest)
    else Finish(Write(db, Newest(db.versions) + 1, request), Newest(db.versions) + 1)
  }

  /** RebuildLexicalIndex */
  function Reindex(db: Database): Database {
    db.(search := map v | v in db.versions :: IndexOf(VisibleTexts(db, v)))
  }

  // ----- the plain map of versions ----------------------------------------------------------

  datatype VersionFacts = VersionFacts(contributions: map<Path, Record>, nodes: NodeTable, edges: EdgeTable)

  type History = map<Version, VersionFacts>

  function FactsAt(db: Database, v: Version): VersionFacts {
    VersionFacts(Snapshot(db.tables, v), At(db.workspaceNodes, v), At(db.workspaceEdges, v))
  }

  function HistoryOf(db: Database): History {
    map v | v in db.versions :: FactsAt(db, v)
  }

  const NO_FACTS := VersionFacts(map[], map[], map[])

  function HeadFacts(history: History): VersionFacts {
    if history == map[] then NO_FACTS else history[Newest(history.Keys)]
  }

  /** What a publication of the request makes the next version. */
  function PublishedFacts(head: VersionFacts, request: PublishRequest): VersionFacts {
    VersionFacts(
      head.contributions + Written(request.update),
      StoreNodes(map[], request.nodes),
      StoreEdges(RetainedEdges(head.edges, request.replacedOwners), request.edges))
  }

  /** Append a version and keep the newest 25; the store refuses when version - 24 is not there. */
  function Append(history: History, facts: VersionFacts): Result<History, StoreError> {
    var version := Newest(history.Keys) + 1;
    var appended := history[version := facts];
    if version <= RETAINED_GRAPH_VERSIONS then Ok(appended)
    else if version - RETAINED_GRAPH_VERSIONS + 1 !in appended then Err(GraphVersionNotFound)
    else Ok(Restrict(appended, From(appended.Keys, version - RETAINED_GRAPH_VERSIONS + 1)))
  }

  function PublishHistory(history: History, request: PublishRequest): Result<History, StoreError> {
    if !DistinctPaths(request.update) then Err(InvalidRequest)
    else Append(history, PublishedFacts(HeadFacts(history), request))
  }

  function RollbackHistory(history: History, version: Version): Result<History, StoreError> {
    if version !in history then Err(GraphVersionNotFound) else Ok(Restrict(history, UpTo(history.Keys, version)))
  }

  function PruneHistory(history: History, version: Version): Result<History, StoreError> {
    if version == 0 then Err(InvalidRequest)
    else if version !in history then Err(GraphVersionNotFound)
    else Ok(Restrict(history, From(history.Keys, version)))
  }

  // ----- the invariant ----------------------------------------------------------------------

  /** Exactly one row per distinct visible node tuple. */
  ghost predicate IndexExact(db: Database, v: Version) {
    At(db.search, v) == IndexOf(VisibleTexts(db, v))
  }

  ghost predicate Structured(db: Database) {
    && Contiguous(db.versions)
    && LockStep(db.tables) && Bounded(db.tables, db.versions)
    && db.workspaceNodes.Keys <= db.versions
    && db.workspaceEdges.Keys <= db.versions
    && db.search.Keys <= db.versions
  }

  ghost predicate Valid(db: Database) {
    Structured(db) && forall v {:trigger IndexExact(db, v)} :: v in db.versions ==> IndexExact(db, v)
  }
}
