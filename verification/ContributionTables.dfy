/** The twelve contribution tables and the SQL statements that every store operation runs on all of
    them.  A row carries a validity interval: it is read by a snapshot at version v when
    from <= v and its end is open or at least v. */
module ContributionTables {
  import opened Wrappers

  type Version = nat
  type Path = string

  datatype Table =
    | FileContributions
    | Extensions
    | Nodes
    | Edges
    | CatalogUnits
    | CatalogCoverage
    | Dependencies
    | ExportedSurfaces
    | Diagnostics
    | UnresolvedReferences
    | ModuleBindings
    | SymbolReferences

  datatype NodeText = NodeText(id: string, labelText: string, qualifiedName: string, spanPath: string, kind: string)

  /** The columns of a row besides workspace, path and interval. */
  datatype Payload =
    | Header(projectId: string, extractorName: string, extractorVersion: string)
    | NodeFact(text: NodeText, evidence: string)
    | Fact(key: string, columns: string)
  {
    /** What the primary key of the row's table holds besides (path, from). */
    function Key(): string {
      match this
      case Header(_, _, _) => ""
      case NodeFact(text, _) => text.id
      case Fact(key, _) => key
    }
  }

  datatype Row = Row(path: Path, from: Version, to: Option<Version>, payload: Payload) {
    predicate VisibleAt(v: Version) {
      from <= v && (to.None? || v <= to.value)
    }

    predicate SameSpan(other: Row) {
      path == other.path && from == other.from && to == other.to
    }

    predicate SameKey(other: Row) {
      path == other.path && from == other.from && payload.Key() == other.payload.Key()
    }
  }

  type Rows = set<Row>

  type Tables = m: map<Table, Rows> | forall t: Table :: t in m
    witness map t: Table :: {}

  const EMPTY_TABLES: Tables := map t: Table :: {}

  // ----- statements -------------------------------------------------------------------------

  /** The statements that run once per table; each looks at a row's path and interval only. */
  datatype Statement =
    | Close(path: Path, to: Version)                   // closeContributionRecords
    | CloseMissing(staged: set<Path>, to: Version)     // closeContributionsMissingFromStagedSources
    | Reopen(version: Version)                         // reopenContributionRecords
    | Rebase(version: Version)                         // rebaseContributions
    | DeleteAfter(version: Version)                    // deleteContributionRecords, valid_from_version > ?
    | DeleteBefore(version: Version)                   // deleteContributionRecords, valid_from_version < ?
  {
    /** The row after the statement, or None when the statement deletes it. */
    function Effect(row: Row): Option<Row> {
      match this
      case Close(path, to) =>
        Some(if row.path == path && row.to.None? then row.(to := Some(to)) else row)
      case CloseMissing(staged, to) =>
        Some(if row.path !in staged && row.to.None? then row.(to := Some(to)) else row)
      case Reopen(version) =>
        Some(if row.to.Some? && version <= row.to.value then row.(to := None) else row)
      case Rebase(version) =>
        Some(if row.from < version && (row.to.None? || version <= row.to.value) then row.(from := version) else row)
      case DeleteAfter(version) =>
        if version < row.from then None else Some(row)
      case DeleteBefore(version) =>
        if row.from < version then None else Some(row)
    }

    predicate Skips(row: Row) {
      Effect(row) == Some(row)
    }
  }

  function Execute(rows: Rows, statement: Statement): Rows {
    set row | row in rows && statement.Effect(row).Some? :: statement.Effect(row).value
  }

  function ExecuteAll(tables: Tables, statement: Statement): Tables {
    map t: Table :: Execute(tables[t], statement)
  }

  /** INSERT OR IGNORE: a row whose primary key is taken is dropped. */
  function InsertOrIgnore(rows: Rows, row: Row): Rows {
    if exists taken :: taken in rows && taken.SameKey(row) then rows else rows + {row}
  }

  function InsertAll(rows: Rows, inserted: seq<Row>): Rows {
    if inserted == [] then rows
    else InsertOrIgnore(InsertAll(rows, inserted[..|inserted| - 1]), inserted[|inserted| - 1])
  }

  // ----- contributions ----------------------------------------------------------------------

  type Facts = m: map<Table, seq<Payload>> | forall t: Table :: t in m
    witness map t: Table :: []

  /** One source file's prepared facts: per table, the payloads in insertion order. */
  datatype Contribution = Contribution(path: Path, facts: Facts) {
    ghost predicate WellFormed() {
      && |facts[FileContributions]| == 1
      && facts[FileContributions][0].Header?
      && |facts[CatalogCoverage]| == 1
    }

    function Rows(t: Table, version: Version): seq<Row> {
      OpenRows(path, version, facts[t])
    }
  }

  function OpenRows(path: Path, version: Version, payloads: seq<Payload>): seq<Row> {
    seq(|payloads|, i requires 0 <= i < |payloads| => Row(path, version, None, payloads[i]))
  }

  /** What a snapshot holds for one source path: per table, the payloads. */
  type Record = m: map<Table, set<Payload>> | forall t: Table :: t in m
    witness map t: Table :: {}

  const EMPTY_RECORD: Record := map t: Table :: {}

  /** The payloads left once later duplicates of a key are dropped. */
  function FirstPerKey(payloads: seq<Payload>): set<Payload> {
    if payloads == [] then {}
    else
      var kept, last := FirstPerKey(payloads[..|payloads| - 1]), payloads[|payloads| - 1];
      if exists taken :: taken in kept && taken.Key() == last.Key() then kept else kept + {last}
  }

  function Stored(contribution: Contribution): Record {
    map t: Table :: FirstPerKey(contribution.facts[t])
  }

  function InsertContribution(tables: Tables, contribution: Contribution, version: Version): Tables {
    map t: Table :: InsertAll(tables[t], contribution.Rows(t, version))
  }

  /** Closes the path's open rows just before the version; the first version has nothing to close. */
  function CloseBefore(tables: Tables, path: Path, version: Version): Tables {
    if version > 1 then ExecuteAll(tables, Close(path, version - 1)) else tables
  }

  /** What publicationBatch.add means for the tables: close the path's open rows, then insert. */
  function AddContribution(tables: Tables, contribution: Contribution, version: Version): Tables {
    InsertContribution(CloseBefore(tables, contribution.path, version), contribution, version)
  }

  function AddContributions(tables: Tables, contributions: seq<Contribution>, version: Version): Tables {
    if contributions == [] then tables
    else AddContribution(AddContributions(tables, contributions[..|contributions| - 1], version),
                         contributions[|contributions| - 1], version)
  }

  // ----- reading a snapshot -----------------------------------------------------------------

  function Payloads(rows: Rows, path: Path, v: Version): set<Payload> {
    set row | row in rows && row.path == path && row.VisibleAt(v) :: row.payload
  }

  function RecordAt(tables: Tables, path: Path, v: Version): Record {
    map t: Table :: Payloads(tables[t], path, v)
  }

  function PathsAt(tables: Tables, v: Version): set<Path> {
    set row | row in tables[FileContributions] && row.VisibleAt(v) :: row.path
  }

  /** The plain map that the interval rows stand for at one version. */
  function Snapshot(tables: Tables, v: Version): map<Path, Record> {
    map path | path in PathsAt(tables, v) :: RecordAt(tables, path, v)
  }

  // ----- the interval invariant -------------------------------------------------------------

  /** Two rows of one path either share their interval or have intervals that do not meet. */
  ghost predicate Apart(row: Row, other: Row) {
    row.path == other.path ==>
      || row.SameSpan(other)
      || (row.to.Some? && row.to.value < other.from)
      || (other.to.Some? && other.to.value < row.from)
  }

  ghost predicate HasSpan(rows: Rows, row: Row) {
    exists other :: other in rows && other.SameSpan(row)
  }

  ghost predicate Ordered(tables: Tables) {
    forall t: Table, row :: row in tables[t] && row.to.Some? ==> row.from <= row.to.value
  }

  /** The intervals of a path are disjoint or equal, across all twelve tables. */
  ghost predicate PairwiseApart(tables: Tables) {
    forall t: Table, u: Table, row, other :: row in tables[t] && other in tables[u] ==> Apart(row, other)
  }

  ghost predicate KeysUnique(tables: Tables) {
    forall t: Table, row, other :: row in tables[t] && other in tables[t] && row.SameKey(other) ==> row == other
  }

  /** Every row has a header row, and every header row a coverage row, with the same interval. */
  ghost predicate Anchored(tables: Tables) {
    && (forall t: Table, row {:trigger row in tables[t], HasSpan(tables[FileContributions], row)} ::
      row in tables[t] ==> HasSpan(tables[FileContributions], row))
    && (forall row {:trigger HasSpan(tables[CatalogCoverage], row)} ::
      row in tables[FileContributions] ==> row.payload.Header? && HasSpan(tables[CatalogCoverage], row))
  }

  ghost predicate LockStep(tables: Tables) {
    Ordered(tables) && PairwiseApart(tables) && KeysUnique(tables) && Anchored(tables)
  }

  /** Every row was opened by an existing version and closed just before an existing version. */
  ghost predicate Bounded(tables: Tables, versions: set<Version>) {
    forall t: Table, row :: row in tables[t] ==>
      row.from in versions && (row.to.Some? ==> row.to.value + 1 in versions)
  }

  // ----- one statement ----------------------------------------------------------------------

  lemma ExecuteMember(rows: Rows, statement: Statement, row: Row)
    requires row in rows && statement.Effect(row).Some?
    ensures statement.Effect(row).value in Execute(rows, statement)
  {}

  lemma ExecuteOrigin(rows: Rows, statement: Statement, after: Row) returns (row: Row)
    requires after in Execute(rows, statement)
    ensures row in rows && statement.Effect(row) == Some(after)
  {
    row :| row in rows && statement.Effect(row) == Some(after);
  }

  lemma EffectKeepsApart(statement: Statement, row: Row, other: Row)
    requires Apart(row, other)
    requires statement.Reopen? ==> row.from <= statement.version && other.from <= statement.version
    requires statement.Effect(row).Some? && statement.Effect(other).Some?
    ensures Apart(statement.Effect(row).value, statement.Effect(other).value)
  {}

  lemma EffectKeepsSpan(statement: Statement, rows: Rows, row: Row)
    requires HasSpan(rows, row) && statement.Effect(row).Some?
    ensures HasSpan(Execute(rows, statement), statement.Effect(row).value)
  {
    var other :| other in rows && other.SameSpan(row);
    ExecuteMember(rows, statement, other);
  }

  /** No statement makes two rows collide on a primary key; for Rebase this is what keeps the UPDATE
      of valid_from_version from failing. */
  lemma EffectKeepsKeys(statement: Statement, row: Row, other: Row)
    requires Apart(row, other)
    requires row.SameKey(other) ==> row == other
    requires row.to.Some? ==> row.from <= row.to.value
    requires other.to.Some? ==> other.from <= other.to.value
    requires statement.Effect(row).Some? && statement.Effect(other).Some?
    requires statement.Effect(row).value.SameKey(statement.Effect(other).value)
    ensures row == other
  {}

  /** Two rows of one table never get the same primary key from a statement, so no UPDATE fails and no
      row is swallowed by another. */
  lemma StatementsNeverCollide(tables: Tables, statement: Statement, t: Table, row: Row, other: Row)
    requires LockStep(tables) && row in tables[t] && other in tables[t] && row != other
    requires statement.Effect(row).Some? && statement.Effect(other).Some?
    ensures !statement.Effect(row).value.SameKey(statement.Effect(other).value)
  {
    assert Apart(row, other);
    hide Anchored, PairwiseApart;
    if statement.Effect(row).value.SameKey(statement.Effect(other).value) {
      EffectKeepsKeys(statement, row, other);
    }
  }

  lemma ExecuteKeepsPairs(tables: Tables, statement: Statement)
    requires Ordered(tables) && PairwiseApart(tables) && KeysUnique(tables)
    requires statement.Reopen? ==> forall t: Table, row :: row in tables[t] ==> row.from <= statement.version
    ensures PairwiseApart(ExecuteAll(tables, statement)) && KeysUnique(ExecuteAll(tables, statement))
  {
    var after := ExecuteAll(tables, statement);
    forall t: Table, u: Table, row, other | row in after[t] && other in after[u]
      ensures Apart(row, other)
    {
      var row0 := ExecuteOrigin(tables[t], statement, row);
      var other0 := ExecuteOrigin(tables[u], statement, other);
      EffectKeepsApart(statement, row0, other0);
    }
    forall t: Table, row, other | row in after[t] && other in after[t] && row.SameKey(other)
      ensures row == other
    {
      var row0 := ExecuteOrigin(tables[t], statement, row);
      var other0 := ExecuteOrigin(tables[t], statement, other);
      EffectKeepsKeys(statement, row0, other0);
    }
  }

  lemma ExecuteKeepsAnchors(tables: Tables, statement: Statement)
    requires Anchored(tables)
    ensures Anchored(ExecuteAll(tables, statement))
  {
    var after := ExecuteAll(tables, statement);
    forall t: Table, row | row in after[t]
      ensures HasSpan(after[FileContributions], row)
      ensures t == FileContributions ==> row.payload.Header? && HasSpan(after[CatalogCoverage], row)
    {
      var row0 := ExecuteOrigin(tables[t], statement, row);
      EffectKeepsSpan(statement, tables[FileContributions], row0);
      if t == FileContributions {
        EffectKeepsSpan(statement, tables[CatalogCoverage], row0);
      }
    }
  }

  lemma ExecuteKeepsLockStep(tables: Tables, statement: Statement)
    requires LockStep(tables)
    requires statement.Reopen? ==> forall t: Table, row :: row in tables[t] ==> row.from <= statement.version
    requires statement.Close? || statement.CloseMissing? ==>
      forall t: Table, row :: row in tables[t] && row.to.None? ==> row.from <= statement.to || statement.Skips(row)
    ensures LockStep(ExecuteAll(tables, statement))
  {
    ExecuteKeepsPairs(tables, statement);
    ExecuteKeepsAnchors(tables, statement);
    forall t: Table, row | row in ExecuteAll(tables, statement)[t] && row.to.Some?
      ensures row.from <= row.to.value
    {
      var row0 := ExecuteOrigin(tables[t], statement, row);
    }
  }

  /** Reading the row at v before the statement gives what reading it at w gives afterwards. */
  ghost predicate Agrees(statement: Statement, row: Row, v: Version, w: Version) {
    row.VisibleAt(v) <==> statement.Effect(row).Some? && statement.Effect(row).value.VisibleAt(w)
  }

  lemma ExecuteReads(tables: Tables, statement: Statement, path: Path, v: Version, w: Version)
    requires forall t: Table, row :: row in tables[t] && row.path == path ==> Agrees(statement, row, v, w)
    ensures RecordAt(ExecuteAll(tables, statement), path, w) == RecordAt(tables, path, v)
    ensures path in PathsAt(ExecuteAll(tables, statement), w) <==> path in PathsAt(tables, v)
  {
    var after := ExecuteAll(tables, statement);
    forall t: Table
      ensures Payloads(after[t], path, w) == Payloads(tables[t], path, v)
      ensures (exists row :: row in after[t] && row.path == path && row.VisibleAt(w))
         <==> (exists row :: row in tables[t] && row.path == path && row.VisibleAt(v))
    {
      forall row | row in tables[t] && row.path == path && row.VisibleAt(v)
        ensures exists image ::
          image in after[t] && image.path == path && image.VisibleAt(w) && image.payload == row.payload
      {
        assert Agrees(statement, row, v, w);
        ExecuteMember(tables[t], statement, row);
        var image := statement.Effect(row).value;
        assert image in after[t] && image.path == path && image.VisibleAt(w) && image.payload == row.payload;
      }
      forall image | image in after[t] && image.path == path && image.VisibleAt(w)
        ensures exists row :: row in tables[t] && row.path == path && row.VisibleAt(v) && row.payload == image.payload
      {
        var row := ExecuteOrigin(tables[t], statement, image);
        assert Agrees(statement, row, v, w);
      }
    }
  }

  lemma ExecuteKeepsSnapshot(tables: Tables, statement: Statement, v: Version)
    requires forall t: Table, row :: row in tables[t] ==> Agrees(statement, row, v, v)
    ensures Snapshot(ExecuteAll(tables, statement), v) == Snapshot(tables, v)
  {
    forall path {
      ExecuteReads(tables, statement, path, v, v);
    }
  }
}
