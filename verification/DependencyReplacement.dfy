/** A sealed session may replace the dependencies of the contributions it wrote: their rows of the
    pending version are deleted and inserted anew, and nothing else of any snapshot changes. */
module DependencyReplacement {
  import opened Wrappers
  import opened ContributionTables
  import opened ContributionHistory
  import opened SqlTransaction

  /** DELETE FROM contribution_dependencies for one path of one version */
  function Without(rows: Rows, path: Path, version: Version): Rows {
    set row | row in rows && !(row.path == path && row.from == version)
  }

  function Replace(rows: Rows, contribution: Contribution, version: Version): Rows {
    InsertAll(Without(rows, contribution.path, version), contribution.Rows(Dependencies, version))
  }

  function ReplaceIn(tables: Tables, contribution: Contribution, version: Version): Tables {
    tables[Dependencies := Replace(tables[Dependencies], contribution, version)]
  }

  /** What a snapshot holds for the path afterwards. */
  function WithDependencies(record: Record, contribution: Contribution): Record {
    record[Dependencies := Stored(contribution)[Dependencies]]
  }

  /** The rows of the dependency table after a replacement, whatever statements produced them. */
  ghost predicate Replaced(tables: Tables, after: Tables, contribution: Contribution, version: Version) {
    && (forall t: Table :: t != Dependencies ==> after[t] == tables[t])
    && (forall row :: row in after[Dependencies] <==>
      || (row in tables[Dependencies] && !(row.path == contribution.path && row.from == version))
      || (row.path == contribution.path && row.from == version && row.to.None?
          && row.payload in Stored(contribution)[Dependencies]))
    && (forall p, q :: p in Stored(contribution)[Dependencies] && q in Stored(contribution)[Dependencies] ==>
      p.Key() != q.Key() || p == q)
  }

  lemma ReplacesRows(tables: Tables, contribution: Contribution, version: Version)
    ensures Replaced(tables, ReplaceIn(tables, contribution, version), contribution, version)
  {
    InsertAllRows(Without(tables[Dependencies], contribution.path, version), contribution.path, version,
      contribution.facts[Dependencies]);
  }

  /** The header is the one open header row of its path; the path's other rows share its interval or
      ended before it. */
  ghost predicate OwnHeader(tables: Tables, version: Version, header: Row) {
    && header in tables[FileContributions] && header.from == version && header.to.None?
    && forall t: Table, row :: row in tables[t] && row.path == header.path ==>
      row.SameSpan(header) || (row.to.Some? && row.to.value < version)
  }

  lemma FindHeader(base: Tables, versions: set<Version>, version: Version, tables: Tables, written: set<Path>,
          contents: map<Path, Record>, path: Path) returns (header: Row)
    requires Next(versions, version) && Pending(base, versions, version, tables, written, contents)
    requires path in written && path in contents
    ensures header.path == path && OwnHeader(tables, version, header)
  {
    assert path in PathsAt(tables, version);
    header :| header in tables[FileContributions] && header.path == path && header.VisibleAt(version);
    forall t: Table, row | row in tables[t] && row.path == path
      ensures row.SameSpan(header) || (row.to.Some? && row.to.value < version)
    {
      assert Apart(row, header);
    }
  }

  // ----- the interval invariant -------------------------------------------------------------

  /** Every new row shares the header's interval. */
  ghost predicate GrownAt(tables: Tables, after: Tables, header: Row) {
    && after[FileContributions] == tables[FileContributions] && after[CatalogCoverage] == tables[CatalogCoverage]
    && forall t: Table, row {:trigger row in after[t]} :: row in after[t] ==> row in tables[t] || row.SameSpan(header)
  }

  lemma ReplaceGrows(tables: Tables, after: Tables, contribution: Contribution, version: Version, header: Row)
    requires Replaced(tables, after, contribution, version)
    requires OwnHeader(tables, version, header) && header.path == contribution.path
    ensures GrownAt(tables, after, header)
  {
    hide Stored;
  }

  lemma OwnSpanApart(tables: Tables, version: Version, header: Row, t: Table, u: Table, row: Row, other: Row)
    requires PairwiseApart(tables) && OwnHeader(tables, version, header)
    requires row in tables[t] || row.SameSpan(header)
    requires other in tables[u] || other.SameSpan(header)
    ensures Apart(row, other)
  {
    if row in tables[t] && other in tables[u] {
      assert Apart(row, other);
    }
  }

  lemma GrowthKeepsPairs(tables: Tables, after: Tables, version: Version, header: Row)
    requires PairwiseApart(tables) && GrownAt(tables, after, header) && OwnHeader(tables, version, header)
    ensures PairwiseApart(after)
  {
    hide OwnHeader, Apart, Row.SameSpan;
    forall t: Table, u: Table, row, other | row in after[t] && other in after[u]
      ensures Apart(row, other)
    {
      hide PairwiseApart;
      OwnSpanApart(tables, version, header, t, u, row, other);
    }
  }

  lemma GrowthKeepsOrder(tables: Tables, after: Tables, header: Row)
    requires Ordered(tables) && GrownAt(tables, after, header) && header.to.None?
    ensures Ordered(after)
  {}

  lemma GrowthKeepsAnchors(tables: Tables, after: Tables, header: Row)
    requires Anchored(tables) && GrownAt(tables, after, header) && header in tables[FileContributions]
    ensures Anchored(after)
  {
    forall t: Table, row | row in after[t]
      ensures HasSpan(after[FileContributions], row)
    {
      if row in tables[t] {
        assert HasSpan(tables[FileContributions], row);
      } else {
        assert header.SameSpan(row);
      }
    }
    forall row | row in after[FileContributions]
      ensures row.payload.Header? && HasSpan(after[CatalogCoverage], row)
    {
      assert HasSpan(tables[CatalogCoverage], row);
    }
  }

  lemma ReplacedKey(tables: Tables, after: Tables, contribution: Contribution, version: Version, row: Row, other: Row)
    requires KeysUnique(tables) && Replaced(tables, after, contribution, version)
    requires row in after[Dependencies] && other in after[Dependencies] && row.SameKey(other)
    ensures row == other
  {
    hide Stored;
  }

  lemma ReplaceKeepsKeys(tables: Tables, after: Tables, contribution: Contribution, version: Version)
    requires KeysUnique(tables) && Replaced(tables, after, contribution, version)
    ensures KeysUnique(after)
  {
    assert forall t: Table :: t != Dependencies ==> after[t] == tables[t];
    hide Replaced;
    forall t: Table, row, other | row in after[t] && other in after[t] && row.SameKey(other)
      ensures row == other
    {
      if t == Dependencies {
        ReplacedKey(tables, after, contribution, version, row, other);
      } else {
        assert row in tables[t] && other in tables[t];
      }
    }
  }

  // ----- what snapshots read ----------------------------------------------------------------

  lemma UpdatedRecord(before: Record, after: Record, t: Table, payloads: set<Payload>)
    requires after[t] == payloads && forall u: Table :: u != t ==> after[u] == before[u]
    ensures after == before[t := payloads]
  {}

  /** Two reads of a path whose tables agree but for the dependencies. */
  lemma SameButDependencies(tables: Tables, after: Tables, path: Path, v: Version, dependencies: set<Payload>)
    requires forall t: Table :: t != Dependencies ==> after[t] == tables[t]
    requires Payloads(after[Dependencies], path, v) == dependencies
    ensures RecordAt(after, path, v) == RecordAt(tables, path, v)[Dependencies := dependencies]
  {
    hide Payloads;
    UpdatedRecord(RecordAt(tables, path, v), RecordAt(after, path, v), Dependencies, dependencies);
  }

  lemma ReplaceReadsElsewhere(tables: Tables, after: Tables, contribution: Contribution, version: Version, path: Path,
          v: Version)
    requires Replaced(tables, after, contribution, version) && (v < version || path != contribution.path)
    ensures RecordAt(after, path, v) == RecordAt(tables, path, v)
  {
    hide Stored;
    var dependencies := Payloads(tables[Dependencies], path, v);
    assert Payloads(after[Dependencies], path, v) == dependencies;
    hide Payloads;
    SameButDependencies(tables, after, path, v, dependencies);
    SameButDependencies(tables, tables, path, v, dependencies);
  }

  lemma ReplacedPayloads(tables: Tables, after: Tables, contribution: Contribution, version: Version, header: Row)
    requires Replaced(tables, after, contribution, version)
    requires OwnHeader(tables, version, header) && header.path == contribution.path
    ensures Payloads(after[Dependencies], contribution.path, version) == Stored(contribution)[Dependencies]
  {
    hide Stored;
    var rows := after[Dependencies];
    forall payload | payload in Stored(contribution)[Dependencies]
      ensures payload in Payloads(rows, contribution.path, version)
    {
      assert Row(contribution.path, version, None, payload) in rows;
    }
    forall row | row in rows && row.path == contribution.path && row.VisibleAt(version)
      ensures row.payload in Stored(contribution)[Dependencies]
    {
      assert row in tables[Dependencies] ==> row.SameSpan(header) || !row.VisibleAt(version);
    }
  }

  lemma ReplaceReadsHere(tables: Tables, after: Tables, contribution: Contribution, version: Version, header: Row)
    requires Replaced(tables, after, contribution, version)
    requires OwnHeader(tables, version, header) && header.path == contribution.path
    ensures RecordAt(after, contribution.path, version)
         == WithDependencies(RecordAt(tables, contribution.path, version), contribution)
  {
    ReplacedPayloads(tables, after, contribution, version, header);
    hide Payloads, Stored, OwnHeader, RecordAt;
    SameButDependencies(tables, after, contribution.path, version, Stored(contribution)[Dependencies]);
  }

  lemma SamePaths(first: Tables, second: Tables, v: Version)
    requires first[FileContributions] == second[FileContributions]
    ensures PathsAt(first, v) == PathsAt(second, v)
  {}

  lemma HeaderIsVisible(tables: Tables, version: Version, header: Row)
    requires OwnHeader(tables, version, header)
    ensures header.path in PathsAt(tables, version)
  {
    assert header.VisibleAt(version);
  }

  lemma ReplaceKeepsPaths(tables: Tables, after: Tables, contribution: Contribution, version: Version, header: Row,
          v: Version)
    requires Replaced(tables, after, contribution, version)
    requires OwnHeader(tables, version, header) && header.path == contribution.path
    ensures PathsAt(after, v) == PathsAt(tables, v) && contribution.path in PathsAt(tables, version)
  {
    hide Stored, OwnHeader, PathsAt;
    SamePaths(after, tables, v);
    HeaderIsVisible(tables, version, header);
  }

  lemma ReplaceReadsBefore(tables: Tables, after: Tables, contribution: Contribution, version: Version, header: Row,
          v: Version)
    requires Replaced(tables, after, contribution, version) && v < version
    requires OwnHeader(tables, version, header) && header.path == contribution.path
    ensures Snapshot(after, v) == Snapshot(tables, v)
  {
    ReplaceKeepsPaths(tables, after, contribution, version, header, v);
    hide RecordAt, Replaced, OwnHeader, PathsAt, Snapshot;
    forall path
      ensures RecordAt(after, path, v) == RecordAt(tables, path, v)
    {
      ReplaceReadsElsewhere(tables, after, contribution, version, path, v);
    }
    SameSnapshot(after, tables, v);
  }

  lemma ReplaceReads(tables: Tables, after: Tables, contribution: Contribution, version: Version, header: Row)
    requires Replaced(tables, after, contribution, version)
    requires OwnHeader(tables, version, header) && header.path == contribution.path
    ensures contribution.path in PathsAt(tables, version)
    ensures Snapshot(after, version)
         == Snapshot(tables, version)[contribution.path :=
              WithDependencies(RecordAt(tables, contribution.path, version), contribution)]
  {
    hide RecordAt, Replaced, OwnHeader, PathsAt, Snapshot, WithDependencies;
    ReplaceKeepsPaths(tables, after, contribution, version, header, version);
    forall path | path != contribution.path
      ensures RecordAt(after, path, version) == RecordAt(tables, path, version)
    {
      ReplaceReadsElsewhere(tables, after, contribution, version, path, version);
    }
    ReplaceReadsHere(tables, after, contribution, version, header);
    SnapshotWith(after, tables, version, contribution.path,
                 WithDependencies(RecordAt(tables, contribution.path, version), contribution));
  }

  // ----- the pending version ----------------------------------------------------------------

  lemma ReplaceKeepsBounds(tables: Tables, after: Tables, versions: set<Version>, version: Version, written: set<Path>,
          contribution: Contribution)
    requires Replaced(tables, after, contribution, version) && contribution.path in written
    requires Bounded(tables, versions + {version}) && Superseded(tables, version, written)
    requires forall t: Table, row :: row in tables[t] && row.from == version ==> row.path in written && row.to.None?
    ensures Bounded(after, versions + {version}) && Superseded(after, version, written)
    ensures forall t: Table, row :: row in after[t] && row.from == version ==> row.path in written && row.to.None?
  {
    hide Stored;
    forall t: Table, row | row in after[t]
      ensures row in tables[t] || (row.path == contribution.path && row.from == version && row.to.None?)
    {}
  }

  lemma ReplaceKeepsLockStep(tables: Tables, after: Tables, contribution: Contribution, version: Version, header: Row)
    requires LockStep(tables) && Replaced(tables, after, contribution, version)
    requires OwnHeader(tables, version, header) && header.path == contribution.path
    ensures LockStep(after)
  {
    hide Replaced, PairwiseApart, Ordered, Anchored, KeysUnique, GrownAt;
    ReplaceGrows(tables, after, contribution, version, header);
    GrowthKeepsPairs(tables, after, version, header);
    GrowthKeepsOrder(tables, after, header);
    GrowthKeepsAnchors(tables, after, header);
    ReplaceKeepsKeys(tables, after, contribution, version);
  }

  lemma ReplaceKeepsPending(base: Tables, versions: set<Version>, version: Version, tables: Tables, written: set<Path>,
          contents: map<Path, Record>, contribution: Contribution)
    requires Next(versions, version) && Pending(base, versions, version, tables, written, contents)
    requires contribution.path in written && contribution.path in contents
    ensures Pending(base, versions, version, ReplaceIn(tables, contribution, version), written,
                    contents[contribution.path := WithDependencies(contents[contribution.path], contribution)])
  {
    var after := ReplaceIn(tables, contribution, version);
    hide Replaced, OwnHeader, ReplaceIn, WithDependencies, RecordAt, LockStep, Bounded, Superseded, PathsAt;
    ReplacesRows(tables, contribution, version);
    var header := FindHeader(base, versions, version, tables, written, contents, contribution.path);
    assert contents[contribution.path] == RecordAt(tables, contribution.path, version);
    hide Snapshot;
    ReplaceKeepsLockStep(tables, after, contribution, version, header);
    ReplaceReads(tables, after, contribution, version, header);
    forall v | v in versions
      ensures Snapshot(after, v) == Snapshot(tables, v)
    {
      ReplaceReadsBefore(tables, after, contribution, version, header, v);
    }
    ReplaceKeepsBounds(tables, after, versions, version, written, contribution);
  }

  // ----- several contributions --------------------------------------------------------------

  function ReplaceAll(rows: Rows, contributions: seq<Contribution>, version: Version): Rows {
    if contributions == [] then rows
    else
      var before, last := contributions[..|contributions| - 1], contributions[|contributions| - 1];
      Replace(ReplaceAll(rows, before, version), last, version)
  }

  /** All deletions, one path after the other. */
  function WithoutAll(rows: Rows, contributions: seq<Contribution>, version: Version): Rows {
    if contributions == [] then rows
    else
      var before, last := contributions[..|contributions| - 1], contributions[|contributions| - 1];
      Without(WithoutAll(rows, before, version), last.path, version)
  }

  /** All insertions, in one list. */
  function DependencyRows(contributions: seq<Contribution>, version: Version): seq<Row> {
    if contributions == [] then []
    else
      var before, last := contributions[..|contributions| - 1], contributions[|contributions| - 1];
      DependencyRows(before, version) + last.Rows(Dependencies, version)
  }

  lemma DeleteThenInsertOther(rows: Rows, inserted: Row, path: Path, version: Version)
    requires inserted.path != path
    ensures Without(InsertOrIgnore(rows, inserted), path, version)
      == InsertOrIgnore(Without(rows, path, version), inserted)
  {
    if taken :| taken in rows && taken.SameKey(inserted) {
      assert taken in Without(rows, path, version);
    }
  }

  lemma {:induction false} DeleteThenInsertOthers(rows: Rows, inserted: seq<Row>, path: Path, version: Version)
    requires forall row :: row in inserted ==> row.path != path
    ensures Without(InsertAll(rows, inserted), path, version) == InsertAll(Without(rows, path, version), inserted)
  {
    hide Without, InsertOrIgnore;
    if inserted != [] {
      var last := |inserted| - 1;
      DeleteThenInsertOthers(rows, inserted[..last], path, version);
      DeleteThenInsertOther(InsertAll(rows, inserted[..last]), inserted[last], path, version);
    }
  }

  lemma {:induction false} DependencyPaths(contributions: seq<Contribution>, version: Version, path: Path)
    requires forall i :: 0 <= i < |contributions| ==> contributions[i].path != path
    ensures forall row :: row in DependencyRows(contributions, version) ==> row.path != path
  {
    if contributions != [] {
      DependencyPaths(contributions[..|contributions| - 1], version, path);
    }
  }

  /** Deleting every path's rows first and inserting all the new rows afterwards comes to replacing one
      path after the other. */
  lemma {:induction false} DeleteAllThenInsert(rows: Rows, contributions: seq<Contribution>, version: Version)
    requires DistinctPaths(contributions)
    ensures InsertAll(WithoutAll(rows, contributions, version), DependencyRows(contributions, version))
         == ReplaceAll(rows, contributions, version)
  {
    hide Without, Contribution.Rows;
    if contributions != [] {
      var before, last := contributions[..|contributions| - 1], contributions[|contributions| - 1];
      DeleteAllThenInsert(rows, before, version);
      DependencyPaths(before, version, last.path);
      var deleted, inserted := WithoutAll(rows, before, version), DependencyRows(before, version);
      DeleteThenInsertOthers(deleted, inserted, last.path, version);
      InsertAllConcat(Without(deleted, last.path, version), inserted, last.Rows(Dependencies, version));
    }
  }

  /** What the replacements make of the written records: each keeps all but its dependencies. */
  function WithAllDependencies(records: map<Path, Record>, contributions: seq<Contribution>): map<Path, Record> {
    if contributions == [] then records
    else
      var before, last := WithAllDependencies(records, contributions[..|contributions| - 1]),
        contributions[|contributions| - 1];
      if last.path in before then before[last.path := WithDependencies(before[last.path], last)] else before
  }

  lemma {:induction false} UntouchedRecord(records: map<Path, Record>, contributions: seq<Contribution>, path: Path)
    requires forall i :: 0 <= i < |contributions| ==> contributions[i].path != path
    ensures path in WithAllDependencies(records, contributions) <==> path in records
    ensures path in records ==> WithAllDependencies(records, contributions)[path] == records[path]
  {
    hide WithDependencies;
    if contributions != [] {
      UntouchedRecord(records, contributions[..|contributions| - 1], path);
    }
  }

  lemma {:induction false} ReplacedRecord(records: map<Path, Record>, contributions: seq<Contribution>, i: nat)
    requires DistinctPaths(contributions) && i < |contributions| && contributions[i].path in records
    ensures contributions[i].path in WithAllDependencies(records, contributions)
    ensures WithAllDependencies(records, contributions)[contributions[i].path]
         == WithDependencies(records[contributions[i].path], contributions[i])
  {
    hide WithDependencies;
    var before := contributions[..|contributions| - 1];
    if i == |contributions| - 1 {
      UntouchedRecord(records, before, contributions[i].path);
    } else {
      ReplacedRecord(records, before, i);
    }
  }

  lemma {:induction false} ReplacedPaths(records: map<Path, Record>, contributions: seq<Contribution>)
    ensures WithAllDependencies(records, contributions).Keys == records.Keys
  {
    hide WithDependencies;
    if contributions != [] {
      ReplacedPaths(records, contributions[..|contributions| - 1]);
    }
  }
}
