/** What the store operations do to the snapshots read through the interval rows. */
module ContributionHistory {
  import opened Wrappers
  import opened ContributionTables

  // ----- inserting one contribution ---------------------------------------------------------

  /** No row was opened for the path at the version yet. */
  ghost predicate Unused(tables: Tables, path: Path, version: Version) {
    forall t: Table, row :: row in tables[t] && row.path == path ==> row.from != version
  }

  lemma {:induction false} InsertAllRows(rows: Rows, path: Path, version: Version, payloads: seq<Payload>)
    requires forall row :: row in rows && row.path == path ==> row.from != version
    ensures forall row :: row in InsertAll(rows, OpenRows(path, version, payloads)) <==>
      row in rows || (row.path == path && row.from == version && row.to.None? && row.payload in FirstPerKey(payloads))
    ensures forall p, q :: p in FirstPerKey(payloads) && q in FirstPerKey(payloads) && p.Key() == q.Key() ==> p == q
  {
    if payloads != [] {
      var last := |payloads| - 1;
      var inserted := OpenRows(path, version, payloads);
      InsertAllRows(rows, path, version, payloads[..last]);
      assert inserted[..last] == OpenRows(path, version, payloads[..last]);
      var before, kept := InsertAll(rows, inserted[..last]), FirstPerKey(payloads[..last]);
      if exists taken :: taken in kept && taken.Key() == payloads[last].Key() {
        var taken :| taken in kept && taken.Key() == payloads[last].Key();
        assert Row(path, version, None, taken) in before;
      }
    }
  }

  lemma InsertedRows(tables: Tables, contribution: Contribution, version: Version, t: Table)
    requires Unused(tables, contribution.path, version)
    ensures forall row :: row in InsertContribution(tables, contribution, version)[t] <==>
      row in tables[t] || (row.path == contribution.path && row.from == version && row.to.None?
                           && row.payload in Stored(contribution)[t])
    ensures forall p, q :: p in Stored(contribution)[t] && q in Stored(contribution)[t] && p.Key() == q.Key() ==> p == q
  {
    InsertAllRows(tables[t], contribution.path, version, contribution.facts[t]);
  }

  lemma SinglePayload(payloads: seq<Payload>)
    requires |payloads| == 1
    ensures FirstPerKey(payloads) == {payloads[0]}
  {
    assert payloads[..0] == [];
    assert FirstPerKey(payloads[..0]) == {};
  }

  lemma SingletonStored(contribution: Contribution)
    requires contribution.WellFormed()
    ensures Stored(contribution)[FileContributions] == {contribution.facts[FileContributions][0]}
    ensures Stored(contribution)[CatalogCoverage] == {contribution.facts[CatalogCoverage][0]}
  {
    SinglePayload(contribution.facts[FileContributions]);
    SinglePayload(contribution.facts[CatalogCoverage]);
  }

  lemma InsertKeepsPairs(tables: Tables, contribution: Contribution, version: Version)
    requires LockStep(tables) && Unused(tables, contribution.path, version)
    requires forall t: Table, row :: row in tables[t] && row.path == contribution.path ==>
      row.to.Some? && row.to.value < version
    ensures var after := InsertContribution(tables, contribution, version);
      Ordered(after) && PairwiseApart(after) && KeysUnique(after)
  {
    forall t: Table {
      InsertedRows(tables, contribution, version, t);
    }
  }

  lemma SpanKept(rows: Rows, more: Rows, row: Row)
    requires HasSpan(rows, row) && rows <= more
    ensures HasSpan(more, row)
  {
    var other :| other in rows && other.SameSpan(row);
    assert other in more;
  }

  /** Rows inserted with a contribution find their span in every table that got one of its rows. */
  lemma InsertAnchors(tables: Tables, contribution: Contribution, version: Version, t: Table, u: Table, row: Row)
    requires Unused(tables, contribution.path, version)
    requires row in InsertContribution(tables, contribution, version)[t]
    requires row in tables[t] ==> HasSpan(tables[u], row)
    requires |contribution.facts[u]| == 1
    ensures HasSpan(InsertContribution(tables, contribution, version)[u], row)
  {
    InsertedRows(tables, contribution, version, t);
    InsertedRows(tables, contribution, version, u);
    if row in tables[t] {
      SpanKept(tables[u], InsertContribution(tables, contribution, version)[u], row);
    } else {
      SinglePayload(contribution.facts[u]);
      var anchor := Row(contribution.path, version, None, contribution.facts[u][0]);
      assert anchor in InsertContribution(tables, contribution, version)[u] && anchor.SameSpan(row);
    }
  }

  lemma InsertKeepsAnchors(tables: Tables, contribution: Contribution, version: Version)
    requires Anchored(tables) && Unused(tables, contribution.path, version)
    requires contribution.WellFormed()
    ensures Anchored(InsertContribution(tables, contribution, version))
  {
    var after := InsertContribution(tables, contribution, version);
    forall t: Table, row | row in after[t]
      ensures HasSpan(after[FileContributions], row)
    {
      InsertAnchors(tables, contribution, version, t, FileContributions, row);
    }
    forall row | row in after[FileContributions]
      ensures row.payload.Header? && HasSpan(after[CatalogCoverage], row)
    {
      InsertAnchors(tables, contribution, version, FileContributions, CatalogCoverage, row);
      InsertedRows(tables, contribution, version, FileContributions);
      SinglePayload(contribution.facts[FileContributions]);
    }
  }

  // ----- a version being written ------------------------------------------------------------

  function UpTo(versions: set<Version>, version: Version): set<Version> {
    set v | v in versions && v <= version
  }

  function From(versions: set<Version>, version: Version): set<Version> {
    set v | v in versions && version <= v
  }

  ghost predicate AllBetween(versions: set<Version>, low: Version, high: Version) {
    forall v :: low <= v <= high ==> v in versions
  }

  ghost predicate Contiguous(versions: set<Version>) {
    && 0 !in versions
    && forall low, high {:trigger AllBetween(versions, low, high)} ::
      low in versions && high in versions ==> AllBetween(versions, low, high)
  }

  lemma StillContiguous(versions: set<Version>, version: Version)
    requires Contiguous(versions)
    ensures Contiguous(From(versions, version)) && Contiguous(UpTo(versions, version))
    ensures Next(versions, version) ==> Contiguous(versions + {version})
  {
    forall low, high | low in versions && high in versions
      ensures AllBetween(versions, low, high)
    {}
    if Next(versions, version) {
      forall low, high | low in versions + {version} && high in versions + {version}
        ensures AllBetween(versions + {version}, low, high)
      {
        if low in versions && versions != {} {
          assert AllBetween(versions, low, version - 1);
        }
      }
    }
  }

  /** The version one past the newest, or 1 for a store without versions. */
  ghost predicate Next(versions: set<Version>, version: Version) {
    && (forall v :: v in versions ==> v < version)
    && (if versions == {} then version == 1 else version > 1 && version - 1 in versions)
  }

  /** A path that was written has no older row left open. */
  ghost predicate Superseded(tables: Tables, version: Version, written: set<Path>) {
    forall t: Table, row :: row in tables[t] && row.path in written && row.from < version ==> row.to.Some?
  }

  /** tables is base with a not yet existing version being written on top: the old snapshots read as
      before, the rows opened so far belong to the paths in written and are still open, and a reader
      of the new version would find contents. */
  ghost predicate Pending(base: Tables, versions: set<Version>, version: Version, tables: Tables, written: set<Path>,
          contents: map<Path, Record>) {
    && LockStep(tables)
    && Bounded(tables, versions + {version})
    && (forall t: Table, row :: row in tables[t] && row.from == version ==> row.path in written && row.to.None?)
    && Superseded(tables, version, written)
    && (forall v {:trigger Snapshot(tables, v)} :: v in versions ==> Snapshot(tables, v) == Snapshot(base, v))
    && Snapshot(tables, version) == contents
  }

  lemma InsertReadsElsewhere(tables: Tables, contribution: Contribution, version: Version, path: Path, v: Version)
    requires Unused(tables, contribution.path, version)
    requires v < version || path != contribution.path
    ensures RecordAt(InsertContribution(tables, contribution, version), path, v) == RecordAt(tables, path, v)
    ensures path in PathsAt(InsertContribution(tables, contribution, version), v) <==> path in PathsAt(tables, v)
  {
    forall t: Table
      ensures Payloads(InsertContribution(tables, contribution, version)[t], path, v) == Payloads(tables[t], path, v)
    {
      InsertedRows(tables, contribution, version, t);
    }
    InsertedRows(tables, contribution, version, FileContributions);
  }

  lemma InsertReadsHere(tables: Tables, contribution: Contribution, version: Version)
    requires Unused(tables, contribution.path, version) && contribution.WellFormed()
    requires contribution.path !in PathsAt(tables, version)
      && RecordAt(tables, contribution.path, version) == EMPTY_RECORD
    ensures RecordAt(InsertContribution(tables, contribution, version), contribution.path, version)
      == Stored(contribution)
    ensures contribution.path in PathsAt(InsertContribution(tables, contribution, version), version)
  {
    var after := InsertContribution(tables, contribution, version);
    hide InsertContribution, Unused, Contribution.WellFormed;
    forall t: Table
      ensures Payloads(after[t], contribution.path, version) == Stored(contribution)[t]
    {
      InsertedRows(tables, contribution, version, t);
      assert RecordAt(tables, contribution.path, version)[t] == {};
      forall payload | payload in Stored(contribution)[t]
        ensures payload in Payloads(after[t], contribution.path, version)
      {
        assert Row(contribution.path, version, None, payload) in after[t];
      }
    }
    SingletonStored(contribution);
    InsertedRows(tables, contribution, version, FileContributions);
    assert Row(contribution.path, version, None, contribution.facts[FileContributions][0]) in after[FileContributions];
  }

  /** Closing the path's open rows hides the path from the pending version and from nothing older. */
  lemma CloseForPending(base: Tables, versions: set<Version>, version: Version, tables: Tables, written: set<Path>,
          contents: map<Path, Record>, path: Path)
    requires Next(versions, version) && Pending(base, versions, version, tables, written, contents) && path !in written
    ensures var closed := CloseBefore(tables, path, version);
      && LockStep(closed)
      && Bounded(closed, versions + {version})
      && (forall t: Table, row :: row in closed[t] && row.from == version ==> row.path in written && row.to.None?)
      && (forall t: Table, row :: row in closed[t] && row.path == path ==> row.to.Some? && row.to.value < version)
      && Superseded(closed, version, written)
      && (forall v :: v in versions ==> Snapshot(closed, v) == Snapshot(base, v))
      && (forall other :: other != path ==>
        && RecordAt(closed, other, version) == RecordAt(tables, other, version)
        && (other in PathsAt(closed, version) <==> other in PathsAt(tables, version)))
  {
    if version > 1 {
      var statement := Close(path, version - 1);
      var closed := ExecuteAll(tables, statement);
      ExecuteKeepsLockStep(tables, statement);
      forall t: Table, row | row in closed[t]
        ensures row.from in versions + {version} && (row.to.Some? ==> row.to.value + 1 in versions + {version})
        ensures row.from == version ==> row.path in written && row.to.None?
        ensures row.path == path ==> row.to.Some? && row.to.value < version
        ensures row.path in written && row.from < version ==> row.to.Some?
      {
        var row0 := ExecuteOrigin(tables[t], statement, row);
      }
      forall v | v in versions
        ensures Snapshot(closed, v) == Snapshot(base, v)
      {
        ExecuteKeepsSnapshot(tables, statement, v);
      }
      forall other | other != path
        ensures RecordAt(closed, other, version) == RecordAt(tables, other, version)
        ensures other in PathsAt(closed, version) <==> other in PathsAt(tables, version)
      {
        ExecuteReads(tables, statement, other, version, version);
      }
    }
  }

  lemma PendingStart(base: Tables, versions: set<Version>, version: Version)
    requires LockStep(base) && Bounded(base, versions) && Next(versions, version)
    ensures version > 0 && Pending(base, versions, version, base, {}, Snapshot(base, version - 1))
  {
    forall t: Table, row | row in base[t]
      ensures row.VisibleAt(version) <==> row.VisibleAt(version - 1)
    {
      assert row.from in versions && row.from <= version - 1;
      assert row.to.Some? ==> row.to.value + 1 in versions;
    }
    forall path
      ensures RecordAt(base, path, version) == RecordAt(base, path, version - 1)
    {
      forall t: Table
        ensures Payloads(base[t], path, version) == Payloads(base[t], path, version - 1)
      {}
    }
    assert PathsAt(base, version) == PathsAt(base, version - 1);
  }

  lemma SameSnapshot(first: Tables, second: Tables, v: Version)
    requires PathsAt(first, v) == PathsAt(second, v)
    requires forall path :: RecordAt(first, path, v) == RecordAt(second, path, v)
    ensures Snapshot(first, v) == Snapshot(second, v)
  {
    hide PathsAt, RecordAt;
  }

  lemma SnapshotWith(first: Tables, second: Tables, v: Version, path: Path, record: Record)
    requires forall other :: other != path ==>
      RecordAt(first, other, v) == RecordAt(second, other, v)
        && (other in PathsAt(first, v) <==> other in PathsAt(second, v))
    requires path in PathsAt(first, v) && RecordAt(first, path, v) == record
    ensures Snapshot(first, v) == Snapshot(second, v)[path := record]
  {
    hide PathsAt, RecordAt;
  }

  /** The pending snapshot after an insertion differs at the contribution's path only. */
  lemma InsertOverwritesPath(closed: Tables, tables: Tables, version: Version, contribution: Contribution)
    requires contribution.WellFormed()
    requires forall t: Table, row :: row in closed[t] && row.path == contribution.path ==>
      row.from < version && row.to.Some? && row.to.value < version
    requires forall other :: other != contribution.path ==>
      && RecordAt(closed, other, version) == RecordAt(tables, other, version)
      && (other in PathsAt(closed, version) <==> other in PathsAt(tables, version))
    ensures Snapshot(InsertContribution(closed, contribution, version), version)
         == Snapshot(tables, version)[contribution.path := Stored(contribution)]
  {
    var path := contribution.path;
    var after := InsertContribution(closed, contribution, version);
    assert RecordAt(closed, path, version) == EMPTY_RECORD by {
      forall t: Table
        ensures Payloads(closed[t], path, version) == {}
      {}
    }
    InsertReadsHere(closed, contribution, version);
    hide PathsAt, RecordAt, InsertContribution, Stored, Snapshot, Contribution.WellFormed;
    forall other | other != path
      ensures other in PathsAt(after, version) <==> other in PathsAt(tables, version)
      ensures RecordAt(after, other, version) == RecordAt(tables, other, version)
    {
      InsertReadsElsewhere(closed, contribution, version, other, version);
    }
    SnapshotWith(after, tables, version, path, Stored(contribution));
  }

  lemma AddKeepsLockStep(base: Tables, versions: set<Version>, version: Version, tables: Tables, written: set<Path>,
          contents: map<Path, Record>, contribution: Contribution)
    requires Next(versions, version) && Pending(base, versions, version, tables, written, contents)
    requires contribution.path !in written && contribution.WellFormed()
    ensures LockStep(AddContribution(tables, contribution, version))
  {
    CloseForPending(base, versions, version, tables, written, contents, contribution.path);
    InsertKeepsPairs(CloseBefore(tables, contribution.path, version), contribution, version);
    InsertKeepsAnchors(CloseBefore(tables, contribution.path, version), contribution, version);
  }

  lemma AddReads(base: Tables, versions: set<Version>, version: Version, tables: Tables, written: set<Path>,
          contents: map<Path, Record>, contribution: Contribution)
    requires Next(versions, version) && Pending(base, versions, version, tables, written, contents)
    requires contribution.path !in written && contribution.WellFormed()
    ensures forall v ::
      v in versions ==> Snapshot(AddContribution(tables, contribution, version), v) == Snapshot(base, v)
    ensures Snapshot(AddContribution(tables, contribution, version), version)
         == Snapshot(tables, version)[contribution.path := Stored(contribution)]
  {
    var closed := CloseBefore(tables, contribution.path, version);
    CloseForPending(base, versions, version, tables, written, contents, contribution.path);
    InsertKeepsOldSnapshots(closed, versions, version, contribution);
    InsertOverwritesPath(closed, tables, version, contribution);
  }

  lemma AddKeepsBounds(base: Tables, versions: set<Version>, version: Version, tables: Tables, written: set<Path>,
          contents: map<Path, Record>, contribution: Contribution)
    requires Next(versions, version) && Pending(base, versions, version, tables, written, contents)
    requires contribution.path !in written
    ensures var after := AddContribution(tables, contribution, version);
      && Bounded(after, versions + {version})
      && (forall t: Table, row :: row in after[t] && row.from == version ==>
        row.path in written + {contribution.path} && row.to.None?)
      && Superseded(after, version, written + {contribution.path})
  {
    CloseForPending(base, versions, version, tables, written, contents, contribution.path);
    InsertKeepsBounds(CloseBefore(tables, contribution.path, version), versions, version, written, contribution);
  }

  lemma AddKeepsPending(base: Tables, versions: set<Version>, version: Version, tables: Tables, written: set<Path>,
          contents: map<Path, Record>, contribution: Contribution)
    requires Next(versions, version) && Pending(base, versions, version, tables, written, contents)
    requires contribution.path !in written && contribution.WellFormed()
    ensures Pending(base, versions, version, AddContribution(tables, contribution, version),
                    written + {contribution.path}, contents[contribution.path := Stored(contribution)])
  {
    AddKeepsLockStep(base, versions, version, tables, written, contents, contribution);
    AddReads(base, versions, version, tables, written, contents, contribution);
    AddKeepsBounds(base, versions, version, tables, written, contents, contribution);
  }

  lemma InsertKeepsBounds(closed: Tables, versions: set<Version>, version: Version, written: set<Path>,
          contribution: Contribution)
    requires Bounded(closed, versions + {version}) && Unused(closed, contribution.path, version)
    requires forall t: Table, row :: row in closed[t] && row.from == version ==> row.path in written && row.to.None?
    requires Superseded(closed, version, written)
    requires forall t: Table, row :: row in closed[t] && row.path == contribution.path ==> row.to.Some?
    ensures var after := InsertContribution(closed, contribution, version);
      && Bounded(after, versions + {version})
      && (forall t: Table, row :: row in after[t] && row.from == version ==>
        row.path in written + {contribution.path} && row.to.None?)
      && Superseded(after, version, written + {contribution.path})
  {
    var after := InsertContribution(closed, contribution, version);
    forall t: Table, row | row in after[t]
      ensures row.from in versions + {version} && (row.to.Some? ==> row.to.value + 1 in versions + {version})
      ensures row.from == version ==> row.path in written + {contribution.path} && row.to.None?
      ensures row.path in written + {contribution.path} && row.from < version ==> row.to.Some?
    {
      InsertedRows(closed, contribution, version, t);
    }
  }

  lemma InsertKeepsOldSnapshots(tables: Tables, versions: set<Version>, version: Version, contribution: Contribution)
    requires Next(versions, version) && Unused(tables, contribution.path, version)
    ensures forall v ::
      v in versions ==> Snapshot(InsertContribution(tables, contribution, version), v) == Snapshot(tables, v)
  {
    var after := InsertContribution(tables, contribution, version);
    forall v | v in versions
      ensures Snapshot(after, v) == Snapshot(tables, v)
    {
      forall path
        ensures path in PathsAt(after, v) <==> path in PathsAt(tables, v)
        ensures RecordAt(after, path, v) == RecordAt(tables, path, v)
      {
        InsertReadsElsewhere(tables, contribution, version, path, v);
      }
    }
  }

  /** What a sequence of contributions writes, by path. */
  function Written(contributions: seq<Contribution>): map<Path, Record> {
    if contributions == [] then map[]
    else
      var last := contributions[|contributions| - 1];
      Written(contributions[..|contributions| - 1])[last.path := Stored(last)]
  }

  predicate DistinctPaths(contributions: seq<Contribution>) {
    forall i, j :: 0 <= i < j < |contributions| ==> contributions[i].path != contributions[j].path
  }

  lemma {:induction false} WrittenPaths(contributions: seq<Contribution>)
    ensures Written(contributions).Keys == set contribution | contribution in contributions :: contribution.path
  {
    if contributions != [] {
      var before, last := contributions[..|contributions| - 1], contributions[|contributions| - 1];
      WrittenPaths(before);
      assert contributions == before + [last];
    }
  }

  lemma OverwriteLast<K, V>(m: map<K, V>, n: map<K, V>, key: K, value: V)
    ensures (m + n)[key := value] == m + n[key := value]
  {}

  lemma {:induction false} AddAllPending(base: Tables, versions: set<Version>, version: Version,
          head: map<Path, Record>, contributions: seq<Contribution>)
    requires Next(versions, version) && Pending(base, versions, version, base, {}, head)
    requires DistinctPaths(contributions)
    requires forall i :: 0 <= i < |contributions| ==> contributions[i].WellFormed()
    ensures Pending(base, versions, version, AddContributions(base, contributions, version),
                    Written(contributions).Keys, head + Written(contributions))
  {
    hide Pending, Stored, AddContribution, Contribution.WellFormed, Next;
    if contributions == [] {
      assert head + Written(contributions) == head && Written(contributions).Keys == {};
    } else {
      var before, last := contributions[..|contributions| - 1], contributions[|contributions| - 1];
      AddAllPending(base, versions, version, head, before);
      WrittenPaths(before);
      assert last.path !in Written(before).Keys;
      AddKeepsPending(base, versions, version, AddContributions(base, before, version), Written(before).Keys,
                      head + Written(before), last);
      OverwriteLast(head, Written(before), last.path, Stored(last));
      assert Written(contributions).Keys == Written(before).Keys + {last.path};
    }
  }

  // ----- closing what a session did not stage -----------------------------------------------

  function Restrict<K, V>(m: map<K, V>, keys: set<K>): map<K, V> {
    map key | key in m && key in keys :: m[key]
  }

  lemma CloseMissingKeepsPending(base: Tables, versions: set<Version>, version: Version, tables: Tables,
          written: set<Path>, contents: map<Path, Record>, staged: set<Path>)
    requires Next(versions, version) && version > 1 && Pending(base, versions, version, tables, written, contents)
    requires written <= staged
    ensures Pending(base, versions, version, ExecuteAll(tables, CloseMissing(staged, version - 1)),
                    written, Restrict(contents, staged))
  {
    var statement := CloseMissing(staged, version - 1);
    var closed := ExecuteAll(tables, statement);
    ExecuteKeepsLockStep(tables, statement);
    forall t: Table, row | row in closed[t]
      ensures row.from in versions + {version} && (row.to.Some? ==> row.to.value + 1 in versions + {version})
      ensures row.from == version ==> row.path in written && row.to.None?
      ensures row.path in written && row.from < version ==> row.to.Some?
    {
      var row0 := ExecuteOrigin(tables[t], statement, row);
    }
    forall v | v in versions
      ensures Snapshot(closed, v) == Snapshot(base, v)
    {
      ExecuteKeepsSnapshot(tables, statement, v);
    }
    CloseMissingReads(tables, version, staged);
  }

  lemma CloseMissingReads(tables: Tables, version: Version, staged: set<Path>)
    requires version > 0
    requires forall t: Table, row :: row in tables[t] && row.to.Some? ==> row.to.value < version
    ensures Snapshot(ExecuteAll(tables, CloseMissing(staged, version - 1)), version)
         == Restrict(Snapshot(tables, version), staged)
  {
    var statement := CloseMissing(staged, version - 1);
    var closed := ExecuteAll(tables, statement);
    forall path
      ensures path in staged ==> RecordAt(closed, path, version) == RecordAt(tables, path, version)
      ensures path in PathsAt(closed, version) <==> path in staged && path in PathsAt(tables, version)
    {
      if path in staged {
        ExecuteReads(tables, statement, path, version, version);
      } else {
        forall row | row in closed[FileContributions] && row.path == path
          ensures !row.VisibleAt(version)
        {
          var row0 := ExecuteOrigin(tables[FileContributions], statement, row);
        }
      }
    }
  }

  // ----- rolling back and pruning -----------------------------------------------------------

  function RollbackTables(tables: Tables, version: Version): Tables {
    ExecuteAll(ExecuteAll(tables, DeleteAfter(version)), Reopen(version))
  }

  function PruneTables(tables: Tables, version: Version): Tables {
    ExecuteAll(ExecuteAll(tables, Rebase(version)), DeleteBefore(version))
  }

  lemma RollbackKeepsLockStep(tables: Tables, versions: set<Version>, version: Version)
    requires LockStep(tables) && Bounded(tables, versions)
    ensures LockStep(RollbackTables(tables, version))
    ensures Bounded(RollbackTables(tables, version), UpTo(versions, version))
  {
    var deleted := ExecuteAll(tables, DeleteAfter(version));
    ExecuteKeepsLockStep(tables, DeleteAfter(version));
    forall t: Table, row | row in deleted[t]
      ensures row.from <= version && row in tables[t]
    {
      var row0 := ExecuteOrigin(tables[t], DeleteAfter(version), row);
    }
    ExecuteKeepsLockStep(deleted, Reopen(version));
    forall t: Table, row | row in ExecuteAll(deleted, Reopen(version))[t]
      ensures row.from in UpTo(versions, version)
      ensures row.to.Some? ==> row.to.value + 1 in UpTo(versions, version)
    {
      var row0 := ExecuteOrigin(deleted[t], Reopen(version), row);
    }
  }

  lemma RollbackKeepsSnapshot(tables: Tables, version: Version, v: Version)
    requires v <= version
    ensures Snapshot(RollbackTables(tables, version), v) == Snapshot(tables, v)
  {
    var deleted := ExecuteAll(tables, DeleteAfter(version));
    ExecuteKeepsSnapshot(tables, DeleteAfter(version), v);
    ExecuteKeepsSnapshot(deleted, Reopen(version), v);
  }

  lemma PruneKeepsLockStep(tables: Tables, versions: set<Version>, version: Version)
    requires LockStep(tables) && Bounded(tables, versions) && version in versions
    ensures LockStep(PruneTables(tables, version))
    ensures Bounded(PruneTables(tables, version), From(versions, version))
  {
    var rebased := ExecuteAll(tables, Rebase(version));
    ExecuteKeepsLockStep(tables, Rebase(version));
    ExecuteKeepsLockStep(rebased, DeleteBefore(version));
    forall t: Table, row | row in ExecuteAll(rebased, DeleteBefore(version))[t]
      ensures row.from in From(versions, version)
      ensures row.to.Some? ==> row.to.value + 1 in From(versions, version)
    {
      var row1 := ExecuteOrigin(rebased[t], DeleteBefore(version), row);
      var row0 := ExecuteOrigin(tables[t], Rebase(version), row1);
    }
  }

  lemma PruneKeepsSnapshot(tables: Tables, version: Version, v: Version)
    requires version <= v
    ensures Snapshot(PruneTables(tables, version), v) == Snapshot(tables, v)
  {
    var rebased := ExecuteAll(tables, Rebase(version));
    ExecuteKeepsSnapshot(tables, Rebase(version), v);
    forall t: Table, row | row in rebased[t]
      ensures Agrees(DeleteBefore(version), row, v, v)
    {
      var row0 := ExecuteOrigin(tables[t], Rebase(version), row);
    }
    ExecuteKeepsSnapshot(rebased, DeleteBefore(version), v);
  }
}
