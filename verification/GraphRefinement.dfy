/** Every transaction on the tables does to the plain map of versions what its name says. */
module GraphRefinement {
  import opened Wrappers
  import opened ContributionTables
  import opened ContributionHistory
  import opened GraphDatabase

  // ----- the index follows the plain map ----------------------------------------------------

  function TextsOf(facts: VersionFacts): set<NodeText> {
    (set path, payload | path in facts.contributions && payload in facts.contributions[path][Nodes]
      && payload.NodeFact? :: payload.text)
    + (set id | id in facts.nodes :: facts.nodes[id].text)
  }

  lemma TextsFromFacts(db: Database, v: Version)
    requires Anchored(db.tables)
    ensures VisibleTexts(db, v) == TextsOf(FactsAt(db, v))
  {
    var facts := FactsAt(db, v);
    forall row | row in db.tables[Nodes] && row.VisibleAt(v) && row.payload.NodeFact?
      ensures row.payload.text in TextsOf(facts)
    {
      assert HasSpan(db.tables[FileContributions], row);
      var header :| header in db.tables[FileContributions] && header.SameSpan(row);
      assert header.path in facts.contributions;
      assert row.payload in facts.contributions[row.path][Nodes];
    }
    forall path, payload | path in facts.contributions && payload in facts.contributions[path][Nodes]
      && payload.NodeFact?
      ensures payload.text in VisibleTexts(db, v)
    {
      var row :| row in db.tables[Nodes] && row.path == path && row.VisibleAt(v) && row.payload == payload;
    }
  }

  lemma SameFactsSameIndex(db: Database, after: Database, v: Version)
    requires Anchored(db.tables) && Anchored(after.tables)
    requires FactsAt(db, v) == FactsAt(after, v) && At(db.search, v) == At(after.search, v)
    requires IndexExact(db, v)
    ensures IndexExact(after, v)
  {
    TextsFromFacts(db, v);
    TextsFromFacts(after, v);
  }

  /** The tables and the plain map fail alike, or succeed alike and still correspond. */
  ghost predicate Refines(outcome: Result<Database, StoreError>, expected: Result<History, StoreError>) {
    match outcome
    case Ok(after) => Valid(after) && expected == Ok(HistoryOf(after))
    case Err(error) => expected == Err(error)
  }

  // ----- Rollback and Prune refine restriction of the map -----------------------------------

  lemma RollBackToFacts(db: Database, version: Version, v: Version)
    requires Valid(db) && v in db.versions && v <= version
    ensures FactsAt(RollBackTo(db, version), v) == FactsAt(db, v)
    ensures IndexExact(RollBackTo(db, version), v)
  {
    RollbackKeepsLockStep(db.tables, db.versions, version);
    RollbackKeepsSnapshot(db.tables, version, v);
    SameFactsSameIndex(db, RollBackTo(db, version), v);
  }

  lemma RollBackToValid(db: Database, version: Version)
    requires Valid(db)
    ensures Valid(RollBackTo(db, version))
  {
    RollbackKeepsLockStep(db.tables, db.versions, version);
    StillContiguous(db.versions, version);
    forall v | v in UpTo(db.versions, version)
      ensures IndexExact(RollBackTo(db, version), v)
    {
      RollBackToFacts(db, version, v);
    }
  }

  /** Rolling back restores exactly the map of versions up to the target. */
  lemma RollbackRefines(db: Database, version: Version)
    requires Valid(db)
    ensures Refines(Rollback(db, version), RollbackHistory(HistoryOf(db), version))
  {
    RollBackToValid(db, version);
    forall v | v in UpTo(db.versions, version)
      ensures FactsAt(RollBackTo(db, version), v) == FactsAt(db, v)
    {
      RollBackToFacts(db, version, v);
    }
    assert HistoryOf(RollBackTo(db, version)) == Restrict(HistoryOf(db), UpTo(HistoryOf(db).Keys, version));
  }

  lemma PruneBeforeFacts(db: Database, version: Version, v: Version)
    requires Structured(db) && version in db.versions && v in db.versions && version <= v
    ensures FactsAt(PruneBefore(db, version), v) == FactsAt(db, v)
    ensures IndexExact(db, v) ==> IndexExact(PruneBefore(db, version), v)
  {
    PruneKeepsLockStep(db.tables, db.versions, version);
    PruneKeepsSnapshot(db.tables, version, v);
    if IndexExact(db, v) {
      SameFactsSameIndex(db, PruneBefore(db, version), v);
    }
  }

  lemma PruneBeforeStructured(db: Database, version: Version)
    requires Structured(db) && version in db.versions
    ensures Structured(PruneBefore(db, version))
  {
    StillContiguous(db.versions, version);
    PruneKeepsLockStep(db.tables, db.versions, version);
  }

  lemma PruneBeforeHistory(db: Database, version: Version)
    requires Structured(db) && version in db.versions
    ensures HistoryOf(PruneBefore(db, version)) == Restrict(HistoryOf(db), From(HistoryOf(db).Keys, version))
  {
    forall v | v in From(db.versions, version)
      ensures FactsAt(PruneBefore(db, version), v) == FactsAt(db, v)
    {
      PruneBeforeFacts(db, version, v);
    }
  }

  /** Pruning keeps every version from the boundary on, although it rewrites the rows they are read from. */
  lemma PruneRefines(db: Database, version: Version)
    requires Valid(db)
    ensures Refines(Prune(db, version), PruneHistory(HistoryOf(db), version))
  {
    if version in db.versions {
      PruneBeforeStructured(db, version);
      forall v | v in From(db.versions, version)
        ensures IndexExact(PruneBefore(db, version), v)
      {
        PruneBeforeFacts(db, version, v);
      }
      PruneBeforeHistory(db, version);
    }
  }

  // ----- publishing a version that was written under a transaction --------------------------

  /** tx is base with facts written at the next version and not yet recorded as published. */
  ghost predicate Writing(base: Database, version: Version, tx: Database, written: set<Path>, facts: VersionFacts) {
    && tx.versions == base.versions && tx.search == base.search
    && Pending(base.tables, base.versions, version, tx.tables, written, facts.contributions)
    && WrittenAt(base.workspaceNodes, tx.workspaceNodes, version, facts.nodes)
    && WrittenAt(base.workspaceEdges, tx.workspaceEdges, version, facts.edges)
  }

  ghost predicate WrittenAt<K, V>(before: map<Version, map<K, V>>, after: map<Version, map<K, V>>, version: Version,
          rows: map<K, V>) {
    && after.Keys <= before.Keys + {version}
    && At(after, version) == rows
    && forall v {:trigger At(after, v)} {:trigger At(before, v)} :: v != version ==> At(after, v) == At(before, v)
  }

  lemma NextIsNewest(db: Database)
    requires Contiguous(db.versions)
    ensures Next(db.versions, Newest(db.versions) + 1)
  {}

  function Record(tx: Database, version: Version): Database {
    tx.(versions := tx.versions + {version})
  }

  lemma RecordStructured(base: Database, version: Version, tx: Database, written: set<Path>, facts: VersionFacts)
    requires Structured(base) && Next(base.versions, version) && Writing(base, version, tx, written, facts)
    ensures Structured(Record(tx, version))
  {
    StillContiguous(base.versions, version);
  }

  lemma RecordKeepsVersion(base: Database, version: Version, tx: Database, written: set<Path>, facts: VersionFacts,
          v: Version)
    requires Valid(base) && Next(base.versions, version) && Writing(base, version, tx, written, facts)
    requires v in base.versions
    ensures FactsAt(Record(tx, version), v) == FactsAt(base, v) && IndexExact(Record(tx, version), v)
  {
    SameFactsSameIndex(base, Record(tx, version), v);
  }

  lemma RecordFacts(base: Database, version: Version, tx: Database, written: set<Path>, facts: VersionFacts)
    requires Valid(base) && Next(base.versions, version) && Writing(base, version, tx, written, facts)
    ensures HistoryOf(Record(tx, version)) == HistoryOf(base)[version := facts]
  {
    forall v | v in base.versions
      ensures FactsAt(Record(tx, version), v) == FactsAt(base, v)
    {
      RecordKeepsVersion(base, version, tx, written, facts, v);
    }
    assert FactsAt(Record(tx, version), version) == facts;
  }

  lemma RebuildSearchFacts(db: Database, version: Version)
    requires Structured(db) && version in db.versions
    requires forall v :: v in db.versions && v != version ==> IndexExact(db, v)
    ensures Valid(RebuildSearch(db, version)) && HistoryOf(RebuildSearch(db, version)) == HistoryOf(db)
  {
    var after := RebuildSearch(db, version);
    forall v | v in db.versions
      ensures IndexExact(after, v) && FactsAt(after, v) == FactsAt(db, v)
    {
      assert VisibleTexts(after, v) == VisibleTexts(db, v);
    }
  }

  /** Dropping the versions before the boundary and indexing the new one. */
  lemma RetainFacts(recorded: Database, version: Version, boundary: Version)
    requires Structured(recorded) && version in recorded.versions && boundary in recorded.versions
      && boundary <= version
    requires forall v :: v in recorded.versions && v != version ==> IndexExact(recorded, v)
    ensures var after := RebuildSearch(PruneBefore(recorded, boundary), version);
      Valid(after) && HistoryOf(after) == Restrict(HistoryOf(recorded), From(recorded.versions, boundary))
  {
    PruneBeforeStructured(recorded, boundary);
    forall v | v in From(recorded.versions, boundary) && v != version
      ensures IndexExact(PruneBefore(recorded, boundary), v)
    {
      PruneBeforeFacts(recorded, boundary, v);
    }
    PruneBeforeHistory(recorded, boundary);
    RebuildSearchFacts(PruneBefore(recorded, boundary), version);
  }

  /** Publish and Commit both end here: the new facts are appended to the map of versions, the oldest
      versions beyond the retained 25 drop out, and an error leaves nothing to commit. */
  lemma FinishRefines(base: Database, version: Version, tx: Database, written: set<Path>, facts: VersionFacts)
    requires Valid(base) && version == Newest(base.versions) + 1
    requires Writing(base, version, tx, written, facts)
    ensures Refines(Finish(tx, version), Append(HistoryOf(base), facts))
  {
    NextIsNewest(base);
    RecordStructured(base, version, tx, written, facts);
    RecordFacts(base, version, tx, written, facts);
    forall v | v in base.versions
      ensures IndexExact(Record(tx, version), v)
    {
      RecordKeepsVersion(base, version, tx, written, facts, v);
    }
    assert HistoryOf(base).Keys == base.versions;
    FinishRecorded(HistoryOf(base), tx, version, facts);
  }

  lemma AppendUnfolds(history: History, version: Version, facts: VersionFacts)
    requires version == Newest(history.Keys) + 1
    ensures var appended := history[version := facts];
      Append(history, facts) ==
        if version <= RETAINED_GRAPH_VERSIONS then Ok(appended)
        else if version - RETAINED_GRAPH_VERSIONS + 1 !in history.Keys + {version} then Err(GraphVersionNotFound)
        else Ok(Restrict(appended, From(history.Keys + {version}, version - RETAINED_GRAPH_VERSIONS + 1)))
  {
    assert history[version := facts].Keys == history.Keys + {version};
  }

  lemma FinishWithoutPruning(tx: Database, version: Version)
    requires Structured(Record(tx, version)) && version <= RETAINED_GRAPH_VERSIONS
    requires forall v :: v in tx.versions ==> IndexExact(Record(tx, version), v)
    ensures Finish(tx, version).Ok? && Valid(Finish(tx, version).value)
    ensures HistoryOf(Finish(tx, version).value) == HistoryOf(Record(tx, version))
  {
    FinishUnfolds(tx, version);
    hide Finish, HistoryOf, Structured, IndexExact, RebuildSearch, PruneBefore, Valid;
    RebuildSearchFacts(Record(tx, version), version);
  }

  lemma FinishWithPruning(tx: Database, version: Version, boundary: Version)
    requires Structured(Record(tx, version)) && version > RETAINED_GRAPH_VERSIONS
    requires boundary == version - RETAINED_GRAPH_VERSIONS + 1 && boundary in Record(tx, version).versions
    requires forall v :: v in tx.versions ==> IndexExact(Record(tx, version), v)
    ensures Finish(tx, version).Ok? && Valid(Finish(tx, version).value)
    ensures HistoryOf(Finish(tx, version).value)
      == Restrict(HistoryOf(Record(tx, version)), From(Record(tx, version).versions, boundary))
  {
    FinishUnfolds(tx, version);
    hide Finish, HistoryOf, Structured, IndexExact, RebuildSearch, PruneBefore, Valid, Restrict, From;
    RetainFacts(Record(tx, version), version, boundary);
  }

  lemma RefinesOk(outcome: Result<Database, StoreError>, expected: Result<History, StoreError>, history: History)
    requires outcome.Ok? && Valid(outcome.value) && HistoryOf(outcome.value) == history && expected == Ok(history)
    ensures Refines(outcome, expected)
  {}

  lemma FinishRecorded(history: History, tx: Database, version: Version, facts: VersionFacts)
    requires version == Newest(history.Keys) + 1 && history.Keys == tx.versions
    requires Structured(Record(tx, version)) && HistoryOf(Record(tx, version)) == history[version := facts]
    requires forall v :: v in tx.versions ==> IndexExact(Record(tx, version), v)
    ensures Refines(Finish(tx, version), Append(history, facts))
  {
    var boundary := version - RETAINED_GRAPH_VERSIONS + 1;
    AppendUnfolds(history, version, facts);
    hide Finish, Append, HistoryOf, Structured, IndexExact, RebuildSearch, PruneBefore, Newest, Valid, Restrict, From,
      Refines;
    if version <= RETAINED_GRAPH_VERSIONS {
      FinishWithoutPruning(tx, version);
      RefinesOk(Finish(tx, version), Append(history, facts), history[version := facts]);
    } else if boundary in tx.versions + {version} {
      FinishWithPruning(tx, version, boundary);
      RefinesOk(Finish(tx, version), Append(history, facts),
        Restrict(history[version := facts], From(history.Keys + {version}, boundary)));
    } else {
      NoBoundary(history, tx, version, facts);
    }
  }

  lemma NoBoundary(history: History, tx: Database, version: Version, facts: VersionFacts)
    requires version == Newest(history.Keys) + 1 && history.Keys == tx.versions
    requires version > RETAINED_GRAPH_VERSIONS && version - RETAINED_GRAPH_VERSIONS + 1 !in tx.versions + {version}
    ensures Refines(Finish(tx, version), Append(history, facts))
  {
    AppendUnfolds(history, version, facts);
    FinishUnfolds(tx, version);
    hide Finish, Append;
  }

  lemma FinishUnfolds(tx: Database, version: Version)
    ensures var recorded, boundary := Record(tx, version), version - RETAINED_GRAPH_VERSIONS + 1;
      Finish(tx, version) ==
        if version <= RETAINED_GRAPH_VERSIONS then Ok(RebuildSearch(recorded, version))
        else if boundary in recorded.versions then Ok(RebuildSearch(PruneBefore(recorded, boundary), version))
        else Err(GraphVersionNotFound)
  {
    hide RebuildSearch, PruneBefore;
  }

  // ----- Publish ----------------------------------------------------------------------------

  lemma HeadOf(db: Database)
    requires Valid(db)
    ensures Snapshot(db.tables, Newest(db.versions)) == HeadFacts(HistoryOf(db)).contributions
    ensures (if db.versions == {} then map[] else At(db.workspaceEdges, Newest(db.versions)))
      == HeadFacts(HistoryOf(db)).edges
  {
    assert HistoryOf(db).Keys == db.versions;
    if db.versions == {} {
      assert HistoryOf(db) == map[];
      assert PathsAt(db.tables, 0) == {};
    }
  }

  lemma WriteContributions(db: Database, version: Version, update: seq<Contribution>)
    requires Valid(db) && version == Newest(db.versions) + 1
    requires DistinctPaths(update)
    requires forall contribution :: contribution in update ==> contribution.WellFormed()
    ensures Pending(db.tables, db.versions, version, AddContributions(db.tables, update, version),
                    Written(update).Keys, HeadFacts(HistoryOf(db)).contributions + Written(update))
  {
    NextIsNewest(db);
    HeadOf(db);
    PendingStart(db.tables, db.versions, version);
    AddAllPending(db.tables, db.versions, version, HeadFacts(HistoryOf(db)).contributions, update);
  }

  lemma WriteWorkspaceFacts(db: Database, version: Version, request: PublishRequest, head: VersionFacts)
    requires version !in db.workspaceNodes && version !in db.workspaceEdges
    requires head.edges == if version <= 1 then map[] else At(db.workspaceEdges, version - 1)
    ensures var facts := PublishedFacts(head, request);
      && WrittenAt(db.workspaceNodes, Write(db, version, request).workspaceNodes, version, facts.nodes)
      && WrittenAt(db.workspaceEdges, Write(db, version, request).workspaceEdges, version, facts.edges)
  {
    var retained := RetainedEdges(head.edges, request.replacedOwners);
    assert map[] + retained == retained;
    var facts, after := PublishedFacts(head, request), Write(db, version, request);
    assert after.workspaceNodes == db.workspaceNodes[version := facts.nodes];
    assert after.workspaceEdges == db.workspaceEdges[version := facts.edges];
    hide Write, PublishedFacts, WrittenAt, StoreNodes, StoreEdges, RetainedEdges;
    AddedAt(db.workspaceNodes, version, facts.nodes);
    AddedAt(db.workspaceEdges, version, facts.edges);
  }

  lemma AddedAt<K, V>(before: map<Version, map<K, V>>, version: Version, rows: map<K, V>)
    requires version !in before
    ensures WrittenAt(before, before[version := rows], version, rows)
  {}

  lemma WriteIsWriting(db: Database, version: Version, request: PublishRequest)
    requires Valid(db) && version == Newest(db.versions) + 1
    requires DistinctPaths(request.update)
    requires forall contribution :: contribution in request.update ==> contribution.WellFormed()
    ensures Writing(db, version, Write(db, version, request), Written(request.update).Keys,
                    PublishedFacts(HeadFacts(HistoryOf(db)), request))
  {
    WriteContributions(db, version, request.update);
    HeadOf(db);
    WriteWorkspaceFacts(db, version, request, HeadFacts(HistoryOf(db)));
  }

  lemma WriteAndFinish(db: Database, version: Version, request: PublishRequest)
    requires Valid(db) && version == Newest(db.versions) + 1
    requires DistinctPaths(request.update)
    requires forall contribution :: contribution in request.update ==> contribution.WellFormed()
    ensures Refines(Finish(Write(db, version, request), version),
                    Append(HistoryOf(db), PublishedFacts(HeadFacts(HistoryOf(db)), request)))
  {
    WriteIsWriting(db, version, request);
    FinishRefines(db, version, Write(db, version, request), Written(request.update).Keys,
                  PublishedFacts(HeadFacts(HistoryOf(db)), request));
  }

  /** Publish appends the overwritten head to the map of versions, or fails and says why. */
  lemma PublishRefines(db: Database, request: PublishRequest)
    requires Valid(db)
    requires forall contribution :: contribution in request.update ==> contribution.WellFormed()
    ensures Refines(Publish(db, request), PublishHistory(HistoryOf(db), request))
  {
    hide Finish, Write, Append, PublishedFacts, HistoryOf, HeadFacts, Valid, DistinctPaths, Contribution.WellFormed;
    if DistinctPaths(request.update) {
      WriteAndFinish(db, Newest(db.versions) + 1, request);
    }
  }
}
