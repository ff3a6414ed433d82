# Graph store, traversal and indexing: a Dafny model

Agent Wayfinder keeps a code graph in SQLite, one version per publication, and
answers questions about it. This project models the parts of it whose answers
must agree with something simple, and proves that they do.

* **The versioned store** (`ContributionTables`, `ContributionHistory`,
  `GraphDatabase`, `GraphRefinement`, `StoreRuns`, `SqlTransaction`,
  `PublicationBatch`, `GraphStore`, `ProjectionCache`, `DependencyReplacement`,
  `ContributionSessionFacts`, `StoredFacts`, `ResolverTargets`, `SealedSession`,
  `ContributionSession`, `InitialResolution`). Every row of twelve
  contribution tables carries an interval of versions. Over every run of
  publishing, committing a session, rolling back, pruning and reindexing, the
  rows read like a plain map from version to facts. `GraphDatabase` gives the
  relational meaning of each transaction, `GraphStore.Store` and
  `ContributionSession.Session` are the objects that carry the transactions out
  statement by statement, and `PublicationBatch.Writer` buffers their rows. The
  projection cache is a class of its own.
* **Traversal and paths** (`GraphFacts`, `Traversal`, `ShortestPath`,
  `FindPath`). A breadth-first search bounded by depth, nodes, relations and
  project scope; a second one that reconstructs a path; and what their
  composition says about the whole graph.
* **The indexer manager** (`IndexerQueue`, `IndexerRuns`, `IndexerManager`).
  Each mutex-held section is a function on a worker, a method on the manager
  object, and a step of a system in which timer callbacks are tokens.
* **The publication pool and the extraction pipeline** (`PublicationPool`,
  `ExtractionPipeline`, `InitialIndex`). Producer, workers and consumer over
  bounded channels, in every interleaving; `InitialIndex` runs the pipeline on a
  contribution session.
* **Re-exports** (`ReExports`, `ReExportResolver`, `ReExportAgreement`). The
  recursive search and the rounds, and exactly when they compute the same
  surfaces.
* **The spend ledger** (`SpendLedger`).
* **Batches of changed files** (`ProjectionPaging`, `IncrementalBatch`). Which
  sources a batch updates, and how often its resolvers see each of them.

`Wrappers` holds the result shapes, `Intervals` sets of consecutive numbers, and
`Sequences` what several modules say about numbers and sequences.

SQL statements stand for their relational meaning and a transaction is atomic.
Clocks, lookups and the publisher's verdict are parameters. A parameter or
field named `reliable` says that the database answers; without it a call may
fail at any statement.

Seven claims turned out to need a condition; each has its exact boundary and an
input on the other side: publishing is refused when the retention boundary is
gone (`PublishSucceedsUnlessBlocked`, `PruningToTheHeadBlocks`), a worker can
be left without a wake-up (`StalledExactly`, `RejectedEventStalls`), the two
re-export computations differ when a circuit of re-exports leads to something
new (`SearchEqualsRoundsExactly`, `SelfRenameDiffers`), a period can be
overspent through its first second (`OverspentExactly`,
`FirstSecondIsForgotten`), the undirected fallback can return a path through a
node outside the scope (`StaysInScope`, `FallbackLeavesScope`), a changed source
that moved to another project can be resolved twice (`ResolveBatch`,
`MovedSourceTwice`), and a batch of more than 128 sources is refused when it
deletes one of them (`ResolveBatch`, `DeleteOneOf`).

## Model

| member | source | states |
|---|---|---|
| ContributionTables.StatementsNeverCollide | storage/sqlite/sqlite.go:4238-4292 | no close, reopen, rebase or delete statement gives two rows of a table the same primary key, so the update in Prune never fails and swallows no row |
| ContributionTables.ExecuteKeepsLockStep | storage/sqlite/sqlite.go:4238-4292 | a statement run on all twelve tables keeps the intervals of a path equal or disjoint across tables, keys unique, and every row anchored to a header row with its interval |
| ContributionTables.ExecuteReads | storage/sqlite/sqlite.go:1584-1590 | when a statement changes no row's visibility between two versions, reading a path before and after it gives the same record and presence |
| ContributionTables.ExecuteKeepsSnapshot | storage/sqlite/sqlite.go:1584-1590 | a statement that leaves visibility at a version alone leaves that version's whole snapshot alone |
| ContributionHistory.InsertedRows | storage/sqlite/batch.go:10-42 | inserting a contribution at an unused version adds exactly one open row per distinct key and nothing else |
| StoredFacts.StoredHolds | storage/sqlite/sqlite.go:1349-1359 | of a source's facts a publication stores, table by table, exactly the first of each node id or key, and its header |
| StoredFacts.DistinctFactsStored | storage/sqlite/sqlite.go:1349-1359 | facts with distinct ids or keys are all stored |
| ContributionHistory.AddKeepsPending | storage/sqlite/sqlite.go:1390-1394 | closing a path's open rows and inserting its new ones keeps the interval invariant, every published snapshot, and overwrites exactly this path in the pending one |
| ContributionHistory.AddAllPending | storage/sqlite/sqlite.go:1131-1153 | the same for a whole update: the pending snapshot is the head overwritten by all its contributions |
| ContributionHistory.CloseMissingKeepsPending | storage/sqlite/sqlite.go:4247-4263 | closing what is not staged removes exactly the unstaged paths from the pending snapshot and touches no published one |
| ContributionHistory.RollbackKeepsLockStep | storage/sqlite/sqlite.go:4265-4281 | deleting later rows and reopening later-closed ones keeps the interval invariant and leaves only rows bounded by the kept versions |
| ContributionHistory.RollbackKeepsSnapshot | storage/sqlite/sqlite.go:4013-4099 | every snapshot at or below the target reads as before |
| ContributionHistory.PruneKeepsLockStep | storage/sqlite/sqlite.go:4265-4292 | rebasing and deleting keeps the interval invariant and leaves only rows bounded by the kept versions |
| ContributionHistory.PruneKeepsSnapshot | storage/sqlite/sqlite.go:4126-4200 | every snapshot at or above the boundary reads as before, although its rows were rewritten |
| GraphRefinement.TextsFromFacts | storage/sqlite/sqlite.go:3396-3436 | the node tuples the index is built from are exactly those of the version's contributions and workspace nodes |
| GraphRefinement.RollbackRefines | storage/sqlite/sqlite.go:4013-4099 | Rollback fails exactly for a version that does not exist, and otherwise restricts the map of versions to those up to the target with the index still exact |
| GraphRefinement.PruneRefines | storage/sqlite/sqlite.go:4101-4200 | Prune fails exactly for version 0 or a missing version, and otherwise restricts the map to the versions from the boundary on with the index still exact |
| GraphRefinement.FinishRefines | storage/sqlite/sqlite.go:314-334 | recording, pruning and indexing a written version appends its facts to the map and keeps the newest 25, or fails with the same error |
| GraphRefinement.PublishRefines | storage/sqlite/sqlite.go:259-350 | Publish does to the tables what appending the overwritten head does to the map, error cases included |
| StoreRuns.ReindexKeeps | storage/sqlite/sqlite.go:2226-2263 | rebuilding the index of all versions changes no fact and leaves it exact |
| StoreRuns.CommitStep | storage/sqlite/sqlite.go:618-675 | committing a session's transaction is one append to the map of versions |
| StoreRuns.RunRefines | storage/sqlite/sqlite.go:259-350 | after any run of Publish, Commit, Rollback, Prune and RebuildLexicalIndex the interval rows read as the plain map, and the index holds one row per visible node tuple of every version |
| StoreRuns.StoredNodes | storage/sqlite/sqlite.go:4746-4776 | inserting workspace nodes changes no stored node and stores, unchanged, the first of each new id |
| StoreRuns.StoredEdges | storage/sqlite/sqlite.go:4777-4812 | inserting workspace edges changes no stored edge and stores, unchanged, the first of each new key |
| StoreRuns.PublishedEdges | storage/sqlite/sqlite.go:1173-1193 | an incremental publication's workspace edges are the previous head's edges no replaced owner owns, unchanged, and the first new edge of every other key, unchanged; its nodes are the first of each id |
| StoredFacts.PublicationStores | storage/sqlite/sqlite.go:259-350 | a published version holds for each updated source its own facts, for every other source what the head held, and the workspace facts above |
| StoreRuns.PublishSucceedsUnlessBlocked | storage/sqlite/sqlite.go:327-331 | a publication without duplicate paths is refused exactly when 25 versions lie behind the store and it holds fewer than 24 |
| StoreRuns.PruningToTheHeadBlocks | storage/sqlite/sqlite.go:4126-4135 | pruning such a store to its newest version makes every later publication fail |
| StoreRuns.BlockedUntilRollback | storage/sqlite/sqlite.go:4126-4135 | a blocked store stays blocked at the same head through every run without a rollback |
| StoreRuns.AppendRetains | storage/sqlite/sqlite.go:314-331 | after a successful publication the versions have no gap, number at most 25, and the one below the new head is the previous head, unchanged |
| StoreRuns.PublicationsNeverBlock | storage/sqlite/sqlite.go:314-331 | runs of publications and commits alone are never refused, and after n of them the newest min(n, 25) versions remain |
| SqlTransaction.ColumnCounts | storage/sqlite/sqlite.go:1348-1359 | how many values a row of each of the twelve tables binds |
| SqlTransaction.Transaction.InsertStatement | storage/sqlite/batch.go:27-39 | one statement inserts all its rows or none, binds their values within the variable limit and is logged with them; a taken header key fails it, and on a reliable database nothing else does |
| SqlTransaction.Transaction.RunInserts | storage/sqlite/batch.go:25-41 | the statements of all chunks together are given exactly the rows, each once and in order |
| SqlTransaction.Transaction.InsertRows | storage/sqlite/batch.go:10-42 | the log of the rows given to INSERT statements grows by exactly these rows, once and in order, whatever the chunking; a row wider than the limit is an error, and so is a taken header key |
| SqlTransaction.CloseKeepsKeys | storage/sqlite/sqlite.go:4238-4245 | closing rows takes no primary key and frees none |
| SqlTransaction.Transaction.ExecuteOnAll | storage/sqlite/sqlite.go:4238-4245 | one statement per contribution table covers all twelve |
| PublicationBatch.CloseThenFlush | storage/sqlite/sqlite.go:1390-1402 | closing a path at once and inserting other paths' buffered rows later gives the tables that inserting first would |
| PublicationBatch.AddKeepsCounts | storage/sqlite/sqlite.go:1384-1412 | between adds the buffered rows, bytes and sources stay below their limits, no flush holds more than the limit or one contribution, and there is one only before a limit would be exceeded or once one is reached |
| PublicationBatch.Writer.Flush | storage/sqlite/sqlite.go:1415-1425 | per table, exactly the buffered rows are appended to the log of inserted rows, in order; header rows with a taken key make it fail; the counters restart |
| PublicationBatch.Writer.Add | storage/sqlite/sqlite.go:1363-1413 | per table, the log followed by the buffer grows by exactly the prepared rows; the tables end up as if the older rows were closed and the contribution inserted right away; counts and flush sizes keep their bounds, and it flushes exactly when due |
| PublicationBatch.NewPathFits | storage/sqlite/sqlite.go:1348-1348 | the header row of a path the version does not hold yet can be inserted |
| ProjectionCache.SumWithout | storage/sqlite/sqlite.go:1958-1968 | the bytes held are those of one entry and of all others, in whatever order they are summed |
| ProjectionCache.Cache.Oldest | storage/sqlite/sqlite.go:1974-1984 | the entry with the least order, and none exactly for an empty cache |
| ProjectionCache.Cache.Store | storage/sqlite/sqlite.go:1948-1972 | after a miss: too large a value is not kept; otherwise it is, the bytes equal the sum of the entries and stay within the maximum, the oldest entries go first and no more than needed |
| ProjectionCache.Cache.Invalidate | storage/sqlite/sqlite.go:1986-1996 | exactly the entries of the workspace at, above or below the given version drop out, and the byte count follows |
| ProjectionCache.FreshReadIs | storage/sqlite/sqlite.go:1680-1744 | a projection holds every path of the snapshot with ten of its twelve tables |
| GraphStore.CommitKeepsCoherence | storage/sqlite/sqlite.go:345-347 | dropping what a commit may have changed keeps every cached projection of an existing version equal to a fresh read |
| GraphStore.StoreNodes | storage/sqlite/sqlite.go:4746-4812 | the loop of INSERT OR IGNORE keeps the first node of each id, as it was given |
| GraphStore.StoreEdges | storage/sqlite/sqlite.go:4746-4812 | the loop of INSERT OR IGNORE keeps the first edge of each key, as it was given |
| GraphStore.RebuildLexicalSnapshot | storage/sqlite/sqlite.go:3396-3436 | the version's part of the index becomes one row per distinct visible tuple |
| GraphStore.PruneVersions | storage/sqlite/sqlite.go:4126-4200 | the statements of a prune carry out its meaning, or report the missing boundary |
| GraphStore.WriteContributions | storage/sqlite/sqlite.go:1119-1166 | contributions written through the buffered writer in index order have the effect of writing them one by one; every prepared row reaches its table's INSERT statements once and in order, and none collides |
| GraphStore.PublishCopy | storage/sqlite/sqlite.go:259-337 | everything between BEGIN and COMMIT of Publish, statement by statement, equals the transaction's meaning |
| GraphStore.RollbackCopy | storage/sqlite/sqlite.go:4013-4090 | the same for Rollback |
| GraphStore.PruneCopy | storage/sqlite/sqlite.go:4101-4200 | the same for Prune |
| GraphStore.ReindexCopy | storage/sqlite/sqlite.go:2226-2263 | the same for RebuildLexicalIndex |
| GraphStore.Store.Publish | storage/sqlite/sqlite.go:259-350 | the next version holds, told by ids, keys and owners, exactly the updated sources' facts, the other sources as before and the workspace facts; the versions less than 25 below stay and read as before, the cache stays coherent; or nothing changes, on a reliable database only as the transaction's meaning fails |
| GraphStore.Store.Rollback | storage/sqlite/sqlite.go:4013-4099 | exactly the versions up to the target stay and read as before, and later cached versions drop out, or nothing changes |
| GraphStore.Store.Prune | storage/sqlite/sqlite.go:4101-4124 | exactly the versions from the boundary on stay and read as before, the dropped ones are counted and leave the cache, or nothing changes |
| GraphStore.Store.RebuildLexicalIndex | storage/sqlite/sqlite.go:2226-2263 | rebuilds the index of every version and changes nothing else |
| GraphStore.Store.ResolverProjections | storage/sqlite/sqlite.go:1680-1744 | for an existing version, cached or not, every path of the snapshot with its ten tables; a cached answer needs no database, and a failing read caches nothing |
| GraphStore.Store.ResolverTarget | storage/sqlite/sqlite.go:1816-1865 | refuses an incomplete request or version 0; otherwise there is an answer exactly if the path's header names the project and the language, and it carries that header and the path's facts |
| ContributionSessionFacts.SessionWrites | storage/sqlite/sqlite.go:436-478 | writing a staged contribution adds exactly it to what the session will publish |
| ContributionSessionFacts.SessionCloses | storage/sqlite/sqlite.go:603-616 | closing the missing sources leaves exactly the staged paths, also for the first version |
| DependencyReplacement.ReplaceKeepsPending | storage/sqlite/sqlite.go:540-556 | replacing a written path's dependencies keeps the interval invariant and every older snapshot, and changes that path's dependencies in the pending one only |
| DependencyReplacement.DeleteAllThenInsert | storage/sqlite/sqlite.go:540-556 | deleting all paths' rows and then inserting all new ones comes to replacing path by path |
| DependencyReplacement.ReplacedRecord | storage/sqlite/sqlite.go:511-557 | each named path keeps its record but for the dependencies it is given |
| ContributionSessionFacts.SessionReplaces | storage/sqlite/sqlite.go:511-557 | replacing dependencies, before or after the missing sources are closed, changes just those in what the session will publish |
| StoredFacts.ReplacementHolds | storage/sqlite/sqlite.go:511-557 | the named records hold the first of each given dependency and otherwise what they held; no other record changes |
| ContributionSessionFacts.SessionCommits | storage/sqlite/sqlite.go:618-675 | ending the session's transaction appends its facts to the map of versions |
| ContributionSession.CommittedPath | storage/sqlite/sqlite.go:618-675 | per path: the written contribution if staged and written, the previous one if staged only, nothing if not staged |
| ResolverTargets.TargetAnswers | storage/sqlite/sqlite.go:1820-1864 | an answer exists exactly if a header of the path names the project and the language; it carries those headers and, table by table, the path's extensions, nodes, references with bindings, surfaces and diagnostics |
| ResolverTargets.AnswerOfHeader | storage/sqlite/sqlite.go:1820-1864 | a path with one header is answered exactly if that header names the project and the language |
| ResolverTargets.OneHeaderPerPath | storage/sqlite/sqlite.go:1820-1830 | a version holds one header per path |
| ResolverTargets.ReadTarget | storage/sqlite/sqlite.go:1820-1864 | the rows of a version answer so for its snapshot, None included |
| ContributionSession.BeginContributionSession | storage/sqlite/sqlite.go:354-389 | a fresh session on what is committed, with nothing staged, or an error for an empty workspace |
| ContributionSession.Session.StageSource | storage/sqlite/sqlite.go:418-434 | stages a new path; an empty or staged one closes the session, a closed or sealed session is left alone |
| ContributionSession.Session.WriteContribution | storage/sqlite/sqlite.go:436-478 | writes a staged, unwritten source, of its facts the first of each id or key; anything else closes the session |
| ContributionSession.Session.SealContributions | storage/sqlite/sqlite.go:480-492 | flushes what is buffered and changes nothing the session will publish |
| ContributionSession.Session.CheckReplaceable | storage/sqlite/sqlite.go:518-539 | accepts only written sources that are each named once, and on a reliable database all such lists |
| ContributionSession.Session.ReplaceContributionDependencies | storage/sqlite/sqlite.go:511-557 | in a sealed session the named written sources get the given dependencies and keep all else; any other source, or one named twice, closes it |
| SealedSession.StepKeepsTarget | storage/sqlite/sqlite.go:762-818 | replacing any dependencies and writing any workspace facts changes no answer to a resolver |
| SealedSession.AnswersAsCommitted | storage/sqlite/sqlite.go:618-675 | what a sealed session answers at any time is what the store answers for the version the session commits, whatever steps come in between |
| ContributionSession.Session.WriteWorkspaceFacts | storage/sqlite/sqlite.go:559-577 | adds to a sealed session, until its facts are sealed, the first node of each new id and the first edge of each new key, as given |
| ContributionSession.Session.SealWorkspaceFacts | storage/sqlite/sqlite.go:579-601 | closes the missing sources and counts the workspace facts |
| ContributionSession.Session.Commit | storage/sqlite/sqlite.go:618-675 | the next version reads as exactly the session's facts; a failed commit leaves the store as it was, and fails on a reliable database only as the append does |
| ContributionSession.Session.ResolverTarget | storage/sqlite/sqlite.go:762-818 | an open sealed session answers every complete request from what its commit will publish, before and after closing missing sources: exactly if the header names project and language, with the path's facts; anything else is refused |
| InitialResolution.ResolvePage | index/initial_pipeline.go:419-464 | the answers read for this page and for all earlier ones hold after its dependencies and facts are written |
| InitialResolution.ResolveAndCommit | index/initial_pipeline.go:408-487 | every answer the resolvers were given while pages were resolved is the store's answer for the committed version |
| Traversal.VisitNeighbor | storage/sqlite/sqlite.go:3623-3652 | following one edge selects at most its visible neighbour, queues it only if in scope, and reports the node limit only without room |
| Traversal.JoinedNext | storage/sqlite/sqlite.go:3605-3656 | the edges returned so far join every returned node to a start within the depth reached |
| Traversal.ClosedIsAll | storage/sqlite/sqlite.go:3605-3656 | a set of nodes no step leaves is everything reachable at any depth |
| Traversal.NextDepth | storage/sqlite/sqlite.go:3605-3656 | one level keeps soundness, completeness up to its depth and the account of the node limit |
| Traversal.CheckDepth | storage/sqlite/sqlite.go:3657-3668 | the depth limit is reported only for an edge that leaves the result, and whenever the frontier can be left |
| Traversal.ChainIsWithin | storage/sqlite/sqlite.go:3605-3656 | a chain of edges, each crossed the way the direction says, ends within as many steps |
| Traversal.WithinIsChained | storage/sqlite/sqlite.go:3605-3656 | what is within k steps ends a chain of at most k edges |
| Traversal.TraversedIsCharted | storage/sqlite/sqlite.go:3558-3678 | by the edges' sources and targets alone: every returned node ends a chain of returned edges within the depth and every returned edge ends a chain; without a node limit every such chain is returned, without any reason every chain's end; the depth limit and the scope boundary are reported truly |
| Traversal.Traverse | storage/sqlite/sqlite.go:3558-3678 | the above, for each direction; refuses a malformed request and a visible start outside the scope; a hit node limit is used up on the nearest nodes and, without a scope boundary, reported only if nodes are missing |
| Traversal.HasTraversableNeighbor | storage/sqlite/sqlite.go:4632-4647 | whether an allowed edge leads from the node out of the selected ones |
| ShortestPath.RelaxedWalk | query/path.go:209-230 | every walk passes the queue or is not before the walk found, the invariant behind minimality |
| ShortestPath.NextIsFirst | query/path.go:209-214 | when the target is taken from the queue its walk is the first of all walks: fewest edges, then least edge keys |
| ShortestPath.NothingLeft | query/path.go:231-233 | an unseen target after an empty queue has no walk at all |
| ShortestPath.ReadPath | query/path.go:235-245 | following the predecessors back ends at the source and yields the walk in reverse |
| ShortestPath.ReverseInPlace | query/path.go:252-262 | swapping from both ends reverses the array |
| ShortestPath.EdgesBySource | query/path.go:189-200 | every list holds exactly the edges that lead from its node, by ascending key |
| ShortestPath.FoundIsFirst | query/path.go:177-246 | by sources and targets alone: the path is empty exactly if nothing spans source and target, and otherwise spans them with the fewest edges and, at the first difference, the smaller source, target or relation |
| ShortestPath.ShortestPath | query/path.go:177-246 | the connected path that is first among all walks in the facts, with its nodes, or nothing exactly when there is no walk; the same told by sources and targets |
| ShortestPath.PathIsShortest | query/path.go:177-246 | no walk to the target has fewer edges |
| ShortestPath.OrderDoesNotMatter | query/path.go:177-246 | facts in another order or with duplicates give the same nodes and edges |
| FindPath.ReachIsChain | storage/sqlite/sqlite.go:4592-4602 | a walk reaches its target exactly if it is a chain of edges crossed as the direction says |
| FindPath.WithinIsReached | storage/sqlite/sqlite.go:3605-3656 | each node within k steps ends a walk of at most k followed edges through in-scope nodes |
| FindPath.ReachedInFacts | query/path.go:85-96 | a complete traversal returned every walk that fits its depth |
| FindPath.FactsAreReached | query/path.go:85-96 | a walk in the returned facts is a walk through the graph when edges can only be retraced as they were followed |
| FindPath.FoundIfReturned | query/path.go:85-99 | with or without a node limit a path is found exactly when the target was returned, and it fits the depth |
| FindPath.DirectedPathTheorem | query/path.go:85-99 | the directed result is always a walk through the graph within the depth; without a node limit it is non-empty exactly when some walk fits the depth, and then a shortest such walk |
| FindPath.BoundaryIsMet | query/path.go:101-115 | without a node limit a scope boundary is reported exactly when the depth reaches out of the scope |
| FindPath.StaysInScope | query/path.go:101-115 | the fallback's path stays in the scope if and only if some walk through the scope within the depth comes before every walk over the followed edges in either direction |
| FindPath.NoTurningBack | query/path.go:177-246 | a first walk never goes along an edge and straight back |
| FindPath.DeadEndsKeepScope | query/path.go:101-115 | if every node outside the scope touches at most one of the edges followed within the depth, the fallback's path stays in the scope |
| FindPath.UndirectedPathTheorem | query/path.go:101-115 | the fallback finds a path exactly when one fits the depth, the first over the followed edges; whether it stays in the scope, that it does where everything outside is a dead end, and that it is then a shortest in-scope one |
| FindPath.FewNodesNoLimit | storage/sqlite/sqlite.go:3611-3653 | a graph with fewer nodes than the limit is never cut off by it |
| FindPath.FallbackLeavesScope | query/path.go:85-115 | on a concrete graph every answer comes from the fallback and runs through a node outside the scope although a path inside is as short |
| FindPath.Ambiguous | query/path.go:147-159 | the first three candidates, or all if they are fewer, and the number of the others; none for a unique endpoint |
| FindPath.FindPathSnapshot | query/path.go:55-116 | candidates for ambiguous endpoints, otherwise the directed answer, and the undirected one only if asked for and nothing directed was found; the path is the first through facts that are charted by sources and targets |
| IndexerQueue.EnqueueKeeps | indexer/queue.go:71-99 | Enqueue queues exactly the accepted paths once, in the order they first came, arms a timer with the throttle only for an idle worker, and leaves a stall exactly when it fails after a first path |
| IndexerQueue.EndPublishKeeps | indexer/queue.go:162-193 | a failed batch goes back to pending, before the paths queued since and each path once; a successful one does not; the worker is never left stalled and the next delay is the throttle or the retry delay |
| IndexerQueue.BatchGoesFirst | indexer/queue.go:166-166 | a failed batch's paths come first, in their order |
| IndexerQueue.DelayIsCappedDoubling | indexer/queue.go:172-179 | after k failures in a row the delay is min(base * 2^(k-1), max) if base is at most max, and only the first delay can differ otherwise |
| IndexerQueue.DelaysStayCapped | indexer/queue.go:172-179 | no delay after any number of failures exceeds the maximum exactly when the base does not; otherwise the first delay alone does |
| IndexerRuns.StepKeeps | indexer/queue.go:71-193 | every step keeps the invariant; a wakeful system stays so exactly unless the step is one of the two stalling ones |
| IndexerRuns.RunKeepsInvariant | indexer/queue.go:71-193 | in every interleaving: at most one publisher call, pending duplicate-free and equal to its set, no accepted event lost, retry delay by failures |
| IndexerRuns.EveryTimerFiresOnce | indexer/queue.go:94-109 | in every interleaving the timers created are the callbacks that ran, the timers a Stop cancelled and the callbacks still to come |
| IndexerRuns.RunStaysWakeful | indexer/queue.go:94-109 | without a stalling step a running worker with pending paths is publishing or has a timer callback to come |
| IndexerRuns.StopStep | indexer/lifecycle.go:151-188 | a Stop that removes the worker leaves no publisher call in flight |
| IndexerRuns.StallEnds | indexer/queue.go:71-193 | a stall is ended exactly by a successful Enqueue, a callback of an older timer, or a Stop that removes the worker |
| IndexerRuns.StalledExactly | indexer/queue.go:71-193 | in every run the worker is left without a wake-up if and only if a step stalled it and no later one woke it |
| IndexerRuns.RejectedEventStalls | indexer/queue.go:83-92 | an Enqueue rejected after a first path leaves a fresh worker stalled with no timer |
| IndexerRuns.FailedCloseStalls | indexer/lifecycle.go:165-182 | a Stop whose Close fails leaves queued paths without a timer |
| IndexerManager.WorkerRecord.PublishEnd | indexer/queue.go:162-193 | the fields after a publication are those of the specified outcome, with the delay of the new timer |
| IndexerManager.UniquePaths | indexer/queue.go:227-238 | every path once, in the order of the first occurrences |
| IndexerManager.Manager.Start | indexer/lifecycle.go:79-117 | a running worker is kept, otherwise a fresh one is registered if the lock was acquired |
| IndexerManager.Manager.Enqueue | indexer/queue.go:71-99 | refuses a missing or stopping worker, otherwise changes the worker as specified |
| IndexerManager.Manager.PublishBegin | indexer/queue.go:144-158 | takes all pending paths exactly when the worker is neither stopping nor publishing and has some, and leaves it publishing with nothing pending and no timer |
| IndexerManager.Manager.StopOnce | indexer/lifecycle.go:157-187 | one round of Stop: waits for a publishing worker, keeps one that fails to close running without a timer, or removes it |
| PublicationPool.ConservedStep | storage/sqlite/sqlite.go:1204-1267 | tokens in the channel, the producer's token and the indexes issued but not written always make up the window, and the batch receives 0, 1, 2, ... |
| PublicationPool.RunKeepsInvariant | storage/sqlite/sqlite.go:1119-1166 | in every interleaving no index is in two places or written twice, and none is lost unless something failed |
| PublicationPool.ReleaseNeverBlocks | storage/sqlite/sqlite.go:1151-1151 | the consumer's send of a token always has room |
| PublicationPool.ReorderMapIsBounded | storage/sqlite/sqlite.go:1124-1124 | the reorder map never exceeds the window |
| PublicationPool.NeverStuck | storage/sqlite/sqlite.go:1204-1267 | a pool that has not ended can always take a step |
| PublicationPool.EveryStepIsProgress | storage/sqlite/sqlite.go:1204-1267 | every step uses up work, so every run ends |
| PublicationPool.RunsAreShort | storage/sqlite/sqlite.go:1204-1267 | a run has at most as many steps as the initial work |
| PublicationPool.FinishedRuns | storage/sqlite/sqlite.go:1155-1170 | an ended pool succeeded exactly when nothing failed or was cancelled, and then wrote every contribution once in order |
| ExtractionPipeline.StepBalanced | index/initial_pipeline.go:165-249 | a step moves sources and errors between places and creates or drops only what it says |
| ExtractionPipeline.RunKeepsInvariant | index/initial_pipeline.go:146-321 | in every interleaving each emitted source is in at most one place, none is lost without a failure, and every failure is recorded or on its way |
| ExtractionPipeline.ChannelsAreBounded | index/initial_pipeline.go:146-154 | in every interleaving neither channel holds more than 32 elements |
| ExtractionPipeline.NeverStuck | index/initial_pipeline.go:146-249 | no unfinished run is stuck on a full channel |
| ExtractionPipeline.RunsAreShort | index/initial_pipeline.go:146-321 | every run ends within its initial work |
| ExtractionPipeline.FinishedRuns | index/initial_pipeline.go:251-321 | no error is returned exactly when no worker, producer or write failed and nobody cancelled, and then every source was written exactly once |
| ExtractionPipeline.OrderedContributions | index/initial_pipeline.go:367-378 | the contributions by ascending source index |
| ExtractionPipeline.OrderedAsEmitted | index/initial_pipeline.go:251-378 | after a run without an error that list is every emitted source in emission order |
| InitialIndex.StagesNewPath | index/initial_pipeline.go:221-224 | a source the producer stages is new to the session |
| InitialIndex.WritesStagedPath | index/initial_pipeline.go:277-283 | a source the consumer writes is staged and not written yet |
| InitialIndex.IndexSources | index/initial_pipeline.go:203-321 | in every interleaving over distinct sources a session on a reliable database refuses no StageSource and no WriteContribution, and after a run without an error it will publish exactly the sources' contributions |
| ReExports.FirstFound | extractors/javascript/resolver.go:681-695 | the first candidate path that is an indexed file, or none |
| ReExports.CandidatesLocate | extractors/javascript/resolver.go:681-695 | a path stands for itself if indexed, else with the first of eight extensions, else for the index file in it with these extensions |
| ReExports.ResolvePath | extractors/javascript/resolver.go:313-322 | the loop over the seventeen candidates finds that file |
| ReExports.PassesExactly | extractors/javascript/resolver.go:475-497 | a surface passes from file to file exactly through an export from that file that names it or passes on everything but the default, with its node and under the exported name |
| ReExports.RenamesExactly | extractors/javascript/resolver.go:243-247 | a binding renames exactly if it gives some surface it passes on another name |
| ReExports.SimpleIsDerived | extractors/javascript/resolver.go:213-252 | what the search finds is derivable within as many rounds as there are files left to visit |
| ReExports.CycleKeepsSurface | extractors/javascript/resolver.go:485-497 | around a cycle that renames nothing a surface comes back unchanged |
| ReExports.CutCycles | extractors/javascript/resolver.go:213-252 | then every derivation can be shortened to one that uses no file twice |
| ReExports.SearchFindsAll | extractors/javascript/resolver.go:213-252 | without renaming on a cycle the search finds exactly the derivable surfaces and as many rounds as files are enough |
| ReExportResolver.MatchBindings | extractors/javascript/resolver.go:475-497 | exactly the surfaces a binding passes on, under their exported names, export star without default |
| ReExportResolver.PageSearch.ExportedSurfaces | extractors/javascript/resolver.go:213-252 | the recursion ends, restores the visited set and returns exactly the surfaces found through files used once |
| ReExportResolver.SurfaceTable.Add | extractors/javascript/resolver.go:565-576 | a surface is added exactly if its name and node are new to the file |
| ReExportResolver.SurfaceTable.ResolveFile | extractors/javascript/resolver.go:536-556 | takes over everything the targets had, adds only derivable surfaces, and reports no change only if nothing changed |
| ReExportResolver.ResolvedSurfaces | extractors/javascript/resolver.go:525-563 | the rounds hold everything derivable in as many re-exports as there are files, and only derivable surfaces |
| ReExportResolver.SearchWithinRounds | extractors/javascript/resolver.go:525-563 | on any project the search finds no more than the rounds |
| ReExportResolver.SearchEqualsRounds | extractors/javascript/resolver.go:525-563 | without renaming on a cycle both give every file the same surfaces |
| ReExportResolver.SelfRenameDiffers | extractors/javascript/resolver.go:213-252 | a file that re-exports itself under another name has a surface only the rounds find |
| ReExportAgreement.SearchEqualsRoundsExactly | extractors/javascript/resolver.go:525-563 | on any project the search finds for every file what the rounds hold if and only if circuits of re-exports lead to nothing the search does not find |
| SpendLedger.PeriodsStart | storage/sqlite/sqlite.go:2354-2361 | a day starts at midnight UTC, a week on a Monday, a month on its first day, and the period holds the instant |
| SpendLedger.FormatSpells | storage/sqlite/sqlite.go:2374-2374 | a stored time ends in Z after the seconds, or in a point and the nanoseconds' digits without the zeros at the end |
| SpendLedger.FirstDifference | storage/sqlite/sqlite.go:2374-2374 | texts compare at their first difference |
| SpendLedger.CountsUnlessInFirstSecond | storage/sqlite/sqlite.go:2374-2374 | a stored time counts for a period unless it lies strictly inside the period's first second or before it |
| SpendLedger.UsedOfBoth | storage/sqlite/sqlite.go:2374-2374 | a query's sum adds up over all records in whatever grouping |
| SpendLedger.UsedOfOne | storage/sqlite/sqlite.go:2374-2374 | a record adds its amount exactly if provider and unit match and it came in a later second than the start, or at its very beginning |
| SpendLedger.SettleSums | storage/sqlite/sqlite.go:2396-2411 | settling raises no sum |
| SpendLedger.RunKeepsLimit | storage/sqlite/sqlite.go:2344-2412 | with a fixed limit the counted amounts of no day, week or month ever exceed it, nor does all that was recorded unless something fell inside the first second |
| SpendLedger.FirstSecondIsForgotten | storage/sqlite/sqlite.go:2357-2382 | a reservation inside the first second of a day lets the next one spend the limit again |
| SpendLedger.OverspentExactly | storage/sqlite/sqlite.go:2344-2412 | while a period lasts, a run whose clock did not go back can still exceed the limit if and only if the period's first second is not over or a positive amount lies strictly inside it |
| SpendLedger.Ledger.ReserveSpend | storage/sqlite/sqlite.go:2344-2394 | grants the least of the request and what each enabled daily, weekly and monthly limit leaves, records it, or says which condition failed |
| SpendLedger.Ledger.SettleSpend | storage/sqlite/sqlite.go:2396-2411 | replaces a reservation's amount by a smaller or equal one, and fails otherwise |
| ProjectionPaging.ProjectionPage | storage/sqlite/sqlite.go:1746-1770 | the first limit matching paths after the key, in order |
| ProjectionPaging.VisitPages | index/initial_pipeline.go:408-435 | for any page limit the loop ends and visits every matching path once in order |
| ProjectionPaging.ResolvePages | index/index.go:792-847 | resolves without repetition exactly the changed sources of the group and those found under a stored header of the group |
| ProjectionPaging.ResolvesOwnUnlessMoved | index/index.go:792-847 | these are exactly the group's own changed sources unless, and only unless, a stored header of the group belongs to a source of another group |
| IncrementalBatch.ResolveIncrementalWorkspace | index/index.go:694-733 | over all groups with a discovered source, every changed source is resolved once for its own group and once for another group of its stored header; a language without a resolver fails the update |
| IncrementalBatch.ExtractChanged | index/index.go:289-321 | changed files are extracted in their groups, missing ones become deletions without a project, and unknown extensions are dropped |
| IncrementalBatch.ExtractBatch | index/index.go:163-195 | a batch has one update per changed file, deletion and affected file, and none if nothing changed |
| IncrementalBatch.StageResolverSources | storage/sqlite/sqlite.go:880-918 | stages every source, and fails if one lacks its project, language or path |
| IncrementalBatch.StagedIsDue | storage/sqlite/sqlite.go:920-942 | read from the staged sources, every remaining source is resolved exactly once |
| IncrementalBatch.ResolveBatch | index/index.go:116-229 | each changed or affected file is resolved once, twice exactly if the batch fits one page and its stored header is in another group with a discovered source, and deletions never; with supported languages and a reliable database a batch fails exactly if it exceeds a page and deletes a file |
| IncrementalBatch.MovedSourceTwice | index/index.go:203-204 | a file that moved to another project is resolved for both |
| IncrementalBatch.DeleteOneOf | index/index.go:231-236 | of n changed files one was deleted: the batch fails if and only if n exceeds 128 |

## Left out

- SQLite itself: a query means its relational meaning, a transaction is atomic, and locks, full disks and cancellations are the absence of `reliable`.
- GraphStore.Store.Publish: the version row is recorded after the facts instead of before them, which no statement in between can see; the staging callback of PublishStaged and published_at are not modelled.
- ContributionSession.Session.WriteWorkspaceFacts: chunks of workspace facts and their byte limit are not modelled; an oversized fact counts as a failing statement.
- Contribution rows are opaque payloads with a key; encoding, column values and the byte estimate of a row are parameters.
- Catalog entries, embeddings, their deletion by Rollback and Prune, free-page reclaiming and the database size budget beyond a failing statement.
- ProjectionCache.Cache.Store: only insertion after a miss; replacing a present key by a value of another size keeps a stale entry evictable in the code.
- SqlTransaction.Transaction.InsertRows: the rows of a table have its columns, so the check that the widths of single rows agree has nothing to find.
- GraphStore.Store.ResolverProjections: atomic; a store that interleaves with Rollback is not covered.
- Traversal.Traverse: identifiers and relations are numbers in the order of their strings, edges carry no evidence, and the scope is any set instead of the closure readScopedNodeIDs computes.
- ShortestPath.ShortestPath: edge keys are compared as triples, which is the order of the joined strings when identifiers hold no NUL.
- FindPath.FindPathSnapshot: the matches of the endpoint lookups are parameters.
- IndexerManager.Manager.PublishBegin: status fields, activity times and reconciliation timers are not modelled; a reconciler is one more source of Enqueue calls, and path normalisation is the rejection of some events.
- IndexerQueue.DelayIsCappedDoubling: durations are unbounded integers, so the doubling does not overflow.
- PublicationPool.FinishedRuns: a worker's check of the context and its preparation are one step.
- ExtractionPipeline.FinishedRuns: a stream that reports a cancellation nobody asked for is not modelled; which of several errors is returned is not stated.
- ReExports.SearchFindsAll: package specifiers, which only the search resolves, are treated as not indexed, and path.Join and path.Clean of a relative specifier are given.
- IncrementalBatch.ResolveIncrementalWorkspace: the groups come in any order; what a resolver makes of its sources is not modelled.
- IncrementalBatch.ResolveBatch: what AffectedSources answers is a parameter, changed paths come normalised, the store publishes nothing in between, and of the published update only its sources are modelled.
- InitialIndex.IndexSources: the calls on the session happen one at a time, and a run in which a write fails is one where the session refuses it.
- InitialResolution.ResolveAndCommit: which requests a page's resolver makes and what it writes are parameters, and so are the pages.
- ReExportResolver.PageSearch.ExportedSurfaces: the nodes it collects and errors of the index are left out.
- SpendLedger.Ledger.ReserveSpend: amounts are exact reals, and the first day of a month is a parameter: it comes no later than the day, and the days in between share it.
- withResolvedDependencies and snapshotResolverIndex, which fill maps and choose between an override and the store without depth of their own.
- AffectedSources, the TypeScript search, lexical ranking, planner metrics, and everything over the network or the file system.
