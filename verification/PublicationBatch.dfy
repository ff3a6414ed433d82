/** The buffered writer between a publication and its transaction.  Rows wait in twelve buffers; a
    contribution's older rows are closed at once, its new rows are inserted when a limit is reached. */
module PublicationBatch {
  import opened Wrappers
  import opened ContributionTables
  import opened GraphDatabase
  import opened SqlTransaction

  const MAXIMUM_BATCH_ROWS := 500

  /** A limit of zero is no limit; three zeros select the per-table rule. */
  datatype BatchLimits = BatchLimits(maximumRows: nat, maximumBytes: nat, maximumSources: nat) {
    predicate Unlimited() {
      maximumRows == 0 && maximumBytes == 0 && maximumSources == 0
    }

    /** add flushes when a count has reached its limit. */
    predicate Reached(rows: nat, bytes: nat, sources: nat) {
      || (maximumRows > 0 && rows >= maximumRows)
      || (maximumBytes > 0 && bytes >= maximumBytes)
      || (maximumSources > 0 && sources >= maximumSources)
    }

    predicate Overflows(rows: nat, bytes: nat) {
      || (maximumRows > 0 && rows > maximumRows)
      || (maximumBytes > 0 && bytes > maximumBytes)
    }
  }

  /** The tables once every buffered row is inserted. */
  function Flushed(tables: Tables, buffers: Buffers): Tables {
    map t: Table :: InsertAll(tables[t], buffers[t])
  }

  function Emptied(buffers: Buffers, t: Table): Buffers {
    buffers[t := []]
  }

  function PreparedRows(contribution: Contribution, version: Version): Buffers {
    map t: Table :: contribution.Rows(t, version)
  }

  ghost predicate Buffered(buffers: Buffers, path: Path) {
    exists t: Table, row :: row in buffers[t] && row.path == path
  }

  // ----- why waiting is harmless ------------------------------------------------------------

  /** Closing another path's rows changes neither which keys are taken nor the inserted row. */
  lemma CloseThenInsert(rows: Rows, row: Row, path: Path, to: Version)
    requires row.path != path
    ensures Execute(InsertOrIgnore(rows, row), Close(path, to)) == InsertOrIgnore(Execute(rows, Close(path, to)), row)
  {
    var close := Close(path, to);
    if exists taken :: taken in rows && taken.SameKey(row) {
      var taken :| taken in rows && taken.SameKey(row);
      ExecuteMember(rows, close, taken);
      assert close.Effect(taken).value.SameKey(row);
    } else {
      forall after | after in Execute(rows, close)
        ensures !after.SameKey(row)
      {
        var before := ExecuteOrigin(rows, close, after);
      }
      forall after | after in Execute(rows + {row}, close)
        ensures after in Execute(rows, close) + {row}
      {
        var before := ExecuteOrigin(rows + {row}, close, after);
        if before in rows {
          ExecuteMember(rows, close, before);
        }
      }
      forall after | after in Execute(rows, close) + {row}
        ensures after in Execute(rows + {row}, close)
      {
        if after != row {
          var before := ExecuteOrigin(rows, close, after);
          ExecuteMember(rows + {row}, close, before);
        } else {
          ExecuteMember(rows + {row}, close, row);
        }
      }
    }
  }

  lemma {:induction false} CloseThenInsertAll(rows: Rows, inserted: seq<Row>, path: Path, to: Version)
    requires forall row :: row in inserted ==> row.path != path
    ensures Execute(InsertAll(rows, inserted), Close(path, to)) == InsertAll(Execute(rows, Close(path, to)), inserted)
  {
    if inserted != [] {
      var last := |inserted| - 1;
      CloseThenInsertAll(rows, inserted[..last], path, to);
      CloseThenInsert(InsertAll(rows, inserted[..last]), inserted[last], path, to);
    }
  }

  /** Closing first and inserting the buffers later is inserting the buffers first and closing then. */
  lemma CloseThenFlush(tables: Tables, buffers: Buffers, path: Path, version: Version)
    requires !Buffered(buffers, path)
    ensures Flushed(CloseBefore(tables, path, version), buffers) == CloseBefore(Flushed(tables, buffers), path, version)
  {
    if version > 1 {
      forall t: Table
        ensures Flushed(CloseBefore(tables, path, version), buffers)[t]
          == CloseBefore(Flushed(tables, buffers), path, version)[t]
      {
        CloseThenInsertAll(tables[t], buffers[t], path, version - 1);
      }
    }
  }

  /** A contribution that joins waiting buffers has the effect of one that is inserted at once. */
  lemma JoinThenFlush(tables: Tables, buffers: Buffers, contribution: Contribution, version: Version)
    requires !Buffered(buffers, contribution.path)
    ensures Flushed(Flushed(CloseBefore(tables, contribution.path, version), buffers),
      PreparedRows(contribution, version))
         == AddContribution(Flushed(tables, buffers), contribution, version)
  {
    CloseThenFlush(tables, buffers, contribution.path, version);
  }

  // ----- the writer -------------------------------------------------------------------------

  function RowsBytes(rows: seq<Row>, width: Row -> nat): nat {
    if rows == [] then 0 else RowsBytes(rows[..|rows| - 1], width) + width(rows[|rows| - 1])
  }

  function TotalRows(buffers: Buffers): nat {
    |buffers[FileContributions]| + |buffers[Nodes]| + |buffers[Edges]| + |buffers[CatalogUnits]|
    + |buffers[CatalogCoverage]| + |buffers[Extensions]| + |buffers[Dependencies]| + |buffers[ExportedSurfaces]|
    + |buffers[Diagnostics]| + |buffers[UnresolvedReferences]| + |buffers[ModuleBindings]| + |buffers[SymbolReferences]|
  }

  /** estimateContributionRowsBytes, with the estimate of one row as a parameter. */
  function TotalBytes(buffers: Buffers, width: Row -> nat): nat {
    RowsBytes(buffers[FileContributions], width) + RowsBytes(buffers[Nodes], width) + RowsBytes(buffers[Edges], width)
      + RowsBytes(buffers[CatalogUnits], width)
    + RowsBytes(buffers[CatalogCoverage], width) + RowsBytes(buffers[Extensions], width)
      + RowsBytes(buffers[Dependencies], width) + RowsBytes(buffers[ExportedSurfaces], width)
    + RowsBytes(buffers[Diagnostics], width) + RowsBytes(buffers[UnresolvedReferences], width)
      + RowsBytes(buffers[ModuleBindings], width) + RowsBytes(buffers[SymbolReferences], width)
  }

  lemma {:induction false} RowsBytesConcat(first: seq<Row>, second: seq<Row>, width: Row -> nat)
    ensures RowsBytes(first + second, width) == RowsBytes(first, width) + RowsBytes(second, width)
  {
    if second == [] {
      assert first + second == first;
    } else {
      RowsBytesConcat(first, second[..|second| - 1], width);
      assert (first + second)[..|first + second| - 1] == first + second[..|second| - 1];
    }
  }

  lemma JoinedTotals(buffers: Buffers, more: Buffers, width: Row -> nat)
    ensures TotalRows(Joined(buffers, more)) == TotalRows(buffers) + TotalRows(more)
    ensures TotalBytes(Joined(buffers, more), width) == TotalBytes(buffers, width) + TotalBytes(more, width)
  {
    forall t: Table
      ensures RowsBytes(Joined(buffers, more)[t], width) == RowsBytes(buffers[t], width) + RowsBytes(more[t], width)
    {
      RowsBytesConcat(buffers[t], more[t], width);
    }
  }

  /** Writing out one buffer leaves the flushed tables as they were. */
  lemma FlushOne(db: Database, buffers: Buffers, t: Table)
    ensures Flushed(WithRows(db, t, InsertAll(db.tables[t], buffers[t])).tables, Emptied(buffers, t))
      == Flushed(db.tables, buffers)
  {
    forall u: Table
      ensures InsertAll(WithRows(db, t, InsertAll(db.tables[t], buffers[t])).tables[u], Emptied(buffers, t)[u])
           == InsertAll(db.tables[u], buffers[u])
    {}
  }

  lemma InsertedAt(tables: Tables, buffers: Buffers, t: Table, more: seq<Row>, u: Table)
    ensures InsertAll(tables[u], JoinedAt(buffers, t, more)[u])
         == if u == t then InsertAll(InsertAll(tables[t], buffers[t]), more) else InsertAll(tables[u], buffers[u])
  {
    InsertAllConcat(tables[t], buffers[t], more);
  }

  lemma FlushedJoinedAt(tables: Tables, buffers: Buffers, t: Table, more: seq<Row>)
    ensures Flushed(tables, JoinedAt(buffers, t, more))
         == Put(Flushed(tables, buffers), t, InsertAll(Flushed(tables, buffers)[t], more))
  {
    var before, after := Flushed(tables, buffers), Flushed(tables, JoinedAt(buffers, t, more));
    forall u: Table
      ensures after[u] == Put(before, t, InsertAll(before[t], more))[u]
    {
      InsertedAt(tables, buffers, t, more, u);
    }
  }

  function WithBuffer(buffers: Buffers, t: Table, rows: seq<Row>): Buffers {
    buffers[t := rows]
  }

  lemma OneBuffer(buffers: Buffers, t: Table)
    ensures WithBuffer(buffers, t, buffers[t]) == buffers
    ensures Emptied(buffers, t) == WithBuffer(buffers, t, []) && Emptied(buffers, t)[t] == []
  {}

  lemma SameBuffer(buffers: Buffers, t: Table, rows: seq<Row>, later: seq<Row>)
    ensures WithBuffer(buffers, t, rows)[t] == rows
    ensures WithBuffer(WithBuffer(buffers, t, rows), t, later) == WithBuffer(buffers, t, later)
  {}

  function InsertedUpTo(tables: Tables, prepared: Buffers, count: nat): Tables {
    map t: Table :: if Position(t) < count then InsertAll(tables[t], prepared[t]) else tables[t]
  }

  lemma InsertedNext(tables: Tables, prepared: Buffers, i: nat)
    requires i < TABLE_COUNT
    ensures var t := TableAt(i);
      var before := InsertedUpTo(tables, prepared, i);
      Put(before, t, InsertAll(before[t], prepared[t])) == InsertedUpTo(tables, prepared, i + 1)
  {
    ListedOnce(i);
    OnlyTableAt(TableAt(i));
  }

  lemma InsertedNone(tables: Tables, prepared: Buffers)
    ensures InsertedUpTo(tables, prepared, 0) == tables
  {
    hide Position, InsertAll;
  }

  lemma InsertedEverywhere(tables: Tables, prepared: Buffers)
    ensures InsertedUpTo(tables, prepared, TABLE_COUNT) == Flushed(tables, prepared)
  {
    forall t: Table
      ensures Position(t) < TABLE_COUNT
    {
      EveryTableListed(t);
    }
    hide Position, InsertAll;
  }

  /** Without limits a buffer stays below 500 rows because it may just have been written out. */
  ghost predicate BufferedAs(buffer: seq<Row>, expected: seq<Row>, limits: BatchLimits) {
    if limits.Unlimited() then |buffer| < MAXIMUM_BATCH_ROWS && (buffer == [] || buffer == expected)
    else buffer == expected
  }

  ghost predicate BufferedUpTo(buffers: Buffers, before: Buffers, prepared: Buffers, limits: BatchLimits, count: nat) {
    forall t: Table ::
      if Position(t) < count then BufferedAs(buffers[t], before[t] + prepared[t], limits) else buffers[t] == before[t]
  }

  lemma BufferedNone(buffers: Buffers, prepared: Buffers, limits: BatchLimits)
    ensures BufferedUpTo(buffers, buffers, prepared, limits, 0)
  {
    hide Position, BufferedAs;
  }

  lemma BufferedNow(buffers: Buffers, before: Buffers, prepared: Buffers, limits: BatchLimits, i: nat)
    requires i < TABLE_COUNT && BufferedUpTo(buffers, before, prepared, limits, i)
    ensures buffers[TableAt(i)] == before[TableAt(i)]
  {
    ListedOnce(i);
  }

  lemma BufferedNext(buffers: Buffers, before: Buffers, prepared: Buffers, limits: BatchLimits, i: nat, rows: seq<Row>)
    requires i < TABLE_COUNT && BufferedUpTo(buffers, before, prepared, limits, i)
    requires BufferedAs(rows, before[TableAt(i)] + prepared[TableAt(i)], limits)
    ensures BufferedUpTo(WithBuffer(buffers, TableAt(i), rows), before, prepared, limits, i + 1)
  {
    ListedOnce(i);
    OnlyTableAt(TableAt(i));
  }

  lemma NothingToFlush(tables: Tables)
    ensures Flushed(tables, EMPTY_BUFFERS) == tables
  {}

  // ----- every row once ---------------------------------------------------------------------

  lemma SameBuffers(first: Buffers, second: Buffers)
    requires forall t: Table :: first[t] == second[t]
    ensures first == second
  {}

  lemma JoinedEntry(first: Buffers, second: Buffers, t: Table)
    ensures Joined(first, second)[t] == first[t] + second[t]
  {}

  lemma GrownEntry(buffers: Buffers, t: Table, more: seq<Row>, u: Table)
    ensures JoinedAt(buffers, t, more)[u] == if u == t then buffers[t] + more else buffers[u]
    ensures Emptied(buffers, t)[u] == if u == t then [] else buffers[u]
  {}

  lemma ThreeParts(first: seq<Row>, second: seq<Row>, third: seq<Row>)
    ensures (first + second) + third == first + (second + third)
  {}

  /** Writing out one buffer moves its rows to the log. */
  lemma LogOne(log: Buffers, buffers: Buffers, t: Table)
    ensures Joined(JoinedAt(log, t, buffers[t]), Emptied(buffers, t)) == Joined(log, buffers)
  {
    hide Joined, JoinedAt, Emptied;
    forall u: Table
      ensures Joined(JoinedAt(log, t, buffers[t]), Emptied(buffers, t))[u] == Joined(log, buffers)[u]
    {
      JoinedEntry(JoinedAt(log, t, buffers[t]), Emptied(buffers, t), u);
      JoinedEntry(log, buffers, u);
      GrownEntry(log, t, buffers[t], u);
      GrownEntry(buffers, t, [], u);
    }
    SameBuffers(Joined(JoinedAt(log, t, buffers[t]), Emptied(buffers, t)), Joined(log, buffers));
  }

  lemma LogJoinedAt(log: Buffers, buffers: Buffers, t: Table, more: seq<Row>)
    ensures Joined(log, JoinedAt(buffers, t, more)) == JoinedAt(Joined(log, buffers), t, more)
  {
    hide Joined, JoinedAt, Emptied;
    forall u: Table
      ensures Joined(log, JoinedAt(buffers, t, more))[u] == JoinedAt(Joined(log, buffers), t, more)[u]
    {
      JoinedEntry(log, JoinedAt(buffers, t, more), u);
      JoinedEntry(log, buffers, u);
      GrownEntry(buffers, t, more, u);
      GrownEntry(Joined(log, buffers), t, more, u);
      ThreeParts(log[u], buffers[u], more);
    }
    SameBuffers(Joined(log, JoinedAt(buffers, t, more)), JoinedAt(Joined(log, buffers), t, more));
  }

  function JoinedUpTo(before: Buffers, prepared: Buffers, count: nat): Buffers {
    map t: Table :: if Position(t) < count then before[t] + prepared[t] else before[t]
  }

  lemma JoinedNext(before: Buffers, prepared: Buffers, i: nat)
    requires i < TABLE_COUNT
    ensures JoinedAt(JoinedUpTo(before, prepared, i), TableAt(i), prepared[TableAt(i)])
      == JoinedUpTo(before, prepared, i + 1)
  {
    ListedOnce(i);
    OnlyTableAt(TableAt(i));
  }

  lemma JoinedNone(before: Buffers, prepared: Buffers)
    ensures JoinedUpTo(before, prepared, 0) == before
  {
    hide Position;
  }

  lemma JoinedEverywhere(before: Buffers, prepared: Buffers)
    ensures JoinedUpTo(before, prepared, TABLE_COUNT) == Joined(before, prepared)
  {
    forall t: Table
      ensures Position(t) < TABLE_COUNT
    {
      EveryTableListed(t);
    }
    hide Position;
  }

  lemma NothingJoined(log: Buffers)
    ensures Joined(log, EMPTY_BUFFERS) == log
  {
    forall t: Table
      ensures log[t] + EMPTY_BUFFERS[t] == log[t]
    {}
  }

  /** The header rows that wait, and then those to come, have keys that nothing else has. */
  ghost predicate Fits(tables: Tables, buffers: Buffers, coming: seq<Row>) {
    KeysFree(tables[FileContributions], buffers[FileContributions] + coming)
  }

  /** Writing out a buffer of header rows that fit succeeds, and what is to come still fits. */
  lemma FlushFits(db: Database, buffers: Buffers, t: Table, coming: seq<Row>)
    requires Fits(db.tables, buffers, coming)
    ensures Insertable(t, db.tables[t], buffers[t])
    ensures Fits(WithRows(db, t, InsertAll(db.tables[t], buffers[t])).tables, Emptied(buffers, t), coming)
  {
    hide InsertAll;
    if t == FileContributions {
      KeysFreeConcat(db.tables[t], buffers[t], coming);
      assert [] + coming == coming;
    }
  }

  /** No header row belongs to the version yet, except those of the named paths. */
  ghost predicate OnlyHeaders(tables: Tables, version: Version, paths: set<Path>) {
    forall row :: row in tables[FileContributions] && row.from == version ==> row.path in paths
  }

  lemma {:induction false} InsertAllAdds(rows: Rows, inserted: seq<Row>)
    ensures InsertAll(rows, inserted) <= rows + set row | row in inserted
  {
    if inserted != [] {
      InsertAllAdds(rows, inserted[..|inserted| - 1]);
    }
  }

  lemma AddOpensPath(tables: Tables, contribution: Contribution, version: Version, paths: set<Path>)
    requires OnlyHeaders(tables, version, paths)
    ensures OnlyHeaders(AddContribution(tables, contribution, version), version, paths + {contribution.path})
  {
    var closed := CloseBefore(tables, contribution.path, version);
    forall row | row in closed[FileContributions] && row.from == version
      ensures row.path in paths
    {
      if version > 1 {
        var before := ExecuteOrigin(tables[FileContributions], Close(contribution.path, version - 1), row);
      }
    }
    InsertAllAdds(closed[FileContributions], contribution.Rows(FileContributions, version));
  }

  /** The one header row of a path the version does not hold yet fits. */
  lemma NewPathFits(tables: Tables, buffers: Buffers, contribution: Contribution, version: Version, paths: set<Path>)
    requires Fits(tables, buffers, []) && OnlyHeaders(Flushed(tables, buffers), version, paths)
    requires contribution.path !in paths && |contribution.facts[FileContributions]| == 1
    ensures Fits(tables, buffers, PreparedRows(contribution, version)[FileContributions])
  {
    var waiting, headers := buffers[FileContributions], PreparedRows(contribution, version)[FileContributions];
    assert waiting + [] == waiting;
    assert headers[..0] == [] && headers == [headers[0]];
    KeysFreeConcat(tables[FileContributions], waiting, headers);
    assert InsertAll(tables[FileContributions], waiting) == Flushed(tables, buffers)[FileContributions];
    assert KeysFree(InsertAll(tables[FileContributions], waiting), headers[..0]);
  }

  /** What the log holds after the rows of some contributions, in order. */
  function Logged(log: Buffers, contributions: seq<Contribution>, version: Version): Buffers {
    if contributions == [] then log
    else
      var before, last := contributions[..|contributions| - 1], contributions[|contributions| - 1];
      Joined(Logged(log, before, version), PreparedRows(last, version))
  }

  /** Rows have only moved from the buffers to the tables and the log; nothing is lost or doubled. */
  ghost predicate Carried(db0: Database, log0: Buffers, buffers0: Buffers, db: Database, log: Buffers,
          buffers: Buffers) {
    && db == db0.(tables := db.tables)
    && Flushed(db.tables, buffers) == Flushed(db0.tables, buffers0)
    && Joined(log, buffers) == Joined(log0, buffers0)
  }

  lemma CarriedNowhere(db: Database, log: Buffers, buffers: Buffers)
    ensures Carried(db, log, buffers, db, log, buffers)
  {
    hide Flushed, Joined;
  }

  lemma CarriedOn(db0: Database, log0: Buffers, buffers0: Buffers, db1: Database, log1: Buffers, buffers1: Buffers,
          db: Database, log: Buffers, buffers: Buffers)
    requires Carried(db0, log0, buffers0, db1, log1, buffers1) && Carried(db1, log1, buffers1, db, log, buffers)
    ensures Carried(db0, log0, buffers0, db, log, buffers)
  {
    hide Flushed, Joined;
  }

  /** With every buffer empty, all rows are in the tables and in the log. */
  lemma CarriedAll(db0: Database, log0: Buffers, buffers0: Buffers, db: Database, log: Buffers)
    ensures Carried(db0, log0, buffers0, db, log, EMPTY_BUFFERS)
       <==> db == db0.(tables := Flushed(db0.tables, buffers0)) && log == Joined(log0, buffers0)
  {
    NothingToFlush(db.tables);
    NothingJoined(log);
    hide Flushed, Joined;
  }

  /** All that writing out one buffer leaves as it was. */
  lemma BufferMoves(db: Database, log: Buffers, buffers: Buffers, t: Table, coming: seq<Row>)
    ensures var after := WithRows(db, t, InsertAll(db.tables[t], buffers[t]));
      && Carried(db, log, buffers, after, JoinedAt(log, t, buffers[t]), Emptied(buffers, t))
      && (Fits(db.tables, buffers, coming) ==>
        Insertable(t, db.tables[t], buffers[t]) && Fits(after.tables, Emptied(buffers, t), coming))
  {
    FlushOne(db, buffers, t);
    LogOne(log, buffers, t);
    hide InsertAll, Insertable, Flushed, Joined, JoinedAt, Fits, Emptied;
    if Fits(db.tables, buffers, coming) {
      FlushFits(db, buffers, t, coming);
    }
  }

  /** All that joining rows to one buffer means. */
  lemma BufferGrows(tables: Tables, log: Buffers, buffers: Buffers, t: Table, more: seq<Row>)
    ensures var grown := JoinedAt(buffers, t, more);
      && Flushed(tables, grown) == Put(Flushed(tables, buffers), t, InsertAll(Flushed(tables, buffers)[t], more))
      && Joined(log, grown) == JoinedAt(Joined(log, buffers), t, more)
      && grown[t] == buffers[t] + more && grown == WithBuffer(buffers, t, buffers[t] + more)
      && (Fits(tables, buffers, HeadersOf(t, more)) ==> Fits(tables, grown, []))
  {
    FlushedJoinedAt(tables, buffers, t, more);
    LogJoinedAt(log, buffers, t, more);
    hide InsertAll, Flushed, Joined, Fits, HeadersOf, Put;
    if Fits(tables, buffers, HeadersOf(t, more)) {
      JoinedFits(tables, buffers, t, more);
    }
  }

  function Coming(prepared: Buffers, i: nat): seq<Row> {
    if i == 0 then prepared[FileContributions] else []
  }

  function HeadersOf(t: Table, rows: seq<Row>): seq<Row> {
    if t == FileContributions then rows else []
  }

  lemma JoinedFits(tables: Tables, buffers: Buffers, t: Table, more: seq<Row>)
    requires Fits(tables, buffers, HeadersOf(t, more))
    ensures Fits(tables, JoinedAt(buffers, t, more), [])
  {
    var rows := buffers[FileContributions] + HeadersOf(t, more);
    assert JoinedAt(buffers, t, more)[FileContributions] + [] == rows;
  }

  lemma CloseFits(tables: Tables, buffers: Buffers, path: Path, version: Version, coming: seq<Row>)
    requires Fits(tables, buffers, coming)
    ensures Fits(CloseBefore(tables, path, version), buffers, coming)
  {
    if version > 1 {
      CloseKeepsKeys(tables[FileContributions], path, version - 1, buffers[FileContributions] + coming);
    }
  }

  function Max(a: nat, b: nat): nat {
    if a < b then b else a
  }

  /** The writer's fields as a value; flushes holds the rows and estimated bytes of each flush so far. */
  datatype WriterState = WriterState(buffers: Buffers, rows: nat, bytes: nat, sources: nat, flushes: seq<(nat, nat)>)

  function AfterFlush(state: WriterState, width: Row -> nat): WriterState {
    WriterState(EMPTY_BUFFERS, 0, 0, 0, state.flushes + [(TotalRows(state.buffers), TotalBytes(state.buffers, width))])
  }

  function FlushedIf(state: WriterState, full: bool, width: Row -> nat): WriterState {
    if full then AfterFlush(state, width) else state
  }

  /** Between calls no limit is reached and, with any limit set, the counters tell what is buffered. */
  ghost predicate Counted(state: WriterState, limits: BatchLimits, width: Row -> nat) {
    if limits.maximumRows == limits.maximumBytes == limits.maximumSources == 0 then
      forall t: Table :: |state.buffers[t]| < 500
    else
      && state.rows == TotalRows(state.buffers)
      && state.bytes == TotalBytes(state.buffers, width)
      && (limits.maximumRows > 0 ==> state.rows < limits.maximumRows)
      && (limits.maximumBytes > 0 ==> state.bytes < limits.maximumBytes)
      && (limits.maximumSources > 0 ==> state.sources < limits.maximumSources)
      && (state.sources == 0 ==> state.buffers == EMPTY_BUFFERS)
  }

  /** Adding so much flushes what is buffered only if both together exceed a limit, and afterwards only if a
      limit is reached. */
  ghost predicate FlushesWhenDue(before: WriterState, after: WriterState, limits: BatchLimits, rows: nat, bytes: nat) {
    var exceeded := before.sources > 0
      && ((limits.maximumRows > 0 && before.rows + rows > limits.maximumRows)
          || (limits.maximumBytes > 0 && before.bytes + bytes > limits.maximumBytes));
    var rowsNow := if exceeded then rows else before.rows + rows;
    var bytesNow := if exceeded then bytes else before.bytes + bytes;
    var sourcesNow := if exceeded then 1 else before.sources + 1;
    var reached := (limits.maximumRows > 0 && rowsNow >= limits.maximumRows)
      || (limits.maximumBytes > 0 && bytesNow >= limits.maximumBytes)
      || (limits.maximumSources > 0 && sourcesNow >= limits.maximumSources);
    && |after.flushes| == |before.flushes| + (if exceeded then 1 else 0) + (if reached then 1 else 0)
    && (if reached then after.buffers == EMPTY_BUFFERS && after.rows == after.bytes == after.sources == 0
        else after.rows == rowsNow && after.bytes == bytesNow && after.sources == sourcesNow)
  }

  /** The buffers gained that much; without limits all that matters is that each stays short. */
  ghost predicate GrownBy(buffers: Buffers, before: Buffers, limits: BatchLimits, width: Row -> nat, rows: nat,
          bytes: nat) {
    if limits.Unlimited() then forall t: Table :: |buffers[t]| < MAXIMUM_BATCH_ROWS
    else
      && TotalRows(buffers) == TotalRows(before) + rows
      && TotalBytes(buffers, width) == TotalBytes(before, width) + bytes
  }

  lemma JoinedPaths(buffers: Buffers, before: Buffers, contribution: Contribution, version: Version,
          limits: BatchLimits)
    requires BufferedUpTo(buffers, before, PreparedRows(contribution, version), limits, TABLE_COUNT)
    ensures forall path :: Buffered(buffers, path) ==> path == contribution.path || Buffered(before, path)
  {
    forall t: Table, row | row in buffers[t]
      ensures row.path == contribution.path || Buffered(before, row.path)
    {
      EveryTableListed(t);
      hide Position;
      assert row in before[t] || row in contribution.Rows(t, version);
    }
  }

  lemma JoinedGrowth(buffers: Buffers, before: Buffers, prepared: Buffers, limits: BatchLimits, width: Row -> nat)
    requires BufferedUpTo(buffers, before, prepared, limits, TABLE_COUNT)
    ensures GrownBy(buffers, before, limits, width, TotalRows(prepared), TotalBytes(prepared, width))
  {
    forall t: Table {
      EveryTableListed(t);
    }
    if !limits.Unlimited() {
      assert buffers == Joined(before, prepared);
      JoinedTotals(before, prepared, width);
    }
  }

  /** No flush since wrote more than the limit, or than one contribution of the given size. */
  ghost predicate FlushesSince(before: seq<(nat, nat)>, after: seq<(nat, nat)>, limits: BatchLimits, rows: nat,
          bytes: nat) {
    && before <= after
    && forall i :: |before| <= i < |after| ==>
      && (limits.maximumRows > 0 ==> after[i].0 <= Max(limits.maximumRows, rows))
      && (limits.maximumBytes > 0 ==> after[i].1 <= Max(limits.maximumBytes, bytes))
  }

  lemma FlushesChain(first: seq<(nat, nat)>, second: seq<(nat, nat)>, third: seq<(nat, nat)>, limits: BatchLimits,
          rows: nat, bytes: nat)
    requires FlushesSince(first, second, limits, rows, bytes) && FlushesSince(second, third, limits, rows, bytes)
    ensures FlushesSince(first, third, limits, rows, bytes)
  {}

  function WithBuffers(state: WriterState, buffers: Buffers): WriterState {
    state.(buffers := buffers)
  }

  function WithContribution(state: WriterState, joined: Buffers, rows: nat, bytes: nat): WriterState {
    state.(buffers := joined, rows := state.rows + rows, bytes := state.bytes + bytes, sources := state.sources + 1)
  }

  predicate NeedsRoom(state: WriterState, limits: BatchLimits, rows: nat, bytes: nat) {
    state.sources > 0 && limits.Overflows(state.rows + rows, state.bytes + bytes)
  }

  predicate IsFull(state: WriterState, limits: BatchLimits) {
    limits.Reached(state.rows, state.bytes, state.sources)
  }

  lemma MakeRoom(state: WriterState, limits: BatchLimits, width: Row -> nat, rows: nat, bytes: nat)
    requires Counted(state, limits, width)
    ensures var after := FlushedIf(state, NeedsRoom(state, limits, rows, bytes), width);
      && Counted(after, limits, width)
      && !NeedsRoom(after, limits, rows, bytes)
      && FlushesSince(state.flushes, after.flushes, limits, rows, bytes)
  {}

  lemma Settle(state: WriterState, joined: Buffers, limits: BatchLimits, width: Row -> nat, rows: nat, bytes: nat)
    requires Counted(state, limits, width) && !NeedsRoom(state, limits, rows, bytes)
    requires GrownBy(joined, state.buffers, limits, width, rows, bytes)
    ensures var counted := WithContribution(state, joined, rows, bytes);
      var after := FlushedIf(counted, IsFull(counted, limits), width);
      && Counted(after, limits, width)
      && FlushesSince(state.flushes, after.flushes, limits, rows, bytes)
  {}

  lemma AddKeepsCounts(before: WriterState, roomy: WriterState, joined: Buffers, after: WriterState,
          limits: BatchLimits, width: Row -> nat, rows: nat, bytes: nat)
    requires Counted(before, limits, width)
    requires roomy == FlushedIf(before, NeedsRoom(before, limits, rows, bytes), width)
    requires GrownBy(joined, roomy.buffers, limits, width, rows, bytes)
    requires var counted := WithContribution(roomy, joined, rows, bytes);
      after == FlushedIf(counted, IsFull(counted, limits), width)
    ensures Counted(after, limits, width)
    ensures FlushesSince(before.flushes, after.flushes, limits, rows, bytes)
    ensures FlushesWhenDue(before, after, limits, rows, bytes)
  {
    MakeRoom(before, limits, width, rows, bytes);
    Settle(roomy, joined, limits, width, rows, bytes);
    FlushesChain(before.flushes, roomy.flushes, after.flushes, limits, rows, bytes);
  }

  /** The first groups of prepared rows have been buffered, and some perhaps written out. */
  ghost predicate BufferedSoFar(db0: Database, log0: Buffers, buffers0: Buffers, prepared: Buffers,
          limits: BatchLimits, count: nat,
          db: Database, log: Buffers, buffers: Buffers) {
    && db == db0.(tables := db.tables)
    && Flushed(db.tables, buffers) == InsertedUpTo(Flushed(db0.tables, buffers0), prepared, count)
    && Joined(log, buffers) == JoinedUpTo(Joined(log0, buffers0), prepared, count)
    && BufferedUpTo(buffers, buffers0, prepared, limits, count)
    && (Fits(db0.tables, buffers0, prepared[FileContributions]) ==> Fits(db.tables, buffers, Coming(prepared, count)))
  }

  lemma BufferingStarts(db: Database, log: Buffers, buffers: Buffers, prepared: Buffers, limits: BatchLimits)
    ensures BufferedSoFar(db, log, buffers, prepared, limits, 0, db, log, buffers)
  {
    InsertedNone(Flushed(db.tables, buffers), prepared);
    JoinedNone(Joined(log, buffers), prepared);
    BufferedNone(buffers, prepared, limits);
    hide Flushed, Joined, Fits, InsertedUpTo, JoinedUpTo, BufferedUpTo;
  }

  lemma BufferingEnds(db0: Database, log0: Buffers, buffers0: Buffers, prepared: Buffers, limits: BatchLimits,
          db: Database, log: Buffers, buffers: Buffers)
    requires BufferedSoFar(db0, log0, buffers0, prepared, limits, TABLE_COUNT, db, log, buffers)
    ensures db == db0.(tables := db.tables)
    ensures Flushed(db.tables, buffers) == Flushed(Flushed(db0.tables, buffers0), prepared)
    ensures Joined(log, buffers) == Joined(Joined(log0, buffers0), prepared)
    ensures BufferedUpTo(buffers, buffers0, prepared, limits, TABLE_COUNT)
    ensures Fits(db0.tables, buffers0, prepared[FileContributions]) ==> Fits(db.tables, buffers, [])
  {
    InsertedEverywhere(Flushed(db0.tables, buffers0), prepared);
    JoinedEverywhere(Joined(log0, buffers0), prepared);
    hide Flushed, Joined, Fits, InsertedUpTo, JoinedUpTo, BufferedUpTo;
  }

  class Writer {
    const limits: BatchLimits
    const width: Row -> nat
    var buffers: Buffers
    var rowCount: nat
    var estimatedBytes: nat
    var sourceCount: nat
    ghost var flushes: seq<(nat, nat)>

    ghost function State(): WriterState
      reads this
    {
      WriterState(buffers, rowCount, estimatedBytes, sourceCount, flushes)
    }

    ghost predicate Valid()
      reads this
    {
      Counted(State(), limits, width)
    }

    constructor (limits: BatchLimits, width: Row -> nat)
      ensures Valid() && State() == WriterState(EMPTY_BUFFERS, 0, 0, 0, [])
      ensures this.limits == limits && this.width == width
    {
      this.limits, this.width := limits, width;
      buffers, rowCount, estimatedBytes, sourceCount := EMPTY_BUFFERS, 0, 0, 0;
      flushes := [];
    }

    /** Writes out one buffer; headers that are known to fit, now and later, make it succeed. */
    method FlushInsertion(tx: Transaction, t: Table, ghost coming: seq<Row>) returns (outcome: Outcome<StoreError>)
      requires tx.WithinVariableLimit()
      modifies `buffers, tx
      ensures outcome.Pass? ==>
        && buffers == Emptied(old(buffers), t) && Insertable(t, old(tx.db.tables[t]), old(buffers[t]))
        && Carried(old(tx.db), old(tx.log), old(buffers), tx.db, tx.log, buffers)
      ensures Fits(old(tx.db.tables), old(buffers), coming) ==>
        (tx.Dependable() ==> outcome.Pass?) && (outcome.Pass? ==> Fits(tx.db.tables, buffers, coming))
      ensures tx.WithinVariableLimit()
    {
      BufferMoves(tx.db, tx.log, buffers, t, coming);
      hide InsertAll, Insertable, Carried, JoinedAt, Fits, Emptied, WithRows, Transaction.WithinVariableLimit;
      var maximumRows := if limits.maximumRows <= 0 then MAXIMUM_BATCH_ROWS else limits.maximumRows;
      outcome := tx.InsertRows(t, maximumRows, buffers[t]);
      if outcome.Pass? {
        buffers := Emptied(buffers, t);
      }
    }

    /** One round of the loop in flush. */
    method FlushNext(tx: Transaction, i: nat, ghost coming: seq<Row>) returns (outcome: Outcome<StoreError>)
      requires i < TABLE_COUNT && tx.WithinVariableLimit()
      requires EmptiedUpTo(buffers, i)
      modifies `buffers, tx
      ensures outcome.Pass? ==>
        && EmptiedUpTo(buffers, i + 1)
        && Insertable(TableAt(i), old(tx.db.tables[TableAt(i)]), old(buffers[TableAt(i)]))
        && Carried(old(tx.db), old(tx.log), old(buffers), tx.db, tx.log, buffers)
      ensures Fits(old(tx.db.tables), old(buffers), coming) ==>
        (tx.Dependable() ==> outcome.Pass?) && (outcome.Pass? ==> Fits(tx.db.tables, buffers, coming))
      ensures tx.WithinVariableLimit()
    {
      EmptiedNext(buffers, i);
      hide Carried, Fits, EmptiedUpTo, Insertable, TableAt, Position, Transaction.WithinVariableLimit;
      outcome := FlushInsertion(tx, TableAt(i), coming);
    }

    /** The loop over the twelve buffers. */
    method FlushTables(tx: Transaction, ghost coming: seq<Row>) returns (outcome: Outcome<StoreError>)
      requires tx.WithinVariableLimit()
      modifies `buffers, tx
      ensures outcome.Pass? ==>
        && buffers == EMPTY_BUFFERS && Fits(old(tx.db.tables), old(buffers), [])
        && Carried(old(tx.db), old(tx.log), old(buffers), tx.db, tx.log, buffers)
      ensures Fits(old(tx.db.tables), old(buffers), coming) ==>
        (tx.Dependable() ==> outcome.Pass?) && (outcome.Pass? ==> Fits(tx.db.tables, buffers, coming))
      ensures tx.WithinVariableLimit()
    {
      HeadersFit(tx.db.tables, buffers);
      CarriedNowhere(tx.db, tx.log, buffers);
      EmptiedNone(buffers);
      hide Carried, Fits, Insertable, TableAt, EmptiedUpTo, Transaction.WithinVariableLimit;
      for i := 0 to TABLE_COUNT
        invariant Carried(old(tx.db), old(tx.log), old(buffers), tx.db, tx.log, buffers)
        invariant i == 0 ==> tx.db == old(tx.db) && buffers == old(buffers)
        invariant i > 0 ==> Fits(old(tx.db.tables), old(buffers), [])
        invariant Fits(old(tx.db.tables), old(buffers), coming) ==> Fits(tx.db.tables, buffers, coming)
        invariant EmptiedUpTo(buffers, i) && tx.WithinVariableLimit()
      {
        ghost var db1, log1, buffers1 := tx.db, tx.log, buffers;
        outcome := FlushNext(tx, i, coming);
        if outcome.Fail? {
          return;
        }
        CarriedOn(old(tx.db), old(tx.log), old(buffers), db1, log1, buffers1, tx.db, tx.log, buffers);
      }
      AllEmptied(buffers);
      return Pass;
    }

    /** flush: every buffered row is handed to an INSERT statement, once and in order per table. */
    method Flush(tx: Transaction, ghost coming: seq<Row>) returns (outcome: Outcome<StoreError>)
      requires tx.WithinVariableLimit()
      modifies this, tx
      ensures outcome.Pass? ==>
        && State() == AfterFlush(old(State()), width)
        && tx.db == old(tx.db).(tables := Flushed(old(tx.db.tables), old(buffers)))
        && tx.log == Joined(old(tx.log), old(buffers))
        && Fits(old(tx.db.tables), old(buffers), [])
      ensures Fits(old(tx.db.tables), old(buffers), coming) ==>
        (tx.Dependable() ==> outcome.Pass?) && (outcome.Pass? ==> Fits(tx.db.tables, buffers, coming))
      ensures tx.WithinVariableLimit()
    {
      hide TotalRows, TotalBytes, Flushed, Joined, Carried, Fits, Transaction.WithinVariableLimit;
      ghost var total := (TotalRows(buffers), TotalBytes(buffers, width));
      outcome := FlushTables(tx, coming);
      if outcome.Fail? {
        return;
      }
      CarriedAll(old(tx.db), old(tx.log), old(buffers), tx.db, tx.log);
      rowCount, estimatedBytes, sourceCount := 0, 0, 0;
      flushes := flushes + [total];
      return Pass;
    }

    /** The per-table rule without limits: a buffer that reaches 500 rows is written out. */
    method FlushWhenLong(tx: Transaction, t: Table) returns (outcome: Outcome<StoreError>)
      requires tx.WithinVariableLimit()
      modifies `buffers, tx
      ensures outcome.Pass? ==>
        && Carried(old(tx.db), old(tx.log), old(buffers), tx.db, tx.log, buffers)
        && buffers == WithBuffer(old(buffers), t, buffers[t])
        && BufferedAs(buffers[t], old(buffers)[t], limits)
      ensures Fits(old(tx.db.tables), old(buffers), []) ==>
        (tx.Dependable() ==> outcome.Pass?) && (outcome.Pass? ==> Fits(tx.db.tables, buffers, []))
      ensures tx.WithinVariableLimit()
    {
      OneBuffer(buffers, t);
      CarriedNowhere(tx.db, tx.log, buffers);
      hide Carried, Fits, Emptied, WithBuffer, Insertable, Transaction.WithinVariableLimit;
      if limits.Unlimited() && |buffers[t]| >= MAXIMUM_BATCH_ROWS {
        outcome := FlushInsertion(tx, t, []);
      } else {
        outcome := Pass;
      }
    }

    method BufferTable(tx: Transaction, t: Table, more: seq<Row>) returns (outcome: Outcome<StoreError>)
      requires tx.WithinVariableLimit()
      modifies `buffers, tx
      ensures outcome.Pass? ==>
        && tx.db == old(tx.db).(tables := tx.db.tables)
        && Flushed(tx.db.tables, buffers) ==
          Put(Flushed(old(tx.db.tables), old(buffers)), t, InsertAll(Flushed(old(tx.db.tables), old(buffers))[t], more))
        && Joined(tx.log, buffers) == JoinedAt(Joined(old(tx.log), old(buffers)), t, more)
        && buffers == WithBuffer(old(buffers), t, buffers[t])
        && BufferedAs(buffers[t], old(buffers)[t] + more, limits)
      ensures Fits(old(tx.db.tables), old(buffers), HeadersOf(t, more)) ==>
        (tx.Dependable() ==> outcome.Pass?) && (outcome.Pass? ==> Fits(tx.db.tables, buffers, []))
      ensures tx.WithinVariableLimit()
    {
      BufferGrows(tx.db.tables, tx.log, buffers, t, more);
      hide *;
      buffers := JoinedAt(buffers, t, more);
      outcome := FlushWhenLong(tx, t);
      if outcome.Pass? {
        SameBuffer(old(buffers), t, old(buffers)[t] + more, buffers[t]);
      }
    }

    /** One round of the loop over the twelve buffers. */
    method BufferNext(tx: Transaction, prepared: Buffers, i: nat, ghost db0: Database, ghost log0: Buffers,
            ghost buffers0: Buffers) returns (outcome: Outcome<StoreError>)
      requires i < TABLE_COUNT && tx.WithinVariableLimit()
      requires BufferedSoFar(db0, log0, buffers0, prepared, limits, i, tx.db, tx.log, buffers)
      modifies `buffers, tx
      ensures outcome.Pass? ==> BufferedSoFar(db0, log0, buffers0, prepared, limits, i + 1, tx.db, tx.log, buffers)
      ensures tx.Dependable() && Fits(db0.tables, buffers0, prepared[FileContributions]) ==> outcome.Pass?
      ensures tx.WithinVariableLimit()
    {
      var t := TableAt(i);
      InsertedNext(Flushed(db0.tables, buffers0), prepared, i);
      JoinedNext(Joined(log0, buffers0), prepared, i);
      BufferedNow(buffers, buffers0, prepared, limits, i);
      HeadersAt(i, prepared);
      hide Flushed, Joined, Fits, InsertAll, HeadersOf, Put, JoinedAt, BufferedUpTo, InsertedUpTo, JoinedUpTo, TableAt,
        BufferedAs,
        Coming, Transaction.WithinVariableLimit;
      outcome := BufferTable(tx, t, prepared[t]);
      if outcome.Pass? {
        BufferedNext(old(buffers), buffers0, prepared, limits, i, buffers[t]);
      }
    }

    method BufferRows(tx: Transaction, prepared: Buffers) returns (outcome: Outcome<StoreError>)
      requires tx.WithinVariableLimit()
      modifies `buffers, tx
      ensures outcome.Pass? ==>
        && tx.db == old(tx.db).(tables := tx.db.tables)
        && Flushed(tx.db.tables, buffers) == Flushed(Flushed(old(tx.db.tables), old(buffers)), prepared)
        && Joined(tx.log, buffers) == Joined(Joined(old(tx.log), old(buffers)), prepared)
        && BufferedUpTo(buffers, old(buffers), prepared, limits, TABLE_COUNT)
      ensures Fits(old(tx.db.tables), old(buffers), prepared[FileContributions]) ==>
        (tx.Dependable() ==> outcome.Pass?) && (outcome.Pass? ==> Fits(tx.db.tables, buffers, []))
      ensures tx.WithinVariableLimit()
    {
      BufferingStarts(tx.db, tx.log, buffers, prepared, limits);
      hide BufferedUpTo, Flushed, Transaction.WithinVariableLimit, Joined, Fits, BufferedSoFar;
      for i := 0 to TABLE_COUNT
        invariant BufferedSoFar(old(tx.db), old(tx.log), old(buffers), prepared, limits, i, tx.db, tx.log, buffers)
        invariant tx.WithinVariableLimit()
      {
        outcome := BufferNext(tx, prepared, i, old(tx.db), old(tx.log), old(buffers));
        if outcome.Fail? {
          return;
        }
      }
      BufferingEnds(old(tx.db), old(tx.log), old(buffers), prepared, limits, tx.db, tx.log, buffers);
      return Pass;
    }

    method FlushWhen(tx: Transaction, full: bool, ghost coming: seq<Row>) returns (outcome: Outcome<StoreError>)
      requires tx.WithinVariableLimit()
      modifies this, tx
      ensures outcome.Pass? ==>
        && Carried(old(tx.db), old(tx.log), old(buffers), tx.db, tx.log, buffers)
        && State() == FlushedIf(old(State()), full, width)
      ensures Fits(old(tx.db.tables), old(buffers), coming) ==>
        (tx.Dependable() ==> outcome.Pass?) && (outcome.Pass? ==> Fits(tx.db.tables, buffers, coming))
      ensures tx.WithinVariableLimit()
    {
      hide Flushed, Joined, Carried, Fits, TotalRows, TotalBytes;
      CarriedNowhere(tx.db, tx.log, buffers);
      if full {
        outcome := Flush(tx, coming);
        CarriedAll(old(tx.db), old(tx.log), old(buffers), tx.db, tx.log);
      } else {
        outcome := Pass;
      }
    }

    method CloseAndBuffer(tx: Transaction, contribution: Contribution, version: Version)
      returns (outcome: Outcome<StoreError>)
      requires tx.WithinVariableLimit() && !Buffered(buffers, contribution.path)
      modifies `buffers, tx
      ensures State() == WithBuffers(old(State()), buffers)
      ensures outcome.Pass? ==>
        && tx.db == old(tx.db).(tables := tx.db.tables)
        && Flushed(tx.db.tables, buffers)
          == AddContribution(Flushed(old(tx.db.tables), old(buffers)), contribution, version)
        && Joined(tx.log, buffers) == Joined(Joined(old(tx.log), old(buffers)), PreparedRows(contribution, version))
        && (forall path :: Buffered(buffers, path) ==> path == contribution.path || Buffered(old(buffers), path))
        && GrownBy(buffers, old(buffers), limits, width,
                   TotalRows(PreparedRows(contribution, version)),
                     TotalBytes(PreparedRows(contribution, version), width))
      ensures Fits(old(tx.db.tables), old(buffers), PreparedRows(contribution, version)[FileContributions]) ==>
        (tx.Dependable() ==> outcome.Pass?) && (outcome.Pass? ==> Fits(tx.db.tables, buffers, []))
      ensures tx.WithinVariableLimit()
    {
      hide Flushed, Joined, Fits, PreparedRows, TotalRows, TotalBytes, GrownBy, BufferedUpTo, Buffered,
        AddContribution, ExecuteAll;
      JoinThenFlush(tx.db.tables, buffers, contribution, version);
      if Fits(tx.db.tables, buffers, PreparedRows(contribution, version)[FileContributions]) {
        CloseFits(tx.db.tables, buffers, contribution.path, version,
          PreparedRows(contribution, version)[FileContributions]);
      }
      if version > 1 {
        tx.ExecuteOnAll(Close(contribution.path, version - 1));
      }
      outcome := BufferRows(tx, PreparedRows(contribution, version));
      if outcome.Pass? {
        JoinedPaths(buffers, old(buffers), contribution, version, limits);
        JoinedGrowth(buffers, old(buffers), PreparedRows(contribution, version), limits, width);
      }
    }

    method AddRows(tx: Transaction, contribution: Contribution, version: Version, rows: nat, bytes: nat)
      returns (outcome: Outcome<StoreError>, ghost roomy: WriterState)
      requires Valid() && tx.WithinVariableLimit() && !Buffered(buffers, contribution.path)
      requires rows == TotalRows(PreparedRows(contribution, version))
      requires bytes == TotalBytes(PreparedRows(contribution, version), width)
      modifies this, tx
      ensures outcome.Pass? ==>
        && tx.db == old(tx.db).(tables := tx.db.tables)
        && Flushed(tx.db.tables, buffers)
          == AddContribution(Flushed(old(tx.db.tables), old(buffers)), contribution, version)
        && Joined(tx.log, buffers) == Joined(Joined(old(tx.log), old(buffers)), PreparedRows(contribution, version))
        && (forall path :: Buffered(buffers, path) ==> path == contribution.path || Buffered(old(buffers), path))
        && roomy == FlushedIf(old(State()), NeedsRoom(old(State()), limits, rows, bytes), width)
        && State() == WithBuffers(roomy, buffers)
        && GrownBy(buffers, roomy.buffers, limits, width, rows, bytes)
      ensures Fits(old(tx.db.tables), old(buffers), PreparedRows(contribution, version)[FileContributions]) ==>
        (tx.Dependable() ==> outcome.Pass?) && (outcome.Pass? ==> Fits(tx.db.tables, buffers, []))
      ensures tx.WithinVariableLimit()
    {
      NothingBuffered();
      hide Flushed, Joined, Fits, TotalRows, TotalBytes, GrownBy, AddContribution, PreparedRows, Valid, Buffered;
      var full := sourceCount > 0 && limits.Overflows(rowCount + rows, estimatedBytes + bytes);
      assert full == NeedsRoom(State(), limits, rows, bytes);
      roomy := FlushedIf(State(), full, width);
      outcome := FlushWhen(tx, full, PreparedRows(contribution, version)[FileContributions]);
      if outcome.Pass? {
        outcome := CloseAndBuffer(tx, contribution, version);
      }
    }

    method CountRows(tx: Transaction, rows: nat, bytes: nat, ghost roomy: WriterState)
      returns (outcome: Outcome<StoreError>)
      requires tx.WithinVariableLimit() && State() == WithBuffers(roomy, buffers)
      modifies this, tx
      ensures outcome.Pass? ==>
        && Carried(old(tx.db), old(tx.log), old(buffers), tx.db, tx.log, buffers)
        && (buffers == EMPTY_BUFFERS || buffers == old(buffers))
        && (var counted := WithContribution(roomy, old(buffers), rows, bytes);
            State() == FlushedIf(counted, IsFull(counted, limits), width))
      ensures Fits(old(tx.db.tables), old(buffers), []) ==>
        (tx.Dependable() ==> outcome.Pass?) && (outcome.Pass? ==> Fits(tx.db.tables, buffers, []))
      ensures tx.WithinVariableLimit()
    {
      hide Carried, Fits, TotalRows, TotalBytes, Transaction.WithinVariableLimit;
      rowCount, estimatedBytes, sourceCount := rowCount + rows, estimatedBytes + bytes, sourceCount + 1;
      outcome := FlushWhen(tx, limits.Reached(rowCount, estimatedBytes, sourceCount), []);
    }

    /** publicationBatch.add: whatever was and is still buffered, the tables end up as if the path's older
        rows were closed and the contribution inserted right away, and the prepared rows follow all earlier
        ones, each once. */
    method Add(tx: Transaction, contribution: Contribution, version: Version) returns (outcome: Outcome<StoreError>)
      requires Valid() && tx.WithinVariableLimit() && !Buffered(buffers, contribution.path)
      modifies this, tx
      ensures outcome.Pass? ==>
        && Valid()
        && tx.db == old(tx.db).(tables := tx.db.tables)
        && Flushed(tx.db.tables, buffers)
          == AddContribution(Flushed(old(tx.db.tables), old(buffers)), contribution, version)
        && Joined(tx.log, buffers) == Joined(Joined(old(tx.log), old(buffers)), PreparedRows(contribution, version))
        && (forall path :: Buffered(buffers, path) ==> path == contribution.path || Buffered(old(buffers), path))
        && FlushesSince(old(flushes), flushes, limits,
                        TotalRows(PreparedRows(contribution, version)),
                          TotalBytes(PreparedRows(contribution, version), width))
        && FlushesWhenDue(old(State()), State(), limits,
                          TotalRows(PreparedRows(contribution, version)),
                            TotalBytes(PreparedRows(contribution, version), width))
      ensures Fits(old(tx.db.tables), old(buffers), PreparedRows(contribution, version)[FileContributions]) ==>
        (tx.Dependable() ==> outcome.Pass?) && (outcome.Pass? ==> Fits(tx.db.tables, buffers, []))
      ensures tx.WithinVariableLimit()
    {
      NothingBuffered();
      hide Flushed, Joined, Fits, AddContribution, Buffered, GrownBy;
      var prepared := PreparedRows(contribution, version);
      var rows, bytes := TotalRows(prepared), TotalBytes(prepared, width);
      hide PreparedRows, TotalRows, TotalBytes;
      ghost var roomy;
      outcome, roomy := AddRows(tx, contribution, version, rows, bytes);
      if outcome.Pass? {
        ghost var joined := buffers;
        outcome := CountRows(tx, rows, bytes, roomy);
        if outcome.Pass? {
          AddKeepsCounts(old(State()), roomy, joined, State(), limits, width, rows, bytes);
        }
      }
    }
  }

  lemma NothingWaiting(tables: Tables)
    ensures Fits(tables, EMPTY_BUFFERS, [])
  {}

  lemma NothingBuffered()
    ensures forall path :: !Buffered(EMPTY_BUFFERS, path)
  {}

  /** The header rows are the first of the twelve groups. */
  lemma HeadersFit(tables: Tables, buffers: Buffers)
    ensures Insertable(TableAt(0), tables[TableAt(0)], buffers[TableAt(0)]) ==> Fits(tables, buffers, [])
  {
    assert buffers[FileContributions] + [] == buffers[FileContributions];
    hide KeysFree;
  }

  lemma HeadersAt(i: nat, prepared: Buffers)
    requires i < TABLE_COUNT
    ensures HeadersOf(TableAt(i), prepared[TableAt(i)]) == Coming(prepared, i)
    ensures Coming(prepared, i + 1) == []
  {
    ListedOnce(i);
  }

  ghost predicate EmptiedUpTo(buffers: Buffers, count: nat) {
    forall t: Table :: Position(t) < count ==> buffers[t] == []
  }

  lemma EmptiedNone(buffers: Buffers)
    ensures EmptiedUpTo(buffers, 0)
  {
    hide Position;
  }

  lemma EmptiedNext(buffers: Buffers, i: nat)
    requires i < TABLE_COUNT && EmptiedUpTo(buffers, i)
    ensures EmptiedUpTo(Emptied(buffers, TableAt(i)), i + 1)
  {
    ListedOnce(i);
    OnlyTableAt(TableAt(i));
    hide Position, TableAt;
  }

  lemma AllEmptied(buffers: Buffers)
    requires EmptiedUpTo(buffers, TABLE_COUNT)
    ensures buffers == EMPTY_BUFFERS
  {
    forall t: Table
      ensures buffers[t] == []
    {
      EveryTableListed(t);
    }
  }
}
