/** A transaction's private copy of one workspace's tables, changed statement by statement. */
module SqlTransaction {
  import opened Wrappers
  import opened ContributionTables
  import opened GraphDatabase
  import opened Sequences

  const CONTRIBUTION_TABLES: seq<Table> := [
    FileContributions, Nodes, Edges, CatalogUnits, CatalogCoverage, Extensions, Dependencies,
    ExportedSurfaces, Diagnostics, UnresolvedReferences, ModuleBindings, SymbolReferences]

  const TABLE_COUNT := 12

  function TableAt(i: nat): Table
    requires i < TABLE_COUNT
  {
    CONTRIBUTION_TABLES[i]
  }

  function Position(t: Table): nat {
    match t
    case FileContributions => 0
    case Nodes => 1
    case Edges => 2
    case CatalogUnits => 3
    case CatalogCoverage => 4
    case Extensions => 5
    case Dependencies => 6
    case ExportedSurfaces => 7
    case Diagnostics => 8
    case UnresolvedReferences => 9
    case ModuleBindings => 10
    case SymbolReferences => 11
  }

  lemma EveryTableListed(t: Table)
    ensures Position(t) < TABLE_COUNT && TableAt(Position(t)) == t
  {}

  lemma OnlyTableAt(t: Table)
    ensures forall u: Table :: Position(u) == Position(t) ==> u == t
  {}

  lemma ListedOnce(i: nat)
    requires i < TABLE_COUNT
    ensures Position(TableAt(i)) == i
  {}

  /** How many values one row of the table binds in its INSERT statement. */
  function Columns(t: Table): nat {
    match t
    case FileContributions => 6
    case Nodes => 16
    case Edges => 15
    case CatalogUnits => 10
    case CatalogCoverage => 3
    case Extensions => 4
    case Dependencies => 4
    case ExportedSurfaces => 5
    case Diagnostics => 5
    case UnresolvedReferences => 7
    case ModuleBindings => 9
    case SymbolReferences => 15
  }

  /** As many columns as the INSERT statements of the twelve tables name, in their order. */
  lemma ColumnCounts()
    ensures seq(TABLE_COUNT, i requires 0 <= i < TABLE_COUNT => Columns(TableAt(i)))
      == [6, 16, 15, 10, 3, 4, 4, 5, 5, 7, 9, 15]
  {}

  function RowsPerStatement(t: Table, variableLimit: nat, maximumRows: nat): nat {
    var fitting := variableLimit / Columns(t);
    Min(fitting, maximumRows)
  }

  lemma {:induction false} InsertAllConcat(rows: Rows, first: seq<Row>, second: seq<Row>)
    ensures InsertAll(rows, first + second) == InsertAll(InsertAll(rows, first), second)
  {
    if second == [] {
      assert first + second == first;
    } else {
      var last := |second| - 1;
      InsertAllConcat(rows, first, second[..last]);
      assert (first + second)[..|first + second| - 1] == first + second[..last];
    }
  }

  lemma InsertSlice(rows: Rows, inserted: seq<Row>, start: nat, end: nat)
    requires start <= end <= |inserted|
    ensures InsertAll(rows, inserted[..end]) == InsertAll(InsertAll(rows, inserted[..start]), inserted[start..end])
  {
    InsertAllConcat(rows, inserted[..start], inserted[start..end]);
    assert inserted[..start] + inserted[start..end] == inserted[..end];
  }

  /** The values one statement of that many rows binds. */
  function BoundValues(rows: nat, t: Table): nat {
    rows * Columns(t)
  }

  lemma WithinLimit(t: Table, variableLimit: nat, maximumRows: nat)
    ensures BoundValues(RowsPerStatement(t, variableLimit, maximumRows), t) <= variableLimit
  {
    assert RowsPerStatement(t, variableLimit, maximumRows) * Columns(t) <= (variableLimit / Columns(t)) * Columns(t);
  }

  const MAXIMUM_COLUMNS := 16

  /** With room for the widest row no statement is refused for its width. */
  lemma RowsFit(t: Table, variableLimit: nat, maximumRows: nat)
    requires variableLimit >= MAXIMUM_COLUMNS && maximumRows >= 1
    ensures RowsPerStatement(t, variableLimit, maximumRows) >= 1
  {
    assert Columns(t) <= variableLimit;
  }

  lemma FewerValues(rows: nat, perStatement: nat, t: Table)
    requires rows <= perStatement
    ensures BoundValues(rows, t) <= BoundValues(perStatement, t)
  {}

  // ----- rows per table ---------------------------------------------------------------------

  type Buffers = m: map<Table, seq<Row>> | forall t: Table :: t in m
    witness map t: Table :: []

  const EMPTY_BUFFERS: Buffers := map t: Table :: []

  function Joined(buffers: Buffers, more: Buffers): Buffers {
    map t: Table :: buffers[t] + more[t]
  }

  function JoinedAt(buffers: Buffers, t: Table, more: seq<Row>): Buffers {
    buffers[t := buffers[t] + more]
  }

  lemma JoinedAtTwice(buffers: Buffers, t: Table, first: seq<Row>, second: seq<Row>)
    ensures JoinedAt(JoinedAt(buffers, t, first), t, second) == JoinedAt(buffers, t, first + second)
  {
    assert buffers[t] + first + second == buffers[t] + (first + second);
  }

  lemma JoinedAtNothing(buffers: Buffers, t: Table)
    ensures JoinedAt(buffers, t, []) == buffers
  {
    assert buffers[t] + [] == buffers[t];
  }

  // ----- primary keys -----------------------------------------------------------------------

  predicate Taken(rows: Rows, row: Row) {
    exists taken :: taken in rows && taken.SameKey(row)
  }

  /** No inserted row has the key of a stored row or of one inserted before it. */
  predicate KeysFree(rows: Rows, inserted: seq<Row>) {
    inserted == [] ||
      var before, last := inserted[..|inserted| - 1], inserted[|inserted| - 1];
      KeysFree(rows, before) && !Taken(InsertAll(rows, before), last)
  }

  /** Header rows go in by a plain INSERT, which fails on a taken key; the other tables ignore the row. */
  predicate Insertable(t: Table, rows: Rows, inserted: seq<Row>) {
    t == FileContributions ==> KeysFree(rows, inserted)
  }

  lemma {:induction false} KeysFreeConcat(rows: Rows, first: seq<Row>, second: seq<Row>)
    ensures KeysFree(rows, first + second) <==> KeysFree(rows, first) && KeysFree(InsertAll(rows, first), second)
  {
    if second == [] {
      assert first + second == first;
    } else {
      var before, all := second[..|second| - 1], first + second;
      KeysFreeConcat(rows, first, before);
      InsertAllConcat(rows, first, before);
      assert all[..|all| - 1] == first + before && all[|all| - 1] == second[|second| - 1];
    }
  }

  lemma InsertableConcat(t: Table, rows: Rows, first: seq<Row>, second: seq<Row>)
    ensures Insertable(t, rows, first + second) <==>
      Insertable(t, rows, first) && Insertable(t, InsertAll(rows, first), second)
  {
    KeysFreeConcat(rows, first, second);
  }

  lemma InsertableSlice(t: Table, rows: Rows, inserted: seq<Row>, start: nat, end: nat)
    requires start <= end <= |inserted| && Insertable(t, rows, inserted[..start])
    ensures Insertable(t, rows, inserted[..end]) <==>
      Insertable(t, InsertAll(rows, inserted[..start]), inserted[start..end])
    ensures Insertable(t, rows, inserted) ==> Insertable(t, rows, inserted[..end])
  {
    hide InsertAll, Insertable;
    InsertableConcat(t, rows, inserted[..start], inserted[start..end]);
    InsertableConcat(t, rows, inserted[..end], inserted[end..]);
    assert inserted[..start] + inserted[start..end] == inserted[..end] && inserted[..end] + inserted[end..] == inserted;
  }

  lemma {:induction false} TakenAfterAll(rows: Rows, inserted: seq<Row>, row: Row)
    ensures Taken(InsertAll(rows, inserted), row) <==>
      Taken(rows, row) || exists other :: other in inserted && other.SameKey(row)
  {
    if inserted != [] {
      var before, last := inserted[..|inserted| - 1], inserted[|inserted| - 1];
      TakenAfterAll(rows, before, row);
      assert inserted == before + [last];
      var stored := InsertAll(rows, before);
      if taken :| taken in stored && taken.SameKey(last) {
        assert taken.SameKey(row) <==> last.SameKey(row);
      } else {
        assert InsertAll(rows, inserted) == stored + {last};
        assert last.SameKey(row) ==> Taken(stored + {last}, row);
        assert forall other :: other in stored && other.SameKey(row) ==> other in stored + {last};
      }
    }
  }

  lemma CloseKeepsTaken(rows: Rows, path: Path, to: Version, row: Row)
    ensures Taken(Execute(rows, Close(path, to)), row) <==> Taken(rows, row)
  {
    var close := Close(path, to);
    if taken :| taken in rows && taken.SameKey(row) {
      ExecuteMember(rows, close, taken);
      assert close.Effect(taken).value.SameKey(row);
    }
    if after :| after in Execute(rows, close) && after.SameKey(row) {
      var before := ExecuteOrigin(rows, close, after);
      assert before.SameKey(row);
    }
  }

  /** Closing rows takes no key and frees none. */
  lemma {:induction false} CloseKeepsKeys(rows: Rows, path: Path, to: Version, inserted: seq<Row>)
    ensures KeysFree(Execute(rows, Close(path, to)), inserted) <==> KeysFree(rows, inserted)
  {
    if inserted != [] {
      var before, last := inserted[..|inserted| - 1], inserted[|inserted| - 1];
      CloseKeepsKeys(rows, path, to, before);
      CloseKeepsTaken(rows, path, to, last);
      TakenAfterAll(rows, before, last);
      TakenAfterAll(Execute(rows, Close(path, to)), before, last);
      hide Taken, InsertAll, Execute;
    }
  }

  // ----- the transaction --------------------------------------------------------------------

  function WithRows(db: Database, t: Table, rows: Rows): Database {
    db.(tables := db.tables[t := rows])
  }

  lemma WithSameRows(db: Database, t: Table)
    ensures WithRows(db, t, db.tables[t]) == db
  {
    assert db.tables[t := db.tables[t]] == db.tables;
  }

  lemma InsertNothing(t: Table, rows: Rows)
    ensures InsertAll(rows, []) == rows && Insertable(t, rows, [])
  {}

  lemma NothingChanges(db: Database, log: Buffers, t: Table)
    ensures WithRows(db, t, InsertAll(db.tables[t], [])) == db && JoinedAt(log, t, []) == log
    ensures Insertable(t, db.tables[t], [])
  {
    InsertNothing(t, db.tables[t]);
    WithSameRows(db, t);
    JoinedAtNothing(log, t);
  }

  /** After so many of the rows: what the tables hold and what the log of inserted rows says. */
  ghost predicate InsertedSoFar(t: Table, before: Database, logged: Buffers, rows: seq<Row>, count: nat,
          db: Database, log: Buffers) {
    && count <= |rows| && Insertable(t, before.tables[t], rows[..count])
    && db == WithRows(before, t, InsertAll(before.tables[t], rows[..count]))
    && log == JoinedAt(logged, t, rows[..count])
  }

  lemma NothingInserted(t: Table, db: Database, log: Buffers, rows: seq<Row>)
    ensures InsertedSoFar(t, db, log, rows, 0, db, log)
  {
    NothingChanges(db, log, t);
    hide InsertAll, Insertable, WithRows, JoinedAt;
    assert rows[..0] == [];
  }

  lemma NextInsertion(t: Table, before: Database, logged: Buffers, rows: seq<Row>, start: nat, end: nat,
          db: Database, log: Buffers)
    requires start <= end <= |rows| && InsertedSoFar(t, before, logged, rows, start, db, log)
    ensures Insertable(t, db.tables[t], rows[start..end]) ==>
      InsertedSoFar(t, before, logged, rows, end, WithRows(db, t, InsertAll(db.tables[t], rows[start..end])),
        JoinedAt(log, t, rows[start..end]))
    ensures Insertable(t, before.tables[t], rows) ==> Insertable(t, db.tables[t], rows[start..end])
  {
    var stored := before.tables[t];
    InsertableSlice(t, stored, rows, start, end);
    InsertSlice(stored, rows, start, end);
    RowsTwice(before, t, InsertAll(stored, rows[..start]), InsertAll(stored, rows[..end]));
    JoinedAtTwice(logged, t, rows[..start], rows[start..end]);
    assert rows[..start] + rows[start..end] == rows[..end];
    hide InsertAll, Insertable, WithRows, JoinedAt;
  }

  lemma AllInserted(t: Table, before: Database, logged: Buffers, rows: seq<Row>, db: Database, log: Buffers)
    requires InsertedSoFar(t, before, logged, rows, |rows|, db, log)
    ensures Insertable(t, before.tables[t], rows) && log == JoinedAt(logged, t, rows)
    ensures db == WithRows(before, t, InsertAll(before.tables[t], rows))
  {
    hide InsertAll, Insertable, WithRows, JoinedAt;
    assert rows[..|rows|] == rows;
  }

  function Put(tables: Tables, t: Table, rows: Rows): Tables {
    tables[t := rows]
  }

  ghost predicate ExecutedUpTo(before: Tables, tables: Tables, statement: Statement, count: nat) {
    forall t: Table :: tables[t] == if Position(t) < count then Execute(before[t], statement) else before[t]
  }

  lemma ExecutedNone(tables: Tables, statement: Statement)
    ensures ExecutedUpTo(tables, tables, statement, 0)
  {
    hide Position, Execute;
  }

  lemma ExecutedNext(before: Tables, tables: Tables, statement: Statement, i: nat)
    requires i < TABLE_COUNT && ExecutedUpTo(before, tables, statement, i)
    ensures ExecutedUpTo(before, Put(tables, TableAt(i), Execute(tables[TableAt(i)], statement)), statement, i + 1)
  {
    ListedOnce(i);
    OnlyTableAt(TableAt(i));
    hide Position, Execute, TableAt;
  }

  lemma SameTables(first: Tables, second: Tables)
    requires forall t: Table :: first[t] == second[t]
    ensures first == second
  {}

  lemma ExecutedEntry(tables: Tables, statement: Statement, t: Table)
    ensures ExecuteAll(tables, statement)[t] == Execute(tables[t], statement)
  {}

  lemma ExecutedEverywhere(before: Tables, tables: Tables, statement: Statement)
    requires ExecutedUpTo(before, tables, statement, TABLE_COUNT)
    ensures tables == ExecuteAll(before, statement)
  {
    hide Execute, ExecuteAll, Position;
    forall t: Table
      ensures tables[t] == ExecuteAll(before, statement)[t]
    {
      EveryTableListed(t);
      ExecutedEntry(before, statement, t);
    }
    hide ExecutedUpTo;
    SameTables(tables, ExecuteAll(before, statement));
  }

  lemma RowsTwice(db: Database, t: Table, first: Rows, second: Rows)
    ensures WithRows(db, t, first).tables[t] == first
    ensures WithRows(WithRows(db, t, first), t, second) == WithRows(db, t, second)
    ensures WithRows(db, t, second) == db.(tables := db.tables[t := second])
  {
    assert db.tables[t := first][t := second] == db.tables[t := second];
  }

  class Transaction {
    const variableLimit: nat
    /** The database answers every statement of this transaction: no lock, no full disk, no cancellation. */
    const reliable: bool
    var db: Database
    /** For each INSERT statement run so far, the number of values it bound. */
    var bindings: seq<nat>
    /** Per table, every row an INSERT statement was given so far, in order. */
    ghost var log: Buffers

    ghost predicate WithinVariableLimit()
      reads this
    {
      forall i :: 0 <= i < |bindings| ==> bindings[i] <= variableLimit
    }

    predicate Dependable() {
      reliable && variableLimit >= MAXIMUM_COLUMNS
    }

    constructor (db: Database, variableLimit: nat, reliable: bool)
      ensures this.db == db && bindings == [] && log == EMPTY_BUFFERS && this.variableLimit == variableLimit
        && this.reliable == reliable
    {
      this.db, this.variableLimit, this.reliable, bindings := db, variableLimit, reliable, [];
      log := EMPTY_BUFFERS;
    }

    /** One INSERT statement with all its rows: it takes effect as a whole, or fails and has none. */
    method InsertStatement(t: Table, chunk: seq<Row>) returns (outcome: Outcome<StoreError>)
      requires WithinVariableLimit() && BoundValues(|chunk|, t) <= variableLimit
      modifies this
      ensures outcome.Pass? ==>
        && Insertable(t, old(db.tables[t]), chunk)
        && db == WithRows(old(db), t, InsertAll(old(db.tables[t]), chunk)) && log == JoinedAt(old(log), t, chunk)
        && bindings == old(bindings) + [BoundValues(|chunk|, t)]
      ensures reliable && Insertable(t, old(db.tables[t]), chunk) ==> outcome.Pass?
      ensures outcome.Fail? ==> unchanged(this)
      ensures WithinVariableLimit()
    {
      hide InsertAll, Insertable, WithRows, JoinedAt, BoundValues;
      var busy: bool := *;
      if busy && !reliable {
        return Fail(Unavailable);
      }
      if !Insertable(t, db.tables[t], chunk) {
        return Fail(KeyTaken);
      }
      db := WithRows(db, t, InsertAll(db.tables[t], chunk));
      bindings := bindings + [BoundValues(|chunk|, t)];
      log := JoinedAt(log, t, chunk);
      return Pass;
    }

    /** The chunks of insertRows, one INSERT statement each. */
    method RunInserts(t: Table, perStatement: nat, rows: seq<Row>) returns (outcome: Outcome<StoreError>)
      requires WithinVariableLimit() && perStatement >= 1 && BoundValues(perStatement, t) <= variableLimit
      modifies this
      ensures outcome.Pass? ==>
        && Insertable(t, old(db.tables[t]), rows)
        && db == WithRows(old(db), t, InsertAll(old(db.tables[t]), rows)) && log == JoinedAt(old(log), t, rows)
      ensures reliable && Insertable(t, old(db.tables[t]), rows) ==> outcome.Pass?
      ensures WithinVariableLimit()
    {
      var start := 0;
      NothingInserted(t, db, log, rows);
      hide InsertAll, Insertable, WithRows, JoinedAt, BoundValues, InsertedSoFar;
      while start < |rows|
        invariant 0 <= start && WithinVariableLimit()
        invariant InsertedSoFar(t, old(db), old(log), rows, Min(start, |rows|), db, log)
        decreases |rows| - start
      {
        var end := Min(start + perStatement, |rows|);
        NextInsertion(t, old(db), old(log), rows, start, end, db, log);
        FewerValues(end - start, perStatement, t);
        outcome := InsertStatement(t, rows[start..end]);
        if outcome.Fail? {
          return;
        }
        start := start + perStatement;
      }
      AllInserted(t, old(db), old(log), rows, db, log);
      outcome := Pass;
    }

    /** insertRows: all rows reach the table once and in order, in statements that bind at most
        variableLimit values; a row wider than the limit is an error, and so is a taken header key. */
    method InsertRows(t: Table, maximumRows: nat, rows: seq<Row>) returns (outcome: Outcome<StoreError>)
      requires WithinVariableLimit()
      modifies this
      ensures outcome.Pass? ==>
        && Insertable(t, old(db.tables[t]), rows)
        && db == WithRows(old(db), t, InsertAll(old(db.tables[t]), rows)) && log == JoinedAt(old(log), t, rows)
      ensures (rows == [] || (Dependable() && maximumRows >= 1)) && Insertable(t, old(db.tables[t]), rows) ==>
        outcome.Pass?
      ensures rows != [] && RowsPerStatement(t, variableLimit, maximumRows) < 1 ==> outcome.Fail?
      ensures WithinVariableLimit()
    {
      hide InsertAll, Insertable, WithRows, JoinedAt;
      if rows == [] {
        NothingChanges(db, log, t);
        return Pass;
      }
      var perStatement := RowsPerStatement(t, variableLimit, maximumRows);
      if Dependable() && maximumRows >= 1 {
        RowsFit(t, variableLimit, maximumRows);
      }
      if perStatement < 1 {
        return Fail(InvalidRequest);
      }
      WithinLimit(t, variableLimit, maximumRows);
      hide RowsPerStatement, BoundValues;
      outcome := RunInserts(t, perStatement, rows);
    }

    /** One UPDATE or DELETE per contribution table. */
    method ExecuteOnAll(statement: Statement)
      modifies `db
      ensures db == old(db).(tables := ExecuteAll(old(db.tables), statement))
    {
      hide Execute, ExecutedUpTo, ExecuteAll;
      var tables := db.tables;
      ExecutedNone(tables, statement);
      for i := 0 to TABLE_COUNT
        invariant ExecutedUpTo(db.tables, tables, statement, i)
        modifies {}
      {
        var t := TableAt(i);
        ExecutedNext(db.tables, tables, statement, i);
        tables := Put(tables, t, Execute(tables[t], statement));
      }
      ExecutedEverywhere(db.tables, tables, statement);
      db := db.(tables := tables);
    }
  }
}
