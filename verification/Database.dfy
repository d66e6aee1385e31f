/** The database object: each method does to its fields what the model says of its state. */
module Database {
  import opened Common
  import opened Values
  import opened MvccModel
  import opened RelationalModel
  import Mvcc

  class Database {
    var tables: Tables
    var inTransaction: bool
    var activeTxns: seq<Named>
    var sessionTxns: map<nat, Session>

    ghost function State(): Db
      reads this
    {
      Db(tables, inTransaction, activeTxns, sessionTxns)
    }

    constructor (tables: Tables)
      ensures State() == Db(tables, false, [], map[])
    {
      this.tables := tables;
      inTransaction := false;
      activeTxns := [];
      sessionTxns := map[];
    }

    // -------------------------------------------------------------- reading

    method ScanTable(name: string) returns (r: Outcome)
      ensures r == RunSelect(State(), name)
    {
      if name !in tables {
        return Err(UnknownTable);
      }
      var t, writes := tables[name], WritesFor(activeTxns, name);
      var rows, id := [], 0;
      while id < t.nextRowId
        invariant id <= t.nextRowId && ScanFrom(t, writes, 0) == rows + ScanFrom(t, writes, id)
      {
        var row := Live(t.tree, writes, id);
        if row.Some? {
          rows := rows + [row.value];
        }
        id := id + 1;
      }
      assert rows + [] == rows;
      r := Ok(Rows(rows));
    }

    method MatchingRowIds(name: string, filter: Filter) returns (r: Result<seq<nat>, DbError>)
      ensures r == Matching(State(), name, filter)
    {
      if name !in tables {
        return Err(UnknownTable);
      }
      var t, writes := tables[name], WritesFor(activeTxns, name);
      var found: seq<nat>, id := [], 0;
      while id < t.nextRowId
        invariant id <= t.nextRowId && MatchingFrom(t, writes, filter, 0, []) == MatchingFrom(t, writes, filter, id, found)
      {
        var row := Live(t.tree, writes, id);
        if row.Some? {
          match filter(row.value) {
            case Err(e) =>
              return Err(e);
            case Ok(keep) =>
              found := if keep then found + [id] else found;
          }
        }
        id := id + 1;
      }
      r := Ok(found);
    }

    /** Looks through all live rows for a key. */
    method FindKey(name: string, slots: seq<nat>, key: Row, exclude: Option<nat>) returns (found: bool)
      requires name in tables
      ensures found <==> HoldsKey(tables[name], WritesFor(activeTxns, name), slots, key, exclude)
    {
      var t, writes := tables[name], WritesFor(activeTxns, name);
      for id := 0 to t.nextRowId
        invariant forall i: nat :: i < id && exclude != Some(i) ==> !HasKey(Live(t.tree, writes, i), slots, key)
      {
        if exclude != Some(id) && HasKey(Live(t.tree, writes, id), slots, key) {
          return true;
        }
      }
      found := false;
    }

    // -------------------------------------------------------------- constraints

    method FindNull(schema: Schema, row: Row) returns (found: bool)
      ensures found <==> MissesValue(schema, row)
    {
      for i := 0 to |schema.notNull|
        invariant forall j :: 0 <= j < i ==> At(row, schema.notNull[j]) != Null
      {
        if At(row, schema.notNull[i]) == Null {
          return true;
        }
      }
      found := false;
    }

    method FindDuplicate(name: string, row: Row, exclude: Option<nat>) returns (found: bool)
      requires name in tables
      ensures found <==> Duplicates(tables[name], WritesFor(activeTxns, name), row, exclude)
    {
      var groups := tables[name].schema.unique;
      for g := 0 to |groups|
        invariant forall h :: 0 <= h < g && Null !in Proj(row, groups[h]) ==>
          !HoldsKey(tables[name], WritesFor(activeTxns, name), groups[h], Proj(row, groups[h]), exclude)
      {
        if Null !in Proj(row, groups[g]) {
          found := FindKey(name, groups[g], Proj(row, groups[g]), exclude);
          if found {
            return;
          }
        }
      }
      found := false;
    }

    method FindDangling(schema: Schema, row: Row) returns (found: bool)
      ensures found <==> Dangles(State(), schema, row)
    {
      for f := 0 to |schema.foreignKeys|
        invariant forall h :: 0 <= h < f && Null !in Proj(row, schema.foreignKeys[h].columns) ==>
          KeyPresent(State(), schema.foreignKeys[h].refTable, schema.foreignKeys[h].refColumns, Proj(row, schema.foreignKeys[h].columns))
      {
        var fk := schema.foreignKeys[f];
        if Null !in Proj(row, fk.columns) {
          if fk.refTable !in tables {
            return true;
          }
          var present := FindKey(fk.refTable, fk.refColumns, Proj(row, fk.columns), None);
          if !present {
            return true;
          }
        }
      }
      found := false;
    }

    method FindFailedCheck(checks: seq<Filter>, row: Row) returns (e: Option<DbError>)
      ensures e == FailedCheck(checks, row)
    {
      var i := 0;
      while i < |checks|
        invariant 0 <= i <= |checks| && FailedCheck(checks[i..], row) == FailedCheck(checks, row)
      {
        assert checks[i..][0] == checks[i] && checks[i..][1..] == checks[i + 1..];
        match checks[i](row) {
          case Err(err) =>
            return Some(err);
          case Ok(passes) =>
            if !passes {
              return Some(CheckViolation);
            }
        }
        i := i + 1;
      }
      e := None;
    }

    method EnforceConstraints(name: string, row: Row, exclude: Option<nat>) returns (e: Option<DbError>)
      requires name in tables
      ensures e == Enforce(State(), name, row, exclude)
    {
      var missing := FindNull(tables[name].schema, row);
      if missing {
        return Some(NotNullViolation);
      }
      var duplicate := FindDuplicate(name, row, exclude);
      if duplicate {
        return Some(UniqueViolation);
      }
      e := FindFailedCheck(tables[name].schema.checks, row);
      if e.Some? {
        return;
      }
      var dangling := FindDangling(tables[name].schema, row);
      e := if dangling then Some(ForeignKeyViolation) else None;
    }

    method FindReference(other: string, name: string, row: Row) returns (found: bool)
      requires other in tables
      ensures found <==> ReferencedFrom(State(), other, name, row)
    {
      var fks := tables[other].schema.foreignKeys;
      for f := 0 to |fks|
        invariant forall h :: 0 <= h < f && fks[h].refTable == name && Null !in Proj(row, fks[h].refColumns) ==>
          !HoldsKey(tables[other], WritesFor(activeTxns, other), fks[h].columns, Proj(row, fks[h].refColumns), None)
      {
        if fks[f].refTable == name && Null !in Proj(row, fks[f].refColumns) {
          found := FindKey(other, fks[f].columns, Proj(row, fks[f].refColumns), None);
          if found {
            return;
          }
        }
      }
      found := false;
    }

    method EnforceFkOnDelete(name: string, row: Row) returns (referenced: bool)
      ensures referenced <==> Referenced(State(), name, row)
    {
      var todo := tables.Keys;
      while todo != {}
        invariant todo <= tables.Keys
        invariant forall n :: n in tables.Keys - todo ==> !ReferencedFrom(State(), n, name, row)
        decreases todo
      {
        var n :| n in todo;
        referenced := FindReference(n, name, row);
        if referenced {
          return;
        }
        todo := todo - {n};
      }
      referenced := false;
    }

    // -------------------------------------------------------------- writing

    method OpenTxn(name: string)
      modifies this`activeTxns
      ensures State() == EnsureTxn(old(State()), name)
    {
      if FindTxn(activeTxns, name).None? && name in tables {
        activeTxns := activeTxns + [Named(name, MvccModel.Begin(tables[name].store))];
      }
    }

    method Write(name: string, id: nat, v: Option<Row>)
      requires name in tables
      modifies this`tables, this`activeTxns
      ensures State() == Put(old(State()), name, id, v)
    {
      if inTransaction {
        var i := FindTxn(activeTxns, name);
        if i.Some? {
          activeTxns := activeTxns[i.value := Named(name, MvccModel.Write(activeTxns[i.value].txn, id, v))];
        }
      } else {
        tables := tables[name := tables[name].(tree := Changed(tables[name].tree, id, v))];
      }
    }

    method CheckRows(name: string, rows: seq<Row>) returns (e: Option<DbError>)
      requires name in tables
      ensures e == CheckBatch(State(), name, rows, 0)
    {
      var i := 0;
      while i < |rows|
        invariant 0 <= i <= |rows| && CheckBatch(State(), name, rows, 0) == CheckBatch(State(), name, rows, i)
      {
        e := EnforceConstraints(name, rows[i], None);
        if e.Some? {
          return;
        }
        if DuplicatesInBatch(tables[name].schema, rows, i) {
          return Some(UniqueViolation);
        }
        i := i + 1;
      }
      e := None;
    }

    method InsertRow(name: string, row: Row, supplied: bool)
      requires name in tables
      modifies this`tables, this`activeTxns
      ensures State() == InsertOne(old(State()), name, row, supplied)
    {
      var id := tables[name].nextRowId;
      tables := tables[name := tables[name].(nextRowId := id + 1)];
      Write(name, id, Some(WithId(row, id, supplied)));
    }

    method InsertRows(name: string, rows: seq<Row>, supplied: bool)
      requires name in tables
      modifies this`tables, this`activeTxns
      ensures State() == InsertAll(old(State()), name, rows, supplied)
    {
      var i := 0;
      while i < |rows|
        invariant 0 <= i <= |rows| && name in tables
        invariant InsertAll(State(), name, rows[i..], supplied) == InsertAll(old(State()), name, rows, supplied)
      {
        assert rows[i..][0] == rows[i] && rows[i..][1..] == rows[i + 1..];
        InsertRow(name, rows[i], supplied);
        i := i + 1;
      }
    }

    method DoInsert(name: string, columns: seq<nat>, values: seq<Row>) returns (r: Outcome)
      modifies this`tables, this`activeTxns
      ensures (State(), r) == RunInsert(old(State()), name, columns, values)
    {
      if inTransaction {
        OpenTxn(name);
      }
      var plan := PlanRows(name, columns, values);
      if plan.Err? {
        return Err(plan.error);
      }
      InsertRows(name, plan.value.0, plan.value.1);
      r := Ok(Count(|plan.value.0|));
    }

    method PlanRows(name: string, columns: seq<nat>, values: seq<Row>) returns (r: Result<(seq<Row>, bool), DbError>)
      ensures r == PlanInsert(State(), name, columns, values)
    {
      if name !in tables {
        return Err(UnknownTable);
      }
      var width := tables[name].schema.width;
      var cols := TargetSlots(columns, width);
      if UnknownSlot(cols, width) {
        return Err(UnknownColumn);
      }
      if WrongArity(values, |cols|) {
        return Err(ArityMismatch);
      }
      var rows := Candidates(width, cols, values);
      var e := CheckRows(name, rows);
      r := match e case Some(err) => Err(err) case None => Ok((rows, 0 in cols));
    }

    method UpdateRow(name: string, id: nat, assignments: seq<Assignment>) returns (r: Result<(), DbError>)
      requires name in tables
      modifies this`tables, this`activeTxns
      ensures (State(), r) == UpdateOne(old(State()), name, id, assignments)
    {
      var row := Live(tables[name].tree, WritesFor(activeTxns, name), id);
      if row.None? {
        return Ok(());
      }
      var row' := Assigned(row.value, assignments);
      if row'.Err? {
        return Err(row'.error);
      }
      var e := EnforceConstraints(name, row'.value, Some(id));
      if e.Some? {
        return Err(e.value);
      }
      Write(name, id, Some(row'.value));
      r := Ok(());
    }

    method DoUpdate(name: string, filter: Filter, assignments: seq<Assignment>) returns (r: Outcome)
      modifies this`tables, this`activeTxns
      ensures (State(), r) == RunUpdate(old(State()), name, filter, assignments)
    {
      var ids := MatchingRowIds(name, filter);
      if ids.Err? {
        return Err(ids.error);
      }
      if inTransaction {
        OpenTxn(name);
      }
      ghost var start := State();
      var i := 0;
      while i < |ids.value|
        invariant 0 <= i <= |ids.value| && name in tables && inTransaction == start.inTxn && sessionTxns == start.sessions
        invariant UpdateAll(State(), name, ids.value[i..], assignments) == UpdateAll(start, name, ids.value, assignments)
      {
        assert ids.value[i..][0] == ids.value[i] && ids.value[i..][1..] == ids.value[i + 1..];
        var u := UpdateRow(name, ids.value[i], assignments);
        if u.Err? {
          return Err(u.error);
        }
        i := i + 1;
      }
      r := Ok(Count(|ids.value|));
    }

    method DeleteRow(name: string, id: nat) returns (r: Result<(), DbError>)
      requires name in tables
      modifies this`tables, this`activeTxns
      ensures (State(), r) == DeleteOne(old(State()), name, id)
    {
      var row := Live(tables[name].tree, WritesFor(activeTxns, name), id);
      if row.None? {
        return Ok(());
      }
      var referenced := EnforceFkOnDelete(name, row.value);
      if referenced {
        return Err(ForeignKeyViolation);
      }
      Write(name, id, None);
      r := Ok(());
    }

    method DoDelete(name: string, filter: Filter) returns (r: Outcome)
      modifies this`tables, this`activeTxns
      ensures (State(), r) == RunDelete(old(State()), name, filter)
    {
      var ids := MatchingRowIds(name, filter);
      if ids.Err? {
        return Err(ids.error);
      }
      if inTransaction {
        OpenTxn(name);
      }
      ghost var start := State();
      var i := 0;
      while i < |ids.value|
        invariant 0 <= i <= |ids.value| && name in tables && inTransaction == start.inTxn && sessionTxns == start.sessions
        invariant DeleteAll(State(), name, ids.value[i..]) == DeleteAll(start, name, ids.value)
      {
        assert ids.value[i..][0] == ids.value[i] && ids.value[i..][1..] == ids.value[i + 1..];
        var d := DeleteRow(name, ids.value[i]);
        if d.Err? {
          return Err(d.error);
        }
        i := i + 1;
      }
      r := Ok(Count(|ids.value|));
    }

    // -------------------------------------------------------------- transactions

    /** Hands one table's transaction to its version store. */
    method CommitTable(n: Named) returns (ok: bool)
      modifies this`tables
      ensures ok <==> !Refused(old(tables), n)
      ensures tables == if ok then Validated(old(tables), n) else old(tables)
    {
      if n.table !in tables {
        return true;
      }
      ok := Mvcc.Validate(tables[n.table].store, n.txn);
      if ok {
        tables := Validated(tables, n);
      }
    }

    method ValidateTables(txns: seq<Named>) returns (ok: bool)
      modifies this`tables
      ensures (tables, ok) == ValidateAll(old(tables), txns)
    {
      var i := 0;
      while i < |txns|
        invariant 0 <= i <= |txns| && ValidateAll(tables, txns[i..]) == ValidateAll(old(tables), txns)
      {
        assert txns[i..][0] == txns[i] && txns[i..][1..] == txns[i + 1..];
        ok := CommitTable(txns[i]);
        if !ok {
          return;
        }
        i := i + 1;
      }
      ok := true;
    }

    method ApplyTables(txns: seq<Named>)
      modifies this`tables
      ensures tables == WriteBackAll(old(tables), txns)
    {
      var i := 0;
      while i < |txns|
        invariant 0 <= i <= |txns| && WriteBackAll(tables, txns[i..]) == WriteBackAll(old(tables), txns)
      {
        assert txns[i..][0] == txns[i] && txns[i..][1..] == txns[i + 1..];
        tables := WrittenBack(tables, txns[i]);
        i := i + 1;
      }
    }

    method DoCommit() returns (r: Outcome)
      modifies this
      ensures (State(), r) == RunCommit(old(State()))
    {
      if !inTransaction {
        return Err(TransactionError);
      }
      var txns := activeTxns;
      activeTxns := [];
      inTransaction := false;
      var ok := ValidateTables(txns);
      if !ok {
        return Err(CommitConflict);
      }
      ApplyTables(txns);
      r := Ok(Done);
    }

    method Run(stmt: Statement) returns (r: Outcome)
      modifies this
      ensures (State(), r) == Execute(old(State()), stmt)
    {
      match stmt {
        case Begin =>
          if inTransaction {
            return Err(TransactionError);
          }
          inTransaction, activeTxns := true, [];
          r := Ok(Done);
        case Commit =>
          r := DoCommit();
        case Rollback =>
          if !inTransaction {
            return Err(TransactionError);
          }
          inTransaction, activeTxns := false, [];
          r := Ok(Done);
        case Insert(name, cols, values) =>
          r := DoInsert(name, cols, values);
        case Update(name, filter, assignments) =>
          r := DoUpdate(name, filter, assignments);
        case Delete(name, filter) =>
          r := DoDelete(name, filter);
        case Select(name) =>
          r := ScanTable(name);
      }
    }

    // -------------------------------------------------------------- sessions

    method CommitSession(sid: nat) returns (r: Outcome)
      modifies this
      ensures (State(), r) == SessionCommit(old(State()), sid)
    {
      if sid !in sessionTxns || !sessionTxns[sid].inTxn {
        return Err(TransactionError);
      }
      var txns := sessionTxns[sid].active;
      sessionTxns := sessionTxns[sid := Session(false, [])];
      var i := 0;
      while i < |txns|
        invariant 0 <= i <= |txns| && CommitEach(tables, txns[i..]) == CommitEach(old(tables), txns)
        invariant inTransaction == old(inTransaction) && activeTxns == old(activeTxns)
        invariant sessionTxns == old(sessionTxns)[sid := Session(false, [])]
      {
        assert txns[i..][0] == txns[i] && txns[i..][1..] == txns[i + 1..];
        var ok := CommitTable(txns[i]);
        if !ok {
          return Err(CommitConflict);
        }
        tables := WrittenBack(tables, txns[i]);
        i := i + 1;
      }
      r := Ok(Done);
    }

    /** A statement of a session in a transaction: its transactions stand in for the global ones while it runs. */
    method RunSwapped(sid: nat, stmt: Statement) returns (r: Outcome)
      requires sid in sessionTxns && sessionTxns[sid].inTxn && !stmt.Begin? && !stmt.Commit? && !stmt.Rollback?
      modifies this
      ensures (State(), r) == ExecuteInSession(old(State()), sid, stmt)
    {
      var prevActive, prevIn := activeTxns, inTransaction;
      activeTxns, inTransaction := sessionTxns[sid].active, true;
      r := Run(stmt);
      sessionTxns := sessionTxns[sid := Session(true, activeTxns)];
      activeTxns, inTransaction := prevActive, prevIn;
    }

    method RunInSession(sid: nat, stmt: Statement) returns (r: Outcome)
      modifies this
      ensures (State(), r) == ExecuteInSession(old(State()), sid, stmt)
    {
      var inTxn := sid in sessionTxns && sessionTxns[sid].inTxn;
      match stmt {
        case Begin =>
          if inTxn {
            return Err(TransactionError);
          }
          sessionTxns := sessionTxns[sid := Session(true, [])];
          r := Ok(Done);
        case Commit =>
          r := CommitSession(sid);
        case Rollback =>
          if !inTxn {
            return Err(TransactionError);
          }
          sessionTxns := sessionTxns[sid := Session(false, [])];
          r := Ok(Done);
        case _ =>
          if inTxn {
            r := RunSwapped(sid, stmt);
          } else {
            r := Run(stmt);
          }
      }
    }
  }
}
