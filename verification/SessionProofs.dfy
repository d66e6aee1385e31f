/** Sessions are isolated: what transactions buffer stays theirs until they commit. */
module SessionProofs {
  import opened Common
  import opened Values
  import opened RelationalModel

  // ---------------------------------------------------------------- what every reachable state keeps

  /** A table's transaction, as buffered: it belongs to a table and names only rows that table has handed out. */
  ghost predicate NamedOK(tables: Tables, n: Named) {
    && n.table in tables && n.txn.readSet == [] && n.txn.snapshot <= tables[n.table].store.clock
    && forall id :: id in n.txn.writes ==> id < tables[n.table].nextRowId
  }

  ghost predicate ActiveOK(tables: Tables, active: seq<Named>) {
    && (forall i :: 0 <= i < |active| ==> NamedOK(tables, active[i]))
    && forall i, j :: 0 <= i < j < |active| ==> active[i].table != active[j].table
  }

  ghost predicate TreeOK(t: Table) {
    forall id :: id in t.tree ==> id < t.nextRowId
  }

  ghost predicate DbOK(db: Db) {
    && (forall n :: n in db.tables ==> TreeOK(db.tables[n]))
    && ActiveOK(db.tables, db.active)
    && (forall sid :: sid in db.sessions ==> ActiveOK(db.tables, db.sessions[sid].active))
    && (!db.inTxn ==> db.active == [])
  }

  // ---------------------------------------------------------------- statements

  /** Tables after a statement: only id counters and trees move, and inside a transaction not even the trees. */
  ghost predicate TablesKept(a: Tables, b: Tables, inTxn: bool) {
    && a.Keys == b.Keys
    && forall n :: n in a ==>
      && b[n].schema == a[n].schema && b[n].store == a[n].store && a[n].nextRowId <= b[n].nextRowId
      && (TreeOK(a[n]) ==> TreeOK(b[n])) && (inTxn ==> b[n].tree == a[n].tree)
  }

  /** Nothing was accepted on a table since the transaction on it began. */
  ghost predicate AllCurrent(tables: Tables, active: seq<Named>) {
    forall i :: 0 <= i < |active| && active[i].table in tables ==> active[i].txn.snapshot == tables[active[i].table].store.clock
  }

  /** A statement writes into its own transaction if there is one, else into the trees, and nowhere else. */
  ghost predicate Confined(db: Db, db': Db) {
    && TablesKept(db.tables, db'.tables, db.inTxn) && db'.inTxn == db.inTxn && db'.sessions == db.sessions
    && ActiveOK(db'.tables, db'.active) && (!db.inTxn ==> db'.active == db.active)
    && (AllCurrent(db.tables, db.active) ==> AllCurrent(db'.tables, db'.active))
  }

  lemma KeptActive(a: Tables, b: Tables, inTxn: bool, active: seq<Named>)
    requires TablesKept(a, b, inTxn) && ActiveOK(a, active)
    ensures ActiveOK(b, active)
  {
    forall i | 0 <= i < |active| ensures NamedOK(b, active[i]) {
      assert NamedOK(a, active[i]);
    }
  }

  lemma ConfinedTransitive(a: Db, b: Db, c: Db)
    requires Confined(a, b) && Confined(b, c)
    ensures Confined(a, c)
  {
  }

  /** Ready to write to the table: inside a transaction there is one on it. */
  ghost predicate Ready(db: Db, name: string) {
    && ActiveOK(db.tables, db.active) && name in db.tables && TreeOK(db.tables[name])
    && (db.inTxn ==> FindTxn(db.active, name).Some?)
  }

  lemma EnsureConfined(db: Db, name: string)
    requires ActiveOK(db.tables, db.active) && db.inTxn
    ensures Confined(db, EnsureTxn(db, name))
    ensures name in db.tables ==> FindTxn(EnsureTxn(db, name).active, name).Some?
  {
    var db' := EnsureTxn(db, name);
    if FindTxn(db.active, name).None? && name in db.tables {
      assert db'.active[|db.active|].table == name;
    }
  }

  lemma PutConfined(db: Db, name: string, id: nat, v: Option<Row>)
    requires Ready(db, name) && id < db.tables[name].nextRowId
    ensures Confined(db, Put(db, name, id, v)) && Ready(Put(db, name, id, v), name)
  {
    var db' := Put(db, name, id, v);
    if db.inTxn {
      var i := FindTxn(db.active, name).value;
      assert NamedOK(db.tables, db.active[i]);
      assert db'.active[i].table == name;
      assert forall j :: 0 <= j < |db.active| && j != i ==> db'.active[j] == db.active[j];
    } else {
      KeptActive(db.tables, db'.tables, false, db.active);
    }
  }

  ghost function IdTaken(db: Db, name: string): Db
    requires name in db.tables
  {
    SetTable(db, name, db.tables[name].(nextRowId := db.tables[name].nextRowId + 1))
  }

  lemma IdTakenConfined(db: Db, name: string)
    requires Ready(db, name)
    ensures Confined(db, IdTaken(db, name)) && Ready(IdTaken(db, name), name)
  {
    KeptActive(db.tables, IdTaken(db, name).tables, db.inTxn, db.active);
  }

  lemma InsertOneConfined(db: Db, name: string, row: Row, supplied: bool)
    requires Ready(db, name)
    ensures Confined(db, InsertOne(db, name, row, supplied)) && Ready(InsertOne(db, name, row, supplied), name)
  {
    var id, mid := db.tables[name].nextRowId, IdTaken(db, name);
    IdTakenConfined(db, name);
    PutConfined(mid, name, id, Some(WithId(row, id, supplied)));
    ConfinedTransitive(db, mid, Put(mid, name, id, Some(WithId(row, id, supplied))));
  }

  lemma ConfinedSelf(db: Db)
    requires ActiveOK(db.tables, db.active)
    ensures Confined(db, db)
  {
  }

  lemma {:induction false} InsertAllConfined(db: Db, name: string, rows: seq<Row>, supplied: bool)
    requires Ready(db, name)
    ensures Confined(db, InsertAll(db, name, rows, supplied))
    decreases |rows|
  {
    ConfinedSelf(db);
    if rows != [] {
      InsertOneConfined(db, name, rows[0], supplied);
      var mid := InsertOne(db, name, rows[0], supplied);
      InsertAllConfined(mid, name, rows[1..], supplied);
      ConfinedTransitive(db, mid, InsertAll(mid, name, rows[1..], supplied));
    }
  }

  /** A row that is live was handed out. */
  lemma LiveIsKnown(db: Db, name: string, id: nat)
    requires ActiveOK(db.tables, db.active) && name in db.tables && TreeOK(db.tables[name]) && LiveRow(db, name, id).Some?
    ensures id < db.tables[name].nextRowId
  {
    match FindTxn(db.active, name)
    case Some(i) => assert NamedOK(db.tables, db.active[i]);
    case None =>
  }

  lemma UpdateOneConfined(db: Db, name: string, id: nat, assignments: seq<Assignment>)
    requires Ready(db, name)
    ensures Confined(db, UpdateOne(db, name, id, assignments).0) && Ready(UpdateOne(db, name, id, assignments).0, name)
  {
    ConfinedSelf(db);
    var row := LiveRow(db, name, id);
    if row.Some? {
      LiveIsKnown(db, name, id);
      var row' := Assigned(row.value, assignments);
      if row'.Ok? {
        PutConfined(db, name, id, Some(row'.value));
      }
    }
  }

  lemma {:induction false} UpdateAllConfined(db: Db, name: string, ids: seq<nat>, assignments: seq<Assignment>)
    requires Ready(db, name)
    ensures Confined(db, UpdateAll(db, name, ids, assignments).0)
    decreases |ids|
  {
    ConfinedSelf(db);
    if ids != [] {
      UpdateOneConfined(db, name, ids[0], assignments);
      var (mid, r) := UpdateOne(db, name, ids[0], assignments);
      if r.Ok? {
        UpdateAllConfined(mid, name, ids[1..], assignments);
        ConfinedTransitive(db, mid, UpdateAll(mid, name, ids[1..], assignments).0);
      }
    }
  }

  lemma DeleteOneConfined(db: Db, name: string, id: nat)
    requires Ready(db, name)
    ensures Confined(db, DeleteOne(db, name, id).0) && Ready(DeleteOne(db, name, id).0, name)
  {
    ConfinedSelf(db);
    if LiveRow(db, name, id).Some? {
      LiveIsKnown(db, name, id);
      PutConfined(db, name, id, None);
    }
  }

  lemma {:induction false} DeleteAllConfined(db: Db, name: string, ids: seq<nat>)
    requires Ready(db, name)
    ensures Confined(db, DeleteAll(db, name, ids).0)
    decreases |ids|
  {
    ConfinedSelf(db);
    if ids != [] {
      DeleteOneConfined(db, name, ids[0]);
      var (mid, r) := DeleteOne(db, name, ids[0]);
      if r.Ok? {
        DeleteAllConfined(mid, name, ids[1..]);
        ConfinedTransitive(db, mid, DeleteAll(mid, name, ids[1..]).0);
      }
    }
  }

  ghost predicate TreesOK(db: Db) {
    forall n :: n in db.tables ==> TreeOK(db.tables[n])
  }

  /** The state a statement writes in: with its transaction on the table opened if it needs one. */
  lemma OpenedConfined(db: Db, name: string)
    requires ActiveOK(db.tables, db.active) && TreesOK(db)
    ensures var mid := if db.inTxn then EnsureTxn(db, name) else db;
      Confined(db, mid) && (name in mid.tables ==> Ready(mid, name))
  {
    ConfinedSelf(db);
    if db.inTxn {
      EnsureConfined(db, name);
    }
  }

  lemma InsertConfined(db: Db, name: string, cols: seq<nat>, values: seq<Row>)
    requires ActiveOK(db.tables, db.active) && TreesOK(db)
    ensures Confined(db, RunInsert(db, name, cols, values).0)
  {
    OpenedConfined(db, name);
    var mid := if db.inTxn then EnsureTxn(db, name) else db;
    var plan := PlanInsert(mid, name, cols, values);
    if plan.Ok? {
      InsertAllConfined(mid, name, plan.value.0, plan.value.1);
      ConfinedTransitive(db, mid, InsertAll(mid, name, plan.value.0, plan.value.1));
    }
  }

  lemma UpdateConfined(db: Db, name: string, filter: Filter, assignments: seq<Assignment>)
    requires ActiveOK(db.tables, db.active) && TreesOK(db)
    ensures Confined(db, RunUpdate(db, name, filter, assignments).0)
  {
    OpenedConfined(db, name);
    ConfinedSelf(db);
    var m := Matching(db, name, filter);
    if m.Ok? {
      var mid := if db.inTxn then EnsureTxn(db, name) else db;
      UpdateAllConfined(mid, name, m.value, assignments);
      ConfinedTransitive(db, mid, UpdateAll(mid, name, m.value, assignments).0);
    }
  }

  lemma DeleteConfined(db: Db, name: string, filter: Filter)
    requires ActiveOK(db.tables, db.active) && TreesOK(db)
    ensures Confined(db, RunDelete(db, name, filter).0)
  {
    OpenedConfined(db, name);
    ConfinedSelf(db);
    var m := Matching(db, name, filter);
    if m.Ok? {
      var mid := if db.inTxn then EnsureTxn(db, name) else db;
      DeleteAllConfined(mid, name, m.value);
      ConfinedTransitive(db, mid, DeleteAll(mid, name, m.value).0);
    }
  }

  ghost predicate IsQuery(stmt: Statement) {
    stmt.Insert? || stmt.Update? || stmt.Delete? || stmt.Select?
  }

  /** No statement, failed or not, reaches a version store, another context's writes or a session's state. */
  lemma QueryConfined(db: Db, stmt: Statement)
    requires ActiveOK(db.tables, db.active) && TreesOK(db) && IsQuery(stmt)
    ensures Confined(db, Execute(db, stmt).0)
  {
    match stmt
    case Insert(name, cols, values) => InsertConfined(db, name, cols, values);
    case Update(name, filter, assignments) => UpdateConfined(db, name, filter, assignments);
    case Delete(name, filter) => DeleteConfined(db, name, filter);
    case Select(_) => ConfinedSelf(db);
  }

  // ---------------------------------------------------------------- scans

  lemma {:induction false} ScanOfGrown(t: Table, u: Table, writes: Writes, id: nat)
    requires TreeOK(t) && u.tree == t.tree && t.nextRowId <= u.nextRowId && id <= u.nextRowId
    requires forall i :: i in writes ==> i < t.nextRowId
    ensures ScanFrom(u, writes, id) == if id <= t.nextRowId then ScanFrom(t, writes, id) else []
    decreases u.nextRowId - id
  {
    if id < u.nextRowId {
      ScanOfGrown(t, u, writes, id + 1);
    }
  }
}
