/** In every run each transaction's buffered rows satisfy NOT NULL and CHECK and share no key with one another. */
module BufferProofs {
  import opened Common
  import opened Values
  import opened RelationalModel
  import opened SessionProofs
  import opened SessionRuns
  import opened Integrity
  import opened MergeProofs
  import opened ConstraintProofs
  import opened BatchProofs
  import DmlEffects
  import MvccModel

  // ---------------------------------------------------------------- one write

  /** The row shares no key with a row buffered under another id. */
  ghost predicate ApartFrom(schema: Schema, writes: Writes, id: nat, row: Row) {
    forall g, other :: 0 <= g < |schema.unique| && Stores(writes, other) && other != id ==>
      Distinct(row, writes[other].value, schema.unique[g])
  }

  /** What must hold of a row for it to be stored. */
  ghost predicate MayStore(schema: Schema, writes: Writes, id: nat, v: Option<Row>) {
    v.Some? ==> Acceptable(schema, v.value) && ApartFrom(schema, writes, id, v.value)
  }

  lemma BufferPut(schema: Schema, writes: Writes, id: nat, v: Option<Row>)
    requires BufferOK(schema, writes) && MayStore(schema, writes, id, v)
    ensures BufferOK(schema, writes[id := v])
  {
    var after := writes[id := v];
    forall g, x, y | 0 <= g < |schema.unique| && Stores(after, x) && Stores(after, y) && x != y
      ensures Distinct(after[x].value, after[y].value, schema.unique[g])
    {
      if y == id {
        assert Stores(writes, x);
        DistinctEitherWay(v.value, writes[x].value, schema.unique[g]);
      } else {
        assert Stores(writes, y);
        assert x != id ==> Stores(writes, x);
      }
    }
  }

  /** Every stored row is acceptable, and the buffered rows of the current context are as they should be. */
  ghost predicate Sound(tables: Tables, active: seq<Named>) {
    (forall n :: n in tables ==> RowsOK(tables[n])) && AllBuffersOK(tables, active)
  }

  lemma PutSound(db: Db, name: string, id: nat, v: Option<Row>)
    requires Sound(db.tables, db.active) && Ready(db, name)
    requires MayStore(db.tables[name].schema, WritesFor(db.active, name), id, v)
    ensures Sound(Put(db, name, id, v).tables, Put(db, name, id, v).active)
    ensures db.inTxn ==> WritesFor(Put(db, name, id, v).active, name) == WritesFor(db.active, name)[id := v]
    ensures !db.inTxn ==> Put(db, name, id, v).active == db.active
  {
    var db' := Put(db, name, id, v);
    if db.inTxn {
      var i := FindTxn(db.active, name).value;
      var n := Named(name, MvccModel.Write(db.active[i].txn, id, v));
      BufferPut(db.tables[name].schema, WritesFor(db.active, name), id, v);
      forall m ensures WritesFor(db'.active, m) == if m == name then n.txn.writes else WritesFor(db.active, m) {
        DmlEffects.WritesAfterPut(db.active, i, n, m);
      }
    }
  }

  /** A row that passes the checks may be stored. */
  lemma CheckedMayStore(db: Db, name: string, row: Row, exclude: Option<nat>, id: nat)
    requires ActiveOK(db.tables, db.active) && name in db.tables && Enforce(db, name, row, exclude).None?
    requires exclude == Some(id) || exclude.None?
    ensures MayStore(db.tables[name].schema, WritesFor(db.active, name), id, Some(row))
  {
    var t, writes := db.tables[name], WritesFor(db.active, name);
    WritesKnown(db.tables, db.active, name);
    forall g, other | 0 <= g < |t.schema.unique| && Stores(writes, other) && other != id
      ensures Distinct(row, writes[other].value, t.schema.unique[g])
    {
      assert Live(t.tree, writes, other) == writes[other];
      if Null !in Proj(row, t.schema.unique[g]) {
        assert !HoldsKey(t, writes, t.schema.unique[g], Proj(row, t.schema.unique[g]), exclude);
        assert !HasKey(Live(t.tree, writes, other), t.schema.unique[g], Proj(row, t.schema.unique[g]));
      }
    }
  }

  // ---------------------------------------------------------------- UPDATE and DELETE

  lemma UpdateOneSound(db: Db, name: string, id: nat, assignments: seq<Assignment>)
    requires Sound(db.tables, db.active) && Ready(db, name)
    ensures var db' := UpdateOne(db, name, id, assignments).0; Sound(db'.tables, db'.active) && Ready(db', name)
  {
    UpdateOneConfined(db, name, id, assignments);
    var row := LiveRow(db, name, id);
    if row.Some? {
      var row' := Assigned(row.value, assignments);
      if row'.Ok? && Enforce(db, name, row'.value, Some(id)).None? {
        CheckedMayStore(db, name, row'.value, Some(id), id);
        PutSound(db, name, id, Some(row'.value));
      }
    }
  }

  lemma {:induction false} UpdateAllSound(db: Db, name: string, ids: seq<nat>, assignments: seq<Assignment>)
    requires Sound(db.tables, db.active) && Ready(db, name)
    ensures var db' := UpdateAll(db, name, ids, assignments).0; Sound(db'.tables, db'.active)
    decreases |ids|
  {
    if ids != [] {
      UpdateOneSound(db, name, ids[0], assignments);
      var (mid, r) := UpdateOne(db, name, ids[0], assignments);
      if r.Ok? {
        UpdateAllSound(mid, name, ids[1..], assignments);
      }
    }
  }

  lemma DeleteOneSound(db: Db, name: string, id: nat)
    requires Sound(db.tables, db.active) && Ready(db, name)
    ensures var db' := DeleteOne(db, name, id).0; Sound(db'.tables, db'.active) && Ready(db', name)
  {
    DeleteOneConfined(db, name, id);
    if LiveRow(db, name, id).Some? {
      PutSound(db, name, id, None);
    }
  }

  lemma {:induction false} DeleteAllSound(db: Db, name: string, ids: seq<nat>)
    requires Sound(db.tables, db.active) && Ready(db, name)
    ensures var db' := DeleteAll(db, name, ids).0; Sound(db'.tables, db'.active)
    decreases |ids|
  {
    if ids != [] {
      DeleteOneSound(db, name, ids[0]);
      var (mid, r) := DeleteOne(db, name, ids[0]);
      if r.Ok? {
        DeleteAllSound(mid, name, ids[1..]);
      }
    }
  }

  // ---------------------------------------------------------------- INSERT

  /** The rows may be stored under the ids from `next` on, one after the other. */
  ghost predicate BatchMayStore(schema: Schema, writes: Writes, next: nat, news: seq<Row>) {
    && PairwiseDistinct(schema.unique, news)
    && forall i :: 0 <= i < |news| ==> MayStore(schema, writes, next + i, Some(news[i]))
  }

  lemma BatchRest(schema: Schema, writes: Writes, next: nat, news: seq<Row>)
    requires BatchMayStore(schema, writes, next, news) && news != []
    ensures BatchMayStore(schema, writes[next := Some(news[0])], next + 1, news[1..])
    ensures BatchMayStore(schema, writes, next + 1, news[1..])
  {
    var rest, after := news[1..], writes[next := Some(news[0])];
    forall g, i, j | 0 <= g < |schema.unique| && 0 <= i < |rest| && 0 <= j < |rest| && i != j
      ensures Distinct(rest[i], rest[j], schema.unique[g])
    {
      assert Distinct(news[i + 1], news[j + 1], schema.unique[g]);
    }
    forall i | 0 <= i < |rest|
      ensures MayStore(schema, writes, next + 1 + i, Some(rest[i])) && MayStore(schema, after, next + 1 + i, Some(rest[i]))
    {
      assert MayStore(schema, writes, next + (i + 1), Some(news[i + 1]));
      forall g, other | 0 <= g < |schema.unique| && Stores(after, other) && other != next + 1 + i
        ensures Distinct(rest[i], after[other].value, schema.unique[g])
      {
        if other == next {
          assert Distinct(news[i + 1], news[0], schema.unique[g]);
        } else {
          assert Stores(writes, other);
        }
      }
    }
  }

  lemma InsertOneSound(db: Db, name: string, row: Row, supplied: bool)
    requires Sound(db.tables, db.active) && Ready(db, name)
    requires var next := db.tables[name].nextRowId;
      MayStore(db.tables[name].schema, WritesFor(db.active, name), next, Some(WithId(row, next, supplied)))
    ensures var db', next := InsertOne(db, name, row, supplied), db.tables[name].nextRowId;
      && Sound(db'.tables, db'.active) && Ready(db', name)
      && db'.tables[name].nextRowId == next + 1 && db'.tables[name].schema == db.tables[name].schema
      && WritesFor(db'.active, name) ==
         if db.inTxn then WritesFor(db.active, name)[next := Some(WithId(row, next, supplied))] else WritesFor(db.active, name)
  {
    var next := db.tables[name].nextRowId;
    IdTakenConfined(db, name);
    InsertOneConfined(db, name, row, supplied);
    PutSound(IdTaken(db, name), name, next, Some(WithId(row, next, supplied)));
  }

  lemma {:induction false} InsertAllSound(db: Db, name: string, rows: seq<Row>, supplied: bool, news: seq<Row>)
    requires Sound(db.tables, db.active) && Ready(db, name) && news == Numbered(db.tables[name].nextRowId, rows, supplied)
    requires BatchMayStore(db.tables[name].schema, WritesFor(db.active, name), db.tables[name].nextRowId, news)
    ensures var db' := InsertAll(db, name, rows, supplied); Sound(db'.tables, db'.active)
    decreases |rows|
  {
    if rows != [] {
      var t, writes, mid := db.tables[name], WritesFor(db.active, name), InsertOne(db, name, rows[0], supplied);
      FirstMayStore(t.schema, writes, t.nextRowId, news);
      InsertOneSound(db, name, rows[0], supplied);
      BatchRest(t.schema, writes, t.nextRowId, news);
      assert news[1..] == Numbered(t.nextRowId + 1, rows[1..], supplied);
      InsertAllSound(mid, name, rows[1..], supplied, news[1..]);
    }
  }

  lemma FirstMayStore(schema: Schema, writes: Writes, next: nat, news: seq<Row>)
    requires BatchMayStore(schema, writes, next, news) && news != []
    ensures MayStore(schema, writes, next, Some(news[0]))
  {
    assert MayStore(schema, writes, next + 0, Some(news[0]));
  }

  /** A checked row may still be stored once its id is filled in. */
  lemma FilledMayStore(schema: Schema, writes: Writes, row: Row, id: nat, supplied: bool)
    requires MayStore(schema, writes, id, Some(row)) && (supplied || IdUnseen(schema))
    ensures MayStore(schema, writes, id, Some(WithId(row, id, supplied)))
  {
    FilledValues(schema, row, id, supplied);
    if !supplied {
      ChecksIgnoreId(schema.checks, row, id);
    }
    forall g, other | 0 <= g < |schema.unique| && Stores(writes, other) && other != id
      ensures Distinct(WithId(row, id, supplied), writes[other].value, schema.unique[g])
    {
      ProjSparesId(row, id, supplied, schema.unique[g]);
      SameKeyDistinct(row, WithId(row, id, supplied), writes[other].value, schema.unique[g]);
    }
  }

  lemma PlannedRowMayStore(db: Db, name: string, columns: seq<nat>, values: seq<Row>, rows: seq<Row>, supplied: bool, i: nat, id: nat)
    requires ActiveOK(db.tables, db.active) && name in db.tables && IdSafe(db.tables[name].schema)
    requires PlanInsert(db, name, columns, values) == Ok((rows, supplied)) && i < |rows|
    ensures MayStore(db.tables[name].schema, WritesFor(db.active, name), id, Some(WithId(rows[i], id, supplied)))
  {
    DmlEffects.PlannedRows(db, name, columns, values);
    CheckedBatch(db, name, rows, 0);
    CheckedMayStore(db, name, rows[i], None, id);
    if !supplied {
      LeftOutIsUnseen(db, name, columns, values, i);
    }
    FilledMayStore(db.tables[name].schema, WritesFor(db.active, name), rows[i], id, supplied);
  }

  lemma PlannedMayStore(db: Db, name: string, columns: seq<nat>, values: seq<Row>, rows: seq<Row>, supplied: bool)
    requires ActiveOK(db.tables, db.active) && name in db.tables && IdSafe(db.tables[name].schema)
    requires PlanInsert(db, name, columns, values) == Ok((rows, supplied))
    ensures var t := db.tables[name];
      BatchMayStore(t.schema, WritesFor(db.active, name), t.nextRowId, Numbered(t.nextRowId, rows, supplied))
  {
    var t := db.tables[name];
    BatchApart(db, name, rows);
    NumberedDistinct(t.schema.unique, t.nextRowId, rows, supplied);
    forall i | 0 <= i < |rows|
      ensures MayStore(t.schema, WritesFor(db.active, name), t.nextRowId + i, Some(WithId(rows[i], t.nextRowId + i, supplied)))
    {
      PlannedRowMayStore(db, name, columns, values, rows, supplied, i, t.nextRowId + i);
    }
    NumberedMayStore(t.schema, WritesFor(db.active, name), t.nextRowId, rows, supplied);
  }

  lemma NumberedMayStore(schema: Schema, writes: Writes, next: nat, rows: seq<Row>, supplied: bool)
    requires PairwiseDistinct(schema.unique, Numbered(next, rows, supplied))
    requires forall i :: 0 <= i < |rows| ==> MayStore(schema, writes, next + i, Some(WithId(rows[i], next + i, supplied)))
    ensures BatchMayStore(schema, writes, next, Numbered(next, rows, supplied))
  {
  }

  // ---------------------------------------------------------------- statements

  lemma OpenedSound(db: Db, name: string)
    requires Sound(db.tables, db.active) && ActiveOK(db.tables, db.active) && TreesOK(db)
    ensures var mid := if db.inTxn then EnsureTxn(db, name) else db;
      Sound(mid.tables, mid.active) && mid.tables == db.tables && (name in mid.tables ==> Ready(mid, name)) && ActiveOK(mid.tables, mid.active)
  {
    OpenedConfined(db, name);
    if db.inTxn && FindTxn(db.active, name).None? && name in db.tables {
      var n := Named(name, MvccModel.Begin(db.tables[name].store));
      forall m ensures WritesFor(db.active + [n], m) == WritesFor(db.active, m) {
        DmlEffects.WritesAfterOpen(db.active, n, m);
      }
    }
  }

  lemma InsertSound(db: Db, name: string, columns: seq<nat>, values: seq<Row>)
    requires Sound(db.tables, db.active) && ActiveOK(db.tables, db.active) && TreesOK(db) && AllIdSafe(db.tables)
    ensures var db' := RunInsert(db, name, columns, values).0; Sound(db'.tables, db'.active)
  {
    OpenedSound(db, name);
    var mid := if db.inTxn then EnsureTxn(db, name) else db;
    var plan := PlanInsert(mid, name, columns, values);
    if plan.Ok? {
      PlannedMayStore(mid, name, columns, values, plan.value.0, plan.value.1);
      InsertAllSound(mid, name, plan.value.0, plan.value.1, Numbered(mid.tables[name].nextRowId, plan.value.0, plan.value.1));
    }
  }

  lemma UpdateSound(db: Db, name: string, filter: Filter, assignments: seq<Assignment>)
    requires Sound(db.tables, db.active) && ActiveOK(db.tables, db.active) && TreesOK(db)
    ensures var db' := RunUpdate(db, name, filter, assignments).0; Sound(db'.tables, db'.active)
  {
    OpenedSound(db, name);
    var ids := Matching(db, name, filter);
    if ids.Ok? {
      UpdateAllSound(if db.inTxn then EnsureTxn(db, name) else db, name, ids.value, assignments);
    }
  }

  lemma DeleteSound(db: Db, name: string, filter: Filter)
    requires Sound(db.tables, db.active) && ActiveOK(db.tables, db.active) && TreesOK(db)
    ensures var db' := RunDelete(db, name, filter).0; Sound(db'.tables, db'.active)
  {
    OpenedSound(db, name);
    var ids := Matching(db, name, filter);
    if ids.Ok? {
      DeleteAllSound(if db.inTxn then EnsureTxn(db, name) else db, name, ids.value);
    }
  }

  /** No statement, failed partway or not, stores a row that breaks NOT NULL, CHECK or a key of its own transaction. */
  lemma StatementSound(db: Db, stmt: Statement)
    requires Sound(db.tables, db.active) && ActiveOK(db.tables, db.active) && TreesOK(db) && AllIdSafe(db.tables) && IsQuery(stmt)
    ensures var db' := Execute(db, stmt).0; Sound(db'.tables, db'.active)
  {
    match stmt
    case Insert(name, cols, values) => InsertSound(db, name, cols, values);
    case Update(name, filter, assignments) => UpdateSound(db, name, filter, assignments);
    case Delete(name, filter) => DeleteSound(db, name, filter);
    case Select(_) =>
  }
}
