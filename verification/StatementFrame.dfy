/** A statement depends on and changes only the tables it names, refers to, or is referred to from. */
module StatementFrame {
  import opened Common
  import opened Values
  import opened RelationalModel
  import opened SessionProofs
  import opened Integrity

  // ---------------------------------------------------------------- the tables that matter

  /** Table `n` has a foreign key to table `name`. */
  ghost predicate RefersTo(tables: Tables, n: string, name: string) {
    n in tables && exists f :: 0 <= f < |tables[n].schema.foreignKeys| && tables[n].schema.foreignKeys[f].refTable == name
  }

  /** `s` has table `name`, those it refers to and those that refer to it. */
  ghost predicate Encloses(tables: Tables, s: set<string>, name: string) {
    name in s && forall n :: RefersTo(tables, name, n) || RefersTo(tables, n, name) ==> n in s
  }

  /** The same schemas everywhere, and the same tables within `s`. */
  ghost predicate AgreeOn(a: Tables, b: Tables, s: set<string>) {
    a.Keys == b.Keys && forall n :: n in a ==> a[n].schema == b[n].schema && (n in s ==> a[n] == b[n])
  }

  /** Outside `s` nothing changed. */
  ghost predicate ChangedWithin(a: Tables, b: Tables, s: set<string>) {
    a.Keys == b.Keys && forall n :: n in a ==> a[n].schema == b[n].schema && (n !in s ==> a[n] == b[n])
  }

  /** Two databases outside any transaction that a statement on `name` cannot tell apart. */
  ghost predicate Alike(a: Db, b: Db, s: set<string>, name: string) {
    Auto(a) && Auto(b) && AgreeOn(a.tables, b.tables, s) && Encloses(a.tables, s, name)
  }

  /** They went on alike, each changing only tables of `s`. */
  ghost predicate StillAlike(a: Db, b: Db, a': Db, b': Db, s: set<string>) {
    && Auto(a') && Auto(b') && AgreeOn(a'.tables, b'.tables, s)
    && ChangedWithin(a.tables, a'.tables, s) && ChangedWithin(b.tables, b'.tables, s)
  }

  lemma StillAlikeSelf(a: Db, b: Db, s: set<string>, name: string)
    requires Alike(a, b, s, name)
    ensures StillAlike(a, b, a, b, s)
  {
  }

  lemma StillAlikeMore(a: Db, b: Db, a': Db, b': Db, a'': Db, b'': Db, s: set<string>)
    requires StillAlike(a, b, a', b', s) && StillAlike(a', b', a'', b'', s)
    ensures StillAlike(a, b, a'', b'', s)
  {
  }

  lemma EnclosesStill(a: Tables, a': Tables, s: set<string>, name: string)
    requires Encloses(a, s, name) && ChangedWithin(a, a', s)
    ensures Encloses(a', s, name)
  {
    forall n | RefersTo(a', name, n) || RefersTo(a', n, name) ensures n in s {
      assert RefersTo(a', name, n) ==> RefersTo(a, name, n);
      assert RefersTo(a', n, name) ==> RefersTo(a, n, name);
    }
  }

  lemma AlikeStill(a: Db, b: Db, a': Db, b': Db, s: set<string>, name: string)
    requires Alike(a, b, s, name) && StillAlike(a, b, a', b', s)
    ensures Alike(a', b', s, name)
  {
    EnclosesStill(a.tables, a'.tables, s, name);
  }

  // ---------------------------------------------------------------- checks

  lemma DanglesFrame(a: Db, b: Db, s: set<string>, name: string, row: Row)
    requires Alike(a, b, s, name) && name in a.tables
    ensures Dangles(a, a.tables[name].schema, row) == Dangles(b, a.tables[name].schema, row)
  {
    var schema := a.tables[name].schema;
    forall f | 0 <= f < |schema.foreignKeys|
      ensures var fk := schema.foreignKeys[f]; var key := Proj(row, fk.columns);
        KeyPresent(a, fk.refTable, fk.refColumns, key) == KeyPresent(b, fk.refTable, fk.refColumns, key)
    {
      assert RefersTo(a.tables, name, schema.foreignKeys[f].refTable);
    }
  }

  lemma EnforceFrame(a: Db, b: Db, s: set<string>, name: string, row: Row, exclude: Option<nat>)
    requires Alike(a, b, s, name) && name in a.tables
    ensures Enforce(a, name, row, exclude) == Enforce(b, name, row, exclude)
  {
    DanglesFrame(a, b, s, name, row);
  }

  lemma ReferencedFrame(a: Db, b: Db, s: set<string>, name: string, row: Row)
    requires Alike(a, b, s, name)
    ensures Referenced(a, name, row) == Referenced(b, name, row)
  {
    forall other | other in a.tables ensures ReferencedFrom(a, other, name, row) == ReferencedFrom(b, other, name, row) {
      if other !in s {
        assert !RefersTo(a.tables, other, name);
        NoReference(a, other, name, row);
        NoReference(b, other, name, row);
      }
    }
  }

  lemma NoReference(db: Db, other: string, name: string, row: Row)
    requires other in db.tables && !RefersTo(db.tables, other, name)
    ensures !ReferencedFrom(db, other, name, row)
  {
  }

  lemma {:induction false} CheckFrame(a: Db, b: Db, s: set<string>, name: string, rows: seq<Row>, i: nat)
    requires Alike(a, b, s, name) && name in a.tables && i <= |rows|
    ensures CheckBatch(a, name, rows, i) == CheckBatch(b, name, rows, i)
    decreases |rows| - i
  {
    if i < |rows| {
      EnforceFrame(a, b, s, name, rows[i], None);
      CheckFrame(a, b, s, name, rows, i + 1);
    }
  }

  lemma PlanFrame(a: Db, b: Db, s: set<string>, name: string, columns: seq<nat>, values: seq<Row>)
    requires Alike(a, b, s, name)
    ensures PlanInsert(a, name, columns, values) == PlanInsert(b, name, columns, values)
  {
    if name in a.tables {
      var cols := TargetSlots(columns, a.tables[name].schema.width);
      if !UnknownSlot(cols, a.tables[name].schema.width) && !WrongArity(values, |cols|) {
        CheckFrame(a, b, s, name, Candidates(a.tables[name].schema.width, cols, values), 0);
      }
    }
  }

  // ---------------------------------------------------------------- writes

  lemma PutFrame(a: Db, b: Db, s: set<string>, name: string, id: nat, v: Option<Row>)
    requires Alike(a, b, s, name) && name in a.tables
    ensures StillAlike(a, b, Put(a, name, id, v), Put(b, name, id, v), s)
  {
  }

  lemma InsertOneFrame(a: Db, b: Db, s: set<string>, name: string, row: Row, supplied: bool)
    requires Alike(a, b, s, name) && name in a.tables
    ensures StillAlike(a, b, InsertOne(a, name, row, supplied), InsertOne(b, name, row, supplied), s)
  {
    var a1, b1, id := IdTaken(a, name), IdTaken(b, name), a.tables[name].nextRowId;
    assert StillAlike(a, b, a1, b1, s);
    AlikeStill(a, b, a1, b1, s, name);
    PutFrame(a1, b1, s, name, id, Some(WithId(row, id, supplied)));
  }

  lemma {:induction false} InsertAllFrame(a: Db, b: Db, s: set<string>, name: string, rows: seq<Row>, supplied: bool)
    requires Alike(a, b, s, name) && name in a.tables
    ensures StillAlike(a, b, InsertAll(a, name, rows, supplied), InsertAll(b, name, rows, supplied), s)
    decreases |rows|
  {
    if rows != [] {
      var a1, b1 := InsertOne(a, name, rows[0], supplied), InsertOne(b, name, rows[0], supplied);
      InsertOneFrame(a, b, s, name, rows[0], supplied);
      AlikeStill(a, b, a1, b1, s, name);
      InsertAllFrame(a1, b1, s, name, rows[1..], supplied);
      StillAlikeMore(a, b, a1, b1, InsertAll(a1, name, rows[1..], supplied), InsertAll(b1, name, rows[1..], supplied), s);
    }
  }

  lemma UpdateOneFrame(a: Db, b: Db, s: set<string>, name: string, id: nat, assignments: seq<Assignment>)
    requires Alike(a, b, s, name) && name in a.tables
    ensures UpdateOne(a, name, id, assignments).1 == UpdateOne(b, name, id, assignments).1
    ensures StillAlike(a, b, UpdateOne(a, name, id, assignments).0, UpdateOne(b, name, id, assignments).0, s)
  {
    var row := LiveRow(a, name, id);
    if row.Some? {
      var row' := Assigned(row.value, assignments);
      if row'.Ok? {
        EnforceFrame(a, b, s, name, row'.value, Some(id));
        PutFrame(a, b, s, name, id, Some(row'.value));
      }
    }
  }

  lemma {:induction false} UpdateAllFrame(a: Db, b: Db, s: set<string>, name: string, ids: seq<nat>, assignments: seq<Assignment>)
    requires Alike(a, b, s, name) && name in a.tables
    ensures UpdateAll(a, name, ids, assignments).1 == UpdateAll(b, name, ids, assignments).1
    ensures StillAlike(a, b, UpdateAll(a, name, ids, assignments).0, UpdateAll(b, name, ids, assignments).0, s)
    decreases |ids|
  {
    if ids != [] {
      UpdateOneFrame(a, b, s, name, ids[0], assignments);
      var a1, b1 := UpdateOne(a, name, ids[0], assignments).0, UpdateOne(b, name, ids[0], assignments).0;
      if UpdateOne(a, name, ids[0], assignments).1.Ok? {
        AlikeStill(a, b, a1, b1, s, name);
        UpdateAllFrame(a1, b1, s, name, ids[1..], assignments);
        StillAlikeMore(a, b, a1, b1, UpdateAll(a1, name, ids[1..], assignments).0, UpdateAll(b1, name, ids[1..], assignments).0, s);
      }
    }
  }

  lemma DeleteOneFrame(a: Db, b: Db, s: set<string>, name: string, id: nat)
    requires Alike(a, b, s, name) && name in a.tables
    ensures DeleteOne(a, name, id).1 == DeleteOne(b, name, id).1
    ensures StillAlike(a, b, DeleteOne(a, name, id).0, DeleteOne(b, name, id).0, s)
  {
    var row := LiveRow(a, name, id);
    if row.Some? {
      ReferencedFrame(a, b, s, name, row.value);
      PutFrame(a, b, s, name, id, None);
    }
  }

  lemma {:induction false} DeleteAllFrame(a: Db, b: Db, s: set<string>, name: string, ids: seq<nat>)
    requires Alike(a, b, s, name) && name in a.tables
    ensures DeleteAll(a, name, ids).1 == DeleteAll(b, name, ids).1
    ensures StillAlike(a, b, DeleteAll(a, name, ids).0, DeleteAll(b, name, ids).0, s)
    decreases |ids|
  {
    if ids != [] {
      DeleteOneFrame(a, b, s, name, ids[0]);
      var a1, b1 := DeleteOne(a, name, ids[0]).0, DeleteOne(b, name, ids[0]).0;
      if DeleteOne(a, name, ids[0]).1.Ok? {
        AlikeStill(a, b, a1, b1, s, name);
        DeleteAllFrame(a1, b1, s, name, ids[1..]);
        StillAlikeMore(a, b, a1, b1, DeleteAll(a1, name, ids[1..]).0, DeleteAll(b1, name, ids[1..]).0, s);
      }
    }
  }

  // ---------------------------------------------------------------- statements

  /**
    A statement in autocommit has the same outcome in two databases that agree on the tables it
    names, refers to or is referred to from, leaves them in agreement, and changes no other table.
  */
  lemma StatementIsFramed(a: Db, b: Db, s: set<string>, stmt: Statement)
    requires IsQuery(stmt) && Alike(a, b, s, stmt.table)
    ensures Execute(a, stmt).1 == Execute(b, stmt).1 && StillAlike(a, b, Execute(a, stmt).0, Execute(b, stmt).0, s)
  {
    StillAlikeSelf(a, b, s, stmt.table);
    match stmt
    case Insert(name, cols, values) =>
      PlanFrame(a, b, s, name, cols, values);
      var plan := PlanInsert(a, name, cols, values);
      if plan.Ok? {
        InsertAllFrame(a, b, s, name, plan.value.0, plan.value.1);
      }
    case Update(name, filter, assignments) => ChangeFrame(a, b, s, stmt);
    case Delete(name, filter) => ChangeFrame(a, b, s, stmt);
    case Select(_) =>
  }

  lemma ChangeFrame(a: Db, b: Db, s: set<string>, stmt: Statement)
    requires (stmt.Update? || stmt.Delete?) && Alike(a, b, s, stmt.table)
    ensures Execute(a, stmt).1 == Execute(b, stmt).1 && StillAlike(a, b, Execute(a, stmt).0, Execute(b, stmt).0, s)
  {
    StillAlikeSelf(a, b, s, stmt.table);
    var ids := Matching(a, stmt.table, stmt.filter);
    assert Matching(b, stmt.table, stmt.filter) == ids;
    if ids.Ok? && stmt.table in a.tables {
      if stmt.Update? {
        UpdateAllFrame(a, b, s, stmt.table, ids.value, stmt.assignments);
      } else {
        DeleteAllFrame(a, b, s, stmt.table, ids.value);
      }
    }
  }
}
