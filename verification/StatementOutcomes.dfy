/**
  When INSERT, UPDATE and DELETE succeed, and how far they get. Inside a transaction the same holds of
  what the transaction sees, by `TransactionViews.StatementIsAutocommit`.
*/
module StatementOutcomes {
  import opened Common
  import opened Values
  import opened RelationalModel
  import opened SessionProofs
  import opened DmlEffects
  import opened Integrity
  import opened BatchProofs
  import opened ConstraintProofs
  import opened UpdateIntegrity

  // ---------------------------------------------------------------- WHERE

  /** The filter fails on the row with this id, and on no live row before it. */
  ghost predicate FirstFailing(t: Table, writes: Writes, filter: Filter, id: nat) {
    && id < t.nextRowId && Live(t.tree, writes, id).Some? && filter(Live(t.tree, writes, id).value).Err?
    && forall k: nat :: k < id && Live(t.tree, writes, k).Some? ==> filter(Live(t.tree, writes, k).value).Ok?
  }

  lemma {:induction false} MatchingFails(t: Table, writes: Writes, filter: Filter, id: nat, found: seq<nat>)
    requires id <= t.nextRowId && forall k: nat :: k < id && Live(t.tree, writes, k).Some? ==> filter(Live(t.tree, writes, k).value).Ok?
    ensures MatchingFrom(t, writes, filter, id, found).Err? <==> exists k :: FirstFailing(t, writes, filter, k)
    ensures forall k :: FirstFailing(t, writes, filter, k) ==>
      MatchingFrom(t, writes, filter, id, found) == Err(filter(Live(t.tree, writes, k).value).error)
    decreases t.nextRowId - id
  {
    if id < t.nextRowId {
      match Live(t.tree, writes, id)
      case None => MatchingFails(t, writes, filter, id + 1, found);
      case Some(row) =>
        match filter(row)
        case Err(e) => assert FirstFailing(t, writes, filter, id);
        case Ok(keep) => MatchingFails(t, writes, filter, id + 1, if keep then found + [id] else found);
    }
  }

  /** A WHERE fails exactly when its table is unknown or its filter fails on a live row; the first such row decides the error. */
  lemma WhereFailsExactly(db: Db, name: string, filter: Filter)
    ensures name !in db.tables ==> Matching(db, name, filter) == Err(UnknownTable)
    ensures name in db.tables ==>
      (Matching(db, name, filter).Err? <==> exists k :: FirstFailing(db.tables[name], WritesFor(db.active, name), filter, k))
    ensures name in db.tables ==> forall k :: FirstFailing(db.tables[name], WritesFor(db.active, name), filter, k) ==>
      Matching(db, name, filter) == Err(filter(Live(db.tables[name].tree, WritesFor(db.active, name), k).value).error)
  {
    if name in db.tables {
      MatchingFails(db.tables[name], WritesFor(db.active, name), filter, 0, []);
    }
  }

  // ---------------------------------------------------------------- which check fails first

  ghost predicate LacksValue(schema: Schema, row: Row) {
    exists slot :: slot in schema.notNull && At(row, slot) == Null
  }

  ghost predicate SharesKey(t: Table, row: Row, id: nat) {
    exists g, other :: 0 <= g < |t.schema.unique| && other in t.tree && other != id && !Distinct(row, t.tree[other], t.schema.unique[g])
  }

  ghost predicate RefersToNothing(tables: Tables, schema: Schema, row: Row) {
    exists f :: 0 <= f < |schema.foreignKeys| && !Resolves(tables, schema.foreignKeys[f], row)
  }

  /** The first CHECK that does not pass: one before it that passes is passed over. */
  lemma {:induction false} FirstCheck(checks: seq<Filter>, row: Row, c: nat)
    requires c < |checks| && checks[c](row) != Ok(true) && forall k :: 0 <= k < c ==> checks[k](row) == Ok(true)
    ensures FailedCheck(checks, row) == Some(match checks[c](row) { case Err(e) => e case Ok(_) => CheckViolation })
    decreases |checks|
  {
    if c > 0 {
      assert checks[0](row) == Ok(true);
      forall k | 0 <= k < c - 1 ensures checks[1..][k](row) == Ok(true) {
        assert checks[k + 1](row) == Ok(true);
      }
      FirstCheck(checks[1..], row, c - 1);
    }
  }

  lemma {:induction false} AllChecksPass(checks: seq<Filter>, row: Row)
    requires forall k :: 0 <= k < |checks| ==> checks[k](row) == Ok(true)
    ensures FailedCheck(checks, row).None?
    decreases |checks|
  {
    if checks != [] {
      AllChecksPass(checks[1..], row);
    }
  }

  /** Constraints are checked in this order: NOT NULL, UNIQUE, the CHECKs one by one, FOREIGN KEY. */
  lemma EnforcedInOrder(db: Db, name: string, row: Row, exclude: Option<nat>, id: nat)
    requires Auto(db) && TreesOK(db) && name in db.tables
    requires exclude == Some(id) || (exclude.None? && id !in db.tables[name].tree)
    ensures var t := db.tables[name]; var r := Enforce(db, name, row, exclude);
      && (LacksValue(t.schema, row) ==> r == Some(NotNullViolation))
      && (!LacksValue(t.schema, row) && SharesKey(t, row, id) ==> r == Some(UniqueViolation))
      && (!LacksValue(t.schema, row) && !SharesKey(t, row, id) && FailedCheck(t.schema.checks, row).Some? ==> r == FailedCheck(t.schema.checks, row))
      && (!LacksValue(t.schema, row) && !SharesKey(t, row, id) && FailedCheck(t.schema.checks, row).None? ==>
            r == if RefersToNothing(db.tables, t.schema, row) then Some(ForeignKeyViolation) else None)
  {
    var t := db.tables[name];
    NoWrites(name);
    DuplicatedIs(t, row, exclude, id);
    DanglingIs(db, t.schema, row);
    assert LacksValue(t.schema, row) <==> MissesValue(t.schema, row) by {
      if i :| 0 <= i < |t.schema.notNull| && At(row, t.schema.notNull[i]) == Null {
        assert t.schema.notNull[i] in t.schema.notNull;
      }
    }
  }

  // ---------------------------------------------------------------- INSERT

  lemma {:induction false} BatchPasses(db: Db, name: string, rows: seq<Row>, i: nat)
    requires name in db.tables && i <= |rows|
    requires forall k :: 0 <= k < |rows| ==> Enforce(db, name, rows[k], None).None? && !DuplicatesInBatch(db.tables[name].schema, rows, k)
    ensures CheckBatch(db, name, rows, i).None?
    decreases |rows| - i
  {
    if i < |rows| {
      BatchPasses(db, name, rows, i + 1);
    }
  }

  lemma ApartInBatch(schema: Schema, rows: seq<Row>, i: nat)
    requires PairwiseDistinct(schema.unique, rows) && i < |rows|
    ensures !DuplicatesInBatch(schema, rows, i)
  {
    forall g, j | 0 <= g < |schema.unique| && 0 <= j < |rows| && j != i && Null !in Proj(rows[i], schema.unique[g])
      ensures Proj(rows[j], schema.unique[g]) != Proj(rows[i], schema.unique[g])
    {
      assert Distinct(rows[i], rows[j], schema.unique[g]);
    }
  }

  /** A batch passes exactly when each row may be stored in the table and no two share a key. */
  lemma BatchPassesExactly(db: Db, name: string, rows: seq<Row>)
    requires Auto(db) && TreesOK(db) && name in db.tables
    ensures CheckBatch(db, name, rows, 0).None? <==>
            AllAdmissible(db.tables, name, rows) && PairwiseDistinct(db.tables[name].schema.unique, rows)
  {
    if CheckBatch(db, name, rows, 0).None? {
      BatchIsOK(db, name, rows);
    }
    if AllAdmissible(db.tables, name, rows) && PairwiseDistinct(db.tables[name].schema.unique, rows) {
      forall k | 0 <= k < |rows| ensures Enforce(db, name, rows[k], None).None? && !DuplicatesInBatch(db.tables[name].schema, rows, k) {
        EnforcedIsAdmissible(db, name, rows[k], None, db.tables[name].nextRowId);
        ApartInBatch(db.tables[name].schema, rows, k);
      }
      BatchPasses(db, name, rows, 0);
    }
  }

  /** The statement fits the table: every column it names exists and every list has a value for each. */
  ghost predicate WellTyped(width: nat, columns: seq<nat>, values: seq<Row>) {
    && (forall i :: 0 <= i < |columns| ==> columns[i] < width)
    && forall i :: 0 <= i < |values| ==> |values[i]| == if columns == [] then width else |columns|
  }

  lemma WellTypedIs(width: nat, columns: seq<nat>, values: seq<Row>)
    ensures var cols := TargetSlots(columns, width);
      && (!UnknownSlot(cols, width) && !WrongArity(values, |cols|) <==> WellTyped(width, columns, values))
      && (UnknownSlot(cols, width) <==> exists i :: 0 <= i < |columns| && columns[i] >= width)
  {
    AllSlotsAre(width);
  }

  /**
    INSERT succeeds if and only if the table exists, the statement fits it, each row, its id still
    NULL unless supplied, may be stored in the table, and no two of them share a key.
  */
  lemma InsertSucceedsExactly(db: Db, name: string, columns: seq<nat>, values: seq<Row>)
    requires Auto(db) && TreesOK(db)
    ensures var r := RunInsert(db, name, columns, values).1;
      && (name !in db.tables ==> r == Err(UnknownTable))
      && (name in db.tables && (exists i :: 0 <= i < |columns| && columns[i] >= db.tables[name].schema.width) ==> r == Err(UnknownColumn))
      && (name in db.tables && WellTyped(db.tables[name].schema.width, columns, values) ==>
            var cols := TargetSlots(columns, db.tables[name].schema.width);
            && !UnknownSlot(cols, db.tables[name].schema.width) && !WrongArity(values, |cols|)
            && var rows := Candidates(db.tables[name].schema.width, cols, values);
            (r.Ok? <==> AllAdmissible(db.tables, name, rows) && PairwiseDistinct(db.tables[name].schema.unique, rows)))
      && (r.Ok? ==> name in db.tables && WellTyped(db.tables[name].schema.width, columns, values))
  {
    if name in db.tables {
      var width := db.tables[name].schema.width;
      var cols := TargetSlots(columns, width);
      WellTypedIs(width, columns, values);
      if !UnknownSlot(cols, width) && !WrongArity(values, |cols|) {
        BatchPassesExactly(db, name, Candidates(width, cols, values));
      }
    }
  }

  // ---------------------------------------------------------------- UPDATE

  /** The assignments name existing slots, and the row they make may be stored in place of the old one. */
  ghost predicate RowUpdatable(tables: Tables, name: string, id: nat, assignments: seq<Assignment>)
    requires name in tables
  {
    && id in tables[name].tree && (forall k :: 0 <= k < |assignments| ==> assignments[k].slot < |tables[name].tree[id]|)
    && Assigned(tables[name].tree[id], assignments).Ok?
    && Admissible(tables, name, Assigned(tables[name].tree[id], assignments).value, id)
  }

  lemma UpdateOneExactly(db: Db, name: string, id: nat, assignments: seq<Assignment>)
    requires Auto(db) && TreesOK(db) && name in db.tables && id in db.tables[name].tree
    ensures UpdateOne(db, name, id, assignments).1.Ok? <==> RowUpdatable(db.tables, name, id, assignments)
  {
    var row := db.tables[name].tree[id];
    NoWrites(name);
    AssignedExactly(row, assignments);
    if Assigned(row, assignments).Ok? {
      EnforcedIsAdmissible(db, name, Assigned(row, assignments).value, Some(id), id);
    }
  }

  /** The first `n` rows can be updated one after the other, and the next one cannot. */
  ghost predicate UpdatableUpTo(tables: Tables, name: string, ids: seq<nat>, assignments: seq<Assignment>, n: nat)
    requires name in tables
  {
    && n <= |ids|
    && (forall k :: 0 <= k < n ==> RowUpdatable(Updated(tables, name, ids[..k], assignments), name, ids[k], assignments))
    && (n < |ids| ==> !RowUpdatable(Updated(tables, name, ids[..n], assignments), name, ids[n], assignments))
  }

  lemma NothingUpdated(tables: Tables, name: string, assignments: seq<Assignment>)
    requires name in tables
    ensures Updated(tables, name, [], assignments) == tables
  {
    assert Reassigned(tables[name].tree, [], assignments) == tables[name].tree;
  }

  lemma UpdatableOnward(tables: Tables, name: string, ids: seq<nat>, assignments: seq<Assignment>, n: nat, row': Row)
    requires name in tables && ids != [] && AllPresent(tables[name].tree, ids) && RowUpdatable(tables, name, ids[0], assignments)
    requires Assigned(tables[name].tree[ids[0]], assignments) == Ok(row')
    requires UpdatableUpTo(Stored(tables, name, ids[0], row', tables[name].nextRowId), name, ids[1..], assignments, n)
    ensures UpdatableUpTo(tables, name, ids, assignments, n + 1)
  {
    var mid := Stored(tables, name, ids[0], row', tables[name].nextRowId);
    NothingUpdated(tables, name, assignments);
    assert ids[..0] == [];
    forall k | 0 < k <= n + 1 && k <= |ids| ensures Updated(tables, name, ids[..k], assignments) == Updated(mid, name, ids[1..][..k - 1], assignments) {
      MoreUpdated(tables, name, ids, k, assignments, row');
    }
    forall k | 0 <= k < n + 1 ensures RowUpdatable(Updated(tables, name, ids[..k], assignments), name, ids[k], assignments) {
      if k > 0 {
        assert RowUpdatable(Updated(mid, name, ids[1..][..k - 1], assignments), name, ids[1..][k - 1], assignments);
      }
    }
  }

  lemma {:induction false} UpdatedCountIs(db: Db, name: string, ids: seq<nat>, assignments: seq<Assignment>)
    requires Auto(db) && TreesOK(db) && name in db.tables && AllPresent(db.tables[name].tree, ids)
    ensures UpdatableUpTo(db.tables, name, ids, assignments, UpdatedCount(db, name, ids, assignments))
    ensures UpdateAll(db, name, ids, assignments).1.Ok? <==> UpdatedCount(db, name, ids, assignments) == |ids|
    decreases |ids|
  {
    NothingUpdated(db.tables, name, assignments);
    assert ids[..0] == [];
    if ids != [] {
      UpdateOneExactly(db, name, ids[0], assignments);
      if UpdateOne(db, name, ids[0], assignments).1.Ok? {
        var mid := UpdateOne(db, name, ids[0], assignments).0;
        FirstUpdated(db, name, ids, assignments, mid);
        UpdatedCountIs(mid, name, ids[1..], assignments);
        UpdatableOnward(db.tables, name, ids, assignments, UpdatedCount(mid, name, ids[1..], assignments),
                        Assigned(db.tables[name].tree[ids[0]], assignments).value);
      }
    }
  }

  /**
    UPDATE changes the selected rows one after the other as far as each may be stored over what the
    ones before it left, and succeeds if and only if that is all of them.
  */
  lemma UpdateSucceedsExactly(db: Db, name: string, filter: Filter, assignments: seq<Assignment>)
    requires Auto(db) && TreesOK(db)
    ensures Matching(db, name, filter).Err? ==> RunUpdate(db, name, filter, assignments) == (db, Err(Matching(db, name, filter).error))
    ensures Matching(db, name, filter).Ok? ==> name in db.tables
    ensures Matching(db, name, filter).Ok? ==>
      var ids := Matching(db, name, filter).value; exists n: nat ::
      && UpdatableUpTo(db.tables, name, ids, assignments, n)
      && RunUpdate(db, name, filter, assignments).0 == db.(tables := Updated(db.tables, name, ids[..n], assignments))
      && (RunUpdate(db, name, filter, assignments).1.Ok? <==> n == |ids|)
  {
    if Matching(db, name, filter).Ok? {
      SelectedPresent(db, name, filter);
      var ids := Matching(db, name, filter).value;
      UpdatedCountIs(db, name, ids, assignments);
      UpdateAllIs(db, name, ids, assignments);
    }
  }

  // ---------------------------------------------------------------- DELETE

  /** Some row of some table, the row itself included, refers to the row through a key without NULLs. */
  ghost predicate ReferredTo(tables: Tables, name: string, row: Row) {
    exists other, f, cid :: RefersBy(tables, other, f, cid, name, row)
  }

  ghost predicate RefersBy(tables: Tables, other: string, f: nat, cid: nat, name: string, row: Row) {
    && other in tables && f < |tables[other].schema.foreignKeys| && cid in tables[other].tree
    && var fk := tables[other].schema.foreignKeys[f];
    && fk.refTable == name && Null !in Proj(row, fk.refColumns)
    && Proj(tables[other].tree[cid], fk.columns) == Proj(row, fk.refColumns)
  }

  lemma ReferencedExactly(db: Db, name: string, row: Row)
    requires Auto(db) && TreesOK(db)
    ensures Referenced(db, name, row) <==> ReferredTo(db.tables, name, row)
  {
    if Referenced(db, name, row) {
      var other :| other in db.tables && ReferencedFrom(db, other, name, row);
      ReferencedFromIs(db, other, name, row);
    } else {
      forall other, f: nat, cid: nat ensures !RefersBy(db.tables, other, f, cid, name, row) {
        if RefersBy(db.tables, other, f, cid, name, row) {
          NotReferenced(db, name, row, other, f, cid);
        }
      }
    }
  }

  lemma ReferencedFromIs(db: Db, other: string, name: string, row: Row)
    requires Auto(db) && TreesOK(db) && other in db.tables && ReferencedFrom(db, other, name, row)
    ensures ReferredTo(db.tables, name, row)
  {
    var t := db.tables[other];
    NoWrites(other);
    var f: nat :| f < |t.schema.foreignKeys| && t.schema.foreignKeys[f].refTable == name && Null !in Proj(row, t.schema.foreignKeys[f].refColumns)
      && HoldsKey(t, map[], t.schema.foreignKeys[f].columns, Proj(row, t.schema.foreignKeys[f].refColumns), None);
    HoldsKeyIs(t, t.schema.foreignKeys[f].columns, Proj(row, t.schema.foreignKeys[f].refColumns), None);
    var cid :| cid in t.tree && Proj(t.tree[cid], t.schema.foreignKeys[f].columns) == Proj(row, t.schema.foreignKeys[f].refColumns);
    assert RefersBy(db.tables, other, f, cid, name, row);
  }

  /** The tables without the rows `ids` of table `name`. */
  ghost function Deleted(tables: Tables, name: string, ids: seq<nat>): Tables
    requires name in tables
  {
    tables[name := tables[name].(tree := tables[name].tree - Elements(ids))]
  }

  lemma DeleteOneExactly(db: Db, name: string, id: nat)
    requires Auto(db) && TreesOK(db) && name in db.tables && id in db.tables[name].tree
    ensures DeleteOne(db, name, id).1.Ok? <==> !ReferredTo(db.tables, name, db.tables[name].tree[id])
    ensures DeleteOne(db, name, id).1.Ok? ==> DeleteOne(db, name, id).0 == db.(tables := Removed(db.tables, name, id))
    ensures DeleteOne(db, name, id).1.Err? ==> DeleteOne(db, name, id) == (db, Err(ForeignKeyViolation))
  {
    NoWrites(name);
    ReferencedExactly(db, name, db.tables[name].tree[id]);
    PutIs(db, name, id, None);
  }

  /** The first `n` rows can be deleted one after the other, and the next one cannot. */
  ghost predicate DeletableUpTo(tables: Tables, name: string, ids: seq<nat>, n: nat)
    requires name in tables && AllPresent(tables[name].tree, ids)
  {
    && n <= |ids|
    && (forall k :: 0 <= k < n ==> !ReferredTo(Deleted(tables, name, ids[..k]), name, tables[name].tree[ids[k]]))
    && (n < |ids| ==> ReferredTo(Deleted(tables, name, ids[..n]), name, tables[name].tree[ids[n]]))
  }

  lemma RemovedThenDeleted(tables: Tables, name: string, ids: seq<nat>, k: nat)
    requires name in tables && 0 < k <= |ids|
    ensures Deleted(Removed(tables, name, ids[0]), name, ids[1..][..k - 1]) == Deleted(tables, name, ids[..k])
  {
    assert ids[..k][1..] == ids[1..][..k - 1] && ids[..k][0] == ids[0];
    RemovedSplit(tables[name].tree, ids[..k]);
  }

  lemma NothingDeleted(tables: Tables, name: string)
    requires name in tables
    ensures Deleted(tables, name, []) == tables
  {
    assert tables[name].tree - Elements([]) == tables[name].tree;
  }

  lemma DeletableOnward(tables: Tables, name: string, ids: seq<nat>, n: nat)
    requires name in tables && ids != [] && AllPresent(tables[name].tree, ids) && !ReferredTo(tables, name, tables[name].tree[ids[0]])
    requires AllPresent(Removed(tables, name, ids[0])[name].tree, ids[1..]) && DeletableUpTo(Removed(tables, name, ids[0]), name, ids[1..], n)
    ensures DeletableUpTo(tables, name, ids, n + 1)
  {
    var mid := Removed(tables, name, ids[0]);
    NothingDeleted(tables, name);
    assert ids[..0] == [];
    forall k | 0 < k <= n + 1 && k <= |ids| ensures Deleted(tables, name, ids[..k]) == Deleted(mid, name, ids[1..][..k - 1]) {
      RemovedThenDeleted(tables, name, ids, k);
    }
    forall k | 0 <= k < n + 1 ensures !ReferredTo(Deleted(tables, name, ids[..k]), name, tables[name].tree[ids[k]]) {
      if k > 0 {
        assert ids[1..][k - 1] == ids[k] && !ReferredTo(Deleted(mid, name, ids[1..][..k - 1]), name, mid[name].tree[ids[1..][k - 1]]);
      }
    }
  }

  lemma RestPresent(tree: Tree, ids: seq<nat>)
    requires ids != [] && AllPresent(tree, ids)
    ensures AllPresent(tree - {ids[0]}, ids[1..])
  {
    forall i | 0 <= i < |ids[1..]| ensures ids[1..][i] in tree - {ids[0]} {
      assert ids[1..][i] == ids[i + 1] && ids[0] < ids[i + 1];
    }
  }

  /** How far a DELETE gets, what it leaves, and that it succeeds exactly when it gets to the end. */
  lemma {:induction false} DeleteAllExactly(db: Db, name: string, ids: seq<nat>) returns (n: nat)
    requires Auto(db) && TreesOK(db) && name in db.tables && AllPresent(db.tables[name].tree, ids)
    ensures DeletableUpTo(db.tables, name, ids, n)
    ensures DeleteAll(db, name, ids).0 == db.(tables := Deleted(db.tables, name, ids[..n]))
    ensures DeleteAll(db, name, ids).1.Ok? <==> n == |ids|
    ensures DeleteAll(db, name, ids).1.Err? ==> DeleteAll(db, name, ids).1.error == ForeignKeyViolation
    decreases |ids|
  {
    n := 0;
    NothingDeleted(db.tables, name);
    assert ids[..0] == [];
    if ids != [] {
      DeleteOneExactly(db, name, ids[0]);
      if DeleteOne(db, name, ids[0]).1.Ok? {
        RestPresent(db.tables[name].tree, ids);
        var m := DeleteAllExactly(DeleteOne(db, name, ids[0]).0, name, ids[1..]);
        DeletableOnward(db.tables, name, ids, m);
        RemovedThenDeleted(db.tables, name, ids, m + 1);
        n := m + 1;
      }
    }
  }

  /**
    DELETE removes the selected rows one after the other as far as nothing left refers to the next,
    and succeeds if and only if that is all of them.
  */
  lemma DeleteSucceedsExactly(db: Db, name: string, filter: Filter)
    requires Auto(db) && TreesOK(db)
    ensures Matching(db, name, filter).Err? ==> RunDelete(db, name, filter) == (db, Err(Matching(db, name, filter).error))
    ensures Matching(db, name, filter).Ok? ==> name in db.tables && AllPresent(db.tables[name].tree, Matching(db, name, filter).value)
    ensures Matching(db, name, filter).Ok? ==>
      var ids := Matching(db, name, filter).value; exists n: nat ::
      && DeletableUpTo(db.tables, name, ids, n)
      && RunDelete(db, name, filter).0 == db.(tables := Deleted(db.tables, name, ids[..n]))
      && (RunDelete(db, name, filter).1.Ok? <==> n == |ids|)
  {
    if Matching(db, name, filter).Ok? {
      SelectedPresent(db, name, filter);
      var n := DeleteAllExactly(db, name, Matching(db, name, filter).value);
    }
  }
}
