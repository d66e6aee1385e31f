/** When a whole UPDATE, failed partway or not, keeps every constraint. */
module UpdateIntegrity {
  import opened Common
  import opened Values
  import opened RelationalModel
  import opened SessionProofs
  import opened DmlEffects
  import opened Integrity
  import opened ConstraintProofs

  // ---------------------------------------------------------------- the rows changed

  /** How many rows are updated before the first error. */
  ghost function UpdatedCount(db: Db, name: string, ids: seq<nat>, assignments: seq<Assignment>): (n: nat)
    requires name in db.tables
    ensures n <= |ids|
    decreases |ids|
  {
    if ids == [] then 0
    else
      match UpdateOne(db, name, ids[0], assignments)
      case (_, Err(_)) => 0
      case (db', Ok(_)) => 1 + UpdatedCount(db', name, ids[1..], assignments)
  }

  /** The tables with the assignments made in the rows `ids` of table `name`. */
  ghost function Updated(tables: Tables, name: string, ids: seq<nat>, assignments: seq<Assignment>): Tables
    requires name in tables
  {
    tables[name := tables[name].(tree := Reassigned(tables[name].tree, ids, assignments))]
  }

  ghost predicate AllPresent(tree: Tree, ids: seq<nat>) {
    Ascending(ids) && forall i :: 0 <= i < |ids| ==> ids[i] in tree
  }

  /** A row that cannot be updated is left as it is. */
  lemma FailedOne(db: Db, name: string, id: nat, assignments: seq<Assignment>)
    requires name in db.tables && UpdateOne(db, name, id, assignments).1.Err?
    ensures UpdateOne(db, name, id, assignments).0 == db
  {
  }

  /** What updating one row of the table does. */
  lemma OneUpdated(db: Db, name: string, id: nat, assignments: seq<Assignment>, row': Row)
    requires Auto(db) && name in db.tables && id in db.tables[name].tree
    requires Assigned(db.tables[name].tree[id], assignments) == Ok(row') && UpdateOne(db, name, id, assignments).1.Ok?
    ensures Enforce(db, name, row', Some(id)).None?
    ensures UpdateOne(db, name, id, assignments).0 == db.(tables := Stored(db.tables, name, id, row', db.tables[name].nextRowId))
  {
    NoWrites(name);
    PutIs(db, name, id, Some(row'));
  }

  lemma OneAssigned(db: Db, name: string, id: nat, assignments: seq<Assignment>)
    requires Auto(db) && name in db.tables && id in db.tables[name].tree && UpdateOne(db, name, id, assignments).1.Ok?
    ensures Assigned(db.tables[name].tree[id], assignments).Ok?
  {
    NoWrites(name);
  }

  lemma StoredThenUpdated(tables: Tables, name: string, ids: seq<nat>, assignments: seq<Assignment>, row': Row)
    requires name in tables && ids != [] && AllPresent(tables[name].tree, ids)
    requires Assigned(tables[name].tree[ids[0]], assignments) == Ok(row')
    ensures var mid := Stored(tables, name, ids[0], row', tables[name].nextRowId);
      Updated(mid, name, ids[1..], assignments) == Updated(tables, name, ids, assignments) && AllPresent(mid[name].tree, ids[1..])
  {
    ReassignedSplit(tables[name].tree, ids, assignments, row');
  }

  /** The rows updated before the first error have their assignments made, and nothing else changes. */
  lemma {:induction false} UpdateAllIs(db: Db, name: string, ids: seq<nat>, assignments: seq<Assignment>)
    requires Auto(db) && name in db.tables && AllPresent(db.tables[name].tree, ids)
    ensures var n := UpdatedCount(db, name, ids, assignments);
      UpdateAll(db, name, ids, assignments).0 == db.(tables := Updated(db.tables, name, ids[..n], assignments))
    decreases |ids|
  {
    var n := UpdatedCount(db, name, ids, assignments);
    if n == 0 {
      NoneUpdated(db, name, ids, assignments);
    } else {
      var mid := UpdateOne(db, name, ids[0], assignments).0;
      FirstUpdated(db, name, ids, assignments, mid);
      UpdateAllIs(mid, name, ids[1..], assignments);
      RestUpdated(db, name, ids, n, assignments, mid);
    }
  }

  lemma FirstUpdated(db: Db, name: string, ids: seq<nat>, assignments: seq<Assignment>, mid: Db)
    requires Auto(db) && name in db.tables && ids != [] && AllPresent(db.tables[name].tree, ids)
    requires UpdateOne(db, name, ids[0], assignments) == (mid, Ok(()))
    ensures Assigned(db.tables[name].tree[ids[0]], assignments).Ok?
    ensures var row' := Assigned(db.tables[name].tree[ids[0]], assignments).value;
      mid == db.(tables := Stored(db.tables, name, ids[0], row', db.tables[name].nextRowId))
    ensures AllPresent(mid.tables[name].tree, ids[1..])
  {
    OneAssigned(db, name, ids[0], assignments);
    var row' := Assigned(db.tables[name].tree[ids[0]], assignments).value;
    OneUpdated(db, name, ids[0], assignments, row');
    StoredThenUpdated(db.tables, name, ids, assignments, row');
  }

  lemma RestUpdated(db: Db, name: string, ids: seq<nat>, n: nat, assignments: seq<Assignment>, mid: Db)
    requires Auto(db) && name in db.tables && 0 < n <= |ids| && AllPresent(db.tables[name].tree, ids)
    requires UpdateOne(db, name, ids[0], assignments) == (mid, Ok(()))
    requires name in mid.tables && UpdateAll(mid, name, ids[1..], assignments).0 == mid.(tables := Updated(mid.tables, name, ids[1..][..n - 1], assignments))
    ensures UpdateAll(db, name, ids, assignments).0 == db.(tables := Updated(db.tables, name, ids[..n], assignments))
  {
    FirstUpdated(db, name, ids, assignments, mid);
    MoreUpdated(db.tables, name, ids, n, assignments, Assigned(db.tables[name].tree[ids[0]], assignments).value);
  }

  lemma NoneUpdated(db: Db, name: string, ids: seq<nat>, assignments: seq<Assignment>)
    requires name in db.tables && UpdatedCount(db, name, ids, assignments) == 0
    ensures UpdateAll(db, name, ids, assignments).0 == db.(tables := Updated(db.tables, name, ids[..0], assignments))
  {
    assert Reassigned(db.tables[name].tree, [], assignments) == db.tables[name].tree;
    assert Updated(db.tables, name, ids[..0], assignments) == db.tables;
    if ids != [] {
      FailedOne(db, name, ids[0], assignments);
    }
  }

  lemma MoreUpdated(tables: Tables, name: string, ids: seq<nat>, n: nat, assignments: seq<Assignment>, row': Row)
    requires name in tables && 0 < n <= |ids| && AllPresent(tables[name].tree, ids)
    requires Assigned(tables[name].tree[ids[0]], assignments) == Ok(row')
    ensures Updated(Stored(tables, name, ids[0], row', tables[name].nextRowId), name, ids[1..][..n - 1], assignments) ==
            Updated(tables, name, ids[..n], assignments)
  {
    assert ids[..n][1..] == ids[1..][..n - 1];
    StoredThenUpdated(tables, name, ids[..n], assignments, row');
  }

  // ---------------------------------------------------------------- the table's own constraints

  ghost predicate OwnOK(t: Table) {
    TreeOK(t) && RowsOK(t) && UniqueOK(t)
  }

  lemma {:induction false} UpdateAllOwn(db: Db, name: string, ids: seq<nat>, assignments: seq<Assignment>)
    requires Auto(db) && TreesOK(db) && name in db.tables && OwnOK(db.tables[name]) && AllPresent(db.tables[name].tree, ids)
    ensures OwnOK(UpdateAll(db, name, ids, assignments).0.tables[name])
    decreases |ids|
  {
    if ids != [] {
      if UpdateOne(db, name, ids[0], assignments).1.Ok? {
        OneAssigned(db, name, ids[0], assignments);
        var row' := Assigned(db.tables[name].tree[ids[0]], assignments).value;
        OneUpdated(db, name, ids[0], assignments, row');
        EnforcedIsAdmissible(db, name, row', Some(ids[0]), ids[0]);
        OwnConstraints(db.tables, name, ids[0], row', db.tables[name].nextRowId);
        StoredThenUpdated(db.tables, name, ids, assignments, row');
        UpdateAllOwn(UpdateOne(db, name, ids[0], assignments).0, name, ids[1..], assignments);
      } else {
        FailedOne(db, name, ids[0], assignments);
      }
    }
  }

  // ---------------------------------------------------------------- references

  /** A changed row has the key afterwards. */
  ghost predicate NewKey(after: Tree, done: seq<nat>, slots: seq<nat>, key: Row) {
    exists h :: h in done && h in after && Proj(after[h], slots) == key
  }

  /** A changed row had the key before. */
  ghost predicate OldKey(before: Tree, done: seq<nat>, slots: seq<nat>, key: Row) {
    exists h :: h in done && h in before && Proj(before[h], slots) == key
  }

  /** Each reference of a changed row was to a key some row had before, or is to one a changed row has now. */
  ghost predicate Referred(tables: Tables, name: string, done: seq<nat>, after: Tree, row: Row)
    requires name in tables
  {
    forall f :: 0 <= f < |tables[name].schema.foreignKeys| && Null !in Proj(row, tables[name].schema.foreignKeys[f].columns) ==>
      ReferredBy(tables, name, done, after, tables[name].schema.foreignKeys[f], Proj(row, tables[name].schema.foreignKeys[f].columns))
  }

  ghost predicate ReferredBy(tables: Tables, name: string, done: seq<nat>, after: Tree, fk: ForeignKey, key: Row) {
    Held(tables, fk.refTable, fk.refColumns, key) || (fk.refTable == name && NewKey(after, done, fk.refColumns, key))
  }

  lemma ReferredEarlier(tables: Tables, name: string, first: nat, row': Row, rest: seq<nat>, after: Tree, fk: ForeignKey, key: Row)
    requires name in tables && first in after && after[first] == row'
    requires ReferredBy(Stored(tables, name, first, row', tables[name].nextRowId), name, rest, after, fk, key)
    ensures ReferredBy(tables, name, [first] + rest, after, fk, key)
  {
    var mid := Stored(tables, name, first, row', tables[name].nextRowId);
    if Held(mid, fk.refTable, fk.refColumns, key) {
      var x :| x in mid[fk.refTable].tree && Proj(mid[fk.refTable].tree[x], fk.refColumns) == key;
      if fk.refTable == name && x == first {
        assert first in [first] + rest;
      } else {
        assert x in tables[fk.refTable].tree;
      }
    } else {
      var h :| h in rest && h in after && Proj(after[h], fk.refColumns) == key;
      assert h in [first] + rest;
    }
  }

  lemma RowReferredEarlier(tables: Tables, name: string, first: nat, row': Row, rest: seq<nat>, after: Tree, row: Row)
    requires name in tables && first in after && after[first] == row'
    requires Referred(Stored(tables, name, first, row', tables[name].nextRowId), name, rest, after, row)
    ensures Referred(tables, name, [first] + rest, after, row)
  {
    var fks := tables[name].schema.foreignKeys;
    forall f | 0 <= f < |fks| && Null !in Proj(row, fks[f].columns)
      ensures ReferredBy(tables, name, [first] + rest, after, fks[f], Proj(row, fks[f].columns))
    {
      assert Stored(tables, name, first, row', tables[name].nextRowId)[name].schema.foreignKeys[f] == fks[f];
      ReferredEarlier(tables, name, first, row', rest, after, fks[f], Proj(row, fks[f].columns));
    }
  }

  ghost predicate AllReferred(tables: Tables, name: string, done: seq<nat>, after: Tree)
    requires name in tables
  {
    forall id :: id in done && id in after ==> Referred(tables, name, done, after, after[id])
  }

  lemma AllReferredEarlier(tables: Tables, name: string, first: nat, row': Row, rest: seq<nat>, after: Tree)
    requires name in tables && first in after && after[first] == row'
    requires AllReferred(Stored(tables, name, first, row', tables[name].nextRowId), name, rest, after)
    requires forall f :: 0 <= f < |tables[name].schema.foreignKeys| ==> Resolves(tables, tables[name].schema.foreignKeys[f], row')
    ensures AllReferred(tables, name, [first] + rest, after)
  {
    forall id | id in [first] + rest && id in after ensures Referred(tables, name, [first] + rest, after, after[id]) {
      if id != first {
        assert id in rest;
        RowReferredEarlier(tables, name, first, row', rest, after, after[id]);
      }
    }
  }

  lemma {:induction false} ChangedAreReferred(db: Db, name: string, ids: seq<nat>, assignments: seq<Assignment>, after: Tree)
    requires Auto(db) && TreesOK(db) && name in db.tables && OwnOK(db.tables[name]) && AllPresent(db.tables[name].tree, ids)
    requires after == UpdateAll(db, name, ids, assignments).0.tables[name].tree
    ensures AllReferred(db.tables, name, ids[..UpdatedCount(db, name, ids, assignments)], after)
    decreases |ids|
  {
    var n := UpdatedCount(db, name, ids, assignments);
    if n > 0 {
      var mid := UpdateOne(db, name, ids[0], assignments).0;
      UpdateUnfolds(db, name, ids, assignments, mid);
      FirstUpdated(db, name, ids, assignments, mid);
      FirstChecked(db, name, ids, assignments, mid);
      var row' := Assigned(db.tables[name].tree[ids[0]], assignments).value;
      FirstStays(mid, name, ids, assignments, row', after);
      ChangedAreReferred(mid, name, ids[1..], assignments, after);
      ReferredWithFirst(db.tables, name, ids, n, row', after);
    }
  }

  lemma UpdateUnfolds(db: Db, name: string, ids: seq<nat>, assignments: seq<Assignment>, mid: Db)
    requires name in db.tables && ids != [] && UpdateOne(db, name, ids[0], assignments) == (mid, Ok(()))
    ensures name in mid.tables && UpdateAll(db, name, ids, assignments) == UpdateAll(mid, name, ids[1..], assignments)
    ensures UpdatedCount(db, name, ids, assignments) == 1 + UpdatedCount(mid, name, ids[1..], assignments)
  {
  }

  lemma ReferredWithFirst(tables: Tables, name: string, ids: seq<nat>, n: nat, row': Row, after: Tree)
    requires name in tables && 0 < n <= |ids| && ids[0] in after && after[ids[0]] == row'
    requires AllReferred(Stored(tables, name, ids[0], row', tables[name].nextRowId), name, ids[1..][..n - 1], after)
    requires forall f :: 0 <= f < |tables[name].schema.foreignKeys| ==> Resolves(tables, tables[name].schema.foreignKeys[f], row')
    ensures AllReferred(tables, name, ids[..n], after)
  {
    AllReferredEarlier(tables, name, ids[0], row', ids[1..][..n - 1], after);
    assert ids[..n] == [ids[0]] + ids[1..][..n - 1];
  }

  /** The row changed first passed its checks. */
  lemma FirstChecked(db: Db, name: string, ids: seq<nat>, assignments: seq<Assignment>, mid: Db)
    requires Auto(db) && TreesOK(db) && name in db.tables && OwnOK(db.tables[name]) && ids != [] && AllPresent(db.tables[name].tree, ids)
    requires UpdateOne(db, name, ids[0], assignments) == (mid, Ok(())) && Assigned(db.tables[name].tree[ids[0]], assignments).Ok?
    ensures var row' := Assigned(db.tables[name].tree[ids[0]], assignments).value; var fks := db.tables[name].schema.foreignKeys;
      forall f :: 0 <= f < |fks| ==> Resolves(db.tables, fks[f], row')
    ensures Auto(mid) && TreesOK(mid) && name in mid.tables && OwnOK(mid.tables[name])
  {
    var row' := Assigned(db.tables[name].tree[ids[0]], assignments).value;
    OneUpdated(db, name, ids[0], assignments, row');
    EnforcedIsAdmissible(db, name, row', Some(ids[0]), ids[0]);
    OwnConstraints(db.tables, name, ids[0], row', db.tables[name].nextRowId);
  }

  /** The row changed first is not changed again. */
  lemma FirstStays(mid: Db, name: string, ids: seq<nat>, assignments: seq<Assignment>, row': Row, after: Tree)
    requires Auto(mid) && name in mid.tables && ids != [] && Ascending(ids) && AllPresent(mid.tables[name].tree, ids[1..])
    requires ids[0] in mid.tables[name].tree && mid.tables[name].tree[ids[0]] == row'
    requires after == UpdateAll(mid, name, ids[1..], assignments).0.tables[name].tree
    ensures ids[0] in after && after[ids[0]] == row'
  {
    UpdateAllIs(mid, name, ids[1..], assignments);
    assert ids[0] !in ids[1..];
  }

  // ---------------------------------------------------------------- exactly when

  /** Every key that a changed row had, and that some row refers to afterwards, some row still has. */
  ghost predicate OldKeysSurvive(tables: Tables, name: string, done: seq<nat>, after: Tables)
    requires name in tables
  {
    forall other, f, cid :: other in after && 0 <= f < |after[other].schema.foreignKeys| && cid in after[other].tree ==>
      Survives(tables, name, done, after, after[other].schema.foreignKeys[f], Proj(after[other].tree[cid], after[other].schema.foreignKeys[f].columns))
  }

  ghost predicate Survives(tables: Tables, name: string, done: seq<nat>, after: Tables, fk: ForeignKey, key: Row)
    requires name in tables
  {
    fk.refTable == name && Null !in key && OldKey(tables[name].tree, done, fk.refColumns, key) ==> Held(after, name, fk.refColumns, key)
  }

  /** A key some row had before is still held, unless it was that of a changed row and does not survive. */
  lemma HeldStill(tables: Tables, name: string, done: seq<nat>, assignments: seq<Assignment>, after: Tables, fk: ForeignKey, key: Row)
    requires name in tables && after == Updated(tables, name, done, assignments)
    requires Null !in key && Survives(tables, name, done, after, fk, key) && ReferredBy(tables, name, done, after[name].tree, fk, key)
    ensures Held(after, fk.refTable, fk.refColumns, key)
  {
    if Held(tables, fk.refTable, fk.refColumns, key) {
      var x :| x in tables[fk.refTable].tree && Proj(tables[fk.refTable].tree[x], fk.refColumns) == key;
      if fk.refTable != name || x !in done {
        assert x in after[fk.refTable].tree && after[fk.refTable].tree[x] == tables[fk.refTable].tree[x];
      }
    }
  }

  lemma ReferenceStill(tables: Tables, name: string, done: seq<nat>, assignments: seq<Assignment>, after: Tables, n: string, f: nat, cid: nat)
    requires Consistent(tables) && name in tables && after == Updated(tables, name, done, assignments)
    requires AllReferred(tables, name, done, after[name].tree) && OldKeysSurvive(tables, name, done, after)
    requires n in after && f < |after[n].schema.foreignKeys| && cid in after[n].tree
    ensures Resolves(after, after[n].schema.foreignKeys[f], after[n].tree[cid])
  {
    var fk, row := after[n].schema.foreignKeys[f], after[n].tree[cid];
    var key := Proj(row, fk.columns);
    if Null !in key {
      assert Survives(tables, name, done, after, fk, key);
      if n == name && cid in done {
        assert Referred(tables, name, done, after[name].tree, row);
      } else {
        assert cid in tables[n].tree && tables[n].tree[cid] == row;
        assert Resolves(tables, tables[n].schema.foreignKeys[f], tables[n].tree[cid]);
      }
      HeldStill(tables, name, done, assignments, after, fk, key);
    }
  }

  lemma UpdatedExactly(tables: Tables, name: string, done: seq<nat>, assignments: seq<Assignment>, after: Tables)
    requires Consistent(tables) && name in tables && after == Updated(tables, name, done, assignments)
    requires AllReferred(tables, name, done, after[name].tree) && OwnOK(after[name])
    ensures Consistent(after) <==> OldKeysSurvive(tables, name, done, after)
  {
    if OldKeysSurvive(tables, name, done, after) {
      forall n | n in after ensures TreeOK(after[n]) && RowsOK(after[n]) && UniqueOK(after[n]) && ForeignOK(after, after[n]) {
        forall f, cid | 0 <= f < |after[n].schema.foreignKeys| && cid in after[n].tree
          ensures Resolves(after, after[n].schema.foreignKeys[f], after[n].tree[cid])
        {
          ReferenceStill(tables, name, done, assignments, after, n, f, cid);
        }
      }
    }
    if Consistent(after) {
      ConsistentSurvives(tables, name, done, after);
    }
  }

  lemma ConsistentSurvives(tables: Tables, name: string, done: seq<nat>, after: Tables)
    requires name in tables && Consistent(after)
    ensures OldKeysSurvive(tables, name, done, after)
  {
    forall other, f, cid | other in after && 0 <= f < |after[other].schema.foreignKeys| && cid in after[other].tree
      ensures Survives(tables, name, done, after, after[other].schema.foreignKeys[f], Proj(after[other].tree[cid], after[other].schema.foreignKeys[f].columns))
    {
      assert ForeignOK(after, after[other]);
      assert Resolves(after, after[other].schema.foreignKeys[f], after[other].tree[cid]);
    }
  }

  lemma SelectedPresent(db: Db, name: string, filter: Filter)
    requires Auto(db) && TreesOK(db) && Matching(db, name, filter).Ok?
    ensures name in db.tables && AllPresent(db.tables[name].tree, Matching(db, name, filter).value)
  {
    Selects(db, name, filter);
    NoWrites(name);
    var ids := Matching(db, name, filter).value;
    forall i | 0 <= i < |ids| ensures ids[i] in db.tables[name].tree {
      assert ids[i] in ids;
      ViewAt(db, name, ids[i]);
    }
  }

  /**
    An UPDATE, failed partway or not, keeps a consistent database consistent if and only if every key
    that a row it changed used to have, and that some row refers to afterwards, some row still has.
  */
  lemma UpdateStatementKeepsExactly(db: Db, name: string, filter: Filter, assignments: seq<Assignment>)
    requires Auto(db) && Consistent(db.tables) && Matching(db, name, filter).Ok?
    ensures name in db.tables
    ensures var ids := Matching(db, name, filter).value; var done := ids[..UpdatedCount(db, name, ids, assignments)];
      var after := Updated(db.tables, name, done, assignments);
      && RunUpdate(db, name, filter, assignments).0.tables == after
      && (Consistent(after) <==> OldKeysSurvive(db.tables, name, done, after))
  {
    SelectedPresent(db, name, filter);
    var ids := Matching(db, name, filter).value;
    var done := ids[..UpdatedCount(db, name, ids, assignments)];
    UpdateAllIs(db, name, ids, assignments);
    UpdateAllOwn(db, name, ids, assignments);
    var after := Updated(db.tables, name, done, assignments);
    ChangedAreReferred(db, name, ids, assignments, after[name].tree);
    UpdatedExactly(db.tables, name, done, assignments, after);
  }
}
