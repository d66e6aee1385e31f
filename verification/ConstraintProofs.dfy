/** NOT NULL, UNIQUE, CHECK and FOREIGN KEY hold in every state that autocommit statements reach, failed ones included. */
module ConstraintProofs {
  import opened Common
  import opened Values
  import opened MvccModel
  import opened RelationalModel
  import opened SessionProofs
  import opened DmlEffects
  import opened Integrity
  import opened BatchProofs

  // ---------------------------------------------------------------- what the checks establish

  lemma NoWrites(name: string)
    ensures WritesFor([], name) == map[]
  {
  }

  lemma HoldsKeyIs(t: Table, slots: seq<nat>, key: Row, exclude: Option<nat>)
    requires TreeOK(t)
    ensures HoldsKey(t, map[], slots, key, exclude) <==>
            exists id :: id in t.tree && exclude != Some(id) && Proj(t.tree[id], slots) == key
  {
    if id :| id in t.tree && exclude != Some(id) && Proj(t.tree[id], slots) == key {
      assert HasKey(Live(t.tree, map[], id), slots, key);
    }
  }

  lemma KeyPresentIs(db: Db, name: string, slots: seq<nat>, key: Row)
    requires Auto(db) && TreesOK(db)
    ensures KeyPresent(db, name, slots, key) <==> Held(db.tables, name, slots, key)
  {
    if name in db.tables {
      HoldsKeyIs(db.tables[name], slots, key, None);
    }
  }

  /** A row that breaks nothing when stored under `id`. */
  ghost predicate Admissible(tables: Tables, name: string, row: Row, id: nat)
    requires name in tables
  {
    var t := tables[name];
    && Acceptable(t.schema, row)
    && (forall g, other :: 0 <= g < |t.schema.unique| && other in t.tree && other != id ==>
          Distinct(row, t.tree[other], t.schema.unique[g]))
    && forall f :: 0 <= f < |t.schema.foreignKeys| ==> Resolves(tables, t.schema.foreignKeys[f], row)
  }

  lemma DuplicatedIs(t: Table, row: Row, exclude: Option<nat>, id: nat)
    requires TreeOK(t) && (exclude == Some(id) || (exclude.None? && id !in t.tree))
    ensures !Duplicates(t, map[], row, exclude) <==>
      forall g, other :: 0 <= g < |t.schema.unique| && other in t.tree && other != id ==>
        Distinct(row, t.tree[other], t.schema.unique[g])
  {
    forall g | 0 <= g < |t.schema.unique|
      ensures HoldsKey(t, map[], t.schema.unique[g], Proj(row, t.schema.unique[g]), exclude) <==>
        exists other :: other in t.tree && other != id && Proj(t.tree[other], t.schema.unique[g]) == Proj(row, t.schema.unique[g])
    {
      HoldsKeyIs(t, t.schema.unique[g], Proj(row, t.schema.unique[g]), exclude);
    }
  }

  lemma DanglingIs(db: Db, schema: Schema, row: Row)
    requires Auto(db) && TreesOK(db)
    ensures !Dangles(db, schema, row) <==>
      forall f :: 0 <= f < |schema.foreignKeys| ==> Resolves(db.tables, schema.foreignKeys[f], row)
  {
    forall f | 0 <= f < |schema.foreignKeys|
      ensures var fk := schema.foreignKeys[f]; var key := Proj(row, fk.columns);
        KeyPresent(db, fk.refTable, fk.refColumns, key) <==> Held(db.tables, fk.refTable, fk.refColumns, key)
    {
      var fk := schema.foreignKeys[f];
      KeyPresentIs(db, fk.refTable, fk.refColumns, Proj(row, fk.columns));
    }
  }

  /** Passing the checks is exactly admissibility, for the row being updated or a new one. */
  lemma EnforcedIsAdmissible(db: Db, name: string, row: Row, exclude: Option<nat>, id: nat)
    requires Auto(db) && TreesOK(db) && name in db.tables
    requires exclude == Some(id) || (exclude.None? && id !in db.tables[name].tree)
    ensures Enforce(db, name, row, exclude).None? <==> Admissible(db.tables, name, row, id)
  {
    NoWrites(name);
    DuplicatedIs(db.tables[name], row, exclude, id);
    DanglingIs(db, db.tables[name].schema, row);
  }

  // ---------------------------------------------------------------- storing a row

  ghost function Stored(tables: Tables, name: string, id: nat, row: Row, next: nat): Tables
    requires name in tables
  {
    tables[name := tables[name].(tree := tables[name].tree[id := row], nextRowId := next)]
  }

  /** The references that a row's old key satisfied are still satisfied: it keeps the key, another row has it, or none asks for it. */
  ghost predicate Spares(tables: Tables, name: string, id: nat, row': Row)
    requires name in tables && id in tables[name].tree
  {
    forall other, f :: other in tables && 0 <= f < |tables[other].schema.foreignKeys| ==>
      tables[other].schema.foreignKeys[f].refTable == name ==> SparesKey(tables, name, id, row', other, tables[other].schema.foreignKeys[f])
  }

  ghost predicate SparesKey(tables: Tables, name: string, id: nat, row': Row, other: string, fk: ForeignKey)
    requires name in tables && other in tables && id in tables[name].tree
  {
    var key := Proj(tables[name].tree[id], fk.refColumns);
    || Null in key || Proj(row', fk.refColumns) == key
    || (exists pid :: pid in tables[name].tree && pid != id && Proj(tables[name].tree[pid], fk.refColumns) == key)
    || !Asked(tables, name, id, row', other, fk, key)
  }

  /** Once `row'` is stored, some row of `other` refers to `key`. */
  ghost predicate Asked(tables: Tables, name: string, id: nat, row': Row, other: string, fk: ForeignKey, key: Row)
    requires name in tables && other in tables
  {
    var tree := if other == name then tables[name].tree[id := row'] else tables[other].tree;
    exists cid :: cid in tree && Proj(tree[cid], fk.columns) == key
  }

  /** A reference to anything but the old key of an updated row. */
  lemma HeldAfterUpdate(tables: Tables, name: string, id: nat, row': Row, next: nat, where_: string, slots: seq<nat>, key: Row)
    requires name in tables && id in tables[name].tree && Held(tables, where_, slots, key)
    requires where_ == name ==>
      || Proj(row', slots) == key || Proj(tables[name].tree[id], slots) != key
      || exists pid :: pid in tables[name].tree && pid != id && Proj(tables[name].tree[pid], slots) == key
    ensures Held(Stored(tables, name, id, row', next), where_, slots, key)
  {
    var tables' := Stored(tables, name, id, row', next);
    if where_ == name && Proj(row', slots) == key {
      assert tables'[name].tree[id] == row';
    } else {
      var pid :| pid in tables[where_].tree && (where_ == name ==> pid != id) && Proj(tables[where_].tree[pid], slots) == key;
      assert pid in tables'[where_].tree && tables'[where_].tree[pid] == tables[where_].tree[pid];
    }
  }

  /** The table's own constraints after an admissible row is stored. */
  lemma OwnConstraints(tables: Tables, name: string, id: nat, row: Row, next: nat)
    requires name in tables && TreeOK(tables[name]) && RowsOK(tables[name]) && UniqueOK(tables[name])
    requires Admissible(tables, name, row, id)
    requires id < next && tables[name].nextRowId <= next
    ensures var t := Stored(tables, name, id, row, next)[name]; TreeOK(t) && RowsOK(t) && UniqueOK(t)
  {
    var t, t' := tables[name], Stored(tables, name, id, row, next)[name];
    forall g, a, b | 0 <= g < |t.schema.unique| && a in t'.tree && b in t'.tree && a != b
      ensures Distinct(t'.tree[a], t'.tree[b], t.schema.unique[g])
    {
      if a == id {
        assert Distinct(row, t.tree[b], t.schema.unique[g]);
      } else if b == id {
        assert Distinct(row, t.tree[a], t.schema.unique[g]);
      } else {
        assert Distinct(t.tree[a], t.tree[b], t.schema.unique[g]);
      }
    }
  }

  /** One reference after an update that spares the old keys. */
  lemma ResolvesAfterUpdate(tables: Tables, name: string, id: nat, row': Row, n: string, f: nat, cid: nat)
    requires Consistent(tables) && name in tables && n in tables && id in tables[name].tree
    requires Admissible(tables, name, row', id) && Spares(tables, name, id, row')
    requires var t' := Stored(tables, name, id, row', tables[name].nextRowId)[n]; f < |t'.schema.foreignKeys| && cid in t'.tree
    ensures var tables' := Stored(tables, name, id, row', tables[name].nextRowId);
      Resolves(tables', tables'[n].schema.foreignKeys[f], tables'[n].tree[cid])
  {
    var next := tables[name].nextRowId;
    var tables' := Stored(tables, name, id, row', next);
    var fk, c := tables[n].schema.foreignKeys[f], tables'[n].tree[cid];
    var key := Proj(c, fk.columns);
    assert Resolves(tables, fk, c);
    if Null !in key {
      if fk.refTable == name {
        assert SparesKey(tables, name, id, row', n, fk);
        assert Asked(tables, name, id, row', n, fk, key);
      }
      HeldAfterUpdate(tables, name, id, row', next, fk.refTable, fk.refColumns, key);
    }
  }

  lemma UpdateKeeps(tables: Tables, name: string, id: nat, row': Row)
    requires Consistent(tables) && name in tables && id in tables[name].tree
    requires Admissible(tables, name, row', id) && Spares(tables, name, id, row')
    ensures Consistent(Stored(tables, name, id, row', tables[name].nextRowId))
  {
    var tables' := Stored(tables, name, id, row', tables[name].nextRowId);
    OwnConstraints(tables, name, id, row', tables[name].nextRowId);
    forall n | n in tables' ensures ForeignOK(tables', tables'[n]) {
      forall f, cid | 0 <= f < |tables'[n].schema.foreignKeys| && cid in tables'[n].tree
        ensures Resolves(tables', tables'[n].schema.foreignKeys[f], tables'[n].tree[cid])
      {
        ResolvesAfterUpdate(tables, name, id, row', n, f, cid);
      }
    }
  }

  /** An update that does not spare a key leaves a reference to it dangling. */
  lemma UnsparedDangles(tables: Tables, name: string, id: nat, row': Row, other: string, f: nat)
    requires name in tables && id in tables[name].tree && other in tables && f < |tables[other].schema.foreignKeys|
    requires tables[other].schema.foreignKeys[f].refTable == name
    requires !SparesKey(tables, name, id, row', other, tables[other].schema.foreignKeys[f])
    ensures !Consistent(Stored(tables, name, id, row', tables[name].nextRowId))
  {
    var tables' := Stored(tables, name, id, row', tables[name].nextRowId);
    var fk := tables[other].schema.foreignKeys[f];
    var key := Proj(tables[name].tree[id], fk.refColumns);
    var cid :| cid in tables'[other].tree && Proj(tables'[other].tree[cid], fk.columns) == key;
    assert !Held(tables', name, fk.refColumns, key);
    assert !Resolves(tables', tables'[other].schema.foreignKeys[f], tables'[other].tree[cid]);
    assert !ForeignOK(tables', tables'[other]);
  }

  /**
    UPDATE does not look at references to the row it changes. A row update that passes its checks
    keeps the database consistent if and only if it spares the references its old key satisfied.
  */
  lemma UpdateKeepsExactly(tables: Tables, name: string, id: nat, row': Row)
    requires Consistent(tables) && name in tables && id in tables[name].tree && Admissible(tables, name, row', id)
    ensures Consistent(Stored(tables, name, id, row', tables[name].nextRowId)) <==> Spares(tables, name, id, row')
  {
    if Spares(tables, name, id, row') {
      UpdateKeeps(tables, name, id, row');
    } else {
      var other, f :| other in tables && 0 <= f < |tables[other].schema.foreignKeys| &&
        tables[other].schema.foreignKeys[f].refTable == name &&
        !SparesKey(tables, name, id, row', other, tables[other].schema.foreignKeys[f]);
      UnsparedDangles(tables, name, id, row', other, f);
    }
  }

  // ---------------------------------------------------------------- deleting a row

  ghost function Removed(tables: Tables, name: string, id: nat): Tables
    requires name in tables
  {
    tables[name := tables[name].(tree := tables[name].tree - {id})]
  }

  /** No row refers to the one being deleted, as RESTRICT checks it. */
  lemma NotReferenced(db: Db, name: string, row: Row, other: string, f: nat, cid: nat)
    requires Auto(db) && TreesOK(db) && other in db.tables && !Referenced(db, name, row)
    requires f < |db.tables[other].schema.foreignKeys| && cid in db.tables[other].tree
    ensures var fk := db.tables[other].schema.foreignKeys[f];
      fk.refTable == name && Null !in Proj(row, fk.refColumns) ==>
      Proj(db.tables[other].tree[cid], fk.columns) != Proj(row, fk.refColumns)
  {
    var fk := db.tables[other].schema.foreignKeys[f];
    NoWrites(other);
    HoldsKeyIs(db.tables[other], fk.columns, Proj(row, fk.refColumns), None);
  }

  lemma ResolvesAfterDelete(db: Db, name: string, id: nat, n: string, f: nat, cid: nat)
    requires Auto(db) && Consistent(db.tables) && name in db.tables && id in db.tables[name].tree && n in db.tables
    requires !Referenced(db, name, db.tables[name].tree[id])
    requires f < |db.tables[n].schema.foreignKeys| && cid in db.tables[n].tree
    ensures Resolves(Removed(db.tables, name, id), db.tables[n].schema.foreignKeys[f], db.tables[n].tree[cid])
  {
    var fk, c := db.tables[n].schema.foreignKeys[f], db.tables[n].tree[cid];
    assert Resolves(db.tables, fk, c);
    NotReferenced(db, name, db.tables[name].tree[id], n, f, cid);
    if Null !in Proj(c, fk.columns) {
      var pid :| pid in db.tables[fk.refTable].tree && Proj(db.tables[fk.refTable].tree[pid], fk.refColumns) == Proj(c, fk.columns);
      assert pid in Removed(db.tables, name, id)[fk.refTable].tree;
    }
  }

  lemma DeleteKeeps(db: Db, name: string, id: nat)
    requires Auto(db) && Consistent(db.tables) && name in db.tables && id in db.tables[name].tree
    requires !Referenced(db, name, db.tables[name].tree[id])
    ensures Consistent(Removed(db.tables, name, id))
  {
    var tables' := Removed(db.tables, name, id);
    forall n | n in tables' ensures ForeignOK(tables', tables'[n]) {
      forall f, cid | 0 <= f < |tables'[n].schema.foreignKeys| && cid in tables'[n].tree
        ensures Resolves(tables', tables'[n].schema.foreignKeys[f], tables'[n].tree[cid])
      {
        ResolvesAfterDelete(db, name, id, n, f, cid);
      }
    }
  }

  // ---------------------------------------------------------------- INSERT

  lemma ProjSparesId(row: Row, id: nat, supplied: bool, slots: seq<nat>)
    requires supplied || 0 !in slots
    ensures Proj(WithId(row, id, supplied), slots) == Proj(row, slots)
  {
  }

  ghost predicate AllAdmissible(tables: Tables, name: string, rows: seq<Row>)
    requires name in tables
  {
    forall i :: 0 <= i < |rows| ==> Admissible(tables, name, rows[i], tables[name].nextRowId)
  }

  lemma {:induction false} CheckedBatch(db: Db, name: string, rows: seq<Row>, i: nat)
    requires name in db.tables && i <= |rows| && CheckBatch(db, name, rows, i).None?
    ensures forall k :: i <= k < |rows| ==>
      Enforce(db, name, rows[k], None).None? && !DuplicatesInBatch(db.tables[name].schema, rows, k)
    decreases |rows| - i
  {
    if i < |rows| {
      CheckedBatch(db, name, rows, i + 1);
    }
  }

  /** No two rows that passed the checks of one INSERT share a key. */
  lemma BatchApart(db: Db, name: string, rows: seq<Row>)
    requires name in db.tables && CheckBatch(db, name, rows, 0).None?
    ensures PairwiseDistinct(db.tables[name].schema.unique, rows)
  {
    CheckedBatch(db, name, rows, 0);
    forall g, i, j | 0 <= g < |db.tables[name].schema.unique| && 0 <= i < |rows| && 0 <= j < |rows| && i != j
      ensures Distinct(rows[i], rows[j], db.tables[name].schema.unique[g])
    {
      assert !DuplicatesInBatch(db.tables[name].schema, rows, i);
    }
  }

  /** Rows that passed the checks of one INSERT: each fits the table, and no two share a key. */
  lemma BatchIsOK(db: Db, name: string, rows: seq<Row>)
    requires Auto(db) && TreesOK(db) && name in db.tables && CheckBatch(db, name, rows, 0).None?
    ensures AllAdmissible(db.tables, name, rows) && PairwiseDistinct(db.tables[name].schema.unique, rows)
  {
    CheckedBatch(db, name, rows, 0);
    BatchApart(db, name, rows);
    forall i | 0 <= i < |rows| ensures Admissible(db.tables, name, rows[i], db.tables[name].nextRowId) {
      EnforcedIsAdmissible(db, name, rows[i], None, db.tables[name].nextRowId);
    }
  }

  /** The rows as they are stored: under the ids from `next` on, the implicit id filled in unless it was supplied. */
  ghost function Numbered(next: nat, rows: seq<Row>, supplied: bool): (r: seq<Row>)
    ensures |r| == |rows| && forall i :: 0 <= i < |rows| ==> r[i] == WithId(rows[i], next + i, supplied)
  {
    seq(|rows|, i requires 0 <= i < |rows| => WithId(rows[i], next + i, supplied))
  }

  lemma {:induction false} JoinedIsWithRows(tree: Tree, next: nat, rows: seq<Row>, supplied: bool)
    ensures Joined(tree, next, Numbered(next, rows, supplied)) == WithRows(tree, next, rows, supplied)
    decreases |rows|
  {
    if rows != [] {
      JoinedIsWithRows(tree[next := WithId(rows[0], next, supplied)], next + 1, rows[1..], supplied);
      assert Numbered(next, rows, supplied)[1..] == Numbered(next + 1, rows[1..], supplied);
    }
  }

  lemma {:induction false} InsertAllRows(db: Db, name: string, rows: seq<Row>, supplied: bool)
    requires !db.inTxn && name in db.tables
    ensures var t := db.tables[name];
      InsertAll(db, name, rows, supplied) == SetTable(db, name,
        t.(tree := WithRows(t.tree, t.nextRowId, rows, supplied), nextRowId := t.nextRowId + |rows|))
    decreases |rows|
  {
    if rows == [] {
      assert SetTable(db, name, db.tables[name]) == db;
    } else {
      InsertAllRows(InsertOne(db, name, rows[0], supplied), name, rows[1..], supplied);
    }
  }

  lemma InsertAllIs(db: Db, name: string, rows: seq<Row>, supplied: bool)
    requires !db.inTxn && name in db.tables
    ensures InsertAll(db, name, rows, supplied).tables ==
            WithBatch(db.tables, name, Numbered(db.tables[name].nextRowId, rows, supplied))
  {
    InsertAllRows(db, name, rows, supplied);
    JoinedIsWithRows(db.tables[name].tree, db.tables[name].nextRowId, rows, supplied);
  }

  /**
    What the checks could not see of a row whose id is filled in afterwards: its CHECKs, its keys in
    groups that name the id, and its references through the id.
  */
  ghost predicate FillsSafely(tables: Tables, name: string, news: seq<Row>, row: Row)
    requires name in tables
  {
    var t := tables[name];
    && FailedCheck(t.schema.checks, row).None?
    && (forall g :: 0 <= g < |t.schema.unique| && 0 in t.schema.unique[g] ==> KeyIsFree(t.tree, row, t.schema.unique[g]))
    && forall f :: 0 <= f < |t.schema.foreignKeys| && 0 in t.schema.foreignKeys[f].columns ==>
      ResolvesWith(tables, name, news, t.schema.foreignKeys[f], row)
  }

  lemma FilledValues(schema: Schema, row: Row, id: nat, supplied: bool)
    requires !MissesValue(schema, row)
    ensures !MissesValue(schema, WithId(row, id, supplied))
  {
    forall i | 0 <= i < |schema.notNull| ensures At(WithId(row, id, supplied), schema.notNull[i]) != Null {
      assert At(row, schema.notNull[i]) != Null;
    }
  }

  lemma SameKeyDistinct(a: Row, a': Row, b: Row, slots: seq<nat>)
    requires Proj(a, slots) == Proj(a', slots) && Distinct(a, b, slots)
    ensures Distinct(a', b, slots)
  {
  }

  /** A key the check did see is still free as the row is stored. */
  lemma SeenKey(tree: Tree, row: Row, row': Row, slots: seq<nat>)
    requires Proj(row, slots) == Proj(row', slots) && KeyIsFree(tree, row, slots)
    ensures KeyIsFree(tree, row', slots)
  {
    forall other | other in tree ensures Distinct(row', tree[other], slots) {
      SameKeyDistinct(row, row', tree[other], slots);
    }
  }

  /** A reference the check did see still resolves. */
  lemma SeenReference(tables: Tables, name: string, news: seq<Row>, fk: ForeignKey, row: Row, row': Row)
    requires Proj(row, fk.columns) == Proj(row', fk.columns) && Resolves(tables, fk, row)
    ensures ResolvesWith(tables, name, news, fk, row')
  {
  }

  lemma AdmissibleKeys(tables: Tables, name: string, row: Row)
    requires name in tables && TreeOK(tables[name]) && Admissible(tables, name, row, tables[name].nextRowId)
    ensures KeysAreFree(tables[name], row)
  {
    var t := tables[name];
    forall g, other | 0 <= g < |t.schema.unique| && other in t.tree ensures Distinct(row, t.tree[other], t.schema.unique[g]) {
      assert other != t.nextRowId;
    }
  }

  /** A checked row fits as stored exactly when filling in its id is safe; a row with its own id always does. */
  lemma FitsExactly(tables: Tables, name: string, news: seq<Row>, row: Row, id: nat, supplied: bool, row': Row)
    requires name in tables && TreeOK(tables[name]) && Admissible(tables, name, row, tables[name].nextRowId)
    requires row' == WithId(row, id, supplied)
    ensures Fits(tables, name, news, row') <==> supplied || FillsSafely(tables, name, news, row')
  {
    var t := tables[name];
    FilledValues(t.schema, row, id, supplied);
    AdmissibleKeys(tables, name, row);
    forall g | 0 <= g < |t.schema.unique| && (supplied || 0 !in t.schema.unique[g]) ensures KeyIsFree(t.tree, row', t.schema.unique[g]) {
      ProjSparesId(row, id, supplied, t.schema.unique[g]);
      SeenKey(t.tree, row, row', t.schema.unique[g]);
    }
    forall f | 0 <= f < |t.schema.foreignKeys| && (supplied || 0 !in t.schema.foreignKeys[f].columns)
      ensures ResolvesWith(tables, name, news, t.schema.foreignKeys[f], row')
    {
      ProjSparesId(row, id, supplied, t.schema.foreignKeys[f].columns);
      SeenReference(tables, name, news, t.schema.foreignKeys[f], row, row');
    }
  }

  /** Two ids filled in are different, so keys that name the id are. */
  lemma FilledDistinct(a: Row, b: Row, i: nat, j: nat, slots: seq<nat>)
    requires 0 in slots && i != j
    ensures Distinct(WithId(a, i, false), WithId(b, j, false), slots)
  {
    var a', b' := WithId(a, i, false), WithId(b, j, false);
    var k :| 0 <= k < |slots| && slots[k] == 0;
    assert Proj(a', slots)[k] == At(a', 0) && Proj(b', slots)[k] == At(b', 0);
  }

  lemma NumberedPair(a: Row, b: Row, i: nat, j: nat, supplied: bool, slots: seq<nat>)
    requires i != j && Distinct(a, b, slots)
    ensures Distinct(WithId(a, i, supplied), WithId(b, j, supplied), slots)
  {
    if supplied || 0 !in slots {
      ProjSparesId(a, i, supplied, slots);
      ProjSparesId(b, j, supplied, slots);
      SameKeysDistinct(a, b, WithId(a, i, supplied), WithId(b, j, supplied), slots);
    } else {
      FilledDistinct(a, b, i, j, slots);
    }
  }

  lemma NumberedDistinct(groups: seq<seq<nat>>, next: nat, rows: seq<Row>, supplied: bool)
    requires PairwiseDistinct(groups, rows)
    ensures PairwiseDistinct(groups, Numbered(next, rows, supplied))
  {
    var news := Numbered(next, rows, supplied);
    forall g, i, j | 0 <= g < |groups| && 0 <= i < |rows| && 0 <= j < |rows| && i != j ensures Distinct(news[i], news[j], groups[g]) {
      assert Distinct(rows[i], rows[j], groups[g]);
      NumberedPair(rows[i], rows[j], next + i, next + j, supplied, groups[g]);
      assert news[i] == WithId(rows[i], next + i, supplied) && news[j] == WithId(rows[j], next + j, supplied);
    }
  }

  lemma SameKeysDistinct(a: Row, b: Row, a': Row, b': Row, slots: seq<nat>)
    requires Distinct(a, b, slots) && Proj(a, slots) == Proj(a', slots) && Proj(b, slots) == Proj(b', slots)
    ensures Distinct(a', b', slots)
  {
  }

  ghost predicate AllFillSafely(tables: Tables, name: string, news: seq<Row>)
    requires name in tables
  {
    forall i :: 0 <= i < |news| ==> FillsSafely(tables, name, news, news[i])
  }

  lemma FitsAt(tables: Tables, name: string, rows: seq<Row>, supplied: bool, news: seq<Row>, i: nat)
    requires name in tables && TreeOK(tables[name]) && AllAdmissible(tables, name, rows) && i < |rows|
    requires news == Numbered(tables[name].nextRowId, rows, supplied)
    ensures Fits(tables, name, news, news[i]) <==> supplied || FillsSafely(tables, name, news, news[i])
  {
    FitsExactly(tables, name, news, rows[i], tables[name].nextRowId + i, supplied, news[i]);
  }

  lemma AllFitExactly(tables: Tables, name: string, rows: seq<Row>, supplied: bool, news: seq<Row>)
    requires name in tables && TreeOK(tables[name]) && AllAdmissible(tables, name, rows)
    requires news == Numbered(tables[name].nextRowId, rows, supplied)
    ensures AllFit(tables, name, news) <==> supplied || AllFillSafely(tables, name, news)
  {
    if supplied || AllFillSafely(tables, name, news) {
      forall i | 0 <= i < |news| ensures Fits(tables, name, news, news[i]) {
        FitsAt(tables, name, rows, supplied, news, i);
      }
    } else if AllFit(tables, name, news) {
      forall i | 0 <= i < |news| ensures FillsSafely(tables, name, news, news[i]) {
        FitsAt(tables, name, rows, supplied, news, i);
      }
    }
  }

  /**
    INSERT checks its rows before it fills in their ids. A batch that passed the checks keeps the
    database consistent if and only if the ids were supplied or filling in each is safe.
  */
  lemma InsertKeepsExactly(db: Db, name: string, rows: seq<Row>, supplied: bool)
    requires Auto(db) && Consistent(db.tables) && name in db.tables && CheckBatch(db, name, rows, 0).None?
    ensures Consistent(InsertAll(db, name, rows, supplied).tables) <==>
            supplied || AllFillSafely(db.tables, name, Numbered(db.tables[name].nextRowId, rows, supplied))
  {
    var next := db.tables[name].nextRowId;
    var news := Numbered(next, rows, supplied);
    BatchIsOK(db, name, rows);
    NumberedDistinct(db.tables[name].schema.unique, next, rows, supplied);
    AllFitExactly(db.tables, name, rows, supplied, news);
    StoredExactly(db, name, rows, supplied, news);
  }

  lemma StoredExactly(db: Db, name: string, rows: seq<Row>, supplied: bool, news: seq<Row>)
    requires !db.inTxn && Consistent(db.tables) && name in db.tables && news == Numbered(db.tables[name].nextRowId, rows, supplied)
    requires PairwiseDistinct(db.tables[name].schema.unique, news)
    ensures Consistent(InsertAll(db, name, rows, supplied).tables) <==> AllFit(db.tables, name, news)
  {
    InsertAllIs(db, name, rows, supplied);
    BatchExactly(db.tables, name, news);
  }

  // ---------------------------------------------------------------- UPDATE and DELETE

  /** The statement assigns no column that a foreign key refers to. */
  ghost predicate AssignsNoReferent(tables: Tables, name: string, assignments: seq<Assignment>) {
    forall other, f, i :: other in tables && 0 <= f < |tables[other].schema.foreignKeys| && 0 <= i < |assignments| ==>
      tables[other].schema.foreignKeys[f].refTable == name ==>
      assignments[i].slot == 0 || assignments[i].slot !in tables[other].schema.foreignKeys[f].refColumns
  }

  lemma {:induction false} AssignedSpares(row: Row, assignments: seq<Assignment>, slots: seq<nat>)
    requires Assigned(row, assignments).Ok?
    requires forall i :: 0 <= i < |assignments| ==> assignments[i].slot == 0 || assignments[i].slot !in slots
    ensures Proj(Assigned(row, assignments).value, slots) == Proj(row, slots)
    decreases |assignments|
  {
    if assignments != [] {
      var a, rest := assignments[0], assignments[1..];
      assert forall i :: 0 <= i < |rest| ==> rest[i] == assignments[i + 1];
      if a.slot == 0 {
        AssignedSpares(row, rest, slots);
      } else {
        AssignedSpares(row[a.slot := a.value], rest, slots);
        assert forall i :: 0 <= i < |slots| ==> At(row[a.slot := a.value], slots[i]) == At(row, slots[i]);
      }
    }
  }

  lemma NoReferentSpares(tables: Tables, name: string, id: nat, assignments: seq<Assignment>)
    requires name in tables && id in tables[name].tree && AssignsNoReferent(tables, name, assignments)
    requires Assigned(tables[name].tree[id], assignments).Ok?
    ensures Spares(tables, name, id, Assigned(tables[name].tree[id], assignments).value)
  {
    var row := tables[name].tree[id];
    forall other, f | other in tables && 0 <= f < |tables[other].schema.foreignKeys| && tables[other].schema.foreignKeys[f].refTable == name
      ensures SparesKey(tables, name, id, Assigned(row, assignments).value, other, tables[other].schema.foreignKeys[f])
    {
      AssignedSpares(row, assignments, tables[other].schema.foreignKeys[f].refColumns);
    }
  }

  /** What an autocommit row update or delete does to the tables. */
  lemma PutIs(db: Db, name: string, id: nat, v: Option<Row>)
    requires !db.inTxn && name in db.tables
    ensures Put(db, name, id, v) ==
      db.(tables := if v.Some? then Stored(db.tables, name, id, v.value, db.tables[name].nextRowId) else Removed(db.tables, name, id))
  {
  }

  lemma SameSchemas(tables: Tables, tables': Tables, name: string, assignments: seq<Assignment>)
    requires tables.Keys == tables'.Keys && forall n :: n in tables ==> tables'[n].schema == tables[n].schema
    requires AssignsNoReferent(tables, name, assignments)
    ensures AssignsNoReferent(tables', name, assignments)
  {
  }

  lemma UpdateOneKeeps(db: Db, name: string, id: nat, assignments: seq<Assignment>)
    requires Auto(db) && Consistent(db.tables) && name in db.tables && AssignsNoReferent(db.tables, name, assignments)
    ensures var db' := UpdateOne(db, name, id, assignments).0;
      Auto(db') && Consistent(db'.tables) && AssignsNoReferent(db'.tables, name, assignments)
  {
    NoWrites(name);
    if id in db.tables[name].tree {
      var row := Assigned(db.tables[name].tree[id], assignments);
      if row.Ok? && Enforce(db, name, row.value, Some(id)).None? {
        EnforcedIsAdmissible(db, name, row.value, Some(id), id);
        NoReferentSpares(db.tables, name, id, assignments);
        UpdateKeepsExactly(db.tables, name, id, row.value);
        PutIs(db, name, id, Some(row.value));
        SameSchemas(db.tables, Put(db, name, id, Some(row.value)).tables, name, assignments);
      }
    }
  }

  lemma {:induction false} UpdateAllKeeps(db: Db, name: string, ids: seq<nat>, assignments: seq<Assignment>)
    requires Auto(db) && Consistent(db.tables) && name in db.tables && AssignsNoReferent(db.tables, name, assignments)
    ensures Consistent(UpdateAll(db, name, ids, assignments).0.tables)
    decreases |ids|
  {
    if ids != [] {
      UpdateOneKeeps(db, name, ids[0], assignments);
      var (mid, r) := UpdateOne(db, name, ids[0], assignments);
      if r.Ok? {
        UpdateAllKeeps(mid, name, ids[1..], assignments);
      }
    }
  }

  lemma DeleteOneKeeps(db: Db, name: string, id: nat)
    requires Auto(db) && Consistent(db.tables) && name in db.tables
    ensures Auto(DeleteOne(db, name, id).0) && Consistent(DeleteOne(db, name, id).0.tables)
  {
    NoWrites(name);
    if id in db.tables[name].tree && !Referenced(db, name, db.tables[name].tree[id]) {
      DeleteKeeps(db, name, id);
      PutIs(db, name, id, None);
    }
  }

  lemma {:induction false} DeleteAllKeeps(db: Db, name: string, ids: seq<nat>)
    requires Auto(db) && Consistent(db.tables) && name in db.tables
    ensures Consistent(DeleteAll(db, name, ids).0.tables)
    decreases |ids|
  {
    if ids != [] {
      DeleteOneKeeps(db, name, ids[0]);
      var (mid, r) := DeleteOne(db, name, ids[0]);
      if r.Ok? {
        DeleteAllKeeps(mid, name, ids[1..]);
      }
    }
  }

  // ---------------------------------------------------------------- every run

  /** The CHECK gives the same answer whatever the implicit id is. */
  ghost predicate IgnoresId(check: Filter) {
    forall row, id :: check(WithId(row, id, false)) == check(row)
  }

  /** No UNIQUE group, CHECK or referring side looks at the id. */
  ghost predicate IdUnseen(schema: Schema) {
    && (forall g :: 0 <= g < |schema.unique| ==> 0 !in schema.unique[g])
    && (forall c :: 0 <= c < |schema.checks| ==> IgnoresId(schema.checks[c]))
    && (forall f :: 0 <= f < |schema.foreignKeys| ==> 0 !in schema.foreignKeys[f].columns)
  }

  /** Filling in ids cannot break a constraint: an INSERT that leaves the id out is refused, or no constraint looks at it. */
  ghost predicate IdSafe(schema: Schema) {
    0 in schema.notNull || IdUnseen(schema)
  }

  ghost predicate AllIdSafe(tables: Tables) {
    forall n :: n in tables ==> IdSafe(tables[n].schema)
  }

  lemma {:induction false} ChecksIgnoreId(checks: seq<Filter>, row: Row, id: nat)
    requires forall c :: 0 <= c < |checks| ==> IgnoresId(checks[c])
    ensures FailedCheck(checks, WithId(row, id, false)) == FailedCheck(checks, row)
    decreases |checks|
  {
    if checks != [] {
      assert IgnoresId(checks[0]);
      ChecksIgnoreId(checks[1..], row, id);
    }
  }

  /** A column that is not named is left as it was. */
  lemma {:induction false} UnfilledAt(row: Row, cols: seq<nat>, vals: Row, slot: nat)
    requires |cols| == |vals| && (forall i :: 0 <= i < |cols| ==> cols[i] < |row|) && slot < |row| && slot !in cols
    ensures Filled(row, cols, vals)[slot] == row[slot]
    decreases |cols|
  {
    if cols != [] {
      UnfilledAt(row[cols[0] := vals[0]], cols[1..], vals[1..], slot);
    }
  }

  lemma {:induction false} CandidateWithoutId(width: nat, cols: seq<nat>, values: seq<Row>, i: nat)
    requires (forall k :: 0 <= k < |cols| ==> cols[k] < width) && (forall k :: 0 <= k < |values| ==> |values[k]| == |cols|)
    requires 0 !in cols && i < |values|
    ensures At(Candidates(width, cols, values)[i], 0) == Null
    decreases |values|
  {
    if i > 0 {
      CandidateWithoutId(width, cols, values[1..], i - 1);
    } else if width > 0 {
      UnfilledAt(Nulls(width), cols, values[0], 0);
    }
  }

  /** With such a schema an INSERT that leaves the id out passes its checks only if no constraint looks at it. */
  lemma LeftOutIsUnseen(db: Db, name: string, columns: seq<nat>, values: seq<Row>, i: nat)
    requires PlanInsert(db, name, columns, values).Ok? && i < |values|
    requires name in db.tables && IdSafe(db.tables[name].schema) && !PlanInsert(db, name, columns, values).value.1
    ensures IdUnseen(db.tables[name].schema)
  {
    var t, rows := db.tables[name], PlanInsert(db, name, columns, values).value.0;
    PlannedRows(db, name, columns, values);
    CheckedBatch(db, name, rows, 0);
    assert Enforce(db, name, rows[i], None).None?;
    CandidateWithoutId(t.schema.width, TargetSlots(columns, t.schema.width), values, i);
    if 0 in t.schema.notNull {
      NoIdIsMissed(t.schema, rows[i]);
    }
  }

  /** So every such INSERT fills in its ids safely. */
  lemma IdSafeFills(db: Db, name: string, columns: seq<nat>, values: seq<Row>, i: nat)
    requires Auto(db) && Consistent(db.tables) && PlanInsert(db, name, columns, values).Ok? && i < |values|
    requires name in db.tables && IdSafe(db.tables[name].schema) && !PlanInsert(db, name, columns, values).value.1
    ensures var rows := PlanInsert(db, name, columns, values).value.0;
      var news := Numbered(db.tables[name].nextRowId, rows, false);
      i < |news| && FillsSafely(db.tables, name, news, news[i])
  {
    var t, rows := db.tables[name], PlanInsert(db, name, columns, values).value.0;
    PlannedRows(db, name, columns, values);
    BatchIsOK(db, name, rows);
    assert Admissible(db.tables, name, rows[i], t.nextRowId);
    LeftOutIsUnseen(db, name, columns, values, i);
    ChecksIgnoreId(t.schema.checks, rows[i], t.nextRowId + i);
  }

  lemma NoIdIsMissed(schema: Schema, row: Row)
    requires 0 in schema.notNull && At(row, 0) == Null
    ensures MissesValue(schema, row)
  {
    var i :| 0 <= i < |schema.notNull| && schema.notNull[i] == 0;
    assert At(row, schema.notNull[i]) == Null;
  }

  lemma InsertKeeps(db: Db, name: string, columns: seq<nat>, values: seq<Row>)
    requires Auto(db) && Consistent(db.tables) && (name in db.tables ==> IdSafe(db.tables[name].schema))
    ensures Consistent(RunInsert(db, name, columns, values).0.tables)
  {
    var plan := PlanInsert(db, name, columns, values);
    if plan.Ok? {
      var (rows, supplied) := plan.value;
      PlannedRows(db, name, columns, values);
      InsertKeepsExactly(db, name, rows, supplied);
      if !supplied {
        var news := Numbered(db.tables[name].nextRowId, rows, false);
        forall i | 0 <= i < |news| ensures FillsSafely(db.tables, name, news, news[i]) {
          IdSafeFills(db, name, columns, values, i);
        }
      }
    }
  }

  ghost predicate Safe(db: Db, stmt: Statement) {
    IsQuery(stmt) && (stmt.Update? ==> AssignsNoReferent(db.tables, stmt.table, stmt.assignments))
  }

  /** A statement leaves the database consistent, whether it succeeds or fails partway. */
  lemma StatementKeeps(db: Db, stmt: Statement)
    requires Auto(db) && Consistent(db.tables) && AllIdSafe(db.tables) && Safe(db, stmt)
    ensures Consistent(Execute(db, stmt).0.tables)
  {
    match stmt
    case Insert(name, cols, values) => InsertKeeps(db, name, cols, values);
    case Update(name, filter, assignments) =>
      var ids := Matching(db, name, filter);
      if ids.Ok? {
        UpdateAllKeeps(db, name, ids.value, assignments);
      }
    case Delete(name, filter) =>
      var ids := Matching(db, name, filter);
      if ids.Ok? {
        DeleteAllKeeps(db, name, ids.value);
      }
    case Select(_) =>
  }

  ghost function RunAll(db: Db, stmts: seq<Statement>): Db {
    if stmts == [] then db else Execute(RunAll(db, stmts[..|stmts| - 1]), stmts[|stmts| - 1]).0
  }

  /**
    In every state reached by autocommit statements, including after one that failed partway,
    every NOT NULL, UNIQUE, PRIMARY KEY, CHECK and FOREIGN KEY constraint holds in every table.
  */
  lemma {:induction false} ConstraintsAlwaysHold(db: Db, stmts: seq<Statement>)
    requires Auto(db) && Consistent(db.tables) && AllIdSafe(db.tables)
    requires forall k :: 0 <= k < |stmts| ==> Safe(db, stmts[k])
    ensures Auto(RunAll(db, stmts)) && Consistent(RunAll(db, stmts).tables)
    ensures RunAll(db, stmts).tables.Keys == db.tables.Keys
    ensures forall n :: n in db.tables ==> RunAll(db, stmts).tables[n].schema == db.tables[n].schema
  {
    if stmts != [] {
      var n := |stmts| - 1;
      ConstraintsAlwaysHold(db, stmts[..n]);
      var mid := RunAll(db, stmts[..n]);
      assert Safe(db, stmts[n]);
      if stmts[n].Update? {
        SameSchemas(db.tables, mid.tables, stmts[n].table, stmts[n].assignments);
      }
      StatementKeeps(mid, stmts[n]);
      QueryConfined(mid, stmts[n]);
    }
  }

  // ---------------------------------------------------------------- an update that orphans a reference

  const PARENT: Table := Table(Schema(2, [], [[1]], [], []), map[0 := [Int(0), Int(7)]], 1, Store(map[], 0))
  const CHILD: Table := Table(Schema(2, [], [], [], [ForeignKey([1], "p", [1])]), map[0 := [Int(0), Int(7)]], 1, Store(map[], 0))

  ghost function Family(): Db {
    Db(map["p" := PARENT, "c" := CHILD], false, [], map[])
  }

  lemma FamilyForeign()
    ensures ForeignOK(Family().tables, PARENT) && ForeignOK(Family().tables, CHILD)
  {
    var tables := Family().tables;
    assert Proj([Int(0), Int(7)], [1]) == [Int(7)];
    assert Held(tables, "p", [1], [Int(7)]) by {
      assert 0 in tables["p"].tree;
    }
  }

  lemma FamilyOwn(t: Table)
    requires t == PARENT || t == CHILD
    ensures TreeOK(t) && RowsOK(t) && UniqueOK(t) && IdSafe(t.schema)
  {
  }

  lemma FamilyConsistent()
    ensures Consistent(Family().tables) && AllIdSafe(Family().tables)
  {
    FamilyForeign();
    FamilyOwn(PARENT);
    FamilyOwn(CHILD);
  }

  lemma FamilyUpdated()
    ensures UpdateOne(Family(), "p", 0, [Assignment(1, Int(8))]) ==
            (Family().(tables := Stored(Family().tables, "p", 0, [Int(0), Int(8)], 1)), Ok(()))
  {
    var row, row' := [Int(0), Int(7)], [Int(0), Int(8)];
    assert [Assignment(1, Int(8))][1..] == [];
    assert Assigned(row', []) == Ok(row') && row[1 := Int(8)] == row';
    assert Assigned(row, [Assignment(1, Int(8))]) == Ok(row');
    NoWrites("p");
    assert LiveRow(Family(), "p", 0) == Some(row);
    assert Enforce(Family(), "p", row', Some(0)).None?;
    PutIs(Family(), "p", 0, Some(row'));
  }

  lemma FamilyUnspared()
    ensures !SparesKey(Family().tables, "p", 0, [Int(0), Int(8)], "c", ForeignKey([1], "p", [1]))
  {
    var tables := Family().tables;
    assert Proj([Int(0), Int(7)], [1]) == [Int(7)] && Proj([Int(0), Int(8)], [1]) == [Int(8)];
    assert Asked(tables, "p", 0, [Int(0), Int(8)], "c", ForeignKey([1], "p", [1]), [Int(7)]) by {
      assert 0 in tables["c"].tree;
    }
  }

  /** UPDATE p SET column 1 = 8. */
  ghost function Rekey(): Statement {
    Update("p", _ => Ok(true), [Assignment(1, Int(8))])
  }

  lemma FamilyRekeyed()
    ensures Execute(Family(), Rekey()) == (UpdateOne(Family(), "p", 0, [Assignment(1, Int(8))]).0, Ok(Count(1)))
  {
    var filter := Rekey().filter;
    NoWrites("p");
    assert Live(PARENT.tree, map[], 0) == Some([Int(0), Int(7)]);
    assert MatchingFrom(PARENT, map[], filter, 1, [0]) == Ok([0]);
    assert [] + [0] == [0];
    assert filter([Int(0), Int(7)]) == Ok(true);
    assert MatchingFrom(PARENT, map[], filter, 0, []) == Ok([0]);
    assert Family().tables["p"] == PARENT && WritesFor(Family().active, "p") == map[];
    assert Matching(Family(), "p", filter) == Ok([0]);
    FamilyUpdated();
    var mid := UpdateOne(Family(), "p", 0, [Assignment(1, Int(8))]).0;
    assert [0][1..] == [];
    assert UpdateAll(mid, "p", [], [Assignment(1, Int(8))]) == (mid, Ok(()));
  }

  /** An UPDATE of a referenced key passes every check and leaves the reference dangling. */
  lemma UpdateCanOrphan()
    ensures Consistent(Family().tables) && AllIdSafe(Family().tables)
    ensures Execute(Family(), Rekey()).1 == Ok(Count(1)) && !Consistent(Execute(Family(), Rekey()).0.tables)
  {
    FamilyConsistent();
    FamilyRekeyed();
    FamilyUpdated();
    FamilyUnspared();
    UnsparedDangles(Family().tables, "p", 0, [Int(0), Int(8)], "c", 0);
  }

  // ---------------------------------------------------------------- inserts that break a constraint on the id

  ghost function OneTable(tree: Tree, unique: seq<seq<nat>>, foreignKeys: seq<ForeignKey>): Db {
    Db(map["t" := Table(Schema(2, [], unique, [], foreignKeys), tree, 1, Store(map[], 0))], false, [], map[])
  }

  const NEWCOMER: Row := [Null, Int(20)]

  /** What INSERT INTO t (column 1) VALUES (20) stores, if it passes the checks. */
  lemma NewcomerPlanned(db: Db)
    requires "t" in db.tables && db.tables["t"].schema.width == 2 && !db.inTxn && CheckBatch(db, "t", [NEWCOMER], 0).None?
    ensures RunInsert(db, "t", [1], [[Int(20)]]) == (InsertAll(db, "t", [NEWCOMER], false), Ok(Count(1)))
  {
    assert Nulls(1) == [Null];
    assert Nulls(2) == [Null, Null];
    assert [Null, Null][1 := Int(20)] == NEWCOMER;
    assert [1][1..] == [] && [Int(20)][1..] == [];
    assert Filled(Nulls(2), [1], [Int(20)]) == Filled(NEWCOMER, [], []) == NEWCOMER;
    assert [[Int(20)]][1..] == [];
    assert Candidates(2, [1], [[Int(20)]]) == [NEWCOMER];
  }

  /** A row whose id is NULL has no key in a group that names it. */
  lemma NewcomerUnkeyed()
    ensures Null in Proj(NEWCOMER, [0])
  {
    assert Proj(NEWCOMER, [0])[0] == Null;
  }

  lemma NewcomerPasses(db: Db)
    requires "t" in db.tables && Enforce(db, "t", NEWCOMER, None).None?
    ensures CheckBatch(db, "t", [NEWCOMER], 0).None?
  {
    assert !DuplicatesInBatch(db.tables["t"].schema, [NEWCOMER], 0);
    assert CheckBatch(db, "t", [NEWCOMER], 1).None?;
  }

  /** If filling in the newcomer's id is not safe, the INSERT succeeds and breaks a constraint. */
  lemma UnsafeNewcomer(db: Db)
    requires Auto(db) && Consistent(db.tables) && "t" in db.tables && db.tables["t"].schema.width == 2
    requires Enforce(db, "t", NEWCOMER, None).None? && !FillsSafely(db.tables, "t", Numbered(db.tables["t"].nextRowId, [NEWCOMER], false), WithId(NEWCOMER, db.tables["t"].nextRowId, false))
    ensures var (db', r) := RunInsert(db, "t", [1], [[Int(20)]]); r.Ok? && !Consistent(db'.tables)
  {
    NewcomerPasses(db);
    NewcomerPlanned(db);
    InsertKeepsExactly(db, "t", [NEWCOMER], false);
    assert Numbered(db.tables["t"].nextRowId, [NEWCOMER], false)[0] == WithId(NEWCOMER, db.tables["t"].nextRowId, false);
  }

  /**
    With UNIQUE on the id: the NULL id passes the check and is then filled in with a number some
    row already has.
  */
  lemma FilledIdCanCollide()
    ensures var db := OneTable(map[0 := [Int(1), Int(10)]], [[0]], []);
      && Consistent(db.tables)
      && RunInsert(db, "t", [1], [[Int(20)]]).1.Ok? && !Consistent(RunInsert(db, "t", [1], [[Int(20)]]).0.tables)
  {
    var db := OneTable(map[0 := [Int(1), Int(10)]], [[0]], []);
    var t := db.tables["t"];
    NewcomerUnkeyed();
    assert Enforce(db, "t", NEWCOMER, None).None?;
    var row := WithId(NEWCOMER, 1, false);
    assert Proj(row, [0]) == [Int(1)] == Proj(t.tree[0], [0]);
    assert !KeyIsFree(t.tree, row, t.schema.unique[0]) by {
      assert !Distinct(row, t.tree[0], [0]);
    }
    UnsafeNewcomer(db);
  }

  /** With a foreign key on the id: the NULL id is not looked up, and then refers to a key no row has. */
  lemma FilledIdCanDangle()
    ensures var db := OneTable(map[], [], [ForeignKey([0], "t", [1])]);
      && Consistent(db.tables)
      && RunInsert(db, "t", [1], [[Int(20)]]).1.Ok? && !Consistent(RunInsert(db, "t", [1], [[Int(20)]]).0.tables)
  {
    var fk := ForeignKey([0], "t", [1]);
    var db := OneTable(map[], [], [fk]);
    var t := db.tables["t"];
    NewcomerUnkeyed();
    assert Enforce(db, "t", NEWCOMER, None).None?;
    var row := WithId(NEWCOMER, 1, false);
    assert Proj(row, [0]) == [Int(1)] && Proj(row, [1]) == [Int(20)];
    assert !ResolvesWith(db.tables, "t", Numbered(1, [NEWCOMER], false), t.schema.foreignKeys[0], row);
    UnsafeNewcomer(db);
  }
}
