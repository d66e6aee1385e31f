/** When publishing buffered writes keeps the constraints, as a condition on the rows written. */
module MergeProofs {
  import opened Values
  import opened RelationalModel
  import opened SessionProofs
  import opened SessionRuns
  import opened Integrity
  import opened TransactionViews

  // ---------------------------------------------------------------- written rows

  /** The writes store a row under `id`. */
  ghost predicate Stores(writes: Writes, id: nat) {
    id in writes && writes[id].Some?
  }

  /** The writes neither replace nor delete the row. */
  ghost predicate LeftAlone(tree: Tree, writes: Writes, id: nat) {
    id in tree && id !in writes
  }

  /** The rows stored satisfy NOT NULL and CHECK. */
  ghost predicate StoredAcceptable(schema: Schema, writes: Writes) {
    forall id :: Stores(writes, id) ==> Acceptable(schema, writes[id].value)
  }

  /** No two of the rows stored share a key. */
  ghost predicate StoredApart(schema: Schema, writes: Writes) {
    forall g, id, other :: 0 <= g < |schema.unique| && Stores(writes, id) && Stores(writes, other) && id != other ==>
      Distinct(writes[id].value, writes[other].value, schema.unique[g])
  }

  ghost predicate BufferOK(schema: Schema, writes: Writes) {
    StoredAcceptable(schema, writes) && StoredApart(schema, writes)
  }

  /** No row stored shares a key with a row left alone. */
  ghost predicate KeysSpared(t: Table, writes: Writes) {
    forall g, id, other :: 0 <= g < |t.schema.unique| && Stores(writes, id) && LeftAlone(t.tree, writes, other) ==>
      Distinct(writes[id].value, t.tree[other], t.schema.unique[g])
  }

  ghost predicate KeptKey(t: Table, writes: Writes, slots: seq<nat>, key: Row) {
    exists id :: LeftAlone(t.tree, writes, id) && Proj(t.tree[id], slots) == key
  }

  ghost predicate StoredKey(writes: Writes, slots: seq<nat>, key: Row) {
    exists id :: Stores(writes, id) && Proj(writes[id].value, slots) == key
  }

  /** The key is that of a row the writes replace or delete. */
  ghost predicate LostKey(t: Table, writes: Writes, slots: seq<nat>, key: Row) {
    exists id :: id in t.tree && id in writes && Proj(t.tree[id], slots) == key
  }

  /** A row left alone or one stored has the key. */
  ghost predicate HeldAfter(tables: Tables, active: seq<Named>, name: string, slots: seq<nat>, key: Row) {
    && name in tables
    && (KeptKey(tables[name], WritesFor(active, name), slots, key) || StoredKey(WritesFor(active, name), slots, key))
  }

  /** Every reference of a row stored is to a row left alone or stored. */
  ghost predicate StoredResolve(tables: Tables, active: seq<Named>, name: string)
    requires name in tables
  {
    var schema, writes := tables[name].schema, WritesFor(active, name);
    forall f, id :: 0 <= f < |schema.foreignKeys| && Stores(writes, id) && Null !in Proj(writes[id].value, schema.foreignKeys[f].columns) ==>
      HeldAfter(tables, active, schema.foreignKeys[f].refTable, schema.foreignKeys[f].refColumns, Proj(writes[id].value, schema.foreignKeys[f].columns))
  }

  /** The row that held the key is replaced or deleted, and no other row has the key. */
  ghost predicate TakenAway(tables: Tables, active: seq<Named>, name: string, slots: seq<nat>, key: Row) {
    name in tables && LostKey(tables[name], WritesFor(active, name), slots, key) && !HeldAfter(tables, active, name, slots, key)
  }

  /** No row left alone refers to a key that is taken away. */
  ghost predicate ReferentsSpared(tables: Tables, active: seq<Named>, name: string)
    requires name in tables
  {
    var t, writes := tables[name], WritesFor(active, name);
    forall f, id :: 0 <= f < |t.schema.foreignKeys| && LeftAlone(t.tree, writes, id) && Null !in Proj(t.tree[id], t.schema.foreignKeys[f].columns) ==>
      !TakenAway(tables, active, t.schema.foreignKeys[f].refTable, t.schema.foreignKeys[f].refColumns, Proj(t.tree[id], t.schema.foreignKeys[f].columns))
  }

  /** What the checks of a transaction cannot see of rows published by others. */
  ghost predicate MergesCleanly(tables: Tables, active: seq<Named>) {
    forall n :: n in tables ==>
      KeysSpared(tables[n], WritesFor(active, n)) && StoredResolve(tables, active, n) && ReferentsSpared(tables, active, n)
  }

  ghost predicate AllBuffersOK(tables: Tables, active: seq<Named>) {
    forall n :: n in tables ==> BufferOK(tables[n].schema, WritesFor(active, n))
  }

  // ---------------------------------------------------------------- one table

  lemma MergedAt(t: Table, writes: Writes, id: nat)
    ensures var tree := SeenTable(t, writes).tree;
      && (id in tree <==> LeftAlone(t.tree, writes, id) || Stores(writes, id))
      && (LeftAlone(t.tree, writes, id) ==> tree[id] == t.tree[id])
      && (Stores(writes, id) ==> tree[id] == writes[id].value)
  {
    assert id in Applied(t.tree, writes) <==> Live(t.tree, writes, id).Some?;
  }

  lemma MergedRows(t: Table, writes: Writes)
    requires TreeOK(t) && RowsOK(t) && StoredAcceptable(t.schema, writes) && forall id :: id in writes ==> id < t.nextRowId
    ensures TreeOK(SeenTable(t, writes)) && RowsOK(SeenTable(t, writes))
  {
    forall id | id in SeenTable(t, writes).tree ensures id < t.nextRowId && Acceptable(t.schema, SeenTable(t, writes).tree[id]) {
      MergedAt(t, writes, id);
    }
  }

  lemma MergedPair(t: Table, writes: Writes, g: nat, id: nat, other: nat)
    requires UniqueOK(t) && StoredApart(t.schema, writes) && KeysSpared(t, writes) && g < |t.schema.unique| && id != other
    requires id in SeenTable(t, writes).tree && other in SeenTable(t, writes).tree
    ensures Distinct(SeenTable(t, writes).tree[id], SeenTable(t, writes).tree[other], t.schema.unique[g])
  {
    MergedAt(t, writes, id);
    MergedAt(t, writes, other);
    if Stores(writes, other) && LeftAlone(t.tree, writes, id) {
      DistinctEitherWay(writes[other].value, t.tree[id], t.schema.unique[g]);
    }
  }

  lemma MergedUnique(t: Table, writes: Writes)
    requires UniqueOK(t) && StoredApart(t.schema, writes)
    ensures UniqueOK(SeenTable(t, writes)) <==> KeysSpared(t, writes)
  {
    var u := SeenTable(t, writes);
    if KeysSpared(t, writes) {
      forall g, id, other | 0 <= g < |u.schema.unique| && id in u.tree && other in u.tree && id != other
        ensures Distinct(u.tree[id], u.tree[other], u.schema.unique[g])
      {
        MergedPair(t, writes, g, id, other);
      }
    }
    if UniqueOK(u) {
      forall g, id, other | 0 <= g < |t.schema.unique| && Stores(writes, id) && LeftAlone(t.tree, writes, other)
        ensures Distinct(writes[id].value, t.tree[other], t.schema.unique[g])
      {
        MergedAt(t, writes, id);
        MergedAt(t, writes, other);
        assert Distinct(u.tree[id], u.tree[other], u.schema.unique[g]);
      }
    }
  }

  // ---------------------------------------------------------------- references

  lemma MergedHeld(tables: Tables, active: seq<Named>, name: string, slots: seq<nat>, key: Row)
    ensures Held(SeenTables(tables, active), name, slots, key) <==> HeldAfter(tables, active, name, slots, key)
  {
    if name in tables {
      var t, writes := tables[name], WritesFor(active, name);
      var tree := SeenTable(t, writes).tree;
      forall id: nat
        ensures id in tree && Proj(tree[id], slots) == key <==>
                (LeftAlone(t.tree, writes, id) && Proj(t.tree[id], slots) == key) || (Stores(writes, id) && Proj(writes[id].value, slots) == key)
      {
        MergedAt(t, writes, id);
      }
    }
  }

  /** A key that some row held is still held unless it is taken away. */
  lemma KeptOrTaken(tables: Tables, active: seq<Named>, name: string, slots: seq<nat>, key: Row)
    requires Held(tables, name, slots, key)
    ensures HeldAfter(tables, active, name, slots, key) || TakenAway(tables, active, name, slots, key)
  {
    var t, writes := tables[name], WritesFor(active, name);
    var id :| id in t.tree && Proj(t.tree[id], slots) == key;
    if id !in writes {
      assert LeftAlone(t.tree, writes, id);
    }
  }

  /** The reference of a merged row resolves exactly when its key is held afterwards. */
  lemma MergedResolves(tables: Tables, active: seq<Named>, fk: ForeignKey, row: Row)
    ensures Resolves(SeenTables(tables, active), fk, row) <==>
            (Null !in Proj(row, fk.columns) ==> HeldAfter(tables, active, fk.refTable, fk.refColumns, Proj(row, fk.columns)))
  {
    MergedHeld(tables, active, fk.refTable, fk.refColumns, Proj(row, fk.columns));
  }

  lemma MergedReference(tables: Tables, active: seq<Named>, name: string, f: nat, id: nat)
    requires name in tables && ForeignOK(tables, tables[name]) && StoredResolve(tables, active, name) && ReferentsSpared(tables, active, name)
    requires f < |tables[name].schema.foreignKeys| && id in SeenTables(tables, active)[name].tree
    ensures Resolves(SeenTables(tables, active), tables[name].schema.foreignKeys[f], SeenTables(tables, active)[name].tree[id])
  {
    var t, writes, fk := tables[name], WritesFor(active, name), tables[name].schema.foreignKeys[f];
    var row := SeenTables(tables, active)[name].tree[id];
    MergedAt(t, writes, id);
    MergedResolves(tables, active, fk, row);
    if LeftAlone(t.tree, writes, id) && Null !in Proj(row, fk.columns) {
      assert Resolves(tables, fk, t.tree[id]);
      KeptOrTaken(tables, active, fk.refTable, fk.refColumns, Proj(row, fk.columns));
    }
  }

  lemma ResolvedNeeds(tables: Tables, active: seq<Named>, name: string)
    requires name in tables && ForeignOK(SeenTables(tables, active), SeenTables(tables, active)[name])
    ensures StoredResolve(tables, active, name) && ReferentsSpared(tables, active, name)
  {
    var t, writes, seen := tables[name], WritesFor(active, name), SeenTables(tables, active);
    forall f, id: nat | 0 <= f < |t.schema.foreignKeys| && Stores(writes, id) && Null !in Proj(writes[id].value, t.schema.foreignKeys[f].columns)
      ensures HeldAfter(tables, active, t.schema.foreignKeys[f].refTable, t.schema.foreignKeys[f].refColumns, Proj(writes[id].value, t.schema.foreignKeys[f].columns))
    {
      MergedAt(t, writes, id);
      MergedResolves(tables, active, t.schema.foreignKeys[f], writes[id].value);
      assert Resolves(seen, seen[name].schema.foreignKeys[f], seen[name].tree[id]);
    }
    forall f, id: nat | 0 <= f < |t.schema.foreignKeys| && LeftAlone(t.tree, writes, id) && Null !in Proj(t.tree[id], t.schema.foreignKeys[f].columns)
      ensures HeldAfter(tables, active, t.schema.foreignKeys[f].refTable, t.schema.foreignKeys[f].refColumns, Proj(t.tree[id], t.schema.foreignKeys[f].columns))
    {
      MergedAt(t, writes, id);
      MergedResolves(tables, active, t.schema.foreignKeys[f], t.tree[id]);
      assert Resolves(seen, seen[name].schema.foreignKeys[f], seen[name].tree[id]);
    }
  }

  lemma MergedForeign(tables: Tables, active: seq<Named>, name: string)
    requires name in tables && ForeignOK(tables, tables[name])
    ensures ForeignOK(SeenTables(tables, active), SeenTables(tables, active)[name]) <==>
            StoredResolve(tables, active, name) && ReferentsSpared(tables, active, name)
  {
    var seen := SeenTables(tables, active);
    if ForeignOK(seen, seen[name]) {
      ResolvedNeeds(tables, active, name);
    }
    if StoredResolve(tables, active, name) && ReferentsSpared(tables, active, name) {
      forall f, id | 0 <= f < |seen[name].schema.foreignKeys| && id in seen[name].tree
        ensures Resolves(seen, seen[name].schema.foreignKeys[f], seen[name].tree[id])
      {
        MergedReference(tables, active, name, f, id);
      }
    }
  }

  // ---------------------------------------------------------------- all tables

  lemma MergedTable(tables: Tables, active: seq<Named>, name: string)
    requires Consistent(tables) && ActiveOK(tables, active) && AllBuffersOK(tables, active) && name in tables
    ensures var seen := SeenTables(tables, active);
      (TreeOK(seen[name]) && RowsOK(seen[name]) && UniqueOK(seen[name]) && ForeignOK(seen, seen[name])) <==>
      (KeysSpared(tables[name], WritesFor(active, name)) && StoredResolve(tables, active, name) && ReferentsSpared(tables, active, name))
  {
    WritesKnown(tables, active, name);
    MergedRows(tables[name], WritesFor(active, name));
    MergedUnique(tables[name], WritesFor(active, name));
    MergedForeign(tables, active, name);
  }

  /**
    Writes whose rows are acceptable and apart from one another can be merged into consistent tables
    if and only if no row stored shares a key with a row left alone, every reference of a row stored
    is to a row left alone or stored, and no row left alone refers to a key that is taken away.
  */
  lemma MergeExactly(tables: Tables, active: seq<Named>)
    requires Consistent(tables) && ActiveOK(tables, active) && AllBuffersOK(tables, active)
    ensures Consistent(SeenTables(tables, active)) <==> MergesCleanly(tables, active)
  {
    forall n | n in tables
      ensures var seen := SeenTables(tables, active);
        (TreeOK(seen[n]) && RowsOK(seen[n]) && UniqueOK(seen[n]) && ForeignOK(seen, seen[n])) <==>
        (KeysSpared(tables[n], WritesFor(active, n)) && StoredResolve(tables, active, n) && ReferentsSpared(tables, active, n))
    {
      MergedTable(tables, active, n);
    }
  }
}
