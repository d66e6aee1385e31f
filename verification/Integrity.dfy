/** What the declared constraints demand of the stored rows. */
module Integrity {
  import opened Values
  import opened RelationalModel
  import opened SessionProofs

  /** Outside any transaction. */
  ghost predicate Auto(db: Db) {
    !db.inTxn && db.active == []
  }

  /** What a row must satisfy by itself: NOT NULL and CHECK. */
  ghost predicate Acceptable(schema: Schema, row: Row) {
    !MissesValue(schema, row) && FailedCheck(schema.checks, row).None?
  }

  ghost predicate RowsOK(t: Table) {
    forall id :: id in t.tree ==> Acceptable(t.schema, t.tree[id])
  }

  /** Rows `a` and `b` do not share a key of group `slots`, unless it has a NULL. */
  ghost predicate Distinct(a: Row, b: Row, slots: seq<nat>) {
    Null in Proj(a, slots) || Proj(a, slots) != Proj(b, slots)
  }

  ghost predicate UniqueOK(t: Table) {
    forall g, id, other :: 0 <= g < |t.schema.unique| && id in t.tree && other in t.tree && id != other ==>
      Distinct(t.tree[id], t.tree[other], t.schema.unique[g])
  }

  /** Some row of the table has the key. */
  ghost predicate Held(tables: Tables, name: string, slots: seq<nat>, key: Row) {
    name in tables && exists id :: id in tables[name].tree && Proj(tables[name].tree[id], slots) == key
  }

  ghost predicate Resolves(tables: Tables, fk: ForeignKey, row: Row) {
    Null in Proj(row, fk.columns) || Held(tables, fk.refTable, fk.refColumns, Proj(row, fk.columns))
  }

  ghost predicate ForeignOK(tables: Tables, t: Table) {
    forall f, id :: 0 <= f < |t.schema.foreignKeys| && id in t.tree ==> Resolves(tables, t.schema.foreignKeys[f], t.tree[id])
  }

  ghost predicate Consistent(tables: Tables) {
    forall n :: n in tables ==>
      TreeOK(tables[n]) && RowsOK(tables[n]) && UniqueOK(tables[n]) && ForeignOK(tables, tables[n])
  }

  /** The same tables with the same schemas. */
  ghost predicate SchemasAgree(a: Tables, b: Tables) {
    a.Keys == b.Keys && forall n :: n in a ==> b[n].schema == a[n].schema
  }

  /** No row of the tree has the row's key in the group, unless it has a NULL. */
  ghost predicate KeyIsFree(tree: Tree, row: Row, slots: seq<nat>) {
    forall other :: other in tree ==> Distinct(row, tree[other], slots)
  }

  lemma DistinctEitherWay(a: Row, b: Row, slots: seq<nat>)
    requires Distinct(a, b, slots)
    ensures Distinct(b, a, slots)
  {
  }
}
