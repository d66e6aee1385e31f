/** Storing several rows at once: integrity is kept exactly when each fits beside the old rows and beside one another. */
module BatchProofs {
  import opened Values
  import opened RelationalModel
  import opened SessionProofs
  import opened Integrity

  // ---------------------------------------------------------------- the rows after the batch

  /** The rows with `fresh` ones under the ids from `next` on. */
  ghost function Joined(tree: Tree, next: nat, news: seq<Row>): Tree
    decreases |news|
  {
    if news == [] then tree else Joined(tree[next := news[0]], next + 1, news[1..])
  }

  lemma {:induction false} JoinedAt(tree: Tree, next: nat, news: seq<Row>, id: nat)
    ensures var r := Joined(tree, next, news);
      && (id in r <==> id in tree || next <= id < next + |news|)
      && (id in r ==> r[id] == if next <= id < next + |news| then news[id - next] else tree[id])
    decreases |news|
  {
    if news != [] {
      JoinedAt(tree[next := news[0]], next + 1, news[1..], id);
    }
  }

  /** The tables once the batch is stored. */
  ghost function WithBatch(tables: Tables, name: string, news: seq<Row>): Tables
    requires name in tables
  {
    var t := tables[name];
    tables[name := t.(tree := Joined(t.tree, t.nextRowId, news), nextRowId := t.nextRowId + |news|)]
  }

  /** Old rows stay; the new ones are those of the batch. */
  ghost predicate Joins(before: Tree, after: Tree, news: seq<Row>) {
    && (forall x :: x in before ==> x in after && after[x] == before[x])
    && (forall x :: x in after && x !in before ==> after[x] in news)
    && (forall i :: 0 <= i < |news| ==> Appears(before, after, news[i]))
  }

  ghost predicate Appears(before: Tree, after: Tree, row: Row) {
    exists x :: x in after && x !in before && after[x] == row
  }

  lemma OldJoined(t: Table, news: seq<Row>, x: nat)
    requires TreeOK(t)
    ensures var after := Joined(t.tree, t.nextRowId, news);
      && (x in t.tree ==> x in after && after[x] == t.tree[x])
      && (x in after ==> x < t.nextRowId + |news|)
      && (x in after && x !in t.tree ==> after[x] in news)
  {
    JoinedAt(t.tree, t.nextRowId, news, x);
  }

  lemma NewJoined(t: Table, news: seq<Row>, i: nat)
    requires TreeOK(t) && i < |news|
    ensures Appears(t.tree, Joined(t.tree, t.nextRowId, news), news[i])
  {
    var x := t.nextRowId + i;
    JoinedAt(t.tree, t.nextRowId, news, x);
    assert x in Joined(t.tree, t.nextRowId, news) && x !in t.tree;
  }

  lemma JoinedJoins(t: Table, news: seq<Row>)
    requires TreeOK(t)
    ensures Joins(t.tree, Joined(t.tree, t.nextRowId, news), news)
    ensures forall x :: x in Joined(t.tree, t.nextRowId, news) ==> x < t.nextRowId + |news|
  {
    var after := Joined(t.tree, t.nextRowId, news);
    forall x: nat
      ensures x in t.tree ==> x in after && after[x] == t.tree[x]
      ensures x in after ==> x < t.nextRowId + |news|
      ensures x in after && x !in t.tree ==> after[x] in news
    {
      OldJoined(t, news, x);
    }
    forall i | 0 <= i < |news| ensures Appears(t.tree, after, news[i]) {
      NewJoined(t, news, i);
    }
  }

  // ---------------------------------------------------------------- references

  /** Some row of the batch has the key. */
  ghost predicate HeldByNew(news: seq<Row>, slots: seq<nat>, key: Row) {
    exists i :: 0 <= i < |news| && Proj(news[i], slots) == key
  }

  lemma HeldAfterBatch(tables: Tables, name: string, news: seq<Row>, where_: string, slots: seq<nat>, key: Row)
    requires name in tables && TreeOK(tables[name])
    ensures Held(WithBatch(tables, name, news), where_, slots, key) <==>
            Held(tables, where_, slots, key) || (where_ == name && HeldByNew(news, slots, key))
  {
    var t, after := tables[name], WithBatch(tables, name, news)[name].tree;
    JoinedJoins(t, news);
    if where_ == name && Held(WithBatch(tables, name, news), name, slots, key) {
      var x :| x in after && Proj(after[x], slots) == key;
      if x !in t.tree {
        var i :| 0 <= i < |news| && news[i] == after[x];
      }
    }
    if where_ == name && HeldByNew(news, slots, key) {
      var i :| 0 <= i < |news| && Proj(news[i], slots) == key;
      assert Appears(t.tree, after, news[i]);
      var x :| x in after && x !in t.tree && after[x] == news[i];
    }
  }

  /** A reference from a new row: satisfied by what was there or by the batch itself. */
  ghost predicate ResolvesWith(tables: Tables, name: string, news: seq<Row>, fk: ForeignKey, row: Row) {
    var key := Proj(row, fk.columns);
    || Null in key || Held(tables, fk.refTable, fk.refColumns, key)
    || (fk.refTable == name && HeldByNew(news, fk.refColumns, key))
  }

  lemma ResolvesAfterBatch(tables: Tables, name: string, news: seq<Row>, fk: ForeignKey, row: Row)
    requires name in tables && TreeOK(tables[name])
    ensures Resolves(WithBatch(tables, name, news), fk, row) <==> ResolvesWith(tables, name, news, fk, row)
  {
    HeldAfterBatch(tables, name, news, fk.refTable, fk.refColumns, Proj(row, fk.columns));
  }

  // ---------------------------------------------------------------- when a row fits

  ghost predicate KeysAreFree(t: Table, row: Row) {
    forall g :: 0 <= g < |t.schema.unique| ==> KeyIsFree(t.tree, row, t.schema.unique[g])
  }

  ghost predicate ReferencesResolve(tables: Tables, name: string, news: seq<Row>, row: Row)
    requires name in tables
  {
    forall f :: 0 <= f < |tables[name].schema.foreignKeys| ==>
      ResolvesWith(tables, name, news, tables[name].schema.foreignKeys[f], row)
  }

  /** A row of the batch breaks nothing beside what was there before. */
  ghost predicate Fits(tables: Tables, name: string, news: seq<Row>, row: Row)
    requires name in tables
  {
    Acceptable(tables[name].schema, row) && KeysAreFree(tables[name], row) && ReferencesResolve(tables, name, news, row)
  }

  ghost predicate AllFit(tables: Tables, name: string, news: seq<Row>)
    requires name in tables
  {
    forall i :: 0 <= i < |news| ==> Fits(tables, name, news, news[i])
  }

  ghost predicate PairwiseDistinct(groups: seq<seq<nat>>, rows: seq<Row>) {
    forall g, i, j :: 0 <= g < |groups| && 0 <= i < |rows| && 0 <= j < |rows| && i != j ==> Distinct(rows[i], rows[j], groups[g])
  }

  // ---------------------------------------------------------------- keys

  /** Two new rows under different ids are different rows of the batch. */
  lemma NewPairDistinct(t: Table, news: seq<Row>, g: nat, x: nat, y: nat)
    requires TreeOK(t) && PairwiseDistinct(t.schema.unique, news) && g < |t.schema.unique| && x != y
    requires var after := Joined(t.tree, t.nextRowId, news); x in after && y in after && x !in t.tree && y !in t.tree
    ensures var after := Joined(t.tree, t.nextRowId, news); Distinct(after[x], after[y], t.schema.unique[g])
  {
    JoinedAt(t.tree, t.nextRowId, news, x);
    JoinedAt(t.tree, t.nextRowId, news, y);
    assert Distinct(news[x - t.nextRowId], news[y - t.nextRowId], t.schema.unique[g]);
  }

  lemma PairDistinct(t: Table, news: seq<Row>, g: nat, x: nat, y: nat)
    requires TreeOK(t) && UniqueOK(t) && PairwiseDistinct(t.schema.unique, news) && g < |t.schema.unique| && x != y
    requires forall i :: 0 <= i < |news| ==> KeyIsFree(t.tree, news[i], t.schema.unique[g])
    requires var after := Joined(t.tree, t.nextRowId, news); x in after && y in after
    ensures var after := Joined(t.tree, t.nextRowId, news); Distinct(after[x], after[y], t.schema.unique[g])
  {
    var after := Joined(t.tree, t.nextRowId, news);
    JoinedJoins(t, news);
    if x !in t.tree && y !in t.tree {
      NewPairDistinct(t, news, g, x, y);
    } else if x !in t.tree {
      assert KeyIsFree(t.tree, after[x], t.schema.unique[g]);
    } else if y !in t.tree {
      assert KeyIsFree(t.tree, after[y], t.schema.unique[g]);
      DistinctEitherWay(after[y], t.tree[x], t.schema.unique[g]);
    } else {
      assert Distinct(t.tree[x], t.tree[y], t.schema.unique[g]);
    }
  }

  lemma BatchUnique(t: Table, news: seq<Row>, t': Table)
    requires TreeOK(t) && UniqueOK(t) && PairwiseDistinct(t.schema.unique, news)
    requires forall i :: 0 <= i < |news| ==> KeysAreFree(t, news[i])
    requires t'.schema == t.schema && t'.tree == Joined(t.tree, t.nextRowId, news)
    ensures UniqueOK(t')
  {
    forall g, x, y | 0 <= g < |t.schema.unique| && x in t'.tree && y in t'.tree && x != y
      ensures Distinct(t'.tree[x], t'.tree[y], t'.schema.unique[g])
    {
      assert forall i :: 0 <= i < |news| ==> KeysAreFree(t, news[i]) && KeyIsFree(t.tree, news[i], t.schema.unique[g]);
      PairDistinct(t, news, g, x, y);
    }
  }

  // ---------------------------------------------------------------- both directions

  lemma BatchForeign(tables: Tables, name: string, news: seq<Row>, n: string)
    requires Consistent(tables) && name in tables && n in tables && AllFit(tables, name, news)
    ensures ForeignOK(WithBatch(tables, name, news), WithBatch(tables, name, news)[n])
  {
    var tables' := WithBatch(tables, name, news);
    JoinedJoins(tables[name], news);
    forall f, x | 0 <= f < |tables'[n].schema.foreignKeys| && x in tables'[n].tree
      ensures Resolves(tables', tables'[n].schema.foreignKeys[f], tables'[n].tree[x])
    {
      var fk, row := tables[n].schema.foreignKeys[f], tables'[n].tree[x];
      ResolvesAfterBatch(tables, name, news, fk, row);
      if x in tables[n].tree {
        assert Resolves(tables, fk, tables[n].tree[x]);
      } else {
        var i :| 0 <= i < |news| && news[i] == row;
        assert Fits(tables, name, news, news[i]);
      }
    }
  }

  lemma BatchKeeps(tables: Tables, name: string, news: seq<Row>)
    requires Consistent(tables) && name in tables && AllFit(tables, name, news)
    requires PairwiseDistinct(tables[name].schema.unique, news)
    ensures Consistent(WithBatch(tables, name, news))
  {
    var t, tables' := tables[name], WithBatch(tables, name, news);
    JoinedJoins(t, news);
    forall i | 0 <= i < |news| ensures KeysAreFree(t, news[i]) && Acceptable(t.schema, news[i]) {
      assert Fits(tables, name, news, news[i]);
    }
    BatchUnique(t, news, tables'[name]);
    assert RowsOK(tables'[name]);
    forall n | n in tables' ensures ForeignOK(tables', tables'[n]) {
      BatchForeign(tables, name, news, n);
    }
  }

  lemma BatchNeeds(tables: Tables, name: string, news: seq<Row>, i: nat)
    requires name in tables && TreeOK(tables[name]) && Consistent(WithBatch(tables, name, news)) && i < |news|
    ensures Fits(tables, name, news, news[i])
  {
    var t, t' := tables[name], WithBatch(tables, name, news)[name];
    JoinedJoins(t, news);
    assert Appears(t.tree, t'.tree, news[i]);
    var x :| x in t'.tree && x !in t.tree && t'.tree[x] == news[i];
    assert RowsOK(t') && UniqueOK(t') && ForeignOK(WithBatch(tables, name, news), t');
    forall g | 0 <= g < |t.schema.unique| ensures KeyIsFree(t.tree, news[i], t.schema.unique[g]) {
      forall y | y in t.tree ensures Distinct(news[i], t.tree[y], t.schema.unique[g]) {
        assert Distinct(t'.tree[x], t'.tree[y], t'.schema.unique[g]);
      }
    }
    forall f | 0 <= f < |t.schema.foreignKeys| ensures ResolvesWith(tables, name, news, t.schema.foreignKeys[f], news[i]) {
      assert Resolves(WithBatch(tables, name, news), t'.schema.foreignKeys[f], t'.tree[x]);
      ResolvesAfterBatch(tables, name, news, t.schema.foreignKeys[f], news[i]);
    }
  }

  /** A batch of rows with distinct keys keeps the database consistent if and only if each of them fits. */
  lemma BatchExactly(tables: Tables, name: string, news: seq<Row>)
    requires Consistent(tables) && name in tables && PairwiseDistinct(tables[name].schema.unique, news)
    ensures Consistent(WithBatch(tables, name, news)) <==> AllFit(tables, name, news)
  {
    if AllFit(tables, name, news) {
      BatchKeeps(tables, name, news);
    }
    if Consistent(WithBatch(tables, name, news)) {
      forall i | 0 <= i < |news| ensures Fits(tables, name, news, news[i]) {
        BatchNeeds(tables, name, news, i);
      }
    }
  }
}
