/** What INSERT, UPDATE and DELETE do to the rows their context sees, inside a transaction or outside. */
module DmlEffects {
  import opened Common
  import opened Values
  import opened MvccModel
  import opened RelationalModel
  import opened SessionProofs

  /** The live rows of a table as the current context sees them. */
  ghost function View(db: Db, name: string): Tree
    requires name in db.tables
  {
    Applied(db.tables[name].tree, WritesFor(db.active, name))
  }

  lemma ViewAt(db: Db, name: string, id: nat)
    requires name in db.tables
    ensures id in View(db, name) <==> LiveRow(db, name, id).Some?
    ensures id in View(db, name) ==> LiveRow(db, name, id) == Some(View(db, name)[id])
  {
  }

  /** Nothing but the rows of one table changes, as this context sees it. */
  ghost predicate OnlyChanges(db: Db, db': Db, name: string) {
    db'.tables.Keys == db.tables.Keys && forall n :: n in db.tables && n != name ==> View(db', n) == View(db, n)
  }

  lemma OnlyChangesTransitive(a: Db, b: Db, c: Db, name: string)
    requires OnlyChanges(a, b, name) && OnlyChanges(b, c, name)
    ensures OnlyChanges(a, c, name)
  {
  }

  // ---------------------------------------------------------------- one row

  lemma {:induction false} WritesAfterPut(active: seq<Named>, i: nat, n: Named, name: string)
    requires i < |active| && FindTxn(active, n.table) == Some(i)
    ensures FindTxn(active[i := n], name) == FindTxn(active, name)
    ensures WritesFor(active[i := n], name) == if name == n.table then n.txn.writes else WritesFor(active, name)
    decreases |active|
  {
    if active[0].table != n.table {
      assert active[i := n][1..] == active[1..][i - 1 := n];
      WritesAfterPut(active[1..], i - 1, n, name);
    } else {
      assert active[i := n][1..] == active[1..];
    }
  }

  /** Two trees with the same lookups are the same. */
  lemma SameTree(a: Tree, b: Tree)
    requires forall id :: id in a <==> id in b
    requires forall id :: id in a && id in b ==> a[id] == b[id]
    ensures a == b
  {
  }

  lemma AppliedPut(tree: Tree, writes: Writes, id: nat, v: Option<Row>)
    ensures Applied(tree, writes[id := v]) == Changed(Applied(tree, writes), id, v)
  {
    var a, b := Applied(tree, writes[id := v]), Changed(Applied(tree, writes), id, v);
    forall k ensures k in a <==> k in b {
      assert Live(tree, writes[id := v], k) == if k == id then v else Live(tree, writes, k);
    }
    forall k | k in a && k in b ensures a[k] == b[k] {
      assert Live(tree, writes[id := v], k) == if k == id then v else Live(tree, writes, k);
    }
    SameTree(a, b);
  }

  lemma ChangedApplied(tree: Tree, id: nat, v: Option<Row>)
    ensures Applied(Changed(tree, id, v), map[]) == Changed(Applied(tree, map[]), id, v)
  {
    var a, b := Applied(Changed(tree, id, v), map[]), Changed(Applied(tree, map[]), id, v);
    forall k ensures k in a <==> k in b {
      assert Live(Changed(tree, id, v), map[], k) == if k == id then v else Live(tree, map[], k);
    }
    forall k | k in a && k in b ensures a[k] == b[k] {
      assert Live(Changed(tree, id, v), map[], k) == if k == id then v else Live(tree, map[], k);
    }
    SameTree(a, b);
  }

  /** Outside a transaction nothing is buffered. */
  ghost predicate CanWrite(db: Db, name: string) {
    Ready(db, name) && (!db.inTxn ==> db.active == [])
  }

  /** Storing or deleting a row shows at once to this context, and changes nothing else it sees. */
  lemma PutView(db: Db, name: string, id: nat, v: Option<Row>)
    requires CanWrite(db, name)
    ensures View(Put(db, name, id, v), name) == Changed(View(db, name), id, v)
    ensures OnlyChanges(db, Put(db, name, id, v), name)
  {
    var db' := Put(db, name, id, v);
    if db.inTxn {
      var i := FindTxn(db.active, name).value;
      var n := Named(name, MvccModel.Write(db.active[i].txn, id, v));
      AppliedPut(db.tables[name].tree, WritesFor(db.active, name), id, v);
      forall m ensures WritesFor(db'.active, m) == if m == name then n.txn.writes else WritesFor(db.active, m) {
        WritesAfterPut(db.active, i, n, m);
      }
    } else {
      ChangedApplied(db.tables[name].tree, id, v);
    }
  }

  // ---------------------------------------------------------------- INSERT

  /** The rows of a view with new ones under the next ids, the implicit id filled in. */
  ghost function WithRows(view: Tree, next: nat, rows: seq<Row>, supplied: bool): Tree
    decreases |rows|
  {
    if rows == [] then view
    else WithRows(view[next := WithId(rows[0], next, supplied)], next + 1, rows[1..], supplied)
  }

  /** Each new row is there under its own id, and every other row is as it was. */
  lemma {:induction false} WithRowsAt(view: Tree, next: nat, rows: seq<Row>, supplied: bool, id: nat)
    ensures var r := WithRows(view, next, rows, supplied);
      && (id in r <==> id in view || next <= id < next + |rows|)
      && (id in r ==> r[id] == if next <= id < next + |rows| then WithId(rows[id - next], id, supplied) else view[id])
    decreases |rows|
  {
    if rows != [] {
      WithRowsAt(view[next := WithId(rows[0], next, supplied)], next + 1, rows[1..], supplied, id);
    }
  }

  lemma InsertOneView(db: Db, name: string, row: Row, supplied: bool)
    requires CanWrite(db, name)
    ensures var db' := InsertOne(db, name, row, supplied); var next := db.tables[name].nextRowId;
      && CanWrite(db', name) && db'.tables[name].nextRowId == next + 1
      && View(db', name) == View(db, name)[next := WithId(row, next, supplied)] && OnlyChanges(db, db', name)
  {
    var next := db.tables[name].nextRowId;
    InsertOneConfined(db, name, row, supplied);
    IdTakenConfined(db, name);
    PutView(IdTaken(db, name), name, next, Some(WithId(row, next, supplied)));
  }

  lemma {:induction false} InsertAllView(db: Db, name: string, rows: seq<Row>, supplied: bool)
    requires CanWrite(db, name)
    ensures View(InsertAll(db, name, rows, supplied), name) ==
            WithRows(View(db, name), db.tables[name].nextRowId, rows, supplied)
    ensures InsertAll(db, name, rows, supplied).tables[name].nextRowId == db.tables[name].nextRowId + |rows|
    ensures OnlyChanges(db, InsertAll(db, name, rows, supplied), name)
    decreases |rows|
  {
    if rows != [] {
      var mid := InsertOne(db, name, rows[0], supplied);
      var end := InsertAll(mid, name, rows[1..], supplied);
      assert InsertAll(db, name, rows, supplied) == end;
      InsertOneView(db, name, rows[0], supplied);
      InsertAllView(mid, name, rows[1..], supplied);
      OnlyChangesTransitive(db, mid, end, name);
    } else {
      OnlyChangesTransitive(db, db, db, name);
    }
  }

  /** No later position names the slot of the `k`-th. */
  ghost predicate LastAt(cols: seq<nat>, k: nat)
    requires k < |cols|
  {
    forall j :: k < j < |cols| ==> cols[j] != cols[k]
  }

  /** The cells of an inserted row: the given values in their columns, the last one where a column is named twice. */
  lemma {:induction false} FilledAt(row: Row, cols: seq<nat>, vals: Row)
    requires |cols| == |vals| && (forall i :: 0 <= i < |cols| ==> cols[i] < |row|)
    ensures forall slot :: 0 <= slot < |row| && slot !in cols ==> Filled(row, cols, vals)[slot] == row[slot]
    ensures forall k :: 0 <= k < |cols| && LastAt(cols, k) ==> Filled(row, cols, vals)[cols[k]] == vals[k]
    decreases |cols|
  {
    if cols != [] {
      var row1, cols1, vals1 := row[cols[0] := vals[0]], cols[1..], vals[1..];
      assert cols == [cols[0]] + cols1;
      FilledAt(row1, cols1, vals1);
      forall k | 0 <= k < |cols| && LastAt(cols, k) ensures Filled(row, cols, vals)[cols[k]] == vals[k] {
        if k == 0 {
          assert cols[0] !in cols1;
        } else {
          assert cols1[k - 1] == cols[k] && LastAt(cols1, k - 1);
        }
      }
    }
  }

  lemma {:induction false} AllSlotsAre(n: nat)
    ensures |AllSlots(n)| == n && forall i :: 0 <= i < n ==> AllSlots(n)[i] == i
  {
    if n > 0 {
      AllSlotsAre(n - 1);
    }
  }

  lemma {:induction false} CandidateAt(width: nat, cols: seq<nat>, values: seq<Row>, i: nat)
    requires (forall k :: 0 <= k < |cols| ==> cols[k] < width) && (forall k :: 0 <= k < |values| ==> |values[k]| == |cols|)
    requires i < |values|
    ensures Candidates(width, cols, values)[i] == Filled(Nulls(width), cols, values[i])
    decreases |values|
  {
    if i > 0 {
      CandidateAt(width, cols, values[1..], i - 1);
    }
  }

  /**
    The row stored under `id` for one list of values: the values in the named columns, all columns
    in order if none is named; elsewhere NULL, but the id itself in the implicit id column.
  */
  ghost predicate StoredFor(width: nat, columns: seq<nat>, vals: Row, id: nat, row: Row) {
    && |row| == width
    && (if columns == [] then row == vals
        else
          && |vals| == |columns| && (forall k :: 0 <= k < |columns| ==> columns[k] < width)
          && (forall k :: 0 <= k < |columns| && LastAt(columns, k) ==> row[columns[k]] == vals[k])
          && (forall slot :: 0 <= slot < width && slot !in columns ==> row[slot] == if slot == 0 then Int(id) else Null))
  }

  lemma CandidateStored(width: nat, columns: seq<nat>, values: seq<Row>, i: nat, id: nat)
    requires var cols := TargetSlots(columns, width); !UnknownSlot(cols, width) && !WrongArity(values, |cols|)
    requires i < |values|
    ensures var cols := TargetSlots(columns, width);
      StoredFor(width, columns, values[i], id, WithId(Candidates(width, cols, values)[i], id, 0 in cols))
  {
    var cols := TargetSlots(columns, width);
    CandidateAt(width, cols, values, i);
    FilledAt(Nulls(width), cols, values[i]);
    if columns == [] {
      AllSlotsAre(width);
      var row := Filled(Nulls(width), cols, values[i]);
      forall slot | 0 <= slot < width ensures row[slot] == values[i][slot] {
        assert cols[slot] == slot && LastAt(cols, slot);
      }
      assert row == values[i];
      assert width > 0 ==> cols[0] == 0;
    }
  }

  // ---------------------------------------------------------------- UPDATE

  /** No later assignment names the slot of the `k`-th. */
  ghost predicate LastNaming(assignments: seq<Assignment>, k: nat)
    requires k < |assignments|
  {
    forall j :: k < j < |assignments| ==> assignments[j].slot != assignments[k].slot
  }

  /**
    Cell by cell: the implicit id and every slot that is not named are as before, and every other
    slot has the value of the last assignment that names it.
  */
  ghost predicate Sets(row: Row, assignments: seq<Assignment>, row': Row) {
    && |row'| == |row| && (|row| > 0 ==> row'[0] == row[0])
    && (forall slot :: 0 <= slot < |row| && (forall k :: 0 <= k < |assignments| ==> assignments[k].slot != slot) ==> row'[slot] == row[slot])
    && (forall k :: 0 <= k < |assignments| && 0 < assignments[k].slot < |row| && LastNaming(assignments, k) ==>
          row'[assignments[k].slot] == assignments[k].value)
  }

  lemma SetsFirst(row: Row, assignments: seq<Assignment>, row1: Row, row': Row)
    requires assignments != [] && assignments[0].slot < |row| && Sets(row1, assignments[1..], row')
    requires row1 == if assignments[0].slot == 0 then row else row[assignments[0].slot := assignments[0].value]
    ensures Sets(row, assignments, row')
  {
    var a, rest := assignments[0], assignments[1..];
    assert forall k :: 0 <= k < |rest| ==> rest[k] == assignments[k + 1];
    forall slot | 0 <= slot < |row| && (forall k :: 0 <= k < |assignments| ==> assignments[k].slot != slot)
      ensures row'[slot] == row[slot]
    {
      assert a.slot != slot;
      assert forall k :: 0 <= k < |rest| ==> rest[k].slot != slot;
    }
    forall k | 0 <= k < |assignments| && 0 < assignments[k].slot < |row| && LastNaming(assignments, k)
      ensures row'[assignments[k].slot] == assignments[k].value
    {
      if k == 0 {
        assert forall j :: 0 <= j < |rest| ==> rest[j].slot != a.slot;
      } else {
        assert LastNaming(rest, k - 1);
      }
    }
  }

  /** The assignments can be made exactly when every slot they name exists, and then cell by cell. */
  lemma {:induction false} AssignedExactly(row: Row, assignments: seq<Assignment>)
    ensures Assigned(row, assignments).Ok? <==> forall k :: 0 <= k < |assignments| ==> assignments[k].slot < |row|
    ensures Assigned(row, assignments).Ok? ==> Sets(row, assignments, Assigned(row, assignments).value)
    ensures Assigned(row, assignments).Err? ==> Assigned(row, assignments).error == UnknownColumn
    decreases |assignments|
  {
    if assignments != [] && assignments[0].slot < |row| {
      var a, rest := assignments[0], assignments[1..];
      var row1 := if a.slot == 0 then row else row[a.slot := a.value];
      AssignedExactly(row1, rest);
      assert forall k :: 0 <= k < |rest| ==> rest[k] == assignments[k + 1];
      assert forall k :: 1 <= k < |assignments| ==> assignments[k] == rest[k - 1];
      if Assigned(row1, rest).Ok? {
        SetsFirst(row, assignments, row1, Assigned(row1, rest).value);
      }
    }
  }

  ghost predicate Ascending(ids: seq<nat>) {
    forall i, j :: 0 <= i < j < |ids| ==> ids[i] < ids[j]
  }

  /** The rows of `ids` with the assignments made, the rest as they were. */
  ghost function Reassigned(view: Tree, ids: seq<nat>, assignments: seq<Assignment>): Tree {
    map id | id in view ::
      if id in ids && Assigned(view[id], assignments).Ok? then Assigned(view[id], assignments).value else view[id]
  }

  lemma ReassignedSplit(view: Tree, ids: seq<nat>, assignments: seq<Assignment>, row: Row)
    requires ids != [] && Ascending(ids) && ids[0] in view && Assigned(view[ids[0]], assignments) == Ok(row)
    ensures Reassigned(view[ids[0] := row], ids[1..], assignments) == Reassigned(view, ids, assignments)
  {
    assert ids == [ids[0]] + ids[1..];
    assert ids[0] !in ids[1..];
  }

  lemma UpdateOneView(db: Db, name: string, id: nat, assignments: seq<Assignment>)
    requires CanWrite(db, name) && id in View(db, name) && UpdateOne(db, name, id, assignments).1.Ok?
    ensures Assigned(View(db, name)[id], assignments).Ok?
    ensures var db' := UpdateOne(db, name, id, assignments).0;
      && CanWrite(db', name) && OnlyChanges(db, db', name)
      && View(db', name) == View(db, name)[id := Assigned(View(db, name)[id], assignments).value]
  {
    ViewAt(db, name, id);
    UpdateOneConfined(db, name, id, assignments);
    PutView(db, name, id, Some(Assigned(View(db, name)[id], assignments).value));
  }

  lemma {:induction false} UpdateAllView(db: Db, name: string, ids: seq<nat>, assignments: seq<Assignment>)
    requires CanWrite(db, name) && Ascending(ids) && forall i :: 0 <= i < |ids| ==> ids[i] in View(db, name)
    requires UpdateAll(db, name, ids, assignments).1.Ok?
    ensures var db' := UpdateAll(db, name, ids, assignments).0;
      && View(db', name) == Reassigned(View(db, name), ids, assignments) && OnlyChanges(db, db', name)
      && forall i :: 0 <= i < |ids| ==> Assigned(View(db, name)[ids[i]], assignments).Ok?
    decreases |ids|
  {
    if ids == [] {
      assert Reassigned(View(db, name), ids, assignments) == View(db, name);
    } else {
      UpdateOneView(db, name, ids[0], assignments);
      var mid := UpdateOne(db, name, ids[0], assignments).0;
      RestStays(View(db, name), View(mid, name), ids);
      UpdateAllView(mid, name, ids[1..], assignments);
      OnlyChangesTransitive(db, mid, UpdateAll(mid, name, ids[1..], assignments).0, name);
      ReassignedSplit(View(db, name), ids, assignments, Assigned(View(db, name)[ids[0]], assignments).value);
    }
  }

  // ---------------------------------------------------------------- DELETE

  lemma DeleteOneView(db: Db, name: string, id: nat)
    requires CanWrite(db, name) && id in View(db, name) && DeleteOne(db, name, id).1.Ok?
    ensures var db' := DeleteOne(db, name, id).0;
      CanWrite(db', name) && OnlyChanges(db, db', name) && View(db', name) == View(db, name) - {id}
  {
    ViewAt(db, name, id);
    DeleteOneConfined(db, name, id);
    PutView(db, name, id, None);
  }

  ghost function Elements(ids: seq<nat>): set<nat> {
    set i | 0 <= i < |ids| :: ids[i]
  }

  lemma RemovedSplit(view: Tree, ids: seq<nat>)
    requires ids != []
    ensures view - {ids[0]} - Elements(ids[1..]) == view - Elements(ids)
  {
    assert ids == [ids[0]] + ids[1..];
    assert Elements(ids) == {ids[0]} + Elements(ids[1..]);
  }

  /** The later rows are untouched by what happens to the first. */
  lemma RestStays(view: Tree, view': Tree, ids: seq<nat>)
    requires ids != [] && Ascending(ids) && forall i :: 0 <= i < |ids| ==> ids[i] in view
    requires forall id :: id in view && id != ids[0] ==> id in view' && view'[id] == view[id]
    ensures Ascending(ids[1..]) && forall i :: 0 <= i < |ids[1..]| ==> ids[1..][i] in view' && view'[ids[1..][i]] == view[ids[i + 1]]
  {
    assert forall i :: 0 <= i < |ids[1..]| ==> ids[1..][i] == ids[i + 1];
  }

  lemma {:induction false} DeleteAllView(db: Db, name: string, ids: seq<nat>)
    requires CanWrite(db, name) && Ascending(ids) && forall i :: 0 <= i < |ids| ==> ids[i] in View(db, name)
    requires DeleteAll(db, name, ids).1.Ok?
    ensures var db' := DeleteAll(db, name, ids).0;
      View(db', name) == View(db, name) - Elements(ids) && OnlyChanges(db, db', name)
    decreases |ids|
  {
    if ids == [] {
      assert View(db, name) - {} == View(db, name);
    } else {
      DeleteOneView(db, name, ids[0]);
      var mid := DeleteOne(db, name, ids[0]).0;
      RestStays(View(db, name), View(mid, name), ids);
      DeleteAllView(mid, name, ids[1..]);
      OnlyChangesTransitive(db, mid, DeleteAll(mid, name, ids[1..]).0, name);
      RemovedSplit(View(db, name), ids);
    }
  }

  // ---------------------------------------------------------------- matching rows

  /** The ids found so far: those below `id` whose live rows pass. */
  ghost predicate FoundBelow(t: Table, writes: Writes, filter: Filter, id: nat, found: seq<nat>) {
    && Ascending(found)
    && forall k: nat :: k in found <==> k < id && Live(t.tree, writes, k).Some? && filter(Live(t.tree, writes, k).value) == Ok(true)
  }

  lemma FoundNext(t: Table, writes: Writes, filter: Filter, id: nat, found: seq<nat>)
    requires FoundBelow(t, writes, filter, id, found)
    ensures var row := Live(t.tree, writes, id); var keep := row.Some? && filter(row.value) == Ok(true);
      FoundBelow(t, writes, filter, id + 1, if keep then found + [id] else found)
  {
    forall i | 0 <= i < |found| ensures found[i] < id {
      assert found[i] in found;
    }
  }

  lemma {:induction false} MatchingIs(t: Table, writes: Writes, filter: Filter, id: nat, found: seq<nat>)
    requires id <= t.nextRowId && FoundBelow(t, writes, filter, id, found) && MatchingFrom(t, writes, filter, id, found).Ok?
    ensures FoundBelow(t, writes, filter, t.nextRowId, MatchingFrom(t, writes, filter, id, found).value)
    decreases t.nextRowId - id
  {
    if id < t.nextRowId {
      FoundNext(t, writes, filter, id, found);
      var row := Live(t.tree, writes, id);
      var keep := row.Some? && filter(row.value) == Ok(true);
      MatchingIs(t, writes, filter, id + 1, if keep then found + [id] else found);
    }
  }

  /** A WHERE selects exactly the live rows that pass it, in id order. */
  lemma Selects(db: Db, name: string, filter: Filter)
    requires ActiveOK(db.tables, db.active) && TreesOK(db) && Matching(db, name, filter).Ok?
    ensures name in db.tables && Ascending(Matching(db, name, filter).value)
    ensures forall id :: id in Matching(db, name, filter).value <==> id in View(db, name) && filter(View(db, name)[id]) == Ok(true)
  {
    var t, writes := db.tables[name], WritesFor(db.active, name);
    MatchingIs(t, writes, filter, 0, []);
    forall id ensures id in Matching(db, name, filter).value <==> id in View(db, name) && filter(View(db, name)[id]) == Ok(true) {
      ViewAt(db, name, id);
      if LiveRow(db, name, id).Some? {
        LiveIsKnown(db, name, id);
      }
    }
  }

  // ---------------------------------------------------------------- the statements

  /** Opening a transaction on a table shows nothing new. */
  lemma OpenedView(db: Db, name: string)
    requires DbOK(db) && name in db.tables
    ensures var mid := if db.inTxn then EnsureTxn(db, name) else db;
      CanWrite(mid, name) && mid.tables == db.tables && forall n :: n in db.tables ==> View(mid, n) == View(db, n)
  {
    OpenedConfined(db, name);
    if db.inTxn && FindTxn(db.active, name).None? {
      forall n ensures WritesFor(EnsureTxn(db, name).active, n) == WritesFor(db.active, n) {
        WritesAfterOpen(db.active, Named(name, MvccModel.Begin(db.tables[name].store)), n);
      }
    }
  }

  lemma {:induction false} WritesAfterOpen(active: seq<Named>, n: Named, name: string)
    requires FindTxn(active, n.table).None? && n.txn.writes == map[]
    ensures WritesFor(active + [n], name) == WritesFor(active, name) && FindTxn(active + [n], n.table).Some?
    decreases |active|
  {
    if active != [] {
      assert (active + [n])[1..] == active[1..] + [n];
      WritesAfterOpen(active[1..], n, name);
    }
  }

  lemma PlannedRows(db: Db, name: string, columns: seq<nat>, values: seq<Row>)
    requires PlanInsert(db, name, columns, values).Ok?
    ensures name in db.tables
    ensures var cols := TargetSlots(columns, db.tables[name].schema.width);
      && !UnknownSlot(cols, db.tables[name].schema.width) && !WrongArity(values, |cols|)
      && PlanInsert(db, name, columns, values).value == (Candidates(db.tables[name].schema.width, cols, values), 0 in cols)
  {
  }

  /** The rows of `values` are added under the ids from `next` on, cell by cell, and every other row is as it was. */
  ghost predicate RowsAdded(view: Tree, view': Tree, width: nat, columns: seq<nat>, values: seq<Row>, next: nat) {
    && (forall id :: id in view' <==> id in view || next <= id < next + |values|)
    && (forall id :: id in view && !(next <= id < next + |values|) ==> view'[id] == view[id])
    && (forall i :: 0 <= i < |values| ==> StoredFor(width, columns, values[i], next + i, view'[next + i]))
  }

  lemma AddedAt(view: Tree, width: nat, columns: seq<nat>, values: seq<Row>, next: nat, rows: seq<Row>, view': Tree, supplied: bool)
    requires var cols := TargetSlots(columns, width);
      !UnknownSlot(cols, width) && !WrongArity(values, |cols|) && rows == Candidates(width, cols, values) && supplied == (0 in cols)
    requires |rows| == |values| && forall id: nat :: next <= id < next + |rows| ==> id in view' && view'[id] == WithId(rows[id - next], id, supplied)
    ensures forall i :: 0 <= i < |values| ==> StoredFor(width, columns, values[i], next + i, view'[next + i])
  {
    forall i | 0 <= i < |values| ensures StoredFor(width, columns, values[i], next + i, view'[next + i]) {
      CandidateStored(width, columns, values, i, next + i);
      assert view'[next + i] == WithId(rows[next + i - next], next + i, supplied);
    }
  }

  lemma WithRowsAdded(view: Tree, width: nat, columns: seq<nat>, values: seq<Row>, next: nat)
    requires var cols := TargetSlots(columns, width); !UnknownSlot(cols, width) && !WrongArity(values, |cols|)
    ensures var cols := TargetSlots(columns, width);
      RowsAdded(view, WithRows(view, next, Candidates(width, cols, values), 0 in cols), width, columns, values, next)
  {
    var cols := TargetSlots(columns, width);
    var rows := Candidates(width, cols, values);
    var r := WithRows(view, next, rows, 0 in cols);
    forall id: nat
      ensures id in r <==> id in view || next <= id < next + |rows|
      ensures id in r ==> r[id] == if next <= id < next + |rows| then WithId(rows[id - next], id, 0 in cols) else view[id]
    {
      WithRowsAt(view, next, rows, 0 in cols, id);
    }
    AddedAt(view, width, columns, values, next, rows, r, 0 in cols);
  }

  /** INSERT adds one row per value list under the next ids, and nothing else. */
  lemma InsertDoes(db: Db, name: string, columns: seq<nat>, values: seq<Row>)
    requires DbOK(db) && RunInsert(db, name, columns, values).1.Ok?
    ensures name in db.tables && RunInsert(db, name, columns, values).1 == Ok(Count(|values|))
    ensures OnlyChanges(db, RunInsert(db, name, columns, values).0, name)
    ensures var t := db.tables[name]; var db' := RunInsert(db, name, columns, values).0;
      && RowsAdded(View(db, name), View(db', name), t.schema.width, columns, values, t.nextRowId)
      && db'.tables[name].nextRowId == t.nextRowId + |values|
  {
    var mid := if db.inTxn then EnsureTxn(db, name) else db;
    PlannedRows(mid, name, columns, values);
    OpenedView(db, name);
    var (rows, supplied) := PlanInsert(mid, name, columns, values).value;
    InsertAllView(mid, name, rows, supplied);
    WithRowsAdded(View(db, name), db.tables[name].schema.width, columns, values, db.tables[name].nextRowId);
  }

  /** The rows `ids` are reassigned cell by cell, the rest are as they were. */
  ghost predicate RowsSet(view: Tree, view': Tree, ids: seq<nat>, assignments: seq<Assignment>) {
    && view'.Keys == view.Keys
    && forall id :: id in view ==> if id in ids then Sets(view[id], assignments, view'[id]) else view'[id] == view[id]
  }

  lemma ReassignedSets(view: Tree, ids: seq<nat>, assignments: seq<Assignment>)
    requires forall i :: 0 <= i < |ids| ==> ids[i] in view && Assigned(view[ids[i]], assignments).Ok?
    ensures RowsSet(view, Reassigned(view, ids, assignments), ids, assignments)
  {
    forall id | id in view && id in ids ensures Sets(view[id], assignments, Reassigned(view, ids, assignments)[id]) {
      AssignedExactly(view[id], assignments);
    }
  }

  /** UPDATE makes its assignments in exactly the rows its WHERE selects, and counts them. */
  lemma UpdateDoes(db: Db, name: string, filter: Filter, assignments: seq<Assignment>)
    requires DbOK(db) && RunUpdate(db, name, filter, assignments).1.Ok?
    ensures var (db', r) := RunUpdate(db, name, filter, assignments); var ids := Matching(db, name, filter);
      && ids.Ok? && name in db.tables && r == Ok(Count(|ids.value|)) && OnlyChanges(db, db', name)
      && RowsSet(View(db, name), View(db', name), ids.value, assignments)
      && (forall id :: id in ids.value <==> id in View(db, name) && filter(View(db, name)[id]) == Ok(true))
  {
    Selects(db, name, filter);
    OpenedView(db, name);
    var ids := Matching(db, name, filter).value;
    assert forall i :: 0 <= i < |ids| ==> ids[i] in ids;
    UpdateAllView(if db.inTxn then EnsureTxn(db, name) else db, name, ids, assignments);
    ReassignedSets(View(db, name), ids, assignments);
  }

  /** DELETE removes exactly the rows its WHERE selects, and counts them. */
  lemma DeleteDoes(db: Db, name: string, filter: Filter)
    requires DbOK(db) && RunDelete(db, name, filter).1.Ok?
    ensures var (db', r) := RunDelete(db, name, filter); var ids := Matching(db, name, filter);
      && ids.Ok? && name in db.tables && r == Ok(Count(|ids.value|)) && OnlyChanges(db, db', name)
      && View(db', name) == View(db, name) - Elements(ids.value)
      && (forall id :: id in ids.value <==> id in View(db, name) && filter(View(db, name)[id]) == Ok(true))
  {
    Selects(db, name, filter);
    OpenedView(db, name);
    var ids := Matching(db, name, filter).value;
    assert forall i :: 0 <= i < |ids| ==> ids[i] in ids;
    DeleteAllView(if db.inTxn then EnsureTxn(db, name) else db, name, ids);
  }

  /** `rows` are the rows of the tree, each once, in the order of their ids `ids`. */
  ghost predicate InOrder(rows: seq<Row>, ids: seq<nat>, tree: Tree) {
    && Ascending(ids) && (forall id :: id in ids <==> id in tree)
    && |rows| == |ids| && forall i :: 0 <= i < |ids| ==> ids[i] in tree && rows[i] == tree[ids[i]]
  }

  /** The ids of the live rows from `id` on, in order. */
  ghost function LiveFrom(t: Table, writes: Writes, id: nat): seq<nat>
    requires id <= t.nextRowId
    decreases t.nextRowId - id
  {
    if id == t.nextRowId then []
    else (if Live(t.tree, writes, id).Some? then [id] else []) + LiveFrom(t, writes, id + 1)
  }

  lemma {:induction false} LiveFromIs(t: Table, writes: Writes, id: nat)
    requires id <= t.nextRowId
    ensures Ascending(LiveFrom(t, writes, id))
    ensures forall k :: k in LiveFrom(t, writes, id) <==> id <= k < t.nextRowId && Live(t.tree, writes, k).Some?
    decreases t.nextRowId - id
  {
    if id < t.nextRowId {
      LiveFromIs(t, writes, id + 1);
      var rest := LiveFrom(t, writes, id + 1);
      forall i | 0 <= i < |rest| ensures id < rest[i] {
        assert rest[i] in rest;
      }
    }
  }

  lemma {:induction false} ScanLists(t: Table, writes: Writes, id: nat)
    requires id <= t.nextRowId
    ensures |ScanFrom(t, writes, id)| == |LiveFrom(t, writes, id)|
    ensures forall i :: 0 <= i < |LiveFrom(t, writes, id)| ==> Live(t.tree, writes, LiveFrom(t, writes, id)[i]) == Some(ScanFrom(t, writes, id)[i])
    decreases t.nextRowId - id
  {
    if id < t.nextRowId {
      ScanLists(t, writes, id + 1);
    }
  }

  /** A scan returns the rows of the table under the writes, each once and in id order. */
  lemma ScanIsInOrder(t: Table, writes: Writes)
    requires TreeOK(t) && forall id :: id in writes ==> id < t.nextRowId
    ensures InOrder(ScanFrom(t, writes, 0), LiveFrom(t, writes, 0), Applied(t.tree, writes))
  {
    ScanLists(t, writes, 0);
    LiveFromIs(t, writes, 0);
    var ids, tree := LiveFrom(t, writes, 0), Applied(t.tree, writes);
    forall id ensures id in ids <==> id in tree {
      assert id in tree <==> Live(t.tree, writes, id).Some?;
    }
    forall i | 0 <= i < |ids| ensures ids[i] in tree && ScanFrom(t, writes, 0)[i] == tree[ids[i]] {
      assert ids[i] in ids;
    }
  }

  lemma {:induction false} AscendingCount(ids: seq<nat>)
    requires Ascending(ids)
    ensures |Elements(ids)| == |ids|
  {
    if ids != [] {
      var init := ids[..|ids| - 1];
      AscendingCount(init);
      assert Elements(ids) == Elements(init) + {ids[|ids| - 1]};
    }
  }

  lemma InOrderCount(rows: seq<Row>, ids: seq<nat>, tree: Tree)
    requires InOrder(rows, ids, tree)
    ensures |rows| == |tree|
  {
    AscendingCount(ids);
    forall id ensures id in Elements(ids) <==> id in tree.Keys {
      assert id in Elements(ids) <==> id in ids;
    }
    assert Elements(ids) == tree.Keys;
  }

  /** SELECT returns the rows the context sees, each once and in id order; it fails exactly for an unknown table. */
  lemma SelectDoes(db: Db, name: string)
    requires DbOK(db)
    ensures name !in db.tables ==> RunSelect(db, name) == Err(UnknownTable)
    ensures name in db.tables ==> exists rows, ids ::
      RunSelect(db, name) == Ok(Rows(rows)) && InOrder(rows, ids, View(db, name)) && |rows| == |View(db, name)|
  {
    if name in db.tables {
      var t, writes := db.tables[name], WritesFor(db.active, name);
      assert forall id :: id in writes ==> id < t.nextRowId by {
        forall id | id in writes ensures id < t.nextRowId {
          var i := FindTxn(db.active, name).value;
          assert NamedOK(db.tables, db.active[i]);
        }
      }
      ScanIsInOrder(t, writes);
      InOrderCount(ScanFrom(t, writes, 0), LiveFrom(t, writes, 0), View(db, name));
    }
  }
}
