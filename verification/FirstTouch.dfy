/** When a transaction's snapshot of a table is taken: at the first statement that touches the table, and not again. */
module FirstTouch {
  import opened Common
  import opened Values
  import opened RelationalModel
  import opened SessionProofs
  import opened CommitProofs
  import opened SessionRuns

  // ---------------------------------------------------------------- one statement

  /** The same transactions, on the same tables and snapshots; only what they buffer may differ. */
  ghost predicate SameEntries(a: seq<Named>, b: seq<Named>) {
    |a| == |b| && forall i :: 0 <= i < |a| ==> b[i].table == a[i].table && b[i].txn.snapshot == a[i].txn.snapshot
  }

  /** At most one transaction was opened: on `name`, at the present of its version store. */
  ghost predicate Opened(db: Db, name: string, active: seq<Named>) {
    || SameEntries(db.active, active)
    || (&& |active| == |db.active| + 1 && SameEntries(db.active, active[..|db.active|]) && name in db.tables
        && active[|db.active|].table == name && active[|db.active|].txn.snapshot == db.tables[name].store.clock)
  }

  lemma PutEntries(db: Db, name: string, id: nat, v: Option<Row>)
    requires name in db.tables
    ensures SameEntries(db.active, Put(db, name, id, v).active)
  {
  }

  lemma {:induction false} InsertEntries(db: Db, name: string, rows: seq<Row>, supplied: bool)
    requires name in db.tables
    ensures SameEntries(db.active, InsertAll(db, name, rows, supplied).active)
    decreases |rows|
  {
    if rows != [] {
      var t := db.tables[name];
      PutEntries(SetTable(db, name, t.(nextRowId := t.nextRowId + 1)), name, t.nextRowId, Some(WithId(rows[0], t.nextRowId, supplied)));
      InsertEntries(InsertOne(db, name, rows[0], supplied), name, rows[1..], supplied);
    }
  }

  lemma UpdateOneEntries(db: Db, name: string, id: nat, assignments: seq<Assignment>)
    requires name in db.tables
    ensures SameEntries(db.active, UpdateOne(db, name, id, assignments).0.active)
  {
    var row := LiveRow(db, name, id);
    if row.Some? && Assigned(row.value, assignments).Ok? {
      PutEntries(db, name, id, Some(Assigned(row.value, assignments).value));
    }
  }

  lemma {:induction false} UpdateEntries(db: Db, name: string, ids: seq<nat>, assignments: seq<Assignment>)
    requires name in db.tables
    ensures SameEntries(db.active, UpdateAll(db, name, ids, assignments).0.active)
    decreases |ids|
  {
    if ids != [] {
      UpdateOneEntries(db, name, ids[0], assignments);
      var (mid, r) := UpdateOne(db, name, ids[0], assignments);
      if r.Ok? {
        UpdateEntries(mid, name, ids[1..], assignments);
      }
    }
  }

  lemma {:induction false} DeleteEntries(db: Db, name: string, ids: seq<nat>)
    requires name in db.tables
    ensures SameEntries(db.active, DeleteAll(db, name, ids).0.active)
    decreases |ids|
  {
    if ids != [] {
      PutEntries(db, name, ids[0], None);
      var (mid, r) := DeleteOne(db, name, ids[0]);
      if r.Ok? {
        DeleteEntries(mid, name, ids[1..]);
      }
    }
  }

  lemma OpenEntries(db: Db, name: string)
    ensures Opened(db, name, (if db.inTxn then EnsureTxn(db, name) else db).active)
  {
    if db.inTxn && FindTxn(db.active, name).None? && name in db.tables {
      assert EnsureTxn(db, name).active[..|db.active|] == db.active;
    }
  }

  lemma OpenedThen(db: Db, name: string, a: seq<Named>, b: seq<Named>)
    requires Opened(db, name, a) && SameEntries(a, b)
    ensures Opened(db, name, b)
  {
  }

  ghost function TableOf(stmt: Statement): string
    requires IsQuery(stmt)
  {
    match stmt
    case Insert(name, _, _) => name
    case Update(name, _, _) => name
    case Delete(name, _) => name
    case Select(name) => name
  }

  lemma InsertOpens(db: Db, name: string, columns: seq<nat>, values: seq<Row>)
    ensures Opened(db, name, RunInsert(db, name, columns, values).0.active)
  {
    OpenEntries(db, name);
    var mid := if db.inTxn then EnsureTxn(db, name) else db;
    var plan := PlanInsert(mid, name, columns, values);
    if plan.Ok? && name in mid.tables {
      InsertEntries(mid, name, plan.value.0, plan.value.1);
      OpenedThen(db, name, mid.active, InsertAll(mid, name, plan.value.0, plan.value.1).active);
    }
  }

  lemma UpdateOpens(db: Db, name: string, filter: Filter, assignments: seq<Assignment>)
    ensures Opened(db, name, RunUpdate(db, name, filter, assignments).0.active)
  {
    OpenEntries(db, name);
    var mid := if db.inTxn then EnsureTxn(db, name) else db;
    var ids := Matching(db, name, filter);
    if ids.Ok? {
      UpdateEntries(mid, name, ids.value, assignments);
      OpenedThen(db, name, mid.active, UpdateAll(mid, name, ids.value, assignments).0.active);
    }
  }

  lemma DeleteOpens(db: Db, name: string, filter: Filter)
    ensures Opened(db, name, RunDelete(db, name, filter).0.active)
  {
    OpenEntries(db, name);
    var mid := if db.inTxn then EnsureTxn(db, name) else db;
    var ids := Matching(db, name, filter);
    if ids.Ok? {
      DeleteEntries(mid, name, ids.value);
      OpenedThen(db, name, mid.active, DeleteAll(mid, name, ids.value).0.active);
    }
  }

  lemma QueryOpens(db: Db, stmt: Statement)
    requires IsQuery(stmt)
    ensures Opened(db, TableOf(stmt), Execute(db, stmt).0.active)
  {
    match stmt
    case Insert(name, columns, values) => InsertOpens(db, name, columns, values);
    case Update(name, filter, assignments) => UpdateOpens(db, name, filter, assignments);
    case Delete(name, filter) => DeleteOpens(db, name, filter);
    case Select(_) =>
  }

  // ---------------------------------------------------------------- one step of a run

  /** A context's transactions after a step: closed, or kept with at most one opened at the present. */
  ghost predicate Advanced(db: Db, before: seq<Named>, after: seq<Named>) {
    || after == []
    || (&& |before| <= |after| && SameEntries(before, after[..|before|])
        && forall i :: |before| <= i < |after| ==>
             after[i].table in db.tables && after[i].txn.snapshot == db.tables[after[i].table].store.clock)
  }

  lemma OpenedAdvances(db: Db, name: string, active: seq<Named>)
    requires Opened(db, name, active)
    ensures Advanced(db, db.active, active)
  {
    if SameEntries(db.active, active) {
      assert active[..|db.active|] == active;
    }
  }

  lemma SelfAdvances(db: Db, active: seq<Named>)
    ensures Advanced(db, active, active)
  {
    assert active[..|active|] == active;
  }

  lemma StepAdvances(db: Db, step: Step, c: Context)
    requires DbOK(db)
    ensures Advanced(db, ActiveIn(db, c), ActiveIn(After(db, step).0, c))
  {
    SelfAdvances(db, ActiveIn(db, c));
    if IsQuery(step.stmt) {
      if step.session.Some? && SessionOf(db, step.session.value).inTxn {
        SessionAdvances(db, step.session.value, step.stmt, c);
      } else {
        GlobalAdvances(db, step.stmt, c);
      }
    }
  }

  lemma SessionAdvances(db: Db, sid: nat, stmt: Statement, c: Context)
    requires DbOK(db) && SessionOf(db, sid).inTxn && IsQuery(stmt)
    ensures Advanced(db, ActiveIn(db, c), ActiveIn(ExecuteInSession(db, sid, stmt).0, c))
  {
    SelfAdvances(db, ActiveIn(db, c));
    SessionQuery(db, sid, stmt);
    if c == Of(sid) {
      var own := AsSession(db, SessionOf(db, sid));
      QueryOpens(own, stmt);
      OpenedAdvances(own, TableOf(stmt), Execute(own, stmt).0.active);
    }
  }

  lemma GlobalAdvances(db: Db, stmt: Statement, c: Context)
    requires DbOK(db) && IsQuery(stmt)
    ensures Advanced(db, ActiveIn(db, c), ActiveIn(Execute(db, stmt).0, c))
  {
    SelfAdvances(db, ActiveIn(db, c));
    QueryConfined(db, stmt);
    if c == Global {
      QueryOpens(db, stmt);
      OpenedAdvances(db, TableOf(stmt), Execute(db, stmt).0.active);
    }
  }

  // ---------------------------------------------------------------- every run

  /**
    How many transactions the table of the `i`-th open transaction of a context had accepted when
    that transaction was opened.
  */
  ghost function TouchedAfter(w: World, steps: seq<Step>, c: Context, i: nat): nat
    requires i < |ActiveIn(Run(w, steps).db, c)|
  {
    if steps == [] then 0
    else
      var prev := steps[..|steps| - 1];
      var table := ActiveIn(Run(w, steps).db, c)[i].table;
      if i < |ActiveIn(Run(w, prev).db, c)| then TouchedAfter(w, prev, c, i)
      else if table in Run(w, prev).history then |Run(w, prev).history[table]| else 0
  }

  lemma PresentIs(w: World, table: string)
    requires HistoryOK(w.db.tables, w.history) && table in w.db.tables
    ensures table in w.history && w.db.tables[table].store.clock == |w.history[table]|
  {
    assert TableHistoryOK(w.db.tables[table].store, w.history[table]);
  }

  /** In every run a transaction sees a table as of its own first statement on it. */
  lemma {:induction false} SnapshotIsFirstTouch(w: World, steps: seq<Step>, c: Context, i: nat)
    requires Fresh(w) && i < |ActiveIn(Run(w, steps).db, c)|
    ensures ActiveIn(Run(w, steps).db, c)[i].txn.snapshot == TouchedAfter(w, steps, c, i)
  {
    if steps != [] {
      var prev, step := steps[..|steps| - 1], steps[|steps| - 1];
      RunKeeps(w, prev);
      StepAdvances(Run(w, prev).db, step, c);
      var before, after := ActiveIn(Run(w, prev).db, c), ActiveIn(Run(w, steps).db, c);
      if i < |before| {
        SnapshotIsFirstTouch(w, prev, c, i);
        assert after[..|before|][i] == after[i];
      } else {
        PresentIs(Run(w, prev), after[i].table);
      }
    }
  }

  /** A transaction accepted on the table after the first `start` wrote a row this one wrote. */
  ghost predicate OverwrittenSince(h: History, n: Named, start: nat) {
    n.table in h && exists k, id :: start <= k < |h[n.table]| && id in h[n.table][k].txn.writes && id in n.txn.writes
  }

  /** In every run a COMMIT fails exactly when, on some table, a rival writer was accepted after its own first statement there. */
  lemma CommitLosesExactly(w: World, steps: seq<Step>, session: Option<nat>)
    requires Fresh(w)
    requires var db := Run(w, steps).db; Open(db, ContextOf(db, Step(session, Commit)))
    ensures var r := Run(w, steps); var c := ContextOf(r.db, Step(session, Commit)); var active := ActiveIn(r.db, c);
      After(r.db, Step(session, Commit)).1.Err? <==>
        exists i :: 0 <= i < |active| && OverwrittenSince(r.history, active[i], TouchedAfter(w, steps, c, i))
  {
    CommitFailsExactly(w, steps, session);
    var r := Run(w, steps);
    var c := ContextOf(r.db, Step(session, Commit));
    forall i | 0 <= i < |ActiveIn(r.db, c)|
      ensures Beaten(r.history, ActiveIn(r.db, c)[i]) <==> OverwrittenSince(r.history, ActiveIn(r.db, c)[i], TouchedAfter(w, steps, c, i))
    {
      SnapshotIsFirstTouch(w, steps, c, i);
    }
  }
}
