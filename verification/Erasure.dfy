/** A transaction that rolls back can be erased from any run, unless it handed out row ids. */
module Erasure {
  import opened Common
  import opened Values
  import MvccModel
  import opened RelationalModel
  import opened SessionProofs
  import opened CommitProofs
  import opened SessionRuns

  // ---------------------------------------------------------------- statements do not look at sessions

  type Sessions = map<nat, Session>

  /** The database with another set of sessions. */
  ghost function Among(db: Db, sessions: Sessions): Db {
    db.(sessions := sessions)
  }

  lemma EnforceElsewhere(db: Db, x: Sessions, name: string, row: Row, exclude: Option<nat>)
    requires name in db.tables
    ensures Enforce(Among(db, x), name, row, exclude) == Enforce(db, name, row, exclude)
  {
    var schema := db.tables[name].schema;
    assert forall n, slots, key :: KeyPresent(Among(db, x), n, slots, key) == KeyPresent(db, n, slots, key);
    assert Dangles(Among(db, x), schema, row) == Dangles(db, schema, row);
  }

  lemma ReferencedElsewhere(db: Db, x: Sessions, name: string, row: Row)
    ensures Referenced(Among(db, x), name, row) == Referenced(db, name, row)
  {
    assert forall other :: other in db.tables ==> ReferencedFrom(Among(db, x), other, name, row) == ReferencedFrom(db, other, name, row);
  }

  lemma PutElsewhere(db: Db, x: Sessions, name: string, id: nat, v: Option<Row>)
    requires name in db.tables
    ensures Put(Among(db, x), name, id, v) == Among(Put(db, name, id, v), x)
  {
  }

  lemma {:induction false} CheckElsewhere(db: Db, x: Sessions, name: string, rows: seq<Row>, i: nat)
    requires name in db.tables && i <= |rows|
    ensures CheckBatch(Among(db, x), name, rows, i) == CheckBatch(db, name, rows, i)
    decreases |rows| - i
  {
    if i < |rows| {
      EnforceElsewhere(db, x, name, rows[i], None);
      CheckElsewhere(db, x, name, rows, i + 1);
    }
  }

  lemma InsertOneElsewhere(db: Db, x: Sessions, name: string, row: Row, supplied: bool)
    requires name in db.tables
    ensures InsertOne(Among(db, x), name, row, supplied) == Among(InsertOne(db, name, row, supplied), x)
  {
    PutElsewhere(IdTaken(db, name), x, name, db.tables[name].nextRowId, Some(WithId(row, db.tables[name].nextRowId, supplied)));
  }

  lemma {:induction false} InsertAllElsewhere(db: Db, x: Sessions, name: string, rows: seq<Row>, supplied: bool)
    requires name in db.tables
    ensures InsertAll(Among(db, x), name, rows, supplied) == Among(InsertAll(db, name, rows, supplied), x)
    decreases |rows|
  {
    if rows != [] {
      InsertOneElsewhere(db, x, name, rows[0], supplied);
      InsertAllElsewhere(InsertOne(db, name, rows[0], supplied), x, name, rows[1..], supplied);
    }
  }

  lemma PlanElsewhere(db: Db, x: Sessions, name: string, columns: seq<nat>, values: seq<Row>)
    ensures PlanInsert(Among(db, x), name, columns, values) == PlanInsert(db, name, columns, values)
  {
    if name in db.tables {
      var cols := TargetSlots(columns, db.tables[name].schema.width);
      if !UnknownSlot(cols, db.tables[name].schema.width) && !WrongArity(values, |cols|) {
        CheckElsewhere(db, x, name, Candidates(db.tables[name].schema.width, cols, values), 0);
      }
    }
  }

  lemma InsertElsewhere(db: Db, x: Sessions, name: string, columns: seq<nat>, values: seq<Row>)
    ensures var (db', r) := RunInsert(db, name, columns, values); RunInsert(Among(db, x), name, columns, values) == (Among(db', x), r)
  {
    var mid := if db.inTxn then EnsureTxn(db, name) else db;
    PlanElsewhere(mid, x, name, columns, values);
    var plan := PlanInsert(mid, name, columns, values);
    if plan.Ok? && name in mid.tables {
      InsertAllElsewhere(mid, x, name, plan.value.0, plan.value.1);
    }
  }

  lemma UpdateOneElsewhere(db: Db, x: Sessions, name: string, id: nat, assignments: seq<Assignment>)
    requires name in db.tables
    ensures var (db', r) := UpdateOne(db, name, id, assignments); UpdateOne(Among(db, x), name, id, assignments) == (Among(db', x), r)
  {
    var row := LiveRow(db, name, id);
    if row.Some? {
      var row' := Assigned(row.value, assignments);
      if row'.Ok? {
        EnforceElsewhere(db, x, name, row'.value, Some(id));
        PutElsewhere(db, x, name, id, Some(row'.value));
      }
    }
  }

  lemma {:induction false} UpdateAllElsewhere(db: Db, x: Sessions, name: string, ids: seq<nat>, assignments: seq<Assignment>)
    requires name in db.tables
    ensures var (db', r) := UpdateAll(db, name, ids, assignments); UpdateAll(Among(db, x), name, ids, assignments) == (Among(db', x), r)
    decreases |ids|
  {
    if ids != [] {
      UpdateOneElsewhere(db, x, name, ids[0], assignments);
      var (mid, r) := UpdateOne(db, name, ids[0], assignments);
      if r.Ok? {
        UpdateAllElsewhere(mid, x, name, ids[1..], assignments);
      }
    }
  }

  lemma DeleteOneElsewhere(db: Db, x: Sessions, name: string, id: nat)
    requires name in db.tables
    ensures var (db', r) := DeleteOne(db, name, id); DeleteOne(Among(db, x), name, id) == (Among(db', x), r)
  {
    var row := LiveRow(db, name, id);
    if row.Some? {
      ReferencedElsewhere(db, x, name, row.value);
      PutElsewhere(db, x, name, id, None);
    }
  }

  lemma {:induction false} DeleteAllElsewhere(db: Db, x: Sessions, name: string, ids: seq<nat>)
    requires name in db.tables
    ensures var (db', r) := DeleteAll(db, name, ids); DeleteAll(Among(db, x), name, ids) == (Among(db', x), r)
    decreases |ids|
  {
    if ids != [] {
      DeleteOneElsewhere(db, x, name, ids[0]);
      var (mid, r) := DeleteOne(db, name, ids[0]);
      if r.Ok? {
        DeleteAllElsewhere(mid, x, name, ids[1..]);
      }
    }
  }

  lemma UpdateElsewhere(db: Db, x: Sessions, name: string, filter: Filter, assignments: seq<Assignment>)
    ensures var (db', r) := RunUpdate(db, name, filter, assignments); RunUpdate(Among(db, x), name, filter, assignments) == (Among(db', x), r)
  {
    var ids := Matching(db, name, filter);
    if ids.Ok? {
      UpdateAllElsewhere(if db.inTxn then EnsureTxn(db, name) else db, x, name, ids.value, assignments);
    }
  }

  lemma DeleteElsewhere(db: Db, x: Sessions, name: string, filter: Filter)
    ensures var (db', r) := RunDelete(db, name, filter); RunDelete(Among(db, x), name, filter) == (Among(db', x), r)
  {
    var ids := Matching(db, name, filter);
    if ids.Ok? {
      DeleteAllElsewhere(if db.inTxn then EnsureTxn(db, name) else db, x, name, ids.value);
    }
  }

  /** Whatever a statement does, it does the same among any other sessions. */
  lemma ExecuteElsewhere(db: Db, x: Sessions, stmt: Statement)
    ensures var (db', r) := Execute(db, stmt); Execute(Among(db, x), stmt) == (Among(db', x), r)
  {
    match stmt
    case Begin =>
    case Commit =>
    case Rollback =>
    case Insert(name, cols, values) => InsertElsewhere(db, x, name, cols, values);
    case Update(name, filter, assignments) => UpdateElsewhere(db, x, name, filter, assignments);
    case Delete(name, filter) => DeleteElsewhere(db, x, name, filter);
    case Select(_) =>
  }

  // ---------------------------------------------------------------- databases that differ in one session

  /** The same database, but for the session `except`, if one is named. */
  ghost predicate AlikeBut(a: Db, b: Db, except: Option<nat>) {
    && a.tables == b.tables && a.inTxn == b.inTxn && a.active == b.active
    && forall sid: nat :: except != Some(sid) ==> SessionOf(a, sid) == SessionOf(b, sid)
  }

  lemma ExecuteAlike(a: Db, b: Db, except: Option<nat>, stmt: Statement)
    requires AlikeBut(a, b, except)
    ensures Execute(a, stmt).1 == Execute(b, stmt).1 && AlikeBut(Execute(a, stmt).0, Execute(b, stmt).0, except)
    ensures Execute(a, stmt).0.sessions == a.sessions && Execute(b, stmt).0.sessions == b.sessions
  {
    assert Among(a, a.sessions) == a && Among(a, b.sessions) == b;
    ExecuteElsewhere(a, a.sessions, stmt);
    ExecuteElsewhere(a, b.sessions, stmt);
    SessionsAlike(a, b, Execute(a, stmt).0, Execute(b, stmt).0, except);
  }

  lemma SessionsAlike(a: Db, b: Db, a': Db, b': Db, except: Option<nat>)
    requires AlikeBut(a, b, except) && a'.sessions == a.sessions && b'.sessions == b.sessions
    requires a'.tables == b'.tables && a'.inTxn == b'.inTxn && a'.active == b'.active
    ensures AlikeBut(a', b', except)
  {
    forall sid: nat | except != Some(sid) ensures SessionOf(a', sid) == SessionOf(b', sid) {
      assert SessionOf(a, sid) == SessionOf(b, sid);
    }
  }

  lemma SetAlike(a: Db, b: Db, except: Option<nat>, sid: nat, s: Session)
    requires AlikeBut(a, b, except)
    ensures AlikeBut(SetSession(a, sid, s), SetSession(b, sid, s), except)
  {
    forall t: nat | except != Some(t) ensures SessionOf(SetSession(a, sid, s), t) == SessionOf(SetSession(b, sid, s), t) {
      assert SessionOf(a, t) == SessionOf(b, t);
    }
  }

  /** A statement of a session in its transaction. */
  lemma SwappedAlike(a: Db, b: Db, except: Option<nat>, sid: nat, stmt: Statement)
    requires AlikeBut(a, b, except) && except != Some(sid) && SessionOf(a, sid).inTxn && IsQuery(stmt)
    ensures ExecuteInSession(a, sid, stmt).1 == ExecuteInSession(b, sid, stmt).1
    ensures AlikeBut(ExecuteInSession(a, sid, stmt).0, ExecuteInSession(b, sid, stmt).0, except)
  {
    var s := SessionOf(a, sid);
    assert SessionOf(b, sid) == s;
    SessionsAlike(a, b, AsSession(a, s), AsSession(b, s), except);
    ExecuteAlike(AsSession(a, s), AsSession(b, s), except, stmt);
    var ra, rb := Execute(AsSession(a, s), stmt).0, Execute(AsSession(b, s), stmt).0;
    SetAlike(ra, rb, except, sid, Session(true, ra.active));
    var sa, sb := SetSession(ra, sid, Session(true, ra.active)), SetSession(rb, sid, Session(true, rb.active));
    SessionsAlike(sa, sb, sa.(inTxn := a.inTxn, active := a.active), sb.(inTxn := b.inTxn, active := b.active), except);
  }

  /** BEGIN, COMMIT and ROLLBACK of a session. */
  lemma ControlAlike(a: Db, b: Db, except: Option<nat>, sid: nat, stmt: Statement)
    requires AlikeBut(a, b, except) && except != Some(sid) && !IsQuery(stmt)
    ensures ExecuteInSession(a, sid, stmt).1 == ExecuteInSession(b, sid, stmt).1
    ensures AlikeBut(ExecuteInSession(a, sid, stmt).0, ExecuteInSession(b, sid, stmt).0, except)
  {
    assert SessionOf(b, sid) == SessionOf(a, sid);
    SetAlike(a, b, except, sid, Session(stmt.Begin?, []));
    if stmt.Commit? {
      var tables := CommitEach(a.tables, SessionOf(a, sid).active).0;
      var sa, sb := SetSession(a, sid, Session(false, [])), SetSession(b, sid, Session(false, []));
      SessionsAlike(sa, sb, sa.(tables := tables), sb.(tables := tables), except);
    }
  }

  lemma ContextAlike(a: Db, b: Db, except: Option<nat>, step: Step)
    requires AlikeBut(a, b, except) && (except.Some? ==> step.session != except)
    ensures ContextOf(a, step) == ContextOf(b, step) && AcceptedIn(a, step) == AcceptedIn(b, step)
  {
    if step.session.Some? {
      assert SessionOf(a, step.session.value) == SessionOf(b, step.session.value);
    }
  }

  /** A step of anyone else has the same outcome and leaves the same difference. */
  lemma StepAlike(a: Db, b: Db, except: Option<nat>, step: Step)
    requires AlikeBut(a, b, except) && (except.Some? ==> step.session != except)
    ensures After(a, step).1 == After(b, step).1 && AlikeBut(After(a, step).0, After(b, step).0, except)
    ensures AcceptedIn(a, step) == AcceptedIn(b, step)
  {
    ContextAlike(a, b, except, step);
    ExecuteAlike(a, b, except, step.stmt);
    if step.session.Some? {
      var sid := step.session.value;
      assert SessionOf(a, sid) == SessionOf(b, sid);
      if !IsQuery(step.stmt) {
        ControlAlike(a, b, except, sid, step.stmt);
      } else if SessionOf(a, sid).inTxn {
        SwappedAlike(a, b, except, sid, step.stmt);
      }
    }
  }

  // ---------------------------------------------------------------- runs side by side

  /** The steps of a run other than those of session `sid`, if one is named. */
  ghost function Others(steps: seq<Step>, except: Option<nat>): seq<Step> {
    if steps == [] then []
    else
      var step := steps[|steps| - 1];
      Others(steps[..|steps| - 1], except) + if except.Some? && step.session == except then [] else [step]
  }

  /** Their outcomes. */
  ghost function Outcomes(w: World, steps: seq<Step>, except: Option<nat>): seq<Outcome> {
    if steps == [] then []
    else
      var init, step := steps[..|steps| - 1], steps[|steps| - 1];
      Outcomes(w, init, except) + if except.Some? && step.session == except then [] else [After(Run(w, init).db, step).1]
  }

  ghost predicate WorldsAlike(v: World, w: World, except: Option<nat>) {
    AlikeBut(v.db, w.db, except) && v.history == w.history
  }

  lemma NextAlike(v: World, w: World, except: Option<nat>, step: Step)
    requires WorldsAlike(v, w, except) && (except.Some? ==> step.session != except)
    ensures WorldsAlike(Next(v, step), Next(w, step), except) && After(v.db, step).1 == After(w.db, step).1
  {
    StepAlike(v.db, w.db, except, step);
  }

  /** The same steps from like worlds have the same outcomes and end in like worlds. */
  lemma {:induction false} RunAlike(v: World, w: World, steps: seq<Step>)
    requires WorldsAlike(v, w, None)
    ensures WorldsAlike(Run(v, steps), Run(w, steps), None) && Outcomes(v, steps, None) == Outcomes(w, steps, None)
  {
    if steps != [] {
      var init := steps[..|steps| - 1];
      RunAlike(v, w, init);
      NextAlike(Run(v, init), Run(w, init), None, steps[|steps| - 1]);
    }
  }

  // ---------------------------------------------------------------- row ids

  /** How many row ids of a table a statement hands out, by its outcome. */
  ghost function HandedOut(stmt: Statement, r: Outcome, name: string): nat {
    if stmt.Insert? && stmt.table == name && r.Ok? && r.value.Count? then r.value.n else 0
  }

  /** The id counters of two states, side by side. */
  ghost predicate CountersAfter(a: Tables, b: Tables, name: string, n: nat) {
    a.Keys == b.Keys && forall m :: m in a ==> b[m].nextRowId == a[m].nextRowId + if m == name then n else 0
  }

  lemma PutCounters(db: Db, name: string, id: nat, v: Option<Row>)
    requires name in db.tables
    ensures CountersAfter(db.tables, Put(db, name, id, v).tables, name, 0)
  {
  }

  lemma {:induction false} InsertAllCounters(db: Db, name: string, rows: seq<Row>, supplied: bool)
    requires name in db.tables
    ensures CountersAfter(db.tables, InsertAll(db, name, rows, supplied).tables, name, |rows|)
    decreases |rows|
  {
    if rows != [] {
      var id, mid := db.tables[name].nextRowId, IdTaken(db, name);
      PutCounters(mid, name, id, Some(WithId(rows[0], id, supplied)));
      assert CountersAfter(db.tables, InsertOne(db, name, rows[0], supplied).tables, name, 1);
      InsertAllCounters(InsertOne(db, name, rows[0], supplied), name, rows[1..], supplied);
    }
  }

  lemma {:induction false} UpdateAllCounters(db: Db, name: string, ids: seq<nat>, assignments: seq<Assignment>)
    requires name in db.tables
    ensures CountersAfter(db.tables, UpdateAll(db, name, ids, assignments).0.tables, name, 0)
    decreases |ids|
  {
    if ids != [] {
      var (mid, r) := UpdateOne(db, name, ids[0], assignments);
      assert CountersAfter(db.tables, mid.tables, name, 0);
      if r.Ok? {
        UpdateAllCounters(mid, name, ids[1..], assignments);
      }
    }
  }

  lemma {:induction false} DeleteAllCounters(db: Db, name: string, ids: seq<nat>)
    requires name in db.tables
    ensures CountersAfter(db.tables, DeleteAll(db, name, ids).0.tables, name, 0)
    decreases |ids|
  {
    if ids != [] {
      var (mid, r) := DeleteOne(db, name, ids[0]);
      assert CountersAfter(db.tables, mid.tables, name, 0);
      if r.Ok? {
        DeleteAllCounters(mid, name, ids[1..]);
      }
    }
  }

  ghost predicate Counted(a: Tables, b: Tables, stmt: Statement, r: Outcome) {
    a.Keys == b.Keys && forall m :: m in a ==> b[m].nextRowId == a[m].nextRowId + HandedOut(stmt, r, m)
  }

  lemma InsertCounters(db: Db, stmt: Statement)
    requires stmt.Insert?
    ensures Counted(db.tables, Execute(db, stmt).0.tables, stmt, Execute(db, stmt).1)
  {
    var mid := if db.inTxn then EnsureTxn(db, stmt.table) else db;
    var plan := PlanInsert(mid, stmt.table, stmt.cols, stmt.values);
    if plan.Ok? && stmt.table in mid.tables {
      InsertAllCounters(mid, stmt.table, plan.value.0, plan.value.1);
    }
  }

  lemma ChangeCounters(db: Db, stmt: Statement)
    requires stmt.Update? || stmt.Delete? || stmt.Select?
    ensures Counted(db.tables, Execute(db, stmt).0.tables, stmt, Execute(db, stmt).1)
  {
    if stmt.Update? || stmt.Delete? {
      var ids := Matching(db, stmt.table, stmt.filter);
      if ids.Ok? {
        var mid := if db.inTxn then EnsureTxn(db, stmt.table) else db;
        if stmt.Update? {
          UpdateAllCounters(mid, stmt.table, ids.value, stmt.assignments);
        } else {
          DeleteAllCounters(mid, stmt.table, ids.value);
        }
      }
    }
  }

  lemma QueryCounters(db: Db, stmt: Statement)
    requires IsQuery(stmt)
    ensures Counted(db.tables, Execute(db, stmt).0.tables, stmt, Execute(db, stmt).1)
  {
    if stmt.Insert? {
      InsertCounters(db, stmt);
    } else {
      ChangeCounters(db, stmt);
    }
  }

  /** Every step advances the id counters by exactly what its outcome says. */
  lemma StepCounters(w: World, step: Step)
    requires WorldOK(w)
    ensures Counted(w.db.tables, After(w.db, step).0.tables, step.stmt, After(w.db, step).1)
  {
    var db := w.db;
    if IsQuery(step.stmt) {
      QueryCounters(db, step.stmt);
      if step.session.Some? && SessionOf(db, step.session.value).inTxn {
        QueryCounters(AsSession(db, SessionOf(db, step.session.value)), step.stmt);
      }
    } else if step.stmt.Commit? {
      match step.session
      case None =>
        if db.inTxn {
          GlobalCommitTables(db.tables, w.history, db.active);
        }
      case Some(sid) =>
        ContextActive(db, Of(sid));
        CommitEachKeeps(db.tables, w.history, SessionOf(db, sid).active);
    }
  }

  // ---------------------------------------------------------------- the transaction's own steps

  /** An INSERT that stored at least one row. */
  ghost predicate StoresRows(stmt: Statement, r: Outcome) {
    stmt.Insert? && r.Ok? && r.value.Count? && r.value.n > 0
  }

  lemma SameTables(a: Tables, b: Tables)
    requires TablesKept(a, b, true) && forall n :: n in a ==> b[n].nextRowId == a[n].nextRowId
    ensures a == b
  {
    forall n | n in a ensures b[n] == a[n] {
    }
  }

  /** A statement inside the transaction that stores no row changes nothing but the session itself. */
  lemma OwnQuery(w: World, sid: nat, stmt: Statement)
    requires WorldOK(w) && SessionOf(w.db, sid).inTxn && IsQuery(stmt)
    requires !StoresRows(stmt, ExecuteInSession(w.db, sid, stmt).1)
    ensures AlikeBut(ExecuteInSession(w.db, sid, stmt).0, w.db, Some(sid))
    ensures SessionOf(ExecuteInSession(w.db, sid, stmt).0, sid).inTxn
  {
    var s, step := SessionOf(w.db, sid), Step(Some(sid), stmt);
    SessionQuery(w.db, sid, stmt);
    StepCounters(w, step);
    var ran := Execute(AsSession(w.db, s), stmt).0;
    SameTables(w.db.tables, ran.tables);
    var db' := ExecuteInSession(w.db, sid, stmt).0;
    forall t: nat | t != sid ensures SessionOf(db', t) == SessionOf(w.db, t) {
    }
  }

  /** A step of the transaction before it ends. */
  ghost predicate Inside(step: Step, sid: nat) {
    step.session == Some(sid) ==> !step.stmt.Commit? && !step.stmt.Rollback?
  }

  lemma OwnStep(w: World, sid: nat, step: Step)
    requires WorldOK(w) && SessionOf(w.db, sid).inTxn && step.session == Some(sid) && Inside(step, sid)
    requires !StoresRows(step.stmt, After(w.db, step).1)
    ensures WorldsAlike(Next(w, step), w, Some(sid)) && SessionOf(Next(w, step).db, sid).inTxn
  {
    if IsQuery(step.stmt) {
      OwnQuery(w, sid, step.stmt);
    }
  }

  lemma AlikeTransitive(u: World, v: World, w: World, except: Option<nat>)
    requires WorldsAlike(u, v, except) && WorldsAlike(v, w, except)
    ensures WorldsAlike(u, w, except)
  {
    forall sid: nat | except != Some(sid) ensures SessionOf(u.db, sid) == SessionOf(w.db, sid) {
      assert SessionOf(u.db, sid) == SessionOf(v.db, sid);
    }
  }

  /** Nobody else's step touches a session. */
  lemma OthersKeepSession(db: Db, step: Step, sid: nat)
    requires step.session != Some(sid)
    ensures SessionOf(After(db, step).0, sid) == SessionOf(db, sid)
  {
    ExecuteAlike(db, db, None, step.stmt);
    if step.session.Some? {
      var s := SessionOf(db, step.session.value);
      ExecuteAlike(AsSession(db, s), AsSession(db, s), None, step.stmt);
    }
  }

  // ---------------------------------------------------------------- erasing the transaction

  ghost predicate StoresNothing(w: World, steps: seq<Step>, sid: nat) {
    forall k :: 0 <= k < |steps| && steps[k].session == Some(sid) ==>
      !StoresRows(steps[k].stmt, After(Run(w, steps[..k]).db, steps[k]).1)
  }

  ghost predicate StoresLast(w: World, steps: seq<Step>, sid: nat)
    requires steps != []
  {
    var n := |steps| - 1;
    steps[n].session == Some(sid) && StoresRows(steps[n].stmt, After(Run(w, steps[..n]).db, steps[n]).1)
  }

  lemma StoresNothingInit(w: World, steps: seq<Step>, sid: nat)
    requires steps != []
    ensures StoresNothing(w, steps, sid) <==> StoresNothing(w, steps[..|steps| - 1], sid) && !StoresLast(w, steps, sid)
  {
    var n, init := |steps| - 1, steps[..|steps| - 1];
    assert forall k :: 0 <= k < n ==> init[..k] == steps[..k] && init[k] == steps[k];
  }

  ghost predicate AllInside(steps: seq<Step>, sid: nat) {
    forall k :: 0 <= k < |steps| ==> Inside(steps[k], sid)
  }

  lemma RunMore(w: World, steps: seq<Step>, step: Step)
    ensures Run(w, steps + [step]) == Next(Run(w, steps), step)
    ensures Outcomes(w, steps + [step], None) == Outcomes(w, steps, None) + [After(Run(w, steps).db, step).1]
  {
    assert (steps + [step])[..|steps|] == steps;
  }

  lemma {:induction false} RunStaysOK(w: World, steps: seq<Step>)
    requires WorldOK(w)
    ensures WorldOK(Run(w, steps))
  {
    if steps != [] {
      RunStaysOK(w, steps[..|steps| - 1]);
      StepKeeps(Run(w, steps[..|steps| - 1]), steps[|steps| - 1]);
    }
  }

  /** What the run with the transaction and the run without it have in common while the transaction is open. */
  ghost predicate InStep(v: World, w: World, steps: seq<Step>, sid: nat) {
    && WorldsAlike(Run(v, steps), Run(w, Others(steps, Some(sid))), Some(sid))
    && SessionOf(Run(v, steps).db, sid).inTxn && SessionOf(Run(w, Others(steps, Some(sid))).db, sid) == SessionOf(w.db, sid)
    && Outcomes(v, steps, Some(sid)) == Outcomes(w, Others(steps, Some(sid)), None)
  }

  lemma InStepOther(v: World, w: World, init: seq<Step>, step: Step, steps: seq<Step>, sid: nat)
    requires steps == init + [step] && InStep(v, w, init, sid) && step.session != Some(sid)
    ensures InStep(v, w, steps, sid)
  {
    assert steps[..|init|] == init;
    var others := Others(init, Some(sid));
    assert Others(steps, Some(sid)) == others + [step];
    RunMore(w, others, step);
    NextAlike(Run(v, init), Run(w, others), Some(sid), step);
    OthersKeepSession(Run(v, init).db, step, sid);
    OthersKeepSession(Run(w, others).db, step, sid);
  }

  lemma InStepOwn(v: World, w: World, init: seq<Step>, step: Step, steps: seq<Step>, sid: nat)
    requires steps == init + [step] && InStep(v, w, init, sid) && step.session == Some(sid) && Inside(step, sid)
    requires WorldOK(Run(v, init)) && !StoresRows(step.stmt, After(Run(v, init).db, step).1)
    ensures InStep(v, w, steps, sid)
  {
    assert steps[..|init|] == init;
    assert Others(steps, Some(sid)) == Others(init, Some(sid)) + [] == Others(init, Some(sid));
    assert Outcomes(v, steps, Some(sid)) == Outcomes(v, init, Some(sid)) + [] == Outcomes(v, init, Some(sid));
    OwnStep(Run(v, init), sid, step);
    AlikeTransitive(Run(v, steps), Run(v, init), Run(w, Others(init, Some(sid))), Some(sid));
  }

  lemma {:induction false} StaysInStep(v: World, w: World, steps: seq<Step>, sid: nat)
    requires WorldOK(v) && WorldsAlike(v, w, Some(sid)) && SessionOf(v.db, sid).inTxn
    requires AllInside(steps, sid) && StoresNothing(v, steps, sid)
    ensures InStep(v, w, steps, sid)
  {
    if steps != [] {
      var n, init := |steps| - 1, steps[..|steps| - 1];
      assert steps == init + [steps[n]];
      StoresNothingInit(v, steps, sid);
      StaysInStep(v, w, init, sid);
      if steps[n].session == Some(sid) {
        RunStaysOK(v, init);
        InStepOwn(v, w, init, steps[n], steps, sid);
      } else {
        InStepOther(v, w, init, steps[n], steps, sid);
      }
    }
  }

  /** A session outside a transaction holds none. */
  ghost predicate IdleAreEmpty(db: Db) {
    forall sid: nat :: !SessionOf(db, sid).inTxn ==> SessionOf(db, sid) == Session(false, [])
  }

  lemma StepIdle(db: Db, step: Step)
    requires IdleAreEmpty(db)
    ensures IdleAreEmpty(After(db, step).0)
  {
    forall sid: nat | !SessionOf(After(db, step).0, sid).inTxn ensures SessionOf(After(db, step).0, sid) == Session(false, []) {
      if step.session != Some(sid) {
        OthersKeepSession(db, step, sid);
      } else {
        ExecuteAlike(db, db, None, step.stmt);
      }
    }
  }

  lemma {:induction false} RunIdle(w: World, steps: seq<Step>)
    requires IdleAreEmpty(w.db)
    ensures IdleAreEmpty(Run(w, steps).db)
  {
    if steps != [] {
      RunIdle(w, steps[..|steps| - 1]);
      StepIdle(Run(w, steps[..|steps| - 1]).db, steps[|steps| - 1]);
    }
  }

  ghost function BeginOf(sid: nat): Step {
    Step(Some(sid), Begin)
  }

  ghost function RollbackOf(sid: nat): Step {
    Step(Some(sid), Rollback)
  }

  lemma BegunAlike(w: World, sid: nat)
    requires WorldOK(w) && SessionOf(w.db, sid) == Session(false, [])
    ensures var b := Next(w, BeginOf(sid));
      && WorldOK(b) && WorldsAlike(b, w, Some(sid)) && SessionOf(b.db, sid).inTxn && b.db.tables == w.db.tables
  {
    StepKeeps(w, BeginOf(sid));
  }

  /** Rolling back removes the last difference. */
  lemma RolledBackAlike(v: World, w: World, sid: nat)
    requires WorldsAlike(v, w, Some(sid)) && SessionOf(v.db, sid).inTxn && SessionOf(w.db, sid) == Session(false, [])
    ensures WorldsAlike(Next(v, RollbackOf(sid)), w, None)
  {
    var db' := Next(v, RollbackOf(sid)).db;
    forall t: nat ensures SessionOf(db', t) == SessionOf(w.db, t) {
      if t != sid {
        assert SessionOf(v.db, t) == SessionOf(w.db, t);
      }
    }
  }

  /** The world after BEGIN, `mid` and ROLLBACK. */
  ghost function RolledBack(w: World, sid: nat, mid: seq<Step>): World {
    Next(Run(Next(w, BeginOf(sid)), mid), RollbackOf(sid))
  }

  /** The world after the other steps of `mid` alone. */
  ghost function Without(w: World, sid: nat, mid: seq<Step>): World {
    Run(w, Others(mid, Some(sid)))
  }

  /**
    Nobody can tell whether the transaction ran: every other step, during it and after it, has the
    same outcome, and the databases end alike.
  */
  ghost predicate Indistinguishable(w: World, sid: nat, mid: seq<Step>, post: seq<Step>) {
    && Outcomes(Next(w, BeginOf(sid)), mid, Some(sid)) == Outcomes(w, Others(mid, Some(sid)), None)
    && Outcomes(RolledBack(w, sid, mid), post, None) == Outcomes(Without(w, sid, mid), post, None)
    && WorldsAlike(Run(RolledBack(w, sid, mid), post), Run(Without(w, sid, mid), post), None)
  }

  lemma ErasedIfNothingStored(w: World, sid: nat, mid: seq<Step>, post: seq<Step>)
    requires WorldOK(w) && SessionOf(w.db, sid) == Session(false, []) && AllInside(mid, sid)
    requires StoresNothing(Next(w, BeginOf(sid)), mid, sid)
    ensures Indistinguishable(w, sid, mid, post)
  {
    BegunAlike(w, sid);
    var b := Next(w, BeginOf(sid));
    StaysInStep(b, w, mid, sid);
    RolledBackAlike(Run(b, mid), Without(w, sid, mid), sid);
    RunAlike(RolledBack(w, sid, mid), Without(w, sid, mid), post);
  }

  // ---------------------------------------------------------------- counting ids over a run

  /** The row ids of a table that the steps of session `except` hand out. */
  ghost function OwnIds(w: World, steps: seq<Step>, except: Option<nat>, name: string): nat {
    if steps == [] then 0
    else
      var init, step := steps[..|steps| - 1], steps[|steps| - 1];
      OwnIds(w, init, except, name) +
      if except.Some? && step.session == except then HandedOut(step.stmt, After(Run(w, init).db, step).1, name) else 0
  }

  /** The row ids that steps with the given outcomes hand out. */
  ghost function IdsOf(steps: seq<Step>, outcomes: seq<Outcome>, name: string): nat
    requires |steps| == |outcomes|
  {
    if steps == [] then 0
    else IdsOf(steps[..|steps| - 1], outcomes[..|steps| - 1], name) + HandedOut(steps[|steps| - 1].stmt, outcomes[|steps| - 1], name)
  }

  lemma {:induction false} OutcomePerStep(w: World, steps: seq<Step>, except: Option<nat>)
    ensures |Outcomes(w, steps, except)| == |Others(steps, except)|
  {
    if steps != [] {
      OutcomePerStep(w, steps[..|steps| - 1], except);
    }
  }

  lemma IdsOfMore(steps: seq<Step>, outcomes: seq<Outcome>, step: Step, r: Outcome, name: string)
    requires |steps| == |outcomes|
    ensures IdsOf(steps + [step], outcomes + [r], name) == IdsOf(steps, outcomes, name) + HandedOut(step.stmt, r, name)
  {
    assert (steps + [step])[..|steps|] == steps && (outcomes + [r])[..|steps|] == outcomes;
  }

  /** The id counters at the end of a run, by what its own and its other steps handed out. */
  lemma {:induction false} RunCounters(w: World, steps: seq<Step>, except: Option<nat>, name: string)
    requires WorldOK(w) && name in w.db.tables
    ensures |Outcomes(w, steps, except)| == |Others(steps, except)|
    ensures name in Run(w, steps).db.tables
    ensures Run(w, steps).db.tables[name].nextRowId == w.db.tables[name].nextRowId + OwnIds(w, steps, except, name) +
            IdsOf(Others(steps, except), Outcomes(w, steps, except), name)
  {
    OutcomePerStep(w, steps, except);
    if steps != [] {
      var init, step := steps[..|steps| - 1], steps[|steps| - 1];
      RunCounters(w, init, except, name);
      RunStaysOK(w, init);
      StepCounters(Run(w, init), step);
      IdsOfMore(Others(init, except), Outcomes(w, init, except), step, After(Run(w, init).db, step).1, name);
      assert Others(init, except) + [] == Others(init, except) && Outcomes(w, init, except) + [] == Outcomes(w, init, except);
    }
  }

  lemma {:induction false} NoneExcepted(w: World, steps: seq<Step>, name: string)
    ensures Others(steps, None) == steps && OwnIds(w, steps, None, name) == 0
  {
    if steps != [] {
      NoneExcepted(w, steps[..|steps| - 1], name);
      assert steps == steps[..|steps| - 1] + [steps[|steps| - 1]];
    }
  }

  /** The run with the transaction is ahead by the ids it handed out, if nobody else's outcome differs. */
  lemma AheadByOwnIds(w: World, sid: nat, mid: seq<Step>, post: seq<Step>, name: string)
    requires WorldOK(w) && SessionOf(w.db, sid) == Session(false, []) && name in w.db.tables
    requires Indistinguishable(w, sid, mid, post)
    ensures OwnIds(Next(w, BeginOf(sid)), mid, Some(sid), name) == 0
  {
    var b := Next(w, BeginOf(sid));
    BegunAlike(w, sid);
    RunStaysOK(b, mid);
    StepKeeps(Run(b, mid), RollbackOf(sid));
    StepCounters(Run(b, mid), RollbackOf(sid));
    RunStaysOK(w, Others(mid, Some(sid)));
    RunCounters(b, mid, Some(sid), name);
    RunCounters(w, Others(mid, Some(sid)), None, name);
    NoneExcepted(w, Others(mid, Some(sid)), name);
    RunCounters(RolledBack(w, sid, mid), post, None, name);
    NoneExcepted(RolledBack(w, sid, mid), post, name);
    RunCounters(Without(w, sid, mid), post, None, name);
    NoneExcepted(Without(w, sid, mid), post, name);
  }

  /** An INSERT that stored rows names a table. */
  lemma StoringNamesTable(w: World, step: Step)
    requires WorldOK(w) && StoresRows(step.stmt, After(w.db, step).1)
    ensures step.stmt.table in w.db.tables
  {
    if step.session.Some? && SessionOf(w.db, step.session.value).inTxn {
      PlannedTable(AsSession(w.db, SessionOf(w.db, step.session.value)), step.stmt);
    } else {
      PlannedTable(w.db, step.stmt);
    }
  }

  lemma PlannedTable(db: Db, stmt: Statement)
    requires stmt.Insert? && Execute(db, stmt).1.Ok?
    ensures stmt.table in db.tables
  {
  }

  lemma StoringHandsOut(w: World, steps: seq<Step>, sid: nat)
    requires WorldOK(w) && steps != [] && StoresLast(w, steps, sid)
    ensures exists name :: name in w.db.tables && OwnIds(w, steps, Some(sid), name) > 0
  {
    var n, init := |steps| - 1, steps[..|steps| - 1];
    RunStaysOK(w, init);
    StoringNamesTable(Run(w, init), steps[n]);
    SameKeys(w, init);
    assert steps[n].stmt.table in w.db.tables && OwnIds(w, steps, Some(sid), steps[n].stmt.table) > 0;
  }

  lemma {:induction false} NoIdsNothingStored(w: World, steps: seq<Step>, sid: nat)
    requires WorldOK(w) && forall name :: name in w.db.tables ==> OwnIds(w, steps, Some(sid), name) == 0
    ensures StoresNothing(w, steps, sid)
  {
    if steps != [] {
      StoresNothingInit(w, steps, sid);
      NoIdsNothingStored(w, steps[..|steps| - 1], sid);
      if StoresLast(w, steps, sid) {
        StoringHandsOut(w, steps, sid);
      }
    }
  }

  lemma {:induction false} SameKeys(w: World, steps: seq<Step>)
    requires WorldOK(w)
    ensures Run(w, steps).db.tables.Keys == w.db.tables.Keys
  {
    if steps != [] {
      var init := steps[..|steps| - 1];
      SameKeys(w, init);
      RunStaysOK(w, init);
      StepCounters(Run(w, init), steps[|steps| - 1]);
    }
  }

  /**
    Rollback: take any run, any session outside a transaction after `pre`, and let it BEGIN, take
    part in any interleaving `mid` without ending its transaction, and ROLLBACK. Whoever else
    commits or autocommits meanwhile, erasing the transaction's steps leaves every other outcome,
    during it and in any continuation `post`, and the whole database as they were if and only if
    none of its INSERTs stored a row.
  */
  lemma RollbackErasesExactly(w: World, pre: seq<Step>, sid: nat, mid: seq<Step>, post: seq<Step>)
    requires Fresh(w) && !SessionOf(Run(w, pre).db, sid).inTxn && AllInside(mid, sid)
    ensures Indistinguishable(Run(w, pre), sid, mid, post) <==> StoresNothing(Next(Run(w, pre), BeginOf(sid)), mid, sid)
  {
    var v := Run(w, pre);
    RunKeeps(w, pre);
    RunIdle(w, pre);
    assert SessionOf(v.db, sid) == Session(false, []);
    BegunAlike(v, sid);
    if StoresNothing(Next(v, BeginOf(sid)), mid, sid) {
      ErasedIfNothingStored(v, sid, mid, post);
    }
    if Indistinguishable(v, sid, mid, post) {
      forall name | name in v.db.tables ensures OwnIds(Next(v, BeginOf(sid)), mid, Some(sid), name) == 0 {
        AheadByOwnIds(v, sid, mid, post, name);
      }
      NoIdsNothingStored(Next(v, BeginOf(sid)), mid, sid);
    }
  }

  // ---------------------------------------------------------------- a rolled-back INSERT that shows

  /** An empty table of two columns without constraints, whose next row id is `next`. */
  ghost predicate EmptyAt(db: Db, next: nat) {
    && "t" in db.tables && db.tables["t"].schema == Schema(2, [], [], [], []) && db.tables["t"].tree == map[]
    && db.tables["t"].nextRowId == next
  }

  ghost predicate TableHolds(db: Db, tree: Tree) {
    "t" in db.tables && db.tables["t"].tree == tree
  }

  ghost function InsertFive(): Statement {
    Insert("t", [1], [[Int(5)]])
  }

  /** Its row is stored unless a UNIQUE group of the table already holds its key. */
  lemma FivePlanned(db: Db, unique: seq<seq<nat>>)
    requires "t" in db.tables && db.tables["t"].schema == Schema(2, [], unique, [], [])
    ensures PlanInsert(db, "t", [1], [[Int(5)]]) ==
            if Duplicates(db.tables["t"], WritesFor(db.active, "t"), [Null, Int(5)], None) then Err(UniqueViolation)
            else Ok(([[Null, Int(5)]], false))
  {
    assert Nulls(1) == [Null];
    assert Nulls(2) == [Null, Null];
    assert [1][1..] == [] && [Int(5)][1..] == [] && [[Int(5)]][1..] == [];
    var row := [Null, Int(5)];
    assert Filled(Nulls(2), [1], [Int(5)]) == Filled(row, [], []) == row;
    assert Candidates(2, [1], [[Int(5)]]) == [row];
    assert !DuplicatesInBatch(db.tables["t"].schema, [row], 0);
    assert CheckBatch(db, "t", [row], 1).None?;
    assert CheckBatch(db, "t", [row], 0) == Enforce(db, "t", row, None);
  }

  /** Outside a transaction the row goes straight into the tree, under the next id. */
  lemma FiveStored(db: Db, next: nat)
    requires EmptyAt(db, next) && !db.inTxn
    ensures TableHolds(Execute(db, InsertFive()).0, map[next := [Int(next), Int(5)]])
  {
    FivePlanned(db, []);
    var row := [Null, Int(5)];
    assert WithId(row, next, false) == [Int(next), Int(5)];
    assert [row][1..] == [];
    assert InsertAll(InsertOne(db, "t", row, false), "t", [], false) == InsertOne(db, "t", row, false);
  }

  /** Inside one it is counted, and the table hands out the id. */
  lemma FiveBuffered(w: World, sid: nat, next: nat)
    requires WorldOK(w) && EmptyAt(w.db, next) && SessionOf(w.db, sid).inTxn && !w.db.inTxn
    ensures var db' := ExecuteInSession(w.db, sid, InsertFive()).0;
      EmptyAt(db', next + 1) && !db'.inTxn && SessionOf(db', sid).inTxn
  {
    var s := SessionOf(w.db, sid);
    SessionQuery(w.db, sid, InsertFive());
    StepCounters(w, Step(Some(sid), InsertFive()));
    FivePlanned(EnsureTxn(AsSession(w.db, s), "t"), []);
  }

  ghost function EmptyWorld(): World {
    World(Db(map["t" := Table(Schema(2, [], [], [], []), map[], 0, MvccModel.NewStore())], false, [], map[]), map["t" := []])
  }

  /**
    BEGIN; INSERT; ROLLBACK in one session, then an INSERT by anyone: the new row has id 1. Without
    the transaction it has id 0.
  */
  lemma RolledBackInsertShows()
    ensures Fresh(EmptyWorld())
    ensures var insert := Step(Some(1), InsertFive()); var later := Step(None, InsertFive()); var w := EmptyWorld();
      && TableHolds(Run(RolledBack(w, 1, [insert]), [later]).db, map[1 := [Int(1), Int(5)]])
      && TableHolds(Run(Without(w, 1, [insert]), [later]).db, map[0 := [Int(0), Int(5)]])
  {
    var insert, later, w := Step(Some(1), InsertFive()), Step(None, InsertFive()), EmptyWorld();
    RunKeeps(w, []);
    var b := Next(w, BeginOf(1));
    BegunAlike(w, 1);
    FiveBuffered(b, 1, 0);
    assert [insert][..0] == [] && Run(b, []) == b;
    assert Run(b, [insert]) == Next(b, insert);
    assert EmptyAt(RolledBack(w, 1, [insert]).db, 1);
    OneMoreRun(RolledBack(w, 1, [insert]), later);
    FiveStored(RolledBack(w, 1, [insert]).db, 1);
    assert Others([insert], Some(1)) == [];
    OneMoreRun(w, later);
    FiveStored(w.db, 0);
  }

  lemma OneMoreRun(w: World, step: Step)
    ensures Run(w, [step]) == Next(w, step)
  {
    assert [step][..0] == [];
  }
}
