/** Every interleaving of sessions: isolation, rollback, and at most one of two overlapping writers. */
module SessionRuns {
  import opened Common
  import opened Values
  import opened MvccModel
  import opened RelationalModel
  import opened SessionProofs
  import opened CommitProofs
  import opened DmlEffects
  import MvccProofs

  // ---------------------------------------------------------------- who runs where

  /** Statements given without a session, or by a session outside a transaction, share the global context. */
  datatype Context = Global | Of(sid: nat)

  ghost function ActiveIn(db: Db, c: Context): seq<Named> {
    match c case Global => db.active case Of(sid) => SessionOf(db, sid).active
  }

  /** What a scan of a table shows in a context. */
  ghost function Scan(db: Db, c: Context, name: string): seq<Row>
    requires name in db.tables
  {
    ScanFrom(db.tables[name], WritesFor(ActiveIn(db, c), name), 0)
  }

  datatype Step = Step(session: Option<nat>, stmt: Statement)

  ghost function After(db: Db, step: Step): (Db, Outcome) {
    match step.session
    case None => Execute(db, step.stmt)
    case Some(sid) => ExecuteInSession(db, sid, step.stmt)
  }

  /** The context a step runs in; BEGIN, COMMIT and ROLLBACK of a session always concern its own. */
  ghost function ContextOf(db: Db, step: Step): Context {
    match step.session
    case None => Global
    case Some(sid) => if SessionOf(db, sid).inTxn || !IsQuery(step.stmt) then Of(sid) else Global
  }

  ghost predicate Open(db: Db, c: Context) {
    match c case Global => db.inTxn case Of(sid) => SessionOf(db, sid).inTxn
  }

  /** The transactions a step gets past validation. */
  ghost function AcceptedIn(db: Db, step: Step): seq<Named> {
    if step.stmt.Commit? && Open(db, ContextOf(db, step)) then AcceptedBy(db.tables, ActiveIn(db, ContextOf(db, step))) else []
  }

  /** The database and what its version stores have accepted. */
  datatype World = World(db: Db, history: History)

  ghost function Next(w: World, step: Step): World {
    World(After(w.db, step).0, RecordAll(w.history, AcceptedIn(w.db, step)))
  }

  ghost predicate WorldOK(w: World) {
    DbOK(w.db) && HistoryOK(w.db.tables, w.history)
  }

  // ---------------------------------------------------------------- what every step keeps

  lemma KeptHistory(a: Tables, b: Tables, inTxn: bool, h: History)
    requires TablesKept(a, b, inTxn) && HistoryOK(a, h)
    ensures HistoryOK(b, h)
  {
  }

  lemma ConfinedDb(db: Db, db': Db)
    requires DbOK(db) && Confined(db, db')
    ensures DbOK(db')
  {
    forall sid | sid in db'.sessions ensures ActiveOK(db'.tables, db'.sessions[sid].active) {
      KeptActive(db.tables, db'.tables, db.inTxn, db.sessions[sid].active);
    }
  }

  /** What a statement of a session in a transaction leaves behind. */
  ghost function Restored(db: Db, sid: nat, ran: Db): Db {
    SetSession(ran, sid, Session(true, ran.active)).(inTxn := db.inTxn, active := db.active)
  }

  lemma RestoredOK(db: Db, sid: nat, ran: Db)
    requires DbOK(db) && SessionOf(db, sid).inTxn && Confined(AsSession(db, SessionOf(db, sid)), ran)
    ensures DbOK(Restored(db, sid, ran))
  {
    var db' := Restored(db, sid, ran);
    KeptActive(db.tables, ran.tables, true, db.active);
    forall s | s in db'.sessions ensures ActiveOK(db'.tables, db'.sessions[s].active) {
      if s != sid {
        KeptActive(db.tables, ran.tables, true, db.sessions[s].active);
      }
    }
  }

  lemma SessionQuery(db: Db, sid: nat, stmt: Statement)
    requires DbOK(db) && SessionOf(db, sid).inTxn && IsQuery(stmt)
    ensures var ran := Execute(AsSession(db, SessionOf(db, sid)), stmt).0;
      && Confined(AsSession(db, SessionOf(db, sid)), ran)
      && ExecuteInSession(db, sid, stmt).0 == Restored(db, sid, ran)
  {
    assert ActiveOK(db.tables, SessionOf(db, sid).active);
    QueryConfined(AsSession(db, SessionOf(db, sid)), stmt);
  }

  lemma CommitKeptDb(db: Db, tables: Tables)
    requires DbOK(db) && CommitKept(db.tables, tables)
    ensures DbOK(db.(tables := tables))
  {
    CommitKeptActive(db.tables, tables, db.active);
    forall s | s in db.sessions ensures ActiveOK(tables, db.sessions[s].active) {
      CommitKeptActive(db.tables, tables, db.sessions[s].active);
    }
  }

  lemma SessionCleared(db: Db, sid: nat, inTxn: bool)
    requires DbOK(db)
    ensures DbOK(SetSession(db, sid, Session(inTxn, [])))
  {
  }

  lemma SessionCommitKeeps(w: World, sid: nat)
    requires WorldOK(w) && SessionOf(w.db, sid).inTxn
    ensures WorldOK(World(SessionCommit(w.db, sid).0, RecordAll(w.history, AcceptedBy(w.db.tables, SessionOf(w.db, sid).active))))
  {
    var s := SessionOf(w.db, sid);
    CommitEachKeeps(w.db.tables, w.history, s.active);
    var tables := CommitEach(w.db.tables, s.active).0;
    CommitKeptDb(w.db, tables);
    SessionCleared(w.db.(tables := tables), sid, false);
  }

  lemma StoresKept(a: Tables, b: Tables)
    requires SameButStores(a, b)
    ensures CommitKept(a, b)
  {
  }

  lemma TreesKept(a: Tables, b: Tables)
    requires SameButTrees(a, b)
    ensures CommitKept(a, b)
  {
  }

  lemma GlobalCommitTables(tables: Tables, h: History, txns: seq<Named>)
    requires HistoryOK(tables, h) && ActiveOK(tables, txns)
    ensures var (mid, ok) := ValidateAll(tables, txns); var end := if ok then WriteBackAll(mid, txns) else mid;
      CommitKept(tables, end) && HistoryOK(end, RecordAll(h, AcceptedBy(tables, txns)))
  {
    ValidateAllIs(tables, txns);
    ValidateAllKeeps(tables, h, txns);
    var (mid, ok) := ValidateAll(tables, txns);
    StoresKept(tables, mid);
    if ok {
      CommitKeptActive(tables, mid, txns);
      WriteBackAllKeeps(mid, txns);
      TreesKept(mid, WriteBackAll(mid, txns));
      SameButTreesKeeps(mid, WriteBackAll(mid, txns), RecordAll(h, AcceptedBy(tables, txns)), []);
      CommitKeptTransitive(tables, mid, WriteBackAll(mid, txns));
    }
  }

  lemma GlobalCommitKeeps(w: World)
    requires WorldOK(w) && w.db.inTxn
    ensures WorldOK(World(RunCommit(w.db).0, RecordAll(w.history, AcceptedBy(w.db.tables, w.db.active))))
  {
    var db := w.db;
    GlobalCommitTables(db.tables, w.history, db.active);
    var (mid, ok) := ValidateAll(db.tables, db.active);
    var end := if ok then WriteBackAll(mid, db.active) else mid;
    CommitKeptDb(db, end);
    GlobalCleared(db.(tables := end));
  }

  lemma GlobalCleared(db: Db)
    requires DbOK(db)
    ensures DbOK(db.(inTxn := false, active := []))
  {
  }

  lemma QueryKeeps(w: World, step: Step)
    requires WorldOK(w) && IsQuery(step.stmt)
    ensures WorldOK(World(After(w.db, step).0, w.history))
  {
    var db := w.db;
    if step.session.Some? && SessionOf(db, step.session.value).inTxn {
      var sid := step.session.value;
      SessionQuery(db, sid, step.stmt);
      var ran := Execute(AsSession(db, SessionOf(db, sid)), step.stmt).0;
      RestoredOK(db, sid, ran);
      KeptHistory(db.tables, ran.tables, true, w.history);
    } else {
      QueryConfined(db, step.stmt);
      ConfinedDb(db, Execute(db, step.stmt).0);
      KeptHistory(db.tables, Execute(db, step.stmt).0.tables, db.inTxn, w.history);
    }
  }

  lemma ControlKeeps(w: World, step: Step)
    requires WorldOK(w) && (step.stmt.Begin? || step.stmt.Rollback?)
    ensures WorldOK(World(After(w.db, step).0, w.history))
  {
    if step.session.Some? {
      SessionCleared(w.db, step.session.value, step.stmt.Begin?);
    }
  }

  lemma StepKeeps(w: World, step: Step)
    requires WorldOK(w)
    ensures WorldOK(Next(w, step))
  {
    if IsQuery(step.stmt) {
      QueryKeeps(w, step);
    } else if step.stmt.Commit? {
      if Open(w.db, ContextOf(w.db, step)) {
        match step.session
        case None => GlobalCommitKeeps(w);
        case Some(sid) => SessionCommitKeeps(w, sid);
      }
    } else {
      ControlKeeps(w, step);
    }
  }

  // ---------------------------------------------------------------- runs

  /** A database whose tables are filled but on which no transaction has run yet. */
  ghost predicate Fresh(w: World) {
    && !w.db.inTxn && w.db.active == [] && w.db.sessions == map[] && w.history.Keys == w.db.tables.Keys
    && forall n :: n in w.db.tables ==> TreeOK(w.db.tables[n]) && w.db.tables[n].store == NewStore() && w.history[n] == []
  }

  ghost function Run(w: World, steps: seq<Step>): World {
    if steps == [] then w else Next(Run(w, steps[..|steps| - 1]), steps[|steps| - 1])
  }

  lemma {:induction false} RunKeeps(w: World, steps: seq<Step>)
    requires Fresh(w)
    ensures WorldOK(Run(w, steps))
  {
    if steps != [] {
      RunKeeps(w, steps[..|steps| - 1]);
      StepKeeps(Run(w, steps[..|steps| - 1]), steps[|steps| - 1]);
    }
  }

  // ---------------------------------------------------------------- isolation

  /** A step that publishes nothing: all but COMMIT, and writing statements outside any transaction. */
  ghost predicate Private(db: Db, step: Step) {
    !step.stmt.Commit? && (IsQuery(step.stmt) && !step.stmt.Select? ==> Open(db, ContextOf(db, step)))
  }

  ghost predicate SameTrees(a: Db, b: Db) {
    a.tables.Keys == b.tables.Keys && forall n :: n in a.tables ==> b.tables[n].tree == a.tables[n].tree
  }

  /** In context `c` every scan shows the same rows before and after. */
  ghost predicate SameScans(a: Db, b: Db, c: Context) {
    a.tables.Keys == b.tables.Keys && forall n :: n in a.tables ==> Scan(b, c, n) == Scan(a, c, n)
  }

  lemma ContextActive(db: Db, c: Context)
    requires DbOK(db)
    ensures ActiveOK(db.tables, ActiveIn(db, c))
  {
  }

  /** The writes a context has buffered for a table are to rows that table has handed out. */
  lemma WritesKnown(tables: Tables, active: seq<Named>, name: string)
    requires ActiveOK(tables, active) && name in tables
    ensures forall id :: id in WritesFor(active, name) ==> id < tables[name].nextRowId
  {
    match FindTxn(active, name)
    case Some(i) => assert NamedOK(tables, active[i]);
    case None =>
  }

  lemma ScansKept(db: Db, db': Db, c: Context)
    requires DbOK(db) && TablesKept(db.tables, db'.tables, true) && ActiveIn(db', c) == ActiveIn(db, c)
    ensures SameScans(db, db', c)
  {
    ContextActive(db, c);
    forall n | n in db.tables ensures Scan(db', c, n) == Scan(db, c, n) {
      WritesKnown(db.tables, ActiveIn(db, c), n);
      ScanOfGrown(db.tables[n], db'.tables[n], WritesFor(ActiveIn(db, c), n), 0);
    }
  }

  lemma PrivateTables(db: Db, step: Step)
    requires DbOK(db) && Private(db, step)
    ensures TablesKept(db.tables, After(db, step).0.tables, true)
    ensures forall c :: c != ContextOf(db, step) ==> ActiveIn(After(db, step).0, c) == ActiveIn(db, c)
  {
    if IsQuery(step.stmt) && !step.stmt.Select? {
      if step.session.Some? && SessionOf(db, step.session.value).inTxn {
        SessionQuery(db, step.session.value, step.stmt);
      } else {
        QueryConfined(db, step.stmt);
      }
    }
  }

  /** A step that publishes nothing changes no tree, and no scan in any context but its own. */
  lemma PrivateStep(db: Db, step: Step, c: Context)
    requires DbOK(db) && Private(db, step)
    ensures SameTrees(db, After(db, step).0)
    ensures c != ContextOf(db, step) ==> SameScans(db, After(db, step).0, c)
  {
    PrivateTables(db, step);
    if c != ContextOf(db, step) {
      ScansKept(db, After(db, step).0, c);
    }
  }

  /** From step `i` on, every step is private and runs elsewhere than in `c`. */
  ghost predicate PrivateElsewhere(w: World, steps: seq<Step>, i: nat, c: Context) {
    forall k :: i <= k < |steps| ==>
      Private(Run(w, steps[..k]).db, steps[k]) && ContextOf(Run(w, steps[..k]).db, steps[k]) != c
  }

  lemma PrivateInit(w: World, steps: seq<Step>, i: nat, c: Context)
    requires i < |steps|
    ensures PrivateElsewhere(w, steps, i, c) ==> PrivateElsewhere(w, steps[..|steps| - 1], i, c)
  {
    var init := steps[..|steps| - 1];
    assert forall k :: i <= k < |init| ==> init[..k] == steps[..k] && init[k] == steps[k];
  }

  lemma ScansTransitive(x: Db, y: Db, z: Db, c: Context)
    requires SameScans(x, y, c) && SameScans(y, z, c)
    ensures SameScans(x, z, c)
  {
  }

  /**
    Isolation: in every run, however many statements other contexts execute inside their
    transactions, begin or roll back, no scan in context `c` changes.
  */
  lemma {:induction false} Isolation(w: World, steps: seq<Step>, i: nat, c: Context)
    requires Fresh(w) && i <= |steps| && PrivateElsewhere(w, steps, i, c)
    ensures SameScans(Run(w, steps[..i]).db, Run(w, steps).db, c)
    decreases |steps|
  {
    if i == |steps| {
      assert steps[..i] == steps;
    } else {
      var n, init := |steps| - 1, steps[..|steps| - 1];
      PrivateInit(w, steps, i, c);
      Isolation(w, init, i, c);
      assert init[..i] == steps[..i];
      RunKeeps(w, init);
      PrivateStep(Run(w, init).db, steps[n], c);
      ScansTransitive(Run(w, steps[..i]).db, Run(w, init).db, After(Run(w, init).db, steps[n]).0, c);
    }
  }

  /** A session in a transaction publishes nothing until it commits: none of its steps changes a tree, even between others' commits. */
  lemma UncommittedLeavesTrees(w: World, steps: seq<Step>, k: nat, sid: nat)
    requires Fresh(w) && k < |steps| && steps[k].session == Some(sid) && !steps[k].stmt.Commit?
    requires SessionOf(Run(w, steps[..k]).db, sid).inTxn
    ensures SameTrees(Run(w, steps[..k]).db, Run(w, steps[..k + 1]).db)
  {
    RunKeeps(w, steps[..k]);
    assert steps[..k + 1][..k] == steps[..k];
    PrivateStep(Run(w, steps[..k]).db, steps[k], Global);
  }

  /** In every run a SELECT returns exactly the committed rows under the writes of its own context. */
  lemma SelectShows(w: World, steps: seq<Step>, step: Step, name: string)
    requires Fresh(w) && step.stmt == Select(name) && name in Run(w, steps).db.tables
    ensures var db := Run(w, steps).db;
      var shown := Applied(db.tables[name].tree, WritesFor(ActiveIn(db, ContextOf(db, step)), name));
      exists rows, ids :: After(db, step).1 == Ok(Rows(rows)) && InOrder(rows, ids, shown) && |rows| == |shown|
  {
    RunKeeps(w, steps);
    var db := Run(w, steps).db;
    var active := ActiveIn(db, ContextOf(db, step));
    ContextActive(db, ContextOf(db, step));
    WritesKnown(db.tables, active, name);
    ShownInOrder(db.tables[name], WritesFor(active, name), After(db, step).1);
  }

  lemma ShownInOrder(t: Table, writes: Writes, r: Outcome)
    requires TreeOK(t) && (forall id :: id in writes ==> id < t.nextRowId) && r == Ok(Rows(ScanFrom(t, writes, 0)))
    ensures exists rows, ids :: r == Ok(Rows(rows)) && InOrder(rows, ids, Applied(t.tree, writes)) && |rows| == |Applied(t.tree, writes)|
  {
    ScanIsInOrder(t, writes);
    InOrderCount(ScanFrom(t, writes, 0), LiveFrom(t, writes, 0), Applied(t.tree, writes));
  }

  // ---------------------------------------------------------------- BEGIN, COMMIT, ROLLBACK

  ghost function OwnContext(session: Option<nat>): Context {
    match session case None => Global case Some(sid) => Of(sid)
  }

  /**
    BEGIN succeeds exactly when its context has no open transaction, and opens an empty one; COMMIT
    and ROLLBACK fail with a transaction error exactly when there is none; ROLLBACK closes it with
    nothing buffered. A failed one changes nothing, and none but COMMIT changes a table.
  */
  lemma ControlExactly(db: Db, session: Option<nat>)
    ensures var c := OwnContext(session); var (db', r) := After(db, Step(session, RelationalModel.Begin));
      && (r == Ok(Done) <==> !Open(db, c)) && (r.Err? ==> r == Err(TransactionError) && db' == db)
      && (r.Ok? ==> Open(db', c) && ActiveIn(db', c) == [] && db'.tables == db.tables)
    ensures var c := OwnContext(session); var (db', r) := After(db, Step(session, Rollback));
      && (r == Ok(Done) <==> Open(db, c)) && (r.Err? ==> r == Err(TransactionError) && db' == db)
      && (r.Ok? ==> !Open(db', c) && ActiveIn(db', c) == [] && db'.tables == db.tables)
    ensures var c := OwnContext(session); var (db', r) := After(db, Step(session, Commit));
      && (!Open(db, c) ==> r == Err(TransactionError) && db' == db)
      && (Open(db, c) ==> !Open(db', c) && ActiveIn(db', c) == [] && (r == Ok(Done) || r == Err(CommitConflict)))
  {
  }

  /** BEGIN, COMMIT and ROLLBACK of one context leave the transactions of every other alone. */
  lemma ControlIsOwn(db: Db, session: Option<nat>, stmt: Statement, other: Context)
    requires !IsQuery(stmt) && other != OwnContext(session)
    ensures var db' := After(db, Step(session, stmt)).0; Open(db', other) == Open(db, other) && ActiveIn(db', other) == ActiveIn(db, other)
  {
  }

  // ---------------------------------------------------------------- rival writers

  /**
    Of two transactions that wrote one row of a table, both accepted by it in any run, the later
    first touched the table only after the earlier had been accepted.
  */
  lemma AtMostOneWriter(w: World, steps: seq<Step>, name: string, i: nat, j: nat, id: nat)
    requires Fresh(w) && name in Run(w, steps).history && i < j < |Run(w, steps).history[name]|
    requires id in Run(w, steps).history[name][i].txn.writes && id in Run(w, steps).history[name][j].txn.writes
    ensures i < Run(w, steps).history[name][j].txn.snapshot
  {
    RunKeeps(w, steps);
    var r := Run(w, steps);
    assert TableHistoryOK(r.db.tables[name].store, r.history[name]);
    assert MvccProofs.NoOverlap(r.history[name], i, j);
  }

  /** In every run a COMMIT fails exactly when, on some table, a rival was accepted after it first touched that table. */
  lemma CommitFailsExactly(w: World, steps: seq<Step>, session: Option<nat>)
    requires Fresh(w)
    requires var db := Run(w, steps).db; Open(db, ContextOf(db, Step(session, Commit)))
    ensures var r := Run(w, steps); var active := ActiveIn(r.db, ContextOf(r.db, Step(session, Commit)));
      After(r.db, Step(session, Commit)).1.Err? <==> exists i :: 0 <= i < |active| && Beaten(r.history, active[i])
  {
    RunKeeps(w, steps);
    var r := Run(w, steps);
    var c := ContextOf(r.db, Step(session, Commit));
    ContextActive(r.db, c);
    CommitOutcome(r, session);
    forall i | 0 <= i < |ActiveIn(r.db, c)|
      ensures Refused(r.db.tables, ActiveIn(r.db, c)[i]) <==> Beaten(r.history, ActiveIn(r.db, c)[i])
    {
      CommitProofs.RefusedExactly(r.db.tables, r.history, ActiveIn(r.db, c)[i]);
    }
  }

  lemma CommitOutcome(w: World, session: Option<nat>)
    requires WorldOK(w) && Open(w.db, ContextOf(w.db, Step(session, Commit)))
    ensures var active := ActiveIn(w.db, ContextOf(w.db, Step(session, Commit)));
      After(w.db, Step(session, Commit)).1.Ok? <==> forall i :: 0 <= i < |active| ==> !Refused(w.db.tables, active[i])
  {
    match session
    case None => GlobalCommitIsAtomic(w.db);
    case Some(sid) =>
      ContextActive(w.db, Of(sid));
      CommitEachOutcome(w.db.tables, w.history, SessionOf(w.db, sid).active);
  }
}
