/** A transaction whose tables nobody else touches acts as if all of it ran at its COMMIT. */
module CommitTime {
  import opened Common
  import opened Values
  import opened RelationalModel
  import opened SessionProofs
  import opened CommitProofs
  import opened SessionRuns
  import opened Integrity
  import opened TransactionViews
  import opened StatementFrame
  import Erasure
  import ConstraintProofs

  // ---------------------------------------------------------------- which tables a transaction writes

  ghost predicate NamesWithin(active: seq<Named>, s: set<string>) {
    forall i :: 0 <= i < |active| ==> active[i].table in s
  }

  lemma PutNames(db: Db, name: string, id: nat, v: Option<Row>, s: set<string>)
    requires name in db.tables && name in s && NamesWithin(db.active, s)
    ensures NamesWithin(Put(db, name, id, v).active, s)
  {
  }

  lemma {:induction false} InsertAllNames(db: Db, name: string, rows: seq<Row>, supplied: bool, s: set<string>)
    requires name in db.tables && name in s && NamesWithin(db.active, s)
    ensures NamesWithin(InsertAll(db, name, rows, supplied).active, s)
    decreases |rows|
  {
    if rows != [] {
      var id := db.tables[name].nextRowId;
      PutNames(IdTaken(db, name), name, id, Some(WithId(rows[0], id, supplied)), s);
      InsertAllNames(InsertOne(db, name, rows[0], supplied), name, rows[1..], supplied, s);
    }
  }

  lemma {:induction false} UpdateAllNames(db: Db, name: string, ids: seq<nat>, assignments: seq<Assignment>, s: set<string>)
    requires name in db.tables && name in s && NamesWithin(db.active, s)
    ensures NamesWithin(UpdateAll(db, name, ids, assignments).0.active, s)
    decreases |ids|
  {
    if ids != [] {
      var (mid, r) := UpdateOne(db, name, ids[0], assignments);
      assert NamesWithin(mid.active, s);
      if r.Ok? {
        UpdateAllNames(mid, name, ids[1..], assignments, s);
      }
    }
  }

  lemma {:induction false} DeleteAllNames(db: Db, name: string, ids: seq<nat>, s: set<string>)
    requires name in db.tables && name in s && NamesWithin(db.active, s)
    ensures NamesWithin(DeleteAll(db, name, ids).0.active, s)
    decreases |ids|
  {
    if ids != [] {
      var (mid, r) := DeleteOne(db, name, ids[0]);
      assert NamesWithin(mid.active, s);
      if r.Ok? {
        DeleteAllNames(mid, name, ids[1..], s);
      }
    }
  }

  lemma StatementNames(db: Db, stmt: Statement, s: set<string>)
    requires db.inTxn && IsQuery(stmt) && stmt.table in s && NamesWithin(db.active, s)
    ensures NamesWithin(Execute(db, stmt).0.active, s)
  {
    var ready := EnsureTxn(db, stmt.table);
    assert NamesWithin(ready.active, s);
    match stmt
    case Insert(name, cols, values) =>
      var plan := PlanInsert(ready, name, cols, values);
      if plan.Ok? && name in ready.tables {
        InsertAllNames(ready, name, plan.value.0, plan.value.1, s);
      }
    case Update(name, filter, assignments) =>
      var ids := Matching(db, name, filter);
      if ids.Ok? && name in ready.tables {
        UpdateAllNames(ready, name, ids.value, assignments, s);
      }
    case Delete(name, filter) =>
      var ids := Matching(db, name, filter);
      if ids.Ok? && name in ready.tables {
        DeleteAllNames(ready, name, ids.value, s);
      }
    case Select(_) =>
  }

  // ---------------------------------------------------------------- statements in autocommit

  ghost function AutoOutcomes(db: Db, stmts: seq<Statement>): seq<Outcome> {
    if stmts == [] then []
    else AutoOutcomes(db, stmts[..|stmts| - 1]) + [Execute(ConstraintProofs.RunAll(db, stmts[..|stmts| - 1]), stmts[|stmts| - 1]).1]
  }

  /** Every statement stays within `s`. */
  ghost predicate AllWithin(tables: Tables, stmts: seq<Statement>, s: set<string>) {
    forall k :: 0 <= k < |stmts| ==> IsQuery(stmts[k]) && Encloses(tables, s, stmts[k].table)
  }

  /** Statements in autocommit have the same outcomes from databases that agree on the tables they use. */
  lemma {:induction false} RunFrame(a: Db, b: Db, s: set<string>, stmts: seq<Statement>)
    requires Auto(a) && Auto(b) && AgreeOn(a.tables, b.tables, s) && AllWithin(a.tables, stmts, s)
    ensures AutoOutcomes(a, stmts) == AutoOutcomes(b, stmts)
    ensures StillAlike(a, b, ConstraintProofs.RunAll(a, stmts), ConstraintProofs.RunAll(b, stmts), s)
  {
    if stmts != [] {
      var init, stmt := stmts[..|stmts| - 1], stmts[|stmts| - 1];
      RunFrame(a, b, s, init);
      var a1, b1 := ConstraintProofs.RunAll(a, init), ConstraintProofs.RunAll(b, init);
      EnclosesStill(a.tables, a1.tables, s, stmt.table);
      StatementIsFramed(a1, b1, s, stmt);
      StillAlikeMore(a, b, a1, b1, Execute(a1, stmt).0, Execute(b1, stmt).0, s);
    }
  }

  // ---------------------------------------------------------------- the transaction among others

  ghost function OwnStmts(steps: seq<Step>, sid: nat): seq<Statement> {
    if steps == [] then []
    else OwnStmts(steps[..|steps| - 1], sid) + if steps[|steps| - 1].session == Some(sid) then [steps[|steps| - 1].stmt] else []
  }

  ghost function OwnOutcomes(w: World, steps: seq<Step>, sid: nat): seq<Outcome> {
    if steps == [] then []
    else
      var init, step := steps[..|steps| - 1], steps[|steps| - 1];
      OwnOutcomes(w, init, sid) + if step.session == Some(sid) then [After(Run(w, init).db, step).1] else []
  }

  /** The step leaves the tables of `s` as they are: it publishes nothing there and takes no row id. */
  ghost predicate LeavesAlone(db: Db, step: Step, s: set<string>) {
    forall n :: n in s && n in db.tables ==> n in After(db, step).0.tables && After(db, step).0.tables[n] == db.tables[n]
  }

  /** The statements of session `sid` stay within `s`, and nobody else touches the tables of `s`. */
  ghost predicate Undisturbed(v: World, steps: seq<Step>, sid: nat, s: set<string>) {
    forall k :: 0 <= k < |steps| ==> Polite(v.db.tables, Run(v, steps[..k]).db, steps[k], sid, s)
  }

  ghost predicate Polite(tables: Tables, db: Db, step: Step, sid: nat, s: set<string>) {
    if step.session == Some(sid) then IsQuery(step.stmt) && Encloses(tables, s, step.stmt.table) else LeavesAlone(db, step, s)
  }

  lemma UndisturbedInit(v: World, init: seq<Step>, step: Step, steps: seq<Step>, sid: nat, s: set<string>)
    requires steps == init + [step] && Undisturbed(v, steps, sid, s)
    ensures Undisturbed(v, init, sid, s) && Polite(v.db.tables, Run(v, init).db, step, sid, s)
  {
    assert steps[..|init|] == init && steps[|init|] == step;
    assert Polite(v.db.tables, Run(v, steps[..|init|]).db, steps[|init|], sid, s);
    forall k | 0 <= k < |init| ensures Polite(v.db.tables, Run(v, init[..k]).db, init[k], sid, s) {
      assert init[..k] == steps[..k] && init[k] == steps[k];
      assert Polite(v.db.tables, Run(v, steps[..k]).db, steps[k], sid, s);
    }
  }

  /** The same tables outside any transaction. */
  ghost function Plainly(db: Db): Db {
    db.(inTxn := false, active := [])
  }

  /** What the transaction sees of its tables is what its statements would have made of them in autocommit. */
  ghost predicate Shadows(tables: Tables, active: seq<Named>, plain: Db, s: set<string>) {
    && Auto(plain) && AgreeOn(SeenTables(tables, active), plain.tables, s)
    && NamesWithin(active, s) && AllCurrent(tables, active)
  }

  lemma CommitSchemas(w: World, session: Option<nat>)
    requires WorldOK(w)
    ensures SchemasAgree(w.db.tables, After(w.db, Step(session, Commit)).0.tables)
  {
    match session
    case None =>
      if w.db.inTxn {
        GlobalCommitTables(w.db.tables, w.history, w.db.active);
      }
    case Some(sid) =>
      ContextActive(w.db, Of(sid));
      CommitEachKeeps(w.db.tables, w.history, SessionOf(w.db, sid).active);
  }

  lemma StepSchemas(w: World, step: Step)
    requires WorldOK(w)
    ensures SchemasAgree(w.db.tables, After(w.db, step).0.tables)
  {
    if IsQuery(step.stmt) {
      if step.session.Some? && SessionOf(w.db, step.session.value).inTxn {
        SessionQuery(w.db, step.session.value, step.stmt);
      } else {
        QueryConfined(w.db, step.stmt);
      }
    } else if step.stmt.Commit? {
      CommitSchemas(w, step.session);
    }
  }

  /** Someone else's step that leaves the tables alone. */
  lemma ShadowsOther(tables: Tables, tables': Tables, active: seq<Named>, plain: Db, s: set<string>)
    requires Shadows(tables, active, plain, s)
    requires SchemasAgree(tables, tables')
    requires forall n :: n in s && n in tables ==> tables'[n] == tables[n]
    ensures Shadows(tables', active, plain, s)
  {
  }

  /** A statement of the transaction. */
  lemma ShadowsOwn(db: Db, plain: Db, s: set<string>, stmt: Statement)
    requires db.inTxn && ActiveOK(db.tables, db.active) && TreesOK(db) && Shadows(db.tables, db.active, plain, s)
    requires IsQuery(stmt) && Encloses(plain.tables, s, stmt.table)
    ensures var (db', r) := Execute(db, stmt); var (plain', q) := Execute(plain, stmt);
      r == q && Shadows(db'.tables, db'.active, plain', s)
  {
    StatementIsAutocommit(db, stmt);
    StatementIsFramed(plain, Seen(db), s, stmt);
    StatementNames(db, stmt, s);
    QueryConfined(db, stmt);
  }

  lemma AutoMore(db: Db, stmts: seq<Statement>, stmt: Statement)
    ensures ConstraintProofs.RunAll(db, stmts + [stmt]) == Execute(ConstraintProofs.RunAll(db, stmts), stmt).0
    ensures AutoOutcomes(db, stmts + [stmt]) == AutoOutcomes(db, stmts) + [Execute(ConstraintProofs.RunAll(db, stmts), stmt).1]
  {
    assert (stmts + [stmt])[..|stmts|] == stmts;
  }

  /** Where the transaction stands after `steps`, next to its statements in autocommit. */
  ghost predicate Keeping(v: World, steps: seq<Step>, sid: nat, s: set<string>) {
    var db, own := Run(v, steps).db, OwnStmts(steps, sid);
    && SessionOf(db, sid).inTxn && AllWithin(v.db.tables, own, s)
    && Shadows(db.tables, SessionOf(db, sid).active, ConstraintProofs.RunAll(Plainly(v.db), own), s)
    && OwnOutcomes(v, steps, sid) == AutoOutcomes(Plainly(v.db), own)
  }

  lemma KeepingOther(v: World, init: seq<Step>, step: Step, steps: seq<Step>, sid: nat, s: set<string>)
    requires steps == init + [step] && Keeping(v, init, sid, s) && WorldOK(Run(v, init))
    requires step.session != Some(sid) && LeavesAlone(Run(v, init).db, step, s)
    ensures Keeping(v, steps, sid, s)
  {
    assert steps[..|init|] == init;
    assert OwnStmts(steps, sid) == OwnStmts(init, sid) + [] == OwnStmts(init, sid);
    assert OwnOutcomes(v, steps, sid) == OwnOutcomes(v, init, sid) + [] == OwnOutcomes(v, init, sid);
    var db, db' := Run(v, init).db, Run(v, steps).db;
    Erasure.OthersKeepSession(db, step, sid);
    StepSchemas(Run(v, init), step);
    ShadowsOther(db.tables, db'.tables, SessionOf(db, sid).active, ConstraintProofs.RunAll(Plainly(v.db), OwnStmts(init, sid)), s);
  }

  lemma WithinMore(tables: Tables, stmts: seq<Statement>, stmt: Statement, s: set<string>)
    requires AllWithin(tables, stmts, s) && IsQuery(stmt) && Encloses(tables, s, stmt.table)
    ensures AllWithin(tables, stmts + [stmt], s)
  {
  }

  lemma KeepingOwn(v: World, init: seq<Step>, stmt: Statement, steps: seq<Step>, sid: nat, s: set<string>)
    requires steps == init + [Step(Some(sid), stmt)] && Keeping(v, init, sid, s) && WorldOK(Run(v, init))
    requires IsQuery(stmt) && Encloses(v.db.tables, s, stmt.table)
    ensures Keeping(v, steps, sid, s)
  {
    assert steps[..|init|] == init;
    var db, own := Run(v, init).db, OwnStmts(init, sid);
    var plain := ConstraintProofs.RunAll(Plainly(v.db), own);
    WithinMore(v.db.tables, own, stmt, s);
    AutoMore(Plainly(v.db), own, stmt);
    RunFrame(Plainly(v.db), Plainly(v.db), s, own);
    EnclosesStill(v.db.tables, plain.tables, s, stmt.table);
    ContextActive(db, Of(sid));
    SessionQuery(db, sid, stmt);
    ShadowsOwn(AsSession(db, SessionOf(db, sid)), plain, s, stmt);
  }

  lemma NothingDone(v: World, sid: nat, s: set<string>)
    requires SessionOf(v.db, sid) == Session(true, [])
    ensures Keeping(v, [], sid, s)
  {
    forall n | n in v.db.tables ensures SeenTables(v.db.tables, [])[n] == v.db.tables[n] {
      AppliedNothing(v.db.tables[n].tree);
    }
  }

  lemma {:induction false} RunKeeping(v: World, steps: seq<Step>, sid: nat, s: set<string>)
    requires WorldOK(v) && SessionOf(v.db, sid) == Session(true, []) && Undisturbed(v, steps, sid, s)
    ensures Keeping(v, steps, sid, s)
  {
    if steps == [] {
      NothingDone(v, sid, s);
    } else {
      var init, step := steps[..|steps| - 1], steps[|steps| - 1];
      assert steps == init + [step];
      UndisturbedInit(v, init, step, steps, sid, s);
      RunKeeping(v, init, sid, s);
      Erasure.RunStaysOK(v, init);
      if step.session == Some(sid) {
        KeepingOwn(v, init, step.stmt, steps, sid, s);
      } else {
        KeepingOther(v, init, step, steps, sid, s);
      }
    }
  }

  // ---------------------------------------------------------------- at COMMIT

  /** The database as it is now, but with the tables of `s` as they were at `start`, outside any transaction. */
  ghost function WithTablesOf(now: Db, start: Db, s: set<string>): Db {
    Db(map n | n in now.tables :: if n in s && n in start.tables then start.tables[n] else now.tables[n], false, [], now.sessions)
  }

  lemma {:induction false} SchemasStay(v: World, steps: seq<Step>)
    requires WorldOK(v)
    ensures SchemasAgree(v.db.tables, Run(v, steps).db.tables)
  {
    if steps != [] {
      var init := steps[..|steps| - 1];
      SchemasStay(v, init);
      Erasure.RunStaysOK(v, init);
      StepSchemas(Run(v, init), steps[|steps| - 1]);
    }
  }

  /** What the transaction sees is what its statements make of its tables in autocommit, and everything else as it is. */
  lemma SeenIsPlain(now: Db, active: seq<Named>, plain: Db, late: Db, s: set<string>)
    requires Shadows(now.tables, active, plain, s) && Auto(late) && AgreeOn(plain.tables, late.tables, s)
    requires now.tables.Keys == late.tables.Keys && forall n :: n in late.tables && n !in s ==> late.tables[n] == now.tables[n]
    ensures SeenTables(now.tables, active) == late.tables
  {
    forall n | n in now.tables ensures SeenTables(now.tables, active)[n] == late.tables[n] {
      if n !in s {
        NoWritesFor(active, n);
        AppliedNothing(now.tables[n].tree);
      }
    }
  }

  /**
    Take any run, a session that has begun but executed nothing yet, and any interleaving in which
    the others leave alone the tables the session's statements name, refer to or are referred to
    from: they publish nothing there and take no row ids. Then its COMMIT succeeds, and all outcomes
    and all tables are as if its statements ran in autocommit at that moment, with those tables as
    they were when it started.
  */
  lemma ActsAtCommit(w: World, pre: seq<Step>, sid: nat, mid: seq<Step>, s: set<string>)
    requires Fresh(w) && SessionOf(Run(w, pre).db, sid) == Session(true, []) && Undisturbed(Run(w, pre), mid, sid, s)
    ensures var v, own := Run(w, pre), OwnStmts(mid, sid);
      var now := Run(v, mid).db; var late := WithTablesOf(now, v.db, s);
      && OwnOutcomes(v, mid, sid) == AutoOutcomes(late, own)
      && After(now, Step(Some(sid), Commit)).1 == Ok(Done)
      && SameRows(After(now, Step(Some(sid), Commit)).0.tables, ConstraintProofs.RunAll(late, own).tables)
  {
    RunKeeps(w, pre);
    RunKeeping(Run(w, pre), mid, sid, s);
    Erasure.RunStaysOK(Run(w, pre), mid);
    KeptUntilCommit(Run(w, pre), Run(Run(w, pre), mid), sid, mid, s);
  }

  lemma KeptUntilCommit(v: World, a: World, sid: nat, mid: seq<Step>, s: set<string>)
    requires WorldOK(v) && WorldOK(a) && a == Run(v, mid) && Keeping(v, mid, sid, s)
    ensures var own, late := OwnStmts(mid, sid), WithTablesOf(a.db, v.db, s);
      && OwnOutcomes(v, mid, sid) == AutoOutcomes(late, own)
      && After(a.db, Step(Some(sid), Commit)).1 == Ok(Done)
      && SameRows(After(a.db, Step(Some(sid), Commit)).0.tables, ConstraintProofs.RunAll(late, own).tables)
  {
    SchemasStay(v, mid);
    SeenAtCommit(v.db, a.db, SessionOf(a.db, sid).active, OwnStmts(mid, sid), s, WithTablesOf(a.db, v.db, s));
    CurrentLands(a, sid);
  }

  lemma SeenAtCommit(start: Db, now: Db, active: seq<Named>, own: seq<Statement>, s: set<string>, late: Db)
    requires SchemasAgree(start.tables, now.tables) && AllWithin(start.tables, own, s) && late == WithTablesOf(now, start, s)
    requires Shadows(now.tables, active, ConstraintProofs.RunAll(Plainly(start), own), s)
    ensures AutoOutcomes(Plainly(start), own) == AutoOutcomes(late, own)
    ensures SeenTables(now.tables, active) == ConstraintProofs.RunAll(late, own).tables
  {
    RunFrame(Plainly(start), late, s, own);
    SeenIsPlain(now, active, ConstraintProofs.RunAll(Plainly(start), own), ConstraintProofs.RunAll(late, own), s);
  }

  lemma CurrentLands(a: World, sid: nat)
    requires WorldOK(a) && SessionOf(a.db, sid).inTxn && AllCurrent(a.db.tables, SessionOf(a.db, sid).active)
    ensures After(a.db, Step(Some(sid), Commit)).1 == Ok(Done)
    ensures SameRows(After(a.db, Step(Some(sid), Commit)).0.tables, SeenTables(a.db.tables, SessionOf(a.db, sid).active))
  {
    CurrentIsAccepted(a, Some(sid));
    CommitPublishes(a, Some(sid));
    PublishedAll(a, Some(sid));
  }
}
