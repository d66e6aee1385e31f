/** Integrity in every interleaving: what a COMMIT can break, what it cannot, and exactly when it does. */
module CommitIntegrity {
  import opened Common
  import opened RelationalModel
  import opened SessionProofs
  import opened CommitProofs
  import opened SessionRuns
  import opened Integrity
  import opened TransactionViews
  import opened MergeProofs
  import opened BufferProofs
  import opened ConstraintProofs

  // ---------------------------------------------------------------- what every step keeps

  /** Every stored row is acceptable, and so are the buffered rows of every context, which share no keys. */
  ghost predicate AllSound(db: Db) {
    Sound(db.tables, db.active) && forall sid :: sid in db.sessions ==> AllBuffersOK(db.tables, db.sessions[sid].active)
  }

  lemma SchemasKeepBuffers(a: Tables, b: Tables, active: seq<Named>)
    requires SchemasAgree(a, b) && AllBuffersOK(a, active)
    ensures AllBuffersOK(b, active)
  {
  }

  lemma NothingBuffered(tables: Tables)
    ensures AllBuffersOK(tables, [])
  {
  }

  /** A change of tables and of one context leaves the buffers of every other context as they were. */
  lemma OthersSound(db: Db, tables: Tables)
    requires AllSound(db) && SchemasAgree(db.tables, tables)
    ensures AllBuffersOK(tables, db.active) && forall sid :: sid in db.sessions ==> AllBuffersOK(tables, db.sessions[sid].active)
  {
    SchemasKeepBuffers(db.tables, tables, db.active);
    forall sid | sid in db.sessions ensures AllBuffersOK(tables, db.sessions[sid].active) {
      SchemasKeepBuffers(db.tables, tables, db.sessions[sid].active);
    }
  }

  lemma SessionBuffers(db: Db, sid: nat)
    requires AllSound(db)
    ensures Sound(db.tables, SessionOf(db, sid).active)
  {
    NothingBuffered(db.tables);
  }

  ghost predicate AllRowsOK(tables: Tables) {
    forall n :: n in tables ==> RowsOK(tables[n])
  }

  lemma SessionReplaced(db: Db, tables: Tables, sid: nat, s: Session)
    requires AllSound(db) && SchemasAgree(db.tables, tables) && AllRowsOK(tables) && AllBuffersOK(tables, s.active)
    ensures AllSound(SetSession(db, sid, s).(tables := tables))
  {
    OthersSound(db, tables);
  }

  lemma GlobalReplaced(db: Db, tables: Tables, inTxn: bool, active: seq<Named>)
    requires AllSound(db) && SchemasAgree(db.tables, tables) && AllRowsOK(tables) && AllBuffersOK(tables, active)
    ensures AllSound(db.(tables := tables, inTxn := inTxn, active := active))
  {
    OthersSound(db, tables);
  }

  lemma SessionQuerySound(db: Db, sid: nat, stmt: Statement)
    requires DbOK(db) && AllSound(db) && AllIdSafe(db.tables) && IsQuery(stmt) && SessionOf(db, sid).inTxn
    ensures var db' := ExecuteInSession(db, sid, stmt).0; AllSound(db') && SchemasAgree(db.tables, db'.tables)
  {
    var own := AsSession(db, SessionOf(db, sid));
    var ran := Execute(own, stmt).0;
    SessionBuffers(db, sid);
    SessionQuery(db, sid, stmt);
    ContextActive(db, Of(sid));
    StatementSound(own, stmt);
    SessionReplaced(db, ran.tables, sid, Session(true, ran.active));
    assert Restored(db, sid, ran) == SetSession(db, sid, Session(true, ran.active)).(tables := ran.tables);
  }

  lemma GlobalQuerySound(db: Db, stmt: Statement)
    requires DbOK(db) && AllSound(db) && AllIdSafe(db.tables) && IsQuery(stmt)
    ensures var db' := Execute(db, stmt).0; AllSound(db') && SchemasAgree(db.tables, db'.tables)
  {
    var db' := Execute(db, stmt).0;
    QueryConfined(db, stmt);
    StatementSound(db, stmt);
    GlobalReplaced(db, db'.tables, db'.inTxn, db'.active);
    assert db' == db.(tables := db'.tables, inTxn := db'.inTxn, active := db'.active);
  }

  /** The transactions a COMMIT publishes are among those of its context. */
  lemma PublishedBuffers(w: World, session: Option<nat>)
    requires WorldOK(w) && AllSound(w.db) && Open(w.db, Own(session))
    ensures ActiveOK(w.db.tables, Published(w.db, session)) && AllBuffersOK(w.db.tables, Published(w.db, session))
  {
    match session
    case None =>
      NothingBuffered(w.db.tables);
    case Some(sid) =>
      var active := SessionOf(w.db, sid).active;
      SessionBuffers(w.db, sid);
      ContextActive(w.db, Of(sid));
      AcceptedAmong(w.db.tables, active);
      forall n | n in w.db.tables ensures BufferOK(w.db.tables[n].schema, WritesFor(AcceptedBy(w.db.tables, active), n)) {
        AcceptedWrites(w.db.tables, active, n);
      }
  }

  lemma AcceptedWrites(tables: Tables, active: seq<Named>, name: string)
    requires ActiveOK(tables, active)
    ensures WritesFor(AcceptedBy(tables, active), name) == map[] || WritesFor(AcceptedBy(tables, active), name) == WritesFor(active, name)
  {
    AcceptedAmong(tables, active);
    match FindTxn(AcceptedBy(tables, active), name)
    case None =>
    case Some(i) =>
      assert active[i].table == name;
      var j := FindTxn(active, name).value;
      assert i == j;
  }

  lemma CommitRows(w: World, session: Option<nat>)
    requires WorldOK(w) && AllSound(w.db) && Open(w.db, Own(session))
    ensures var tables := After(w.db, Step(session, Commit)).0.tables; AllRowsOK(tables) && SchemasAgree(w.db.tables, tables)
  {
    CommitPublishes(w, session);
    PublishedBuffers(w, session);
    PublishedTables(w.db.tables, Published(w.db, session), After(w.db, Step(session, Commit)).0.tables);
  }

  lemma PublishedTables(tables: Tables, active: seq<Named>, after: Tables)
    requires ActiveOK(tables, active) && AllBuffersOK(tables, active) && SameRows(after, SeenTables(tables, active))
    requires forall n :: n in tables ==> TreeOK(tables[n]) && RowsOK(tables[n])
    ensures AllRowsOK(after) && SchemasAgree(tables, after)
  {
    forall n | n in after ensures n in tables && RowsOK(after[n]) && after[n].schema == tables[n].schema {
      PublishedRows(tables, active, after, n);
    }
  }

  lemma PublishedRows(tables: Tables, active: seq<Named>, after: Tables, name: string)
    requires ActiveOK(tables, active) && AllBuffersOK(tables, active) && SameRows(after, SeenTables(tables, active)) && name in after
    requires forall n :: n in tables ==> TreeOK(tables[n]) && RowsOK(tables[n])
    ensures name in tables && RowsOK(after[name]) && after[name].schema == tables[name].schema
  {
    WritesKnown(tables, active, name);
    MergedRows(tables[name], WritesFor(active, name));
  }

  lemma CommitSound(w: World, session: Option<nat>)
    requires WorldOK(w) && AllSound(w.db) && Open(w.db, Own(session))
    ensures var db' := After(w.db, Step(session, Commit)).0; AllSound(db') && SchemasAgree(w.db.tables, db'.tables)
  {
    var db' := After(w.db, Step(session, Commit)).0;
    CommitRows(w, session);
    NothingBuffered(db'.tables);
    match session
    case None => GlobalReplaced(w.db, db'.tables, false, []);
    case Some(sid) => SessionReplaced(w.db, db'.tables, sid, Session(false, []));
  }

  /** BEGIN, ROLLBACK and a COMMIT of nothing change no table and clear at most one context. */
  lemma ControlSound(db: Db, step: Step)
    requires AllSound(db) && (step.stmt.Begin? || step.stmt.Rollback? || (step.stmt.Commit? && !Open(db, Own(step.session))))
    ensures AllSound(After(db, step).0) && After(db, step).0.tables == db.tables
  {
    NothingBuffered(db.tables);
    match step.session
    case None => GlobalReplaced(db, db.tables, step.stmt.Begin?, []);
    case Some(sid) => SessionReplaced(db, db.tables, sid, Session(step.stmt.Begin?, []));
  }

  lemma StepSound(w: World, step: Step)
    requires WorldOK(w) && AllSound(w.db) && AllIdSafe(w.db.tables)
    ensures AllSound(Next(w, step).db) && SchemasAgree(w.db.tables, Next(w, step).db.tables)
  {
    if IsQuery(step.stmt) {
      if step.session.Some? && SessionOf(w.db, step.session.value).inTxn {
        SessionQuerySound(w.db, step.session.value, step.stmt);
      } else {
        GlobalQuerySound(w.db, step.stmt);
      }
    } else if step.stmt.Commit? && Open(w.db, Own(step.session)) {
      CommitSound(w, step.session);
    } else {
      ControlSound(w.db, step);
    }
  }

  /**
    In every run from acceptable rows, whoever commits what, every stored row satisfies NOT NULL and
    CHECK, and the rows each transaction has buffered satisfy them too and share no key.
  */
  lemma {:induction false} RunSound(w: World, steps: seq<Step>)
    requires Fresh(w) && AllIdSafe(w.db.tables) && AllRowsOK(w.db.tables)
    ensures AllSound(Run(w, steps).db) && SchemasAgree(w.db.tables, Run(w, steps).db.tables)
  {
    if steps == [] {
      NothingBuffered(w.db.tables);
    } else {
      var init := steps[..|steps| - 1];
      RunSound(w, init);
      RunKeeps(w, init);
      StepSound(Run(w, init), steps[|steps| - 1]);
    }
  }

  // ---------------------------------------------------------------- what a COMMIT can break

  /**
    In every run, a COMMIT, global or of a session, refused or not, keeps consistent tables
    consistent if and only if the writes it publishes merge cleanly: no row they store shares a key
    with a row they leave alone, every reference of a row they store is to a row left alone or
    stored, and no row left alone refers to a key they take away. NOT NULL and CHECK cannot break.
  */
  lemma CommitKeepsExactly(w: World, steps: seq<Step>, session: Option<nat>)
    requires Fresh(w) && AllIdSafe(w.db.tables) && AllRowsOK(w.db.tables)
    requires Open(Run(w, steps).db, Own(session)) && Consistent(Run(w, steps).db.tables)
    ensures var db := Run(w, steps).db;
      Consistent(After(db, Step(session, Commit)).0.tables) <==> MergesCleanly(db.tables, Published(db, session))
  {
    RunKeeps(w, steps);
    RunSound(w, steps);
    CommitExactly(Run(w, steps), session);
  }

  lemma CommitExactly(w: World, session: Option<nat>)
    requires WorldOK(w) && AllSound(w.db) && Open(w.db, Own(session)) && Consistent(w.db.tables)
    ensures Consistent(After(w.db, Step(session, Commit)).0.tables) <==> MergesCleanly(w.db.tables, Published(w.db, session))
  {
    CommitPublishes(w, session);
    PublishedBuffers(w, session);
    SameRowsConsistent(After(w.db, Step(session, Commit)).0.tables, SeenTables(w.db.tables, Published(w.db, session)));
    MergeExactly(w.db.tables, Published(w.db, session));
  }

  // ---------------------------------------------------------------- every interleaving

  /** What a step that publishes must meet: a statement in autocommit assigns no referenced column, a COMMIT merges cleanly. */
  ghost predicate Harmless(db: Db, step: Step) {
    if IsQuery(step.stmt) then Open(db, ContextOf(db, step)) || Safe(db, step.stmt)
    else step.stmt.Commit? && Open(db, Own(step.session)) ==> MergesCleanly(db.tables, Published(db, step.session))
  }

  /** Inside a transaction a statement moves row id counters at most. */
  lemma PrivateKeeps(db: Db, step: Step)
    requires DbOK(db) && Consistent(db.tables) && IsQuery(step.stmt) && Open(db, ContextOf(db, step))
    ensures Consistent(After(db, step).0.tables)
  {
    var tables := After(db, step).0.tables;
    if step.session.Some? && SessionOf(db, step.session.value).inTxn {
      SessionQuery(db, step.session.value, step.stmt);
    } else {
      QueryConfined(db, step.stmt);
    }
    OneWay(db.tables, tables);
  }

  lemma StepKeepsIntegrity(w: World, step: Step)
    requires WorldOK(w) && AllSound(w.db) && AllIdSafe(w.db.tables) && Consistent(w.db.tables) && Harmless(w.db, step)
    ensures Consistent(Next(w, step).db.tables)
  {
    if IsQuery(step.stmt) {
      if Open(w.db, ContextOf(w.db, step)) {
        PrivateKeeps(w.db, step);
      } else {
        StatementKeeps(w.db, step.stmt);
      }
    } else if step.stmt.Commit? && Open(w.db, Own(step.session)) {
      CommitExactly(w, step.session);
    }
  }

  /**
    In every interleaving of sessions from consistent tables, all constraints hold in every state as
    long as each COMMIT merges cleanly and no autocommit UPDATE assigns a referenced column.
  */
  lemma {:induction false} IntegrityAlwaysHolds(w: World, steps: seq<Step>)
    requires Fresh(w) && AllIdSafe(w.db.tables) && Consistent(w.db.tables)
    requires forall k :: 0 <= k < |steps| ==> Harmless(Run(w, steps[..k]).db, steps[k])
    ensures Consistent(Run(w, steps).db.tables)
  {
    if steps != [] {
      var n, init := |steps| - 1, steps[..|steps| - 1];
      forall k | 0 <= k < n ensures Harmless(Run(w, init[..k]).db, init[k]) {
        assert init[..k] == steps[..k];
      }
      IntegrityAlwaysHolds(w, init);
      RunKeeps(w, init);
      RunSound(w, init);
      assert Harmless(Run(w, steps[..n]).db, steps[n]);
      StepKeepsIntegrity(Run(w, init), steps[n]);
    }
  }
}
