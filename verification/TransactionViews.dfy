/**
  What a transaction sees: its statements do to it what they do to the trees in autocommit, and
  COMMIT publishes it. So a transaction that runs alone is worth its statements one by one.
*/
module TransactionViews {
  import opened Common
  import opened Values
  import opened RelationalModel
  import opened SessionProofs
  import opened CommitProofs
  import opened SessionRuns
  import opened DmlEffects
  import opened Erasure
  import opened Integrity
  import ConstraintProofs
  import MvccModel

  // ---------------------------------------------------------------- the view

  ghost function SeenTable(t: Table, writes: Writes): Table {
    t.(tree := Applied(t.tree, writes))
  }

  /** The tables with buffered writes applied. */
  ghost function SeenTables(tables: Tables, active: seq<Named>): Tables {
    map n | n in tables :: SeenTable(tables[n], WritesFor(active, n))
  }

  /** The database a transaction sees, as if it had been published. */
  ghost function Seen(db: Db): Db {
    Db(SeenTables(db.tables, db.active), false, [], db.sessions)
  }

  lemma HoldsKeySeen(t: Table, writes: Writes, slots: seq<nat>, key: Row, exclude: Option<nat>)
    ensures HoldsKey(SeenTable(t, writes), map[], slots, key, exclude) == HoldsKey(t, writes, slots, key, exclude)
  {
    assert forall id: nat :: Live(SeenTable(t, writes).tree, map[], id) == Live(t.tree, writes, id);
  }

  lemma {:induction false} ScanSeen(t: Table, writes: Writes, id: nat)
    requires id <= t.nextRowId
    ensures ScanFrom(SeenTable(t, writes), map[], id) == ScanFrom(t, writes, id)
    decreases t.nextRowId - id
  {
    if id < t.nextRowId {
      ScanSeen(t, writes, id + 1);
    }
  }

  lemma {:induction false} MatchingSeen(t: Table, writes: Writes, filter: Filter, id: nat, found: seq<nat>)
    requires id <= t.nextRowId
    ensures MatchingFrom(SeenTable(t, writes), map[], filter, id, found) == MatchingFrom(t, writes, filter, id, found)
    decreases t.nextRowId - id
  {
    if id < t.nextRowId {
      match Live(t.tree, writes, id)
      case None => MatchingSeen(t, writes, filter, id + 1, found);
      case Some(row) =>
        match filter(row)
        case Err(_) =>
        case Ok(keep) => MatchingSeen(t, writes, filter, id + 1, if keep then found + [id] else found);
    }
  }

  // ---------------------------------------------------------------- checks see the same

  lemma KeyPresentSeen(db: Db, name: string, slots: seq<nat>, key: Row)
    ensures KeyPresent(Seen(db), name, slots, key) == KeyPresent(db, name, slots, key)
  {
    if name in db.tables {
      HoldsKeySeen(db.tables[name], WritesFor(db.active, name), slots, key, None);
    }
  }

  lemma DanglesSeen(db: Db, schema: Schema, row: Row)
    ensures Dangles(Seen(db), schema, row) == Dangles(db, schema, row)
  {
    forall f | 0 <= f < |schema.foreignKeys|
      ensures var fk := schema.foreignKeys[f]; var key := Proj(row, fk.columns);
        KeyPresent(Seen(db), fk.refTable, fk.refColumns, key) == KeyPresent(db, fk.refTable, fk.refColumns, key)
    {
      KeyPresentSeen(db, schema.foreignKeys[f].refTable, schema.foreignKeys[f].refColumns, Proj(row, schema.foreignKeys[f].columns));
    }
  }

  lemma DuplicatesSeen(t: Table, writes: Writes, row: Row, exclude: Option<nat>)
    ensures Duplicates(SeenTable(t, writes), map[], row, exclude) == Duplicates(t, writes, row, exclude)
  {
    forall g | 0 <= g < |t.schema.unique|
      ensures var slots := t.schema.unique[g];
        HoldsKey(SeenTable(t, writes), map[], slots, Proj(row, slots), exclude) == HoldsKey(t, writes, slots, Proj(row, slots), exclude)
    {
      HoldsKeySeen(t, writes, t.schema.unique[g], Proj(row, t.schema.unique[g]), exclude);
    }
  }

  lemma EnforceSeen(db: Db, name: string, row: Row, exclude: Option<nat>)
    requires name in db.tables
    ensures Enforce(Seen(db), name, row, exclude) == Enforce(db, name, row, exclude)
  {
    DuplicatesSeen(db.tables[name], WritesFor(db.active, name), row, exclude);
    DanglesSeen(db, db.tables[name].schema, row);
  }

  lemma ReferencedFromSeen(db: Db, other: string, name: string, row: Row)
    requires other in db.tables
    ensures ReferencedFrom(Seen(db), other, name, row) == ReferencedFrom(db, other, name, row)
  {
    var t, writes := db.tables[other], WritesFor(db.active, other);
    forall f | 0 <= f < |t.schema.foreignKeys|
      ensures var fk := t.schema.foreignKeys[f]; var key := Proj(row, fk.refColumns);
        HoldsKey(SeenTable(t, writes), map[], fk.columns, key, None) == HoldsKey(t, writes, fk.columns, key, None)
    {
      HoldsKeySeen(t, writes, t.schema.foreignKeys[f].columns, Proj(row, t.schema.foreignKeys[f].refColumns), None);
    }
  }

  lemma ReferencedSeen(db: Db, name: string, row: Row)
    ensures Referenced(Seen(db), name, row) == Referenced(db, name, row)
  {
    forall other | other in db.tables ensures ReferencedFrom(Seen(db), other, name, row) == ReferencedFrom(db, other, name, row) {
      ReferencedFromSeen(db, other, name, row);
    }
  }

  lemma {:induction false} CheckSeen(db: Db, name: string, rows: seq<Row>, i: nat)
    requires name in db.tables && i <= |rows|
    ensures CheckBatch(Seen(db), name, rows, i) == CheckBatch(db, name, rows, i)
    decreases |rows| - i
  {
    if i < |rows| {
      EnforceSeen(db, name, rows[i], None);
      CheckSeen(db, name, rows, i + 1);
    }
  }

  lemma PlanSeen(db: Db, name: string, columns: seq<nat>, values: seq<Row>)
    ensures PlanInsert(Seen(db), name, columns, values) == PlanInsert(db, name, columns, values)
  {
    if name in db.tables {
      var cols := TargetSlots(columns, db.tables[name].schema.width);
      if !UnknownSlot(cols, db.tables[name].schema.width) && !WrongArity(values, |cols|) {
        CheckSeen(db, name, Candidates(db.tables[name].schema.width, cols, values), 0);
      }
    }
  }

  // ---------------------------------------------------------------- writes show the same

  lemma PutSeen(db: Db, name: string, id: nat, v: Option<Row>)
    requires db.inTxn && name in db.tables && FindTxn(db.active, name).Some?
    ensures Seen(Put(db, name, id, v)) == Put(Seen(db), name, id, v)
    ensures FindTxn(Put(db, name, id, v).active, name).Some?
  {
    var i := FindTxn(db.active, name).value;
    var n := Named(name, MvccModel.Write(db.active[i].txn, id, v));
    var seen := SeenTables(db.tables, db.active);
    forall m | m in db.tables
      ensures SeenTables(db.tables, db.active[i := n])[m] ==
              if m == name then seen[m].(tree := Changed(seen[m].tree, id, v)) else seen[m]
    {
      WritesAfterPut(db.active, i, n, m);
      AppliedPut(db.tables[name].tree, WritesFor(db.active, name), id, v);
    }
    assert SeenTables(db.tables, db.active[i := n]) == seen[name := seen[name].(tree := Changed(seen[name].tree, id, v))];
    WritesAfterPut(db.active, i, n, name);
  }

  lemma IdTakenSeen(db: Db, name: string)
    requires name in db.tables
    ensures Seen(IdTaken(db, name)) == IdTaken(Seen(db), name)
  {
  }

  lemma InsertOneSeen(db: Db, name: string, row: Row, supplied: bool)
    requires db.inTxn && name in db.tables && FindTxn(db.active, name).Some?
    ensures Seen(InsertOne(db, name, row, supplied)) == InsertOne(Seen(db), name, row, supplied)
    ensures InsertOne(db, name, row, supplied).inTxn && FindTxn(InsertOne(db, name, row, supplied).active, name).Some?
  {
    var id := db.tables[name].nextRowId;
    IdTakenSeen(db, name);
    PutSeen(IdTaken(db, name), name, id, Some(WithId(row, id, supplied)));
  }

  lemma {:induction false} InsertAllSeen(db: Db, name: string, rows: seq<Row>, supplied: bool)
    requires db.inTxn && name in db.tables && FindTxn(db.active, name).Some?
    ensures Seen(InsertAll(db, name, rows, supplied)) == InsertAll(Seen(db), name, rows, supplied)
    decreases |rows|
  {
    if rows != [] {
      InsertOneSeen(db, name, rows[0], supplied);
      InsertAllSeen(InsertOne(db, name, rows[0], supplied), name, rows[1..], supplied);
    }
  }

  lemma LiveSeen(db: Db, name: string, id: nat)
    requires name in db.tables
    ensures LiveRow(Seen(db), name, id) == LiveRow(db, name, id)
  {
  }

  lemma UpdateOneSeen(db: Db, name: string, id: nat, assignments: seq<Assignment>)
    requires db.inTxn && name in db.tables && FindTxn(db.active, name).Some?
    ensures var (db', r) := UpdateOne(db, name, id, assignments);
      UpdateOne(Seen(db), name, id, assignments) == (Seen(db'), r) && db'.inTxn && FindTxn(db'.active, name).Some?
  {
    LiveSeen(db, name, id);
    var row := LiveRow(db, name, id);
    if row.Some? {
      var row' := Assigned(row.value, assignments);
      if row'.Ok? {
        EnforceSeen(db, name, row'.value, Some(id));
        PutSeen(db, name, id, Some(row'.value));
      }
    }
  }

  lemma {:induction false} UpdateAllSeen(db: Db, name: string, ids: seq<nat>, assignments: seq<Assignment>)
    requires db.inTxn && name in db.tables && FindTxn(db.active, name).Some?
    ensures var (db', r) := UpdateAll(db, name, ids, assignments); UpdateAll(Seen(db), name, ids, assignments) == (Seen(db'), r)
    decreases |ids|
  {
    if ids != [] {
      UpdateOneSeen(db, name, ids[0], assignments);
      var (mid, r) := UpdateOne(db, name, ids[0], assignments);
      if r.Ok? {
        UpdateAllSeen(mid, name, ids[1..], assignments);
      }
    }
  }

  lemma DeleteOneSeen(db: Db, name: string, id: nat)
    requires db.inTxn && name in db.tables && FindTxn(db.active, name).Some?
    ensures var (db', r) := DeleteOne(db, name, id);
      DeleteOne(Seen(db), name, id) == (Seen(db'), r) && db'.inTxn && FindTxn(db'.active, name).Some?
  {
    LiveSeen(db, name, id);
    var row := LiveRow(db, name, id);
    if row.Some? {
      ReferencedSeen(db, name, row.value);
      PutSeen(db, name, id, None);
    }
  }

  lemma {:induction false} DeleteAllSeen(db: Db, name: string, ids: seq<nat>)
    requires db.inTxn && name in db.tables && FindTxn(db.active, name).Some?
    ensures var (db', r) := DeleteAll(db, name, ids); DeleteAll(Seen(db), name, ids) == (Seen(db'), r)
    decreases |ids|
  {
    if ids != [] {
      DeleteOneSeen(db, name, ids[0]);
      var (mid, r) := DeleteOne(db, name, ids[0]);
      if r.Ok? {
        DeleteAllSeen(mid, name, ids[1..]);
      }
    }
  }

  // ---------------------------------------------------------------- statements

  lemma SameWritesSeen(tables: Tables, active: seq<Named>, active': seq<Named>)
    requires forall n :: n in tables ==> WritesFor(active', n) == WritesFor(active, n)
    ensures SeenTables(tables, active') == SeenTables(tables, active)
  {
  }

  /** Opening a transaction on a table changes nothing that is seen. */
  lemma OpenedSeen(db: Db, name: string)
    ensures Seen(EnsureTxn(db, name)) == Seen(db)
    ensures name in db.tables ==> FindTxn(EnsureTxn(db, name).active, name).Some?
  {
    if FindTxn(db.active, name).None? && name in db.tables {
      TableOpenedSeen(db.tables, db.active, Named(name, MvccModel.Begin(db.tables[name].store)));
    }
  }

  lemma TableOpenedSeen(tables: Tables, active: seq<Named>, n: Named)
    requires FindTxn(active, n.table).None? && n.txn.writes == map[]
    ensures SeenTables(tables, active + [n]) == SeenTables(tables, active) && FindTxn(active + [n], n.table).Some?
  {
    forall m ensures WritesFor(active + [n], m) == WritesFor(active, m) {
      WritesAfterOpen(active, n, m);
    }
    WritesAfterOpen(active, n, n.table);
    SameWritesSeen(tables, active, active + [n]);
  }

  lemma FilterSeen(db: Db, name: string, filter: Filter)
    ensures Matching(Seen(db), name, filter) == Matching(db, name, filter)
  {
    if name in db.tables {
      MatchingSeen(db.tables[name], WritesFor(db.active, name), filter, 0, []);
    }
  }

  lemma InsertSeen(db: Db, name: string, columns: seq<nat>, values: seq<Row>)
    requires db.inTxn
    ensures var (db', r) := RunInsert(db, name, columns, values); RunInsert(Seen(db), name, columns, values) == (Seen(db'), r)
  {
    OpenedSeen(db, name);
    var mid := EnsureTxn(db, name);
    PlanSeen(mid, name, columns, values);
    var plan := PlanInsert(mid, name, columns, values);
    if plan.Ok? {
      InsertAllSeen(mid, name, plan.value.0, plan.value.1);
    }
  }

  lemma UpdateSeen(db: Db, name: string, filter: Filter, assignments: seq<Assignment>)
    requires db.inTxn
    ensures var (db', r) := RunUpdate(db, name, filter, assignments); RunUpdate(Seen(db), name, filter, assignments) == (Seen(db'), r)
  {
    OpenedSeen(db, name);
    FilterSeen(db, name, filter);
    var m := Matching(db, name, filter);
    if m.Ok? {
      UpdateAllSeen(EnsureTxn(db, name), name, m.value, assignments);
    }
  }

  lemma DeleteSeen(db: Db, name: string, filter: Filter)
    requires db.inTxn
    ensures var (db', r) := RunDelete(db, name, filter); RunDelete(Seen(db), name, filter) == (Seen(db'), r)
  {
    OpenedSeen(db, name);
    FilterSeen(db, name, filter);
    var m := Matching(db, name, filter);
    if m.Ok? {
      DeleteAllSeen(EnsureTxn(db, name), name, m.value);
    }
  }

  /**
    A statement inside a transaction has the outcome, and does to what the transaction sees, what
    the same statement in autocommit does to those tables; also when it fails partway.
  */
  lemma StatementIsAutocommit(db: Db, stmt: Statement)
    requires db.inTxn && IsQuery(stmt)
    ensures var (db', r) := Execute(db, stmt); Execute(Seen(db), stmt) == (Seen(db'), r)
  {
    match stmt
    case Insert(name, cols, values) => InsertSeen(db, name, cols, values);
    case Update(name, filter, assignments) => UpdateSeen(db, name, filter, assignments);
    case Delete(name, filter) => DeleteSeen(db, name, filter);
    case Select(name) =>
      if name in db.tables {
        ScanSeen(db.tables[name], WritesFor(db.active, name), 0);
      }
  }

  // ---------------------------------------------------------------- COMMIT publishes the view

  ghost predicate SameTableRows(t: Table, u: Table) {
    t.schema == u.schema && t.tree == u.tree && t.nextRowId == u.nextRowId
  }

  /** The same tables but for their version stores. */
  ghost predicate SameRows(a: Tables, b: Tables) {
    a.Keys == b.Keys && forall n :: n in a ==> SameTableRows(a[n], b[n])
  }

  ghost function Own(session: Option<nat>): Context {
    match session case None => Global case Some(sid) => Of(sid)
  }

  ghost function SeenIn(db: Db, session: Option<nat>): Tables {
    SeenTables(db.tables, ActiveIn(db, Own(session)))
  }

  /** The transactions whose writes a COMMIT publishes: a session's up to the first refusal, all or none of the global ones. */
  ghost function Published(db: Db, session: Option<nat>): seq<Named> {
    match session
    case None => if RunCommit(db).1.Ok? then db.active else []
    case Some(sid) => AcceptedBy(db.tables, SessionOf(db, sid).active)
  }

  lemma SessionPublishes(w: World, sid: nat)
    requires WorldOK(w) && SessionOf(w.db, sid).inTxn
    ensures SameRows(SessionCommit(w.db, sid).0.tables, SeenTables(w.db.tables, Published(w.db, Some(sid))))
  {
    var tables, active := w.db.tables, SessionOf(w.db, sid).active;
    ContextActive(w.db, Of(sid));
    CommitEachKeeps(tables, w.history, active);
    forall n | n in tables
      ensures SameTableRows(CommitEach(tables, active).0[n], SeenTables(tables, AcceptedBy(tables, active))[n])
    {
      CommitEachApplies(tables, w.history, active, n);
    }
  }

  lemma GlobalPublishes(w: World)
    requires WorldOK(w) && w.db.inTxn
    ensures SameRows(RunCommit(w.db).0.tables, SeenTables(w.db.tables, Published(w.db, None)))
  {
    GlobalCommitIsAtomic(w.db);
    GlobalCommitTables(w.db.tables, w.history, w.db.active);
    var end := RunCommit(w.db).0.tables;
    forall n | n in w.db.tables ensures SameTableRows(end[n], SeenTables(w.db.tables, Published(w.db, None))[n]) {
      AppliedNothing(w.db.tables[n].tree);
    }
  }

  /** A COMMIT, refused or not, changes the tables by the writes it publishes, and by nothing else. */
  lemma CommitPublishes(w: World, session: Option<nat>)
    requires WorldOK(w) && Open(w.db, Own(session))
    ensures SameRows(After(w.db, Step(session, Commit)).0.tables, SeenTables(w.db.tables, Published(w.db, session)))
  {
    match session
    case None => GlobalPublishes(w);
    case Some(sid) => SessionPublishes(w, sid);
  }

  lemma PublishedAll(w: World, session: Option<nat>)
    requires WorldOK(w) && Open(w.db, Own(session)) && After(w.db, Step(session, Commit)).1.Ok?
    ensures Published(w.db, session) == ActiveIn(w.db, Own(session))
  {
    if session.Some? {
      var active := ActiveIn(w.db, Own(session));
      ContextActive(w.db, Own(session));
      CommitEachOutcome(w.db.tables, w.history, active);
      AcceptedAll(w.db.tables, active);
    }
  }

  /** In every run, a COMMIT that succeeds leaves in the tables exactly what its transaction saw just before. */
  lemma CommitPublishesView(w: World, steps: seq<Step>, session: Option<nat>)
    requires Fresh(w) && Open(Run(w, steps).db, Own(session)) && After(Run(w, steps).db, Step(session, Commit)).1.Ok?
    ensures var db := Run(w, steps).db; SameRows(After(db, Step(session, Commit)).0.tables, SeenIn(db, session))
  {
    RunKeeps(w, steps);
    CommitPublishes(Run(w, steps), session);
    PublishedAll(Run(w, steps), session);
  }

  lemma SameRowsConsistent(a: Tables, b: Tables)
    requires SameRows(a, b)
    ensures Consistent(a) <==> Consistent(b)
  {
    if Consistent(a) {
      OneWay(a, b);
    }
    if Consistent(b) {
      OneWay(b, a);
    }
  }

  /** Consistency depends on schemas and trees, once the row ids are known. */
  lemma OneWay(a: Tables, b: Tables)
    requires SameContents(a, b) && Consistent(a) && forall n :: n in b ==> TreeOK(b[n])
    ensures Consistent(b)
  {
    forall n | n in b ensures RowsOK(b[n]) && UniqueOK(b[n]) && ForeignOK(b, b[n]) {
      SameForeign(a, b, n);
    }
  }

  ghost predicate SameContents(a: Tables, b: Tables) {
    a.Keys == b.Keys && forall n :: n in a ==> b[n].schema == a[n].schema && b[n].tree == a[n].tree
  }

  lemma SameForeign(a: Tables, b: Tables, n: string)
    requires SameContents(a, b) && n in a && ForeignOK(a, a[n])
    ensures ForeignOK(b, b[n])
  {
    forall f, id | 0 <= f < |b[n].schema.foreignKeys| && id in b[n].tree
      ensures Resolves(b, b[n].schema.foreignKeys[f], b[n].tree[id])
    {
      assert Resolves(a, a[n].schema.foreignKeys[f], a[n].tree[id]);
    }
  }

  // ---------------------------------------------------------------- a transaction that runs alone

  /** No transaction is open in the session's context. */
  ghost predicate Idle(db: Db, session: Option<nat>) {
    !db.inTxn && (session.Some? ==> !SessionOf(db, session.value).inTxn)
  }

  /** `a` is inside a transaction and `b` is not, and what `a` sees is what `b` holds. */
  ghost predicate Mirrors(a: Db, b: Db, session: Option<nat>) {
    && Open(a, Own(session)) && AllCurrent(a.tables, ActiveIn(a, Own(session)))
    && Auto(b) && Idle(b, session)
    && SeenIn(a, session) == b.tables
  }

  lemma SeenStep(a: Db, b: Db, stmt: Statement)
    requires a.inTxn && Auto(b) && SeenTables(a.tables, a.active) == b.tables && IsQuery(stmt)
    ensures var (a', r) := Execute(a, stmt); var (b', q) := Execute(b, stmt);
      r == q && SeenTables(a'.tables, a'.active) == b'.tables && Auto(b')
  {
    StatementIsAutocommit(a, stmt);
    ExecuteElsewhere(b, a.sessions, stmt);
    assert Among(b, a.sessions) == Seen(a);
  }

  lemma PlainStep(db: Db, session: Option<nat>, stmt: Statement)
    requires DbOK(db) && Idle(db, session) && IsQuery(stmt)
    ensures After(db, Step(session, stmt)) == Execute(db, stmt) && Idle(Execute(db, stmt).0, session)
  {
    QueryConfined(db, stmt);
  }

  lemma SessionMirrorStep(a: Db, b: Db, sid: nat, stmt: Statement)
    requires DbOK(a) && Mirrors(a, b, Some(sid)) && IsQuery(stmt) && Idle(Execute(b, stmt).0, Some(sid))
    ensures var (a', r) := ExecuteInSession(a, sid, stmt);
      Mirrors(a', Execute(b, stmt).0, Some(sid)) && r == Execute(b, stmt).1
  {
    SeenStep(AsSession(a, SessionOf(a, sid)), b, stmt);
    SessionQuery(a, sid, stmt);
  }

  lemma GlobalMirrorStep(a: Db, b: Db, stmt: Statement)
    requires DbOK(a) && Mirrors(a, b, None) && IsQuery(stmt) && Idle(Execute(b, stmt).0, None)
    ensures var (a', r) := Execute(a, stmt); Mirrors(a', Execute(b, stmt).0, None) && r == Execute(b, stmt).1
  {
    SeenStep(a, b, stmt);
    QueryConfined(a, stmt);
  }

  lemma MirrorStep(v: World, w: World, session: Option<nat>, stmt: Statement)
    requires WorldOK(v) && WorldOK(w) && Mirrors(v.db, w.db, session) && IsQuery(stmt)
    ensures var step := Step(session, stmt);
      Mirrors(Next(v, step).db, Next(w, step).db, session) && After(v.db, step).1 == After(w.db, step).1
  {
    PlainStep(w.db, session, stmt);
    match session
    case None => GlobalMirrorStep(v.db, w.db, stmt);
    case Some(sid) => SessionMirrorStep(v.db, w.db, sid, stmt);
  }

  /** The statements as steps of one session, or of no session. */
  ghost function StepsOf(session: Option<nat>, stmts: seq<Statement>): (r: seq<Step>)
    ensures |r| == |stmts|
  {
    if stmts == [] then [] else StepsOf(session, stmts[..|stmts| - 1]) + [Step(session, stmts[|stmts| - 1])]
  }

  ghost predicate AllQueries(stmts: seq<Statement>) {
    forall k :: 0 <= k < |stmts| ==> IsQuery(stmts[k])
  }

  lemma {:induction false} MirrorRun(v: World, w: World, session: Option<nat>, stmts: seq<Statement>)
    requires WorldOK(v) && WorldOK(w) && Mirrors(v.db, w.db, session) && AllQueries(stmts)
    ensures var steps := StepsOf(session, stmts);
      Mirrors(Run(v, steps).db, Run(w, steps).db, session) && Outcomes(v, steps, None) == Outcomes(w, steps, None)
    decreases |stmts|
  {
    if stmts != [] {
      var init, stmt := stmts[..|stmts| - 1], stmts[|stmts| - 1];
      var steps := StepsOf(session, init);
      MirrorRun(v, w, session, init);
      RunStaysOK(v, steps);
      RunStaysOK(w, steps);
      MirrorStep(Run(v, steps), Run(w, steps), session, stmt);
      RunMore(v, steps, Step(session, stmt));
      RunMore(w, steps, Step(session, stmt));
    }
  }

  /** Nobody is refused when nothing was accepted in between. */
  lemma CurrentIsAccepted(w: World, session: Option<nat>)
    requires WorldOK(w) && Open(w.db, Own(session)) && AllCurrent(w.db.tables, ActiveIn(w.db, Own(session)))
    ensures After(w.db, Step(session, Commit)).1 == Ok(Done)
  {
    var active := ActiveIn(w.db, Own(session));
    ContextActive(w.db, Own(session));
    forall i | 0 <= i < |active| ensures !Refused(w.db.tables, active[i]) {
      assert NamedOK(w.db.tables, active[i]);
      assert TableHistoryOK(w.db.tables[active[i].table].store, w.history[active[i].table]);
    }
    CommitOutcome(w, session);
  }

  lemma BegunMirrors(w: World, session: Option<nat>)
    requires WorldOK(w) && Idle(w.db, session)
    ensures Mirrors(Next(w, Step(session, Begin)).db, w.db, session)
  {
    forall n | n in w.db.tables ensures SeenTables(w.db.tables, [])[n] == w.db.tables[n] {
      AppliedNothing(w.db.tables[n].tree);
    }
    assert SeenTables(w.db.tables, []) == w.db.tables;
  }

  /** The tables after BEGIN, the statements and COMMIT. */
  ghost function Transacted(v: World, session: Option<nat>, stmts: seq<Statement>): (Db, Outcome) {
    After(Run(Next(v, Step(session, Begin)), StepsOf(session, stmts)).db, Step(session, Commit))
  }

  /**
    Putting BEGIN and COMMIT around statements changes nothing if nobody else runs in between, in
    any state of any run: every statement has the outcome it has in autocommit, failing ones
    included, COMMIT succeeds, and the tables hold the same rows and hand out the same row ids.
  */
  lemma TransactionIsAutocommit(w: World, pre: seq<Step>, session: Option<nat>, stmts: seq<Statement>)
    requires Fresh(w) && Idle(Run(w, pre).db, session) && AllQueries(stmts)
    ensures var v, steps := Run(w, pre), StepsOf(session, stmts);
      && Outcomes(Next(v, Step(session, Begin)), steps, None) == Outcomes(v, steps, None)
      && Transacted(v, session, stmts).1 == Ok(Done)
      && SameRows(Transacted(v, session, stmts).0.tables, Run(v, steps).db.tables)
  {
    var v, steps := Run(w, pre), StepsOf(session, stmts);
    var b := Next(v, Step(session, Begin));
    RunKeeps(w, pre);
    BegunMirrors(v, session);
    StepKeeps(v, Step(session, Begin));
    MirrorRun(b, v, session, stmts);
    RunStaysOK(b, steps);
    CurrentIsAccepted(Run(b, steps), session);
    CommitPublishes(Run(b, steps), session);
    PublishedAll(Run(b, steps), session);
  }

  // ---------------------------------------------------------------- integrity

  /** Statements outside a transaction are autocommit statements. */
  lemma {:induction false} PlainRun(v: World, session: Option<nat>, stmts: seq<Statement>)
    requires WorldOK(v) && Idle(v.db, session) && AllQueries(stmts)
    ensures Run(v, StepsOf(session, stmts)).db == ConstraintProofs.RunAll(v.db, stmts)
    ensures Idle(Run(v, StepsOf(session, stmts)).db, session)
    decreases |stmts|
  {
    if stmts != [] {
      var init, stmt := stmts[..|stmts| - 1], stmts[|stmts| - 1];
      var steps := StepsOf(session, init);
      PlainRun(v, session, init);
      RunStaysOK(v, steps);
      PlainStep(Run(v, steps).db, session, stmt);
      RunMore(v, steps, Step(session, stmt));
    }
  }

  /** A transaction that runs alone keeps every constraint, whatever its statements do, failing ones included. */
  lemma TransactionKeeps(w: World, pre: seq<Step>, session: Option<nat>, stmts: seq<Statement>)
    requires Fresh(w) && Idle(Run(w, pre).db, session)
    requires Consistent(Run(w, pre).db.tables) && ConstraintProofs.AllIdSafe(Run(w, pre).db.tables)
    requires forall k :: 0 <= k < |stmts| ==> ConstraintProofs.Safe(Run(w, pre).db, stmts[k])
    ensures Consistent(Transacted(Run(w, pre), session, stmts).0.tables)
  {
    var v := Run(w, pre);
    assert AllQueries(stmts);
    RunKeeps(w, pre);
    TransactionIsAutocommit(w, pre, session, stmts);
    PlainRun(v, session, stmts);
    ConstraintProofs.ConstraintsAlwaysHold(v.db, stmts);
    SameRowsConsistent(Transacted(v, session, stmts).0.tables, Run(v, StepsOf(session, stmts)).db.tables);
  }
}
