/** Runs of two sessions that show what COMMIT does not promise. */
module SessionScenarios {
  import opened Common
  import opened Values
  import opened RelationalModel
  import opened SessionRuns
  import opened Integrity
  import opened Erasure
  import MvccModel
  import MvccProofs

  // ---------------------------------------------------------------- tables of one row

  /** A table of two columns without constraints holds one row. */
  ghost predicate OneRow(tables: Tables, name: string, row: Row) {
    && name in tables && |row| == 2 && tables[name].schema == Schema(2, [], [], [], []) && tables[name].nextRowId == 1
    && tables[name].tree == map[0 := row] && MvccProofs.StoreOK(tables[name].store)
  }

  /** UPDATE name SET column 1 = v. */
  ghost function SetAll(name: string, v: Value): Statement {
    Update(name, _ => Ok(true), [Assignment(1, v)])
  }

  /** The transaction on a table that has just been touched by that UPDATE. */
  ghost function Wrote(tables: Tables, name: string, row: Row, v: Value): Named
    requires name in tables && |row| == 2
  {
    Named(name, MvccModel.Txn(tables[name].store.clock, [], map[0 := Some(row[1 := v])]))
  }

  lemma MatchesOnly(t: Table, filter: Filter, row: Row)
    requires t.nextRowId == 1 && t.tree == map[0 := row] && filter(row) == Ok(true)
    ensures MatchingFrom(t, map[], filter, 0, []) == Ok([0])
  {
    assert Live(t.tree, map[], 0) == Some(row);
    assert [] + [0] == [0];
    assert MatchingFrom(t, map[], filter, 1, [0]) == Ok([0]);
  }

  lemma AssignsOne(row: Row, v: Value)
    requires |row| == 2
    ensures Assigned(row, [Assignment(1, v)]) == Ok(row[1 := v])
  {
    assert [Assignment(1, v)][1..] == [];
    assert Assigned(row[1 := v], []) == Ok(row[1 := v]);
  }

  lemma {:induction false} FindLast(active: seq<Named>, n: Named)
    requires FindTxn(active, n.table).None?
    ensures FindTxn(active + [n], n.table) == Some(|active|)
  {
    if active != [] {
      assert (active + [n])[1..] == active[1..] + [n];
      FindLast(active[1..], n);
    }
  }

  /** Updating the one row in a transaction that has just been opened on the table. */
  lemma UpdatesOnly(db: Db, active: seq<Named>, name: string, row: Row, v: Value, ts: nat)
    requires db.inTxn && OneRow(db.tables, name, row) && FindTxn(active, name).None?
    requires db.active == active + [Named(name, MvccModel.Txn(ts, [], map[]))]
    ensures UpdateAll(db, name, [0], [Assignment(1, v)]) ==
            (db.(active := active + [Named(name, MvccModel.Txn(ts, [], map[0 := Some(row[1 := v])]))]), Ok(()))
  {
    AssignsOne(row, v);
    FindLast(active, Named(name, MvccModel.Txn(ts, [], map[])));
    assert LiveRow(db, name, 0) == Some(row);
    assert Enforce(db, name, row[1 := v], Some(0)).None?;
    var after := Put(db, name, 0, Some(row[1 := v]));
    assert after.active == active + [Named(name, MvccModel.Txn(ts, [], map[0 := Some(row[1 := v])]))];
    assert UpdateOne(db, name, 0, [Assignment(1, v)]) == (after, Ok(()));
    assert [0][1..] == [];
    assert UpdateAll(after, name, [], [Assignment(1, v)]) == (after, Ok(()));
  }

  /** The UPDATE in a transaction that has not touched the table yet. */
  lemma Touches(db: Db, name: string, row: Row, v: Value)
    requires db.inTxn && OneRow(db.tables, name, row) && FindTxn(db.active, name).None?
    ensures Execute(db, SetAll(name, v)).0 == db.(active := db.active + [Wrote(db.tables, name, row, v)])
  {
    var ts := db.tables[name].store.clock;
    MatchesOnly(db.tables[name], SetAll(name, v).filter, row);
    assert EnsureTxn(db, name) == db.(active := db.active + [Named(name, MvccModel.Txn(ts, [], map[]))]);
    UpdatesOnly(EnsureTxn(db, name), db.active, name, row, v, ts);
  }

  lemma SessionTouches(db: Db, sid: nat, name: string, row: Row, v: Value)
    requires OneRow(db.tables, name, row) && SessionOf(db, sid).inTxn && FindTxn(SessionOf(db, sid).active, name).None?
    ensures ExecuteInSession(db, sid, SetAll(name, v)).0 ==
            SetSession(db, sid, Session(true, SessionOf(db, sid).active + [Wrote(db.tables, name, row, v)]))
  {
    Touches(AsSession(db, SessionOf(db, sid)), name, row, v);
  }

  // ---------------------------------------------------------------- version stores

  lemma NoRival(s: MvccModel.Store<Option<Row>>, t: MvccModel.Txn<Option<Row>>)
    requires MvccProofs.StoreOK(s) && t.snapshot == s.clock
    ensures !MvccModel.Stale(s, t)
  {
  }

  /** Once a rival is accepted, a transaction that wrote the same row before is stale. */
  lemma NowStale(s: MvccModel.Store<Option<Row>>, t: MvccModel.Txn<Option<Row>>, rival: MvccModel.Txn<Option<Row>>, id: nat)
    requires t.snapshot <= s.clock && id in t.writes && id in rival.writes
    ensures MvccModel.Stale(MvccModel.Committed(s, rival), t)
  {
    assert MvccModel.ChangedSince(MvccModel.Committed(s, rival), id, t.snapshot);
  }

  lemma AppliedOne(row: Row, row': Row)
    ensures Applied(map[0 := row], map[0 := Some(row')]) == map[0 := row']
  {
    var r := Applied(map[0 := row], map[0 := Some(row')]);
    assert forall id :: id in r <==> id == 0;
  }

  /** The tables after one transaction on one table is accepted and written back. */
  ghost function Landed(tables: Tables, n: Named): Tables {
    WrittenBack(Validated(tables, n), n)
  }

  /** A transaction that has just touched the table is accepted, and its row replaces the old one. */
  lemma Lands(tables: Tables, name: string, row: Row, v: Value)
    requires OneRow(tables, name, row)
    ensures var n := Wrote(tables, name, row, v);
      && !Refused(tables, n) && CommitEach(tables, [n]) == (Landed(tables, n), true)
      && OneRow(Landed(tables, n), name, row[1 := v])
      && Landed(tables, n).Keys == tables.Keys && (forall m :: m in tables && m != name ==> Landed(tables, n)[m] == tables[m])
  {
    var n := Wrote(tables, name, row, v);
    NoRival(tables[name].store, n.txn);
    MvccProofs.CommittedOK(tables[name].store, n.txn);
    AppliedOne(row, row[1 := v]);
    assert [n][1..] == [];
    assert CommitEach(Landed(tables, n), []) == (Landed(tables, n), true);
  }

  // ---------------------------------------------------------------- playing steps

  /** After `steps` the database is `db`. */
  ghost predicate Plays(w: World, steps: seq<Step>, db: Db) {
    Run(w, steps).db == db
  }

  lemma PlayMore(w: World, steps: seq<Step>, db: Db, step: Step, db': Db, steps': seq<Step>)
    requires Plays(w, steps, db) && After(db, step).0 == db' && steps' == steps + [step]
    ensures Plays(w, steps', db')
  {
    assert steps'[..|steps|] == steps;
  }

  ghost function Opens(sid: nat): Step {
    Step(Some(sid), Begin)
  }

  ghost function Commits(sid: nat): Step {
    Step(Some(sid), Commit)
  }

  ghost function Sets(sid: nat, name: string, v: Value): Step {
    Step(Some(sid), SetAll(name, v))
  }

  /** Sessions 1 and 2 in transactions of their own, beside a global context. */
  ghost function Both(tables: Tables, inTxn: bool, active: seq<Named>, one: seq<Named>, two: seq<Named>): Db {
    Db(tables, inTxn, active, map[1 := Session(true, one), 2 := Session(true, two)])
  }

  lemma BothBegin(w: World, steps: seq<Step>, inTxn: bool)
    requires Plays(w, steps, Db(w.db.tables, inTxn, [], map[]))
    ensures Plays(w, steps + [Opens(1)] + [Opens(2)], Both(w.db.tables, inTxn, [], [], []))
  {
    var mid := Db(w.db.tables, inTxn, [], map[1 := Session(true, [])]);
    PlayMore(w, steps, Db(w.db.tables, inTxn, [], map[]), Opens(1), mid, steps + [Opens(1)]);
    PlayMore(w, steps + [Opens(1)], mid, Opens(2), Both(w.db.tables, inTxn, [], [], []), steps + [Opens(1)] + [Opens(2)]);
  }

  lemma OneSets(w: World, steps: seq<Step>, db: Db, one: seq<Named>, two: seq<Named>, name: string, row: Row, v: Value)
    requires db == Both(db.tables, db.inTxn, db.active, one, two) && Plays(w, steps, db)
    requires OneRow(db.tables, name, row) && FindTxn(one, name).None?
    ensures Plays(w, steps + [Sets(1, name, v)], Both(db.tables, db.inTxn, db.active, one + [Wrote(db.tables, name, row, v)], two))
  {
    SessionTouches(db, 1, name, row, v);
    PlayMore(w, steps, db, Sets(1, name, v), Both(db.tables, db.inTxn, db.active, one + [Wrote(db.tables, name, row, v)], two),
             steps + [Sets(1, name, v)]);
  }

  lemma TwoSets(w: World, steps: seq<Step>, db: Db, one: seq<Named>, two: seq<Named>, name: string, row: Row, v: Value)
    requires db == Both(db.tables, db.inTxn, db.active, one, two) && Plays(w, steps, db)
    requires OneRow(db.tables, name, row) && FindTxn(two, name).None?
    ensures Plays(w, steps + [Sets(2, name, v)], Both(db.tables, db.inTxn, db.active, one, two + [Wrote(db.tables, name, row, v)]))
  {
    SessionTouches(db, 2, name, row, v);
    PlayMore(w, steps, db, Sets(2, name, v), Both(db.tables, db.inTxn, db.active, one, two + [Wrote(db.tables, name, row, v)]),
             steps + [Sets(2, name, v)]);
  }

  lemma Opening(w: World)
    requires Fresh(w)
    ensures Plays(w, [], Db(w.db.tables, false, [], map[]))
  {
  }

  // ---------------------------------------------------------------- overlap counts from the first touch

  /** Both sessions begin; the first updates the row. */
  ghost function OverlapSteps(v: Value): seq<Step> {
    [] + [Opens(1)] + [Opens(2)] + [Sets(1, "t", v)]
  }

  lemma OverlapOpens(w: World, row: Row, v: Value)
    requires Fresh(w) && OneRow(w.db.tables, "t", row)
    ensures Plays(w, OverlapSteps(v), Both(w.db.tables, false, [], [] + [Wrote(w.db.tables, "t", row, v)], []))
  {
    Opening(w);
    BothBegin(w, [], false);
    OneSets(w, [] + [Opens(1)] + [Opens(2)], Both(w.db.tables, false, [], [], []), [], [], "t", row, v);
  }

  /** What a session's COMMIT of a single accepted transaction does. */
  lemma CommitsOne(db: Db, sid: nat, name: string, row: Row, v: Value)
    requires OneRow(db.tables, name, row) && SessionOf(db, sid) == Session(true, [Wrote(db.tables, name, row, v)])
    ensures SessionCommit(db, sid) ==
            (SetSession(db, sid, Session(false, [])).(tables := Landed(db.tables, Wrote(db.tables, name, row, v))), Ok(Done))
  {
    Lands(db.tables, name, row, v);
  }

  /**
    Sessions 1 and 2 both BEGIN before either commits, both write the one row, and both COMMIT
    succeed, because 2 first touches the table after 1 is accepted.
  */
  lemma BothCommit(w: World, row: Row, v: Value, u: Value)
    requires Fresh(w) && OneRow(w.db.tables, "t", row)
    ensures var first := OverlapSteps(v); var second := first + [Commits(1)] + [Sets(2, "t", u)];
      && After(Run(w, first).db, Commits(1)).1 == Ok(Done)
      && After(Run(w, second).db, Commits(2)).1 == Ok(Done)
      && OneRow(After(Run(w, second).db, Commits(2)).0.tables, "t", row[1 := u])
  {
    FirstCommits(w, row, v);
    Lands(w.db.tables, "t", row, v);
    SecondCommits(w, OverlapSteps(v) + [Commits(1)], FirstCommitted(w.db.tables, row, v), row[1 := v], u);
    assert row[1 := v][1 := u] == row[1 := u];
  }

  ghost function FirstCommitted(tables: Tables, row: Row, v: Value): Db
    requires OneRow(tables, "t", row)
  {
    Db(Landed(tables, Wrote(tables, "t", row, v)), false, [], map[1 := Session(false, []), 2 := Session(true, [])])
  }

  lemma FirstCommits(w: World, row: Row, v: Value)
    requires Fresh(w) && OneRow(w.db.tables, "t", row)
    ensures After(Run(w, OverlapSteps(v)).db, Commits(1)).1 == Ok(Done)
    ensures Plays(w, OverlapSteps(v) + [Commits(1)], FirstCommitted(w.db.tables, row, v))
  {
    OverlapOpens(w, row, v);
    var n := Wrote(w.db.tables, "t", row, v);
    assert [] + [n] == [n];
    var db := Both(w.db.tables, false, [], [n], []);
    CommitsOne(db, 1, "t", row, v);
    PlayMore(w, OverlapSteps(v), db, Commits(1), FirstCommitted(w.db.tables, row, v), OverlapSteps(v) + [Commits(1)]);
  }

  lemma SecondCommits(w: World, steps: seq<Step>, db: Db, row: Row, u: Value)
    requires Plays(w, steps, db) && OneRow(db.tables, "t", row) && SessionOf(db, 2) == Session(true, [])
    ensures After(Run(w, steps + [Sets(2, "t", u)]).db, Commits(2)).1 == Ok(Done)
    ensures OneRow(After(Run(w, steps + [Sets(2, "t", u)]).db, Commits(2)).0.tables, "t", row[1 := u])
  {
    var n := Wrote(db.tables, "t", row, u);
    var db' := SetSession(db, 2, Session(true, [] + [n]));
    SessionTouches(db, 2, "t", row, u);
    PlayMore(w, steps, db, Sets(2, "t", u), db', steps + [Sets(2, "t", u)]);
    assert [] + [n] == [n];
    CommitsOne(db', 2, "t", row, u);
    Lands(db.tables, "t", row, u);
  }

  // ---------------------------------------------------------------- a session's COMMIT can stop halfway

  /** Session 1 updates tables a and b, session 2 updates b. */
  ghost function HalfwaySteps(v: Value, u: Value): seq<Step> {
    [] + [Opens(1)] + [Opens(2)] + [Sets(1, "a", v)] + [Sets(1, "b", v)] + [Sets(2, "b", u)]
  }

  lemma HalfwayOpens(w: World, a: Row, b: Row, v: Value, u: Value)
    requires Fresh(w) && OneRow(w.db.tables, "a", a) && OneRow(w.db.tables, "b", b)
    ensures var t := w.db.tables;
      Plays(w, HalfwaySteps(v, u), Both(t, false, [], [] + [Wrote(t, "a", a, v)] + [Wrote(t, "b", b, v)], [] + [Wrote(t, "b", b, u)]))
  {
    var t := w.db.tables;
    Opening(w);
    BothBegin(w, [], false);
    var s2 := [] + [Opens(1)] + [Opens(2)];
    var na, nb := Wrote(t, "a", a, v), Wrote(t, "b", b, v);
    OneSets(w, s2, Both(t, false, [], [], []), [], [], "a", a, v);
    assert FindTxn([] + [na], "b").None?;
    OneSets(w, s2 + [Sets(1, "a", v)], Both(t, false, [], [] + [na], []), [] + [na], [], "b", b, v);
    TwoSets(w, s2 + [Sets(1, "a", v)] + [Sets(1, "b", v)], Both(t, false, [], [] + [na] + [nb], []), [] + [na] + [nb], [], "b", b, u);
  }

  /** With a rival accepted on the second table, the first is written back and the second refused. */
  lemma HalfCommitted(tables: Tables, a: Row, b: Row, v: Value, u: Value, before: Tables)
    requires OneRow(before, "a", a) && OneRow(before, "b", b) && tables == Landed(before, Wrote(before, "b", b, u))
    ensures var (end, ok) := CommitEach(tables, [Wrote(before, "a", a, v), Wrote(before, "b", b, v)]);
      && !ok && "a" in end && "b" in end
      && end["a"].tree == map[0 := a[1 := v]] && end["b"].tree == map[0 := b[1 := u]]
  {
    var na, nb := Wrote(before, "a", a, v), Wrote(before, "b", b, v);
    Lands(before, "b", b, u);
    assert na == Wrote(tables, "a", a, v);
    Lands(tables, "a", a, v);
    NowStale(before["b"].store, nb.txn, Wrote(before, "b", b, u).txn, 0);
    var mid := Landed(tables, na);
    assert mid["b"] == tables["b"];
    assert Refused(mid, nb);
    assert [na, nb][1..] == [nb];
    assert CommitEach(mid, [nb]) == (mid, false);
  }

  /**
    Session 2's COMMIT of b succeeds, so session 1's COMMIT of a and b is refused, yet table a
    keeps session 1's row.
  */
  lemma SessionCommitStopsHalfway(w: World, a: Row, b: Row, v: Value, u: Value)
    requires Fresh(w) && OneRow(w.db.tables, "a", a) && OneRow(w.db.tables, "b", b)
    ensures var steps := HalfwaySteps(v, u) + [Commits(2)]; var (db, r) := After(Run(w, steps).db, Commits(1));
      && r == Err(CommitConflict) && "a" in db.tables && "b" in db.tables
      && db.tables["a"].tree == map[0 := a[1 := v]] && db.tables["b"].tree == map[0 := b[1 := u]]
  {
    var t, steps := w.db.tables, HalfwaySteps(v, u);
    HalfwayOpens(w, a, b, v, u);
    var na, nb, rival := Wrote(t, "a", a, v), Wrote(t, "b", b, v), Wrote(t, "b", b, u);
    assert [] + [na] + [nb] == [na, nb] && [] + [rival] == [rival];
    var db5 := Both(t, false, [], [na, nb], [rival]);
    CommitsOne(db5, 2, "b", b, u);
    var db6 := Db(Landed(t, rival), false, [], map[1 := Session(true, [na, nb]), 2 := Session(false, [])]);
    PlayMore(w, steps, db5, Commits(2), db6, steps + [Commits(2)]);
    HalfCommitted(Landed(t, rival), a, b, v, u, t);
  }

  // ---------------------------------------------------------------- a refused global COMMIT can refuse others

  /** The global transaction updates a and b, session 1 updates b, session 2 updates a; session 1 commits. */
  ghost function PhantomSteps(v: Value, u: Value, x: Value): seq<Step> {
    [] + [Step(None, Begin)] + [Opens(1)] + [Opens(2)] + [Step(None, SetAll("a", v))] + [Step(None, SetAll("b", v))] +
    [Sets(1, "b", u)] + [Sets(2, "a", x)] + [Commits(1)]
  }

  /** The global transaction touches one more table. */
  lemma GlobalSets(w: World, steps: seq<Step>, tables: Tables, active: seq<Named>, name: string, row: Row, v: Value)
    requires Plays(w, steps, Both(tables, true, active, [], [])) && OneRow(tables, name, row) && FindTxn(active, name).None?
    ensures Plays(w, steps + [Step(None, SetAll(name, v))], Both(tables, true, active + [Wrote(tables, name, row, v)], [], []))
  {
    var db := Both(tables, true, active, [], []);
    Touches(db, name, row, v);
    PlayMore(w, steps, db, Step(None, SetAll(name, v)), Both(tables, true, active + [Wrote(tables, name, row, v)], [], []),
             steps + [Step(None, SetAll(name, v))]);
  }

  lemma PhantomOpens(w: World, a: Row, b: Row, v: Value)
    requires Fresh(w) && OneRow(w.db.tables, "a", a) && OneRow(w.db.tables, "b", b)
    ensures var t := w.db.tables;
      Plays(w, [] + [Step(None, Begin)] + [Opens(1)] + [Opens(2)] + [Step(None, SetAll("a", v))] + [Step(None, SetAll("b", v))],
            Both(t, true, [] + [Wrote(t, "a", a, v)] + [Wrote(t, "b", b, v)], [], []))
  {
    var t := w.db.tables;
    Opening(w);
    PlayMore(w, [], Db(t, false, [], map[]), Step(None, Begin), Db(t, true, [], map[]), [] + [Step(None, Begin)]);
    BothBegin(w, [] + [Step(None, Begin)], true);
    var s3 := [] + [Step(None, Begin)] + [Opens(1)] + [Opens(2)];
    GlobalSets(w, s3, t, [], "a", a, v);
    assert FindTxn([] + [Wrote(t, "a", a, v)], "b").None?;
    GlobalSets(w, s3 + [Step(None, SetAll("a", v))], t, [] + [Wrote(t, "a", a, v)], "b", b, v);
  }

  /** The state before the global COMMIT. */
  ghost function PhantomDb(t: Tables, a: Row, b: Row, v: Value, u: Value, x: Value): Db
    requires OneRow(t, "a", a) && OneRow(t, "b", b)
  {
    Db(Landed(t, Wrote(t, "b", b, u)), true, [Wrote(t, "a", a, v), Wrote(t, "b", b, v)],
       map[1 := Session(false, []), 2 := Session(true, [Wrote(t, "a", a, x)])])
  }

  /** The steps before session 1 commits. */
  ghost function TouchSteps(v: Value, u: Value, x: Value): seq<Step> {
    [] + [Step(None, Begin)] + [Opens(1)] + [Opens(2)] + [Step(None, SetAll("a", v))] + [Step(None, SetAll("b", v))] +
    [Sets(1, "b", u)] + [Sets(2, "a", x)]
  }

  lemma PhantomTouched(w: World, a: Row, b: Row, v: Value, u: Value, x: Value)
    requires Fresh(w) && OneRow(w.db.tables, "a", a) && OneRow(w.db.tables, "b", b)
    ensures var t := w.db.tables;
      Plays(w, TouchSteps(v, u, x),
            Both(t, true, [] + [Wrote(t, "a", a, v)] + [Wrote(t, "b", b, v)], [] + [Wrote(t, "b", b, u)], [] + [Wrote(t, "a", a, x)]))
  {
    var t := w.db.tables;
    PhantomOpens(w, a, b, v);
    var s5 := [] + [Step(None, Begin)] + [Opens(1)] + [Opens(2)] + [Step(None, SetAll("a", v))] + [Step(None, SetAll("b", v))];
    var active := [] + [Wrote(t, "a", a, v)] + [Wrote(t, "b", b, v)];
    OneSets(w, s5, Both(t, true, active, [], []), [], [], "b", b, u);
    var one := [] + [Wrote(t, "b", b, u)];
    TwoSets(w, s5 + [Sets(1, "b", u)], Both(t, true, active, one, []), one, [], "a", a, x);
  }

  lemma PhantomReady(w: World, a: Row, b: Row, v: Value, u: Value, x: Value)
    requires Fresh(w) && OneRow(w.db.tables, "a", a) && OneRow(w.db.tables, "b", b)
    ensures Plays(w, PhantomSteps(v, u, x), PhantomDb(w.db.tables, a, b, v, u, x))
  {
    var t := w.db.tables;
    PhantomTouched(w, a, b, v, u, x);
    var active := [Wrote(t, "a", a, v), Wrote(t, "b", b, v)];
    var nb, na := Wrote(t, "b", b, u), Wrote(t, "a", a, x);
    assert [] + [Wrote(t, "a", a, v)] + [Wrote(t, "b", b, v)] == active && [] + [nb] == [nb] && [] + [na] == [na];
    var db := Both(t, true, active, [nb], [na]);
    CommitsOne(db, 1, "b", b, u);
    PlayMore(w, TouchSteps(v, u, x), db, Commits(1), PhantomDb(t, a, b, v, u, x), PhantomSteps(v, u, x));
  }

  /** The global COMMIT is refused at b, after a's version store has accepted it. */
  lemma PhantomAccepted(t: Tables, a: Row, b: Row, v: Value, u: Value, x: Value)
    requires OneRow(t, "a", a) && OneRow(t, "b", b)
    ensures var db := PhantomDb(t, a, b, v, u, x);
      RunCommit(db) == (db.(inTxn := false, active := [], tables := Validated(db.tables, Wrote(t, "a", a, v))), Err(CommitConflict))
  {
    var db, na, nb := PhantomDb(t, a, b, v, u, x), Wrote(t, "a", a, v), Wrote(t, "b", b, v);
    Lands(t, "b", b, u);
    assert na == Wrote(db.tables, "a", a, v);
    Lands(db.tables, "a", a, v);
    NowStale(t["b"].store, nb.txn, Wrote(t, "b", b, u).txn, 0);
    var mid := Validated(db.tables, na);
    assert mid["b"] == db.tables["b"];
    assert Refused(mid, nb);
    assert [na, nb][1..] == [nb];
    assert ValidateAll(mid, [nb]) == (mid, false);
  }

  /**
    The global COMMIT is refused and table a still holds its old row; yet session 2, whose COMMIT
    of a would have succeeded before, is now refused as well.
  */
  lemma RefusedCommitRefusesOthers(w: World, a: Row, b: Row, v: Value, u: Value, x: Value)
    requires Fresh(w) && OneRow(w.db.tables, "a", a) && OneRow(w.db.tables, "b", b)
    ensures var db := Run(w, PhantomSteps(v, u, x)).db; var (db', r) := After(db, Step(None, Commit));
      && After(db, Commits(2)).1 == Ok(Done)
      && r == Err(CommitConflict) && "a" in db'.tables && db'.tables["a"].tree == map[0 := a]
      && After(db', Commits(2)).1 == Err(CommitConflict)
  {
    PhantomReady(w, a, b, v, u, x);
    var t := w.db.tables;
    PhantomAccepted(t, a, b, v, u, x);
    var db, na, nx := PhantomDb(t, a, b, v, u, x), Wrote(t, "a", a, v), Wrote(t, "a", a, x);
    Lands(t, "b", b, u);
    assert nx == Wrote(db.tables, "a", a, x);
    CommitsOne(db, 2, "a", a, x);
    NowStale(db.tables["a"].store, nx.txn, na.txn, 0);
    var db' := RunCommit(db).0;
    assert Refused(db'.tables, nx);
    assert CommitEach(db'.tables, [nx]) == (db'.tables, false);
  }

  // ---------------------------------------------------------------- two COMMITs can break a constraint

  /** A table of two columns with UNIQUE on the second, without rows in its tree. */
  ghost predicate Vacant(tables: Tables, next: nat) {
    "t" in tables && tables["t"] == Table(Schema(2, [], [[1]], [], []), map[], next, MvccModel.NewStore())
  }

  /** The transaction that has added the row `[id, 5]`. */
  ghost function Added(id: nat): Named {
    Named("t", MvccModel.Txn(0, [], map[id := Some([Int(id), Int(5)])]))
  }

  ghost function Adds(sid: nat): Step {
    Step(Some(sid), InsertFive())
  }

  ghost function MoreIds(tables: Tables): Tables
    requires "t" in tables
  {
    tables["t" := tables["t"].(nextRowId := tables["t"].nextRowId + 1)]
  }

  /** In a transaction that sees no rows the INSERT is buffered under the next id. */
  lemma AddsOne(db: Db, next: nat)
    requires db.inTxn && db.active == [] && Vacant(db.tables, next)
    ensures Execute(db, InsertFive()) == (db.(active := [Added(next)], tables := MoreIds(db.tables)), Ok(Count(1)))
  {
    var ready := EnsureTxn(db, "t");
    assert ready == db.(active := [Named("t", MvccModel.Txn(0, [], map[]))]);
    FivePlanned(ready, [[1]]);
    var row := [Null, Int(5)];
    assert WithId(row, next, false) == [Int(next), Int(5)];
    assert [row][1..] == [];
    var one := InsertOne(ready, "t", row, false);
    assert one.active == [Added(next)];
    assert InsertAll(one, "t", [], false) == one;
  }

  lemma SessionAdds(db: Db, sid: nat, next: nat)
    requires SessionOf(db, sid) == Session(true, []) && Vacant(db.tables, next)
    ensures ExecuteInSession(db, sid, InsertFive()) ==
            (SetSession(db, sid, Session(true, [Added(next)])).(tables := MoreIds(db.tables)), Ok(Count(1)))
  {
    AddsOne(AsSession(db, SessionOf(db, sid)), next);
  }

  /** Both sessions begin and add the row; neither sees the other's. */
  ghost function TwinSteps(): seq<Step> {
    [] + [Opens(1)] + [Opens(2)] + [Adds(1)] + [Adds(2)]
  }

  lemma TwinsAdded(w: World)
    requires Fresh(w) && Vacant(w.db.tables, 0)
    ensures Plays(w, TwinSteps(), Both(MoreIds(MoreIds(w.db.tables)), false, [], [Added(0)], [Added(1)]))
  {
    var t, s2 := w.db.tables, [] + [Opens(1)] + [Opens(2)];
    Opening(w);
    BothBegin(w, [], false);
    SessionAdds(Both(t, false, [], [], []), 1, 0);
    PlayMore(w, s2, Both(t, false, [], [], []), Adds(1), Both(MoreIds(t), false, [], [Added(0)], []), s2 + [Adds(1)]);
    SessionAdds(Both(MoreIds(t), false, [], [Added(0)], []), 2, 1);
    PlayMore(w, s2 + [Adds(1)], Both(MoreIds(t), false, [], [Added(0)], []), Adds(2),
             Both(MoreIds(MoreIds(t)), false, [], [Added(0)], [Added(1)]), TwinSteps());
  }

  /** A transaction that added a row is accepted where no version of that row is known. */
  lemma AddedLands(tables: Tables, id: nat)
    requires "t" in tables && id !in tables["t"].store.versions && id !in tables["t"].tree
    ensures CommitEach(tables, [Added(id)]) == (Landed(tables, Added(id)), true)
    ensures Landed(tables, Added(id))["t"].tree == tables["t"].tree[id := [Int(id), Int(5)]]
    ensures Landed(tables, Added(id))["t"].schema == tables["t"].schema
    ensures forall k: nat :: k != id && k !in tables["t"].store.versions ==> k !in Landed(tables, Added(id))["t"].store.versions
  {
    var n := Added(id);
    assert !Refused(tables, n);
    assert [n][1..] == [];
    assert CommitEach(Landed(tables, n), []) == (Landed(tables, n), true);
    var r := Applied(tables["t"].tree, n.txn.writes);
    assert forall x: nat :: x in r <==> x == id || x in tables["t"].tree;
    assert r == tables["t"].tree[id := [Int(id), Int(5)]];
  }

  lemma TwinsBreakUnique(tables: Tables)
    requires "t" in tables && tables["t"].schema.unique == [[1]] && 0 in tables["t"].tree && 1 in tables["t"].tree
    requires tables["t"].tree[0] == [Int(0), Int(5)] && tables["t"].tree[1] == [Int(1), Int(5)]
    ensures !Consistent(tables)
  {
    var t := tables["t"];
    assert Proj(t.tree[0], [1]) == [Int(5)] == Proj(t.tree[1], [1]);
    assert !Distinct(t.tree[0], t.tree[1], t.schema.unique[0]);
    assert !UniqueOK(t);
  }

  /**
    Two sessions add the same value to a UNIQUE column. Neither sees the other's row, the rows have
    different ids, and both COMMITs succeed: the constraint is broken.
  */
  lemma CommitsBreakUnique(w: World)
    requires Fresh(w) && Vacant(w.db.tables, 0)
    ensures var steps := TwinSteps() + [Commits(1)]; var (db, r) := After(Run(w, steps).db, Commits(2));
      && After(Run(w, TwinSteps()).db, Commits(1)).1 == Ok(Done) && r == Ok(Done) && !Consistent(db.tables)
  {
    var m := MoreIds(MoreIds(w.db.tables));
    var mid := Landed(m, Added(0));
    TwinsAdded(w);
    AddedLands(m, 0);
    PlayMore(w, TwinSteps(), Both(m, false, [], [Added(0)], [Added(1)]), Commits(1),
             Db(mid, false, [], map[1 := Session(false, []), 2 := Session(true, [Added(1)])]), TwinSteps() + [Commits(1)]);
    AddedLands(mid, 1);
    TwinsBreakUnique(Landed(mid, Added(1)));
  }

  lemma SecondAddIsRefused(db: Db)
    requires db.inTxn && db.active == [] && "t" in db.tables && db.tables["t"].schema == Schema(2, [], [[1]], [], [])
    requires db.tables["t"].nextRowId == 1 && db.tables["t"].tree == map[0 := [Int(0), Int(5)]]
    ensures Execute(db, InsertFive()).1 == Err(UniqueViolation)
  {
    var ready, t, row := EnsureTxn(db, "t"), db.tables["t"], [Null, Int(5)];
    assert WritesFor(ready.active, "t") == map[];
    FivePlanned(ready, [[1]]);
    assert Proj(row, [1]) == [Int(5)] == Proj(t.tree[0], [1]);
    assert HasKey(Live(t.tree, map[], 0), [1], [Int(5)]);
    assert HoldsKey(t, map[], t.schema.unique[0], Proj(row, t.schema.unique[0]), None);
  }

  /** Whichever session goes first, the other's INSERT is refused if it starts after the first has committed. */
  lemma SerialAddIsRefused(w: World, first: nat, second: nat)
    requires Fresh(w) && Vacant(w.db.tables, 0) && first != second
    ensures var steps := [] + [Opens(first)] + [Adds(first)] + [Commits(first)] + [Opens(second)];
      After(Run(w, steps).db, Adds(second)).1 == Err(UniqueViolation)
  {
    var t, s1 := w.db.tables, [] + [Opens(first)];
    Opening(w);
    var begun := Db(t, false, [], map[first := Session(true, [])]);
    PlayMore(w, [], Db(t, false, [], map[]), Opens(first), begun, s1);
    SessionAdds(begun, first, 0);
    var added := Db(MoreIds(t), false, [], map[first := Session(true, [Added(0)])]);
    PlayMore(w, s1, begun, Adds(first), added, s1 + [Adds(first)]);
    AddedLands(MoreIds(t), 0);
    var end := Landed(MoreIds(t), Added(0));
    var done := Db(end, false, [], map[first := Session(false, [])]);
    PlayMore(w, s1 + [Adds(first)], added, Commits(first), done, s1 + [Adds(first)] + [Commits(first)]);
    var again := SetSession(done, second, Session(true, []));
    PlayMore(w, s1 + [Adds(first)] + [Commits(first)], done, Opens(second), again, s1 + [Adds(first)] + [Commits(first)] + [Opens(second)]);
    SecondAddIsRefused(AsSession(again, SessionOf(again, second)));
  }
}
