/** The same for the global transaction, which sessions outside a transaction of their own join. */
module GlobalErasure {
  import opened Common
  import opened RelationalModel
  import opened SessionProofs
  import opened SessionRuns
  import opened Erasure

  /** The step runs in the global context. */
  ghost predicate Joins(db: Db, step: Step) {
    ContextOf(db, step) == Global
  }

  /** The steps of a run that do not join the global context. */
  ghost function Apart(w: World, steps: seq<Step>): seq<Step> {
    if steps == [] then []
    else
      var init, step := steps[..|steps| - 1], steps[|steps| - 1];
      Apart(w, init) + if Joins(Run(w, init).db, step) then [] else [step]
  }

  /** Their outcomes. */
  ghost function ApartOutcomes(w: World, steps: seq<Step>): (r: seq<Outcome>)
    ensures |r| == |Apart(w, steps)|
  {
    if steps == [] then []
    else
      var init, step := steps[..|steps| - 1], steps[|steps| - 1];
      ApartOutcomes(w, init) + if Joins(Run(w, init).db, step) then [] else [After(Run(w, init).db, step).1]
  }

  // ---------------------------------------------------------------- single steps

  /** The same worlds but for the global transaction. */
  ghost predicate SameBeside(v: World, w: World) {
    v.db.tables == w.db.tables && v.db.sessions == w.db.sessions && v.history == w.history
  }

  /** A step apart does not look at the global transaction and leaves it alone. */
  lemma StepApart(v: World, w: World, step: Step)
    requires SameBeside(v, w) && !Joins(v.db, step)
    ensures !Joins(w.db, step) && After(v.db, step).1 == After(w.db, step).1 && SameBeside(Next(v, step), Next(w, step))
    ensures Next(v, step).db.inTxn == v.db.inTxn && Next(v, step).db.active == v.db.active
    ensures Next(w, step).db.inTxn == w.db.inTxn && Next(w, step).db.active == w.db.active
  {
    var sid := step.session.value;
    var s := SessionOf(v.db, sid);
    assert AsSession(v.db, s) == AsSession(w.db, s);
  }

  /** A step that joins the open transaction and stores no row changes nothing else. */
  lemma StepJoined(w: World, step: Step)
    requires WorldOK(w) && w.db.inTxn && Joins(w.db, step) && !step.stmt.Commit? && !step.stmt.Rollback?
    requires !StoresRows(step.stmt, After(w.db, step).1)
    ensures SameBeside(Next(w, step), w) && Next(w, step).db.inTxn
  {
    if IsQuery(step.stmt) {
      QueryConfined(w.db, step.stmt);
      StepCounters(w, step);
      SameTables(w.db.tables, Execute(w.db, step.stmt).0.tables);
    }
  }

  // ---------------------------------------------------------------- runs side by side

  const BEGIN: Step := Step(None, Begin)
  const ROLLBACK: Step := Step(None, Rollback)

  /** Nobody ends the global transaction. */
  ghost predicate LeavesOpen(steps: seq<Step>) {
    forall k :: 0 <= k < |steps| && steps[k].session.None? ==> !steps[k].stmt.Commit? && !steps[k].stmt.Rollback?
  }

  /** The step joins the global context and stores a row. */
  ghost predicate JoinsAndStores(db: Db, step: Step) {
    Joins(db, step) && StoresRows(step.stmt, After(db, step).1)
  }

  /** No INSERT that joined the transaction stored a row. */
  ghost predicate JoinedStoreNothing(w: World, steps: seq<Step>) {
    forall k :: 0 <= k < |steps| ==> !JoinsAndStores(Run(w, steps[..k]).db, steps[k])
  }

  lemma JoinedStoreNothingInit(w: World, init: seq<Step>, step: Step, steps: seq<Step>)
    requires steps == init + [step]
    ensures JoinedStoreNothing(w, steps) <==> JoinedStoreNothing(w, init) && !JoinsAndStores(Run(w, init).db, step)
  {
    assert steps[..|init|] == init && steps[|init|] == step;
    forall k | 0 <= k < |init| ensures init[..k] == steps[..k] && init[k] == steps[k] {
    }
    if JoinedStoreNothing(w, steps) {
      assert !JoinsAndStores(Run(w, steps[..|init|]).db, steps[|init|]);
      forall k | 0 <= k < |init| ensures !JoinsAndStores(Run(w, init[..k]).db, init[k]) {
        assert !JoinsAndStores(Run(w, steps[..k]).db, steps[k]);
      }
    }
  }

  /** What the run with the transaction and the run without it have in common while the transaction is open. */
  ghost predicate Beside(v: World, w: World, steps: seq<Step>) {
    && SameBeside(Run(v, steps), Run(w, Apart(v, steps)))
    && Run(v, steps).db.inTxn && !Run(w, Apart(v, steps)).db.inTxn && Run(w, Apart(v, steps)).db.active == []
    && ApartOutcomes(v, steps) == Outcomes(w, Apart(v, steps), None)
  }

  lemma BesideApart(v: World, w: World, init: seq<Step>, step: Step, steps: seq<Step>)
    requires steps == init + [step] && Beside(v, w, init) && !Joins(Run(v, init).db, step)
    ensures Beside(v, w, steps)
  {
    assert steps[..|init|] == init;
    RunMore(w, Apart(v, init), step);
    StepApart(Run(v, init), Run(w, Apart(v, init)), step);
  }

  lemma BesideJoined(v: World, w: World, init: seq<Step>, step: Step, steps: seq<Step>)
    requires steps == init + [step] && Beside(v, w, init) && Joins(Run(v, init).db, step) && WorldOK(Run(v, init))
    requires !step.stmt.Commit? && !step.stmt.Rollback? && !StoresRows(step.stmt, After(Run(v, init).db, step).1)
    ensures Beside(v, w, steps)
  {
    assert steps[..|init|] == init;
    assert Apart(v, steps) == Apart(v, init) + [] == Apart(v, init);
    assert ApartOutcomes(v, steps) == ApartOutcomes(v, init) + [] == ApartOutcomes(v, init);
    StepJoined(Run(v, init), step);
  }

  lemma BesideStep(v: World, w: World, init: seq<Step>, step: Step, steps: seq<Step>)
    requires steps == init + [step] && Beside(v, w, init) && WorldOK(Run(v, init)) && !JoinsAndStores(Run(v, init).db, step)
    requires step.session.None? ==> !step.stmt.Commit? && !step.stmt.Rollback?
    ensures Beside(v, w, steps)
  {
    if Joins(Run(v, init).db, step) {
      BesideJoined(v, w, init, step, steps);
    } else {
      BesideApart(v, w, init, step, steps);
    }
  }

  lemma OpenInit(init: seq<Step>, step: Step, steps: seq<Step>)
    requires steps == init + [step] && LeavesOpen(steps)
    ensures LeavesOpen(init) && (step.session.None? ==> !step.stmt.Commit? && !step.stmt.Rollback?)
  {
    assert steps[|init|] == step && forall k :: 0 <= k < |init| ==> init[k] == steps[k];
  }

  lemma {:induction false} StaysBeside(v: World, w: World, steps: seq<Step>)
    requires WorldOK(v) && SameBeside(v, w) && v.db.inTxn && !w.db.inTxn && w.db.active == []
    requires LeavesOpen(steps) && JoinedStoreNothing(v, steps)
    ensures Beside(v, w, steps)
  {
    if steps != [] {
      var init, step := steps[..|steps| - 1], steps[|steps| - 1];
      assert steps == init + [step];
      OpenInit(init, step, steps);
      JoinedStoreNothingInit(v, init, step, steps);
      StaysBeside(v, w, init);
      RunStaysOK(v, init);
      BesideStep(v, w, init, step, steps);
    }
  }

  ghost function GloballyRolledBack(w: World, mid: seq<Step>): World {
    Next(Run(Next(w, BEGIN), mid), ROLLBACK)
  }

  ghost function WithoutJoined(w: World, mid: seq<Step>): World {
    Run(w, Apart(Next(w, BEGIN), mid))
  }

  /** Nobody apart can tell whether the transaction ran, during it or after it. */
  ghost predicate GloballyIndistinguishable(w: World, mid: seq<Step>, post: seq<Step>) {
    && ApartOutcomes(Next(w, BEGIN), mid) == Outcomes(w, Apart(Next(w, BEGIN), mid), None)
    && Outcomes(GloballyRolledBack(w, mid), post, None) == Outcomes(WithoutJoined(w, mid), post, None)
    && Run(GloballyRolledBack(w, mid), post) == Run(WithoutJoined(w, mid), post)
  }

  lemma ErasedBeside(w: World, mid: seq<Step>, post: seq<Step>)
    requires WorldOK(w) && !w.db.inTxn && w.db.active == [] && LeavesOpen(mid) && JoinedStoreNothing(Next(w, BEGIN), mid)
    ensures GloballyIndistinguishable(w, mid, post)
  {
    StepKeeps(w, BEGIN);
    StaysBeside(Next(w, BEGIN), w, mid);
    assert GloballyRolledBack(w, mid) == WithoutJoined(w, mid);
  }

  // ---------------------------------------------------------------- counting ids

  /** The row ids of a table that the steps joining the global context hand out. */
  ghost function JoinedIds(w: World, steps: seq<Step>, name: string): nat {
    if steps == [] then 0
    else
      var init, step := steps[..|steps| - 1], steps[|steps| - 1];
      JoinedIds(w, init, name) + if Joins(Run(w, init).db, step) then HandedOut(step.stmt, After(Run(w, init).db, step).1, name) else 0
  }

  lemma {:induction false} RunCountersJoined(w: World, steps: seq<Step>, name: string)
    requires WorldOK(w) && name in w.db.tables
    ensures name in Run(w, steps).db.tables
    ensures Run(w, steps).db.tables[name].nextRowId ==
            w.db.tables[name].nextRowId + JoinedIds(w, steps, name) + IdsOf(Apart(w, steps), ApartOutcomes(w, steps), name)
  {
    if steps != [] {
      var init, step := steps[..|steps| - 1], steps[|steps| - 1];
      RunCountersJoined(w, init, name);
      RunStaysOK(w, init);
      StepCounters(Run(w, init), step);
      IdsOfMore(Apart(w, init), ApartOutcomes(w, init), step, After(Run(w, init).db, step).1, name);
      assert Apart(w, init) + [] == Apart(w, init) && ApartOutcomes(w, init) + [] == ApartOutcomes(w, init);
    }
  }

  lemma AheadByJoinedIds(w: World, mid: seq<Step>, post: seq<Step>, name: string)
    requires WorldOK(w) && name in w.db.tables && !w.db.inTxn && GloballyIndistinguishable(w, mid, post)
    ensures JoinedIds(Next(w, BEGIN), mid, name) == 0
  {
    var b, apart := Next(w, BEGIN), Apart(Next(w, BEGIN), mid);
    StepKeeps(w, BEGIN);
    RunStaysOK(b, mid);
    StepKeeps(Run(b, mid), ROLLBACK);
    StepCounters(Run(b, mid), ROLLBACK);
    RunStaysOK(w, apart);
    RunCountersJoined(b, mid, name);
    RunCounters(w, apart, None, name);
    NoneExcepted(w, apart, name);
    RunCounters(GloballyRolledBack(w, mid), post, None, name);
    NoneExcepted(GloballyRolledBack(w, mid), post, name);
    RunCounters(WithoutJoined(w, mid), post, None, name);
    NoneExcepted(WithoutJoined(w, mid), post, name);
  }

  lemma {:induction false} NoJoinedIds(w: World, steps: seq<Step>)
    requires WorldOK(w) && forall name :: name in w.db.tables ==> JoinedIds(w, steps, name) == 0
    ensures JoinedStoreNothing(w, steps)
  {
    if steps != [] {
      var n, init := |steps| - 1, steps[..|steps| - 1];
      assert steps == init + [steps[n]];
      JoinedStoreNothingInit(w, init, steps[n], steps);
      NoJoinedIds(w, init);
      if JoinsAndStores(Run(w, init).db, steps[n]) {
        JoinedHandsOut(w, steps);
      }
    }
  }

  lemma JoinedHandsOut(w: World, steps: seq<Step>)
    requires WorldOK(w) && steps != [] && JoinsAndStores(Run(w, steps[..|steps| - 1]).db, steps[|steps| - 1])
    ensures exists name :: name in w.db.tables && JoinedIds(w, steps, name) > 0
  {
    var n, init := |steps| - 1, steps[..|steps| - 1];
    RunStaysOK(w, init);
    StoringNamesTable(Run(w, init), steps[n]);
    SameKeys(w, init);
    assert steps[n].stmt.table in w.db.tables && JoinedIds(w, steps, steps[n].stmt.table) > 0;
  }

  /**
    Rollback of the global transaction: take any run, BEGIN outside a session, any interleaving
    `mid` in which nobody ends that transaction, and ROLLBACK. Erasing the transaction's steps, those
    of sessions that joined it included, leaves every other outcome and the whole database as they
    were, in any continuation, if and only if none of its INSERTs stored a row.
  */
  lemma GlobalRollbackErasesExactly(w: World, pre: seq<Step>, mid: seq<Step>, post: seq<Step>)
    requires Fresh(w) && !Run(w, pre).db.inTxn && LeavesOpen(mid)
    ensures GloballyIndistinguishable(Run(w, pre), mid, post) <==> JoinedStoreNothing(Next(Run(w, pre), BEGIN), mid)
  {
    var v := Run(w, pre);
    RunKeeps(w, pre);
    StepKeeps(v, BEGIN);
    if JoinedStoreNothing(Next(v, BEGIN), mid) {
      ErasedBeside(v, mid, post);
    }
    if GloballyIndistinguishable(v, mid, post) {
      forall name | name in v.db.tables ensures JoinedIds(Next(v, BEGIN), mid, name) == 0 {
        AheadByJoinedIds(v, mid, post, name);
      }
      NoJoinedIds(Next(v, BEGIN), mid);
    }
  }
}
