/** Every interleaving of transactions is equivalent to running the committed ones in commit order. */
module MvccProofs {
  import opened Common
  import opened MvccModel

  // ---------------------------------------------------------------- chains

  ghost predicate ChainOK<V>(chain: seq<Version<V>>, clock: nat) {
    && chain != [] && (forall i, j :: 0 <= i < j < |chain| ==> chain[i].ts < chain[j].ts)
    && (forall i :: 0 <= i < |chain| ==> 0 < chain[i].ts <= clock)
  }

  ghost predicate StoreOK<V>(s: Store<V>) {
    forall k :: k in s.versions ==> ChainOK(s.versions[k], s.clock)
  }

  /** The plain map that a snapshot taken at `ts` shows. */
  ghost function Snapshot<V>(s: Store<V>, ts: nat): Plain<V> {
    map k | k in s.versions && Visible(s.versions[k], ts).Some? :: Visible(s.versions[k], ts).value
  }

  lemma SnapshotAt<V>(s: Store<V>, ts: nat, k: Key)
    ensures Lookup(Snapshot(s, ts), k) == Visible(Chain(s.versions, k), ts)
  {
  }

  lemma VisibleAppend<V>(chain: seq<Version<V>>, v: Version<V>, asOf: nat)
    ensures Visible(chain + [v], asOf) == if v.ts <= asOf then Some(v.value) else Visible(chain, asOf)
  {
    assert (chain + [v])[..|chain|] == chain;
  }

  lemma CommittedOK<V>(s: Store<V>, t: Txn<V>)
    requires StoreOK(s)
    ensures StoreOK(Committed(s, t))
  {
  }

  /** A commit is invisible to every snapshot taken before it. */
  lemma OldSnapshotsKept<V>(s: Store<V>, t: Txn<V>, ts: nat)
    requires ts <= s.clock
    ensures Snapshot(Committed(s, t), ts) == Snapshot(s, ts)
  {
    var s' := Committed(s, t);
    forall k ensures Lookup(Snapshot(s, ts), k) == Visible(Chain(s'.versions, k), ts) {
      SnapshotAt(s, ts, k);
      if k in t.writes {
        VisibleAppend(Chain(s.versions, k), Version(s.clock + 1, t.writes[k]), ts);
      }
    }
    SnapshotIs(s', ts, Snapshot(s, ts));
  }

  lemma SameLookups<V>(a: Plain<V>, b: Plain<V>)
    requires forall k :: Lookup(a, k) == Lookup(b, k)
    ensures a == b
  {
    assert forall k :: k in a <==> Lookup(a, k).Some?;
    assert forall k :: k in b <==> Lookup(b, k).Some?;
    forall k | k in a ensures k in b && a[k] == b[k] {
      assert Lookup(a, k) == Lookup(b, k);
    }
  }

  /** The snapshot at a commit's own timestamp shows what it wrote, over what was there before. */
  lemma NewSnapshot<V>(s: Store<V>, t: Txn<V>)
    requires StoreOK(s)
    ensures Snapshot(Committed(s, t), s.clock + 1) == Snapshot(s, s.clock) + t.writes
  {
    var db := Snapshot(s, s.clock) + t.writes;
    forall k ensures Lookup(db, k) == Visible(Chain(Committed(s, t).versions, k), s.clock + 1) {
      NewSnapshotAt(s, t, k);
      SnapshotAt(s, s.clock, k);
      LookupOver(Snapshot(s, s.clock), t.writes, k);
    }
    SnapshotIs(Committed(s, t), s.clock + 1, db);
  }

  lemma LookupOver<V>(a: Plain<V>, b: Plain<V>, k: Key)
    ensures Lookup(a + b, k) == if k in b then Some(b[k]) else Lookup(a, k)
  {
  }

  lemma SnapshotIs<V>(s: Store<V>, ts: nat, db: Plain<V>)
    requires forall k :: Lookup(db, k) == Visible(Chain(s.versions, k), ts)
    ensures Snapshot(s, ts) == db
  {
    forall k ensures Lookup(Snapshot(s, ts), k) == Lookup(db, k) {
      SnapshotAt(s, ts, k);
    }
    SameLookups(Snapshot(s, ts), db);
  }

  lemma NewSnapshotAt<V>(s: Store<V>, t: Txn<V>, k: Key)
    requires StoreOK(s)
    ensures Visible(Chain(Committed(s, t).versions, k), s.clock + 1) ==
            if k in t.writes then Some(t.writes[k]) else Visible(Chain(s.versions, k), s.clock)
  {
    if k in t.writes {
      VisibleAppend(Chain(s.versions, k), Version(s.clock + 1, t.writes[k]), s.clock + 1);
    } else {
      NewestVisible(s, k, s.clock);
      NewestVisible(s, k, s.clock + 1);
    }
  }

  /** At or after the newest version's timestamp the newest version is what is seen. */
  lemma NewestVisible<V>(s: Store<V>, k: Key, ts: nat)
    requires !ChangedSince(s, k, ts)
    ensures Visible(Chain(s.versions, k), ts) == Latest(s, k)
  {
  }

  // ---------------------------------------------------------------- a transaction run alone

  function ReadKeys<V>(events: seq<Event<V>>): set<Key> {
    set i | 0 <= i < |events| && events[i].DidRead? :: events[i].k
  }

  /** The last value written to each key. */
  function WritesOf<V>(events: seq<Event<V>>): map<Key, V> {
    if events == [] then map[]
    else
      var w := WritesOf(events[..|events| - 1]);
      match events[|events| - 1] case DidRead(_, _) => w case DidWrite(k, v) => w[k := v]
  }

  lemma {:induction false} RunAloneEnds<V>(db: Plain<V>, events: seq<Event<V>>)
    requires RunAlone(db, events).Some?
    ensures RunAlone(db, events).value == db + WritesOf(events)
  {
    if events != [] {
      RunAloneEnds(db, events[..|events| - 1]);
    }
  }

  /** Only the keys it read matter to whether a transaction can be run. */
  lemma {:induction false} RunAloneTransfers<V>(db: Plain<V>, other: Plain<V>, events: seq<Event<V>>)
    requires RunAlone(db, events).Some?
    requires forall k :: k in ReadKeys(events) ==> Lookup(db, k) == Lookup(other, k)
    ensures RunAlone(other, events) == Some(other + WritesOf(events))
  {
    if events == [] {
      assert other + map[] == other;
    } else {
      var init, e := events[..|events| - 1], events[|events| - 1];
      assert ReadKeys(init) <= ReadKeys(events);
      RunAloneTransfers(db, other, init);
      RunAloneEnds(db, init);
      if e.DidRead? {
        assert e.k in ReadKeys(events);
      } else {
        assert (other + WritesOf(init))[e.k := e.v] == other + WritesOf(init)[e.k := e.v];
      }
    }
  }

  // ---------------------------------------------------------------- what every reachable state keeps

  /** What a transaction has recorded of itself, and that it ran as if alone on its snapshot. */
  ghost predicate OpenOK<V>(s: Store<V>, o: Open<V>) {
    && o.txn.snapshot <= s.clock
    && o.txn.writes == WritesOf(o.events)
    && (forall k :: k in o.txn.readSet <==> k in ReadKeys(o.events))
    && RunAlone(Snapshot(s, o.txn.snapshot), o.events).Some?
  }

  /** The newest version of each key carries the number of the last transaction that wrote it. */
  ghost predicate ChangesRecorded<V>(s: Store<V>, done: seq<Open<V>>) {
    forall k, ts: nat :: ts <= s.clock ==>
      (ChangedSince(s, k, ts) <==> exists i :: ts <= i < |done| && k in done[i].txn.writes)
  }

  ghost predicate Inv<V>(m: Machine<V>) {
    && m.store.clock == |m.done| && StoreOK(m.store)
    && (forall id :: id in m.open ==> OpenOK(m.store, m.open[id]))
    && ChangesRecorded(m.store, m.done)
    && forall ts: nat :: ts <= |m.done| ==> RunSerially(m.done[..ts]) == Some(Snapshot(m.store, ts))
  }

  lemma ReadKeeps<V>(s: Store<V>, o: Open<V>, k: Key)
    requires OpenOK(s, o)
    ensures var (t, r) := Read(s, o.txn, k); OpenOK(s, Open(t, o.events + [DidRead(k, r)]))
  {
    var (t, r) := Read(s, o.txn, k);
    var events := o.events + [DidRead(k, r)];
    assert events[..|o.events|] == o.events;
    SnapshotAt(s, o.txn.snapshot, k);
    RunAloneEnds(Snapshot(s, o.txn.snapshot), o.events);
    ReadKeysGrow(o.events, DidRead(k, r));
  }

  lemma ReadKeysGrow<V>(events: seq<Event<V>>, e: Event<V>)
    ensures ReadKeys(events + [e]) == ReadKeys(events) + if e.DidRead? then {e.k} else {}
  {
    var all := events + [e];
    assert all[|events|] == e && forall i :: 0 <= i < |events| ==> all[i] == events[i];
  }

  lemma WriteKeeps<V>(s: Store<V>, o: Open<V>, k: Key, v: V)
    requires OpenOK(s, o)
    ensures OpenOK(s, Open(Write(o.txn, k, v), o.events + [DidWrite(k, v)]))
  {
    var events := o.events + [DidWrite(k, v)];
    assert events[..|o.events|] == o.events;
    ReadKeysGrow(o.events, DidWrite(k, v));
  }

  /** A transaction that passes validation runs on the newest values as it did on its snapshot. */
  lemma ValidatedRuns<V>(s: Store<V>, o: Open<V>)
    requires OpenOK(s, o) && !Stale(s, o.txn) && StoreOK(s)
    ensures RunAlone(Snapshot(s, s.clock), o.events) == Some(Snapshot(s, s.clock) + o.txn.writes)
  {
    var old_, new_ := Snapshot(s, o.txn.snapshot), Snapshot(s, s.clock);
    forall k | k in ReadKeys(o.events) ensures Lookup(old_, k) == Lookup(new_, k) {
      assert k in o.txn.readSet;
      assert !ChangedSince(s, k, o.txn.snapshot);
      SnapshotAt(s, o.txn.snapshot, k);
      SnapshotAt(s, s.clock, k);
      NewestVisible(s, k, o.txn.snapshot);
      NewestVisible(s, k, s.clock);
    }
    RunAloneTransfers(old_, new_, o.events);
  }

  lemma ChangesAfterCommit<V>(s: Store<V>, done: seq<Open<V>>, o: Open<V>)
    requires s.clock == |done| && StoreOK(s) && ChangesRecorded(s, done)
    ensures ChangesRecorded(Committed(s, o.txn), done + [o])
  {
    var s', done' := Committed(s, o.txn), done + [o];
    forall k, ts: nat | ts <= s'.clock
      ensures ChangedSince(s', k, ts) <==> exists i :: ts <= i < |done'| && k in done'[i].txn.writes
    {
      ChangeAfterCommit(s, done, o, k, ts);
    }
  }

  lemma ChangeAfterCommit<V>(s: Store<V>, done: seq<Open<V>>, o: Open<V>, k: Key, ts: nat)
    requires s.clock == |done| && StoreOK(s) && ChangesRecorded(s, done) && ts <= |done| + 1
    ensures ChangedSince(Committed(s, o.txn), k, ts) <==> exists i :: ts <= i < |done + [o]| && k in (done + [o])[i].txn.writes
  {
    var done' := done + [o];
    assert done'[|done|] == o && forall i :: 0 <= i < |done| ==> done'[i] == done[i];
    if k in o.txn.writes {
      assert ts <= |done| ==> k in done'[|done|].txn.writes;
    } else if ts <= |done| {
      assert ChangedSince(Committed(s, o.txn), k, ts) == ChangedSince(s, k, ts);
      if i :| ts <= i < |done'| && k in done'[i].txn.writes {
        assert k in done[i].txn.writes;
      }
      if i :| ts <= i < |done| && k in done[i].txn.writes {
        assert k in done'[i].txn.writes;
      }
    }
  }

  lemma SerialAfterCommit<V>(s: Store<V>, done: seq<Open<V>>, o: Open<V>, ts: nat)
    requires s.clock == |done| && StoreOK(s) && OpenOK(s, o) && !Stale(s, o.txn) && ts <= |done| + 1
    requires forall n: nat :: n <= |done| ==> RunSerially(done[..n]) == Some(Snapshot(s, n))
    ensures RunSerially((done + [o])[..ts]) == Some(Snapshot(Committed(s, o.txn), ts))
  {
    var done' := done + [o];
    if ts <= |done| {
      assert done'[..ts] == done[..ts];
      OldSnapshotsKept(s, o.txn, ts);
    } else {
      assert done'[..ts] == done' && done'[..|done|] == done == done[..|done|];
      ValidatedRuns(s, o);
      NewSnapshot(s, o.txn);
    }
  }

  lemma CommitKeeps<V>(m: Machine<V>, id: nat)
    requires Inv(m) && id in m.open && !Stale(m.store, m.open[id].txn)
    ensures Inv(Act(m, DoCommit(id)))
  {
    var o, m' := m.open[id], Act(m, DoCommit(id));
    CommittedOK(m.store, o.txn);
    ChangesAfterCommit(m.store, m.done, o);
    forall i | i in m'.open ensures OpenOK(m'.store, m'.open[i]) {
      OldSnapshotsKept(m.store, o.txn, m.open[i].txn.snapshot);
    }
    forall ts: nat | ts <= |m'.done| ensures RunSerially(m'.done[..ts]) == Some(Snapshot(m'.store, ts)) {
      SerialAfterCommit(m.store, m.done, o, ts);
    }
  }

  lemma ActKeeps<V>(m: Machine<V>, a: Action<V>)
    requires Inv(m) && Enabled(m, a)
    ensures Inv(Act(m, a))
  {
    match a
    case DoBegin(id) =>
    case DoRead(id, k) => ReadKeeps(m.store, m.open[id], k);
    case DoWrite(id, k, v) => WriteKeeps(m.store, m.open[id], k, v);
    case DoCommit(id) =>
      if !Stale(m.store, m.open[id].txn) {
        CommitKeeps(m, id);
      }
    case DoAbort(id) =>
  }

  lemma {:induction false} RunKeeps<V>(actions: seq<Action<V>>)
    ensures Inv(Run(actions))
  {
    if actions == [] {
      assert Snapshot(NewStore<V>(), 0) == map[];
    } else {
      var m, a := Run(actions[..|actions| - 1]), actions[|actions| - 1];
      RunKeeps(actions[..|actions| - 1]);
      if Enabled(m, a) {
        ActKeeps(m, a);
      }
    }
  }

  // ---------------------------------------------------------------- the theorems

  /**
    Serializability: for every interleaving, running the committed transactions one at a time in
    commit order over a plain map gives every read the value it returned, and ends in the newest values.
  */
  lemma Serializable<V>(actions: seq<Action<V>>)
    ensures var m := Run(actions); var plain := RunSerially(m.done);
      plain.Some? && forall k :: Lookup(plain.value, k) == Latest(m.store, k)
  {
    RunKeeps(actions);
    var m := Run(actions);
    assert m.done[..|m.done|] == m.done;
    forall k ensures Lookup(RunSerially(m.done).value, k) == Latest(m.store, k) {
      SnapshotAt(m.store, m.store.clock, k);
      assert !ChangedSince(m.store, k, m.store.clock);
      NewestVisible(m.store, k, m.store.clock);
    }
  }

  /** How many transactions had committed when the one open under `id` began. */
  ghost function StartedAfter<V>(actions: seq<Action<V>>, id: nat): nat
    requires id in Run(actions).open
    decreases |actions|
  {
    var prev := actions[..|actions| - 1];
    if id in Run(prev).open then StartedAfter(prev, id) else |Run(prev).done|
  }

  /** How many transactions had committed when the one that was the `j`-th to commit began. */
  ghost function CommitterStarted<V>(actions: seq<Action<V>>, j: nat): nat
    requires j < |Run(actions).done|
    decreases |actions|
  {
    var prev := actions[..|actions| - 1];
    if j < |Run(prev).done| then CommitterStarted(prev, j) else StartedAfter(prev, actions[|actions| - 1].id)
  }

  /** The snapshot is taken when the transaction begins. */
  lemma {:induction false} SnapshotIsStart<V>(actions: seq<Action<V>>, id: nat)
    requires id in Run(actions).open
    ensures Run(actions).open[id].txn.snapshot == StartedAfter(actions, id)
    decreases |actions|
  {
    var prev := actions[..|actions| - 1];
    RunKeeps(prev);
    if id in Run(prev).open {
      SnapshotIsStart(prev, id);
    }
  }

  lemma {:induction false} CommitterSnapshot<V>(actions: seq<Action<V>>, j: nat)
    requires j < |Run(actions).done|
    ensures Run(actions).done[j].txn.snapshot == CommitterStarted(actions, j)
    decreases |actions|
  {
    var prev := actions[..|actions| - 1];
    if j < |Run(prev).done| {
      CommitterSnapshot(prev, j);
    } else {
      SnapshotIsStart(prev, actions[|actions| - 1].id);
    }
  }

  /** Snapshot reads: an open transaction reads the serial state right after the commits that preceded its start. */
  lemma SnapshotReads<V>(actions: seq<Action<V>>, id: nat, k: Key)
    requires id in Run(actions).open
    ensures var m := Run(actions); var t := m.open[id].txn; var start := StartedAfter(actions, id);
      && start <= |m.done| && RunSerially(m.done[..start]).Some?
      && Read(m.store, t, k).1 == Lookup(RunSerially(m.done[..start]).value + t.writes, k)
  {
    RunKeeps(actions);
    SnapshotIsStart(actions, id);
    var m := Run(actions);
    assert OpenOK(m.store, m.open[id]);
    SnapshotAt(m.store, m.open[id].txn.snapshot, k);
  }

  /** A transaction that committed after the first `start` wrote a key this one read or wrote. */
  ghost predicate Overtaken<V>(done: seq<Open<V>>, o: Open<V>, start: nat) {
    exists i, k ::
      && start <= i < |done| && k in done[i].txn.writes
      && (k in ReadKeys(o.events) || k in WritesOf(o.events))
  }

  /** Validation is exact: a commit is refused if and only if the transaction was overtaken since it began. */
  lemma RefusedExactly<V>(actions: seq<Action<V>>, id: nat)
    requires id in Run(actions).open
    ensures var m := Run(actions); Stale(m.store, m.open[id].txn) <==> Overtaken(m.done, m.open[id], StartedAfter(actions, id))
  {
    RunKeeps(actions);
    SnapshotIsStart(actions, id);
    StaleExactly(Run(actions), Run(actions).open[id]);
  }

  lemma StaleExactly<V>(m: Machine<V>, o: Open<V>)
    requires OpenOK(m.store, o) && ChangesRecorded(m.store, m.done)
    ensures Stale(m.store, o.txn) <==> Overtaken(m.done, o, o.txn.snapshot)
  {
    var ts := o.txn.snapshot;
    forall k ensures k in o.txn.readSet || k in o.txn.writes <==> k in ReadKeys(o.events) || k in WritesOf(o.events) {
    }
    forall k ensures ChangedSince(m.store, k, ts) <==> exists i :: ts <= i < |m.done| && k in m.done[i].txn.writes {
    }
  }

  /** Transaction `j` touches nothing that `i` wrote, unless it began after `i` had committed. */
  ghost predicate NoOverlap<V>(done: seq<Open<V>>, i: nat, j: nat)
    requires i < j < |done|
  {
    forall k :: k in done[i].txn.writes && (k in done[j].txn.readSet || k in done[j].txn.writes) ==> i < done[j].txn.snapshot
  }

  lemma {:induction false} CommittersApart<V>(actions: seq<Action<V>>, i: nat, j: nat)
    requires i < j < |Run(actions).done|
    ensures NoOverlap(Run(actions).done, i, j)
  {
    if actions != [] {
      var prev, a := actions[..|actions| - 1], actions[|actions| - 1];
      var m, m' := Run(prev), Run(actions);
      if j < |m.done| {
        CommittersApart(prev, i, j);
      } else {
        RunKeeps(prev);
        CommitterIsFresh(m, a.id, i);
      }
    }
  }

  /** First committer wins: of two transactions that overlap and touch a key one of them wrote, not both commit. */
  lemma FirstCommitterWins<V>(actions: seq<Action<V>>, i: nat, j: nat, k: Key)
    requires i < j < |Run(actions).done|
    requires var done := Run(actions).done; k in WritesOf(done[i].events) && (k in ReadKeys(done[j].events) || k in WritesOf(done[j].events))
    ensures i < CommitterStarted(actions, j)
  {
    CommittersApart(actions, i, j);
    CommitterSnapshot(actions, j);
    DoneRecorded(actions, i);
    DoneRecorded(actions, j);
  }

  /** A committed transaction recorded what it read and wrote. */
  lemma {:induction false} DoneRecorded<V>(actions: seq<Action<V>>, j: nat)
    requires j < |Run(actions).done|
    ensures var o := Run(actions).done[j]; o.txn.writes == WritesOf(o.events) && forall k :: k in o.txn.readSet <==> k in ReadKeys(o.events)
    decreases |actions|
  {
    var prev := actions[..|actions| - 1];
    RunKeeps(prev);
    if j < |Run(prev).done| {
      DoneRecorded(prev, j);
    } else {
      assert OpenOK(Run(prev).store, Run(prev).open[actions[|actions| - 1].id]);
    }
  }

  lemma CommitterIsFresh<V>(m: Machine<V>, id: nat, i: nat)
    requires Inv(m) && id in m.open && !Stale(m.store, m.open[id].txn) && i < |m.done|
    ensures var t := m.open[id].txn;
      forall k :: k in m.done[i].txn.writes && (k in t.readSet || k in t.writes) ==> i < t.snapshot
  {
    var t := m.open[id].txn;
    assert OpenOK(m.store, m.open[id]);
    forall k | k in m.done[i].txn.writes && (k in t.readSet || k in t.writes) ensures i < t.snapshot {
      assert t.snapshot <= i ==> ChangedSince(m.store, k, t.snapshot);
    }
  }
}
