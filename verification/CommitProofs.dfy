/** What COMMIT does to trees and version stores, and which transactions it lets through. */
module CommitProofs {
  import opened Common
  import opened Values
  import opened MvccModel
  import opened RelationalModel
  import opened SessionProofs
  import MvccProofs

  type Accepted = Open<Option<Row>>

  /** For each table, the transactions its version store has accepted, in order. */
  type History = map<string, seq<Accepted>>

  // ---------------------------------------------------------------- one transaction

  /** What a version store knows of the transactions it has accepted, and that none of them overlapped a rival. */
  ghost predicate TableHistoryOK(s: Store<Option<Row>>, done: seq<Accepted>) {
    && s.clock == |done| && MvccProofs.StoreOK(s) && MvccProofs.ChangesRecorded(s, done)
    && forall i, j :: 0 <= i < j < |done| ==> MvccProofs.NoOverlap(done, i, j)
  }

  ghost predicate HistoryOK(tables: Tables, h: History) {
    tables.Keys == h.Keys && forall n :: n in tables ==> TableHistoryOK(tables[n].store, h[n])
  }

  ghost function Record(h: History, n: Named): History {
    if n.table in h then h[n.table := h[n.table] + [Open(n.txn, [])]] else h
  }

  lemma AcceptKeeps(s: Store<Option<Row>>, done: seq<Accepted>, t: Txn<Option<Row>>)
    requires TableHistoryOK(s, done) && t.snapshot <= s.clock && !Stale(s, t)
    ensures TableHistoryOK(Committed(s, t), done + [Open(t, [])])
  {
    var o := Open(t, []);
    MvccProofs.CommittedOK(s, t);
    MvccProofs.ChangesAfterCommit(s, done, o);
    forall i, j | 0 <= i < j < |done + [o]| ensures MvccProofs.NoOverlap(done + [o], i, j) {
      if j == |done| {
        NewcomerIsFresh(s, done, t, i);
      } else {
        assert MvccProofs.NoOverlap(done, i, j);
      }
    }
  }

  lemma NewcomerIsFresh(s: Store<Option<Row>>, done: seq<Accepted>, t: Txn<Option<Row>>, i: nat)
    requires MvccProofs.ChangesRecorded(s, done) && t.snapshot <= s.clock && !Stale(s, t) && i < |done|
    ensures forall k :: k in done[i].txn.writes && (k in t.readSet || k in t.writes) ==> i < t.snapshot
  {
    forall k | k in done[i].txn.writes && (k in t.readSet || k in t.writes) ensures i < t.snapshot {
      assert t.snapshot <= i ==> ChangedSince(s, k, t.snapshot);
    }
  }

  lemma ValidatedKeeps(tables: Tables, h: History, n: Named)
    requires HistoryOK(tables, h) && NamedOK(tables, n) && !Refused(tables, n)
    ensures HistoryOK(Validated(tables, n), Record(h, n))
  {
    AcceptKeeps(tables[n.table].store, h[n.table], n.txn);
  }

  // ---------------------------------------------------------------- all of them

  /** Tables that differ only in their version stores, whose clocks never go back. */
  ghost predicate SameButStores(a: Tables, b: Tables) {
    && a.Keys == b.Keys
    && forall n :: n in a ==> b[n] == a[n].(store := b[n].store) && a[n].store.clock <= b[n].store.clock
  }

  lemma ValidatedActive(tables: Tables, n: Named, rest: seq<Named>)
    requires ActiveOK(tables, [n] + rest)
    ensures ActiveOK(Validated(tables, n), rest) && SameButStores(tables, Validated(tables, n))
    ensures forall i :: 0 <= i < |rest| ==> Refused(Validated(tables, n), rest[i]) == Refused(tables, rest[i])
  {
    var all := [n] + rest;
    forall i | 0 <= i < |rest| ensures NamedOK(Validated(tables, n), rest[i]) && rest[i].table != n.table {
      assert NamedOK(tables, all[i + 1]) && all[0].table != all[i + 1].table;
    }
    assert NamedOK(tables, all[0]);
    forall i, j | 0 <= i < j < |rest| ensures rest[i].table != rest[j].table {
      assert all[i + 1].table != all[j + 1].table;
    }
  }

  /** Validation touches version stores only, and succeeds exactly when no transaction is refused. */
  lemma {:induction false} ValidateAllIs(tables: Tables, txns: seq<Named>)
    requires ActiveOK(tables, txns)
    ensures SameButStores(tables, ValidateAll(tables, txns).0)
    ensures ValidateAll(tables, txns).1 <==> forall i :: 0 <= i < |txns| ==> !Refused(tables, txns[i])
    decreases |txns|
  {
    if txns != [] && !Refused(tables, txns[0]) {
      assert txns == [txns[0]] + txns[1..];
      ValidatedActive(tables, txns[0], txns[1..]);
      ValidateAllIs(Validated(tables, txns[0]), txns[1..]);
    }
  }

  lemma WritesForRest(txns: seq<Named>, name: string)
    requires txns != []
    ensures WritesFor(txns, name) == if txns[0].table == name then txns[0].txn.writes else WritesFor(txns[1..], name)
  {
  }

  lemma AppliedNothing(tree: Tree)
    ensures Applied(tree, map[]) == tree
  {
    var r := Applied(tree, map[]);
    forall id ensures id in r <==> id in tree {
      assert id in r <==> Live(tree, map[], id).Some?;
    }
  }

  lemma NoWritesFor(txns: seq<Named>, name: string)
    requires forall i :: 0 <= i < |txns| ==> txns[i].table != name
    ensures WritesFor(txns, name) == map[]
  {
  }

  /** Writing back gives every table its transaction's writes, and nothing else. */
  lemma {:induction false} WriteBackAllIs(tables: Tables, txns: seq<Named>, name: string)
    requires name in tables && forall i, j :: 0 <= i < j < |txns| ==> txns[i].table != txns[j].table
    ensures WriteBackAll(tables, txns).Keys == tables.Keys
    ensures WriteBackAll(tables, txns)[name] == tables[name].(tree := Applied(tables[name].tree, WritesFor(txns, name)))
    decreases |txns|
  {
    if txns == [] {
      AppliedNothing(tables[name].tree);
    } else {
      var mid := WrittenBack(tables, txns[0]);
      WriteBackAllIs(mid, txns[1..], name);
      WritesForRest(txns, name);
      if txns[0].table == name {
        NoWritesFor(txns[1..], name);
        AppliedNothing(mid[name].tree);
      }
    }
  }

  /**
    The global COMMIT is all or nothing on the trees: it is refused exactly when some table's
    transaction is, and then no tree changes; otherwise every tree takes all its writes.
  */
  lemma GlobalCommitIsAtomic(db: Db)
    requires DbOK(db) && db.inTxn
    ensures var (db', r) := RunCommit(db);
      && db'.tables.Keys == db.tables.Keys && !db'.inTxn && db'.active == [] && db'.sessions == db.sessions
      && (r.Ok? <==> forall i :: 0 <= i < |db.active| ==> !Refused(db.tables, db.active[i]))
      && (r.Ok? ==> forall n :: n in db.tables ==> db'.tables[n].tree == Applied(db.tables[n].tree, WritesFor(db.active, n)))
      && (r.Err? ==> forall n :: n in db.tables ==> db'.tables[n].tree == db.tables[n].tree)
  {
    ValidateAllIs(db.tables, db.active);
    var (tables, ok) := ValidateAll(db.tables, db.active);
    if ok {
      WriteBackKeys(tables, db.active);
      forall n | n in db.tables
        ensures WriteBackAll(tables, db.active)[n].tree == Applied(db.tables[n].tree, WritesFor(db.active, n))
      {
        WriteBackAllIs(tables, db.active, n);
      }
    }
  }

  lemma {:induction false} WriteBackKeys(tables: Tables, txns: seq<Named>)
    ensures WriteBackAll(tables, txns).Keys == tables.Keys
    decreases |txns|
  {
    if txns != [] {
      WriteBackKeys(WrittenBack(tables, txns[0]), txns[1..]);
    }
  }

  // ---------------------------------------------------------------- which transactions are refused

  /** Some transaction accepted after this one first touched the table wrote a row it wrote. */
  ghost predicate Beaten(h: History, n: Named) {
    n.table in h && exists i, id :: n.txn.snapshot <= i < |h[n.table]| && id in h[n.table][i].txn.writes && id in n.txn.writes
  }

  /** A table refuses a transaction exactly when a rival was accepted since it first touched the table. */
  lemma RefusedExactly(tables: Tables, h: History, n: Named)
    requires HistoryOK(tables, h) && NamedOK(tables, n)
    ensures Refused(tables, n) <==> Beaten(h, n)
  {
    var s, done := tables[n.table].store, h[n.table];
    assert TableHistoryOK(s, done);
    forall id ensures ChangedSince(s, id, n.txn.snapshot) <==>
        exists i :: n.txn.snapshot <= i < |done| && id in done[i].txn.writes {
    }
  }

  /** The transactions a commit gets accepted before the first one that is refused. */
  ghost function AcceptedBy(tables: Tables, txns: seq<Named>): seq<Named> {
    if txns == [] || Refused(tables, txns[0]) then [] else [txns[0]] + AcceptedBy(tables, txns[1..])
  }

  ghost function RecordAll(h: History, txns: seq<Named>): History
    decreases |txns|
  {
    if txns == [] then h else RecordAll(Record(h, txns[0]), txns[1..])
  }

  lemma {:induction false} AcceptedElsewhere(a: Tables, b: Tables, txns: seq<Named>)
    requires forall i :: 0 <= i < |txns| ==> Refused(a, txns[i]) == Refused(b, txns[i])
    ensures AcceptedBy(a, txns) == AcceptedBy(b, txns)
  {
    if txns != [] {
      AcceptedElsewhere(a, b, txns[1..]);
    }
  }

  lemma {:induction false} ValidateAllKeeps(tables: Tables, h: History, txns: seq<Named>)
    requires HistoryOK(tables, h) && ActiveOK(tables, txns)
    ensures HistoryOK(ValidateAll(tables, txns).0, RecordAll(h, AcceptedBy(tables, txns)))
    decreases |txns|
  {
    if txns != [] && !Refused(tables, txns[0]) {
      var n, rest := txns[0], txns[1..];
      assert txns == [n] + rest;
      ValidatedKeeps(tables, h, n);
      ValidatedActive(tables, n, rest);
      ValidateAllKeeps(Validated(tables, n), Record(h, n), rest);
      AcceptedElsewhere(Validated(tables, n), tables, rest);
      assert ([n] + AcceptedBy(tables, rest))[1..] == AcceptedBy(tables, rest);
    }
  }

  // ---------------------------------------------------------------- write-back keeps the rest

  /** Tables that differ only in their trees. */
  ghost predicate SameButTrees(a: Tables, b: Tables) {
    a.Keys == b.Keys && forall n :: n in a ==> b[n] == a[n].(tree := b[n].tree) && (TreeOK(a[n]) ==> TreeOK(b[n]))
  }

  lemma WrittenBackKeeps(tables: Tables, n: Named)
    requires NamedOK(tables, n)
    ensures SameButTrees(tables, WrittenBack(tables, n))
  {
  }

  lemma SameButTreesKeeps(a: Tables, b: Tables, h: History, txns: seq<Named>)
    requires SameButTrees(a, b)
    ensures HistoryOK(a, h) ==> HistoryOK(b, h)
    ensures ActiveOK(a, txns) ==> ActiveOK(b, txns)
    ensures forall i :: 0 <= i < |txns| ==> Refused(b, txns[i]) == Refused(a, txns[i])
  {
    if ActiveOK(a, txns) {
      forall i | 0 <= i < |txns| ensures NamedOK(b, txns[i]) {
        assert NamedOK(a, txns[i]);
      }
    }
  }

  lemma {:induction false} WriteBackAllKeeps(tables: Tables, txns: seq<Named>)
    requires ActiveOK(tables, txns)
    ensures SameButTrees(tables, WriteBackAll(tables, txns))
    decreases |txns|
  {
    if txns != [] {
      assert NamedOK(tables, txns[0]);
      WrittenBackKeeps(tables, txns[0]);
      var mid := WrittenBack(tables, txns[0]);
      forall i | 0 <= i < |txns[1..]| ensures NamedOK(tables, txns[1..][i]) {
        assert txns[1..][i] == txns[i + 1];
      }
      SameButTreesKeeps(tables, mid, map[], txns[1..]);
      WriteBackAllKeeps(mid, txns[1..]);
    }
  }

  /** Tables after a commit: same schemas and id counters, no clock set back, no row id unknown. */
  ghost predicate CommitKept(a: Tables, b: Tables) {
    && a.Keys == b.Keys
    && forall n :: n in a ==>
      && b[n].schema == a[n].schema && b[n].nextRowId == a[n].nextRowId && a[n].store.clock <= b[n].store.clock
      && (TreeOK(a[n]) ==> TreeOK(b[n]))
  }

  lemma CommitKeptActive(a: Tables, b: Tables, active: seq<Named>)
    requires CommitKept(a, b) && ActiveOK(a, active)
    ensures ActiveOK(b, active)
  {
    forall i | 0 <= i < |active| ensures NamedOK(b, active[i]) {
      assert NamedOK(a, active[i]);
    }
  }

  /** A session's COMMIT keeps the history of what it got accepted, whether or not it was refused in the end. */
  lemma {:induction false} CommitEachKeeps(tables: Tables, h: History, txns: seq<Named>)
    requires HistoryOK(tables, h) && ActiveOK(tables, txns)
    ensures HistoryOK(CommitEach(tables, txns).0, RecordAll(h, AcceptedBy(tables, txns)))
    ensures CommitKept(tables, CommitEach(tables, txns).0)
    decreases |txns|
  {
    if txns != [] && !Refused(tables, txns[0]) {
      var n, rest := txns[0], txns[1..];
      assert txns == [n] + rest;
      CommitOneKeeps(tables, h, n, rest);
      var mid := WrittenBack(Validated(tables, n), n);
      CommitEachKeeps(mid, Record(h, n), rest);
      CommitKeptTransitive(tables, mid, CommitEach(mid, rest).0);
      AcceptedElsewhere(mid, tables, rest);
      assert ([n] + AcceptedBy(tables, rest))[1..] == AcceptedBy(tables, rest);
    }
  }

  lemma CommitKeptTransitive(a: Tables, b: Tables, c: Tables)
    requires CommitKept(a, b) && CommitKept(b, c)
    ensures CommitKept(a, c)
  {
  }

  ghost predicate NoneRefused(tables: Tables, txns: seq<Named>) {
    forall i :: 0 <= i < |txns| ==> !Refused(tables, txns[i])
  }

  lemma NoneRefusedSplit(tables: Tables, txns: seq<Named>, after: Tables)
    requires txns != [] && forall i :: 0 <= i < |txns[1..]| ==> Refused(after, txns[1..][i]) == Refused(tables, txns[1..][i])
    ensures NoneRefused(tables, txns) <==> !Refused(tables, txns[0]) && NoneRefused(after, txns[1..])
  {
    assert forall i :: 0 <= i < |txns[1..]| ==> txns[1..][i] == txns[i + 1];
    assert forall i :: 1 <= i < |txns| ==> txns[i] == txns[1..][i - 1];
  }

  /** A session's COMMIT succeeds exactly when no table refuses it. */
  lemma {:induction false} CommitEachOutcome(tables: Tables, h: History, txns: seq<Named>)
    requires HistoryOK(tables, h) && ActiveOK(tables, txns)
    ensures CommitEach(tables, txns).1 <==> NoneRefused(tables, txns)
    decreases |txns|
  {
    if txns != [] && !Refused(tables, txns[0]) {
      var n, rest := txns[0], txns[1..];
      assert txns == [n] + rest;
      CommitOneKeeps(tables, h, n, rest);
      var mid := WrittenBack(Validated(tables, n), n);
      CommitEachOutcome(mid, Record(h, n), rest);
      NoneRefusedSplit(tables, txns, mid);
    }
  }

  /**
    What a session's COMMIT leaves in the trees, whether it succeeds or stops at a conflict: the
    writes of exactly the transactions accepted before the first refusal.
  */
  lemma {:induction false} CommitEachApplies(tables: Tables, h: History, txns: seq<Named>, name: string)
    requires HistoryOK(tables, h) && ActiveOK(tables, txns) && name in tables
    ensures name in CommitEach(tables, txns).0
    ensures CommitEach(tables, txns).0[name].tree == Applied(tables[name].tree, WritesFor(AcceptedBy(tables, txns), name))
    decreases |txns|
  {
    if txns == [] || Refused(tables, txns[0]) {
      AppliedNothing(tables[name].tree);
    } else {
      var n, rest := txns[0], txns[1..];
      assert txns == [n] + rest;
      CommitOneKeeps(tables, h, n, rest);
      var mid := WrittenBack(Validated(tables, n), n);
      CommitEachApplies(mid, Record(h, n), rest, name);
      AcceptedElsewhere(mid, tables, rest);
      AcceptedRest(tables, txns, name);
      if n.table == name {
        AppliedNothing(Applied(tables[name].tree, n.txn.writes));
      }
    }
  }

  lemma {:induction false} AcceptedAmong(tables: Tables, txns: seq<Named>)
    ensures |AcceptedBy(tables, txns)| <= |txns|
    ensures forall i :: 0 <= i < |AcceptedBy(tables, txns)| ==> AcceptedBy(tables, txns)[i] == txns[i] && !Refused(tables, txns[i])
    decreases |txns|
  {
    if txns != [] && !Refused(tables, txns[0]) {
      AcceptedAmong(tables, txns[1..]);
    }
  }

  /** A COMMIT that succeeds gets all its transactions accepted. */
  lemma {:induction false} AcceptedAll(tables: Tables, txns: seq<Named>)
    requires NoneRefused(tables, txns)
    ensures AcceptedBy(tables, txns) == txns
    decreases |txns|
  {
    if txns != [] {
      assert forall i :: 0 <= i < |txns[1..]| ==> txns[1..][i] == txns[i + 1];
      AcceptedAll(tables, txns[1..]);
      assert txns == [txns[0]] + txns[1..];
    }
  }

  lemma AcceptedRest(tables: Tables, txns: seq<Named>, name: string)
    requires txns != [] && !Refused(tables, txns[0]) && forall i, j :: 0 <= i < j < |txns| ==> txns[i].table != txns[j].table
    ensures var rest := WritesFor(AcceptedBy(tables, txns[1..]), name);
      if txns[0].table == name then WritesFor(AcceptedBy(tables, txns), name) == txns[0].txn.writes && rest == map[]
      else WritesFor(AcceptedBy(tables, txns), name) == rest
  {
    AcceptedAmong(tables, txns[1..]);
    var all := AcceptedBy(tables, txns);
    assert all[1..] == AcceptedBy(tables, txns[1..]);
    WritesForRest(all, name);
    if txns[0].table == name {
      NoWritesFor(AcceptedBy(tables, txns[1..]), name);
    }
  }

  // ---------------------------------------------------------------- what a refused COMMIT leaves behind

  /** Every write only restates what the tree holds. */
  ghost predicate Restates(tree: Tree, writes: Writes) {
    forall id :: id in writes ==> writes[id] == Live(tree, map[], id)
  }

  lemma RestatesExactly(tree: Tree, writes: Writes)
    ensures Applied(tree, writes) == tree <==> Restates(tree, writes)
  {
    var r := Applied(tree, writes);
    if r == tree {
      forall id | id in writes ensures writes[id] == Live(tree, map[], id) {
        assert id in r <==> Live(tree, writes, id).Some?;
      }
    }
    if Restates(tree, writes) {
      forall id ensures id in r <==> id in tree {
        assert id in r <==> Live(tree, writes, id).Some?;
      }
      forall id | id in tree ensures r[id] == tree[id] {
        assert Some(r[id]) == Live(tree, writes, id);
      }
    }
  }

  ghost predicate TreesUnchanged(a: Tables, b: Tables) {
    a.Keys == b.Keys && forall n :: n in a ==> b[n].tree == a[n].tree
  }

  /**
    A session's COMMIT that is refused leaves every tree as it was if and only if the transactions
    accepted before the refusal wrote nothing new.
  */
  lemma SessionCommitAtomicExactly(tables: Tables, h: History, txns: seq<Named>)
    requires HistoryOK(tables, h) && ActiveOK(tables, txns) && !CommitEach(tables, txns).1
    ensures TreesUnchanged(tables, CommitEach(tables, txns).0) <==>
            forall n :: n in tables ==> Restates(tables[n].tree, WritesFor(AcceptedBy(tables, txns), n))
  {
    CommitEachKeeps(tables, h, txns);
    forall n | n in tables
      ensures CommitEach(tables, txns).0[n].tree == tables[n].tree <==>
              Restates(tables[n].tree, WritesFor(AcceptedBy(tables, txns), n))
    {
      CommitEachApplies(tables, h, txns, n);
      RestatesExactly(tables[n].tree, WritesFor(AcceptedBy(tables, txns), n));
    }
  }

  /**
    A refused global COMMIT leaves no trace at all if and only if the first transaction is the one
    refused; otherwise some version store has accepted a transaction that no tree shows.
  */
  lemma RefusedCommitTrace(db: Db)
    requires DbOK(db) && db.inTxn && RunCommit(db).1.Err?
    ensures db.active != []
    ensures RunCommit(db).0 == db.(inTxn := false, active := []) <==> Refused(db.tables, db.active[0])
  {
    GlobalCommitIsAtomic(db);
    var n, rest := db.active[0], db.active[1..];
    if !Refused(db.tables, n) {
      assert db.active == [n] + rest;
      assert NamedOK(db.tables, n);
      ValidatedActive(db.tables, n, rest);
      ValidateAllIs(Validated(db.tables, n), rest);
      assert ValidateAll(db.tables, db.active).0[n.table].store.clock > db.tables[n.table].store.clock;
    }
  }

  lemma CommitOneKeeps(tables: Tables, h: History, n: Named, rest: seq<Named>)
    requires HistoryOK(tables, h) && ActiveOK(tables, [n] + rest) && !Refused(tables, n)
    ensures var mid := WrittenBack(Validated(tables, n), n);
      && HistoryOK(mid, Record(h, n)) && ActiveOK(mid, rest) && CommitKept(tables, mid)
      && forall i :: 0 <= i < |rest| ==> Refused(mid, rest[i]) == Refused(tables, rest[i])
  {
    assert NamedOK(tables, ([n] + rest)[0]);
    ValidatedKeeps(tables, h, n);
    ValidatedActive(tables, n, rest);
    var valid := Validated(tables, n);
    WrittenBackKeeps(valid, n);
    SameButTreesKeeps(valid, WrittenBack(valid, n), Record(h, n), rest);
  }
}
