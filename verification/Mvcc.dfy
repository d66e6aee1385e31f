/** The multi-version store and its transactions as objects updated in place. */
module Mvcc {
  import opened Common
  import opened MvccModel

  class Transaction<V> {
    var snapshot: nat
    var readSet: seq<Key>
    var writes: map<Key, V>
    var committed: bool

    function State(): Txn<V>
      reads this
    {
      Txn(snapshot, readSet, writes)
    }

    constructor (snapshot: nat)
      ensures State() == Txn(snapshot, [], map[]) && !committed
    {
      this.snapshot := snapshot;
      readSet := [];
      writes := map[];
      committed := false;
    }

    function GetWrite(k: Key): Option<V>
      reads this
    {
      if k in writes then Some(writes[k]) else None
    }
  }

  /** Looks for a key of the transaction that changed after its snapshot: the reads first, then the writes. */
  method Validate<V>(s: Store<V>, t: Txn<V>) returns (ok: bool)
    ensures ok <==> !Stale(s, t)
  {
    for i := 0 to |t.readSet|
      invariant forall j :: 0 <= j < i ==> !ChangedSince(s, t.readSet[j], t.snapshot)
    {
      if ChangedSince(s, t.readSet[i], t.snapshot) {
        return false;
      }
    }
    var todo := t.writes.Keys;
    while todo != {}
      invariant todo <= t.writes.Keys
      invariant forall k :: k in t.writes.Keys - todo ==> !ChangedSince(s, k, t.snapshot)
      decreases todo
    {
      var k :| k in todo;
      if ChangedSince(s, k, t.snapshot) {
        return false;
      }
      todo := todo - {k};
    }
    ok := true;
  }

  /** The chain of `k` once its write, if it has one, is installed. */
  function Pushed<V>(versions: map<Key, seq<Version<V>>>, ts: nat, writes: map<Key, V>, k: Key): seq<Version<V>> {
    if k in writes then Chain(versions, k) + [Version(ts, writes[k])] else Chain(versions, k)
  }

  class MvccStore<V> {
    var versions: map<Key, seq<Version<V>>>
    var clock: nat

    function State(): Store<V>
      reads this
    {
      Store(versions, clock)
    }

    constructor ()
      ensures State() == NewStore()
    {
      versions := map[];
      clock := 0;
    }

    method NewTransaction() returns (t: Transaction<V>)
      ensures fresh(t) && t.State() == Begin(State()) && !t.committed
    {
      t := new Transaction(clock);
    }

    /** Walks a version chain from its newest end. */
    method VisibleValue(k: Key, asOf: nat) returns (r: Option<V>)
      ensures r == Visible(Chain(versions, k), asOf)
    {
      if k !in versions {
        return None;
      }
      var chain := versions[k];
      var i := |chain|;
      assert chain[..i] == chain;
      while i > 0
        invariant 0 <= i <= |chain| && Visible(chain, asOf) == Visible(chain[..i], asOf)
      {
        i := i - 1;
        assert chain[..i + 1][..i] == chain[..i];
        if chain[i].ts <= asOf {
          return Some(chain[i].value);
        }
      }
      r := None;
    }

    method ReadIn(t: Transaction<V>, k: Key) returns (r: Option<V>)
      modifies t`readSet
      ensures (t.State(), r) == Read(State(), old(t.State()), k)
    {
      t.readSet := t.readSet + [k];
      r := t.GetWrite(k);
      if r.None? {
        r := VisibleValue(k, t.snapshot);
      }
    }

    method WriteIn(t: Transaction<V>, k: Key, v: V)
      modifies t`writes
      ensures t.State() == Write(old(t.State()), k, v)
    {
      t.writes := t.writes[k := v];
    }

    /** Pushes one version per written key. */
    method PushVersions(ts: nat, writes: map<Key, V>)
      modifies this`versions
      ensures versions == Install(old(versions), ts, writes)
    {
      ghost var before := versions;
      var todo := writes.Keys;
      while todo != {}
        invariant todo <= writes.Keys
        invariant versions.Keys == before.Keys + (writes.Keys - todo)
        invariant forall k :: k in todo ==> Chain(versions, k) == Chain(before, k)
        invariant forall k :: k in versions && k !in todo ==> versions[k] == Pushed(before, ts, writes, k)
        decreases todo
      {
        var k :| k in todo;
        versions := versions[k := Chain(versions, k) + [Version(ts, writes[k])]];
        todo := todo - {k};
      }
    }

    method Commit(t: Transaction<V>) returns (r: Result<nat, CommitError>)
      modifies this, t`committed
      ensures r.Err? <==> Stale(old(State()), old(t.State()))
      ensures r.Ok? ==> r.value == clock && State() == Committed(old(State()), t.State()) && t.committed
      ensures r.Err? ==> State() == old(State()) && t.committed == old(t.committed)
    {
      var ok := Validate(State(), t.State());
      if !ok {
        return Err(Conflict);
      }
      clock := clock + 1;
      PushVersions(clock, t.writes);
      t.committed := true;
      r := Ok(clock);
    }
  }
}
