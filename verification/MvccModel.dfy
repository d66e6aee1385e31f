/** The multi-version store as values, and the machine of transactions interleaving on it. */
module MvccModel {
  import opened Common

  type Key = nat

  datatype Version<V> = Version(ts: nat, value: V)

  /** Version chains by key, oldest first, and the last commit timestamp handed out. */
  datatype Store<V> = Store(versions: map<Key, seq<Version<V>>>, clock: nat)

  datatype Txn<V> = Txn(snapshot: nat, readSet: seq<Key>, writes: map<Key, V>)

  datatype CommitError = Conflict

  // ---------------------------------------------------------------- the store

  function Chain<V>(versions: map<Key, seq<Version<V>>>, k: Key): seq<Version<V>> {
    if k in versions then versions[k] else []
  }

  /** The newest version of a chain no younger than `asOf`. */
  function Visible<V>(chain: seq<Version<V>>, asOf: nat): Option<V> {
    if chain == [] then None
    else if chain[|chain| - 1].ts <= asOf then Some(chain[|chain| - 1].value)
    else Visible(chain[..|chain| - 1], asOf)
  }

  function Begin<V>(s: Store<V>): Txn<V> {
    Txn(s.clock, [], map[])
  }

  /** A read notes its key, then looks at the transaction's own writes and at its snapshot. */
  function Read<V>(s: Store<V>, t: Txn<V>, k: Key): (Txn<V>, Option<V>) {
    (t.(readSet := t.readSet + [k]), if k in t.writes then Some(t.writes[k]) else Visible(Chain(s.versions, k), t.snapshot))
  }

  function Write<V>(t: Txn<V>, k: Key, v: V): Txn<V> {
    t.(writes := t.writes[k := v])
  }

  /** Some version of `k` is younger than `ts`, judged by the newest one. */
  predicate ChangedSince<V>(s: Store<V>, k: Key, ts: nat) {
    var chain := Chain(s.versions, k);
    chain != [] && chain[|chain| - 1].ts > ts
  }

  ghost predicate Stale<V>(s: Store<V>, t: Txn<V>) {
    exists k :: (k in t.readSet || k in t.writes) && ChangedSince(s, k, t.snapshot)
  }

  function Install<V>(versions: map<Key, seq<Version<V>>>, ts: nat, writes: map<Key, V>): map<Key, seq<Version<V>>> {
    map k | k in versions.Keys + writes.Keys :: if k in writes then Chain(versions, k) + [Version(ts, writes[k])] else versions[k]
  }

  function Committed<V>(s: Store<V>, t: Txn<V>): Store<V> {
    Store(Install(s.versions, s.clock + 1, t.writes), s.clock + 1)
  }

  function Latest<V>(s: Store<V>, k: Key): Option<V> {
    var chain := Chain(s.versions, k);
    if chain == [] then None else Some(chain[|chain| - 1].value)
  }

  // ---------------------------------------------------------------- interleavings

  /** What a transaction did, in its own order, with the results it saw. */
  datatype Event<V> = DidRead(k: Key, result: Option<V>) | DidWrite(k: Key, v: V)

  datatype Open<V> = Open(txn: Txn<V>, events: seq<Event<V>>)

  /** The store, the transactions under way by name, and those committed, in commit order. */
  datatype Machine<V> = Machine(store: Store<V>, open: map<nat, Open<V>>, done: seq<Open<V>>)

  datatype Action<V> =
    | DoBegin(id: nat)
    | DoRead(id: nat, k: Key)
    | DoWrite(id: nat, k: Key, v: V)
    | DoCommit(id: nat)
    /** The transaction is dropped without committing. */
    | DoAbort(id: nat)

  ghost predicate Enabled<V>(m: Machine<V>, a: Action<V>) {
    if a.DoBegin? then a.id !in m.open else a.id in m.open
  }

  ghost function Act<V>(m: Machine<V>, a: Action<V>): Machine<V>
    requires Enabled(m, a)
  {
    match a
    case DoBegin(id) => m.(open := m.open[id := Open(Begin(m.store), [])])
    case DoRead(id, k) =>
      var o := m.open[id];
      var (t, r) := Read(m.store, o.txn, k);
      m.(open := m.open[id := Open(t, o.events + [DidRead(k, r)])])
    case DoWrite(id, k, v) =>
      var o := m.open[id];
      m.(open := m.open[id := Open(Write(o.txn, k, v), o.events + [DidWrite(k, v)])])
    case DoCommit(id) =>
      var o := m.open[id];
      if Stale(m.store, o.txn) then m.(open := m.open - {id})
      else Machine(Committed(m.store, o.txn), m.open - {id}, m.done + [o])
    case DoAbort(id) => m.(open := m.open - {id})
  }

  function NewStore<V>(): Store<V> {
    Store(map[], 0)
  }

  /** The machine after `actions`; an action that is not enabled does nothing. */
  ghost function Run<V>(actions: seq<Action<V>>): Machine<V> {
    if actions == [] then Machine(NewStore(), map[], [])
    else
      var m, a := Run(actions[..|actions| - 1]), actions[|actions| - 1];
      if Enabled(m, a) then Act(m, a) else m
  }

  // ---------------------------------------------------------------- one transaction at a time

  type Plain<V> = map<Key, V>

  function Lookup<V>(db: Plain<V>, k: Key): Option<V> {
    if k in db then Some(db[k]) else None
  }

  /** Runs one transaction alone on a plain map; `None` if some read would see another value than it did. */
  ghost function RunAlone<V>(db: Plain<V>, events: seq<Event<V>>): Option<Plain<V>> {
    if events == [] then Some(db)
    else
      match RunAlone(db, events[..|events| - 1])
      case None => None
      case Some(d) =>
        match events[|events| - 1]
        case DidRead(k, r) => if Lookup(d, k) == r then Some(d) else None
        case DidWrite(k, v) => Some(d[k := v])
  }

  /** Runs committed transactions one after another, in commit order. */
  ghost function RunSerially<V>(done: seq<Open<V>>): Option<Plain<V>> {
    if done == [] then Some(map[])
    else
      match RunSerially(done[..|done| - 1])
      case None => None
      case Some(db) => RunAlone(db, done[|done| - 1].events)
  }
}
