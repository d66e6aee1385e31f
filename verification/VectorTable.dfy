/** The vector indexes of a table are kept in step with its rows by every insert, update, delete and commit. */
module VectorTable {
  import opened Common
  import opened Ranking
  import opened VectorIndex
  import opened VectorSearch
  import opened IvfFlat

  /** A row by its vector cells: `None` for a cell that holds anything else. */
  type Cells = seq<Option<Vec>>
  type Rows = map<nat, Cells>

  /** The centroids clustering ends with; there is always at least one. */
  datatype Centroids = Centroids(first: Vec, rest: seq<Vec>)

  function Cell(row: Cells, slot: nat): Option<Vec> {
    if slot < |row| then row[slot] else None
  }

  /** The live vectors of a column. */
  ghost function VectorsAt(tree: Rows, slot: nat): map<nat, Vec> {
    map id | id in tree && Cell(tree[id], slot).Some? :: Cell(tree[id], slot).value
  }

  /** The vectors of a column in id order, as a scan of ids below `n` finds them. */
  function Bucket(tree: Rows, slot: nat, n: nat): seq<Entry> {
    if n == 0 then []
    else
      Bucket(tree, slot, n - 1) +
      if n - 1 in tree && Cell(tree[n - 1], slot).Some? then [Entry(n - 1, Cell(tree[n - 1], slot).value)] else []
  }

  lemma {:induction false} BucketIs(tree: Rows, slot: nat, n: nat)
    ensures NoRepeats(Bucket(tree, slot, n))
    ensures forall e :: e in Bucket(tree, slot, n) <==> e.id < n && e.id in tree && Cell(tree[e.id], slot) == Some(e.v)
  {
    if n > 0 {
      BucketIs(tree, slot, n - 1);
      var init := Bucket(tree, slot, n - 1);
      forall i | 0 <= i < |init| ensures init[i].id < n - 1 {
        assert init[i] in init;
      }
    }
  }

  lemma BucketEnumerates(tree: Rows, slot: nat, n: nat)
    requires forall id :: id in tree ==> id < n
    ensures Enumerates(Bucket(tree, slot, n), VectorsAt(tree, slot))
  {
    BucketIs(tree, slot, n);
    var s, m := Bucket(tree, slot, n), VectorsAt(tree, slot);
    forall j | 0 <= j < |s| ensures s[j].id in m && m[s[j].id] == s[j].v {
      assert s[j] in s;
    }
    forall id | id in m ensures Entry(id, m[id]) in s {
    }
  }

  lemma {:induction false} EnumeratedMap(s: seq<Entry>)
    requires NoRepeats(s)
    ensures forall j :: 0 <= j < |s| ==> s[j].id in AsMap(s) && AsMap(s)[s[j].id] == s[j].v
  {
    if s != [] {
      EnumeratedMap(s[..|s| - 1]);
    }
  }

  lemma EnumerationIsMap(s: seq<Entry>, m: map<nat, Vec>)
    requires Enumerates(s, m)
    ensures AsMap(s) == m
  {
    AsMapKeys(s);
    EnumeratedMap(s);
    forall id ensures id in AsMap(s) <==> id in m {
      if id in m {
        var j :| 0 <= j < |s| && s[j] == Entry(id, m[id]);
      }
    }
    forall id | id in m ensures AsMap(s)[id] == m[id] {
      var j :| 0 <= j < |s| && s[j] == Entry(id, m[id]);
    }
  }

  lemma StoredVectors(tree: Rows, id: nat, row: Cells, slot: nat)
    ensures VectorsAt(tree[id := row], slot) ==
      match Cell(row, slot) { case Some(v) => VectorsAt(tree, slot)[id := v] case None => VectorsAt(tree, slot) - {id} }
  {
  }

  lemma DeletedVectors(tree: Rows, id: nat, slot: nat)
    ensures VectorsAt(tree - {id}, slot) == VectorsAt(tree, slot) - {id}
  {
  }

  /** The normalised copies of the vectors. */
  ghost function UnitsFor(m: map<nat, Vec>, normalize: Vec -> Vec): map<nat, Vec> {
    map id | id in m :: normalize(m[id])
  }

  /** The index holds exactly these vectors, each in the list of the centroid nearest to it. */
  ghost predicate Indexes(ix: Index, m: map<nat, Vec>, normalize: Vec -> Vec) {
    Holds(ix, m) && WellPlaced(ix, UnitsFor(m, normalize))
  }

  /** Every index holds exactly the live vectors of its column, well placed. */
  ghost predicate Agree(indexes: map<nat, Index>, tree: Rows, normalize: Vec -> Vec) {
    forall slot :: slot in indexes ==> Indexes(indexes[slot], VectorsAt(tree, slot), normalize)
  }

  /** What a change of row `id` does to one index. */
  function Maintained(ix: Index, id: nat, cell: Option<Vec>, normalize: Vec -> Vec): Index {
    match cell case Some(v) => Insert(ix, id, v, normalize(v)) case None => Remove(ix, id)
  }

  lemma RemovedIndexes(ix: Index, m: map<nat, Vec>, id: nat, normalize: Vec -> Vec)
    requires Indexes(ix, m, normalize)
    ensures Indexes(Remove(ix, id), m - {id}, normalize)
  {
    RemoveHolds(ix, m, id);
    RemoveStaysPlaced(ix, UnitsFor(m, normalize), id);
  }

  lemma InsertedIndexes(ix: Index, m: map<nat, Vec>, id: nat, v: Vec, normalize: Vec -> Vec)
    requires Indexes(ix, m, normalize)
    ensures Indexes(Insert(ix, id, v, normalize(v)), m[id := v], normalize)
  {
    InsertHolds(ix, m, id, v, normalize(v));
    InsertStaysPlaced(ix, m, UnitsFor(m, normalize), id, v, normalize(v));
    OneMoreUnit(m, id, v, normalize);
  }

  lemma OneMoreUnit(m: map<nat, Vec>, id: nat, v: Vec, normalize: Vec -> Vec)
    ensures UnitsFor(m[id := v], normalize) == UnitsFor(m, normalize)[id := normalize(v)]
  {
  }

  lemma MaintainedIndexes(ix: Index, tree: Rows, id: nat, row: Cells, slot: nat, normalize: Vec -> Vec)
    requires Indexes(ix, VectorsAt(tree, slot), normalize)
    ensures Indexes(Maintained(ix, id, Cell(row, slot), normalize), VectorsAt(tree[id := row], slot), normalize)
  {
    StoredVectors(tree, id, row, slot);
    match Cell(row, slot)
    case Some(v) => InsertedIndexes(ix, VectorsAt(tree, slot), id, v, normalize);
    case None => RemovedIndexes(ix, VectorsAt(tree, slot), id, normalize);
  }

  lemma DeletedIndexes(ix: Index, tree: Rows, id: nat, slot: nat, normalize: Vec -> Vec)
    requires Indexes(ix, VectorsAt(tree, slot), normalize)
    ensures Indexes(Remove(ix, id), VectorsAt(tree - {id}, slot), normalize)
  {
    RemovedIndexes(ix, VectorsAt(tree, slot), id, normalize);
    DeletedVectors(tree, id, slot);
  }

  /** The normalised copies of a list of entries. */
  function Normalized(normalize: Vec -> Vec, s: seq<Entry>): (r: seq<Vec>)
    ensures |r| == |s| && forall i :: 0 <= i < |s| ==> r[i] == normalize(s[i].v)
  {
    if s == [] then [] else Normalized(normalize, s[..|s| - 1]) + [normalize(s[|s| - 1].v)]
  }

  lemma {:induction false} NormalizedUnits(normalize: Vec -> Vec, s: seq<Entry>)
    ensures UnitsOf(s, Normalized(normalize, s)) == UnitsFor(AsMap(s), normalize)
  {
    if s != [] {
      var n := |s| - 1;
      NormalizedUnits(normalize, s[..n]);
      assert Normalized(normalize, s)[..n] == Normalized(normalize, s[..n]);
      assert UnitsFor(AsMap(s[..n])[s[n].id := s[n].v], normalize) == UnitsFor(AsMap(s[..n]), normalize)[s[n].id := normalize(s[n].v)];
    }
  }

  lemma BuiltIndexes(centroids: seq<Vec>, tree: Rows, slot: nat, n: nat, normalize: Vec -> Vec)
    requires (forall id :: id in tree ==> id < n) && centroids != []
    ensures var vectors := Bucket(tree, slot, n);
      Indexes(Build(centroids, vectors, Normalized(normalize, vectors)), VectorsAt(tree, slot), normalize)
  {
    var vectors := Bucket(tree, slot, n);
    BucketEnumerates(tree, slot, n);
    EnumerationIsMap(vectors, VectorsAt(tree, slot));
    BuildHolds(centroids, vectors, Normalized(normalize, vectors));
    BuildIsPlaced(centroids, vectors, Normalized(normalize, vectors));
    NormalizedUnits(normalize, vectors);
  }

  lemma EmptyBucket(tree: Rows, slot: nat, n: nat)
    requires forall id :: id in tree ==> id < n
    ensures Bucket(tree, slot, n) == [] <==> VectorsAt(tree, slot) == map[]
  {
    BucketEnumerates(tree, slot, n);
    if Bucket(tree, slot, n) != [] {
      assert Bucket(tree, slot, n)[0].id in VectorsAt(tree, slot);
    }
  }

  /** A write a transaction buffered: a row, or `None` for a deletion. */
  datatype Buffered = Buffered(id: nat, row: Option<Cells>)

  /** The tree after a committed transaction's writes. */
  ghost function Written(tree: Rows, writes: seq<Buffered>): Rows {
    if writes == [] then tree
    else
      var w, t := writes[|writes| - 1], Written(tree, writes[..|writes| - 1]);
      match w.row case Some(row) => t[w.id := row] case None => t - {w.id}
  }

  /** Writes to rows the table has handed out. */
  predicate Known(writes: seq<Buffered>, nextRowId: nat) {
    forall i :: 0 <= i < |writes| ==> writes[i].id < nextRowId
  }

  class Table {
    var tree: Rows
    var nextRowId: nat
    var indexes: map<nat, Index>

    /** The columns of vector type. */
    const vectorSlots: seq<nat>
    const normalize: Vec -> Vec
    const cluster: seq<Entry> -> Centroids

    ghost predicate Valid()
      reads this
    {
      (forall id :: id in tree ==> id < nextRowId) && Agree(indexes, tree, normalize)
    }

    /** Every vector column with a vector in it has an index. */
    ghost predicate Covered()
      reads this
    {
      forall i :: 0 <= i < |vectorSlots| && VectorsAt(tree, vectorSlots[i]) != map[] ==> vectorSlots[i] in indexes
    }

    constructor (vectorSlots: seq<nat>, normalize: Vec -> Vec, cluster: seq<Entry> -> Centroids)
      ensures Valid() && tree == map[] && nextRowId == 0 && indexes == map[]
    {
      this.vectorSlots := vectorSlots;
      this.normalize := normalize;
      this.cluster := cluster;
      tree := map[];
      nextRowId := 0;
      indexes := map[];
    }

    /** Brings every index up to date with a row about to be stored under `id`. */
    method MaintainForRow(id: nat, row: Cells)
      requires Agree(indexes, tree, normalize)
      modifies this`indexes
      ensures Agree(indexes, tree[id := row], normalize) && indexes.Keys == old(indexes.Keys)
    {
      ghost var before := indexes;
      var todo := indexes.Keys;
      while todo != {}
        invariant todo <= before.Keys && indexes.Keys == before.Keys
        invariant forall s :: s in todo ==> indexes[s] == before[s]
        invariant forall s :: s in before.Keys - todo ==> indexes[s] == Maintained(before[s], id, Cell(row, s), normalize)
        decreases todo
      {
        var s :| s in todo;
        indexes := indexes[s := Maintained(indexes[s], id, Cell(row, s), normalize)];
        todo := todo - {s};
      }
      forall s | s in indexes ensures Indexes(indexes[s], VectorsAt(tree[id := row], s), normalize) {
        MaintainedIndexes(before[s], tree, id, row, s, normalize);
      }
    }

    method RemoveFromAll(id: nat)
      modifies this`indexes
      ensures indexes.Keys == old(indexes.Keys)
      ensures forall s :: s in indexes ==> indexes[s] == Remove(old(indexes)[s], id)
    {
      ghost var before := indexes;
      var todo := indexes.Keys;
      while todo != {}
        invariant todo <= before.Keys && indexes.Keys == before.Keys
        invariant forall s :: s in todo ==> indexes[s] == before[s]
        invariant forall s :: s in before.Keys - todo ==> indexes[s] == Remove(before[s], id)
        decreases todo
      {
        var s :| s in todo;
        indexes := indexes[s := Remove(indexes[s], id)];
        todo := todo - {s};
      }
    }

    method MaintainOnDelete(id: nat)
      requires Agree(indexes, tree, normalize)
      modifies this`indexes
      ensures Agree(indexes, tree - {id}, normalize) && indexes.Keys == old(indexes.Keys)
    {
      ghost var before := indexes;
      RemoveFromAll(id);
      forall s | s in indexes ensures Indexes(indexes[s], VectorsAt(tree - {id}, s), normalize) {
        DeletedIndexes(before[s], tree, id, s, normalize);
      }
    }

    /** Scans the table for the vectors of one column. */
    method Collect(slot: nat) returns (vectors: seq<Entry>)
      ensures vectors == Bucket(tree, slot, nextRowId)
    {
      vectors := [];
      for id := 0 to nextRowId
        invariant vectors == Bucket(tree, slot, id)
      {
        if id in tree && Cell(tree[id], slot).Some? {
          vectors := vectors + [Entry(id, Cell(tree[id], slot).value)];
        }
      }
    }

    /** Builds an index for each vector column that has none, once the table is large enough and the column has a vector. */
    method MaybeBuild()
      requires Valid()
      modifies this`indexes
      ensures Valid()
      ensures nextRowId < MIN_ROWS_FOR_INDEX ==> indexes == old(indexes)
      ensures forall s :: s in old(indexes) ==> s in indexes && indexes[s] == old(indexes)[s]
      ensures forall s :: s in indexes && s !in old(indexes) ==> s in vectorSlots && VectorsAt(tree, s) != map[]
      ensures nextRowId >= MIN_ROWS_FOR_INDEX ==> Covered()
    {
      if nextRowId < MIN_ROWS_FOR_INDEX {
        return;
      }
      for i := 0 to |vectorSlots|
        invariant Valid()
        invariant forall s :: s in old(indexes) ==> s in indexes && indexes[s] == old(indexes)[s]
        invariant forall s :: s in indexes && s !in old(indexes) ==> s in vectorSlots && VectorsAt(tree, s) != map[]
        invariant forall j :: 0 <= j < i && VectorsAt(tree, vectorSlots[j]) != map[] ==> vectorSlots[j] in indexes
      {
        if vectorSlots[i] !in indexes {
          BuildFor(vectorSlots[i]);
        }
      }
    }

    method BuildFor(slot: nat)
      requires Valid() && slot !in indexes
      modifies this`indexes
      ensures Valid()
      ensures forall s :: s in old(indexes) ==> s in indexes && indexes[s] == old(indexes)[s]
      ensures VectorsAt(tree, slot) != map[] <==> slot in indexes
      ensures indexes.Keys <= old(indexes.Keys) + {slot}
    {
      var vectors := Collect(slot);
      if vectors != [] {
        var c := cluster(vectors);
        BuiltIndexes([c.first] + c.rest, tree, slot, nextRowId, normalize);
        indexes := indexes[slot := Build([c.first] + c.rest, vectors, Normalized(normalize, vectors))];
      }
      EmptyBucket(tree, slot, nextRowId);
    }

    method Store(id: nat, row: Cells)
      requires Valid() && id < nextRowId
      modifies this`tree, this`indexes
      ensures Valid() && tree == old(tree)[id := row]
    {
      MaintainForRow(id, row);
      tree := tree[id := row];
    }

    method Discard(id: nat)
      requires Valid()
      modifies this`tree, this`indexes
      ensures Valid() && tree == old(tree) - {id}
    {
      MaintainOnDelete(id);
      tree := tree - {id};
    }

    /** An autocommit INSERT of one row. */
    method InsertRow(row: Cells) returns (id: nat)
      requires Valid()
      modifies this
      ensures Valid() && id == old(nextRowId) && nextRowId == id + 1 && tree == old(tree)[id := row]
      ensures nextRowId >= MIN_ROWS_FOR_INDEX ==> Covered()
    {
      id := nextRowId;
      nextRowId := nextRowId + 1;
      Store(id, row);
      MaybeBuild();
    }

    method Commit(writes: seq<Buffered>)
      requires Valid() && Known(writes, nextRowId)
      modifies this`tree, this`indexes
      ensures Valid() && tree == Written(old(tree), writes)
      ensures nextRowId >= MIN_ROWS_FOR_INDEX ==> Covered()
    {
      for i := 0 to |writes|
        invariant Valid() && tree == Written(old(tree), writes[..i])
      {
        assert writes[..i + 1][..i] == writes[..i];
        match writes[i].row {
          case Some(row) => Store(writes[i].id, row);
          case None => Discard(writes[i].id);
        }
      }
      assert writes[..|writes|] == writes;
      MaybeBuild();
    }
  }

  // ---------------------------------------------------------------- every run

  datatype Op = InsertOp(row: Cells) | UpdateOp(id: nat, row: Cells) | DeleteOp(id: nat) | CommitOp(writes: seq<Buffered>)

  datatype Content = Content(tree: Rows, nextRowId: nat)

  /** What a statement does to the rows, whatever indexes there are. */
  ghost function Effect(c: Content, op: Op): Content {
    match op
    case InsertOp(row) => Content(c.tree[c.nextRowId := row], c.nextRowId + 1)
    case UpdateOp(id, row) => if id in c.tree then c.(tree := c.tree[id := row]) else c
    case DeleteOp(id) => c.(tree := c.tree - {id})
    case CommitOp(writes) => if Known(writes, c.nextRowId) then c.(tree := Written(c.tree, writes)) else c
  }

  ghost function Effects(c: Content, ops: seq<Op>): Content {
    if ops == [] then c else Effect(Effects(c, ops[..|ops| - 1]), ops[|ops| - 1])
  }

  method RunOne(t: Table, op: Op)
    requires t.Valid()
    modifies t
    ensures t.Valid() && Content(t.tree, t.nextRowId) == Effect(old(Content(t.tree, t.nextRowId)), op)
  {
    match op {
      case InsertOp(row) =>
        var _ := t.InsertRow(row);
      case UpdateOp(id, row) =>
        if id in t.tree {
          t.Store(id, row);
        }
      case DeleteOp(id) =>
        t.Discard(id);
      case CommitOp(writes) =>
        if Known(writes, t.nextRowId) {
          t.Commit(writes);
        }
    }
  }

  /** After any run of inserts, updates, deletes and commits every index holds exactly its column's live vectors. */
  method Run(t: Table, ops: seq<Op>)
    requires t.Valid()
    modifies t
    ensures t.Valid() && Content(t.tree, t.nextRowId) == Effects(old(Content(t.tree, t.nextRowId)), ops)
  {
    for i := 0 to |ops|
      invariant t.Valid() && Content(t.tree, t.nextRowId) == Effects(old(Content(t.tree, t.nextRowId)), ops[..i])
    {
      assert ops[..i + 1][..i] == ops[..i];
      RunOne(t, ops[i]);
    }
    assert ops[..|ops|] == ops;
  }

  /** The live vectors of a column whose nearest centroid is among the probed ones. */
  ghost function NearQuery(ix: Index, m: map<nat, Vec>, normalize: Vec -> Vec, unitQuery: Vec, nprobe: nat): map<nat, Vec> {
    map id | id in m && Nearest(ix.centroids, normalize(m[id])) in Probed(ix, unitQuery, nprobe) :: m[id]
  }

  /**
    On a table whose indexes agree with it, a search finds, position by position, rows that score
    what the brute-force scan over the rows near the query scores, and as many.
  */
  lemma IndexedSearchIsExact(indexes: map<nat, Index>, tree: Rows, slot: nat, normalize: Vec -> Vec, rows: seq<Entry>,
                             query: Vec, unitQuery: Vec, k: nat, nprobe: nat)
    requires Agree(indexes, tree, normalize) && slot in indexes
    requires Enumerates(rows, NearQuery(indexes[slot], VectorsAt(tree, slot), normalize, unitQuery, nprobe))
    ensures var found, top := Search(indexes[slot], query, unitQuery, k, nprobe), TopK(Vectors(rows), query, k);
      && |found| == |top| == (if k <= |rows| then k else |rows|)
      && (forall i :: 0 <= i < |found| ==> found[i] in VectorsAt(tree, slot) && top[i] < |rows|)
      && (forall i :: 0 <= i < |found| ==> Dot(VectorsAt(tree, slot)[found[i]], query) == Dot(rows[top[i]].v, query))
  {
    var ix, m := indexes[slot], VectorsAt(tree, slot);
    forall id ensures id in Reachable(ix, m, Probed(ix, unitQuery, nprobe)) <==> id in NearQuery(ix, m, normalize, unitQuery, nprobe) {
      ReachableIs(ix, m, UnitsFor(m, normalize), unitQuery, nprobe, id);
    }
    assert Reachable(ix, m, Probed(ix, unitQuery, nprobe)) == NearQuery(ix, m, normalize, unitQuery, nprobe);
    SearchMatchesTopKWithin(ix, m, rows, query, unitQuery, k, nprobe);
  }

  /** Probing every list, that is the scan of the whole table. */
  lemma ExhaustiveSearchIsExact(indexes: map<nat, Index>, tree: Rows, nextRowId: nat, slot: nat, normalize: Vec -> Vec,
                                query: Vec, unitQuery: Vec, k: nat, nprobe: nat)
    requires Agree(indexes, tree, normalize) && (forall id :: id in tree ==> id < nextRowId) && slot in indexes
    requires nprobe >= |indexes[slot].centroids|
    ensures Scores(SearchRanking(indexes[slot], query, unitQuery, k, nprobe)) ==
            Scores(Take(Ranked(ScoredVectors(Vectors(Bucket(tree, slot, nextRowId)), query)), k))
  {
    BucketEnumerates(tree, slot, nextRowId);
    SearchIsExact(indexes[slot], VectorsAt(tree, slot), Bucket(tree, slot, nextRowId), query, unitQuery, k, nprobe);
  }
}
