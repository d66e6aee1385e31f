/**
  The IVFFlat index as values over real vectors. Which centroids clustering ends with, and the
  normalised copy of a vector that is compared with them, are left open: nothing below depends on them.
*/
module VectorIndex {
  import opened Ranking

  type Vec = seq<real>

  datatype Entry = Entry(id: nat, v: Vec)

  /** A list of entries per centroid, and the list each id is in. */
  datatype Index = Index(centroids: seq<Vec>, lists: seq<seq<Entry>>, idToList: map<nat, nat>)

  /** The inner product over the shorter of the two lengths. */
  function Dot(a: Vec, b: Vec): real {
    if a == [] || b == [] then 0.0 else a[0] * b[0] + Dot(a[1..], b[1..])
  }

  /** The products of the first `n` coordinates, added up. */
  ghost function ProductSum(a: Vec, b: Vec, n: nat): real
    requires n <= |a| && n <= |b|
  {
    if n == 0 then 0.0 else ProductSum(a, b, n - 1) + a[n - 1] * b[n - 1]
  }

  lemma {:induction false} ProductSumShift(a: Vec, b: Vec, n: nat)
    requires 0 < n <= |a| && n <= |b|
    ensures ProductSum(a, b, n) == a[0] * b[0] + ProductSum(a[1..], b[1..], n - 1)
  {
    if n == 1 {
      assert ProductSum(a, b, 0) == 0.0;
    } else {
      ProductSumShift(a, b, n - 1);
    }
  }

  /** The inner product adds the products of all coordinates both vectors have. */
  lemma {:induction false} DotIs(a: Vec, b: Vec)
    ensures Dot(a, b) == ProductSum(a, b, if |a| <= |b| then |a| else |b|)
  {
    if a != [] && b != [] {
      DotIs(a[1..], b[1..]);
      ProductSumShift(a, b, if |a| <= |b| then |a| else |b|);
    }
  }

  // ---------------------------------------------------------------- operations

  /** The best matching centroid among the first `n`; the last one on a tie. */
  function NearestOf(centroids: seq<Vec>, unit: Vec, n: nat): (r: nat)
    requires n <= |centroids|
    ensures 0 < n ==> r < n
  {
    if n <= 1 then 0
    else
      var r := NearestOf(centroids, unit, n - 1);
      if Dot(centroids[n - 1], unit) >= Dot(centroids[r], unit) then n - 1 else r
  }

  function Nearest(centroids: seq<Vec>, unit: Vec): (r: nat)
    ensures centroids != [] ==> r < |centroids|
  {
    NearestOf(centroids, unit, |centroids|)
  }

  /** No centroid matches better than the nearest, and none after it as well. */
  lemma {:induction false} NearestIsBest(centroids: seq<Vec>, unit: Vec, n: nat)
    requires n <= |centroids|
    ensures forall i :: 0 <= i < n ==> Dot(centroids[i], unit) <= Dot(centroids[NearestOf(centroids, unit, n)], unit)
    ensures forall i :: NearestOf(centroids, unit, n) < i < n ==>
      Dot(centroids[i], unit) < Dot(centroids[NearestOf(centroids, unit, n)], unit)
  {
    if n > 1 {
      NearestIsBest(centroids, unit, n - 1);
    }
  }

  function Retained(list: seq<Entry>, id: nat): seq<Entry> {
    if list == [] then []
    else Retained(list[..|list| - 1], id) + if list[|list| - 1].id == id then [] else [list[|list| - 1]]
  }

  function Remove(ix: Index, id: nat): Index {
    if id !in ix.idToList || ix.idToList[id] >= |ix.lists| then ix
    else
      var c := ix.idToList[id];
      ix.(lists := ix.lists[c := Retained(ix.lists[c], id)], idToList := ix.idToList - {id})
  }

  /** Appends an entry to list `c`. */
  function Pushed(ix: Index, c: nat, e: Entry): Index
    requires c < |ix.lists|
  {
    ix.(lists := ix.lists[c := ix.lists[c] + [e]], idToList := ix.idToList[e.id := c])
  }

  function Insert(ix: Index, id: nat, v: Vec, unit: Vec): Index {
    var c := Nearest(ix.centroids, unit);
    var rest := Remove(ix, id);
    if c < |rest.lists| then Pushed(rest, c, Entry(id, v)) else rest
  }

  function Empty(centroids: seq<Vec>): Index {
    Index(centroids, seq(|centroids|, _ => []), map[])
  }

  /** An index over `vectors`, whose normalised copies are `units`, once the centroids are chosen. */
  function Build(centroids: seq<Vec>, vectors: seq<Entry>, units: seq<Vec>): (ix: Index)
    requires |units| == |vectors|
    ensures |ix.lists| == |centroids|
  {
    if vectors == [] then Empty(centroids)
    else
      var n := |vectors| - 1;
      var ix := Build(centroids, vectors[..n], units[..n]);
      var c := Nearest(centroids, units[n]);
      if c < |ix.lists| then Pushed(ix, c, vectors[n]) else ix
  }

  function ScoredEntries(list: seq<Entry>, query: Vec): (r: seq<Scored>)
    ensures |r| == |list| && forall i :: 0 <= i < |list| ==> r[i] == Scored(list[i].id, Dot(list[i].v, query))
  {
    seq(|list|, i requires 0 <= i < |list| => Scored(list[i].id, Dot(list[i].v, query)))
  }

  function ScoredVectors(vectors: seq<Vec>, query: Vec): (r: seq<Scored>)
    ensures |r| == |vectors| && forall i :: 0 <= i < |vectors| ==> r[i] == Scored(i, Dot(vectors[i], query))
  {
    seq(|vectors|, i requires 0 <= i < |vectors| => Scored(i, Dot(vectors[i], query)))
  }

  /** The entries of the given lists, one list after another. */
  function Gathered(lists: seq<seq<Entry>>, order: seq<nat>): seq<Entry> {
    if order == [] then []
    else Gathered(lists, order[..|order| - 1]) + var c := order[|order| - 1]; if c < |lists| then lists[c] else []
  }

  /** Which lists a search probes: those of the best matching centroids. */
  function Probed(ix: Index, unitQuery: Vec, nprobe: nat): seq<nat> {
    var n := if nprobe < 1 then 1 else if nprobe > |ix.centroids| then |ix.centroids| else nprobe;
    Keys(Take(Ranked(ScoredVectors(ix.centroids, unitQuery)), n))
  }

  /** The candidates of the probed lists, best first. */
  function SearchRanking(ix: Index, query: Vec, unitQuery: Vec, k: nat, nprobe: nat): seq<Scored> {
    if ix.centroids == [] then []
    else Take(Ranked(ScoredEntries(Gathered(ix.lists, Probed(ix, unitQuery, nprobe)), query)), k)
  }

  function Search(ix: Index, query: Vec, unitQuery: Vec, k: nat, nprobe: nat): seq<nat> {
    Keys(SearchRanking(ix, query, unitQuery, k, nprobe))
  }

  /** The exact scan the index speeds up: positions of the best `k` vectors. */
  function TopK(vectors: seq<Vec>, query: Vec, k: nat): seq<nat> {
    Keys(Take(Ranked(ScoredVectors(vectors, query)), k))
  }

  // ---------------------------------------------------------------- what an index holds

  ghost predicate NoRepeats(list: seq<Entry>) {
    forall i, j :: 0 <= i < j < |list| ==> list[i].id != list[j].id
  }

  /** Every entry of list `c` is a binding of `m`, and its id is recorded there. */
  ghost predicate ListOK(list: seq<Entry>, c: nat, idToList: map<nat, nat>, m: map<nat, Vec>) {
    && NoRepeats(list)
    && forall j :: 0 <= j < |list| ==>
      && list[j].id in idToList && idToList[list[j].id] == c
      && list[j].id in m && m[list[j].id] == list[j].v
  }

  /** The index holds exactly the bindings of `m`, each in one list, once. */
  ghost predicate Holds(ix: Index, m: map<nat, Vec>) {
    && ix.centroids != [] && |ix.lists| == |ix.centroids| && ix.idToList.Keys == m.Keys
    && (forall c :: 0 <= c < |ix.lists| ==> ListOK(ix.lists[c], c, ix.idToList, m))
    && forall id :: id in m ==> ix.idToList[id] < |ix.lists| && Entry(id, m[id]) in ix.lists[ix.idToList[id]]
  }

  lemma {:induction false} RetainedIs(list: seq<Entry>, id: nat)
    ensures forall e :: e in Retained(list, id) <==> e in list && e.id != id
    ensures NoRepeats(list) ==> NoRepeats(Retained(list, id))
  {
    if list != [] {
      var init, last := list[..|list| - 1], list[|list| - 1];
      assert list == init + [last];
      RetainedIs(init, id);
      if NoRepeats(list) {
        forall e | e in Retained(init, id) ensures e.id != last.id {
          var j :| 0 <= j < |init| && init[j] == e;
        }
      }
    }
  }

  lemma RetainedListOK(list: seq<Entry>, c: nat, idToList: map<nat, nat>, m: map<nat, Vec>, id: nat)
    requires ListOK(list, c, idToList, m)
    ensures ListOK(Retained(list, id), c, idToList - {id}, m - {id})
  {
    RetainedIs(list, id);
    var r := Retained(list, id);
    forall j | 0 <= j < |r| ensures r[j] in list && r[j].id != id {
      assert r[j] in r;
    }
  }

  lemma OtherListOK(list: seq<Entry>, c: nat, idToList: map<nat, nat>, m: map<nat, Vec>, id: nat)
    requires ListOK(list, c, idToList, m) && (id in idToList ==> idToList[id] != c)
    ensures ListOK(list, c, idToList - {id}, m - {id})
  {
  }

  lemma RemoveHolds(ix: Index, m: map<nat, Vec>, id: nat)
    requires Holds(ix, m)
    ensures Holds(Remove(ix, id), m - {id})
  {
    if id in m {
      var ix', c := Remove(ix, id), ix.idToList[id];
      RetainedListOK(ix.lists[c], c, ix.idToList, m, id);
      RetainedIs(ix.lists[c], id);
      forall d | 0 <= d < |ix'.lists| && d != c ensures ListOK(ix'.lists[d], d, ix'.idToList, m - {id}) {
        OtherListOK(ix.lists[d], d, ix.idToList, m, id);
      }
    } else {
      assert m - {id} == m;
    }
  }

  lemma PushedListOK(list: seq<Entry>, c: nat, idToList: map<nat, nat>, m: map<nat, Vec>, e: Entry, d: nat)
    requires ListOK(list, c, idToList, m) && e.id !in m && e.id !in idToList
    ensures ListOK(list, c, idToList[e.id := d], m[e.id := e.v])
    ensures c == d ==> ListOK(list + [e], c, idToList[e.id := d], m[e.id := e.v])
  {
  }

  lemma PushedHolds(ix: Index, m: map<nat, Vec>, c: nat, e: Entry)
    requires Holds(ix, m) && c < |ix.lists| && e.id !in m
    ensures Holds(Pushed(ix, c, e), m[e.id := e.v])
  {
    var ix', m' := Pushed(ix, c, e), m[e.id := e.v];
    forall d | 0 <= d < |ix'.lists| ensures ListOK(ix'.lists[d], d, ix'.idToList, m') {
      PushedListOK(ix.lists[d], d, ix.idToList, m, e, c);
    }
    forall id | id in m' ensures ix'.idToList[id] < |ix'.lists| && Entry(id, m'[id]) in ix'.lists[ix'.idToList[id]] {
      if id == e.id {
        assert ix'.lists[c][|ix.lists[c]|] == e;
      } else {
        assert Entry(id, m[id]) in ix.lists[ix.idToList[id]];
      }
    }
  }

  /** Inserting under an id replaces what the id held, whichever list that was in. */
  lemma InsertHolds(ix: Index, m: map<nat, Vec>, id: nat, v: Vec, unit: Vec)
    requires Holds(ix, m)
    ensures Holds(Insert(ix, id, v, unit), m[id := v])
  {
    RemoveHolds(ix, m, id);
    PushedHolds(Remove(ix, id), m - {id}, Nearest(ix.centroids, unit), Entry(id, v));
    assert (m - {id})[id := v] == m[id := v];
  }

  /** The bindings of a list of entries. */
  function AsMap(list: seq<Entry>): map<nat, Vec> {
    if list == [] then map[] else AsMap(list[..|list| - 1])[list[|list| - 1].id := list[|list| - 1].v]
  }

  lemma {:induction false} AsMapKeys(list: seq<Entry>)
    ensures forall id :: id in AsMap(list) <==> exists j :: 0 <= j < |list| && list[j].id == id
  {
    if list != [] {
      var init, n := list[..|list| - 1], |list| - 1;
      AsMapKeys(init);
      assert list[n].id in AsMap(list);
      forall id | exists j :: 0 <= j < |list| && list[j].id == id ensures id in AsMap(list) {
        var j :| 0 <= j < |list| && list[j].id == id;
        assert j < n ==> init[j].id == id;
      }
    }
  }

  lemma {:induction false} BuildHolds(centroids: seq<Vec>, vectors: seq<Entry>, units: seq<Vec>)
    requires centroids != [] && |units| == |vectors| && NoRepeats(vectors)
    ensures Holds(Build(centroids, vectors, units), AsMap(vectors))
  {
    if vectors != [] {
      var n := |vectors| - 1;
      BuildHolds(centroids, vectors[..n], units[..n]);
      BuildKeepsCentroids(centroids, vectors[..n], units[..n]);
      AsMapKeys(vectors[..n]);
      PushedHolds(Build(centroids, vectors[..n], units[..n]), AsMap(vectors[..n]), Nearest(centroids, units[n]), vectors[n]);
    }
  }

  lemma {:induction false} BuildKeepsCentroids(centroids: seq<Vec>, vectors: seq<Entry>, units: seq<Vec>)
    requires |units| == |vectors|
    ensures Build(centroids, vectors, units).centroids == centroids
  {
    if vectors != [] {
      BuildKeepsCentroids(centroids, vectors[..|vectors| - 1], units[..|vectors| - 1]);
    }
  }

  // ---------------------------------------------------------------- which list an entry is in

  /** Every id is in the list of the centroid nearest to its normalised vector. */
  ghost predicate WellPlaced(ix: Index, units: map<nat, Vec>) {
    forall id :: id in ix.idToList ==> id in units && ix.idToList[id] == Nearest(ix.centroids, units[id])
  }

  lemma RemoveStaysPlaced(ix: Index, units: map<nat, Vec>, id: nat)
    requires WellPlaced(ix, units)
    ensures WellPlaced(Remove(ix, id), units)
  {
  }

  lemma InsertStaysPlaced(ix: Index, m: map<nat, Vec>, units: map<nat, Vec>, id: nat, v: Vec, unit: Vec)
    requires Holds(ix, m) && WellPlaced(ix, units)
    ensures WellPlaced(Insert(ix, id, v, unit), units[id := unit])
  {
    RemoveHolds(ix, m, id);
  }

  function UnitsOf(vectors: seq<Entry>, units: seq<Vec>): map<nat, Vec>
    requires |units| == |vectors|
  {
    if vectors == [] then map[]
    else var n := |vectors| - 1; UnitsOf(vectors[..n], units[..n])[vectors[n].id := units[n]]
  }

  lemma {:induction false} BuildIsPlaced(centroids: seq<Vec>, vectors: seq<Entry>, units: seq<Vec>)
    requires |units| == |vectors| && centroids != []
    ensures WellPlaced(Build(centroids, vectors, units), UnitsOf(vectors, units))
  {
    BuildKeepsCentroids(centroids, vectors, units);
    if vectors != [] {
      var n := |vectors| - 1;
      BuildIsPlaced(centroids, vectors[..n], units[..n]);
      BuildKeepsCentroids(centroids, vectors[..n], units[..n]);
    }
  }
}
