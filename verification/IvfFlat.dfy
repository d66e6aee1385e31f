/** The IVFFlat index as an object updated in place, and the indexes of a table kept in step with its rows. */
module IvfFlat {
  import opened Ranking
  import opened VectorIndex
  import opened VectorSearch

  const MIN_ROWS_FOR_INDEX: nat := 1000

  /** How many lists to use for `n` vectors: the integer square root, kept between 1 and 256. */
  method NlistFor(n: nat) returns (r: nat)
    ensures 1 <= r <= 256
    ensures r * r <= n || r == 1
    ensures n < (r + 1) * (r + 1) || r == 256
  {
    var lo, hi := 0, n;
    while lo < hi
      invariant 0 <= lo <= hi <= n && lo * lo <= n < (hi + 1) * (hi + 1)
    {
      var mid := lo + (hi - lo + 1) / 2;
      if mid * mid <= n {
        lo := mid;
      } else {
        hi := mid - 1;
      }
    }
    r := if lo < 1 then 1 else if lo > 256 then 256 else lo;
  }

  class IvfFlatIndex {
    var centroids: seq<Vec>
    var lists: seq<seq<Entry>>
    var idToList: map<nat, nat>

    /** The bindings the index stands for. */
    ghost var contents: map<nat, Vec>

    ghost function State(): Index
      reads this
    {
      Index(centroids, lists, idToList)
    }

    ghost predicate Valid()
      reads this
    {
      Holds(State(), contents)
    }

    /** Distributes the vectors over the lists of the centroids that clustering chose. */
    constructor (vectors: seq<Entry>, units: seq<Vec>, centroids: seq<Vec>)
      requires vectors != [] && centroids != [] && |units| == |vectors| && NoRepeats(vectors)
      ensures Valid() && contents == AsMap(vectors) && State() == Build(centroids, vectors, units)
    {
      this.centroids := centroids;
      lists := seq(|centroids|, _ => []);
      idToList := map[];
      contents := AsMap(vectors);
      new;
      var i := 0;
      while i < |vectors|
        invariant 0 <= i <= |vectors| && State() == Build(centroids, vectors[..i], units[..i])
        invariant this.centroids == centroids && contents == AsMap(vectors)
      {
        assert vectors[..i + 1][..i] == vectors[..i] && units[..i + 1][..i] == units[..i];
        var c := Nearest(centroids, units[i]);
        lists := lists[c := lists[c] + [vectors[i]]];
        idToList := idToList[vectors[i].id := c];
        i := i + 1;
      }
      assert vectors[..i] == vectors && units[..i] == units;
      BuildHolds(centroids, vectors, units);
    }

    method RemoveId(id: nat)
      requires Valid()
      modifies this
      ensures Valid() && contents == old(contents) - {id} && State() == Remove(old(State()), id)
    {
      RemoveHolds(State(), contents, id);
      if id in idToList {
        var c := idToList[id];
        lists := lists[c := Retained(lists[c], id)];
        idToList := idToList - {id};
      }
      contents := contents - {id};
    }

    method InsertVector(id: nat, v: Vec, unit: Vec)
      requires Valid()
      modifies this
      ensures Valid() && contents == old(contents)[id := v] && State() == Insert(old(State()), id, v, unit)
    {
      ghost var before, was := State(), contents;
      RemoveId(id);
      Push(Nearest(centroids, unit), Entry(id, v));
      contents := contents[id := v];
      assert contents == was[id := v] && State() == Insert(before, id, v, unit);
      InsertHolds(before, was, id, v, unit);
    }

    method Push(c: nat, e: Entry)
      requires c < |lists|
      modifies this`lists, this`idToList
      ensures State() == Pushed(old(State()), c, e)
    {
      lists := lists[c := lists[c] + [e]];
      idToList := idToList[e.id := c];
    }

    /** Collects the entries of the probed lists, then ranks them. */
    method FindNearest(query: Vec, unitQuery: Vec, k: nat, nprobe: nat) returns (ids: seq<nat>)
      requires Valid()
      ensures ids == Search(State(), query, unitQuery, k, nprobe)
      ensures |ids| <= k && (forall i :: 0 <= i < |ids| ==> ids[i] in contents)
      ensures forall i, j :: 0 <= i < j < |ids| ==> ids[i] != ids[j] && Dot(contents[ids[i]], query) >= Dot(contents[ids[j]], query)
    {
      var order := Probed(Index(centroids, lists, idToList), unitQuery, nprobe);
      var found, i := [], 0;
      while i < |order|
        invariant 0 <= i <= |order| && found == Gathered(lists, order[..i])
      {
        assert order[..i + 1][..i] == order[..i];
        found := found + if order[i] < |lists| then lists[order[i]] else [];
        i := i + 1;
      }
      assert order[..i] == order;
      SearchIsSound(State(), contents, query, unitQuery, k, nprobe);
      ids := Keys(Take(Ranked(ScoredEntries(found, query)), k));
    }
  }
}
