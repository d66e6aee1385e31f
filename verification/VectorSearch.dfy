/** Searching an index: sound for any number of probes, and exact when every list is probed. */
module VectorSearch {
  import opened Permutations
  import opened Ranking
  import opened VectorIndex

  // ---------------------------------------------------------------- sequences without repeats

  lemma {:induction false} CountIsOne<T>(s: seq<T>, e: T)
    requires forall i, j :: 0 <= i < j < |s| ==> s[i] != s[j]
    ensures multiset(s)[e] == if e in s then 1 else 0
  {
    if s != [] {
      var init, last := s[..|s| - 1], s[|s| - 1];
      assert s == init + [last];
      CountIsOne(init, e);
    }
  }

  lemma CountIsTwo<T>(s: seq<T>, i: nat, j: nat)
    requires i < j < |s| && s[i] == s[j]
    ensures multiset(s)[s[i]] >= 2
  {
    WithoutMultiset(s, j);
    assert Without(s, j)[i] == s[i];
    assert s[i] in multiset(Without(s, j));
  }

  // ---------------------------------------------------------------- enumerations of a map

  /** `s` lists every binding of `m` once. */
  ghost predicate Enumerates(s: seq<Entry>, m: map<nat, Vec>) {
    && NoRepeats(s)
    && (forall j :: 0 <= j < |s| ==> s[j].id in m && m[s[j].id] == s[j].v)
    && forall id :: id in m ==> Entry(id, m[id]) in s
  }

  lemma EnumerationsPermute(a: seq<Entry>, b: seq<Entry>, m: map<nat, Vec>)
    requires Enumerates(a, m) && Enumerates(b, m)
    ensures multiset(a) == multiset(b)
  {
    forall e: Entry ensures multiset(a)[e] == multiset(b)[e] {
      CountIsOne(a, e);
      CountIsOne(b, e);
      assert e in a <==> e.id in m && m[e.id] == e.v;
      assert e in b <==> e.id in m && m[e.id] == e.v;
    }
  }

  lemma EntryScoresWithout(s: seq<Entry>, query: Vec, i: nat)
    requires i < |s|
    ensures multiset(Scores(ScoredEntries(s, query))) ==
            multiset(Scores(ScoredEntries(Without(s, i), query))) + multiset{Dot(s[i].v, query)}
  {
    ScoresWithout(ScoredEntries(s, query), i);
    assert ScoredEntries(Without(s, i), query) == Without(ScoredEntries(s, query), i);
  }

  lemma {:induction false} EntryScoresPermute(a: seq<Entry>, b: seq<Entry>, query: Vec)
    requires multiset(a) == multiset(b)
    ensures multiset(Scores(ScoredEntries(a, query))) == multiset(Scores(ScoredEntries(b, query)))
    decreases |a|
  {
    SameLength(a, b);
    if a != [] {
      assert a[0] in multiset(a);
      var i := Find(b, a[0]);
      WithoutMultiset(a, 0);
      WithoutMultiset(b, i);
      EntryScoresPermute(Without(a, 0), Without(b, i), query);
      EntryScoresWithout(a, query, 0);
      EntryScoresWithout(b, query, i);
    }
  }

  // ---------------------------------------------------------------- the probed lists

  ghost predicate DistinctBelow(order: seq<nat>, n: nat) {
    && (forall i :: 0 <= i < |order| ==> order[i] < n)
    && forall i, j :: 0 <= i < j < |order| ==> order[i] != order[j]
  }

  /** Ranking positions ranks each once. */
  lemma RankedPositions(vectors: seq<Vec>, query: Vec)
    ensures DistinctBelow(Keys(Ranked(ScoredVectors(vectors, query))), |vectors|)
    ensures forall c :: 0 <= c < |vectors| ==> c in Keys(Ranked(ScoredVectors(vectors, query)))
  {
    var s := ScoredVectors(vectors, query);
    var r := Ranked(s);
    RankedIs(s);
    forall i | 0 <= i < |r| ensures r[i] in s {
      assert r[i] in multiset(r);
    }
    forall i, j | 0 <= i < j < |r| ensures r[i].key != r[j].key {
      if r[i].key == r[j].key {
        assert r[i] == s[r[i].key] == s[r[j].key] == r[j];
        CountIsTwo(r, i, j);
        CountIsOne(s, r[i]);
      }
    }
    forall c | 0 <= c < |vectors| ensures c in Keys(r) {
      assert s[c] in multiset(s);
      var i := Find(r, s[c]);
      assert Keys(r)[i] == c;
    }
  }

  lemma ProbedDistinct(ix: Index, unitQuery: Vec, nprobe: nat)
    ensures DistinctBelow(Probed(ix, unitQuery, nprobe), |ix.centroids|)
  {
    RankedPositions(ix.centroids, unitQuery);
    var all := Keys(Ranked(ScoredVectors(ix.centroids, unitQuery)));
    var some := Probed(ix, unitQuery, nprobe);
    assert forall i :: 0 <= i < |some| ==> some[i] == all[i];
  }

  lemma ProbedAll(ix: Index, unitQuery: Vec, nprobe: nat)
    requires nprobe >= |ix.centroids| > 0
    ensures forall c :: 0 <= c < |ix.centroids| ==> c in Probed(ix, unitQuery, nprobe)
  {
    RankedPositions(ix.centroids, unitQuery);
    var r := Ranked(ScoredVectors(ix.centroids, unitQuery));
    RankedIs(ScoredVectors(ix.centroids, unitQuery));
    SameLength(r, ScoredVectors(ix.centroids, unitQuery));
    assert Take(r, |ix.centroids|) == r;
  }

  /** What the first probed lists hold: bindings, no id twice, all from those lists, and all of those lists. */
  lemma {:induction false} GatheredIs(ix: Index, m: map<nat, Vec>, order: seq<nat>)
    requires Holds(ix, m) && DistinctBelow(order, |ix.lists|)
    ensures var s := Gathered(ix.lists, order);
      && NoRepeats(s)
      && (forall j :: 0 <= j < |s| ==> s[j].id in m && m[s[j].id] == s[j].v && ix.idToList[s[j].id] in order)
      && (forall c, e :: c in order && e in ix.lists[c] ==> e in s)
  {
    if order != [] {
      var init, c := order[..|order| - 1], order[|order| - 1];
      assert order == init + [c];
      GatheredIs(ix, m, init);
      var s, list := Gathered(ix.lists, init), ix.lists[c];
      assert ListOK(list, c, ix.idToList, m);
      assert c !in init;
      forall i, j | 0 <= i < |s| && 0 <= j < |list| ensures s[i].id != list[j].id {
        assert ix.idToList[s[i].id] in init && ix.idToList[list[j].id] == c;
      }
    }
  }

  /** The bindings whose list is among those of `order`. */
  ghost function Reachable(ix: Index, m: map<nat, Vec>, order: seq<nat>): map<nat, Vec> {
    map id | id in m && id in ix.idToList && ix.idToList[id] in order :: m[id]
  }

  lemma GatheredReachable(ix: Index, m: map<nat, Vec>, order: seq<nat>)
    requires Holds(ix, m) && DistinctBelow(order, |ix.lists|)
    ensures Enumerates(Gathered(ix.lists, order), Reachable(ix, m, order))
  {
    GatheredIs(ix, m, order);
  }

  /** Position `a` ranks before position `b`: it scores higher, or as high and comes first. */
  ghost predicate RanksBefore(vectors: seq<Vec>, query: Vec, a: nat, b: nat)
    requires a < |vectors| && b < |vectors|
  {
    Dot(vectors[a], query) > Dot(vectors[b], query) || (Dot(vectors[a], query) == Dot(vectors[b], query) && a < b)
  }

  /** `top` are distinct positions, best first, and each ranks before every position left out. */
  ghost predicate BestPositions(vectors: seq<Vec>, query: Vec, top: seq<nat>) {
    && DistinctBelow(top, |vectors|)
    && (forall i, j :: 0 <= i < j < |top| ==> RanksBefore(vectors, query, top[i], top[j]))
    && (forall c, i :: 0 <= c < |vectors| && c !in top && 0 <= i < |top| ==> RanksBefore(vectors, query, top[i], c))
  }

  /** A ranking of positions pairs each position with its own score, in rank order. */
  lemma RankedPairs(vectors: seq<Vec>, query: Vec)
    ensures var r := Ranked(ScoredVectors(vectors, query));
      && |r| == |vectors| && (forall i :: 0 <= i < |r| ==> r[i].key < |vectors|)
      && (forall i, j :: 0 <= i < j < |r| ==> RanksBefore(vectors, query, r[i].key, r[j].key))
  {
    var s := ScoredVectors(vectors, query);
    var r := Ranked(s);
    RankedIs(s);
    RankedIsStable(s);
    SameLength(r, s);
    forall i | 0 <= i < |r| ensures r[i].key < |vectors| && r[i].score == Dot(vectors[r[i].key], query) {
      assert r[i] in multiset(r);
      var q := Find(s, r[i]);
    }
  }

  lemma FoundBeyond(all: seq<nat>, top: seq<nat>, c: nat) returns (j: nat)
    requires |top| <= |all| && (forall i :: 0 <= i < |top| ==> top[i] == all[i]) && c in all && c !in top
    ensures |top| <= j < |all| && all[j] == c
  {
    assert all == top + all[|top|..];
    var k :| 0 <= k < |all[|top|..]| && all[|top|..][k] == c;
    j := |top| + k;
  }

  lemma FirstAreBest(vectors: seq<Vec>, query: Vec, k: nat)
    ensures var top := Keys(Take(Ranked(ScoredVectors(vectors, query)), k));
      |top| == (if k <= |vectors| then k else |vectors|) && BestPositions(vectors, query, top)
  {
    var r := Ranked(ScoredVectors(vectors, query));
    var top := Keys(Take(r, k));
    RankedPairs(vectors, query);
    RankedPositions(vectors, query);
    assert forall i :: 0 <= i < |top| ==> top[i] == Keys(r)[i] == r[i].key;
    forall c, i | 0 <= c < |vectors| && c !in top && 0 <= i < |top| ensures RanksBefore(vectors, query, top[i], c) {
      var j := FoundBeyond(Keys(r), top, c);
    }
  }

  /** Exactly `nprobe` lists are probed, at least one and at most all: those whose centroids match the query best. */
  lemma ProbedExactly(ix: Index, unitQuery: Vec, nprobe: nat)
    requires ix.centroids != []
    ensures var p, n := Probed(ix, unitQuery, nprobe), |ix.centroids|;
      && |p| == (if nprobe < 1 then 1 else if nprobe > n then n else nprobe) && BestPositions(ix.centroids, unitQuery, p)
  {
    var n := |ix.centroids|;
    FirstAreBest(ix.centroids, unitQuery, if nprobe < 1 then 1 else if nprobe > n then n else nprobe);
  }

  /** The scan returns the best `k` positions, or all, best first; a tie goes to the earlier one. */
  lemma TopKIsBest(vectors: seq<Vec>, query: Vec, k: nat)
    ensures var top := TopK(vectors, query, k);
      |top| == (if k <= |vectors| then k else |vectors|) && BestPositions(vectors, query, top)
  {
    FirstAreBest(vectors, query, k);
  }

  // ---------------------------------------------------------------- the results

  /**
    Whatever is probed, a search returns live rows, none twice, scored by their own vectors,
    best first.
  */
  lemma SearchIsSound(ix: Index, m: map<nat, Vec>, query: Vec, unitQuery: Vec, k: nat, nprobe: nat)
    requires Holds(ix, m)
    ensures var r := SearchRanking(ix, query, unitQuery, k, nprobe);
      && |r| <= k && Best(r)
      && (forall i :: 0 <= i < |r| ==> r[i].key in m && r[i].score == Dot(m[r[i].key], query))
      && (forall i, j :: 0 <= i < j < |r| ==> r[i].key != r[j].key)
  {
    var order := Probed(ix, unitQuery, nprobe);
    ProbedDistinct(ix, unitQuery, nprobe);
    GatheredIs(ix, m, order);
    RankedEntries(Gathered(ix.lists, order), m, query);
  }

  lemma RankedEntries(list: seq<Entry>, m: map<nat, Vec>, query: Vec)
    requires NoRepeats(list) && forall j :: 0 <= j < |list| ==> list[j].id in m && m[list[j].id] == list[j].v
    ensures var r := Ranked(ScoredEntries(list, query));
      && Best(r)
      && (forall i :: 0 <= i < |r| ==> r[i].key in m && r[i].score == Dot(m[r[i].key], query))
      && (forall i, j :: 0 <= i < j < |r| ==> r[i].key != r[j].key)
  {
    var s := ScoredEntries(list, query);
    var r := Ranked(s);
    RankedIs(s);
    forall i | 0 <= i < |r| ensures r[i] in s {
      assert r[i] in multiset(r);
    }
    forall i, j | 0 <= i < j < |r| ensures r[i].key != r[j].key {
      if r[i].key == r[j].key {
        assert r[i] == r[j];
        CountIsTwo(r, i, j);
        CountIsOne(s, r[i]);
      }
    }
  }

  function Vectors(rows: seq<Entry>): (r: seq<Vec>)
    ensures |r| == |rows| && forall i :: 0 <= i < |rows| ==> r[i] == rows[i].v
  {
    seq(|rows|, i requires 0 <= i < |rows| => rows[i].v)
  }

  lemma TopKRanking(rows: seq<Entry>, query: Vec, k: nat)
    ensures Scores(Take(Ranked(ScoredVectors(Vectors(rows), query)), k)) == Scores(Take(Ranked(ScoredEntries(rows, query)), k))
  {
    var a, b := ScoredVectors(Vectors(rows), query), ScoredEntries(rows, query);
    assert Scores(a) == Scores(b);
    SameBestScores(a, b, k);
  }

  /**
    Whatever is probed, the search is exact on what it can reach: the scores found, in order, are
    those of the brute-force scan over any enumeration of the rows whose list is probed.
  */
  lemma SearchIsExactWithin(ix: Index, m: map<nat, Vec>, rows: seq<Entry>, query: Vec, unitQuery: Vec, k: nat, nprobe: nat)
    requires Holds(ix, m) && Enumerates(rows, Reachable(ix, m, Probed(ix, unitQuery, nprobe)))
    ensures Scores(SearchRanking(ix, query, unitQuery, k, nprobe)) ==
            Scores(Take(Ranked(ScoredVectors(Vectors(rows), query)), k))
  {
    var order := Probed(ix, unitQuery, nprobe);
    ProbedDistinct(ix, unitQuery, nprobe);
    GatheredReachable(ix, m, order);
    var found := Gathered(ix.lists, order);
    EnumerationsPermute(found, rows, Reachable(ix, m, order));
    EntryScoresPermute(found, rows, query);
    SameBestScores(ScoredEntries(found, query), ScoredEntries(rows, query), k);
    TopKRanking(rows, query, k);
  }

  /** So probing every list is exact over all rows. */
  lemma SearchIsExact(ix: Index, m: map<nat, Vec>, rows: seq<Entry>, query: Vec, unitQuery: Vec, k: nat, nprobe: nat)
    requires Holds(ix, m) && Enumerates(rows, m) && nprobe >= |ix.centroids|
    ensures Scores(SearchRanking(ix, query, unitQuery, k, nprobe)) ==
            Scores(Take(Ranked(ScoredVectors(Vectors(rows), query)), k))
  {
    ProbedAll(ix, unitQuery, nprobe);
    assert Reachable(ix, m, Probed(ix, unitQuery, nprobe)) == m;
    SearchIsExactWithin(ix, m, rows, query, unitQuery, k, nprobe);
  }

  /**
    Which rows a search reaches in a well placed index: those whose nearest centroid is among the
    probed ones, which are the `nprobe` best matches of the query.
  */
  lemma ReachableIs(ix: Index, m: map<nat, Vec>, units: map<nat, Vec>, unitQuery: Vec, nprobe: nat, id: nat)
    requires Holds(ix, m) && WellPlaced(ix, units)
    ensures id in Reachable(ix, m, Probed(ix, unitQuery, nprobe)) <==>
            id in m && id in units && Nearest(ix.centroids, units[id]) in Probed(ix, unitQuery, nprobe)
  {
  }

  /** The same on the returned ids, position by position, with as many as `k` and the reachable rows allow. */
  lemma SearchMatchesTopKWithin(ix: Index, m: map<nat, Vec>, rows: seq<Entry>, query: Vec, unitQuery: Vec, k: nat, nprobe: nat)
    requires Holds(ix, m) && Enumerates(rows, Reachable(ix, m, Probed(ix, unitQuery, nprobe)))
    ensures var found, top := Search(ix, query, unitQuery, k, nprobe), TopK(Vectors(rows), query, k);
      && |found| == |top| == (if k <= |rows| then k else |rows|)
      && (forall i :: 0 <= i < |found| ==> found[i] in m && top[i] < |rows| && Dot(m[found[i]], query) == Dot(rows[top[i]].v, query))
  {
    SearchIsExactWithin(ix, m, rows, query, unitQuery, k, nprobe);
    SearchIsSound(ix, m, query, unitQuery, k, nprobe);
    ScanPositions(rows, query, k);
    var r := SearchRanking(ix, query, unitQuery, k, nprobe);
    var t := Take(Ranked(ScoredVectors(Vectors(rows), query)), k);
    assert |Scores(r)| == |Scores(t)|;
    assert forall i :: 0 <= i < |r| ==> r[i].score == Scores(r)[i] == Scores(t)[i] == t[i].score;
  }

  lemma ScanPositions(rows: seq<Entry>, query: Vec, k: nat)
    ensures var t := Take(Ranked(ScoredVectors(Vectors(rows), query)), k);
      && |t| == (if k <= |rows| then k else |rows|)
      && forall i :: 0 <= i < |t| ==> t[i].key < |rows| && t[i].score == Dot(rows[t[i].key].v, query)
  {
    var s := ScoredVectors(Vectors(rows), query);
    RankedIs(s);
    SameLength(Ranked(s), s);
    forall i | 0 <= i < |Ranked(s)| ensures Ranked(s)[i] in s {
      assert Ranked(s)[i] in multiset(Ranked(s));
    }
  }

  /** And over all rows when every list is probed. */
  lemma SearchMatchesTopK(ix: Index, m: map<nat, Vec>, rows: seq<Entry>, query: Vec, unitQuery: Vec, k: nat, nprobe: nat)
    requires Holds(ix, m) && Enumerates(rows, m) && nprobe >= |ix.centroids|
    ensures var found, top := Search(ix, query, unitQuery, k, nprobe), TopK(Vectors(rows), query, k);
      && |found| == |top| == (if k <= |rows| then k else |rows|)
      && (forall i :: 0 <= i < |found| ==> found[i] in m && top[i] < |rows| && Dot(m[found[i]], query) == Dot(rows[top[i]].v, query))
  {
    ProbedAll(ix, unitQuery, nprobe);
    assert Reachable(ix, m, Probed(ix, unitQuery, nprobe)) == m;
    SearchMatchesTopKWithin(ix, m, rows, query, unitQuery, k, nprobe);
  }
}
