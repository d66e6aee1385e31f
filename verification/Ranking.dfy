/** Ranking by score: a stable descending sort, and that score sequences depend only on what is ranked. */
module Ranking {
  import opened Permutations

  datatype Scored = Scored(key: nat, score: real)

  /** `x` placed after every entry that scores at least as much. */
  function Placed(s: seq<Scored>, x: Scored): seq<Scored> {
    if s == [] || s[|s| - 1].score >= x.score then s + [x]
    else Placed(s[..|s| - 1], x) + [s[|s| - 1]]
  }

  /** A stable sort by descending score. */
  function Ranked(s: seq<Scored>): seq<Scored> {
    if s == [] then [] else Placed(Ranked(s[..|s| - 1]), s[|s| - 1])
  }

  function Scores(s: seq<Scored>): (r: seq<real>)
    ensures |r| == |s| && forall i :: 0 <= i < |s| ==> r[i] == s[i].score
  {
    seq(|s|, i requires 0 <= i < |s| => s[i].score)
  }

  function Keys(s: seq<Scored>): (r: seq<nat>)
    ensures |r| == |s| && forall i :: 0 <= i < |s| ==> r[i] == s[i].key
  {
    seq(|s|, i requires 0 <= i < |s| => s[i].key)
  }

  function Take<T>(s: seq<T>, k: nat): (r: seq<T>)
    ensures |r| == if k <= |s| then k else |s|
    ensures forall i :: 0 <= i < |r| ==> r[i] == s[i]
  {
    if k <= |s| then s[..k] else s
  }

  ghost predicate Best(s: seq<Scored>) {
    forall i, j :: 0 <= i < j < |s| ==> s[i].score >= s[j].score
  }

  lemma {:induction false} PlacedPermutes(s: seq<Scored>, x: Scored)
    ensures multiset(Placed(s, x)) == multiset(s) + multiset{x}
  {
    if s != [] && s[|s| - 1].score < x.score {
      PlacedPermutes(s[..|s| - 1], x);
      assert s == s[..|s| - 1] + [s[|s| - 1]];
    }
  }

  /** Everything placed scores at least `low` if everything before did. */
  lemma {:induction false} PlacedBound(s: seq<Scored>, x: Scored, low: real)
    requires x.score >= low && forall i :: 0 <= i < |s| ==> s[i].score >= low
    ensures forall i :: 0 <= i < |Placed(s, x)| ==> Placed(s, x)[i].score >= low
  {
    if s != [] && s[|s| - 1].score < x.score {
      PlacedBound(s[..|s| - 1], x, low);
    }
  }

  lemma {:induction false} PlacedBest(s: seq<Scored>, x: Scored)
    requires Best(s)
    ensures Best(Placed(s, x))
  {
    if s != [] && s[|s| - 1].score < x.score {
      PlacedBest(s[..|s| - 1], x);
      PlacedBound(s[..|s| - 1], x, s[|s| - 1].score);
    }
  }

  /** Ranking permutes the entries and puts the scores in descending order. */
  lemma {:induction false} RankedIs(s: seq<Scored>)
    ensures multiset(Ranked(s)) == multiset(s) && Best(Ranked(s))
  {
    if s != [] {
      var init, last := s[..|s| - 1], s[|s| - 1];
      RankedIs(init);
      PlacedPermutes(Ranked(init), last);
      PlacedBest(Ranked(init), last);
      assert s == init + [last];
    }
  }

  /** Descending scores, and among equal ones ascending keys. */
  ghost predicate InRankOrder(s: seq<Scored>) {
    forall i, j :: 0 <= i < j < |s| ==> s[i].score > s[j].score || (s[i].score == s[j].score && s[i].key < s[j].key)
  }

  lemma {:induction false} PlacedInRankOrder(s: seq<Scored>, x: Scored)
    requires InRankOrder(s) && forall i :: 0 <= i < |s| ==> s[i].key < x.key
    ensures InRankOrder(Placed(s, x))
  {
    if s != [] && s[|s| - 1].score < x.score {
      var init, last := s[..|s| - 1], s[|s| - 1];
      PlacedInRankOrder(init, x);
      PlacedPermutes(init, x);
      var r := Placed(init, x);
      forall i | 0 <= i < |r| ensures r[i].score > last.score || (r[i].score == last.score && r[i].key < last.key) {
        assert r[i] in multiset(r);
        if r[i] != x {
          var k := Find(init, r[i]);
        }
      }
    }
  }

  /** The sort is stable: entries given in ascending order of their keys keep it among equal scores. */
  lemma {:induction false} RankedIsStable(s: seq<Scored>)
    requires forall i, j :: 0 <= i < j < |s| ==> s[i].key < s[j].key
    ensures InRankOrder(Ranked(s))
  {
    if s != [] {
      var init, last := s[..|s| - 1], s[|s| - 1];
      RankedIsStable(init);
      RankedIs(init);
      var r := Ranked(init);
      forall i | 0 <= i < |r| ensures r[i].key < last.key {
        assert r[i] in multiset(r);
        var k := Find(init, r[i]);
      }
      PlacedInRankOrder(r, last);
    }
  }

  // ---------------------------------------------------------------- the scores of a ranking

  lemma ScoresWithout(s: seq<Scored>, i: nat)
    requires i < |s|
    ensures multiset(Scores(s)) == multiset(Scores(Without(s, i))) + multiset{s[i].score}
  {
    WithoutMultiset(Scores(s), i);
    assert Scores(Without(s, i)) == Without(Scores(s), i);
  }

  /** Entries in another order have the same scores in another order. */
  lemma {:induction false} ScoresPermute(a: seq<Scored>, b: seq<Scored>)
    requires multiset(a) == multiset(b)
    ensures multiset(Scores(a)) == multiset(Scores(b))
    decreases |a|
  {
    SameLength(a, b);
    if a != [] {
      assert a[0] in multiset(a);
      var i := Find(b, a[0]);
      WithoutMultiset(a, 0);
      WithoutMultiset(b, i);
      ScoresPermute(Without(a, 0), Without(b, i));
      ScoresWithout(a, 0);
      ScoresWithout(b, i);
    }
  }

  ghost predicate Descending(s: seq<real>) {
    forall i, j :: 0 <= i < j < |s| ==> s[i] >= s[j]
  }

  lemma SameFirst(a: seq<real>, b: seq<real>)
    requires multiset(a) == multiset(b) && Descending(a) && Descending(b) && a != [] && b != []
    ensures a[0] == b[0]
  {
    assert a[0] in multiset(b) && b[0] in multiset(a);
    var i := Find(b, a[0]);
    var j := Find(a, b[0]);
  }

  /** A multiset of scores has one descending order. */
  lemma {:induction false} DescendingUnique(a: seq<real>, b: seq<real>)
    requires multiset(a) == multiset(b) && Descending(a) && Descending(b)
    ensures a == b
    decreases |a|
  {
    SameLength(a, b);
    if a != [] {
      SameFirst(a, b);
      WithoutMultiset(a, 0);
      WithoutMultiset(b, 0);
      DescendingUnique(Without(a, 0), Without(b, 0));
      forall k | 0 <= k < |a| ensures a[k] == b[k] {
        if k > 0 {
          assert Without(a, 0)[k - 1] == Without(b, 0)[k - 1];
        }
      }
    }
  }

  /** However the same scores were gathered, the best `k` are the same scores in the same order. */
  lemma SameBestScores(a: seq<Scored>, b: seq<Scored>, k: nat)
    requires multiset(Scores(a)) == multiset(Scores(b))
    ensures Scores(Take(Ranked(a), k)) == Scores(Take(Ranked(b), k))
  {
    RankedIs(a);
    RankedIs(b);
    ScoresPermute(Ranked(a), a);
    ScoresPermute(Ranked(b), b);
    DescendingUnique(Scores(Ranked(a)), Scores(Ranked(b)));
    TakeScores(Ranked(a), k);
    TakeScores(Ranked(b), k);
  }

  lemma TakeScores(s: seq<Scored>, k: nat)
    ensures Scores(Take(s, k)) == Take(Scores(s), k)
  {
  }
}
