/** Which pairs of rows a join returns, each once, and in which order. */
module JoinOrder {
  import opened Common
  import opened Values
  import opened Joins

  /** A row of the output by where it comes from: a row of the outer loop, with its match or with none. */
  datatype Source = Source(outer: nat, partner: Option<nat>)

  ghost predicate Before(a: Source, b: Source) {
    a.outer < b.outer || (a.outer == b.outer && a.partner.Some? && b.partner.Some? && a.partner.value < b.partner.value)
  }

  ghost predicate InOrder(es: seq<Source>) {
    forall x, y :: 0 <= x < y < |es| ==> Before(es[x], es[y])
  }

  ghost predicate Ascending(ixs: seq<nat>) {
    forall x, y :: 0 <= x < y < |ixs| ==> ixs[x] < ixs[y]
  }

  // ---------------------------------------------------------------- the matches of one row

  ghost function MatchingRights<E>(l: Row, right: seq<Row>, on: Condition<E>): seq<nat> {
    if right == [] then []
    else var n := |right| - 1; MatchingRights(l, right[..n], on) + if Holds(on, l + right[n]) then [n] else []
  }

  /** Appending a larger index keeps the order. */
  lemma OneMoreIndex(ixs: seq<nat>, n: nat)
    requires Ascending(ixs) && forall i :: i in ixs ==> i < n
    ensures Ascending(ixs + [n]) && forall i :: i in ixs + [n] <==> i in ixs || i == n
  {
    forall k | 0 <= k < |ixs| ensures ixs[k] < n {
      assert ixs[k] in ixs;
    }
  }

  lemma {:induction false} MatchingRightsAre<E>(l: Row, right: seq<Row>, on: Condition<E>)
    ensures Ascending(MatchingRights(l, right, on))
    ensures forall j :: j in MatchingRights(l, right, on) <==> 0 <= j < |right| && Holds(on, l + right[j])
  {
    if right != [] {
      var n := |right| - 1;
      MatchingRightsAre(l, right[..n], on);
      OneMoreIndex(MatchingRights(l, right[..n], on), n);
      forall j ensures j in MatchingRights(l, right, on) <==> 0 <= j < |right| && Holds(on, l + right[j]) {
        assert 0 <= j < n ==> right[..n][j] == right[j];
      }
    }
  }

  lemma {:induction false} MatchingRightsRows<E>(l: Row, right: seq<Row>, on: Condition<E>)
    ensures var js, rows := MatchingRights(l, right, on), MatchesOfLeft(l, right, on);
      |rows| == |js| && forall k :: 0 <= k < |js| ==> js[k] < |right| && rows[k] == l + right[js[k]]
  {
    if right != [] {
      var n := |right| - 1;
      MatchingRightsRows(l, right[..n], on);
      var js, rows := MatchingRights(l, right, on), MatchesOfLeft(l, right, on);
      var js0, rows0 := MatchingRights(l, right[..n], on), MatchesOfLeft(l, right[..n], on);
      forall k | 0 <= k < |js| ensures js[k] < |right| && rows[k] == l + right[js[k]] {
        if k < |js0| {
          assert js[k] == js0[k] && rows[k] == rows0[k] && right[..n][js0[k]] == right[js0[k]];
        }
      }
    }
  }

  ghost function MatchingLefts<E>(left: seq<Row>, r: Row, on: Condition<E>): seq<nat> {
    if left == [] then []
    else var n := |left| - 1; MatchingLefts(left[..n], r, on) + if Holds(on, left[n] + r) then [n] else []
  }

  lemma {:induction false} MatchingLeftsAre<E>(left: seq<Row>, r: Row, on: Condition<E>)
    ensures Ascending(MatchingLefts(left, r, on))
    ensures forall i :: i in MatchingLefts(left, r, on) <==> 0 <= i < |left| && Holds(on, left[i] + r)
  {
    if left != [] {
      var n := |left| - 1;
      MatchingLeftsAre(left[..n], r, on);
      OneMoreIndex(MatchingLefts(left[..n], r, on), n);
      forall i ensures i in MatchingLefts(left, r, on) <==> 0 <= i < |left| && Holds(on, left[i] + r) {
        assert 0 <= i < n ==> left[..n][i] == left[i];
      }
    }
  }

  lemma {:induction false} MatchingLeftsRows<E>(left: seq<Row>, r: Row, on: Condition<E>)
    ensures var ixs, rows := MatchingLefts(left, r, on), MatchesOfRight(left, r, on);
      |rows| == |ixs| && forall k :: 0 <= k < |ixs| ==> ixs[k] < |left| && rows[k] == left[ixs[k]] + r
  {
    if left != [] {
      var n := |left| - 1;
      MatchingLeftsRows(left[..n], r, on);
      var ixs, rows := MatchingLefts(left, r, on), MatchesOfRight(left, r, on);
      var ixs0, rows0 := MatchingLefts(left[..n], r, on), MatchesOfRight(left[..n], r, on);
      forall k | 0 <= k < |ixs| ensures ixs[k] < |left| && rows[k] == left[ixs[k]] + r {
        if k < |ixs0| {
          assert ixs[k] == ixs0[k] && rows[k] == rows0[k] && left[..n][ixs0[k]] == left[ixs0[k]];
        }
      }
    }
  }

  // ---------------------------------------------------------------- one row of the outer loop after another

  /** The sources of one outer row. */
  ghost function SourcesOf(i: nat, ms: seq<nat>, pad: bool): (r: seq<Source>)
    ensures |r| == if ms == [] && pad then 1 else |ms|
    ensures forall k :: 0 <= k < |ms| ==> r[k] == Source(i, Some(ms[k]))
    ensures ms == [] && pad ==> r == [Source(i, None)]
  {
    if ms == [] && pad then [Source(i, None)] else seq(|ms|, k requires 0 <= k < |ms| => Source(i, Some(ms[k])))
  }

  lemma Extends(es: seq<Source>, i: nat, ms: seq<nat>, pad: bool)
    requires InOrder(es) && (forall e :: e in es ==> e.outer < i) && Ascending(ms)
    ensures InOrder(es + SourcesOf(i, ms, pad))
    ensures forall e :: e in SourcesOf(i, ms, pad) <==> e.outer == i && if e.partner.Some? then e.partner.value in ms else pad && ms == []
  {
    var more := SourcesOf(i, ms, pad);
    forall x | 0 <= x < |es| ensures es[x].outer < i {
      assert es[x] in es;
    }
    forall e: Source | e.outer == i && e.partner.Some? && e.partner.value in ms ensures e in more {
      var k :| 0 <= k < |ms| && ms[k] == e.partner.value;
      assert more[k] == e;
    }
  }

  ghost function LeftSources<E>(left: seq<Row>, right: seq<Row>, on: Condition<E>, pad: bool): seq<Source> {
    if left == [] then []
    else var n := |left| - 1; LeftSources(left[..n], right, on, pad) + SourcesOf(n, MatchingRights(left[n], right, on), pad)
  }

  /** Exactly the matches of each left row, and the row alone if it has none and is to be padded. */
  ghost predicate IsLeftSource<E>(left: seq<Row>, right: seq<Row>, on: Condition<E>, pad: bool, e: Source) {
    e.outer < |left| &&
    match e.partner
    case Some(j) => j < |right| && Holds(on, left[e.outer] + right[j])
    case None => pad && !MatchesSomeRight(left[e.outer], right, on)
  }

  lemma {:induction false} LeftSourcesAre<E>(left: seq<Row>, right: seq<Row>, on: Condition<E>, pad: bool)
    ensures InOrder(LeftSources(left, right, on, pad))
    ensures forall e :: e in LeftSources(left, right, on, pad) <==> IsLeftSource(left, right, on, pad, e)
  {
    if left != [] {
      var n := |left| - 1;
      LeftSourcesAre(left[..n], right, on, pad);
      MatchingRightsAre(left[n], right, on);
      Extends(LeftSources(left[..n], right, on, pad), n, MatchingRights(left[n], right, on), pad);
      NoMatchingRights(left[n], right, on);
      forall e ensures e in LeftSources(left, right, on, pad) <==> IsLeftSource(left, right, on, pad, e) {
        assert e.outer < n ==> left[..n][e.outer] == left[e.outer];
      }
    }
  }

  lemma NoMatchingRights<E>(l: Row, right: seq<Row>, on: Condition<E>)
    ensures MatchingRights(l, right, on) == [] <==> !MatchesSomeRight(l, right, on)
  {
    MatchingRightsAre(l, right, on);
    var js := MatchingRights(l, right, on);
    if js != [] {
      assert js[0] in js;
    }
  }

  // ---------------------------------------------------------------- rows by their sources

  /** The rows are those of the sources, in their order. */
  ghost predicate Lists(rows: seq<Row>, es: seq<Source>, rowOf: Source -> Row) {
    |rows| == |es| && forall k :: 0 <= k < |es| ==> rows[k] == rowOf(es[k])
  }

  lemma ListsAlike(rows: seq<Row>, es: seq<Source>, f: Source -> Row, g: Source -> Row)
    requires Lists(rows, es, f) && forall e :: e in es ==> g(e) == f(e)
    ensures Lists(rows, es, g)
  {
    forall k | 0 <= k < |es| ensures rows[k] == g(es[k]) {
      assert es[k] in es;
    }
  }

  lemma ListsJoined(a: seq<Row>, es: seq<Source>, b: seq<Row>, fs: seq<Source>, f: Source -> Row)
    requires Lists(a, es, f) && Lists(b, fs, f)
    ensures Lists(a + b, es + fs, f)
  {
  }

  /** The row of a left row and its partner on the right. */
  ghost function LeftRow(left: seq<Row>, right: seq<Row>, nulls: Row): Source -> Row {
    (e: Source) =>
      if e.outer >= |left| then []
      else if e.partner.None? then left[e.outer] + nulls
      else if e.partner.value < |right| then left[e.outer] + right[e.partner.value]
      else []
  }

  lemma LastListed<E>(left: seq<Row>, right: seq<Row>, on: Condition<E>, pad: bool, nulls: Row)
    requires left != []
    ensures var n := |left| - 1; var m := MatchesOfLeft(left[n], right, on);
      Lists(if pad then Padded(m, left[n] + nulls) else m, SourcesOf(n, MatchingRights(left[n], right, on), pad), LeftRow(left, right, nulls))
  {
    var n := |left| - 1;
    MatchingRightsRows(left[n], right, on);
    OuterListed(MatchesOfLeft(left[n], right, on), n, MatchingRights(left[n], right, on), pad, left[n] + nulls, LeftRow(left, right, nulls));
  }

  /** The rows of one outer row are those of its sources. */
  lemma OuterListed(matches: seq<Row>, i: nat, ms: seq<nat>, pad: bool, padded: Row, rowOf: Source -> Row)
    requires |matches| == |ms| && (forall k :: 0 <= k < |ms| ==> matches[k] == rowOf(Source(i, Some(ms[k])))) && rowOf(Source(i, None)) == padded
    ensures Lists(if pad then Padded(matches, padded) else matches, SourcesOf(i, ms, pad), rowOf)
  {
  }

  lemma EarlierLefts<E>(left: seq<Row>, right: seq<Row>, on: Condition<E>, pad: bool, nulls: Row, rows: seq<Row>)
    requires left != [] && var n := |left| - 1; Lists(rows, LeftSources(left[..n], right, on, pad), LeftRow(left[..n], right, nulls))
    ensures Lists(rows, LeftSources(left[..|left| - 1], right, on, pad), LeftRow(left, right, nulls))
  {
    var n := |left| - 1;
    LeftSourcesAre(left[..n], right, on, pad);
    ListsAlike(rows, LeftSources(left[..n], right, on, pad), LeftRow(left[..n], right, nulls), LeftRow(left, right, nulls));
  }

  /** An INNER join returns each matching pair once, in the order of the left and then of the right rows. */
  lemma {:induction false} InnerInOrder<E>(left: seq<Row>, right: seq<Row>, on: Condition<E>)
    ensures Lists(Inner(left, right, on), LeftSources(left, right, on, false), LeftRow(left, right, []))
  {
    if left != [] {
      var n := |left| - 1;
      InnerInOrder(left[..n], right, on);
      EarlierLefts(left, right, on, false, [], Inner(left[..n], right, on));
      LastListed(left, right, on, false, []);
      ListsJoined(Inner(left[..n], right, on), LeftSources(left[..n], right, on, false), MatchesOfLeft(left[n], right, on),
                  SourcesOf(n, MatchingRights(left[n], right, on), false), LeftRow(left, right, []));
    }
  }

  /** A LEFT join returns in the same order each matching pair once, and each left row without a match once, padded. */
  lemma {:induction false} LeftInOrder<E>(left: seq<Row>, right: seq<Row>, on: Condition<E>, nulls: Row)
    ensures Lists(LeftOuter(left, right, on, nulls), LeftSources(left, right, on, true), LeftRow(left, right, nulls))
  {
    if left != [] {
      var n := |left| - 1;
      LeftInOrder(left[..n], right, on, nulls);
      EarlierLefts(left, right, on, true, nulls, LeftOuter(left[..n], right, on, nulls));
      LastListed(left, right, on, true, nulls);
      ListsJoined(LeftOuter(left[..n], right, on, nulls), LeftSources(left[..n], right, on, true),
                  Padded(MatchesOfLeft(left[n], right, on), left[n] + nulls),
                  SourcesOf(n, MatchingRights(left[n], right, on), true), LeftRow(left, right, nulls));
    }
  }

  // ---------------------------------------------------------------- the right rows as the outer loop

  ghost function RightSources<E>(left: seq<Row>, right: seq<Row>, on: Condition<E>): seq<Source> {
    if right == [] then []
    else var n := |right| - 1; RightSources(left, right[..n], on) + SourcesOf(n, MatchingLefts(left, right[n], on), true)
  }

  /** Exactly the matches of each right row, and the row alone if it has none. */
  ghost predicate IsRightSource<E>(left: seq<Row>, right: seq<Row>, on: Condition<E>, e: Source) {
    e.outer < |right| &&
    match e.partner
    case Some(i) => i < |left| && Holds(on, left[i] + right[e.outer])
    case None => !MatchesSomeLeft(left, right[e.outer], on)
  }

  lemma NoMatchingLefts<E>(left: seq<Row>, r: Row, on: Condition<E>)
    ensures MatchingLefts(left, r, on) == [] <==> !MatchesSomeLeft(left, r, on)
  {
    MatchingLeftsAre(left, r, on);
    var ixs := MatchingLefts(left, r, on);
    if ixs != [] {
      assert ixs[0] in ixs;
    }
  }

  lemma {:induction false} RightSourcesAre<E>(left: seq<Row>, right: seq<Row>, on: Condition<E>)
    ensures InOrder(RightSources(left, right, on))
    ensures forall e :: e in RightSources(left, right, on) <==> IsRightSource(left, right, on, e)
  {
    if right != [] {
      var n := |right| - 1;
      RightSourcesAre(left, right[..n], on);
      MatchingLeftsAre(left, right[n], on);
      Extends(RightSources(left, right[..n], on), n, MatchingLefts(left, right[n], on), true);
      NoMatchingLefts(left, right[n], on);
      forall e ensures e in RightSources(left, right, on) <==> IsRightSource(left, right, on, e) {
        assert e.outer < n ==> right[..n][e.outer] == right[e.outer];
      }
    }
  }

  ghost function RightRow(left: seq<Row>, right: seq<Row>, nulls: Row): Source -> Row {
    (e: Source) =>
      if e.outer >= |right| then []
      else if e.partner.None? then nulls + right[e.outer]
      else if e.partner.value < |left| then left[e.partner.value] + right[e.outer]
      else []
  }

  lemma LastRightListed<E>(left: seq<Row>, right: seq<Row>, on: Condition<E>, nulls: Row)
    requires right != []
    ensures var n := |right| - 1;
      Lists(Padded(MatchesOfRight(left, right[n], on), nulls + right[n]), SourcesOf(n, MatchingLefts(left, right[n], on), true), RightRow(left, right, nulls))
  {
    var n := |right| - 1;
    MatchingLeftsRows(left, right[n], on);
    OuterListed(MatchesOfRight(left, right[n], on), n, MatchingLefts(left, right[n], on), true, nulls + right[n], RightRow(left, right, nulls));
  }

  /** A RIGHT join goes by the right rows: each with its matches in the order of the left rows, or once, padded. */
  lemma {:induction false} RightInOrder<E>(left: seq<Row>, right: seq<Row>, on: Condition<E>, nulls: Row)
    ensures Lists(RightOuter(left, right, on, nulls), RightSources(left, right, on), RightRow(left, right, nulls))
  {
    if right != [] {
      var n := |right| - 1;
      RightInOrder(left, right[..n], on, nulls);
      RightSourcesAre(left, right[..n], on);
      ListsAlike(RightOuter(left, right[..n], on, nulls), RightSources(left, right[..n], on), RightRow(left, right[..n], nulls), RightRow(left, right, nulls));
      LastRightListed(left, right, on, nulls);
      ListsJoined(RightOuter(left, right[..n], on, nulls), RightSources(left, right[..n], on),
                  Padded(MatchesOfRight(left, right[n], on), nulls + right[n]),
                  SourcesOf(n, MatchingLefts(left, right[n], on), true), RightRow(left, right, nulls));
    }
  }

  // ---------------------------------------------------------------- FULL

  /** `rows` are the rows without a match, each once and in order, padded. */
  ghost predicate ListsLoneLefts<E>(rows: seq<Row>, ixs: seq<nat>, left: seq<Row>, right: seq<Row>, on: Condition<E>, nulls: Row) {
    && Ascending(ixs) && (forall i :: i in ixs <==> 0 <= i < |left| && !MatchesSomeRight(left[i], right, on))
    && |rows| == |ixs| && forall k :: 0 <= k < |ixs| ==> ixs[k] < |left| && rows[k] == left[ixs[k]] + nulls
  }

  ghost predicate ListsLoneRights<E>(rows: seq<Row>, ixs: seq<nat>, left: seq<Row>, right: seq<Row>, on: Condition<E>, nulls: Row) {
    && Ascending(ixs) && (forall j :: j in ixs <==> 0 <= j < |right| && !MatchesSomeLeft(left, right[j], on))
    && |rows| == |ixs| && forall k :: 0 <= k < |ixs| ==> ixs[k] < |right| && rows[k] == nulls + right[ixs[k]]
  }

  lemma {:induction false} LoneLeftsInOrder<E>(left: seq<Row>, right: seq<Row>, on: Condition<E>, nulls: Row) returns (ixs: seq<nat>)
    ensures ListsLoneLefts(LoneLeft(left, right, on, nulls), ixs, left, right, on, nulls)
  {
    ixs := [];
    if left != [] {
      var n := |left| - 1;
      ixs := LoneLeftsInOrder(left[..n], right, on, nulls);
      MatchesOfLeftIs(left[n], right, on);
      OneMoreIndex(ixs, n);
      var rows, init := LoneLeft(left[..n], right, on, nulls), ixs;
      if MatchesOfLeft(left[n], right, on) == [] {
        ixs := ixs + [n];
        rows := rows + [left[n] + nulls];
      }
      LoneLeftStep(left, right, on, nulls, init, ixs, rows);
    }
  }

  lemma LoneLeftStep<E>(left: seq<Row>, right: seq<Row>, on: Condition<E>, nulls: Row, init: seq<nat>, ixs: seq<nat>, rows: seq<Row>)
    requires left != [] && ListsLoneLefts(LoneLeft(left[..|left| - 1], right, on, nulls), init, left[..|left| - 1], right, on, nulls)
    requires Ascending(ixs) && rows == LoneLeft(left, right, on, nulls)
    requires ixs == init + if MatchesSomeRight(left[|left| - 1], right, on) then [] else [|left| - 1]
    requires rows == LoneLeft(left[..|left| - 1], right, on, nulls) + if MatchesSomeRight(left[|left| - 1], right, on) then [] else [left[|left| - 1] + nulls]
    ensures ListsLoneLefts(rows, ixs, left, right, on, nulls)
  {
    var n := |left| - 1;
    forall i ensures i in ixs <==> 0 <= i < |left| && !MatchesSomeRight(left[i], right, on) {
      assert 0 <= i < n ==> left[..n][i] == left[i];
    }
    forall k | 0 <= k < |ixs| ensures ixs[k] < |left| && rows[k] == left[ixs[k]] + nulls {
      if k < |init| {
        assert left[..n][init[k]] == left[init[k]];
      }
    }
  }

  lemma {:induction false} LoneRightsInOrder<E>(left: seq<Row>, right: seq<Row>, on: Condition<E>, nulls: Row) returns (ixs: seq<nat>)
    ensures ListsLoneRights(LoneRight(left, right, on, nulls), ixs, left, right, on, nulls)
  {
    ixs := [];
    if right != [] {
      var n := |right| - 1;
      ixs := LoneRightsInOrder(left, right[..n], on, nulls);
      MatchesOfRightIs(left, right[n], on);
      OneMoreIndex(ixs, n);
      var rows, init := LoneRight(left, right[..n], on, nulls), ixs;
      if MatchesOfRight(left, right[n], on) == [] {
        ixs := ixs + [n];
        rows := rows + [nulls + right[n]];
      }
      LoneRightStep(left, right, on, nulls, init, ixs, rows);
    }
  }

  lemma LoneRightStep<E>(left: seq<Row>, right: seq<Row>, on: Condition<E>, nulls: Row, init: seq<nat>, ixs: seq<nat>, rows: seq<Row>)
    requires right != [] && ListsLoneRights(LoneRight(left, right[..|right| - 1], on, nulls), init, left, right[..|right| - 1], on, nulls)
    requires Ascending(ixs) && rows == LoneRight(left, right, on, nulls)
    requires ixs == init + if MatchesSomeLeft(left, right[|right| - 1], on) then [] else [|right| - 1]
    requires rows == LoneRight(left, right[..|right| - 1], on, nulls) + if MatchesSomeLeft(left, right[|right| - 1], on) then [] else [nulls + right[|right| - 1]]
    ensures ListsLoneRights(rows, ixs, left, right, on, nulls)
  {
    var n := |right| - 1;
    forall j ensures j in ixs <==> 0 <= j < |right| && !MatchesSomeLeft(left, right[j], on) {
      assert 0 <= j < n ==> right[..n][j] == right[j];
    }
    forall k | 0 <= k < |ixs| ensures ixs[k] < |right| && rows[k] == nulls + right[ixs[k]] {
      if k < |init| {
        assert right[..n][init[k]] == right[init[k]];
      }
    }
  }

  /** A FULL join returns the rows of the INNER join, then each lone left row once, then each lone right row once, all in order. */
  lemma FullInOrder<E>(left: seq<Row>, right: seq<Row>, on: Condition<E>, nullLeft: Row, nullRight: Row)
    ensures exists pairs, lefts, rights, ixs, jxs ::
      && FullOuter(left, right, on, nullLeft, nullRight) == pairs + lefts + rights
      && Lists(pairs, LeftSources(left, right, on, false), LeftRow(left, right, []))
      && ListsLoneLefts(lefts, ixs, left, right, on, nullRight) && ListsLoneRights(rights, jxs, left, right, on, nullLeft)
  {
    InnerInOrder(left, right, on);
    var ixs := LoneLeftsInOrder(left, right, on, nullRight);
    var jxs := LoneRightsInOrder(left, right, on, nullLeft);
  }
}
