/** The four join loops, and how their outputs account for one another. */
module Joins {
  import opened Common
  import opened Values

  /** The ON condition on a combined row; evaluating it may fail. */
  type Condition<E> = Row -> Result<bool, E>

  predicate Holds<E>(on: Condition<E>, row: Row) {
    on(row).Ok? && on(row).value
  }

  // ---------------------------------------------------------------- what the joins return

  /** The matches of one left row, in the order of the right rows. */
  function MatchesOfLeft<E>(l: Row, right: seq<Row>, on: Condition<E>): seq<Row> {
    if right == [] then []
    else
      var n := |right| - 1;
      MatchesOfLeft(l, right[..n], on) + if Holds(on, l + right[n]) then [l + right[n]] else []
  }

  function MatchesOfRight<E>(left: seq<Row>, r: Row, on: Condition<E>): seq<Row> {
    if left == [] then []
    else
      var n := |left| - 1;
      MatchesOfRight(left[..n], r, on) + if Holds(on, left[n] + r) then [left[n] + r] else []
  }

  function Inner<E>(left: seq<Row>, right: seq<Row>, on: Condition<E>): seq<Row> {
    if left == [] then [] else Inner(left[..|left| - 1], right, on) + MatchesOfLeft(left[|left| - 1], right, on)
  }

  /** The matches, or the row padded with nulls if it has none. */
  function Padded(matches: seq<Row>, padded: Row): seq<Row> {
    if matches == [] then [padded] else matches
  }

  function LeftOuter<E>(left: seq<Row>, right: seq<Row>, on: Condition<E>, nulls: Row): seq<Row> {
    if left == [] then []
    else
      var l := left[|left| - 1];
      LeftOuter(left[..|left| - 1], right, on, nulls) + Padded(MatchesOfLeft(l, right, on), l + nulls)
  }

  function RightOuter<E>(left: seq<Row>, right: seq<Row>, on: Condition<E>, nulls: Row): seq<Row> {
    if right == [] then []
    else
      var r := right[|right| - 1];
      RightOuter(left, right[..|right| - 1], on, nulls) + Padded(MatchesOfRight(left, r, on), nulls + r)
  }

  /** The left rows without a match, padded. */
  function LoneLeft<E>(left: seq<Row>, right: seq<Row>, on: Condition<E>, nulls: Row): seq<Row> {
    if left == [] then []
    else
      var l := left[|left| - 1];
      LoneLeft(left[..|left| - 1], right, on, nulls) + if MatchesOfLeft(l, right, on) == [] then [l + nulls] else []
  }

  function LoneRight<E>(left: seq<Row>, right: seq<Row>, on: Condition<E>, nulls: Row): seq<Row> {
    if right == [] then []
    else
      var r := right[|right| - 1];
      LoneRight(left, right[..|right| - 1], on, nulls) + if MatchesOfRight(left, r, on) == [] then [nulls + r] else []
  }

  function FullOuter<E>(left: seq<Row>, right: seq<Row>, on: Condition<E>, nullLeft: Row, nullRight: Row): seq<Row> {
    Inner(left, right, on) + LoneLeft(left, right, on, nullRight) + LoneRight(left, right, on, nullLeft)
  }

  // ---------------------------------------------------------------- the matching pairs, either way round

  /** The inner join with the loops exchanged. */
  ghost function InnerByRight<E>(left: seq<Row>, right: seq<Row>, on: Condition<E>): seq<Row> {
    if right == [] then [] else InnerByRight(left, right[..|right| - 1], on) + MatchesOfRight(left, right[|right| - 1], on)
  }

  /** One more left row adds its own matches. */
  lemma {:induction false} OneMoreLeft<E>(left: seq<Row>, right: seq<Row>, on: Condition<E>)
    requires left != []
    ensures multiset(InnerByRight(left, right, on)) ==
            multiset(InnerByRight(left[..|left| - 1], right, on)) + multiset(MatchesOfLeft(left[|left| - 1], right, on))
    decreases |right|
  {
    if right != [] {
      OneMoreLeft(left, right[..|right| - 1], on);
    }
  }

  lemma {:induction false} NoLeft<E>(right: seq<Row>, on: Condition<E>)
    ensures InnerByRight([], right, on) == []
  {
    if right != [] {
      NoLeft(right[..|right| - 1], on);
    }
  }

  lemma {:induction false} InnerEitherWay<E>(left: seq<Row>, right: seq<Row>, on: Condition<E>)
    ensures multiset(Inner(left, right, on)) == multiset(InnerByRight(left, right, on))
  {
    if left == [] {
      NoLeft(right, on);
    } else {
      InnerEitherWay(left[..|left| - 1], right, on);
      OneMoreLeft(left, right, on);
    }
  }

  // ---------------------------------------------------------------- accounting

  lemma {:induction false} LeftIsInnerAndLone<E>(left: seq<Row>, right: seq<Row>, on: Condition<E>, nulls: Row)
    ensures multiset(LeftOuter(left, right, on, nulls)) ==
            multiset(Inner(left, right, on)) + multiset(LoneLeft(left, right, on, nulls))
  {
    if left != [] {
      LeftIsInnerAndLone(left[..|left| - 1], right, on, nulls);
    }
  }

  lemma {:induction false} RightIsInnerAndLone<E>(left: seq<Row>, right: seq<Row>, on: Condition<E>, nulls: Row)
    ensures multiset(RightOuter(left, right, on, nulls)) ==
            multiset(InnerByRight(left, right, on)) + multiset(LoneRight(left, right, on, nulls))
  {
    if right != [] {
      RightIsInnerAndLone(left, right[..|right| - 1], on, nulls);
    }
  }

  /** FULL and INNER together return what LEFT and RIGHT together return. */
  lemma FullPlusInner<E>(left: seq<Row>, right: seq<Row>, on: Condition<E>, nullLeft: Row, nullRight: Row)
    ensures multiset(FullOuter(left, right, on, nullLeft, nullRight)) + multiset(Inner(left, right, on)) ==
            multiset(LeftOuter(left, right, on, nullRight)) + multiset(RightOuter(left, right, on, nullLeft))
  {
    LeftIsInnerAndLone(left, right, on, nullRight);
    RightIsInnerAndLone(left, right, on, nullLeft);
    InnerEitherWay(left, right, on);
  }

  // ---------------------------------------------------------------- every row appears

  lemma {:induction false} MatchedLeft<E>(l: Row, right: seq<Row>, on: Condition<E>)
    requires MatchesOfLeft(l, right, on) != []
    ensures exists r :: r in right && l + r in MatchesOfLeft(l, right, on)
  {
    var n := |right| - 1;
    if MatchesOfLeft(l, right[..n], on) != [] {
      MatchedLeft(l, right[..n], on);
    } else {
      assert right[n] in right;
    }
  }

  lemma {:induction false} MatchedRight<E>(left: seq<Row>, r: Row, on: Condition<E>)
    requires MatchesOfRight(left, r, on) != []
    ensures exists l :: l in left && Holds(on, l + r)
  {
    var n := |left| - 1;
    if MatchesOfRight(left[..n], r, on) != [] {
      MatchedRight(left[..n], r, on);
    } else {
      assert left[n] in left;
    }
  }

  lemma {:induction false} PairIsMatched<E>(l: Row, right: seq<Row>, on: Condition<E>, j: nat)
    requires j < |right| && Holds(on, l + right[j])
    ensures l + right[j] in MatchesOfLeft(l, right, on)
  {
    var n := |right| - 1;
    if j < n {
      PairIsMatched(l, right[..n], on, j);
    }
  }

  lemma {:induction false} InnerHas<E>(left: seq<Row>, right: seq<Row>, on: Condition<E>, i: nat, row: Row)
    requires i < |left| && row in MatchesOfLeft(left[i], right, on)
    ensures row in Inner(left, right, on)
  {
    var n := |left| - 1;
    if i < n {
      InnerHas(left[..n], right, on, i, row);
    }
  }

  lemma {:induction false} MatchIsPair<E>(l: Row, right: seq<Row>, on: Condition<E>, row: Row)
    requires row in MatchesOfLeft(l, right, on)
    ensures exists j :: 0 <= j < |right| && row == l + right[j] && Holds(on, row)
  {
    var n := |right| - 1;
    if row in MatchesOfLeft(l, right[..n], on) {
      MatchIsPair(l, right[..n], on, row);
      var j :| 0 <= j < |right[..n]| && row == l + right[..n][j] && Holds(on, row);
      assert right[..n][j] == right[j];
    } else {
      assert row == l + right[n];
    }
  }

  lemma {:induction false} InnerIsMatch<E>(left: seq<Row>, right: seq<Row>, on: Condition<E>, row: Row)
    requires row in Inner(left, right, on)
    ensures exists i :: 0 <= i < |left| && row in MatchesOfLeft(left[i], right, on)
  {
    var n := |left| - 1;
    if row in Inner(left[..n], right, on) {
      InnerIsMatch(left[..n], right, on, row);
      var i :| 0 <= i < |left[..n]| && row in MatchesOfLeft(left[..n][i], right, on);
      assert left[..n][i] == left[i];
    } else {
      assert row in MatchesOfLeft(left[n], right, on);
    }
  }

  /** An INNER join returns exactly the combinations that satisfy ON. */
  lemma InnerIsExact<E>(left: seq<Row>, right: seq<Row>, on: Condition<E>, row: Row)
    ensures row in Inner(left, right, on) <==>
      exists i, j :: 0 <= i < |left| && 0 <= j < |right| && row == left[i] + right[j] && Holds(on, row)
  {
    if row in Inner(left, right, on) {
      InnerIsMatch(left, right, on, row);
      var i :| 0 <= i < |left| && row in MatchesOfLeft(left[i], right, on);
      MatchIsPair(left[i], right, on, row);
    }
    if i, j :| 0 <= i < |left| && 0 <= j < |right| && row == left[i] + right[j] && Holds(on, row) {
      PairIsMatched(left[i], right, on, j);
      InnerHas(left, right, on, i, row);
    }
  }

  lemma {:induction false} LoneLeftHas<E>(left: seq<Row>, right: seq<Row>, on: Condition<E>, nulls: Row, i: nat, row: Row)
    requires i < |left| && MatchesOfLeft(left[i], right, on) == [] && row == left[i] + nulls
    ensures row in LoneLeft(left, right, on, nulls)
  {
    var n := |left| - 1;
    var init := LoneLeft(left[..n], right, on, nulls);
    if i < n {
      LoneLeftHas(left[..n], right, on, nulls, i, row);
    } else {
      assert LoneLeft(left, right, on, nulls) == init + [row];
    }
  }

  lemma {:induction false} LoneRightHas<E>(left: seq<Row>, right: seq<Row>, on: Condition<E>, nulls: Row, j: nat, row: Row)
    requires j < |right| && MatchesOfRight(left, right[j], on) == [] && row == nulls + right[j]
    ensures row in LoneRight(left, right, on, nulls)
  {
    var n := |right| - 1;
    var init := LoneRight(left, right[..n], on, nulls);
    if j < n {
      LoneRightHas(left, right[..n], on, nulls, j, row);
    } else {
      assert LoneRight(left, right, on, nulls) == init + [row];
    }
  }

  /** A left row matches some right row. */
  ghost predicate MatchesSomeRight<E>(l: Row, right: seq<Row>, on: Condition<E>) {
    exists j :: 0 <= j < |right| && Holds(on, l + right[j])
  }

  ghost predicate MatchesSomeLeft<E>(left: seq<Row>, r: Row, on: Condition<E>) {
    exists i :: 0 <= i < |left| && Holds(on, left[i] + r)
  }

  lemma MatchesOfLeftIs<E>(l: Row, right: seq<Row>, on: Condition<E>)
    ensures MatchesOfLeft(l, right, on) != [] <==> MatchesSomeRight(l, right, on)
  {
    if MatchesOfLeft(l, right, on) != [] {
      MatchedLeft(l, right, on);
      var r :| r in right && l + r in MatchesOfLeft(l, right, on);
      MatchIsPair(l, right, on, l + r);
    }
    if j :| 0 <= j < |right| && Holds(on, l + right[j]) {
      PairIsMatched(l, right, on, j);
    }
  }

  lemma {:induction false} MatchesOfRightIs<E>(left: seq<Row>, r: Row, on: Condition<E>)
    ensures MatchesOfRight(left, r, on) != [] <==> MatchesSomeLeft(left, r, on)
  {
    if MatchesOfRight(left, r, on) != [] {
      MatchedRight(left, r, on);
    }
    if i :| 0 <= i < |left| && Holds(on, left[i] + r) {
      LeftIsMatched(left, r, on, i);
    }
  }

  lemma {:induction false} LeftIsMatched<E>(left: seq<Row>, r: Row, on: Condition<E>, i: nat)
    requires i < |left| && Holds(on, left[i] + r)
    ensures MatchesOfRight(left, r, on) != []
  {
    var n := |left| - 1;
    if i < n {
      LeftIsMatched(left[..n], r, on, i);
    }
  }

  lemma {:induction false} LoneLeftIs<E>(left: seq<Row>, right: seq<Row>, on: Condition<E>, nulls: Row, row: Row)
    requires row in LoneLeft(left, right, on, nulls)
    ensures exists i :: 0 <= i < |left| && row == left[i] + nulls && MatchesOfLeft(left[i], right, on) == []
  {
    var n := |left| - 1;
    if row in LoneLeft(left[..n], right, on, nulls) {
      LoneLeftIs(left[..n], right, on, nulls, row);
      var i :| 0 <= i < n && row == left[..n][i] + nulls && MatchesOfLeft(left[..n][i], right, on) == [];
      assert left[..n][i] == left[i];
    } else {
      assert row == left[n] + nulls;
    }
  }

  lemma {:induction false} LoneRightIs<E>(left: seq<Row>, right: seq<Row>, on: Condition<E>, nulls: Row, row: Row)
    requires row in LoneRight(left, right, on, nulls)
    ensures exists j :: 0 <= j < |right| && row == nulls + right[j] && MatchesOfRight(left, right[j], on) == []
  {
    var n := |right| - 1;
    if row in LoneRight(left, right[..n], on, nulls) {
      LoneRightIs(left, right[..n], on, nulls, row);
      var j :| 0 <= j < n && row == nulls + right[..n][j] && MatchesOfRight(left, right[..n][j], on) == [];
      assert right[..n][j] == right[j];
    } else {
      assert row == nulls + right[n];
    }
  }

  /** A pair of rows that satisfies ON. */
  ghost predicate IsPair<E>(left: seq<Row>, right: seq<Row>, on: Condition<E>, row: Row) {
    exists i, j :: 0 <= i < |left| && 0 <= j < |right| && row == left[i] + right[j] && Holds(on, row)
  }

  /** A left row without a match, padded. */
  ghost predicate IsLoneLeft<E>(left: seq<Row>, right: seq<Row>, on: Condition<E>, nulls: Row, row: Row) {
    exists i :: 0 <= i < |left| && row == left[i] + nulls && !MatchesSomeRight(left[i], right, on)
  }

  ghost predicate IsLoneRight<E>(left: seq<Row>, right: seq<Row>, on: Condition<E>, nulls: Row, row: Row) {
    exists j :: 0 <= j < |right| && row == nulls + right[j] && !MatchesSomeLeft(left, right[j], on)
  }

  lemma LoneLeftExactly<E>(left: seq<Row>, right: seq<Row>, on: Condition<E>, nulls: Row, row: Row)
    ensures row in LoneLeft(left, right, on, nulls) <==> IsLoneLeft(left, right, on, nulls, row)
  {
    forall i | 0 <= i < |left| ensures MatchesOfLeft(left[i], right, on) != [] <==> MatchesSomeRight(left[i], right, on) {
      MatchesOfLeftIs(left[i], right, on);
    }
    if row in LoneLeft(left, right, on, nulls) {
      LoneLeftIs(left, right, on, nulls, row);
    }
    if i :| 0 <= i < |left| && row == left[i] + nulls && !MatchesSomeRight(left[i], right, on) {
      LoneLeftHas(left, right, on, nulls, i, row);
    }
  }

  lemma LoneRightExactly<E>(left: seq<Row>, right: seq<Row>, on: Condition<E>, nulls: Row, row: Row)
    ensures row in LoneRight(left, right, on, nulls) <==> IsLoneRight(left, right, on, nulls, row)
  {
    forall j | 0 <= j < |right| ensures MatchesOfRight(left, right[j], on) != [] <==> MatchesSomeLeft(left, right[j], on) {
      MatchesOfRightIs(left, right[j], on);
    }
    if row in LoneRight(left, right, on, nulls) {
      LoneRightIs(left, right, on, nulls, row);
    }
    if j :| 0 <= j < |right| && row == nulls + right[j] && !MatchesSomeLeft(left, right[j], on) {
      LoneRightHas(left, right, on, nulls, j, row);
    }
  }

  /** A FULL join returns exactly the pairs that satisfy ON, and each row without a match, padded. */
  lemma FullIsExact<E>(left: seq<Row>, right: seq<Row>, on: Condition<E>, nullLeft: Row, nullRight: Row, row: Row)
    ensures row in FullOuter(left, right, on, nullLeft, nullRight) <==>
      || IsPair(left, right, on, row) || IsLoneLeft(left, right, on, nullRight, row) || IsLoneRight(left, right, on, nullLeft, row)
  {
    InnerIsExact(left, right, on, row);
    LoneLeftExactly(left, right, on, nullRight, row);
    LoneRightExactly(left, right, on, nullLeft, row);
  }

  /** Every left row appears in a FULL join: with each right row it matches, or padded when it matches none. */
  lemma EveryLeftAppears<E>(left: seq<Row>, right: seq<Row>, on: Condition<E>, nullLeft: Row, nullRight: Row, i: nat)
    requires i < |left|
    ensures forall j :: 0 <= j < |right| && Holds(on, left[i] + right[j]) ==>
      left[i] + right[j] in FullOuter(left, right, on, nullLeft, nullRight)
    ensures !MatchesSomeRight(left[i], right, on) ==> left[i] + nullRight in FullOuter(left, right, on, nullLeft, nullRight)
  {
    forall j | 0 <= j < |right| && Holds(on, left[i] + right[j])
      ensures left[i] + right[j] in FullOuter(left, right, on, nullLeft, nullRight)
    {
      FullIsExact(left, right, on, nullLeft, nullRight, left[i] + right[j]);
    }
    FullIsExact(left, right, on, nullLeft, nullRight, left[i] + nullRight);
  }

  /** So does every right row. */
  lemma EveryRightAppears<E>(left: seq<Row>, right: seq<Row>, on: Condition<E>, nullLeft: Row, nullRight: Row, j: nat)
    requires j < |right|
    ensures forall i :: 0 <= i < |left| && Holds(on, left[i] + right[j]) ==>
      left[i] + right[j] in FullOuter(left, right, on, nullLeft, nullRight)
    ensures !MatchesSomeLeft(left, right[j], on) ==> nullLeft + right[j] in FullOuter(left, right, on, nullLeft, nullRight)
  {
    forall i | 0 <= i < |left| && Holds(on, left[i] + right[j])
      ensures left[i] + right[j] in FullOuter(left, right, on, nullLeft, nullRight)
    {
      FullIsExact(left, right, on, nullLeft, nullRight, left[i] + right[j]);
    }
    FullIsExact(left, right, on, nullLeft, nullRight, nullLeft + right[j]);
  }

  // ---------------------------------------------------------------- the loops

  /** Evaluating ON fails for no pair. */
  ghost predicate Total<E>(left: seq<Row>, right: seq<Row>, on: Condition<E>) {
    forall i, j :: 0 <= i < |left| && 0 <= j < |right| ==> on(left[i] + right[j]).Ok?
  }

  ghost predicate TotalRow<E>(l: Row, right: seq<Row>, on: Condition<E>) {
    forall j :: 0 <= j < |right| ==> on(l + right[j]).Ok?
  }

  ghost predicate TotalColumn<E>(left: seq<Row>, r: Row, on: Condition<E>) {
    forall i :: 0 <= i < |left| ==> on(left[i] + r).Ok?
  }

  /** `e` is the error of the first pair that fails, left row by left row. */
  ghost predicate FirstByRows<E>(left: seq<Row>, right: seq<Row>, on: Condition<E>, e: E) {
    exists i, j :: && 0 <= i < |left| && 0 <= j < |right| && on(left[i] + right[j]) == Err(e)
                   && Total(left[..i], right, on) && TotalRow(left[i], right[..j], on)
  }

  /** The same, right row by right row. */
  ghost predicate FirstByColumns<E>(left: seq<Row>, right: seq<Row>, on: Condition<E>, e: E) {
    exists i, j :: && 0 <= i < |left| && 0 <= j < |right| && on(left[i] + right[j]) == Err(e)
                   && Total(left, right[..j], on) && TotalColumn(left[..i], right[j], on)
  }

  lemma TotalByRows<E>(left: seq<Row>, right: seq<Row>, on: Condition<E>, i: nat)
    requires i < |left|
    ensures Total(left[..i + 1], right, on) <==> Total(left[..i], right, on) && TotalRow(left[i], right, on)
    ensures Total(left, right, on) ==> TotalRow(left[i], right, on)
  {
    assert forall k :: 0 <= k < i ==> left[..i + 1][k] == left[..i][k] == left[k];
    assert left[..i + 1][i] == left[i];
  }

  lemma TotalByColumns<E>(left: seq<Row>, right: seq<Row>, on: Condition<E>, j: nat)
    requires j < |right|
    ensures Total(left, right[..j + 1], on) <==> Total(left, right[..j], on) && TotalColumn(left, right[j], on)
    ensures Total(left, right, on) ==> TotalColumn(left, right[j], on)
  {
    assert forall k :: 0 <= k < j ==> right[..j + 1][k] == right[..j][k] == right[k];
    assert right[..j + 1][j] == right[j];
  }

  method ScanRight<E>(l: Row, right: seq<Row>, on: Condition<E>) returns (r: Result<seq<Row>, E>)
    ensures r.Ok? <==> TotalRow(l, right, on)
    ensures r.Ok? ==> r.value == MatchesOfLeft(l, right, on)
    ensures r.Err? ==> exists j :: 0 <= j < |right| && on(l + right[j]) == Err(r.error) && TotalRow(l, right[..j], on)
  {
    var rows := [];
    for j := 0 to |right|
      invariant rows == MatchesOfLeft(l, right[..j], on)
      invariant forall k :: 0 <= k < j ==> on(l + right[k]).Ok?
    {
      assert right[..j + 1][..j] == right[..j];
      var m := on(l + right[j]);
      if m.Err? {
        assert TotalRow(l, right[..j], on);
        return Err(m.error);
      }
      if m.value {
        rows := rows + [l + right[j]];
      }
    }
    assert right[..|right|] == right;
    r := Ok(rows);
  }

  method ScanLeft<E>(left: seq<Row>, r: Row, on: Condition<E>) returns (res: Result<seq<Row>, E>)
    ensures res.Ok? <==> TotalColumn(left, r, on)
    ensures res.Ok? ==> res.value == MatchesOfRight(left, r, on)
    ensures res.Err? ==> exists i :: 0 <= i < |left| && on(left[i] + r) == Err(res.error) && TotalColumn(left[..i], r, on)
  {
    var rows := [];
    for i := 0 to |left|
      invariant rows == MatchesOfRight(left[..i], r, on)
      invariant forall k :: 0 <= k < i ==> on(left[k] + r).Ok?
    {
      assert left[..i + 1][..i] == left[..i];
      var m := on(left[i] + r);
      if m.Err? {
        assert TotalColumn(left[..i], r, on);
        return Err(m.error);
      }
      if m.value {
        rows := rows + [left[i] + r];
      }
    }
    assert left[..|left|] == left;
    res := Ok(rows);
  }

  method InnerJoin<E>(left: seq<Row>, right: seq<Row>, on: Condition<E>) returns (r: Result<seq<Row>, E>)
    ensures r.Ok? <==> Total(left, right, on)
    ensures r.Ok? ==> r.value == Inner(left, right, on)
    ensures r.Err? ==> FirstByRows(left, right, on, r.error)
  {
    var rows := [];
    for i := 0 to |left|
      invariant rows == Inner(left[..i], right, on)
      invariant Total(left[..i], right, on)
    {
      assert left[..i + 1][..i] == left[..i];
      TotalByRows(left, right, on, i);
      var m := ScanRight(left[i], right, on);
      if m.Err? {
        return Err(m.error);
      }
      rows := rows + m.value;
    }
    assert left[..|left|] == left;
    r := Ok(rows);
  }

  method LeftJoin<E>(left: seq<Row>, right: seq<Row>, on: Condition<E>, nulls: Row) returns (r: Result<seq<Row>, E>)
    ensures r.Ok? <==> Total(left, right, on)
    ensures r.Ok? ==> r.value == LeftOuter(left, right, on, nulls)
    ensures r.Err? ==> FirstByRows(left, right, on, r.error)
  {
    var rows := [];
    for i := 0 to |left|
      invariant rows == LeftOuter(left[..i], right, on, nulls)
      invariant Total(left[..i], right, on)
    {
      assert left[..i + 1][..i] == left[..i];
      TotalByRows(left, right, on, i);
      var m := ScanRight(left[i], right, on);
      if m.Err? {
        return Err(m.error);
      }
      rows := rows + if m.value == [] then [left[i] + nulls] else m.value;
    }
    assert left[..|left|] == left;
    r := Ok(rows);
  }

  method RightJoin<E>(left: seq<Row>, right: seq<Row>, on: Condition<E>, nulls: Row) returns (r: Result<seq<Row>, E>)
    ensures r.Ok? <==> Total(left, right, on)
    ensures r.Ok? ==> r.value == RightOuter(left, right, on, nulls)
    ensures r.Err? ==> FirstByColumns(left, right, on, r.error)
  {
    var rows := [];
    for j := 0 to |right|
      invariant rows == RightOuter(left, right[..j], on, nulls)
      invariant Total(left, right[..j], on)
    {
      assert right[..j + 1][..j] == right[..j];
      TotalByColumns(left, right, on, j);
      var m := ScanLeft(left, right[j], on);
      if m.Err? {
        return Err(m.error);
      }
      rows := rows + if m.value == [] then [nulls + right[j]] else m.value;
    }
    assert right[..|right|] == right;
    r := Ok(rows);
  }

  /** For each left row, whether it has a match. */
  function Marks<E>(left: seq<Row>, right: seq<Row>, on: Condition<E>): seq<bool> {
    if left == [] then []
    else Marks(left[..|left| - 1], right, on) + [MatchesOfLeft(left[|left| - 1], right, on) != []]
  }

  lemma {:induction false} MarksAt<E>(left: seq<Row>, right: seq<Row>, on: Condition<E>, k: nat)
    requires k < |left|
    ensures |Marks(left, right, on)| == |left| && (Marks(left, right, on)[k] <==> MatchesOfLeft(left[k], right, on) != [])
  {
    var n := |left| - 1;
    if n > 0 {
      MarksAt(left[..n], right, on, if k < n then k else 0);
    }
  }

  lemma OneMore<E>(left: seq<Row>, right: seq<Row>, on: Condition<E>, i: nat)
    requires i < |left|
    ensures Inner(left[..i + 1], right, on) == Inner(left[..i], right, on) + MatchesOfLeft(left[i], right, on)
    ensures Marks(left[..i + 1], right, on) == Marks(left[..i], right, on) + [MatchesOfLeft(left[i], right, on) != []]
  {
    assert left[..i + 1][..i] == left[..i];
  }

  /** The matching pairs, with a mark per left row that has one. */
  method MatchAll<E>(left: seq<Row>, right: seq<Row>, on: Condition<E>) returns (r: Result<seq<Row>, E>, matched: seq<bool>)
    ensures r.Ok? <==> Total(left, right, on)
    ensures r.Ok? ==> r.value == Inner(left, right, on) && |matched| == |left| && matched == Marks(left, right, on)
    ensures r.Err? ==> FirstByRows(left, right, on, r.error)
  {
    var rows := [];
    matched := [];
    for i := 0 to |left|
      invariant rows == Inner(left[..i], right, on) && Total(left[..i], right, on)
      invariant |matched| == i && matched == Marks(left[..i], right, on)
    {
      OneMore(left, right, on, i);
      TotalByRows(left, right, on, i);
      var m := ScanRight(left[i], right, on);
      if m.Err? {
        return Err(m.error), matched;
      }
      rows := rows + m.value;
      matched := matched + [m.value != []];
    }
    assert left[..|left|] == left;
    r := Ok(rows);
  }

  /** The matches, then the lone left rows, then the lone right rows. */
  method FullJoin<E>(left: seq<Row>, right: seq<Row>, on: Condition<E>, nullLeft: Row, nullRight: Row)
    returns (r: Result<seq<Row>, E>)
    ensures r.Ok? <==> Total(left, right, on)
    ensures r.Ok? ==> r.value == FullOuter(left, right, on, nullLeft, nullRight)
    ensures r.Err? ==> FirstByRows(left, right, on, r.error)
  {
    var m, matched := MatchAll(left, right, on);
    if m.Err? {
      return m;
    }
    var loneLeft := AppendLoneLeft(left, right, on, nullRight, matched);
    var loneRight := AppendLoneRight(left, right, on, nullLeft);
    r := Ok(m.value + loneLeft + loneRight);
  }

  method AppendLoneLeft<E>(left: seq<Row>, right: seq<Row>, on: Condition<E>, nulls: Row, matched: seq<bool>) returns (rows: seq<Row>)
    requires |matched| == |left| && matched == Marks(left, right, on)
    ensures rows == LoneLeft(left, right, on, nulls)
  {
    rows := [];
    for i := 0 to |left|
      invariant rows == LoneLeft(left[..i], right, on, nulls)
    {
      assert left[..i + 1][..i] == left[..i];
      MarksAt(left, right, on, i);
      if !matched[i] {
        rows := rows + [left[i] + nulls];
      }
    }
    assert left[..|left|] == left;
  }

  /** Looks for a left row that matches, stopping at the first. */
  method AnyMatch<E>(left: seq<Row>, r: Row, on: Condition<E>) returns (found: bool)
    requires TotalColumn(left, r, on)
    ensures found <==> MatchesOfRight(left, r, on) != []
  {
    for i := 0 to |left|
      invariant MatchesOfRight(left[..i], r, on) == []
    {
      assert left[..i + 1][..i] == left[..i];
      if on(left[i] + r).value {
        MatchesGrow(left, r, on, i + 1);
        return true;
      }
    }
    assert left[..|left|] == left;
    found := false;
  }

  lemma {:induction false} MatchesGrow<E>(left: seq<Row>, r: Row, on: Condition<E>, i: nat)
    requires i <= |left| && MatchesOfRight(left[..i], r, on) != []
    ensures MatchesOfRight(left, r, on) != []
  {
    if i == |left| {
      assert left[..i] == left;
    } else {
      var n := |left| - 1;
      assert left[..n][..i] == left[..i];
      MatchesGrow(left[..n], r, on, i);
    }
  }

  method AppendLoneRight<E>(left: seq<Row>, right: seq<Row>, on: Condition<E>, nulls: Row) returns (rows: seq<Row>)
    requires Total(left, right, on)
    ensures rows == LoneRight(left, right, on, nulls)
  {
    rows := [];
    for j := 0 to |right|
      invariant rows == LoneRight(left, right[..j], on, nulls)
    {
      assert right[..j + 1][..j] == right[..j];
      TotalByColumns(left, right, on, j);
      var found := AnyMatch(left, right[j], on);
      if !found {
        rows := rows + [nulls + right[j]];
      }
    }
    assert right[..|right|] == right;
  }
}
