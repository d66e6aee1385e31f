/** GROUP BY: every row falls into exactly one group, and counts and integer sums add up. */
module Aggregates {
  import opened Common
  import opened Values

  datatype Group = Group(key: Row, rows: seq<Row>)

  datatype Function = Count | Sum | Avg | Min | Max

  datatype Aggregate = Aggregate(func: Function, column: string)

  datatype ExecError = GroupByColumnNotFound(column: string) | UnknownColumn(column: string)

  /**
    What is left open about values: which real number a float's bit pattern stands for, to which
    pattern a result is rounded, and how numbers compare. Sums are exact until they are rounded.
  */
  datatype Arithmetic = Arithmetic(toReal: nat -> real, round: real -> nat, le: Order<Value>)

  // ---------------------------------------------------------------- grouping

  /** Adds a row to the group of its key, opening the group in key order if there is none. */
  function AddRow(le: Order<Row>, groups: seq<Group>, key: Row, row: Row): seq<Group> {
    if groups == [] then [Group(key, [row])]
    else if groups[0].key == key then [Group(key, groups[0].rows + [row])] + groups[1..]
    else if le(key, groups[0].key) then [Group(key, [row])] + groups
    else [groups[0]] + AddRow(le, groups[1..], key, row)
  }

  function Grouped(le: Order<Row>, rows: seq<Row>, slots: seq<nat>): seq<Group> {
    if rows == [] then []
    else
      var row := rows[|rows| - 1];
      AddRow(le, Grouped(le, rows[..|rows| - 1], slots), Proj(row, slots), row)
  }

  /** The rows with a key, in their order. */
  function WithKey(rows: seq<Row>, slots: seq<nat>, key: Row): seq<Row> {
    if rows == [] then []
    else
      WithKey(rows[..|rows| - 1], slots, key) +
      if Proj(rows[|rows| - 1], slots) == key then [rows[|rows| - 1]] else []
  }

  ghost predicate Ascending(le: Order<Row>, groups: seq<Group>) {
    forall i, j :: 0 <= i < j < |groups| ==> le(groups[i].key, groups[j].key) && groups[i].key != groups[j].key
  }

  /** The rows of the group of `key`, none if there is no such group. */
  function RowsOf(groups: seq<Group>, key: Row): seq<Row> {
    if groups == [] then [] else if groups[0].key == key then groups[0].rows else RowsOf(groups[1..], key)
  }

  ghost predicate NonEmpty(groups: seq<Group>) {
    forall i :: 0 <= i < |groups| ==> groups[i].rows != []
  }

  lemma {:induction false} AddRowKeys(le: Order<Row>, groups: seq<Group>, key: Row, row: Row)
    ensures forall g :: g in AddRow(le, groups, key, row) ==> g.key == key || exists h :: h in groups && h.key == g.key
  {
    if groups != [] && groups[0].key != key && !le(key, groups[0].key) {
      AddRowKeys(le, groups[1..], key, row);
    }
  }

  lemma {:induction false} AddRowNonEmpty(le: Order<Row>, groups: seq<Group>, key: Row, row: Row)
    requires NonEmpty(groups)
    ensures NonEmpty(AddRow(le, groups, key, row))
  {
    if groups != [] && groups[0].key != key && !le(key, groups[0].key) {
      AddRowNonEmpty(le, groups[1..], key, row);
    }
  }

  lemma PrependAscends(le: Order<Row>, first: Group, rest: seq<Group>)
    requires Ascending(le, rest) && forall g :: g in rest ==> le(first.key, g.key) && first.key != g.key
    ensures Ascending(le, [first] + rest)
  {
    var all := [first] + rest;
    forall i, j | 0 <= i < j < |all| ensures le(all[i].key, all[j].key) && all[i].key != all[j].key {
      assert all[j] == rest[j - 1] && rest[j - 1] in rest;
    }
  }

  lemma {:induction false} AddRowAscends(le: Order<Row>, groups: seq<Group>, key: Row, row: Row)
    requires TotalOrder(le) && Ascending(le, groups)
    ensures Ascending(le, AddRow(le, groups, key, row))
  {
    if groups != [] && groups[0].key != key {
      if le(key, groups[0].key) {
        PrependAscends(le, Group(key, [row]), groups);
      } else {
        AddRowAscends(le, groups[1..], key, row);
        AddRowKeys(le, groups[1..], key, row);
        PrependAscends(le, groups[0], AddRow(le, groups[1..], key, row));
      }
    }
  }

  lemma {:induction false} NoRowsBefore(le: Order<Row>, groups: seq<Group>, key: Row)
    requires TotalOrder(le) && Ascending(le, groups) && groups != [] && le(key, groups[0].key) && key != groups[0].key
    ensures RowsOf(groups, key) == []
  {
    if |groups| > 1 {
      NoRowsBefore(le, groups[1..], key);
    }
  }

  lemma {:induction false} AddRowRows(le: Order<Row>, groups: seq<Group>, key: Row, row: Row, k: Row)
    requires TotalOrder(le) && Ascending(le, groups)
    ensures RowsOf(AddRow(le, groups, key, row), k) == RowsOf(groups, k) + if k == key then [row] else []
  {
    if groups != [] && groups[0].key != key {
      if le(key, groups[0].key) {
        NoRowsBefore(le, groups, key);
      } else {
        AddRowRows(le, groups[1..], key, row, k);
      }
    }
  }

  lemma {:induction false} GroupedAscends(le: Order<Row>, rows: seq<Row>, slots: seq<nat>)
    requires TotalOrder(le)
    ensures Ascending(le, Grouped(le, rows, slots)) && NonEmpty(Grouped(le, rows, slots))
  {
    if rows != [] {
      var init, row := rows[..|rows| - 1], rows[|rows| - 1];
      GroupedAscends(le, init, slots);
      AddRowAscends(le, Grouped(le, init, slots), Proj(row, slots), row);
      AddRowNonEmpty(le, Grouped(le, init, slots), Proj(row, slots), row);
    }
  }

  lemma {:induction false} GroupedRows(le: Order<Row>, rows: seq<Row>, slots: seq<nat>, key: Row)
    requires TotalOrder(le)
    ensures RowsOf(Grouped(le, rows, slots), key) == WithKey(rows, slots, key)
  {
    if rows != [] {
      var init, row := rows[..|rows| - 1], rows[|rows| - 1];
      GroupedRows(le, init, slots, key);
      GroupedAscends(le, init, slots);
      AddRowRows(le, Grouped(le, init, slots), Proj(row, slots), row, key);
    }
  }

  lemma {:induction false} RowsOfMember(groups: seq<Group>, i: nat)
    requires i < |groups| && forall j, k :: 0 <= j < k < |groups| ==> groups[j].key != groups[k].key
    ensures RowsOf(groups, groups[i].key) == groups[i].rows
  {
    if i > 0 {
      RowsOfMember(groups[1..], i - 1);
    }
  }

  lemma {:induction false} WithKeyHas(rows: seq<Row>, slots: seq<nat>, i: nat)
    requires i < |rows|
    ensures WithKey(rows, slots, Proj(rows[i], slots)) != []
  {
    var n, key := |rows| - 1, Proj(rows[i], slots);
    var init := WithKey(rows[..n], slots, key);
    if i < n {
      WithKeyHas(rows[..n], slots, i);
      assert init != [];
    } else {
      assert WithKey(rows, slots, key) == init + [rows[n]];
    }
  }

  lemma {:induction false} RowsOfPresent(groups: seq<Group>, key: Row)
    requires RowsOf(groups, key) != []
    ensures exists g :: 0 <= g < |groups| && groups[g].key == key
  {
    if groups[0].key != key {
      RowsOfPresent(groups[1..], key);
      var g :| 0 <= g < |groups[1..]| && groups[1..][g].key == key;
      assert groups[g + 1].key == key;
    }
  }

  /**
    Grouping partitions the rows: groups have distinct keys in ascending order, each holds exactly the
    rows with its key in their order, and every row's key has a group.
  */
  lemma GroupsPartition(le: Order<Row>, rows: seq<Row>, slots: seq<nat>)
    requires TotalOrder(le)
    ensures var groups := Grouped(le, rows, slots);
      && Ascending(le, groups)
      && (forall g :: 0 <= g < |groups| ==> groups[g].rows != [] && groups[g].rows == WithKey(rows, slots, groups[g].key))
      && (forall i :: 0 <= i < |rows| ==> exists g :: 0 <= g < |groups| && groups[g].key == Proj(rows[i], slots))
  {
    var groups := Grouped(le, rows, slots);
    GroupedAscends(le, rows, slots);
    forall g | 0 <= g < |groups| ensures groups[g].rows == WithKey(rows, slots, groups[g].key) {
      RowsOfMember(groups, g);
      GroupedRows(le, rows, slots, groups[g].key);
    }
    forall i | 0 <= i < |rows| ensures exists g :: 0 <= g < |groups| && groups[g].key == Proj(rows[i], slots) {
      GroupedRows(le, rows, slots, Proj(rows[i], slots));
      WithKeyHas(rows, slots, i);
      RowsOfPresent(groups, Proj(rows[i], slots));
    }
  }

  // ---------------------------------------------------------------- aggregates

  predicate IsNumber(v: Value) {
    v.Int? || v.Float?
  }

  /** What a cell adds to an integer sum: NULL and everything that is not an integer count as zero. */
  function IntOf(v: Value): int {
    match v case Int(i) => i case _ => 0
  }

  function RealOf(v: Value, arith: Arithmetic): real {
    match v case Int(i) => i as real case Float(f) => arith.toReal(f) case _ => 0.0
  }

  function IntSum(rows: seq<Row>, slot: nat): int {
    if rows == [] then 0 else IntSum(rows[..|rows| - 1], slot) + IntOf(At(rows[|rows| - 1], slot))
  }

  function RealSum(rows: seq<Row>, slot: nat, arith: Arithmetic): real {
    if rows == [] then 0.0 else RealSum(rows[..|rows| - 1], slot, arith) + RealOf(At(rows[|rows| - 1], slot), arith)
  }

  predicate HasNumber(rows: seq<Row>, slot: nat) {
    exists i :: 0 <= i < |rows| && IsNumber(At(rows[i], slot))
  }

  predicate HasFloat(rows: seq<Row>, slot: nat) {
    exists i :: 0 <= i < |rows| && At(rows[i], slot).Float?
  }

  /** SUM is NULL over no numbers, an integer over integers, else a float. */
  function SumValue(rows: seq<Row>, slot: nat, arith: Arithmetic): Value {
    if !HasNumber(rows, slot) then Null
    else if HasFloat(rows, slot) then Float(arith.round(RealSum(rows, slot, arith)))
    else Int(IntSum(rows, slot))
  }

  /** The numbers of a column, in row order. */
  function Numbers(rows: seq<Row>, slot: nat): (r: seq<Value>)
    ensures r != [] <==> HasNumber(rows, slot)
  {
    if rows == [] then []
    else
      var init, v := rows[..|rows| - 1], At(rows[|rows| - 1], slot);
      assert forall i :: 0 <= i < |init| ==> init[i] == rows[i];
      if IsNumber(v) then assert IsNumber(At(rows[|rows| - 1], slot)); Numbers(init, slot) + [v] else Numbers(init, slot)
  }

  /** AVG is NULL over no numbers, else their sum divided by how many there are. */
  function AvgValue(rows: seq<Row>, slot: nat, arith: Arithmetic): Value {
    if !HasNumber(rows, slot) then Null
    else Float(arith.round(RealSum(rows, slot, arith) / |Numbers(rows, slot)| as real))
  }

  /** The least value, the first of equal ones. */
  function Least(le: Order<Value>, s: seq<Value>): Value
    requires s != []
  {
    if |s| == 1 then s[0]
    else
      var m, v := Least(le, s[..|s| - 1]), s[|s| - 1];
      if le(m, v) then m else v
  }

  /** The greatest value, the last of equal ones. */
  function Greatest(le: Order<Value>, s: seq<Value>): Value
    requires s != []
  {
    if |s| == 1 then s[0]
    else
      var m, v := Greatest(le, s[..|s| - 1]), s[|s| - 1];
      if le(m, v) then v else m
  }

  lemma {:induction false} LeastIs(le: Order<Value>, s: seq<Value>)
    requires TotalOrder(le) && s != []
    ensures Least(le, s) in s && forall x :: x in s ==> le(Least(le, s), x)
  {
    var init, v := s[..|s| - 1], s[|s| - 1];
    assert s == init + [v];
    if |s| > 1 {
      LeastIs(le, init);
    }
  }

  lemma {:induction false} GreatestIs(le: Order<Value>, s: seq<Value>)
    requires TotalOrder(le) && s != []
    ensures Greatest(le, s) in s && forall x :: x in s ==> le(x, Greatest(le, s))
  {
    var init, v := s[..|s| - 1], s[|s| - 1];
    assert s == init + [v];
    if |s| > 1 {
      GreatestIs(le, init);
    }
  }

  lemma {:induction false} NumbersAre(rows: seq<Row>, slot: nat, v: Value)
    ensures v in Numbers(rows, slot) <==> IsNumber(v) && exists i :: 0 <= i < |rows| && At(rows[i], slot) == v
  {
    if rows != [] {
      var n, init := |rows| - 1, rows[..|rows| - 1];
      NumbersAre(init, slot, v);
      assert forall i :: 0 <= i < n ==> init[i] == rows[i];
    }
  }

  /** MIN and MAX are NULL over no numbers, else a number of the column that none is below, or above. */
  lemma ExtremesAre(rows: seq<Row>, slot: nat, arith: Arithmetic, i: nat)
    requires TotalOrder(arith.le) && i < |rows| && IsNumber(At(rows[i], slot))
    ensures var low, high := ValueOf(Min, rows, slot, arith), ValueOf(Max, rows, slot, arith);
      && low in Numbers(rows, slot) && high in Numbers(rows, slot)
      && arith.le(low, At(rows[i], slot)) && arith.le(At(rows[i], slot), high)
  {
    NumbersAre(rows, slot, At(rows[i], slot));
    LeastIs(arith.le, Numbers(rows, slot));
    GreatestIs(arith.le, Numbers(rows, slot));
  }

  /** One aggregate of a column. */
  function ValueOf(func: Function, rows: seq<Row>, slot: nat, arith: Arithmetic): Value {
    match func
    case Count => Int(|rows|)
    case Sum => SumValue(rows, slot, arith)
    case Avg => AvgValue(rows, slot, arith)
    case Min => if HasNumber(rows, slot) then Least(arith.le, Numbers(rows, slot)) else Null
    case Max => if HasNumber(rows, slot) then Greatest(arith.le, Numbers(rows, slot)) else Null
  }

  function Position(columns: seq<string>, name: string): (r: Option<nat>)
    ensures r.Some? ==> r.value < |columns| && columns[r.value] == name && forall j :: 0 <= j < r.value ==> columns[j] != name
    ensures r.None? <==> name !in columns
  {
    if columns == [] then None
    else if columns[0] == name then Some(0)
    else match Position(columns[1..], name) case Some(i) => Some(i + 1) case None => None
  }

  /** COUNT looks at no column; every other aggregate needs its column. */
  function Evaluated(a: Aggregate, columns: seq<string>, rows: seq<Row>, arith: Arithmetic): Result<Value, ExecError> {
    if a.func == Count then Ok(Int(|rows|))
    else
      match Position(columns, a.column)
      case None => Err(UnknownColumn(a.column))
      case Some(slot) => Ok(ValueOf(a.func, rows, slot, arith))
  }

  /** The sum of the groups' counts. */
  function TotalCount(groups: seq<Group>): nat {
    if groups == [] then 0 else |groups[0].rows| + TotalCount(groups[1..])
  }

  function TotalSum(groups: seq<Group>, slot: nat): int {
    if groups == [] then 0 else IntSum(groups[0].rows, slot) + TotalSum(groups[1..], slot)
  }

  lemma {:induction false} AddRowTotals(le: Order<Row>, groups: seq<Group>, key: Row, row: Row, slot: nat)
    ensures TotalCount(AddRow(le, groups, key, row)) == TotalCount(groups) + 1
    ensures TotalSum(AddRow(le, groups, key, row), slot) == TotalSum(groups, slot) + IntOf(At(row, slot))
  {
    var r := AddRow(le, groups, key, row);
    assert [row][..0] == [];
    assert IntSum([row], slot) == IntOf(At(row, slot));
    if groups != [] {
      assert r[1..] == groups || r[1..] == groups[1..] || r[1..] == AddRow(le, groups[1..], key, row);
      assert (groups[0].rows + [row])[..|groups[0].rows|] == groups[0].rows;
      if groups[0].key != key && !le(key, groups[0].key) {
        AddRowTotals(le, groups[1..], key, row, slot);
      }
    }
  }

  /** Group counts add up to the number of rows, and integer group sums, NULL as zero, to the ungrouped sum. */
  lemma {:induction false} GroupsConserve(le: Order<Row>, rows: seq<Row>, slots: seq<nat>, slot: nat)
    ensures TotalCount(Grouped(le, rows, slots)) == |rows|
    ensures TotalSum(Grouped(le, rows, slots), slot) == IntSum(rows, slot)
  {
    if rows != [] {
      var init, row := rows[..|rows| - 1], rows[|rows| - 1];
      GroupsConserve(le, init, slots, slot);
      AddRowTotals(le, Grouped(le, init, slots), Proj(row, slots), row, slot);
    }
  }

  // ---------------------------------------------------------------- the loops

  method SumColumn(rows: seq<Row>, slot: nat, arith: Arithmetic) returns (r: Value)
    ensures r == SumValue(rows, slot, arith)
  {
    var intSum, floatSum, any, sawFloat := 0, 0.0, false, false;
    for i := 0 to |rows|
      invariant intSum == IntSum(rows[..i], slot) && floatSum == RealSum(rows[..i], slot, arith)
      invariant any <==> HasNumber(rows[..i], slot)
      invariant sawFloat <==> HasFloat(rows[..i], slot)
    {
      OneMoreRow(rows, slot, arith, i);
      match At(rows[i], slot) {
        case Int(v) => any, intSum, floatSum := true, intSum + v, floatSum + v as real;
        case Float(f) => any, sawFloat, floatSum := true, true, floatSum + arith.toReal(f);
        case _ =>
      }
    }
    assert rows[..|rows|] == rows;
    r := if !any then Null else if sawFloat then Float(arith.round(floatSum)) else Int(intSum);
  }

  method AverageColumn(rows: seq<Row>, slot: nat, arith: Arithmetic) returns (r: Value)
    ensures r == AvgValue(rows, slot, arith)
  {
    var sum, count := 0.0, 0;
    for i := 0 to |rows|
      invariant sum == RealSum(rows[..i], slot, arith) && count == |Numbers(rows[..i], slot)|
    {
      OneMoreRow(rows, slot, arith, i);
      match At(rows[i], slot) {
        case Int(v) => sum, count := sum + v as real, count + 1;
        case Float(f) => sum, count := sum + arith.toReal(f), count + 1;
        case _ =>
      }
    }
    assert rows[..|rows|] == rows;
    r := if count == 0 then Null else Float(arith.round(sum / count as real));
  }

  lemma OneMoreRow(rows: seq<Row>, slot: nat, arith: Arithmetic, i: nat)
    requires i < |rows|
    ensures IntSum(rows[..i + 1], slot) == IntSum(rows[..i], slot) + IntOf(At(rows[i], slot))
    ensures RealSum(rows[..i + 1], slot, arith) == RealSum(rows[..i], slot, arith) + RealOf(At(rows[i], slot), arith)
    ensures HasNumber(rows[..i + 1], slot) <==> HasNumber(rows[..i], slot) || IsNumber(At(rows[i], slot))
    ensures HasFloat(rows[..i + 1], slot) <==> HasFloat(rows[..i], slot) || At(rows[i], slot).Float?
    ensures Numbers(rows[..i + 1], slot) == Numbers(rows[..i], slot) + if IsNumber(At(rows[i], slot)) then [At(rows[i], slot)] else []
  {
    var more, less := rows[..i + 1], rows[..i];
    assert more[..i] == less && more[i] == rows[i];
    assert forall k :: 0 <= k < i ==> more[k] == less[k];
  }

  method Evaluate(a: Aggregate, columns: seq<string>, rows: seq<Row>, arith: Arithmetic) returns (r: Result<Value, ExecError>)
    ensures r == Evaluated(a, columns, rows, arith)
  {
    if a.func == Count {
      return Ok(Int(|rows|));
    }
    var slot := Position(columns, a.column);
    if slot.None? {
      return Err(UnknownColumn(a.column));
    }
    if a.func == Sum {
      var v := SumColumn(rows, slot.value, arith);
      return Ok(v);
    }
    if a.func == Avg {
      var v := AverageColumn(rows, slot.value, arith);
      return Ok(v);
    }
    r := Ok(ValueOf(a.func, rows, slot.value, arith));
  }

  /** The aggregates of one group from the `i`-th on, after `done`; the first error stops them. */
  function EvaluatedFrom(aggs: seq<Aggregate>, i: nat, columns: seq<string>, rows: seq<Row>, arith: Arithmetic, done: Row): Result<Row, ExecError>
    requires i <= |aggs|
    decreases |aggs| - i
  {
    if i == |aggs| then Ok(done)
    else
      match Evaluated(aggs[i], columns, rows, arith)
      case Err(e) => Err(e)
      case Ok(v) => EvaluatedFrom(aggs, i + 1, columns, rows, arith, done + [v])
  }

  method EvaluateAll(aggs: seq<Aggregate>, columns: seq<string>, rows: seq<Row>, arith: Arithmetic, key: Row) returns (r: Result<Row, ExecError>)
    ensures r == EvaluatedFrom(aggs, 0, columns, rows, arith, key)
  {
    var out, i := key, 0;
    while i < |aggs|
      invariant 0 <= i <= |aggs|
      invariant EvaluatedFrom(aggs, i, columns, rows, arith, out) == EvaluatedFrom(aggs, 0, columns, rows, arith, key)
    {
      var v := Evaluate(aggs[i], columns, rows, arith);
      if v.Err? {
        return Err(v.error);
      }
      out := out + [v.value];
      i := i + 1;
    }
    r := Ok(out);
  }

  /** The slots of the grouping columns, or the first that is not there. */
  function Resolved(columns: seq<string>, groupBy: seq<string>): Result<seq<nat>, ExecError> {
    if groupBy == [] then Ok([])
    else
      match Resolved(columns, groupBy[..|groupBy| - 1])
      case Err(e) => Err(e)
      case Ok(slots) =>
        match Position(columns, groupBy[|groupBy| - 1])
        case None => Err(GroupByColumnNotFound(groupBy[|groupBy| - 1]))
        case Some(slot) => Ok(slots + [slot])
  }

  method Resolve(columns: seq<string>, groupBy: seq<string>) returns (r: Result<seq<nat>, ExecError>)
    ensures r == Resolved(columns, groupBy)
  {
    var slots := [];
    for i := 0 to |groupBy|
      invariant Resolved(columns, groupBy[..i]) == Ok(slots)
    {
      assert groupBy[..i + 1][..i] == groupBy[..i];
      var slot := Position(columns, groupBy[i]);
      if slot.None? {
        NotResolved(columns, groupBy, i + 1);
        return Err(GroupByColumnNotFound(groupBy[i]));
      }
      slots := slots + [slot.value];
    }
    assert groupBy[..|groupBy|] == groupBy;
    r := Ok(slots);
  }

  lemma {:induction false} NotResolved(columns: seq<string>, groupBy: seq<string>, i: nat)
    requires i <= |groupBy| && Resolved(columns, groupBy[..i]).Err?
    ensures Resolved(columns, groupBy) == Resolved(columns, groupBy[..i])
    decreases |groupBy|
  {
    if i == |groupBy| {
      assert groupBy[..i] == groupBy;
    } else {
      var init := groupBy[..|groupBy| - 1];
      assert init[..i] == groupBy[..i];
      NotResolved(columns, init, i);
    }
  }

  /** One output row per group from the `i`-th on, after `done`. */
  function OutputFrom(groups: seq<Group>, i: nat, aggs: seq<Aggregate>, columns: seq<string>, arith: Arithmetic, done: seq<Row>): Result<seq<Row>, ExecError>
    requires i <= |groups|
    decreases |groups| - i
  {
    if i == |groups| then Ok(done)
    else
      match EvaluatedFrom(aggs, 0, columns, groups[i].rows, arith, groups[i].key)
      case Err(e) => Err(e)
      case Ok(row) => OutputFrom(groups, i + 1, aggs, columns, arith, done + [row])
  }

  /** A single row when nothing is grouped by; else one row per group, its key then its aggregates. */
  function Aggregated(le: Order<Row>, columns: seq<string>, rows: seq<Row>, groupBy: seq<string>, aggs: seq<Aggregate>, arith: Arithmetic): Result<seq<Row>, ExecError> {
    if groupBy == [] then
      match EvaluatedFrom(aggs, 0, columns, rows, arith, []) case Ok(row) => Ok([row]) case Err(e) => Err(e)
    else
      match Resolved(columns, groupBy)
      case Err(e) => Err(e)
      case Ok(slots) => OutputFrom(Grouped(le, rows, slots), 0, aggs, columns, arith, [])
  }

  method AggregateTable(le: Order<Row>, columns: seq<string>, rows: seq<Row>, groupBy: seq<string>, aggs: seq<Aggregate>, arith: Arithmetic)
    returns (r: Result<seq<Row>, ExecError>)
    ensures r == Aggregated(le, columns, rows, groupBy, aggs, arith)
  {
    if groupBy == [] {
      var row := EvaluateAll(aggs, columns, rows, arith, []);
      return if row.Ok? then Ok([row.value]) else Err(row.error);
    }
    var slots := Resolve(columns, groupBy);
    if slots.Err? {
      return Err(slots.error);
    }
    var groups := GroupRows(le, rows, slots.value);
    var out, i := [], 0;
    while i < |groups|
      invariant 0 <= i <= |groups|
      invariant OutputFrom(groups, i, aggs, columns, arith, out) == OutputFrom(groups, 0, aggs, columns, arith, [])
    {
      var row := EvaluateAll(aggs, columns, groups[i].rows, arith, groups[i].key);
      if row.Err? {
        return Err(row.error);
      }
      out := out + [row.value];
      i := i + 1;
    }
    r := Ok(out);
  }

  method GroupRows(le: Order<Row>, rows: seq<Row>, slots: seq<nat>) returns (groups: seq<Group>)
    ensures groups == Grouped(le, rows, slots)
  {
    groups := [];
    for i := 0 to |rows|
      invariant groups == Grouped(le, rows[..i], slots)
    {
      assert rows[..i + 1][..i] == rows[..i];
      groups := AddRow(le, groups, Proj(rows[i], slots), rows[i]);
    }
    assert rows[..|rows|] == rows;
  }

  // ---------------------------------------------------------------- what the aggregates mean

  /** Of a single row: COUNT is 1, and the other aggregates are its number, or NULL if it has none. */
  lemma OfOneRow(row: Row, slot: nat, arith: Arithmetic)
    ensures ValueOf(Count, [row], slot, arith) == Int(1)
    ensures var v := At(row, slot);
      && (!IsNumber(v) ==> forall f :: f != Count ==> ValueOf(f, [row], slot, arith) == Null)
      && (v.Int? ==> ValueOf(Sum, [row], slot, arith) == v && ValueOf(Avg, [row], slot, arith) == Float(arith.round(v.i as real)))
      && (v.Float? ==> ValueOf(Sum, [row], slot, arith) == ValueOf(Avg, [row], slot, arith) == Float(arith.round(arith.toReal(v.float))))
      && (IsNumber(v) ==> ValueOf(Min, [row], slot, arith) == ValueOf(Max, [row], slot, arith) == v)
  {
    assert [row][..0] == [];
    assert [row][0] == row;
    assert Numbers([row], slot) == if IsNumber(At(row, slot)) then [At(row, slot)] else [];
    assert RealSum([row], slot, arith) == RealOf(At(row, slot), arith);
    assert IntSum([row], slot) == IntOf(At(row, slot));
  }

  lemma {:induction false} Concatenated(a: seq<Row>, b: seq<Row>, slot: nat, arith: Arithmetic)
    ensures IntSum(a + b, slot) == IntSum(a, slot) + IntSum(b, slot)
    ensures RealSum(a + b, slot, arith) == RealSum(a, slot, arith) + RealSum(b, slot, arith)
    ensures Numbers(a + b, slot) == Numbers(a, slot) + Numbers(b, slot)
    decreases |b|
  {
    if b == [] {
      assert a + b == a;
    } else {
      var init := b[..|b| - 1];
      assert (a + b)[..|a + b| - 1] == a + init && (a + b)[|a + b| - 1] == b[|b| - 1];
      Concatenated(a, init, slot, arith);
    }
  }

  ghost predicate Integers(rows: seq<Row>, slot: nat) {
    forall i :: 0 <= i < |rows| ==> !At(rows[i], slot).Float?
  }

  /** SUM over two runs of rows without floats adds up; NULL counts for nothing. */
  lemma SumAdds(a: seq<Row>, b: seq<Row>, slot: nat, arith: Arithmetic)
    requires Integers(a, slot) && Integers(b, slot)
    ensures var x, y, z := ValueOf(Sum, a, slot, arith), ValueOf(Sum, b, slot, arith), ValueOf(Sum, a + b, slot, arith);
      && (x == Null || x.Int?) && (y == Null || y.Int?) && IntOf(z) == IntOf(x) + IntOf(y)
      && (z == Null <==> x == Null && y == Null) && (z != Null ==> z.Int?)
  {
    Concatenated(a, b, slot, arith);
    NoNumbersNoSum(a, slot);
    NoNumbersNoSum(b, slot);
    var all := a + b;
    assert forall i :: 0 <= i < |all| ==> !At(all[i], slot).Float?;
    assert HasNumber(all, slot) <==> Numbers(a, slot) + Numbers(b, slot) != [];
  }

  lemma {:induction false} NoNumbersNoSum(rows: seq<Row>, slot: nat)
    ensures !HasNumber(rows, slot) ==> IntSum(rows, slot) == 0
  {
    if rows != [] && !HasNumber(rows, slot) {
      var init := rows[..|rows| - 1];
      assert forall i :: 0 <= i < |init| ==> init[i] == rows[i];
      assert !IsNumber(At(rows[|rows| - 1], slot));
      NoNumbersNoSum(init, slot);
    }
  }

  /** The sum and the count of numbers that AVG divides: both add up over runs of rows. */
  ghost predicate Averages(rows: seq<Row>, slot: nat, arith: Arithmetic, total: real, count: nat) {
    ValueOf(Avg, rows, slot, arith) == if count == 0 then Null else Float(arith.round(total / count as real))
  }

  /** AVG is the rounded quotient of the total and the count of the column's numbers, NULL exactly if there are none. */
  lemma {:induction false} AverageIs(rows: seq<Row>, slot: nat, arith: Arithmetic, cells: seq<Value>)
    requires |cells| == |rows| && forall i :: 0 <= i < |rows| ==> cells[i] == At(rows[i], slot)
    ensures Averages(rows, slot, arith, TotalOf(cells, arith), CountOf(cells))
    ensures ValueOf(Avg, rows, slot, arith) == Null <==> CountOf(cells) == 0
  {
    TotalsAgree(rows, slot, arith, cells);
  }

  /** The numbers among the cells, from the front. */
  function CountOf(cells: seq<Value>): nat {
    if cells == [] then 0 else (if cells[0].Int? || cells[0].Float? then 1 else 0) + CountOf(cells[1..])
  }

  function TotalOf(cells: seq<Value>, arith: Arithmetic): real {
    if cells == [] then 0.0
    else (if cells[0].Int? then cells[0].i as real else if cells[0].Float? then arith.toReal(cells[0].float) else 0.0) + TotalOf(cells[1..], arith)
  }

  lemma {:induction false} TotalsAgree(rows: seq<Row>, slot: nat, arith: Arithmetic, cells: seq<Value>)
    requires |cells| == |rows| && forall i :: 0 <= i < |rows| ==> cells[i] == At(rows[i], slot)
    ensures RealSum(rows, slot, arith) == TotalOf(cells, arith) && |Numbers(rows, slot)| == CountOf(cells)
    decreases |rows|
  {
    if rows != [] {
      TotalsAgree(rows[1..], slot, arith, cells[1..]);
      assert rows == [rows[0]] + rows[1..];
      Concatenated([rows[0]], rows[1..], slot, arith);
      OneRowTotals(rows[0], slot, arith);
    }
  }

  lemma OneRowTotals(row: Row, slot: nat, arith: Arithmetic)
    ensures RealSum([row], slot, arith) == RealOf(At(row, slot), arith)
    ensures |Numbers([row], slot)| == if IsNumber(At(row, slot)) then 1 else 0
  {
    assert [row][..0] == [];
  }

  // ---------------------------------------------------------------- what comes out

  /** An aggregate that names a column the table does not have. */
  predicate Unknown(a: Aggregate, columns: seq<string>) {
    a.func != Count && a.column !in columns
  }

  predicate NamesUnknown(aggs: seq<Aggregate>, columns: seq<string>) {
    exists i :: 0 <= i < |aggs| && Unknown(aggs[i], columns)
  }

  /** The cell of an aggregate: COUNT counts the rows, the others look at the first column of that name. */
  ghost predicate CellOf(a: Aggregate, columns: seq<string>, rows: seq<Row>, arith: Arithmetic, cell: Value) {
    if a.func == Count then cell == Int(|rows|)
    else exists slot :: && 0 <= slot < |columns| && columns[slot] == a.column && (forall j :: 0 <= j < slot ==> columns[j] != a.column)
                        && cell == ValueOf(a.func, rows, slot, arith)
  }

  /** One output row: the key, then one cell per aggregate. */
  ghost predicate OutputRow(key: Row, aggs: seq<Aggregate>, columns: seq<string>, rows: seq<Row>, arith: Arithmetic, out: Row) {
    && |out| == |key| + |aggs| && out[..|key|] == key
    && forall i :: 0 <= i < |aggs| ==> CellOf(aggs[i], columns, rows, arith, out[|key| + i])
  }

  lemma EvaluatedIs(a: Aggregate, columns: seq<string>, rows: seq<Row>, arith: Arithmetic)
    ensures var cell := Evaluated(a, columns, rows, arith);
      if Unknown(a, columns) then cell == Err(UnknownColumn(a.column)) else cell.Ok? && CellOf(a, columns, rows, arith, cell.value)
  {
  }

  /** The first aggregate with an unknown column is the error. */
  lemma {:induction false} EvaluatedFromFails(aggs: seq<Aggregate>, i: nat, columns: seq<string>, rows: seq<Row>, arith: Arithmetic, done: Row)
    requires i <= |aggs|
    ensures var r := EvaluatedFrom(aggs, i, columns, rows, arith, done);
      && (r.Err? <==> exists k :: i <= k < |aggs| && Unknown(aggs[k], columns))
      && (forall k :: i <= k < |aggs| && Unknown(aggs[k], columns) && (forall j :: i <= j < k ==> !Unknown(aggs[j], columns)) ==>
            r == Err(UnknownColumn(aggs[k].column)))
    decreases |aggs| - i
  {
    if i < |aggs| {
      EvaluatedIs(aggs[i], columns, rows, arith);
      var cell := Evaluated(aggs[i], columns, rows, arith);
      if cell.Ok? {
        EvaluatedFromFails(aggs, i + 1, columns, rows, arith, done + [cell.value]);
      }
    }
  }

  lemma {:induction false} EvaluatedFromIs(aggs: seq<Aggregate>, i: nat, columns: seq<string>, rows: seq<Row>, arith: Arithmetic, done: Row)
    requires i <= |aggs|
    ensures var r := EvaluatedFrom(aggs, i, columns, rows, arith, done);
      && (r.Ok? ==> |r.value| == |done| + |aggs| - i && r.value[..|done|] == done)
      && (r.Ok? ==> forall k :: i <= k < |aggs| ==> CellOf(aggs[k], columns, rows, arith, r.value[|done| + k - i]))
    decreases |aggs| - i
  {
    if i < |aggs| {
      EvaluatedIs(aggs[i], columns, rows, arith);
      var cell := Evaluated(aggs[i], columns, rows, arith);
      if cell.Ok? {
        var done' := done + [cell.value];
        EvaluatedFromIs(aggs, i + 1, columns, rows, arith, done');
        assert done'[..|done|] == done && done'[|done|] == cell.value;
      }
    }
  }

  lemma EvaluatedRow(aggs: seq<Aggregate>, columns: seq<string>, rows: seq<Row>, arith: Arithmetic, key: Row)
    ensures var r := EvaluatedFrom(aggs, 0, columns, rows, arith, key);
      && (r.Err? <==> NamesUnknown(aggs, columns)) && (r.Ok? ==> OutputRow(key, aggs, columns, rows, arith, r.value))
  {
    EvaluatedFromFails(aggs, 0, columns, rows, arith, key);
    EvaluatedFromIs(aggs, 0, columns, rows, arith, key);
  }

  lemma {:induction false} OutputFromIs(groups: seq<Group>, i: nat, aggs: seq<Aggregate>, columns: seq<string>, arith: Arithmetic, done: seq<Row>)
    requires i <= |groups|
    ensures var r := OutputFrom(groups, i, aggs, columns, arith, done);
      && (r.Err? <==> i < |groups| && NamesUnknown(aggs, columns))
      && (r.Ok? ==> |r.value| == |done| + |groups| - i && r.value[..|done|] == done)
      && (r.Ok? ==> forall k :: i <= k < |groups| ==> OutputRow(groups[k].key, aggs, columns, groups[k].rows, arith, r.value[|done| + k - i]))
    decreases |groups| - i
  {
    if i < |groups| {
      EvaluatedRow(aggs, columns, groups[i].rows, arith, groups[i].key);
      var row := EvaluatedFrom(aggs, 0, columns, groups[i].rows, arith, groups[i].key);
      if row.Ok? {
        var done' := done + [row.value];
        OutputFromIs(groups, i + 1, aggs, columns, arith, done');
        assert done'[..|done|] == done && done'[|done|] == row.value;
      }
    }
  }

  /** The slots of the grouping columns are their first positions; the first column that is not there is the error. */
  lemma {:induction false} ResolvedIs(columns: seq<string>, groupBy: seq<string>)
    ensures var r := Resolved(columns, groupBy);
      && (r.Ok? <==> forall i :: 0 <= i < |groupBy| ==> groupBy[i] in columns)
      && (r.Ok? ==> |r.value| == |groupBy| && forall i :: 0 <= i < |groupBy| ==> Position(columns, groupBy[i]) == Some(r.value[i]))
      && (forall k :: 0 <= k < |groupBy| && groupBy[k] !in columns && (forall j :: 0 <= j < k ==> groupBy[j] in columns) ==>
            r == Err(GroupByColumnNotFound(groupBy[k])))
  {
    if groupBy != [] {
      var n, init := |groupBy| - 1, groupBy[..|groupBy| - 1];
      ResolvedIs(columns, init);
      assert forall i :: 0 <= i < n ==> init[i] == groupBy[i];
    }
  }

  /** The key an output row starts with. */
  ghost function KeyOf(out: Row, n: nat): Row {
    if n <= |out| then out[..n] else out
  }

  /** The output row of a group: its key, then one cell per aggregate of the rows with that key. */
  ghost predicate GroupRow(rows: seq<Row>, slots: seq<nat>, aggs: seq<Aggregate>, columns: seq<string>, arith: Arithmetic, out: Row) {
    |KeyOf(out, |slots|)| == |slots| && OutputRow(KeyOf(out, |slots|), aggs, columns, WithKey(rows, slots, KeyOf(out, |slots|)), arith, out)
  }

  lemma GroupRowAt(rows: seq<Row>, slots: seq<nat>, group: Group, aggs: seq<Aggregate>, columns: seq<string>, arith: Arithmetic, out: Row)
    requires |group.key| == |slots| && group.rows == WithKey(rows, slots, group.key)
    requires OutputRow(group.key, aggs, columns, group.rows, arith, out)
    ensures KeyOf(out, |slots|) == group.key && GroupRow(rows, slots, aggs, columns, arith, out)
  {
  }

  /** One row per group, its key in front. */
  ghost predicate RowPerGroup(rows: seq<Row>, slots: seq<nat>, groups: seq<Group>, aggs: seq<Aggregate>, columns: seq<string>, arith: Arithmetic, out: seq<Row>) {
    |out| == |groups| && forall g :: 0 <= g < |out| ==> KeyOf(out[g], |slots|) == groups[g].key && GroupRow(rows, slots, aggs, columns, arith, out[g])
  }

  lemma GroupedRowsAre(le: Order<Row>, columns: seq<string>, rows: seq<Row>, slots: seq<nat>, aggs: seq<Aggregate>, arith: Arithmetic, out: seq<Row>)
    requires TotalOrder(le) && OutputFrom(Grouped(le, rows, slots), 0, aggs, columns, arith, []) == Ok(out)
    ensures RowPerGroup(rows, slots, Grouped(le, rows, slots), aggs, columns, arith, out)
  {
    var groups := Grouped(le, rows, slots);
    OutputFromIs(groups, 0, aggs, columns, arith, []);
    GroupsPartition(le, rows, slots);
    GroupKeys(le, rows, slots);
    forall g | 0 <= g < |out| ensures KeyOf(out[g], |slots|) == groups[g].key && GroupRow(rows, slots, aggs, columns, arith, out[g]) {
      GroupRowAt(rows, slots, groups[g], aggs, columns, arith, out[g]);
    }
  }

  /** The keys ascend, and every key that occurs is there. */
  ghost predicate KeysComplete(le: Order<Row>, rows: seq<Row>, slots: seq<nat>, out: seq<Row>) {
    && (forall g, h :: 0 <= g < h < |out| ==> KeyOf(out[g], |slots|) != KeyOf(out[h], |slots|) && le(KeyOf(out[g], |slots|), KeyOf(out[h], |slots|)))
    && (forall i :: 0 <= i < |rows| ==> exists g :: 0 <= g < |out| && KeyOf(out[g], |slots|) == Proj(rows[i], slots))
  }

  lemma KeysAreComplete(le: Order<Row>, columns: seq<string>, rows: seq<Row>, slots: seq<nat>, aggs: seq<Aggregate>, arith: Arithmetic, out: seq<Row>)
    requires TotalOrder(le) && RowPerGroup(rows, slots, Grouped(le, rows, slots), aggs, columns, arith, out)
    ensures KeysComplete(le, rows, slots, out)
  {
    var groups := Grouped(le, rows, slots);
    GroupsPartition(le, rows, slots);
    forall i | 0 <= i < |rows| ensures exists g :: 0 <= g < |out| && KeyOf(out[g], |slots|) == Proj(rows[i], slots) {
      var g :| 0 <= g < |groups| && groups[g].key == Proj(rows[i], slots);
      assert KeyOf(out[g], |slots|) == groups[g].key;
    }
  }

  /**
    A grouped query whose grouping columns exist fails exactly when an aggregate names an unknown
    column and there is a row to group; otherwise it returns, in ascending order of the keys, one row
    for each key that occurs, with the aggregates of exactly the rows that have it.
  */
  lemma GroupedOutput(le: Order<Row>, columns: seq<string>, rows: seq<Row>, groupBy: seq<string>, aggs: seq<Aggregate>, arith: Arithmetic)
    requires groupBy != [] && Resolved(columns, groupBy).Ok? && TotalOrder(le)
    ensures var r := Aggregated(le, columns, rows, groupBy, aggs, arith); var slots := Resolved(columns, groupBy).value;
      && (r.Err? <==> rows != [] && NamesUnknown(aggs, columns))
      && (r.Ok? ==> KeysComplete(le, rows, slots, r.value))
      && (r.Ok? ==> forall g :: 0 <= g < |r.value| ==> GroupRow(rows, slots, aggs, columns, arith, r.value[g]))
  {
    var slots := Resolved(columns, groupBy).value;
    OutputFromIs(Grouped(le, rows, slots), 0, aggs, columns, arith, []);
    GroupsConserve(le, rows, slots, 0);
    var r := Aggregated(le, columns, rows, groupBy, aggs, arith);
    if r.Ok? {
      GroupedRowsAre(le, columns, rows, slots, aggs, arith, r.value);
      KeysAreComplete(le, columns, rows, slots, aggs, arith, r.value);
    }
  }

  lemma {:induction false} GroupKeys(le: Order<Row>, rows: seq<Row>, slots: seq<nat>)
    ensures forall g :: 0 <= g < |Grouped(le, rows, slots)| ==> |Grouped(le, rows, slots)[g].key| == |slots|
  {
    if rows != [] {
      var init, row := rows[..|rows| - 1], rows[|rows| - 1];
      GroupKeys(le, init, slots);
      AddRowKeys(le, Grouped(le, init, slots), Proj(row, slots), row);
      forall g | 0 <= g < |Grouped(le, rows, slots)| ensures |Grouped(le, rows, slots)[g].key| == |slots| {
        assert Grouped(le, rows, slots)[g] in Grouped(le, rows, slots);
      }
    }
  }

  /** Without grouping there is one row, of all rows; it fails exactly when an aggregate names an unknown column. */
  lemma UngroupedOutput(le: Order<Row>, columns: seq<string>, rows: seq<Row>, aggs: seq<Aggregate>, arith: Arithmetic)
    ensures var r := Aggregated(le, columns, rows, [], aggs, arith);
      && (r.Err? <==> NamesUnknown(aggs, columns))
      && (r.Ok? ==> |r.value| == 1 && OutputRow([], aggs, columns, rows, arith, r.value[0]))
  {
    EvaluatedRow(aggs, columns, rows, arith, []);
  }

  // ---------------------------------------------------------------- what adds up

  /** What the cells of one column of the output add up to. */
  ghost function ColumnTotal(out: seq<Row>, c: nat): int {
    if out == [] then 0 else IntOf(At(out[0], c)) + ColumnTotal(out[1..], c)
  }

  lemma {:induction false} CountsTotal(groups: seq<Group>, out: seq<Row>, c: nat)
    requires |out| == |groups| && forall g :: 0 <= g < |out| ==> At(out[g], c) == Int(|groups[g].rows|)
    ensures ColumnTotal(out, c) == TotalCount(groups)
    decreases |out|
  {
    if out != [] {
      CountsTotal(groups[1..], out[1..], c);
    }
  }

  lemma {:induction false} SumsTotal(groups: seq<Group>, out: seq<Row>, c: nat, slot: nat)
    requires |out| == |groups| && forall g :: 0 <= g < |out| ==> IntOf(At(out[g], c)) == IntSum(groups[g].rows, slot)
    ensures ColumnTotal(out, c) == TotalSum(groups, slot)
    decreases |out|
  {
    if out != [] {
      SumsTotal(groups[1..], out[1..], c, slot);
    }
  }

  lemma IntegerSum(rows: seq<Row>, slot: nat, arith: Arithmetic)
    requires Integers(rows, slot)
    ensures var v := ValueOf(Sum, rows, slot, arith); (v == Null || v.Int?) && IntOf(v) == IntSum(rows, slot)
  {
    NoNumbersNoSum(rows, slot);
  }

  lemma {:induction false} KeyedIntegers(rows: seq<Row>, slots: seq<nat>, key: Row, slot: nat)
    requires Integers(rows, slot)
    ensures Integers(WithKey(rows, slots, key), slot)
  {
    if rows != [] {
      var init := rows[..|rows| - 1];
      assert forall i :: 0 <= i < |init| ==> init[i] == rows[i];
      KeyedIntegers(init, slots, key, slot);
    }
  }

  /** Column `c` of the output holds the aggregate of each group. */
  ghost predicate ColumnCells(groups: seq<Group>, a: Aggregate, columns: seq<string>, arith: Arithmetic, out: seq<Row>, c: nat) {
    |out| == |groups| && forall g :: 0 <= g < |out| ==> CellOf(a, columns, groups[g].rows, arith, At(out[g], c))
  }

  lemma {:induction false} CellsByGroup(groups: seq<Group>, aggs: seq<Aggregate>, columns: seq<string>, arith: Arithmetic, out: seq<Row>, n: nat, i: nat)
    requires OutputFrom(groups, 0, aggs, columns, arith, []) == Ok(out) && i < |aggs|
    requires forall g :: 0 <= g < |groups| ==> |groups[g].key| == n
    ensures ColumnCells(groups, aggs[i], columns, arith, out, n + i)
  {
    OutputFromIs(groups, 0, aggs, columns, arith, []);
    forall g | 0 <= g < |out| ensures CellOf(aggs[i], columns, groups[g].rows, arith, At(out[g], n + i)) {
      assert OutputRow(groups[g].key, aggs, columns, groups[g].rows, arith, out[g]);
    }
  }

  lemma KeyedCells(le: Order<Row>, columns: seq<string>, rows: seq<Row>, slots: seq<nat>, aggs: seq<Aggregate>, arith: Arithmetic, out: seq<Row>, i: nat)
    requires OutputFrom(Grouped(le, rows, slots), 0, aggs, columns, arith, []) == Ok(out) && i < |aggs|
    ensures ColumnCells(Grouped(le, rows, slots), aggs[i], columns, arith, out, |slots| + i)
  {
    GroupKeys(le, rows, slots);
    CellsByGroup(Grouped(le, rows, slots), aggs, columns, arith, out, |slots|, i);
  }

  /** The cells of a grouped query, read off its groups. */
  lemma GroupedCells(le: Order<Row>, columns: seq<string>, rows: seq<Row>, groupBy: seq<string>, aggs: seq<Aggregate>, arith: Arithmetic, out: seq<Row>, i: nat)
    requires groupBy != [] && Resolved(columns, groupBy).Ok? && i < |aggs|
    requires Aggregated(le, columns, rows, groupBy, aggs, arith) == Ok(out)
    ensures ColumnCells(Grouped(le, rows, Resolved(columns, groupBy).value), aggs[i], columns, arith, out, |groupBy| + i)
  {
    ResolvedIs(columns, groupBy);
    KeyedCells(le, columns, rows, Resolved(columns, groupBy).value, aggs, arith, out, i);
  }

  /** The COUNT cells of a grouped query add up to the number of rows. */
  lemma CountsAddUp(le: Order<Row>, columns: seq<string>, rows: seq<Row>, groupBy: seq<string>, aggs: seq<Aggregate>, arith: Arithmetic, out: seq<Row>, i: nat)
    requires groupBy != [] && Resolved(columns, groupBy).Ok? && i < |aggs| && aggs[i].func == Count
    requires Aggregated(le, columns, rows, groupBy, aggs, arith) == Ok(out)
    ensures ColumnTotal(out, |groupBy| + i) == |rows|
  {
    var slots := Resolved(columns, groupBy).value;
    GroupedCells(le, columns, rows, groupBy, aggs, arith, out, i);
    CountsTotal(Grouped(le, rows, slots), out, |groupBy| + i);
    GroupsConserve(le, rows, slots, 0);
  }

  ghost predicate IntegerColumn(out: seq<Row>, c: nat) {
    forall g :: 0 <= g < |out| ==> At(out[g], c) == Null || At(out[g], c).Int?
  }

  lemma GroupSums(le: Order<Row>, columns: seq<string>, rows: seq<Row>, slots: seq<nat>, a: Aggregate, arith: Arithmetic, out: seq<Row>, c: nat, slot: nat)
    requires TotalOrder(le) && a.func == Sum && Position(columns, a.column) == Some(slot) && Integers(rows, slot)
    requires ColumnCells(Grouped(le, rows, slots), a, columns, arith, out, c)
    ensures ColumnTotal(out, c) == IntSum(rows, slot) && IntegerColumn(out, c)
  {
    var groups := Grouped(le, rows, slots);
    GroupsPartition(le, rows, slots);
    forall g | 0 <= g < |out|
      ensures IntOf(At(out[g], c)) == IntSum(groups[g].rows, slot) && (At(out[g], c) == Null || At(out[g], c).Int?)
    {
      KeyedIntegers(rows, slots, groups[g].key, slot);
      IntegerSum(groups[g].rows, slot, arith);
      SumCell(a, columns, groups[g].rows, arith, At(out[g], c), slot);
    }
    SumsTotal(groups, out, c, slot);
    GroupsConserve(le, rows, slots, slot);
  }

  /** The SUM cells over a column without floats add up to the SUM cell of the ungrouped query, NULL as zero. */
  lemma SumsAddUp(le: Order<Row>, columns: seq<string>, rows: seq<Row>, groupBy: seq<string>, aggs: seq<Aggregate>, arith: Arithmetic, out: seq<Row>, whole: Row, i: nat, slot: nat)
    requires groupBy != [] && Resolved(columns, groupBy).Ok? && TotalOrder(le) && i < |aggs| && aggs[i].func == Sum
    requires Position(columns, aggs[i].column) == Some(slot) && Integers(rows, slot)
    requires Aggregated(le, columns, rows, groupBy, aggs, arith) == Ok(out) && Aggregated(le, columns, rows, [], aggs, arith) == Ok([whole])
    ensures i < |whole| && ColumnTotal(out, |groupBy| + i) == IntOf(whole[i]) && IntegerColumn(out, |groupBy| + i)
  {
    GroupedCells(le, columns, rows, groupBy, aggs, arith, out, i);
    GroupSums(le, columns, rows, Resolved(columns, groupBy).value, aggs[i], arith, out, |groupBy| + i, slot);
    WholeSum(le, columns, rows, aggs, arith, whole, i, slot);
  }

  lemma WholeSum(le: Order<Row>, columns: seq<string>, rows: seq<Row>, aggs: seq<Aggregate>, arith: Arithmetic, whole: Row, i: nat, slot: nat)
    requires i < |aggs| && aggs[i].func == Sum && Position(columns, aggs[i].column) == Some(slot) && Integers(rows, slot)
    requires Aggregated(le, columns, rows, [], aggs, arith) == Ok([whole])
    ensures i < |whole| && IntOf(whole[i]) == IntSum(rows, slot)
  {
    UngroupedOutput(le, columns, rows, aggs, arith);
    assert OutputRow([], aggs, columns, rows, arith, whole);
    IntegerSum(rows, slot, arith);
    SumCell(aggs[i], columns, rows, arith, whole[i], slot);
  }

  lemma SumCell(a: Aggregate, columns: seq<string>, rows: seq<Row>, arith: Arithmetic, cell: Value, slot: nat)
    requires a.func == Sum && CellOf(a, columns, rows, arith, cell) && Position(columns, a.column) == Some(slot)
    ensures cell == ValueOf(Sum, rows, slot, arith)
  {
    var s :| && 0 <= s < |columns| && columns[s] == a.column && (forall j :: 0 <= j < s ==> columns[j] != a.column)
             && cell == ValueOf(a.func, rows, s, arith);
    assert s == slot;
  }
}
