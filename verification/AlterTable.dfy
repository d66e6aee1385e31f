/** ALTER TABLE rewrites every stored row; adding a column and dropping it again restores them byte for byte. */
module AlterTable {
  import opened Common
  import opened Values
  import opened RowCodec

  type Tree = map<nat, seq<byte>>

  /** `SlotOutOfRange` stands for the panic of taking a value out of a row that is too short. */
  datatype AlterError = DuplicateColumn | UnknownColumn | ImplicitId | Corrupt(error: CodecError) | SlotOutOfRange

  datatype Column = Column(name: string, ctype: nat)

  datatype TableState = TableState(columns: seq<Column>, tree: Tree, nextRowId: nat)

  /** The position of a column, the first if the name repeats. */
  function Find(columns: seq<Column>, name: string): (r: Option<nat>)
    ensures r.Some? ==> r.value < |columns| && columns[r.value].name == name
    ensures r.Some? ==> forall i :: 0 <= i < r.value ==> columns[i].name != name
    ensures r.None? ==> forall i :: 0 <= i < |columns| ==> columns[i].name != name
  {
    if columns == [] then None
    else if columns[0].name == name then Some(0)
    else match Find(columns[1..], name) case Some(i) => Some(i + 1) case None => None
  }

  /** The change to each row: a NULL at the end, or one value taken out. */
  datatype Change = Append | TakeOut(slot: nat)

  function Changed(row: Row, c: Change): Row {
    match c
    case Append => row + [Null]
    case TakeOut(i) => if i < |row| then row[..i] + row[i + 1..] else row
  }

  /** Why a stored row cannot be rewritten: it does not decode, or is too short. */
  function Problem(bytes: seq<byte>, c: Change): Option<AlterError> {
    match TryDecodeRow(bytes)
    case Err(e) => Some(Corrupt(e))
    case Ok(row) => if c.TakeOut? && c.slot >= |row| then Some(SlotOutOfRange) else None
  }

  /** The first stored row below `n` that cannot be rewritten. */
  function FirstProblem(tree: Tree, n: nat, c: Change): Option<AlterError> {
    if n == 0 then None
    else
      match FirstProblem(tree, n - 1, c)
      case Some(e) => Some(e)
      case None => if n - 1 in tree then Problem(tree[n - 1], c) else None
  }

  function Rewritten(bytes: seq<byte>, c: Change): seq<byte> {
    match TryDecodeRow(bytes) case Ok(row) => EncodeRow(Changed(row, c)) case Err(_) => bytes
  }

  function AllRewritten(tree: Tree, c: Change): Tree {
    map id | id in tree :: Rewritten(tree[id], c)
  }

  /** `tree` with the rows below `n` replaced by those of `rows`. */
  function Overlaid(tree: Tree, rows: Tree, n: nat): Tree
    requires tree.Keys == rows.Keys
  {
    map id | id in tree :: if id < n then rows[id] else tree[id]
  }

  function RewrittenTree(tree: Tree, n: nat, c: Change): Tree {
    Overlaid(tree, AllRewritten(tree, c), n)
  }

  function AddColumn(t: TableState, col: Column): Result<TableState, AlterError> {
    if Find(t.columns, col.name).Some? then Err(DuplicateColumn)
    else
      match FirstProblem(t.tree, t.nextRowId, Append)
      case Some(e) => Err(e)
      case None => Ok(t.(columns := t.columns + [col], tree := RewrittenTree(t.tree, t.nextRowId, Append)))
  }

  function DropColumn(t: TableState, name: string): Result<TableState, AlterError> {
    match Find(t.columns, name)
    case None => Err(UnknownColumn)
    case Some(i) =>
      if i == 0 then Err(ImplicitId)
      else
        match FirstProblem(t.tree, t.nextRowId, TakeOut(i))
        case Some(e) => Err(e)
        case None =>
          Ok(t.(columns := t.columns[..i] + t.columns[i + 1..], tree := RewrittenTree(t.tree, t.nextRowId, TakeOut(i))))
  }

  // ---------------------------------------------------------------- adding, then dropping

  /** The bytes of a row of the given width, as INSERT and UPDATE store them. */
  ghost predicate StoredRow(bytes: seq<byte>, width: nat) {
    exists row: Row :: bytes == EncodeRow(row) && AllFit(row) && |row| == width
  }

  ghost predicate AllStored(t: TableState) {
    forall id :: id in t.tree ==> id < t.nextRowId && StoredRow(t.tree[id], |t.columns|)
  }

  /** Taking out what was appended gives the bytes back. */
  lemma RewriteUndone(bytes: seq<byte>, width: nat)
    requires StoredRow(bytes, width) && width + 1 < 65_536
    ensures Problem(bytes, Append).None? && Problem(Rewritten(bytes, Append), TakeOut(width)).None?
    ensures StoredRow(Rewritten(bytes, Append), width + 1)
    ensures Rewritten(Rewritten(bytes, Append), TakeOut(width)) == bytes
  {
    var row: Row :| bytes == EncodeRow(row) && AllFit(row) && |row| == width;
    var wide := row + [Null];
    RowRoundTrip(row);
    assert AllFit(wide);
    RowRoundTrip(wide);
    assert Changed(row, Append) == wide;
    assert wide[..width] + wide[width + 1..] == row;
  }

  lemma {:induction false} NoProblem(tree: Tree, n: nat, c: Change)
    requires forall id :: id in tree ==> Problem(tree[id], c).None?
    ensures FirstProblem(tree, n, c).None?
  {
    if n > 0 {
      NoProblem(tree, n - 1, c);
    }
  }

  lemma {:induction false} SomeProblem(tree: Tree, n: nat, c: Change, id: nat)
    requires id in tree && id < n && Problem(tree[id], c).Some?
    ensures FirstProblem(tree, n, c).Some?
    decreases n
  {
    if id < n - 1 {
      SomeProblem(tree, n - 1, c, id);
    }
  }

  lemma FindLast(columns: seq<Column>, col: Column)
    requires Find(columns, col.name).None?
    ensures Find(columns + [col], col.name) == Some(|columns|)
  {
    var all := columns + [col];
    assert all[|columns|] == col;
    var r := Find(all, col.name);
    assert r.Some?;
    assert forall i :: 0 <= i < |columns| ==> all[i] == columns[i];
  }

  lemma AllDecode(t: TableState)
    requires AllStored(t) && |t.columns| + 1 < 65_536
    ensures FirstProblem(t.tree, t.nextRowId, Append).None?
  {
    forall id | id in t.tree ensures Problem(t.tree[id], Append).None? {
      RewriteUndone(t.tree[id], |t.columns|);
    }
    NoProblem(t.tree, t.nextRowId, Append);
  }

  /** One row of the widened tree. */
  lemma WideRow(tree: Tree, n: nat, width: nat, id: nat)
    requires id in tree && id < n && StoredRow(tree[id], width) && width + 1 < 65_536
    ensures var wide := RewrittenTree(tree, n, Append)[id];
      Problem(wide, TakeOut(width)).None? && StoredRow(wide, width + 1) && Rewritten(wide, TakeOut(width)) == tree[id]
  {
    RewriteUndone(tree[id], width);
  }

  lemma WideStored(t: TableState)
    requires AllStored(t) && |t.columns| + 1 < 65_536
    ensures var wide := RewrittenTree(t.tree, t.nextRowId, Append);
      forall id :: id in wide ==> id < t.nextRowId && StoredRow(wide[id], |t.columns| + 1)
  {
    var wide := RewrittenTree(t.tree, t.nextRowId, Append);
    forall id | id in wide ensures StoredRow(wide[id], |t.columns| + 1) {
      WideRow(t.tree, t.nextRowId, |t.columns|, id);
    }
  }

  lemma WideDecodes(t: TableState)
    requires AllStored(t) && |t.columns| + 1 < 65_536
    ensures FirstProblem(RewrittenTree(t.tree, t.nextRowId, Append), t.nextRowId, TakeOut(|t.columns|)).None?
  {
    var wide := RewrittenTree(t.tree, t.nextRowId, Append);
    forall id | id in wide ensures Problem(wide[id], TakeOut(|t.columns|)).None? {
      WideRow(t.tree, t.nextRowId, |t.columns|, id);
    }
    NoProblem(wide, t.nextRowId, TakeOut(|t.columns|));
  }

  lemma WideUndone(t: TableState)
    requires AllStored(t) && |t.columns| + 1 < 65_536
    ensures RewrittenTree(RewrittenTree(t.tree, t.nextRowId, Append), t.nextRowId, TakeOut(|t.columns|)) == t.tree
  {
    var wide := RewrittenTree(t.tree, t.nextRowId, Append);
    forall id | id in wide ensures Rewritten(wide[id], TakeOut(|t.columns|)) == t.tree[id] {
      WideRow(t.tree, t.nextRowId, |t.columns|, id);
    }
  }

  lemma DroppedColumns(columns: seq<Column>, col: Column)
    ensures (columns + [col])[..|columns|] + (columns + [col])[|columns| + 1..] == columns
  {
  }

  /** On a table below the limit, ADD COLUMN succeeds on stored rows, and DROP COLUMN restores every row byte for byte. */
  lemma AddThenDrop(t: TableState, col: Column)
    requires AllStored(t) && 0 < |t.columns| < 65_535 && Find(t.columns, col.name).None?
    ensures AddColumn(t, col).Ok? && AllStored(AddColumn(t, col).value)
    ensures DropColumn(AddColumn(t, col).value, col.name) == Ok(t)
  {
    AllDecode(t);
    WideStored(t);
    WideDecodes(t);
    WideUndone(t);
    FindLast(t.columns, col);
    DroppedColumns(t.columns, col);
  }

  lemma EmptyAddThenDrop(t: TableState, col: Column)
    requires t.tree == map[] && 0 < |t.columns| && Find(t.columns, col.name).None?
    ensures AddColumn(t, col).Ok? && DropColumn(AddColumn(t, col).value, col.name) == Ok(t)
  {
    NoProblem(t.tree, t.nextRowId, Append);
    assert RewrittenTree(t.tree, t.nextRowId, Append) == map[];
    NoProblem(map[], t.nextRowId, TakeOut(|t.columns|));
    assert RewrittenTree(map[], t.nextRowId, TakeOut(|t.columns|)) == map[];
    FindLast(t.columns, col);
    DroppedColumns(t.columns, col);
  }

  /** No row is wide enough to have its 65,536th value, or a later one, taken out. */
  lemma TooShort(bytes: seq<byte>, slot: nat)
    requires slot >= 65_535
    ensures Problem(bytes, TakeOut(slot)).Some?
  {
    if TryDecodeRow(bytes).Ok? {
      DecodedWidth(bytes);
    }
  }

  lemma WideCannotDrop(t: TableState, col: Column)
    requires |t.columns| >= 65_535 && Find(t.columns, col.name).None? && AddColumn(t, col).Ok?
    requires exists id :: id in t.tree && id < t.nextRowId
    ensures DropColumn(AddColumn(t, col).value, col.name).Err?
  {
    var id :| id in t.tree && id < t.nextRowId;
    var wide := AddColumn(t, col).value;
    FindLast(t.columns, col);
    TooShort(wide.tree[id], |t.columns|);
    SomeProblem(wide.tree, wide.nextRowId, TakeOut(|t.columns|), id);
  }

  /**
    On stored rows, ADD COLUMN followed by DROP COLUMN of it restores the table if and only if the
    table has fewer than 65,535 columns or no rows: beyond that the column count of the widened
    rows no longer fits its two bytes.
  */
  lemma AddThenDropExactly(t: TableState, col: Column)
    requires AllStored(t) && 0 < |t.columns| && Find(t.columns, col.name).None?
    ensures (AddColumn(t, col).Ok? && DropColumn(AddColumn(t, col).value, col.name) == Ok(t)) <==>
            |t.columns| < 65_535 || t.tree == map[]
  {
    if t.tree == map[] {
      EmptyAddThenDrop(t, col);
    } else if |t.columns| < 65_535 {
      AddThenDrop(t, col);
    } else if AddColumn(t, col).Ok? {
      var id :| id in t.tree;
      WideCannotDrop(t, col);
    }
  }

  // ---------------------------------------------------------------- what each does to the rows

  /** Every row of the table decodes, and is long enough for the change. */
  ghost predicate AllRewritable(tree: Tree, n: nat, slot: Option<nat>) {
    forall id :: id in tree && id < n ==> TryDecodeRow(tree[id]).Ok? && (slot.Some? ==> slot.value < |TryDecodeRow(tree[id]).value|)
  }

  lemma {:induction false} NoProblemExactly(tree: Tree, n: nat, c: Change)
    ensures FirstProblem(tree, n, c).None? <==> AllRewritable(tree, n, if c.TakeOut? then Some(c.slot) else None)
  {
    if n > 0 {
      NoProblemExactly(tree, n - 1, c);
    }
  }

  /** ADD COLUMN succeeds exactly when the name is new and every row decodes; DROP COLUMN when the column is there, is not the id, and every row has it. */
  lemma AlterSucceedsExactly(t: TableState, col: Column, name: string)
    ensures AddColumn(t, col).Ok? <==>
      (forall i :: 0 <= i < |t.columns| ==> t.columns[i].name != col.name) && AllRewritable(t.tree, t.nextRowId, None)
    ensures DropColumn(t, name).Ok? <==>
      exists i :: 0 < i < |t.columns| && t.columns[i].name == name && (forall j :: 0 <= j < i ==> t.columns[j].name != name) && AllRewritable(t.tree, t.nextRowId, Some(i))
  {
    NoProblemExactly(t.tree, t.nextRowId, Append);
    match Find(t.columns, name)
    case Some(i) => NoProblemExactly(t.tree, t.nextRowId, TakeOut(i));
    case None =>
  }

  /** A stored row and the values it decodes to. */
  ghost predicate Decodes(bytes: seq<byte>, row: Row) {
    TryDecodeRow(bytes) == Ok(row)
  }

  /** ADD COLUMN appends the column, and a NULL to every row. */
  lemma AddedRows(t: TableState, col: Column, id: nat)
    requires AllStored(t) && |t.columns| + 1 < 65_536 && Find(t.columns, col.name).None? && id in t.tree
    ensures AddColumn(t, col).Ok?
    ensures var t' := AddColumn(t, col).value;
      && t'.columns == t.columns + [col] && t'.nextRowId == t.nextRowId && t'.tree.Keys == t.tree.Keys
      && TryDecodeRow(t.tree[id]).Ok? && Decodes(t'.tree[id], TryDecodeRow(t.tree[id]).value + [Null])
  {
    AllDecode(t);
    var row: Row :| t.tree[id] == EncodeRow(row) && AllFit(row) && |row| == |t.columns|;
    RowRoundTrip(row);
    assert AllFit(row + [Null]);
    RowRoundTrip(row + [Null]);
  }

  /** The row without the value in slot `i`: the values before it stay, those after it move up. */
  ghost predicate TakenOut(row: Row, i: nat, row': Row) {
    |row'| == |row| - 1 && (forall j :: 0 <= j < i && j < |row'| ==> row'[j] == row[j]) && forall j :: i <= j < |row'| ==> row'[j] == row[j + 1]
  }

  lemma Reads(row: Row, bytes: seq<byte>)
    requires AllFit(row) && |row| < 65_536 && bytes == EncodeRow(row)
    ensures TryDecodeRow(bytes) == Ok(row)
  {
    RowRoundTrip(row);
  }

  lemma StillFits(row: Row, i: nat, less: Row)
    requires AllFit(row) && i < |row| && less == row[..i] + row[i + 1..]
    ensures AllFit(less)
  {
  }

  lemma TakenOutIs(row: Row, i: nat, less: Row)
    requires i < |row| && less == row[..i] + row[i + 1..]
    ensures TakenOut(row, i, less)
  {
  }

  lemma RewrittenIs(bytes: seq<byte>, row: Row, i: nat, less: Row)
    requires TryDecodeRow(bytes) == Ok(row) && i < |row| && less == row[..i] + row[i + 1..]
    ensures Rewritten(bytes, TakeOut(i)) == EncodeRow(less)
  {
  }

  lemma TakenOutOf(bytes: seq<byte>, width: nat, i: nat)
    requires StoredRow(bytes, width) && i < width < 65_536
    ensures var less := Rewritten(bytes, TakeOut(i));
      TryDecodeRow(bytes).Ok? && TryDecodeRow(less).Ok? && TakenOut(TryDecodeRow(bytes).value, i, TryDecodeRow(less).value)
  {
    var row: Row :| bytes == EncodeRow(row) && AllFit(row) && |row| == width;
    var less := row[..i] + row[i + 1..];
    Reads(row, bytes);
    StillFits(row, i, less);
    RewrittenIs(bytes, row, i, less);
    Reads(less, EncodeRow(less));
    TakenOutIs(row, i, less);
  }

  lemma AllCanDrop(t: TableState, i: nat)
    requires AllStored(t) && i < |t.columns| < 65_536
    ensures FirstProblem(t.tree, t.nextRowId, TakeOut(i)).None?
  {
    forall id | id in t.tree ensures Problem(t.tree[id], TakeOut(i)).None? {
      StoredDecodes(t.tree[id], |t.columns|);
    }
    NoProblem(t.tree, t.nextRowId, TakeOut(i));
  }

  /** DROP COLUMN removes the column, and its value from every row. */
  lemma DroppedRows(t: TableState, i: nat, id: nat)
    requires AllStored(t) && |t.columns| < 65_536 && 0 < i < |t.columns| && Find(t.columns, t.columns[i].name) == Some(i) && id in t.tree
    ensures DropColumn(t, t.columns[i].name).Ok?
    ensures var t' := DropColumn(t, t.columns[i].name).value;
      && t'.columns == t.columns[..i] + t.columns[i + 1..] && t'.nextRowId == t.nextRowId && t'.tree.Keys == t.tree.Keys
      && TryDecodeRow(t.tree[id]).Ok? && TryDecodeRow(t'.tree[id]).Ok?
      && TakenOut(TryDecodeRow(t.tree[id]).value, i, TryDecodeRow(t'.tree[id]).value)
  {
    AllCanDrop(t, i);
    TakenOutOf(t.tree[id], |t.columns|, i);
  }

  lemma StoredDecodes(bytes: seq<byte>, width: nat)
    requires StoredRow(bytes, width) && width < 65_536
    ensures TryDecodeRow(bytes).Ok? && |TryDecodeRow(bytes).value| == width
  {
    var row: Row :| bytes == EncodeRow(row) && AllFit(row) && |row| == width;
    RowRoundTrip(row);
  }

  // ---------------------------------------------------------------- the rewriting loops

  datatype Replacement = Replacement(id: nat, bytes: seq<byte>)

  /** The rows below `n`, in id order. */
  function Listing(rows: Tree, n: nat): seq<Replacement> {
    if n == 0 then []
    else if n - 1 in rows then Listing(rows, n - 1) + [Replacement(n - 1, rows[n - 1])]
    else Listing(rows, n - 1)
  }

  function Replaced(tree: Tree, rows: seq<Replacement>): Tree {
    if rows == [] then tree
    else Replaced(tree, rows[..|rows| - 1])[rows[|rows| - 1].id := rows[|rows| - 1].bytes]
  }

  lemma OverlaidNone(tree: Tree, rows: Tree)
    requires tree.Keys == rows.Keys
    ensures Overlaid(tree, rows, 0) == tree
  {
  }

  lemma OverlaidNext(tree: Tree, rows: Tree, n: nat)
    requires tree.Keys == rows.Keys
    ensures n in tree ==> Overlaid(tree, rows, n + 1) == Overlaid(tree, rows, n)[n := rows[n]]
    ensures n !in tree ==> Overlaid(tree, rows, n + 1) == Overlaid(tree, rows, n)
  {
  }

  lemma ReplacedAppend(tree: Tree, list: seq<Replacement>, x: Replacement, longer: seq<Replacement>, before: Tree, after: Tree)
    requires longer == list + [x] && Replaced(tree, list) == before && after == before[x.id := x.bytes]
    ensures Replaced(tree, longer) == after
  {
    assert longer[..|list|] == list;
  }

  lemma {:induction false} ReplacedIs(tree: Tree, rows: Tree, n: nat)
    requires tree.Keys == rows.Keys
    ensures Replaced(tree, Listing(rows, n)) == Overlaid(tree, rows, n)
  {
    if n == 0 {
      OverlaidNone(tree, rows);
    } else {
      ReplacedIs(tree, rows, n - 1);
      OverlaidNext(tree, rows, n - 1);
      if n - 1 in tree {
        ReplacedAppend(tree, Listing(rows, n - 1), Replacement(n - 1, rows[n - 1]), Listing(rows, n),
                       Overlaid(tree, rows, n - 1), Overlaid(tree, rows, n));
      }
    }
  }

  // ---------------------------------------------------------------- the table object

  class Table {
    var columns: seq<Column>
    var tree: Tree
    var nextRowId: nat

    ghost function State(): TableState
      reads this
    {
      TableState(columns, tree, nextRowId)
    }

    /** Re-encodes every row into a list first, so that a row that cannot be rewritten leaves the tree alone. */
    method Collect(c: Change) returns (r: Result<seq<Replacement>, AlterError>)
      ensures FirstProblem(tree, nextRowId, c) == if r.Ok? then None else Some(r.error)
      ensures r.Ok? ==> r.value == Listing(AllRewritten(tree, c), nextRowId)
    {
      var out: seq<Replacement> := [];
      for id := 0 to nextRowId
        invariant FirstProblem(tree, id, c).None? && out == Listing(AllRewritten(tree, c), id)
      {
        if id in tree {
          var row := ReadRow(tree[id]);
          if row.Err? {
            ProblemStays(tree, id + 1, nextRowId, c);
            return Err(Corrupt(row.error));
          }
          if c.TakeOut? && c.slot >= |row.value| {
            ProblemStays(tree, id + 1, nextRowId, c);
            return Err(SlotOutOfRange);
          }
          var bytes := PushRow(Changed(row.value, c));
          out := out + [Replacement(id, bytes)];
        }
      }
      r := Ok(out);
    }

    method Rewrite(rows: seq<Replacement>, c: Change)
      requires rows == Listing(AllRewritten(tree, c), nextRowId)
      modifies this`tree
      ensures tree == RewrittenTree(old(tree), nextRowId, c)
    {
      ghost var before := tree;
      for i := 0 to |rows|
        invariant tree == Replaced(before, rows[..i])
      {
        assert rows[..i + 1][..i] == rows[..i];
        tree := tree[rows[i].id := rows[i].bytes];
      }
      assert rows[..|rows|] == rows;
      ReplacedIs(before, AllRewritten(before, c), nextRowId);
    }

    method Add(col: Column) returns (r: Result<(), AlterError>)
      modifies this`columns, this`tree
      ensures r.Ok? ==> AddColumn(old(State()), col) == Ok(State())
      ensures r.Err? ==> State() == old(State()) && AddColumn(old(State()), col) == Err(r.error)
    {
      if Find(columns, col.name).Some? {
        return Err(DuplicateColumn);
      }
      var rows := Collect(Append);
      if rows.Err? {
        return Err(rows.error);
      }
      Rewrite(rows.value, Append);
      columns := columns + [col];
      r := Ok(());
    }

    method Drop(name: string) returns (r: Result<(), AlterError>)
      modifies this`columns, this`tree
      ensures r.Ok? ==> DropColumn(old(State()), name) == Ok(State())
      ensures r.Err? ==> State() == old(State()) && DropColumn(old(State()), name) == Err(r.error)
    {
      var i := Find(columns, name);
      if i.None? {
        return Err(UnknownColumn);
      }
      if i.value == 0 {
        return Err(ImplicitId);
      }
      var rows := Collect(TakeOut(i.value));
      if rows.Err? {
        return Err(rows.error);
      }
      Rewrite(rows.value, TakeOut(i.value));
      columns := columns[..i.value] + columns[i.value + 1..];
      r := Ok(());
    }
  }

  lemma {:induction false} ProblemStays(tree: Tree, n: nat, m: nat, c: Change)
    requires n <= m && FirstProblem(tree, n, c).Some?
    ensures FirstProblem(tree, m, c) == FirstProblem(tree, n, c)
    decreases m
  {
    if n < m {
      ProblemStays(tree, n, m - 1, c);
    }
  }
}
