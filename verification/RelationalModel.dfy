/**
  Tables, statements, transactions and sessions as values. A table's B-Link tree is the map it
  refines, and its rows are decoded; a buffered write is a row, or none for a deleted one.
*/
module RelationalModel {
  import opened Common
  import opened Values
  import opened MvccModel

  datatype DbError =
    | UnknownTable | UnknownColumn | ArityMismatch | BadFilter
    | NotNullViolation | UniqueViolation | CheckViolation | ForeignKeyViolation
    | TransactionError | CommitConflict

  /** Columns are given by their slots. */
  datatype ForeignKey = ForeignKey(columns: seq<nat>, refTable: string, refColumns: seq<nat>)

  /** A WHERE or CHECK expression as a function of the row; NULL counts as false, and evaluation may fail. */
  type Filter = Row -> Result<bool, DbError>

  /** `unique` lists the primary key's columns first, if there is one, then each UNIQUE group. */
  datatype Schema = Schema(width: nat, notNull: seq<nat>, unique: seq<seq<nat>>, checks: seq<Filter>, foreignKeys: seq<ForeignKey>)

  type Tree = map<nat, Row>
  type Writes = map<nat, Option<Row>>

  datatype Table = Table(schema: Schema, tree: Tree, nextRowId: nat, store: Store<Option<Row>>)

  /** A transaction on one table. */
  datatype Named = Named(table: string, txn: Txn<Option<Row>>)

  datatype Session = Session(inTxn: bool, active: seq<Named>)

  datatype Db = Db(tables: map<string, Table>, inTxn: bool, active: seq<Named>, sessions: map<nat, Session>)

  datatype Assignment = Assignment(slot: nat, value: Value)

  /** An empty column list of an INSERT means all columns. */
  datatype Statement =
    | Begin
    | Commit
    | Rollback
    | Insert(table: string, cols: seq<nat>, values: seq<Row>)
    | Update(table: string, filter: Filter, assignments: seq<Assignment>)
    | Delete(table: string, filter: Filter)
    | Select(table: string)

  datatype Output = Done | Count(n: nat) | Rows(rows: seq<Row>)

  type Outcome = Result<Output, DbError>

  // ---------------------------------------------------------------- what a transaction sees

  function FindTxn(active: seq<Named>, name: string): (r: Option<nat>)
    ensures r.Some? ==> r.value < |active| && active[r.value].table == name
    ensures r.None? ==> forall i :: 0 <= i < |active| ==> active[i].table != name
  {
    if active == [] then None
    else if active[0].table == name then Some(0)
    else match FindTxn(active[1..], name) case Some(i) => Some(i + 1) case None => None
  }

  function WritesFor(active: seq<Named>, name: string): Writes {
    match FindTxn(active, name) case Some(i) => active[i].txn.writes case None => map[]
  }

  /** A row as seen through buffered writes. */
  function Live(tree: Tree, writes: Writes, id: nat): Option<Row> {
    if id in writes then writes[id] else if id in tree then Some(tree[id]) else None
  }

  /** Some live row other than `exclude` has `key` in `slots`. */
  predicate HoldsKey(t: Table, writes: Writes, slots: seq<nat>, key: Row, exclude: Option<nat>) {
    exists id: nat :: id < t.nextRowId && exclude != Some(id) && HasKey(Live(t.tree, writes, id), slots, key)
  }

  predicate HasKey(row: Option<Row>, slots: seq<nat>, key: Row) {
    row.Some? && Proj(row.value, slots) == key
  }

  /** The rows a scan returns, in id order. */
  function ScanFrom(t: Table, writes: Writes, id: nat): seq<Row>
    requires id <= t.nextRowId
    decreases t.nextRowId - id
  {
    if id == t.nextRowId then []
    else (match Live(t.tree, writes, id) case Some(row) => [row] case None => []) + ScanFrom(t, writes, id + 1)
  }

  /** The ids of live rows that pass the filter, in order; an error of the filter stops the search. */
  function MatchingFrom(t: Table, writes: Writes, filter: Filter, id: nat, found: seq<nat>): Result<seq<nat>, DbError>
    requires id <= t.nextRowId
    decreases t.nextRowId - id
  {
    if id == t.nextRowId then Ok(found)
    else
      match Live(t.tree, writes, id)
      case None => MatchingFrom(t, writes, filter, id + 1, found)
      case Some(row) =>
        match filter(row)
        case Err(e) => Err(e)
        case Ok(keep) => MatchingFrom(t, writes, filter, id + 1, if keep then found + [id] else found)
  }

  // ---------------------------------------------------------------- constraints

  predicate MissesValue(schema: Schema, row: Row) {
    exists i :: 0 <= i < |schema.notNull| && At(row, schema.notNull[i]) == Null
  }

  predicate Duplicates(t: Table, writes: Writes, row: Row, exclude: Option<nat>) {
    exists g :: 0 <= g < |t.schema.unique| && Null !in Proj(row, t.schema.unique[g]) &&
      HoldsKey(t, writes, t.schema.unique[g], Proj(row, t.schema.unique[g]), exclude)
  }

  /** The first CHECK that fails or cannot be evaluated. */
  function FailedCheck(checks: seq<Filter>, row: Row): Option<DbError> {
    if checks == [] then None
    else
      match checks[0](row)
      case Err(e) => Some(e)
      case Ok(passes) => if passes then FailedCheck(checks[1..], row) else Some(CheckViolation)
  }

  predicate KeyPresent(db: Db, name: string, slots: seq<nat>, key: Row) {
    name in db.tables && HoldsKey(db.tables[name], WritesFor(db.active, name), slots, key, None)
  }

  predicate Dangles(db: Db, schema: Schema, row: Row) {
    exists f :: 0 <= f < |schema.foreignKeys| && var fk := schema.foreignKeys[f];
      Null !in Proj(row, fk.columns) && !KeyPresent(db, fk.refTable, fk.refColumns, Proj(row, fk.columns))
  }

  /** The first constraint a candidate row breaks: NOT NULL, then PRIMARY KEY and UNIQUE, CHECK, FOREIGN KEY. */
  function Enforce(db: Db, name: string, row: Row, exclude: Option<nat>): Option<DbError>
    requires name in db.tables
  {
    var t := db.tables[name];
    if MissesValue(t.schema, row) then Some(NotNullViolation)
    else if Duplicates(t, WritesFor(db.active, name), row, exclude) then Some(UniqueViolation)
    else if FailedCheck(t.schema.checks, row).Some? then FailedCheck(t.schema.checks, row)
    else if Dangles(db, t.schema, row) then Some(ForeignKeyViolation)
    else None
  }

  /** Some live row of some table refers to `row` of table `name`. */
  predicate Referenced(db: Db, name: string, row: Row) {
    exists other :: other in db.tables && ReferencedFrom(db, other, name, row)
  }

  predicate ReferencedFrom(db: Db, other: string, name: string, row: Row)
    requires other in db.tables
  {
    var t := db.tables[other];
    exists f :: 0 <= f < |t.schema.foreignKeys| && var fk := t.schema.foreignKeys[f];
      && fk.refTable == name && Null !in Proj(row, fk.refColumns)
      && HoldsKey(t, WritesFor(db.active, other), fk.columns, Proj(row, fk.refColumns), None)
  }

  // ---------------------------------------------------------------- writing

  /** Opens a transaction on the table the first time an open transaction touches it. */
  function EnsureTxn(db: Db, name: string): Db {
    if FindTxn(db.active, name).Some? || name !in db.tables then db
    else db.(active := db.active + [Named(name, MvccModel.Begin(db.tables[name].store))])
  }

  function Changed(tree: Tree, id: nat, v: Option<Row>): Tree {
    match v case Some(row) => tree[id := row] case None => tree - {id}
  }

  function SetTable(db: Db, name: string, t: Table): Db {
    db.(tables := db.tables[name := t])
  }

  /** Stores or deletes one row: buffered inside a transaction, straight into the tree outside. */
  function Put(db: Db, name: string, id: nat, v: Option<Row>): Db
    requires name in db.tables
  {
    if !db.inTxn then
      var t := db.tables[name];
      SetTable(db, name, t.(tree := Changed(t.tree, id, v)))
    else
      match FindTxn(db.active, name)
      case None => db
      case Some(i) => db.(active := db.active[i := Named(name, MvccModel.Write(db.active[i].txn, id, v))])
  }

  // ---------------------------------------------------------------- INSERT

  function AllSlots(n: nat): seq<nat> {
    if n == 0 then [] else AllSlots(n - 1) + [n - 1]
  }

  function Nulls(n: nat): (r: Row)
    ensures |r| == n && forall i :: 0 <= i < n ==> r[i] == Null
  {
    if n == 0 then [] else Nulls(n - 1) + [Null]
  }

  /** `row` with the given slots filled in, in order. */
  function Filled(row: Row, cols: seq<nat>, vals: Row): (r: Row)
    requires |cols| == |vals| && forall i :: 0 <= i < |cols| ==> cols[i] < |row|
    ensures |r| == |row|
    decreases |cols|
  {
    if cols == [] then row else Filled(row[cols[0] := vals[0]], cols[1..], vals[1..])
  }

  function Candidates(width: nat, cols: seq<nat>, values: seq<Row>): (rows: seq<Row>)
    requires forall i :: 0 <= i < |cols| ==> cols[i] < width
    requires forall i :: 0 <= i < |values| ==> |values[i]| == |cols|
    ensures |rows| == |values| && forall i :: 0 <= i < |rows| ==> |rows[i]| == width
  {
    if values == [] then [] else [Filled(Nulls(width), cols, values[0])] + Candidates(width, cols, values[1..])
  }

  /** Row `i` of a batch has the key of another row of it. */
  predicate DuplicatesInBatch(schema: Schema, rows: seq<Row>, i: nat)
    requires i < |rows|
  {
    exists g :: 0 <= g < |schema.unique| && Null !in Proj(rows[i], schema.unique[g]) &&
      exists j :: 0 <= j < |rows| && j != i && Proj(rows[j], schema.unique[g]) == Proj(rows[i], schema.unique[g])
  }

  /** The first error among rows `i` and up of a batch. */
  function CheckBatch(db: Db, name: string, rows: seq<Row>, i: nat): Option<DbError>
    requires name in db.tables && i <= |rows|
    decreases |rows| - i
  {
    if i == |rows| then None
    else if Enforce(db, name, rows[i], None).Some? then Enforce(db, name, rows[i], None)
    else if DuplicatesInBatch(db.tables[name].schema, rows, i) then Some(UniqueViolation)
    else CheckBatch(db, name, rows, i + 1)
  }

  /** The implicit id column is filled with the row id unless the statement supplied it. */
  function WithId(row: Row, id: nat, supplied: bool): (r: Row)
    ensures |r| == |row|
  {
    if supplied || row == [] then row else row[0 := Int(id)]
  }

  function InsertOne(db: Db, name: string, row: Row, supplied: bool): (r: Db)
    requires name in db.tables
    ensures r.tables.Keys == db.tables.Keys
  {
    var t := db.tables[name];
    Put(SetTable(db, name, t.(nextRowId := t.nextRowId + 1)), name, t.nextRowId, Some(WithId(row, t.nextRowId, supplied)))
  }

  function InsertAll(db: Db, name: string, rows: seq<Row>, supplied: bool): (r: Db)
    requires name in db.tables
    ensures r.tables.Keys == db.tables.Keys
    decreases |rows|
  {
    if rows == [] then db else InsertAll(InsertOne(db, name, rows[0], supplied), name, rows[1..], supplied)
  }

  /** The columns an INSERT fills: those it names, or all. */
  function TargetSlots(columns: seq<nat>, width: nat): seq<nat> {
    if columns == [] then AllSlots(width) else columns
  }

  predicate UnknownSlot(cols: seq<nat>, width: nat) {
    exists i :: 0 <= i < |cols| && cols[i] >= width
  }

  predicate WrongArity(values: seq<Row>, n: nat) {
    exists i :: 0 <= i < |values| && |values[i]| != n
  }

  /** The rows an INSERT would store and whether it supplies their ids, once every check has passed. */
  function PlanInsert(db: Db, name: string, columns: seq<nat>, values: seq<Row>): Result<(seq<Row>, bool), DbError> {
    if name !in db.tables then Err(UnknownTable)
    else
      var width := db.tables[name].schema.width;
      var cols := TargetSlots(columns, width);
      if UnknownSlot(cols, width) then Err(UnknownColumn)
      else if WrongArity(values, |cols|) then Err(ArityMismatch)
      else
        var rows := Candidates(width, cols, values);
        match CheckBatch(db, name, rows, 0)
        case Some(e) => Err(e)
        case None => Ok((rows, 0 in cols))
  }

  /** All rows are checked before the first is stored. */
  function RunInsert(db0: Db, name: string, columns: seq<nat>, values: seq<Row>): (Db, Outcome) {
    var db := if db0.inTxn then EnsureTxn(db0, name) else db0;
    match PlanInsert(db, name, columns, values)
    case Err(e) => (db, Err(e))
    case Ok((rows, supplied)) =>
      if name in db.tables then (InsertAll(db, name, rows, supplied), Ok(Count(|rows|))) else (db, Err(UnknownTable))
  }

  // ---------------------------------------------------------------- UPDATE and DELETE

  /** The row after the assignments; the implicit id is never assigned. */
  function Assigned(row: Row, assignments: seq<Assignment>): (r: Result<Row, DbError>)
    ensures r.Ok? ==> |r.value| == |row|
    decreases |assignments|
  {
    if assignments == [] then Ok(row)
    else
      var a := assignments[0];
      if a.slot >= |row| then Err(UnknownColumn)
      else if a.slot == 0 then Assigned(row, assignments[1..])
      else Assigned(row[a.slot := a.value], assignments[1..])
  }

  function LiveRow(db: Db, name: string, id: nat): Option<Row>
    requires name in db.tables
  {
    Live(db.tables[name].tree, WritesFor(db.active, name), id)
  }

  function UpdateOne(db: Db, name: string, id: nat, assignments: seq<Assignment>): (r: (Db, Result<(), DbError>))
    requires name in db.tables
    ensures r.0.tables.Keys == db.tables.Keys
  {
    match LiveRow(db, name, id)
    case None => (db, Ok(()))
    case Some(row) =>
      match Assigned(row, assignments)
      case Err(e) => (db, Err(e))
      case Ok(row') =>
        match Enforce(db, name, row', Some(id))
        case Some(e) => (db, Err(e))
        case None => (Put(db, name, id, Some(row')), Ok(()))
  }

  /** Rows updated before an error stay updated. */
  function UpdateAll(db: Db, name: string, ids: seq<nat>, assignments: seq<Assignment>): (r: (Db, Result<(), DbError>))
    requires name in db.tables
    ensures r.0.tables.Keys == db.tables.Keys
    decreases |ids|
  {
    if ids == [] then (db, Ok(()))
    else
      match UpdateOne(db, name, ids[0], assignments)
      case (db', Err(e)) => (db', Err(e))
      case (db', Ok(_)) => UpdateAll(db', name, ids[1..], assignments)
  }

  function DeleteOne(db: Db, name: string, id: nat): (r: (Db, Result<(), DbError>))
    requires name in db.tables
    ensures r.0.tables.Keys == db.tables.Keys
  {
    match LiveRow(db, name, id)
    case None => (db, Ok(()))
    case Some(row) =>
      if Referenced(db, name, row) then (db, Err(ForeignKeyViolation)) else (Put(db, name, id, None), Ok(()))
  }

  function DeleteAll(db: Db, name: string, ids: seq<nat>): (r: (Db, Result<(), DbError>))
    requires name in db.tables
    ensures r.0.tables.Keys == db.tables.Keys
    decreases |ids|
  {
    if ids == [] then (db, Ok(()))
    else
      match DeleteOne(db, name, ids[0])
      case (db', Err(e)) => (db', Err(e))
      case (db', Ok(_)) => DeleteAll(db', name, ids[1..])
  }

  function Matching(db: Db, name: string, filter: Filter): Result<seq<nat>, DbError> {
    if name !in db.tables then Err(UnknownTable)
    else MatchingFrom(db.tables[name], WritesFor(db.active, name), filter, 0, [])
  }

  function RunUpdate(db0: Db, name: string, filter: Filter, assignments: seq<Assignment>): (Db, Outcome) {
    match Matching(db0, name, filter)
    case Err(e) => (db0, Err(e))
    case Ok(ids) =>
      var db := if db0.inTxn then EnsureTxn(db0, name) else db0;
      if name !in db.tables then (db, Err(UnknownTable))
      else
        match UpdateAll(db, name, ids, assignments)
        case (db', Err(e)) => (db', Err(e))
        case (db', Ok(_)) => (db', Ok(Count(|ids|)))
  }

  function RunDelete(db0: Db, name: string, filter: Filter): (Db, Outcome) {
    match Matching(db0, name, filter)
    case Err(e) => (db0, Err(e))
    case Ok(ids) =>
      var db := if db0.inTxn then EnsureTxn(db0, name) else db0;
      if name !in db.tables then (db, Err(UnknownTable))
      else
        match DeleteAll(db, name, ids)
        case (db', Err(e)) => (db', Err(e))
        case (db', Ok(_)) => (db', Ok(Count(|ids|)))
  }

  function RunSelect(db: Db, name: string): Outcome {
    if name !in db.tables then Err(UnknownTable)
    else Ok(Rows(ScanFrom(db.tables[name], WritesFor(db.active, name), 0)))
  }

  // ---------------------------------------------------------------- COMMIT

  /** A tree with buffered writes applied. */
  function Applied(tree: Tree, writes: Writes): (r: Tree)
    ensures forall id :: id in r <==> Live(tree, writes, id).Some?
    ensures forall id :: id in r ==> Some(r[id]) == Live(tree, writes, id)
  {
    map id | id in tree.Keys + writes.Keys && Live(tree, writes, id).Some? :: Live(tree, writes, id).value
  }

  type Tables = map<string, Table>

  ghost predicate Refused(tables: Tables, n: Named) {
    n.table in tables && Stale(tables[n.table].store, n.txn)
  }

  /** The table's version store accepts the transaction. */
  function Validated(tables: Tables, n: Named): Tables {
    if n.table !in tables then tables
    else var t := tables[n.table]; tables[n.table := t.(store := Committed(t.store, n.txn))]
  }

  function WrittenBack(tables: Tables, n: Named): Tables {
    if n.table !in tables then tables
    else var t := tables[n.table]; tables[n.table := t.(tree := Applied(t.tree, n.txn.writes))]
  }

  /** Validates one transaction after another, up to the first conflict. */
  ghost function ValidateAll(tables: Tables, txns: seq<Named>): (Tables, bool)
    decreases |txns|
  {
    if txns == [] then (tables, true)
    else if Refused(tables, txns[0]) then (tables, false)
    else ValidateAll(Validated(tables, txns[0]), txns[1..])
  }

  function WriteBackAll(tables: Tables, txns: seq<Named>): Tables
    decreases |txns|
  {
    if txns == [] then tables else WriteBackAll(WrittenBack(tables, txns[0]), txns[1..])
  }

  /** The global COMMIT: validate every table's transaction, then write all of them back. */
  ghost function RunCommit(db: Db): (Db, Outcome) {
    if !db.inTxn then (db, Err(TransactionError))
    else
      var (tables, ok) := ValidateAll(db.tables, db.active);
      var db' := db.(inTxn := false, active := []);
      if ok then (db'.(tables := WriteBackAll(tables, db.active)), Ok(Done))
      else (db'.(tables := tables), Err(CommitConflict))
  }

  /** A session's COMMIT takes the tables one at a time and stops at a conflict. */
  ghost function CommitEach(tables: Tables, txns: seq<Named>): (Tables, bool)
    decreases |txns|
  {
    if txns == [] then (tables, true)
    else if Refused(tables, txns[0]) then (tables, false)
    else CommitEach(WrittenBack(Validated(tables, txns[0]), txns[0]), txns[1..])
  }

  // ---------------------------------------------------------------- statements and sessions

  ghost function Execute(db: Db, stmt: Statement): (Db, Outcome) {
    match stmt
    case Begin =>
      if db.inTxn then (db, Err(TransactionError)) else (db.(inTxn := true, active := []), Ok(Done))
    case Commit => RunCommit(db)
    case Rollback =>
      if !db.inTxn then (db, Err(TransactionError)) else (db.(inTxn := false, active := []), Ok(Done))
    case Insert(name, cols, values) => RunInsert(db, name, cols, values)
    case Update(name, filter, assignments) => RunUpdate(db, name, filter, assignments)
    case Delete(name, filter) => RunDelete(db, name, filter)
    case Select(name) => (db, RunSelect(db, name))
  }

  function SessionOf(db: Db, sid: nat): Session {
    if sid in db.sessions then db.sessions[sid] else Session(false, [])
  }

  function SetSession(db: Db, sid: nat, s: Session): Db {
    db.(sessions := db.sessions[sid := s])
  }

  ghost function SessionCommit(db: Db, sid: nat): (Db, Outcome) {
    var s := SessionOf(db, sid);
    if !s.inTxn then (db, Err(TransactionError))
    else
      var (tables, ok) := CommitEach(db.tables, s.active);
      (SetSession(db, sid, Session(false, [])).(tables := tables), if ok then Ok(Done) else Err(CommitConflict))
  }

  /** The database as a session in a transaction sees it: its transactions stand in for the global ones. */
  function AsSession(db: Db, s: Session): Db {
    db.(inTxn := true, active := s.active)
  }

  ghost function ExecuteInSession(db: Db, sid: nat, stmt: Statement): (Db, Outcome) {
    var s := SessionOf(db, sid);
    match stmt
    case Begin =>
      if s.inTxn then (db, Err(TransactionError)) else (SetSession(db, sid, Session(true, [])), Ok(Done))
    case Commit => SessionCommit(db, sid)
    case Rollback =>
      if !s.inTxn then (db, Err(TransactionError)) else (SetSession(db, sid, Session(false, [])), Ok(Done))
    case _ =>
      if !s.inTxn then Execute(db, stmt)
      else
        var (ran, r) := Execute(AsSession(db, s), stmt);
        (SetSession(ran, sid, Session(true, ran.active)).(inTxn := db.inTxn, active := db.active), r)
  }
}
