/**
 * An abstract relational store: named tables of rows, a log of every
 * statement issued, and a fault plan saying which statement (by its position
 * in the log) the database refuses.  Statements are values, not SQL text.
 */
module Store {
  import opened Wrappers

  /** A row: column -> value; a column missing from the map holds NULL. */
  type Row = map<string, string>

  datatype Table = Table(cols: seq<string>, rows: seq<Row>)

  /** `col IS NULL` or `col = 'v'`. */
  datatype Test = IsNull | Equals(v: string)
  datatype Cond = Cond(col: string, test: Test)

  datatype Stmt =
    | ListTables
    | CreateTable(table: string, cols: seq<string>)
    | CreateIndex(table: string, col: string, unique: bool)
    | AddColumn(table: string, col: string)
    | DropColumn(table: string, col: string)
    | DropTable(table: string)
    | Insert(table: string, values: seq<(string, Option<string>)>)
    | Update(table: string, assign: seq<(string, string)>, where: seq<Cond>)
    | Delete(table: string, where: seq<Cond>)
    | Count(table: string, where: seq<Cond>)
    | SelectDistinct(table: string, col: string)
    | SelectCol(table: string, col: string)

  datatype Answer = Done | Number(n: nat) | Column(values: seq<Option<string>>) | Names(names: set<string>)

  /** What the client sees: an answer, a plain `false`, or an error object. */
  datatype Reply = Answered(answer: Answer) | False | Error(stmt: Stmt)

  /** A container result: a value, or the error object that stopped it. */
  datatype Outcome<T> = Value(value: T) | Failure(error: Reply)

  /** How the database refuses a statement it is told to refuse. */
  datatype Fault = ReturnsFalse | Raises

  datatype Db = Db(tables: map<string, Table>, log: seq<Stmt>, faults: map<nat, Fault>)

  /** No refusal is planned for a statement not yet issued. */
  predicate NoFaultsFrom(db: Db)
  {
    forall n :: n in db.faults ==> n < |db.log|
  }

  predicate IsRead(s: Stmt)
  {
    s.ListTables? || s.Count? || s.SelectDistinct? || s.SelectCol?
  }

  // ---------------------------------------------------------------------
  // Rows

  predicate Holds(row: Row, c: Cond)
  {
    match c.test
    case IsNull => c.col !in row
    case Equals(v) => c.col in row && row[c.col] == v
  }

  predicate Matches(row: Row, where: seq<Cond>)
  {
    forall i :: 0 <= i < |where| ==> Holds(row, where[i])
  }

  function Matching(rows: seq<Row>, where: seq<Cond>): (r: seq<Row>)
    ensures |r| <= |rows|
    ensures forall i :: 0 <= i < |r| ==> Matches(r[i], where)
  {
    if rows == [] then []
    else (if Matches(rows[0], where) then [rows[0]] else []) + Matching(rows[1..], where)
  }

  function NotMatching(rows: seq<Row>, where: seq<Cond>): (r: seq<Row>)
    ensures |r| <= |rows|
    ensures forall i :: 0 <= i < |r| ==> !Matches(r[i], where)
  {
    if rows == [] then []
    else (if Matches(rows[0], where) then [] else [rows[0]]) + NotMatching(rows[1..], where)
  }

  function Assign(row: Row, assign: seq<(string, string)>): Row
    decreases |assign|
  {
    if assign == [] then row else Assign(row[assign[0].0 := assign[0].1], assign[1..])
  }

  function UpdateRows(rows: seq<Row>, assign: seq<(string, string)>, where: seq<Cond>): (r: seq<Row>)
    ensures |r| == |rows|
  {
    seq(|rows|, i requires 0 <= i < |rows| => if Matches(rows[i], where) then Assign(rows[i], assign) else rows[i])
  }

  /** The row an INSERT builds: NULL values are left out. */
  function RowOf(values: seq<(string, Option<string>)>): Row
    decreases |values|
  {
    if values == [] then map[]
    else
      var r := RowOf(values[..|values| - 1]);
      var last := values[|values| - 1];
      if last.1.Some? then r[last.0 := last.1.value] else r - {last.0}
  }

  function ColumnOf(rows: seq<Row>, col: string): (r: seq<Option<string>>)
    ensures |r| == |rows|
  {
    seq(|rows|, i requires 0 <= i < |rows| => if col in rows[i] then Some(rows[i][col]) else None)
  }

  /** SQL DISTINCT: first occurrences, NULL distinct from every string. */
  function DistinctValues(vs: seq<Option<string>>): seq<Option<string>>
    decreases |vs|
  {
    if vs == [] then []
    else
      var r := DistinctValues(vs[..|vs| - 1]);
      if vs[|vs| - 1] in r then r else r + [vs[|vs| - 1]]
  }

  function DropCol(rows: seq<Row>, col: string): (r: seq<Row>)
    ensures |r| == |rows|
  {
    seq(|rows|, i requires 0 <= i < |rows| => rows[i] - {col})
  }

  function Without(cols: seq<string>, col: string): seq<string>
    decreases |cols|
  {
    if cols == [] then [] else (if cols[0] == col then [] else [cols[0]]) + Without(cols[1..], col)
  }

  predicate ColsKnown(t: Table, cols: seq<string>)
  {
    forall i :: 0 <= i < |cols| ==> cols[i] in t.cols
  }

  function CondCols(where: seq<Cond>): seq<string>
  {
    seq(|where|, i requires 0 <= i < |where| => where[i].col)
  }

  function ColNames<T>(pairs: seq<(string, T)>): seq<string>
  {
    seq(|pairs|, i requires 0 <= i < |pairs| => pairs[i].0)
  }

  // ---------------------------------------------------------------------
  // Statements

  /** What a statement does to a database that accepts it; None when the database refuses it. */
  function Apply(tables: map<string, Table>, s: Stmt): Option<(map<string, Table>, Answer)>
  {
    match s
    case ListTables => Some((tables, Names(tables.Keys)))
    case CreateTable(t, cols) =>
      if t in tables then None else Some((tables[t := Table(cols, [])], Done))
    case CreateIndex(t, col, unique) =>
      if t !in tables || col !in tables[t].cols then None else Some((tables, Done))
    case AddColumn(t, col) =>
      if t !in tables || col in tables[t].cols then None
      else Some((tables[t := tables[t].(cols := tables[t].cols + [col])], Done))
    case DropColumn(t, col) =>
      if t !in tables || col !in tables[t].cols then None
      else Some((tables[t := Table(Without(tables[t].cols, col), DropCol(tables[t].rows, col))], Done))
    case DropTable(t) =>
      if t !in tables then None else Some((tables - {t}, Done))
    case Insert(t, values) =>
      if t !in tables || !ColsKnown(tables[t], ColNames(values)) then None
      else Some((tables[t := tables[t].(rows := tables[t].rows + [RowOf(values)])], Done))
    case Update(t, assign, where) =>
      if t !in tables || !ColsKnown(tables[t], ColNames(assign)) || !ColsKnown(tables[t], CondCols(where)) then None
      else Some((tables[t := tables[t].(rows := UpdateRows(tables[t].rows, assign, where))], Done))
    case Delete(t, where) =>
      if t !in tables || !ColsKnown(tables[t], CondCols(where)) then None
      else Some((tables[t := tables[t].(rows := NotMatching(tables[t].rows, where))], Done))
    case Count(t, where) =>
      if t !in tables || !ColsKnown(tables[t], CondCols(where)) then None
      else Some((tables, Number(|Matching(tables[t].rows, where)|)))
    case SelectDistinct(t, col) =>
      if t !in tables || col !in tables[t].cols then None
      else Some((tables, Column(DistinctValues(ColumnOf(tables[t].rows, col)))))
    case SelectCol(t, col) =>
      if t !in tables || col !in tables[t].cols then None
      else Some((tables, Column(ColumnOf(tables[t].rows, col))))
  }

  /**
   * `query`/`queryOne`/`queryCol`: the statement is logged; a statement the
   * fault plan names is refused (a read cannot return a plain false);
   * otherwise the database applies it, or refuses it when it is invalid.
   */
  function Exec(db: Db, s: Stmt): (r: (Db, Reply))
    ensures r.0.log == db.log + [s] && r.0.faults == db.faults
    ensures !r.1.Answered? ==> r.0.tables == db.tables
    ensures r.1.Error? ==> r.1.stmt == s
    ensures IsRead(s) ==> r.0.tables == db.tables && !r.1.False?
  {
    var logged := db.(log := db.log + [s]);
    var n := |db.log|;
    if n in db.faults then
      (logged, if db.faults[n].Raises? || IsRead(s) then Error(s) else False)
    else
      match Apply(db.tables, s)
      case None => (logged, Error(s))
      case Some(res) => (logged.(tables := res.0), Answered(res.1))
  }

  /**
   * Runs statements one after the other and returns at the first error
   * object; a plain `false` does not stop the run.  This is the shape of
   * every `foreach ... if (PEAR::isError($res)) return $res;` loop.
   */
  function RunUntilError(db: Db, stmts: seq<Stmt>): (r: (Db, Reply))
    decreases |stmts|
  {
    if stmts == [] then (db, Answered(Done))
    else
      var e := Exec(db, stmts[0]);
      if e.1.Error? then e else RunUntilError(e.0, stmts[1..])
  }

  /** A run of one statement leaves the database that statement leaves, and fails when it fails. */
  lemma RunUntilErrorOne(db: Db, stmts: seq<Stmt>, s: Stmt)
    requires stmts == [s]
    ensures RunUntilError(db, stmts).0 == Exec(db, s).0
    ensures RunUntilError(db, stmts).1.Error? <==> Exec(db, s).1.Error?
  {
    assert stmts[1..] == [];
  }

  /** A log that extends `before + mid` runs, after `before`, through `mid` and on. */
  lemma LogAfter(before: seq<Stmt>, mid: seq<Stmt>, log: seq<Stmt>)
    requires |before| + |mid| <= |log| && log[..|before| + |mid|] == before + mid
    ensures |before| <= |log| && log[..|before|] == before
    ensures log[|before|..] == mid + log[|before| + |mid|..]
  {
    assert log[..|before|] == (before + mid)[..|before|];
  }

  /** A run leaves the fault plan as it was. */
  lemma {:induction false} RunUntilErrorFaults(db: Db, stmts: seq<Stmt>)
    ensures RunUntilError(db, stmts).0.faults == db.faults
    decreases |stmts|
  {
    if stmts != [] {
      var e := Exec(db, stmts[0]);
      if !e.1.Error? {
        RunUntilErrorFaults(e.0, stmts[1..]);
      }
    }
  }

  /** A run that meets no error issues every statement and returns `true`. */
  lemma {:induction false} RunUntilErrorDone(db: Db, stmts: seq<Stmt>)
    ensures !RunUntilError(db, stmts).1.Error? ==>
      RunUntilError(db, stmts).1 == Answered(Done) && RunUntilError(db, stmts).0.log == db.log + stmts
    decreases |stmts|
  {
    if stmts != [] {
      var e := Exec(db, stmts[0]);
      if !e.1.Error? {
        RunUntilErrorDone(e.0, stmts[1..]);
        assert stmts == [stmts[0]] + stmts[1..];
      }
    }
  }

  /** A run that meets an error has issued the statements up to that one and returns its error. */
  lemma {:induction false} RunUntilErrorStops(db: Db, stmts: seq<Stmt>)
    ensures RunUntilError(db, stmts).1.Error? ==>
      var n := |RunUntilError(db, stmts).0.log| - |db.log|;
      0 < n <= |stmts| && RunUntilError(db, stmts).0.log == db.log + stmts[..n] &&
      RunUntilError(db, stmts).1 == Error(stmts[n - 1])
    decreases |stmts|
  {
    if stmts != [] {
      var e := Exec(db, stmts[0]);
      if e.1.Error? {
        assert stmts[..1] == [stmts[0]];
      } else {
        var rest := RunUntilError(e.0, stmts[1..]);
        assert RunUntilError(db, stmts) == rest;
        RunUntilErrorStops(e.0, stmts[1..]);
        if rest.1.Error? {
          var n := |rest.0.log| - |e.0.log|;
          assert rest.0.log == db.log + ([stmts[0]] + stmts[1..][..n]);
          assert stmts[..n + 1] == [stmts[0]] + stmts[1..][..n];
        }
      }
    }
  }

  /**
   * A run issues its statements in order and no others: all of them and
   * then `true`, or those up to the first one refused with an error, which
   * it returns.
   */
  lemma RunUntilErrorLog(db: Db, stmts: seq<Stmt>)
    ensures RunUntilError(db, stmts).0.faults == db.faults
    ensures !RunUntilError(db, stmts).1.Error? ==>
      RunUntilError(db, stmts).1 == Answered(Done) && RunUntilError(db, stmts).0.log == db.log + stmts
    ensures RunUntilError(db, stmts).1.Error? ==>
      var n := |RunUntilError(db, stmts).0.log| - |db.log|;
      0 < n <= |stmts| && RunUntilError(db, stmts).0.log == db.log + stmts[..n] &&
      RunUntilError(db, stmts).1 == Error(stmts[n - 1])
  {
    RunUntilErrorFaults(db, stmts);
    RunUntilErrorDone(db, stmts);
    RunUntilErrorStops(db, stmts);
  }

  /** A run that stops only at a plain `false`: an error object never compares equal to false. */
  function RunUntilFalse(db: Db, stmts: seq<Stmt>): (Db, Reply)
    decreases |stmts|
  {
    if stmts == [] then (db, Answered(Done))
    else
      var e := Exec(db, stmts[0]);
      if e.1.False? then e else RunUntilFalse(e.0, stmts[1..])
  }

  /** A run that meets no plain `false` issues every statement and returns `true`. */
  lemma {:induction false} RunUntilFalseDone(db: Db, stmts: seq<Stmt>)
    ensures !RunUntilFalse(db, stmts).1.False? ==>
      RunUntilFalse(db, stmts).1 == Answered(Done) && RunUntilFalse(db, stmts).0.log == db.log + stmts
    decreases |stmts|
  {
    if stmts != [] {
      var e := Exec(db, stmts[0]);
      if !e.1.False? {
        RunUntilFalseDone(e.0, stmts[1..]);
        assert stmts == [stmts[0]] + stmts[1..];
      }
    }
  }

  /** A run stopped at a plain `false` has issued the statements up to that one. */
  lemma {:induction false} RunUntilFalseStops(db: Db, stmts: seq<Stmt>)
    ensures RunUntilFalse(db, stmts).1.False? ==>
      var n := |RunUntilFalse(db, stmts).0.log| - |db.log|;
      0 < n <= |stmts| && RunUntilFalse(db, stmts).0.log == db.log + stmts[..n]
    decreases |stmts|
  {
    if stmts != [] {
      var e := Exec(db, stmts[0]);
      if e.1.False? {
        assert stmts[..1] == [stmts[0]];
      } else {
        var rest := RunUntilFalse(e.0, stmts[1..]);
        assert RunUntilFalse(db, stmts) == rest;
        RunUntilFalseStops(e.0, stmts[1..]);
        if rest.1.False? {
          var n := |rest.0.log| - |e.0.log|;
          assert rest.0.log == db.log + ([stmts[0]] + stmts[1..][..n]);
          assert stmts[..n + 1] == [stmts[0]] + stmts[1..][..n];
        }
      }
    }
  }

  /** A run stopped at a plain `false` has issued the statements up to that one; otherwise all of them. */
  lemma RunUntilFalseLog(db: Db, stmts: seq<Stmt>)
    ensures !RunUntilFalse(db, stmts).1.False? ==>
      RunUntilFalse(db, stmts).1 == Answered(Done) && RunUntilFalse(db, stmts).0.log == db.log + stmts
    ensures RunUntilFalse(db, stmts).1.False? ==>
      var n := |RunUntilFalse(db, stmts).0.log| - |db.log|;
      0 < n <= |stmts| && RunUntilFalse(db, stmts).0.log == db.log + stmts[..n]
  {
    RunUntilFalseDone(db, stmts);
    RunUntilFalseStops(db, stmts);
  }

  /** A statement whose position is not planned to return false does not return false. */
  lemma ExecNotFalse(db: Db, s: Stmt)
    requires |db.log| in db.faults ==> db.faults[|db.log|] == Raises
    ensures !Exec(db, s).1.False?
  {
  }

  /**
   * Only a planned `false` stops the run: when none of the positions the
   * statements take is planned to return false, every statement is issued
   * and the run returns true, whatever error objects come back.
   */
  lemma {:induction false} RunUntilFalseIgnoresErrors(db: Db, stmts: seq<Stmt>)
    requires forall p :: |db.log| <= p < |db.log| + |stmts| && p in db.faults ==> db.faults[p] == Raises
    ensures RunUntilFalse(db, stmts).1 == Answered(Done) && RunUntilFalse(db, stmts).0.log == db.log + stmts
    decreases |stmts|
  {
    if stmts != [] {
      var e := Exec(db, stmts[0]);
      ExecNotFalse(db, stmts[0]);
      assert |e.0.log| == |db.log| + 1;
      RunUntilFalseIgnoresErrors(e.0, stmts[1..]);
      assert stmts == [stmts[0]] + stmts[1..];
    }
  }

  // ---------------------------------------------------------------------
  // Properties of the store

  /**
   * A null page id is matched only by `IS NULL`, which holds exactly on a
   * NULL column; `= 'v'` holds exactly on the value v.  So `IS NULL` never
   * matches an empty-string page id and `= ''` never matches NULL.
   */
  lemma NullRule(row: Row, col: string, v: string)
    ensures Holds(row, Cond(col, IsNull)) <==> col !in row
    ensures Holds(row, Cond(col, Equals(v))) <==> (col in row && row[col] == v)
    ensures col in row && row[col] == "" ==> !Holds(row, Cond(col, IsNull))
    ensures col !in row ==> !Holds(row, Cond(col, Equals("")))
  {
  }

  /** DELETE keeps exactly the rows the condition does not match, in order. */
  lemma {:induction false} NotMatchingIsComplement(rows: seq<Row>, where: seq<Cond>, row: Row)
    ensures row in NotMatching(rows, where) <==> row in rows && !Matches(row, where)
    ensures row in Matching(rows, where) <==> row in rows && Matches(row, where)
    ensures |Matching(rows, where)| + |NotMatching(rows, where)| == |rows|
  {
    if rows != [] {
      NotMatchingIsComplement(rows[1..], where, row);
      assert rows == [rows[0]] + rows[1..];
    }
  }

  lemma {:induction false} RowOfValue(values: seq<(string, Option<string>)>, c: string)
    requires forall i, j :: 0 <= i < j < |values| ==> values[i].0 != values[j].0
    ensures forall i :: 0 <= i < |values| && values[i].0 == c ==>
      (if values[i].1.Some? then c in RowOf(values) && RowOf(values)[c] == values[i].1.value else c !in RowOf(values))
    ensures (forall i :: 0 <= i < |values| ==> values[i].0 != c) ==> c !in RowOf(values)
    decreases |values|
  {
    if values != [] {
      RowOfValue(values[..|values| - 1], c);
    }
  }
}
