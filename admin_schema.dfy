/**
 * The schema paths of the relational admin container: creating a
 * language's strings table or column, registering a language, and removing
 * it again.
 */
module AdminSchema {
  import opened Wrappers
  import opened Dicts
  import opened Store
  import opened AdminGroups
  import opened AdminWrites

  /** The `$langData` array of a language. */
  datatype LangData = LangData(langId: string, tableName: string, name: string, meta: string, errorText: string, encoding: string)

  // ---------------------------------------------------------------------
  // createNewLang

  /** A new strings table: page id, string id and the language's column, then its three indexes. */
  function CreateStmts(c: Config, l: LangData): seq<Stmt>
  {
    var t := l.tableName;
    [CreateTable(t, [c.opts.pageIdCol, c.opts.stringIdCol, c.langCol(l.langId)]),
     CreateIndex(t, c.opts.stringIdCol, true),
     CreateIndex(t, c.opts.pageIdCol, false),
     CreateIndex(t, c.opts.stringIdCol, false)]
  }

  /** `createNewLang` as written: the create statements are checked with `$res == false`. */
  function CreateNewLangAsWritten(c: Config, db: Db, l: LangData): (Db, Reply)
  {
    var e := Exec(db, ListTables);
    if e.1.Error? then e
    else if l.tableName in Listing(e.1) then Exec(e.0, AddColumn(l.tableName, c.langCol(l.langId)))
    else RunUntilFalse(e.0, CreateStmts(c, l))
  }

  /** `createNewLang` with the create statements stopped at the first error, as its documentation promises. */
  function CreateNewLangSpec(c: Config, db: Db, l: LangData): (Db, Reply)
  {
    var e := Exec(db, ListTables);
    if e.1.Error? then e
    else if l.tableName in Listing(e.1) then Exec(e.0, AddColumn(l.tableName, c.langCol(l.langId)))
    else RunUntilError(e.0, CreateStmts(c, l))
  }

  /**
   * `createNewLang` lists the tables first; a listed table gets exactly one
   * ADD COLUMN; otherwise the four create statements run in order up to the
   * first error, which is returned.
   */
  lemma CreateNewLangStatements(c: Config, db: Db, l: LangData)
    ensures Exec(db, ListTables).1.Error? ==>
      CreateNewLangSpec(c, db, l).0.log == db.log + [ListTables] && CreateNewLangSpec(c, db, l).1.Error?
    ensures !Exec(db, ListTables).1.Error? && l.tableName in Listing(Exec(db, ListTables).1) ==>
      CreateNewLangSpec(c, db, l).0.log == db.log + [ListTables, AddColumn(l.tableName, c.langCol(l.langId))]
    ensures !Exec(db, ListTables).1.Error? && l.tableName !in Listing(Exec(db, ListTables).1) ==>
      exists k :: 1 <= k <= 4 && CreateNewLangSpec(c, db, l).0.log == db.log + [ListTables] + CreateStmts(c, l)[..k] &&
        (k < 4 ==> CreateNewLangSpec(c, db, l).1 == Error(CreateStmts(c, l)[k - 1])) &&
        (CreateNewLangSpec(c, db, l).1.Error? ==> CreateNewLangSpec(c, db, l).1 == Error(CreateStmts(c, l)[k - 1])) &&
        (!CreateNewLangSpec(c, db, l).1.Error? ==> k == 4 && CreateNewLangSpec(c, db, l).1 == Answered(Done))
  {
    var e := Exec(db, ListTables);
    if !e.1.Error? && l.tableName !in Listing(e.1) {
      var s := CreateStmts(c, l);
      RunUntilErrorLog(e.0, s);
      if RunUntilError(e.0, s).1.Error? {
        var n := |RunUntilError(e.0, s).0.log| - |e.0.log|;
        assert db.log + [ListTables] + s[..n] == e.0.log + s[..n];
      } else {
        assert s[..4] == s;
      }
    }
  }

  /**
   * `createNewLang` as written lists the tables first; a listed table gets
   * exactly one ADD COLUMN; otherwise the four create statements run in
   * order up to the first plain `false`, which is returned, and the run
   * returns true after all four when no statement returned false.
   */
  lemma CreateNewLangAsWrittenStatements(c: Config, db: Db, l: LangData)
    ensures Exec(db, ListTables).1.Error? ==>
      CreateNewLangAsWritten(c, db, l).0.log == db.log + [ListTables] && CreateNewLangAsWritten(c, db, l).1.Error?
    ensures !Exec(db, ListTables).1.Error? && l.tableName in Listing(Exec(db, ListTables).1) ==>
      CreateNewLangAsWritten(c, db, l).0.log == db.log + [ListTables, AddColumn(l.tableName, c.langCol(l.langId))]
    ensures !Exec(db, ListTables).1.Error? && l.tableName !in Listing(Exec(db, ListTables).1) ==>
      exists k :: 1 <= k <= 4 && CreateNewLangAsWritten(c, db, l).0.log == db.log + [ListTables] + CreateStmts(c, l)[..k] &&
        (k < 4 ==> CreateNewLangAsWritten(c, db, l).1 == False) &&
        (!CreateNewLangAsWritten(c, db, l).1.False? ==> k == 4 && CreateNewLangAsWritten(c, db, l).1 == Answered(Done))
    ensures (!Exec(db, ListTables).1.Error? && l.tableName !in Listing(Exec(db, ListTables).1) &&
             forall p :: |db.log| < p <= |db.log| + 4 && p in db.faults ==> db.faults[p] == Raises) ==>
      CreateNewLangAsWritten(c, db, l).1 == Answered(Done) &&
      CreateNewLangAsWritten(c, db, l).0.log == db.log + [ListTables] + CreateStmts(c, l)
  {
    var e := Exec(db, ListTables);
    if !e.1.Error? && l.tableName !in Listing(e.1) {
      var s := CreateStmts(c, l);
      RunUntilFalseLog(e.0, s);
      if RunUntilFalse(e.0, s).1.False? {
        var n := |RunUntilFalse(e.0, s).0.log| - |e.0.log|;
        assert db.log + [ListTables] + s[..n] == e.0.log + s[..n];
      } else {
        assert s[..4] == s;
      }
      if forall p :: |db.log| < p <= |db.log| + 4 && p in db.faults ==> db.faults[p] == Raises {
        RunUntilFalseIgnoresErrors(e.0, s);
      }
    }
  }

  /**
   * With no refusal planned, both versions of `createNewLang` agree: they
   * return true and leave a new empty strings table with the three columns,
   * or the existing table with the language's column appended.
   */
  lemma CreateNewLangSchema(c: Config, db: Db, l: LangData)
    requires NoFaultsFrom(db)
    ensures CreateNewLangAsWritten(c, db, l) == CreateNewLangSpec(c, db, l)
    ensures l.tableName !in db.tables ==>
      CreateNewLangSpec(c, db, l).1 == Answered(Done) &&
      CreateNewLangSpec(c, db, l).0.tables ==
        db.tables[l.tableName := Table([c.opts.pageIdCol, c.opts.stringIdCol, c.langCol(l.langId)], [])]
    ensures l.tableName in db.tables && c.langCol(l.langId) !in db.tables[l.tableName].cols ==>
      CreateNewLangSpec(c, db, l).1 == Answered(Done) &&
      CreateNewLangSpec(c, db, l).0.tables ==
        db.tables[l.tableName := db.tables[l.tableName].(cols := db.tables[l.tableName].cols + [c.langCol(l.langId)])]
  {
    var e := Exec(db, ListTables);
    assert Listing(e.1) == db.tables.Keys;
    if l.tableName !in db.tables {
      var s := CreateStmts(c, l);
      var e1 := Exec(e.0, s[0]);
      assert e1.1 == Answered(Done);
      var e2 := Exec(e1.0, s[1]);
      assert e2.1 == Answered(Done);
      var e3 := Exec(e2.0, s[2]);
      assert e3.1 == Answered(Done);
      var e4 := Exec(e3.0, s[3]);
      assert e4.1 == Answered(Done);
      assert RunUntilError(e3.0, s[3..]) == RunUntilError(e4.0, []);
      assert RunUntilError(e2.0, s[2..]) == RunUntilError(e3.0, s[3..]);
      assert RunUntilError(e1.0, s[1..]) == RunUntilError(e2.0, s[2..]);
      assert RunUntilError(e.0, s) == RunUntilError(e1.0, s[1..]);
      assert RunUntilFalse(e3.0, s[3..]) == RunUntilFalse(e4.0, []);
      assert RunUntilFalse(e2.0, s[2..]) == RunUntilFalse(e3.0, s[3..]);
      assert RunUntilFalse(e1.0, s[1..]) == RunUntilFalse(e2.0, s[2..]);
      assert RunUntilFalse(e.0, s) == RunUntilFalse(e1.0, s[1..]);
    }
  }

  /**
   * The as-written `createNewLang` does not stop at an error: when CREATE
   * TABLE is refused it still issues the three index statements and
   * returns true, and no table exists.
   */
  lemma CreateNewLangIgnoresErrors(c: Config, l: LangData)
    ensures CreateNewLangAsWritten(c, Db(map[], [], map[1 := Raises]), l) ==
      (Db(map[], [ListTables] + CreateStmts(c, l), map[1 := Raises]), Answered(Done))
  {
    var db := Db(map[], [], map[1 := Raises]);
    var s := CreateStmts(c, l);
    var e := Exec(db, ListTables);
    assert Listing(e.1) == {};
    var e1 := Exec(e.0, s[0]);
    assert e1.1.Error?;
    var e2 := Exec(e1.0, s[1]);
    assert e2.1.Error?;
    var e3 := Exec(e2.0, s[2]);
    assert e3.1.Error?;
    var e4 := Exec(e3.0, s[3]);
    assert e4.1.Error?;
    assert RunUntilFalse(e3.0, s[3..]) == RunUntilFalse(e4.0, []);
    assert RunUntilFalse(e2.0, s[2..]) == RunUntilFalse(e3.0, s[3..]);
    assert RunUntilFalse(e1.0, s[1..]) == RunUntilFalse(e2.0, s[2..]);
    assert RunUntilFalse(e.0, s) == RunUntilFalse(e1.0, s[1..]);
    assert e4.0.log == [ListTables] + s;
  }

  /** The corrected `createNewLang` returns the error of the refused CREATE TABLE and issues nothing after it. */
  lemma CreateNewLangStopsAtError(c: Config, l: LangData)
    ensures CreateNewLangSpec(c, Db(map[], [], map[1 := Raises]), l) ==
      (Db(map[], [ListTables, CreateStmts(c, l)[0]], map[1 := Raises]), Error(CreateStmts(c, l)[0]))
  {
    var db := Db(map[], [], map[1 := Raises]);
    var s := CreateStmts(c, l);
    var e := Exec(db, ListTables);
    assert Listing(e.1) == {};
    assert e.0 == Db(map[], [ListTables], map[1 := Raises]);
    assert [ListTables] + [s[0]] == [ListTables, s[0]];
    assert RunUntilError(e.0, s) == Exec(e.0, s[0]);
  }

  // ---------------------------------------------------------------------
  // addLangToAvailList

  /** The registry table and its unique index on the language id. */
  function RegistryStmts(o: Options): seq<Stmt>
  {
    [CreateTable(o.availTable, [o.langIdCol, o.nameCol, o.metaCol, o.errorCol, o.encodingCol]),
     CreateIndex(o.availTable, o.langIdCol, true)]
  }

  /** Creates the registry and its index unless the listing names it. */
  function EnsureRegistry(o: Options, db: Db, listing: set<string>): (Db, Reply)
  {
    if o.availTable in listing then (db, Answered(Done)) else RunUntilError(db, RegistryStmts(o))
  }

  /** With no refusal planned, the registry exists afterwards with the five columns, if it had them before. */
  lemma EnsureRegistryReady(o: Options, db: Db, l: LangData)
    requires NoFaultsFrom(db)
    requires o.availTable in db.tables ==>
      forall i :: 0 <= i < 5 ==> RegistryValues(o, l)[i].0 in db.tables[o.availTable].cols
    ensures var made := EnsureRegistry(o, db, db.tables.Keys);
      made.1 == Answered(Done) && NoFaultsFrom(made.0) && o.availTable in made.0.tables &&
      ColsKnown(made.0.tables[o.availTable], ColNames(RegistryValues(o, l)))
  {
    var vs := RegistryValues(o, l);
    assert forall i :: 0 <= i < 5 ==> vs[i].0 == ColNames(vs)[i];
    if o.availTable !in db.tables {
      var s := RegistryStmts(o);
      var e1 := Exec(db, s[0]);
      assert e1.1 == Answered(Done);
      var e2 := Exec(e1.0, s[1]);
      assert e2.1 == Answered(Done);
      assert RunUntilError(e1.0, s[1..]) == RunUntilError(e2.0, []);
    }
  }

  function RegistryValues(o: Options, l: LangData): seq<(string, Option<string>)>
  {
    [(o.langIdCol, Some(l.langId)), (o.nameCol, Some(l.name)), (o.metaCol, Some(l.meta)),
     (o.errorCol, Some(l.errorText)), (o.encodingCol, Some(l.encoding))]
  }

  /**
   * `addLangToAvailList`: create the registry if it is not listed, insert
   * the metadata row, and record the language's table in `strings_tables`
   * whatever the INSERT replied.  Returns the new store, the reply and the
   * new `strings_tables`.
   */
  function AddLangSpec(c: Config, st: map<string, string>, db: Db, l: LangData): (Db, Reply, map<string, string>)
  {
    var e := Exec(db, ListTables);
    if e.1.Error? then (e.0, e.1, st)
    else
      var made := EnsureRegistry(c.opts, e.0, Listing(e.1));
      if made.1.Error? then (made.0, made.1, st)
      else
        var ins := Exec(made.0, Insert(c.opts.availTable, RegistryValues(c.opts, l)));
        (ins.0, ins.1, st[l.langId := l.tableName])
  }

  /**
   * The registry and its index are created only when the registry is not
   * listed; `strings_tables` gains the language's table exactly when the
   * INSERT was issued, whatever it replied, and is otherwise unchanged.
   */
  lemma AddLangStatements(c: Config, st: map<string, string>, db: Db, l: LangData)
    ensures var r := AddLangSpec(c, st, db, l);
      var ins := Insert(c.opts.availTable, RegistryValues(c.opts, l));
      var e := Exec(db, ListTables);
      |r.0.log| > |db.log| &&
      (!e.1.Error? && c.opts.availTable in Listing(e.1) ==> r.0.log == db.log + [ListTables, ins]) &&
      (!e.1.Error? && c.opts.availTable !in Listing(e.1) && !r.1.Error? ==> r.0.log == db.log + [ListTables] + RegistryStmts(c.opts) + [ins]) &&
      (r.2 == if r.0.log[|r.0.log| - 1] == ins then st[l.langId := l.tableName] else st)
  {
    var e := Exec(db, ListTables);
    var ins := Insert(c.opts.availTable, RegistryValues(c.opts, l));
    if !e.1.Error? && c.opts.availTable !in Listing(e.1) {
      var rs := RegistryStmts(c.opts);
      RunUntilErrorLog(e.0, rs);
      if RunUntilError(e.0, rs).1.Error? {
        var n := |RunUntilError(e.0, rs).0.log| - |e.0.log|;
        assert RunUntilError(e.0, rs).0.log[|RunUntilError(e.0, rs).0.log| - 1] == rs[n - 1];
      }
    }
  }

  /** The columns of the registry named once each. */
  predicate RegistryColsDistinct(o: Options)
  {
    var cs := [o.langIdCol, o.nameCol, o.metaCol, o.errorCol, o.encodingCol];
    forall i, j :: 0 <= i < j < |cs| ==> cs[i] != cs[j]
  }

  /**
   * With no refusal planned and a registry that, if present, has the five
   * columns, `addLangToAvailList` returns true and the registry's last row
   * holds the language's id, name, meta, error text and encoding.
   */
  lemma AddLangRegisters(c: Config, st: map<string, string>, db: Db, l: LangData)
    requires NoFaultsFrom(db)
    requires RegistryColsDistinct(c.opts)
    requires c.opts.availTable in db.tables ==>
      forall i :: 0 <= i < 5 ==> RegistryValues(c.opts, l)[i].0 in db.tables[c.opts.availTable].cols
    ensures var r := AddLangSpec(c, st, db, l);
      r.1 == Answered(Done) && r.2 == st[l.langId := l.tableName] &&
      c.opts.availTable in r.0.tables && |r.0.tables[c.opts.availTable].rows| > 0 &&
      var row := r.0.tables[c.opts.availTable].rows[|r.0.tables[c.opts.availTable].rows| - 1];
      c.opts.langIdCol in row && row[c.opts.langIdCol] == l.langId &&
      c.opts.nameCol in row && row[c.opts.nameCol] == l.name &&
      c.opts.metaCol in row && row[c.opts.metaCol] == l.meta &&
      c.opts.errorCol in row && row[c.opts.errorCol] == l.errorText &&
      c.opts.encodingCol in row && row[c.opts.encodingCol] == l.encoding
  {
    var o := c.opts;
    var vs := RegistryValues(o, l);
    var e := Exec(db, ListTables);
    assert Listing(e.1) == db.tables.Keys;
    EnsureRegistryReady(o, e.0, l);
    RegistryRow(o, l);
    var made := EnsureRegistry(o, e.0, Listing(e.1));
    var ins := Exec(made.0, Insert(o.availTable, vs));
    assert |made.0.log| !in made.0.faults;
    assert ins.0.tables[o.availTable].rows == made.0.tables[o.availTable].rows + [RowOf(vs)];
  }

  /** The registry row built from distinct column names holds each field of the language. */
  lemma RegistryRow(o: Options, l: LangData)
    requires RegistryColsDistinct(o)
    ensures var row := RowOf(RegistryValues(o, l));
      o.langIdCol in row && row[o.langIdCol] == l.langId &&
      o.nameCol in row && row[o.nameCol] == l.name &&
      o.metaCol in row && row[o.metaCol] == l.meta &&
      o.errorCol in row && row[o.errorCol] == l.errorText &&
      o.encodingCol in row && row[o.encodingCol] == l.encoding
  {
    var vs := RegistryValues(o, l);
    var cs := [o.langIdCol, o.nameCol, o.metaCol, o.errorCol, o.encodingCol];
    assert forall i :: 0 <= i < 5 ==> vs[i].0 == cs[i];
    assert forall i, j :: 0 <= i < j < |vs| ==> vs[i].0 != vs[j].0;
    RowOfValue(vs, o.langIdCol);
    RowOfValue(vs, o.nameCol);
    RowOfValue(vs, o.metaCol);
    RowOfValue(vs, o.errorCol);
    RowOfValue(vs, o.encodingCol);
    assert vs[0] == (o.langIdCol, Some(l.langId)) && vs[1] == (o.nameCol, Some(l.name)) && vs[2] == (o.metaCol, Some(l.meta));
    assert vs[3] == (o.errorCol, Some(l.errorText)) && vs[4] == (o.encodingCol, Some(l.encoding));
  }

  // ---------------------------------------------------------------------
  // fetchLangs (base class) and removeLang

  /** The values of a column that are not NULL, in order. */
  function Present(vs: seq<Option<string>>): (r: seq<string>)
    ensures forall x :: x in r <==> Some(x) in vs
    decreases |vs|
  {
    if vs == [] then []
    else
      assert forall y :: y in vs <==> y in vs[..|vs| - 1] || y == vs[|vs| - 1];
      Present(vs[..|vs| - 1]) + (if vs[|vs| - 1].Some? then [vs[|vs| - 1].value] else [])
  }

  /**
   * The base class's `fetchLangs`, as far as this container uses it: re-read
   * the registered language ids; a failed read keeps the cached ones.
   */
  function FetchLangsSpec(c: Config, db: Db, langs: seq<string>): (Db, seq<string>)
  {
    var e := Exec(db, SelectCol(c.opts.availTable, c.opts.langIdCol));
    (e.0, if e.1.Answered? && e.1.answer.Column? then Unique(Present(e.1.answer.values)) else langs)
  }

  /** The languages of `ls` other than `x`, in order. */
  function Except(ls: seq<string>, x: string): (r: seq<string>)
    ensures forall l :: l in r <==> l in ls && l != x
    decreases |ls|
  {
    if ls == [] then []
    else
      assert forall y :: y in ls <==> y in ls[..|ls| - 1] || y == ls[|ls| - 1];
      Except(ls[..|ls| - 1], x) + (if ls[|ls| - 1] == x then [] else [ls[|ls| - 1]])
  }

  function RegistryDelete(o: Options, langID: string): Stmt
  {
    Delete(o.availTable, [Cond(o.langIdCol, Equals(langID))])
  }

  /**
   * `removeLang` as written: the registry row goes first, so the refreshed
   * count of languages in the table no longer includes this one when it is
   * compared with 1.  Returns the new store, the reply and the new language
   * cache.
   */
  function RemoveLangAsWritten(c: Config, st: map<string, string>, langs: seq<string>, db: Db,
                               langID: string, force: bool): (Db, Reply, seq<string>)
  {
    var e := Exec(db, RegistryDelete(c.opts, langID));
    if e.1.Error? then (e.0, e.1, langs)
    else
      var t := TableOf(c, st)(langID);
      var f := FetchLangsSpec(c, e.0, langs);
      var d := if |InTable(TableOf(c, st), f.1, t)| > 1 && !force
        then Exec(f.0, DropColumn(t, c.langCol(langID))) else Exec(f.0, DropTable(t));
      (d.0, d.1, f.1)
  }

  /** `removeLang` keeping the table while any other language is stored in it. */
  function RemoveLangSpec(c: Config, st: map<string, string>, langs: seq<string>, db: Db,
                      langID: string, force: bool): (Db, Reply, seq<string>)
  {
    var e := Exec(db, RegistryDelete(c.opts, langID));
    if e.1.Error? then (e.0, e.1, langs)
    else
      var t := TableOf(c, st)(langID);
      var f := FetchLangsSpec(c, e.0, langs);
      var d := if |Except(InTable(TableOf(c, st), f.1, t), langID)| > 0 && !force
        then Exec(f.0, DropColumn(t, c.langCol(langID))) else Exec(f.0, DropTable(t));
      (d.0, d.1, f.1)
  }

  /** After the registry delete and the re-read, the drop statement is the third statement logged. */
  lemma RemoveLog(c: Config, db: Db, langs: seq<string>, langID: string, drop: Stmt)
    requires !Exec(db, RegistryDelete(c.opts, langID)).1.Error?
    ensures Exec(FetchLangsSpec(c, Exec(db, RegistryDelete(c.opts, langID)).0, langs).0, drop).0.log ==
      db.log + [RegistryDelete(c.opts, langID), SelectCol(c.opts.availTable, c.opts.langIdCol), drop]
  {
  }

  /** Past the registry delete, the as-written `removeLang` is the re-read followed by one drop statement. */
  lemma RemoveAsWrittenDrop(c: Config, st: map<string, string>, langs: seq<string>, db: Db, langID: string, force: bool)
    requires !Exec(db, RegistryDelete(c.opts, langID)).1.Error?
    ensures var f := FetchLangsSpec(c, Exec(db, RegistryDelete(c.opts, langID)).0, langs);
      var t := TableOf(c, st)(langID);
      var drop := if |InTable(TableOf(c, st), f.1, t)| > 1 && !force then DropColumn(t, c.langCol(langID)) else DropTable(t);
      RemoveLangAsWritten(c, st, langs, db, langID, force) == (Exec(f.0, drop).0, Exec(f.0, drop).1, f.1)
  {
  }

  /** Filtering a list without repeats by table keeps it without repeats. */
  lemma {:induction false} InTableDistinct(tableOf: string -> string, ls: seq<string>, t: string)
    requires Distinct(ls)
    ensures Distinct(InTable(tableOf, ls, t))
    decreases |ls|
  {
    if ls != [] {
      var init := ls[..|ls| - 1];
      var l := ls[|ls| - 1];
      assert Distinct(init);
      InTableDistinct(tableOf, init, t);
      assert l !in init;
    }
  }

  /** Two different languages of the list are stored in table `t`. */
  ghost predicate TwoStoredIn(tableOf: string -> string, ls: seq<string>, t: string)
  {
    exists a, b :: a in ls && b in ls && a != b && tableOf(a) == t && tableOf(b) == t
  }

  /**
   * The as-written test `count($langs) > 1`: two different languages of the
   * list are stored in table `t`; the converse needs a list without repeats,
   * which the refreshed list always is.
   */
  lemma TwoInTable(tableOf: string -> string, ls: seq<string>, t: string)
    ensures TwoStoredIn(tableOf, ls, t) ==> |InTable(tableOf, ls, t)| > 1
    ensures Distinct(ls) && |InTable(tableOf, ls, t)| > 1 ==> TwoStoredIn(tableOf, ls, t)
  {
    var r := InTable(tableOf, ls, t);
    if TwoStoredIn(tableOf, ls, t) {
      var a, b :| a in ls && b in ls && a != b && tableOf(a) == t && tableOf(b) == t;
      assert a in r && b in r;
    }
    if Distinct(ls) && |r| > 1 {
      InTableDistinct(tableOf, ls, t);
      assert r[0] in r && r[1] in r && r[0] != r[1];
    }
  }

  /** The refreshed language list never lists a language twice when the cache does not. */
  lemma FetchLangsDistinct(c: Config, db: Db, langs: seq<string>)
    requires Distinct(langs)
    ensures Distinct(FetchLangsSpec(c, db, langs).1)
  {
  }

  /**
   * `removeLang` as written deletes the registry row first and stops if that
   * fails; then it re-reads the registry and drops only the language's
   * column when `force` is false and the refreshed list, from which this
   * language has just gone, still puts two languages in its table; it drops
   * the whole table otherwise, so a table shared with exactly one other
   * language is dropped.
   */
  lemma RemoveLangAsWrittenStatements(c: Config, st: map<string, string>, langs: seq<string>, db: Db, langID: string, force: bool)
    ensures var r := RemoveLangAsWritten(c, st, langs, db, langID, force);
      var e := Exec(db, RegistryDelete(c.opts, langID));
      var t := TableOf(c, st)(langID);
      (e.1.Error? ==> r.0.log == db.log + [RegistryDelete(c.opts, langID)] && r.1 == e.1 && r.2 == langs) &&
      (!e.1.Error? ==>
        r.0.log == db.log + [RegistryDelete(c.opts, langID), SelectCol(c.opts.availTable, c.opts.langIdCol),
                             if |InTable(TableOf(c, st), r.2, t)| > 1 && !force then DropColumn(t, c.langCol(langID)) else DropTable(t)])
    ensures var r := RemoveLangAsWritten(c, st, langs, db, langID, force);
      var e := Exec(db, RegistryDelete(c.opts, langID));
      var t := TableOf(c, st)(langID);
      !e.1.Error? && Distinct(langs) ==>
        r.0.log == db.log + [RegistryDelete(c.opts, langID), SelectCol(c.opts.availTable, c.opts.langIdCol),
                             if TwoStoredIn(TableOf(c, st), r.2, t) && !force then DropColumn(t, c.langCol(langID)) else DropTable(t)]
  {
    var e := Exec(db, RegistryDelete(c.opts, langID));
    if !e.1.Error? {
      var t := TableOf(c, st)(langID);
      var f := FetchLangsSpec(c, e.0, langs);
      var drop := if |InTable(TableOf(c, st), f.1, t)| > 1 && !force then DropColumn(t, c.langCol(langID)) else DropTable(t);
      RemoveAsWrittenDrop(c, st, langs, db, langID, force);
      RemoveLog(c, db, langs, langID, drop);
      if Distinct(langs) {
        FetchLangsDistinct(c, e.0, langs);
        TwoInTable(TableOf(c, st), f.1, t);
      }
    }
  }

  /** Another language than `x` is stored in table `t` exactly when the filtered list is non-empty. */
  lemma SharedTable(tableOf: string -> string, ls: seq<string>, t: string, x: string)
    ensures |Except(InTable(tableOf, ls, t), x)| > 0 <==> exists l :: l in ls && l != x && tableOf(l) == t
  {
    var ex := Except(InTable(tableOf, ls, t), x);
    if |ex| > 0 {
      assert ex[0] in ex;
    }
  }

  /**
   * The corrected `removeLang` deletes the registry row first and stops if
   * that fails; then it re-reads the registry and drops only the language's column when
   * `force` is false and another registered language is stored in the same
   * table, the whole table otherwise.
   */
  lemma RemoveLangStatements(c: Config, st: map<string, string>, langs: seq<string>, db: Db, langID: string, force: bool)
    ensures var r := RemoveLangSpec(c, st, langs, db, langID, force);
      var e := Exec(db, RegistryDelete(c.opts, langID));
      var t := TableOf(c, st)(langID);
      (e.1.Error? ==> r.0.log == db.log + [RegistryDelete(c.opts, langID)] && r.1 == e.1) &&
      (!e.1.Error? ==>
        var shared := exists l :: l in r.2 && l != langID && TableOf(c, st)(l) == t;
        r.0.log == db.log + [RegistryDelete(c.opts, langID), SelectCol(c.opts.availTable, c.opts.langIdCol),
                             if shared && !force then DropColumn(t, c.langCol(langID)) else DropTable(t)])
  {
    var e := Exec(db, RegistryDelete(c.opts, langID));
    if !e.1.Error? {
      var t := TableOf(c, st)(langID);
      var f := FetchLangsSpec(c, e.0, langs);
      var ex := Except(InTable(TableOf(c, st), f.1, t), langID);
      SharedTable(TableOf(c, st), f.1, t, langID);
      var drop := if |ex| > 0 && !force then DropColumn(t, c.langCol(langID)) else DropTable(t);
      RemoveLog(c, db, langs, langID, drop);
      assert RemoveLangSpec(c, st, langs, db, langID, force) == (Exec(f.0, drop).0, Exec(f.0, drop).1, f.1);
    }
  }

  /** A store with the registry "langs" holding "en" and "fr", both stored in the shared table "i18n". */
  const DemoOptions := Options("string_id", "page_id", "langs", "id", "name", "meta", "error_text", "encoding")

  const DemoConfig := Config(DemoOptions, (l: string) => "i18n", (l: string) => l)

  const DemoDb := Db(map[
      "langs" := Table(["id"], [map["id" := "en"], map["id" := "fr"]]),
      "i18n" := Table(["page_id", "string_id", "en", "fr"], [])], [], map[])

  /** The demo store once the "en" row is gone from the registry. */
  const DemoAfterDelete := Db(map[
      "langs" := Table(["id"], [map["id" := "fr"]]),
      "i18n" := Table(["page_id", "string_id", "en", "fr"], [])], [RegistryDelete(DemoOptions, "en")], map[])

  /** Deleting "en" from the demo registry leaves the "fr" row only. */
  lemma DemoRegistryAfterDelete()
    ensures Exec(DemoDb, RegistryDelete(DemoOptions, "en")) == (DemoAfterDelete, Answered(Done))
  {
    var w := [Cond("id", Equals("en"))];
    var rows := [map["id" := "en"], map["id" := "fr"]];
    assert Matches(rows[0], w);
    assert !Holds(rows[1], w[0]);
    assert NotMatching(rows[1..], w) == [rows[1]];
    assert NotMatching(rows, w) == [rows[1]];
    var t := DemoDb.tables["langs"];
    assert ColsKnown(t, CondCols(w));
    var after := DemoDb.tables["langs" := t.(rows := [rows[1]])];
    assert Apply(DemoDb.tables, Delete("langs", w)) == Some((after, Done));
    assert after == DemoAfterDelete.tables;
    assert RegistryDelete(DemoOptions, "en") == Delete("langs", w);
    assert DemoDb.log + [Delete("langs", w)] == DemoAfterDelete.log;
    assert 0 !in DemoDb.faults;
  }

  /** Re-reading the demo registry after the delete finds "fr" alone. */
  lemma DemoRefresh(langs: seq<string>)
    ensures FetchLangsSpec(DemoConfig, DemoAfterDelete, langs) ==
      (DemoAfterDelete.(log := DemoAfterDelete.log + [SelectCol("langs", "id")]), ["fr"])
  {
    var s := SelectCol("langs", "id");
    assert 1 !in DemoAfterDelete.faults;
    assert "id" in DemoAfterDelete.tables["langs"].cols;
    assert ColumnOf([map["id" := "fr"]], "id") == [Some("fr")];
    assert Apply(DemoAfterDelete.tables, s) == Some((DemoAfterDelete.tables, Column([Some("fr")])));
    assert Exec(DemoAfterDelete, s).1 == Answered(Column([Some("fr")]));
    assert Present([Some("fr")]) == ["fr"];
    assert Unique(["fr"]) == ["fr"];
  }

  /**
   * The as-written `removeLang("en", false)` drops the whole shared table,
   * although "fr" is still registered and stored in it.  The cache starts
   * empty, as in a container that has not read the registry yet, so the
   * re-read list is the registry alone.
   */
  lemma RemoveLangDropsSharedTable()
    ensures var r := RemoveLangAsWritten(DemoConfig, map[], [], DemoDb, "en", false);
      r.2 == ["fr"] && "i18n" !in r.0.tables
  {
    DemoRegistryAfterDelete();
    DemoRefresh([]);
    var d := DemoAfterDelete.(log := DemoAfterDelete.log + [SelectCol("langs", "id")]);
    assert FetchLangsSpec(DemoConfig, DemoAfterDelete, []) == (d, ["fr"]);
    assert TableOf(DemoConfig, map[])("en") == "i18n";
    assert |InTable(TableOf(DemoConfig, map[]), ["fr"], "i18n")| == 1;
    var dropped := Exec(d, DropTable("i18n"));
    assert RemoveLangAsWritten(DemoConfig, map[], [], DemoDb, "en", false) == (dropped.0, dropped.1, ["fr"]);
    DemoDropTable(d);
  }

  lemma DemoDropTable(d: Db)
    requires d.tables == DemoAfterDelete.tables && 2 !in d.faults && |d.log| == 2
    ensures "i18n" !in Exec(d, DropTable("i18n")).0.tables
  {
    assert Apply(d.tables, DropTable("i18n")) == Some((d.tables - {"i18n"}, Done));
  }

  /** From the same empty cache, the corrected `removeLang("en", false)` keeps the shared table and drops only the "en" column. */
  lemma RemoveLangKeepsSharedTable()
    ensures var r := RemoveLangSpec(DemoConfig, map[], [], DemoDb, "en", false);
      r.2 == ["fr"] && "i18n" in r.0.tables && r.0.tables["i18n"].cols == ["page_id", "string_id", "fr"]
  {
    DemoRegistryAfterDelete();
    DemoRefresh([]);
    var d := DemoAfterDelete.(log := DemoAfterDelete.log + [SelectCol("langs", "id")]);
    assert TableOf(DemoConfig, map[])("en") == "i18n";
    assert InTable(TableOf(DemoConfig, map[]), ["fr"], "i18n") == ["fr"];
    assert |Except(["fr"], "en")| > 0 by {
      assert "fr" in Except(["fr"], "en");
    }
    DemoDropColumn(d);
  }

  lemma DemoDropColumn(d: Db)
    requires d.tables == DemoAfterDelete.tables && 2 !in d.faults && |d.log| == 2
    ensures "i18n" in Exec(d, DropColumn("i18n", "en")).0.tables
    ensures Exec(d, DropColumn("i18n", "en")).0.tables["i18n"].cols == ["page_id", "string_id", "fr"]
  {
    var t := d.tables["i18n"];
    assert "en" in t.cols;
    assert Without(t.cols, "en") == ["page_id", "string_id", "fr"];
  }
}
