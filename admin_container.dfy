/**
 * The relational admin container as an object: the store it talks to, the
 * cached ids of the registered languages and the `strings_tables` option,
 * with one method per operation.  Each method issues its statements one by
 * one through `Query` and is proved equal to the specification functions of
 * AdminGroups, AdminWrites and AdminSchema.
 */
module AdminMdb2 {
  import opened Wrappers
  import opened Dicts
  import opened Store
  import opened AdminGroups
  import opened AdminWrites
  import opened AdminSchema

  class Container {
    const cfg: Config
    var db: Db
    /** `getLangs('ids')`: the cached ids of the registered languages. */
    var langs: seq<string>
    /** `$this->options['strings_tables']`. */
    var stringsTables: map<string, string>

    constructor (cfg: Config, db: Db, langs: seq<string>, stringsTables: map<string, string>)
      ensures this.cfg == cfg && this.db == db && this.langs == langs && this.stringsTables == stringsTables
    {
      this.cfg := cfg;
      this.db := db;
      this.langs := langs;
      this.stringsTables := stringsTables;
    }

    /** One statement through the database connection. */
    method Query(s: Stmt) returns (r: Reply)
      modifies this
      ensures (db, r) == Exec(old(db), s)
      ensures langs == old(langs) && stringsTables == old(stringsTables)
    {
      var e := Exec(db, s);
      db := e.0;
      r := e.1;
    }

    // -------------------------------------------------------------------
    // Grouping helpers

    /** `_tableLangs`. */
    method TableLangs(ls: seq<string>) returns (g: Dict<seq<string>>)
      ensures g == Groups(TableOf(cfg, stringsTables), ls)
    {
      var tableOf := TableOf(cfg, stringsTables);
      g := Empty();
      var i := 0;
      while i < |ls|
        invariant 0 <= i <= |ls|
        invariant g == Groups(tableOf, ls[..i])
      {
        var l := ls[i];
        assert ls[..i + 1][..i] == ls[..i] && ls[..i + 1][i] == l;
        g := g.Put(tableOf(l), g.Get(tableOf(l)).GetOr([]) + [l]);
        i := i + 1;
      }
      assert ls[..|ls|] == ls;
    }

    /** `_getLangTables`: the tables of the given languages, or of all registered ones. */
    method GetLangTables(ls: Option<seq<string>>) returns (ts: seq<string>)
      ensures ts == LangTables(TableOf(cfg, stringsTables), if ls.None? then langs else ls.value)
    {
      var tableOf := TableOf(cfg, stringsTables);
      var src := if ls.None? then langs else ls.value;
      var all := [];
      var i := 0;
      while i < |src|
        invariant 0 <= i <= |src|
        invariant |all| == i && forall k :: 0 <= k < i ==> all[k] == tableOf(src[k])
      {
        all := all + [tableOf(src[i])];
        i := i + 1;
      }
      assert all == MapSeq(tableOf, src);
      ts := Unique(all);
    }

    /** `_getLangCols`. */
    method GetLangCols(ls: seq<string>) returns (cols: Dict<string>)
      ensures cols == LangCols(cfg.langCol, ls)
    {
      cols := Empty();
      var i := 0;
      while i < |ls|
        invariant 0 <= i <= |ls|
        invariant cols == LangCols(cfg.langCol, ls[..i])
      {
        assert ls[..i + 1][..i] == ls[..i];
        cols := cols.Put(ls[i], cfg.langCol(ls[i]));
        i := i + 1;
      }
      assert ls[..|ls|] == ls;
    }

    /** `_filterStringsByTable`. */
    method FilterStringsByTable(strings: Dict<string>, t: string) returns (r: Dict<string>)
      requires strings.Valid()
      ensures r == FilterStrings(TableOf(cfg, stringsTables), strings, t)
    {
      var tableOf := TableOf(cfg, stringsTables);
      r := Empty();
      var i := 0;
      while i < |strings.keys|
        invariant 0 <= i <= |strings.keys|
        invariant r == FilterStringsOf(tableOf, strings.keys[..i], strings.vals, t)
      {
        var l := strings.keys[i];
        assert strings.keys[..i + 1][..i] == strings.keys[..i];
        if tableOf(l) == t {
          r := r.Put(l, strings.vals[l]);
        }
        i := i + 1;
      }
      assert strings.keys[..|strings.keys|] == strings.keys;
    }

    /** The base class's `fetchLangs`: re-read the registered ids. */
    method FetchLangs()
      modifies this
      ensures (db, langs) == FetchLangsSpec(cfg, old(db), old(langs))
      ensures stringsTables == old(stringsTables)
    {
      var r := Query(SelectCol(cfg.opts.availTable, cfg.opts.langIdCol));
      if r.Answered? && r.answer.Column? {
        langs := Unique(Present(r.answer.values));
      }
    }

    /** `_getLangsInTable`: refresh the cache, then the registered languages stored in `t`. */
    method GetLangsInTable(t: string) returns (ls: seq<string>)
      modifies this
      ensures (db, langs) == FetchLangsSpec(cfg, old(db), old(langs))
      ensures stringsTables == old(stringsTables)
      ensures ls == InTable(TableOf(cfg, stringsTables), langs, t)
    {
      FetchLangs();
      var tableOf := TableOf(cfg, stringsTables);
      ls := [];
      var i := 0;
      while i < |langs|
        invariant 0 <= i <= |langs|
        invariant ls == InTable(tableOf, langs[..i], t)
      {
        assert langs[..i + 1][..i] == langs[..i];
        if tableOf(langs[i]) == t {
          ls := ls + [langs[i]];
        }
        i := i + 1;
      }
      assert langs[..|langs|] == langs;
    }

    /** `_recordExists`. */
    method RecordExists(sid: string, pageID: Option<string>, t: string) returns (r: Outcome<bool>)
      modifies this
      ensures (db, r) == RecordExistsSpec(cfg, old(db), sid, pageID, t)
      ensures langs == old(langs) && stringsTables == old(stringsTables)
    {
      var res := Query(Count(t, Where(cfg.opts, sid, pageID)));
      if res.Error? {
        return Failure(res);
      }
      r := Value(res.Answered? && res.answer.Number? && res.answer.n > 0);
    }

    // -------------------------------------------------------------------
    // update, add, remove, getPageNames

    /** The `$langSet` loop of `update`. */
    method SetListOf(cols: Dict<string>, group: seq<string>, strings: Dict<string>) returns (assigns: seq<(string, string)>)
      requires forall l :: l in group ==> l in cols.vals && cols.vals[l] == cfg.langCol(l)
      ensures assigns == SetList(cfg.langCol, group, strings)
    {
      assigns := [];
      var j := 0;
      while j < |group|
        invariant 0 <= j <= |group|
        invariant |assigns| == j && forall k :: 0 <= k < j ==> assigns[k] == (cfg.langCol(group[k]), Lookup(strings, group[k]))
      {
        assigns := assigns + [(cols.vals[group[j]], Lookup(strings, group[j]))];
        j := j + 1;
      }
    }

    /** The UPDATE of the `i`-th table group, the `i`-th statement of `update`. */
    method UpdateGroup(g: Dict<seq<string>>, i: nat, sid: string, pageID: Option<string>, strings: Dict<string>,
                       ghost stmts: seq<Stmt>) returns (r: Reply)
      requires i < |g.keys| && stmts == UpdateStmts(cfg, g, strings, sid, pageID)
      modifies this
      ensures (db, r) == Exec(old(db), stmts[i])
      ensures langs == old(langs) && stringsTables == old(stringsTables)
    {
      var t := g.keys[i];
      var group := if t in g.vals then g.vals[t] else [];
      assert g.Get(t).GetOr([]) == group;
      UpdateStmtsOfAt(cfg, g, g.keys, strings, sid, pageID);
      var cols := GetLangCols(group);
      LangColsProps(cfg.langCol, group);
      var assigns := SetListOf(cols, group, strings);
      r := Query(Stmt.Update(t, assigns, Where(cfg.opts, sid, pageID)));
    }

    /** The loop of `update`: one UPDATE per table group, stopping at the first error. */
    method UpdateAll(g: Dict<seq<string>>, sid: string, pageID: Option<string>, strings: Dict<string>) returns (r: Reply)
      modifies this
      ensures (db, r) == RunUntilError(old(db), UpdateStmts(cfg, g, strings, sid, pageID))
      ensures langs == old(langs) && stringsTables == old(stringsTables)
    {
      ghost var stmts := UpdateStmts(cfg, g, strings, sid, pageID);
      ghost var spec := RunUntilError(db, stmts);
      assert stmts[0..] == stmts;
      var i := 0;
      while i < |g.keys|
        invariant 0 <= i <= |g.keys|
        invariant langs == old(langs) && stringsTables == old(stringsTables)
        invariant RunUntilError(db, stmts[i..]) == spec
      {
        assert stmts[i..][0] == stmts[i] && stmts[i..][1..] == stmts[i + 1..];
        var res := UpdateGroup(g, i, sid, pageID, strings, stmts);
        if res.Error? {
          return res;
        }
        i := i + 1;
      }
      assert stmts[i..] == [];
      return Answered(Done);
    }

    /** `update`. */
    method Update(sid: string, pageID: Option<string>, strings: Dict<string>) returns (r: Reply)
      modifies this
      ensures (db, r) == UpdateSpec(cfg, TableOf(cfg, stringsTables), langs, old(db), sid, pageID, strings)
      ensures langs == old(langs) && stringsTables == old(stringsTables)
    {
      var reg := Registered(strings.keys, langs);
      if |reg| == 0 {
        UpdateNothingRegistered(cfg, TableOf(cfg, stringsTables), langs, db, sid, pageID, strings);
        return Answered(Done);
      }
      var g := TableLangs(reg);
      r := UpdateAll(g, sid, pageID, strings);
    }

    /** The column and value pairs of the INSERT of `add`. */
    method InsertValuesOf(cols: Dict<string>, group: seq<string>, strings: Dict<string>) returns (vs: seq<(string, Option<string>)>)
      requires forall l :: l in group ==> l in cols.vals && cols.vals[l] == cfg.langCol(l)
      ensures vs == InsertValues(cfg.langCol, group, strings)
    {
      vs := [];
      var j := 0;
      while j < |group|
        invariant 0 <= j <= |group|
        invariant |vs| == j && forall k :: 0 <= k < j ==> vs[k] == (cfg.langCol(group[k]), Some(Lookup(strings, group[k])))
      {
        vs := vs + [(cols.vals[group[j]], Some(Lookup(strings, group[j])))];
        j := j + 1;
      }
    }

    /** The INSERT of `add` for the group of table `t`. */
    method InsertGroup(t: string, group: seq<string>, sid: string, pageID: Option<string>, strings: Dict<string>) returns (r: Reply)
      modifies this
      ensures (db, r) == Exec(old(db), InsertStmt(cfg, t, group, strings, sid, pageID))
      ensures langs == old(langs) && stringsTables == old(stringsTables)
    {
      var cols := GetLangCols(group);
      LangColsProps(cfg.langCol, group);
      var values := InsertValuesOf(cols, group, strings);
      r := Query(Insert(t, [(cfg.opts.stringIdCol, Some(sid)), (cfg.opts.pageIdCol, pageID)] + values));
    }

    /**
     * One table group of `add`: check for the record, then update or insert.
     * Either `add` stops here with `r`, or what is left of it is the rest of
     * the groups.
     */
    method AddGroup(g: Dict<seq<string>>, keys: seq<string>, sid: string, pageID: Option<string>, strings: Dict<string>)
      returns (r: Reply, stop: bool)
      requires strings.Valid() && keys != []
      modifies this
      ensures stop ==> (db, r) == AddFrom(cfg, TableOf(cfg, stringsTables), langs, old(db), g, keys, strings, sid, pageID)
      ensures !stop ==> AddFrom(cfg, TableOf(cfg, stringsTables), langs, db, g, keys[1..], strings, sid, pageID) ==
                        AddFrom(cfg, TableOf(cfg, stringsTables), langs, old(db), g, keys, strings, sid, pageID)
      ensures langs == old(langs) && stringsTables == old(stringsTables)
    {
      var t := keys[0];
      var found := RecordExists(sid, pageID, t);
      if found.Failure? {
        return found.error, true;
      }
      if found.value {
        var fs := FilterStringsByTable(strings, t);
        var _ := Update(sid, pageID, fs);
        return Answered(Done), false;
      }
      var group := if t in g.vals then g.vals[t] else [];
      assert g.Get(t).GetOr([]) == group;
      r := InsertGroup(t, group, sid, pageID, strings);
      stop := r.Error?;
    }

    /** The loop of `add` over the table groups, from the group at `keys[0]` on. */
    method AddAll(g: Dict<seq<string>>, sid: string, pageID: Option<string>, strings: Dict<string>) returns (r: Reply)
      requires strings.Valid()
      modifies this
      ensures (db, r) == AddFrom(cfg, TableOf(cfg, stringsTables), langs, old(db), g, g.keys, strings, sid, pageID)
      ensures langs == old(langs) && stringsTables == old(stringsTables)
    {
      ghost var spec := AddFrom(cfg, TableOf(cfg, stringsTables), langs, db, g, g.keys, strings, sid, pageID);
      assert g.keys[0..] == g.keys;
      var i := 0;
      while i < |g.keys|
        invariant 0 <= i <= |g.keys|
        invariant langs == old(langs) && stringsTables == old(stringsTables)
        invariant AddFrom(cfg, TableOf(cfg, stringsTables), langs, db, g, g.keys[i..], strings, sid, pageID) == spec
      {
        assert g.keys[i..][1..] == g.keys[i + 1..];
        var stop;
        r, stop := AddGroup(g, g.keys[i..], sid, pageID, strings);
        if stop {
          return;
        }
        i := i + 1;
      }
      assert g.keys[i..] == [];
      return Answered(Done);
    }

    /** `add`. */
    method Add(sid: string, pageID: Option<string>, strings: Dict<string>) returns (r: Reply)
      requires strings.Valid()
      modifies this
      ensures (db, r) == AddSpec(cfg, TableOf(cfg, stringsTables), langs, old(db), sid, pageID, strings)
      ensures langs == old(langs) && stringsTables == old(stringsTables)
    {
      var reg := Registered(strings.keys, langs);
      if |reg| == 0 {
        AddNothingRegistered(cfg, TableOf(cfg, stringsTables), langs, db, sid, pageID, strings);
        return Answered(Done);
      }
      var g := TableLangs(reg);
      r := AddAll(g, sid, pageID, strings);
    }

    /** `remove`. */
    method Remove(sid: string, pageID: Option<string>) returns (r: Reply)
      modifies this
      ensures (db, r) == RemoveSpec(cfg, TableOf(cfg, stringsTables), langs, old(db), sid, pageID)
      ensures langs == old(langs) && stringsTables == old(stringsTables)
    {
      var tables := GetLangTables(None);
      var listed := Query(ListTables);
      var dbTables := Listing(listed);
      ghost var deletes := DeleteStmts(cfg.opts, tables, dbTables, sid, pageID);
      assert RunUntilError(db, deletes) == RemoveSpec(cfg, TableOf(cfg, stringsTables), langs, old(db), sid, pageID);
      assert tables[0..] == tables;
      var i := 0;
      while i < |tables|
        invariant 0 <= i <= |tables|
        invariant langs == old(langs) && stringsTables == old(stringsTables)
        invariant RunUntilError(db, DeleteStmts(cfg.opts, tables[i..], dbTables, sid, pageID)) == RemoveSpec(cfg, TableOf(cfg, stringsTables), langs, old(db), sid, pageID)
      {
        ghost var rest := DeleteStmts(cfg.opts, tables[i + 1..], dbTables, sid, pageID);
        assert tables[i..][1..] == tables[i + 1..];
        if tables[i] !in dbTables {
          assert DeleteStmts(cfg.opts, tables[i..], dbTables, sid, pageID) == rest;
          i := i + 1;
          continue;
        }
        var del := Stmt.Delete(tables[i], Where(cfg.opts, sid, pageID));
        assert DeleteStmts(cfg.opts, tables[i..], dbTables, sid, pageID) == [del] + rest;
        assert ([del] + rest)[1..] == rest;
        var res := Query(del);
        if res.Error? {
          return res;
        }
        i := i + 1;
      }
      return Answered(Done);
    }

    /** `getPageNames`. */
    method GetPageNames() returns (r: Outcome<seq<Option<string>>>)
      modifies this
      ensures (db, r) == GetPageNamesSpec(cfg, TableOf(cfg, stringsTables), langs, old(db))
      ensures langs == old(langs) && stringsTables == old(stringsTables)
    {
      var tables := GetLangTables(None);
      var pages := [];
      var i := 0;
      while i < |tables|
        invariant 0 <= i <= |tables|
        invariant langs == old(langs) && stringsTables == old(stringsTables)
        invariant PageNamesFrom(cfg.opts, db, tables[i..], pages) == PageNamesFrom(cfg.opts, old(db), tables, [])
      {
        assert tables[i..][1..] == tables[i + 1..];
        var res := Query(SelectDistinct(tables[i], cfg.opts.pageIdCol));
        if res.Error? {
          return Failure(res);
        }
        pages := pages + ColumnValues(res);
        i := i + 1;
      }
      return Value(PhpUnique(pages));
    }

    // -------------------------------------------------------------------
    // createNewLang, addLangToAvailList, removeLang

    /** `createNewLang`, as written: the create statements stop only at a plain `false`. */
    method CreateNewLang(l: LangData) returns (r: Reply)
      modifies this
      ensures (db, r) == CreateNewLangAsWritten(cfg, old(db), l)
      ensures langs == old(langs) && stringsTables == old(stringsTables)
    {
      var listed := Query(ListTables);
      if listed.Error? {
        return listed;
      }
      if l.tableName in Listing(listed) {
        r := Query(AddColumn(l.tableName, cfg.langCol(l.langId)));
        return;
      }
      var queries := CreateStmts(cfg, l);
      var i := 0;
      while i < |queries|
        invariant 0 <= i <= |queries|
        invariant langs == old(langs) && stringsTables == old(stringsTables)
        invariant RunUntilFalse(db, queries[i..]) == CreateNewLangAsWritten(cfg, old(db), l)
      {
        assert queries[i..][1..] == queries[i + 1..];
        var res := Query(queries[i]);
        if res.False? {
          return res;
        }
        i := i + 1;
      }
      return Answered(Done);
    }

    /** `addLangToAvailList`. */
    method AddLangToAvailList(l: LangData) returns (r: Reply)
      modifies this
      ensures (db, r, stringsTables) == AddLangSpec(cfg, old(stringsTables), old(db), l)
      ensures langs == old(langs)
    {
      var listed := Query(ListTables);
      if listed.Error? {
        return listed;
      }
      if cfg.opts.availTable !in Listing(listed) {
        var queries := RegistryStmts(cfg.opts);
        ghost var made := EnsureRegistry(cfg.opts, db, Listing(listed));
        var i := 0;
        while i < |queries|
          invariant 0 <= i <= |queries|
          invariant langs == old(langs) && stringsTables == old(stringsTables)
          invariant RunUntilError(db, queries[i..]) == made
        {
          assert queries[i..][1..] == queries[i + 1..];
          var res := Query(queries[i]);
          if res.Error? {
            return res;
          }
          i := i + 1;
        }
      }
      r := Query(Insert(cfg.opts.availTable, RegistryValues(cfg.opts, l)));
      stringsTables := stringsTables[l.langId := l.tableName];
    }

    /** `removeLang`, as written: the table is kept only while the refreshed list puts two languages in it. */
    method RemoveLang(langID: string, force: bool) returns (r: Reply)
      modifies this
      ensures (db, r, langs) == RemoveLangAsWritten(cfg, old(stringsTables), old(langs), old(db), langID, force)
      ensures stringsTables == old(stringsTables)
    {
      var res := Query(RegistryDelete(cfg.opts, langID));
      if res.Error? {
        return res;
      }
      var t := TableOf(cfg, stringsTables)(langID);
      var inTable := GetLangsInTable(t);
      if |inTable| > 1 && !force {
        r := Query(DropColumn(t, cfg.langCol(langID)));
        return;
      }
      r := Query(DropTable(t));
    }
  }
}
