/**
 * The string write paths (`update`, `add`, `remove`) and the read path
 * `getPageNames` of the relational admin container, as statements run
 * against the abstract store.
 */
module AdminWrites {
  import opened Wrappers
  import opened Dicts
  import opened Store
  import opened AdminGroups

  // ---------------------------------------------------------------------
  // The (string id, page id) condition

  /** A null page id is matched with `IS NULL`, any other with `= 'p'`. */
  function PageTest(pageID: Option<string>): Test
  {
    if pageID.None? then IsNull else Equals(pageID.value)
  }

  function Where(o: Options, sid: string, pageID: Option<string>): seq<Cond>
  {
    [Cond(o.stringIdCol, Equals(sid)), Cond(o.pageIdCol, PageTest(pageID))]
  }

  /** The condition matches exactly the rows with that string id and that page id, NULL only for NULL. */
  lemma WhereMatches(o: Options, sid: string, pageID: Option<string>, row: Row)
    ensures Matches(row, Where(o, sid, pageID)) <==>
      (o.stringIdCol in row && row[o.stringIdCol] == sid &&
       (if pageID.None? then o.pageIdCol !in row else o.pageIdCol in row && row[o.pageIdCol] == pageID.value))
  {
    var w := Where(o, sid, pageID);
    if Holds(row, w[0]) && Holds(row, w[1]) {
      forall i | 0 <= i < |w| ensures Holds(row, w[i]) {
        if i != 0 {
          assert i == 1;
        }
      }
    }
  }

  /** A null page id never selects a row whose page id is the empty string, and `''` never selects NULL. */
  lemma NullPageNeverMatchesEmpty(o: Options, sid: string, row: Row)
    ensures o.pageIdCol in row && row[o.pageIdCol] == "" ==> !Matches(row, Where(o, sid, None))
    ensures o.pageIdCol !in row ==> !Matches(row, Where(o, sid, Some("")))
  {
    WhereMatches(o, sid, None, row);
    WhereMatches(o, sid, Some(""), row);
  }

  // ---------------------------------------------------------------------
  // update

  function Lookup(strings: Dict<string>, l: string): string
  {
    strings.Get(l).GetOr("")
  }

  /** The SET list: one `column = 'string'` per language of the group. */
  function SetList(langCol: string -> string, group: seq<string>, strings: Dict<string>): (r: seq<(string, string)>)
    ensures |r| == |group|
  {
    seq(|group|, j requires 0 <= j < |group| => (langCol(group[j]), Lookup(strings, group[j])))
  }

  function UpdateStmt(c: Config, t: string, group: seq<string>, strings: Dict<string>, sid: string, pageID: Option<string>): Stmt
  {
    Update(t, SetList(c.langCol, group, strings), Where(c.opts, sid, pageID))
  }

  /** One UPDATE per table `ks` names, with the group `g` holds for it. */
  function UpdateStmtsOf(c: Config, g: Dict<seq<string>>, ks: seq<string>, strings: Dict<string>,
                         sid: string, pageID: Option<string>): (r: seq<Stmt>)
    ensures |r| == |ks|
    decreases |ks|
  {
    if ks == [] then []
    else [UpdateStmt(c, ks[0], g.Get(ks[0]).GetOr([]), strings, sid, pageID)] + UpdateStmtsOf(c, g, ks[1..], strings, sid, pageID)
  }

  /** The k-th UPDATE is the one of the k-th table. */
  lemma {:induction false} UpdateStmtsOfAt(c: Config, g: Dict<seq<string>>, ks: seq<string>, strings: Dict<string>,
                                          sid: string, pageID: Option<string>)
    ensures forall k :: 0 <= k < |ks| ==>
      UpdateStmtsOf(c, g, ks, strings, sid, pageID)[k] == UpdateStmt(c, ks[k], g.Get(ks[k]).GetOr([]), strings, sid, pageID)
    decreases |ks|
  {
    if ks != [] {
      UpdateStmtsOfAt(c, g, ks[1..], strings, sid, pageID);
    }
  }

  function UpdateStmts(c: Config, g: Dict<seq<string>>, strings: Dict<string>, sid: string, pageID: Option<string>): (r: seq<Stmt>)
    ensures |r| == |g.keys|
  {
    UpdateStmtsOf(c, g, g.keys, strings, sid, pageID)
  }

  /** The registered languages of a string array, grouped by table. */
  function UpdateGroups(tableOf: string -> string, ids: seq<string>, strings: Dict<string>): Dict<seq<string>>
  {
    Groups(tableOf, Registered(strings.keys, ids))
  }

  /** `update`: one UPDATE per table group, stopping at the first error. */
  function UpdateSpec(c: Config, tableOf: string -> string, ids: seq<string>, db: Db,
                      sid: string, pageID: Option<string>, strings: Dict<string>): (Db, Reply)
  {
    RunUntilError(db, UpdateStmts(c, UpdateGroups(tableOf, ids, strings), strings, sid, pageID))
  }

  /** Without a registered language, `update` issues nothing and returns true. */
  lemma UpdateNothingRegistered(c: Config, tableOf: string -> string, ids: seq<string>, db: Db,
                                sid: string, pageID: Option<string>, strings: Dict<string>)
    requires Registered(strings.keys, ids) == []
    ensures UpdateSpec(c, tableOf, ids, db, sid, pageID, strings) == (db, Answered(Done))
  {
  }

  /**
   * `update` issues one UPDATE per distinct table of the registered
   * languages, in order of first use; the k-th sets, for each language
   * stored in that table, its column to its string.
   */
  lemma UpdateStatements(c: Config, tableOf: string -> string, ids: seq<string>,
                         sid: string, pageID: Option<string>, strings: Dict<string>)
    ensures |UpdateStmts(c, UpdateGroups(tableOf, ids, strings), strings, sid, pageID)| ==
            |LangTables(tableOf, Registered(strings.keys, ids))|
    ensures Distinct(LangTables(tableOf, Registered(strings.keys, ids)))
    ensures forall k :: 0 <= k < |LangTables(tableOf, Registered(strings.keys, ids))| ==>
      UpdateStmts(c, UpdateGroups(tableOf, ids, strings), strings, sid, pageID)[k] ==
      UpdateStmt(c, LangTables(tableOf, Registered(strings.keys, ids))[k],
                 InTable(tableOf, Registered(strings.keys, ids), LangTables(tableOf, Registered(strings.keys, ids))[k]),
                 strings, sid, pageID)
  {
    var reg := Registered(strings.keys, ids);
    GroupsKeys(tableOf, reg);
    GroupsValues(tableOf, reg);
    var g := UpdateGroups(tableOf, ids, strings);
    UpdateStmtsOfAt(c, g, g.keys, strings, sid, pageID);
  }

  // ---------------------------------------------------------------------
  // _recordExists and add

  function InsertValues(langCol: string -> string, group: seq<string>, strings: Dict<string>): (r: seq<(string, Option<string>)>)
    ensures |r| == |group|
  {
    seq(|group|, j requires 0 <= j < |group| => (langCol(group[j]), Some(Lookup(strings, group[j]))))
  }

  /** The INSERT of `add`: string id, page id (NULL for a null one), then the group's strings. */
  function InsertStmt(c: Config, t: string, group: seq<string>, strings: Dict<string>, sid: string, pageID: Option<string>): Stmt
  {
    Insert(t, [(c.opts.stringIdCol, Some(sid)), (c.opts.pageIdCol, pageID)] + InsertValues(c.langCol, group, strings))
  }

  /** `_recordExists`: a COUNT over the matching rows, true when positive. */
  function RecordExistsSpec(c: Config, db: Db, sid: string, pageID: Option<string>, t: string): (Db, Outcome<bool>)
  {
    var e := Exec(db, Count(t, Where(c.opts, sid, pageID)));
    (e.0, if e.1.Error? then Failure(e.1) else Value(e.1.Answered? && e.1.answer.Number? && e.1.answer.n > 0))
  }

  /**
   * `_recordExists` changes no table and logs one COUNT; refused, it fails;
   * accepted, it says whether some row has that string id and page id.
   */
  lemma RecordExistsCounts(c: Config, db: Db, sid: string, pageID: Option<string>, t: string)
    ensures RecordExistsSpec(c, db, sid, pageID, t).0.tables == db.tables
    ensures RecordExistsSpec(c, db, sid, pageID, t).0.log == db.log + [Count(t, Where(c.opts, sid, pageID))]
    ensures |db.log| in db.faults || t !in db.tables ==> RecordExistsSpec(c, db, sid, pageID, t).1.Failure?
    ensures |db.log| !in db.faults && t in db.tables &&
            c.opts.stringIdCol in db.tables[t].cols && c.opts.pageIdCol in db.tables[t].cols ==>
      RecordExistsSpec(c, db, sid, pageID, t).1 ==
      Value(exists row :: row in db.tables[t].rows && Matches(row, Where(c.opts, sid, pageID)))
  {
    var w := Where(c.opts, sid, pageID);
    if |db.log| !in db.faults && t in db.tables && c.opts.stringIdCol in db.tables[t].cols && c.opts.pageIdCol in db.tables[t].cols {
      assert ColsKnown(db.tables[t], CondCols(w));
      var m := Matching(db.tables[t].rows, w);
      forall row | row in db.tables[t].rows && Matches(row, w) ensures |m| > 0 {
        NotMatchingIsComplement(db.tables[t].rows, w, row);
      }
      if |m| > 0 {
        NotMatchingIsComplement(db.tables[t].rows, w, m[0]);
      }
    }
  }

  /**
   * The loop of `add` over the table groups still to handle: check the
   * record; an existing one is updated with that table's strings (the
   * result is ignored); a missing one gets one INSERT; an error from the
   * check or the INSERT is returned at once.
   */
  function AddFrom(c: Config, tableOf: string -> string, ids: seq<string>, db: Db, g: Dict<seq<string>>,
                   keys: seq<string>, strings: Dict<string>, sid: string, pageID: Option<string>): (Db, Reply)
    decreases |keys|
  {
    if keys == [] then (db, Answered(Done))
    else
      var t := keys[0];
      var e := RecordExistsSpec(c, db, sid, pageID, t);
      if e.1.Failure? then (e.0, e.1.error)
      else if e.1.value then
        AddFrom(c, tableOf, ids, UpdateSpec(c, tableOf, ids, e.0, sid, pageID, FilterStrings(tableOf, strings, t)).0,
                g, keys[1..], strings, sid, pageID)
      else
        var ins := Exec(e.0, InsertStmt(c, t, g.Get(t).GetOr([]), strings, sid, pageID));
        if ins.1.Error? then ins else AddFrom(c, tableOf, ids, ins.0, g, keys[1..], strings, sid, pageID)
  }

  /** `add`. */
  function AddSpec(c: Config, tableOf: string -> string, ids: seq<string>, db: Db,
                   sid: string, pageID: Option<string>, strings: Dict<string>): (Db, Reply)
  {
    var g := UpdateGroups(tableOf, ids, strings);
    AddFrom(c, tableOf, ids, db, g, g.keys, strings, sid, pageID)
  }

  /** Without a registered language, `add` issues nothing and returns true. */
  lemma AddNothingRegistered(c: Config, tableOf: string -> string, ids: seq<string>, db: Db,
                             sid: string, pageID: Option<string>, strings: Dict<string>)
    requires Registered(strings.keys, ids) == []
    ensures AddSpec(c, tableOf, ids, db, sid, pageID, strings) == (db, Answered(Done))
  {
  }

  /**
   * For an existing record, the `update` that `add` calls with the strings
   * of table `t` issues exactly the UPDATE of that table's group, with the
   * same SET list as an `update` with all the strings would.
   */
  lemma AddNestedUpdate(c: Config, tableOf: string -> string, ids: seq<string>,
                        sid: string, pageID: Option<string>, strings: Dict<string>, t: string)
    requires strings.Valid()
    requires t in UpdateGroups(tableOf, ids, strings).vals
    ensures UpdateStmts(c, UpdateGroups(tableOf, ids, FilterStrings(tableOf, strings, t)), FilterStrings(tableOf, strings, t), sid, pageID)
         == [UpdateStmt(c, t, UpdateGroups(tableOf, ids, strings).vals[t], strings, sid, pageID)]
  {
    var fs := FilterStrings(tableOf, strings, t);
    var grp := NestedGroup(tableOf, ids, strings, t);
    GroupsOneTable(tableOf, grp, t);
    var g := UpdateGroups(tableOf, ids, fs);
    assert g.keys == [t] && g.Get(t).GetOr([]) == grp;
    var us := UpdateStmts(c, g, fs, sid, pageID);
    assert g.keys[1..] == [];
    assert us == [UpdateStmt(c, t, grp, fs, sid, pageID)];
    SetListFiltered(c.langCol, tableOf, strings, grp, t);
  }

  /** The strings of table `t` give its languages the same SET list as all the strings. */
  lemma SetListFiltered(langCol: string -> string, tableOf: string -> string, strings: Dict<string>, grp: seq<string>, t: string)
    requires strings.Valid()
    requires forall j :: 0 <= j < |grp| ==> tableOf(grp[j]) == t && grp[j] in strings.vals
    ensures SetList(langCol, grp, FilterStrings(tableOf, strings, t)) == SetList(langCol, grp, strings)
  {
    var fs := FilterStrings(tableOf, strings, t);
    FilterStringsProps(tableOf, strings, t);
    assert forall j :: 0 <= j < |grp| ==> Lookup(fs, grp[j]) == Lookup(strings, grp[j]);
  }

  /** The registered languages among the strings of table `t` are that table's group, and it is not empty. */
  lemma NestedGroup(tableOf: string -> string, ids: seq<string>, strings: Dict<string>, t: string) returns (grp: seq<string>)
    requires strings.Valid()
    requires t in UpdateGroups(tableOf, ids, strings).vals
    ensures grp == Registered(FilterStrings(tableOf, strings, t).keys, ids) == UpdateGroups(tableOf, ids, strings).vals[t]
    ensures grp != [] && forall j :: 0 <= j < |grp| ==> tableOf(grp[j]) == t && grp[j] in strings.vals
  {
    var reg := Registered(strings.keys, ids);
    grp := InTable(tableOf, reg, t);
    FilterStringsProps(tableOf, strings, t);
    RegisteredInTable(tableOf, strings.keys, ids, t);
    GroupsValues(tableOf, reg);
    GroupMembers(tableOf, strings, reg, t);
  }

  /** A group that has a key is not empty; its members live in its table and have strings. */
  lemma GroupMembers(tableOf: string -> string, strings: Dict<string>, reg: seq<string>, t: string)
    requires strings.Valid()
    requires forall l :: l in reg ==> l in strings.keys
    requires t in Groups(tableOf, reg).vals
    ensures InTable(tableOf, reg, t) != []
    ensures forall j :: 0 <= j < |InTable(tableOf, reg, t)| ==>
      tableOf(InTable(tableOf, reg, t)[j]) == t && InTable(tableOf, reg, t)[j] in strings.vals
  {
    var grp := InTable(tableOf, reg, t);
    GroupsKeys(tableOf, reg);
    assert t in MapSeq(tableOf, reg);
    var i :| 0 <= i < |reg| && MapSeq(tableOf, reg)[i] == t;
    assert reg[i] in grp;
    assert forall j :: 0 <= j < |grp| ==> grp[j] in grp;
  }

  /**
   * The statements `add` may issue for the table groups `keys`: per group
   * one COUNT, then one INSERT or that table's UPDATE; a refused COUNT or
   * INSERT ends the run with its error, a refused UPDATE does not, and a
   * run that gets through every group returns true.
   */
  ghost predicate AddLog(c: Config, g: Dict<seq<string>>, keys: seq<string>, strings: Dict<string>,
                         sid: string, pageID: Option<string>, s: seq<Stmt>, r: Reply)
    decreases |keys|
  {
    if keys == [] then s == [] && r == Answered(Done)
    else
      var t := keys[0];
      var grp := g.Get(t).GetOr([]);
      var count := Count(t, Where(c.opts, sid, pageID));
      var ins := InsertStmt(c, t, grp, strings, sid, pageID);
      var upd := UpdateStmt(c, t, grp, strings, sid, pageID);
      (s == [count] && r == Error(count)) ||
      (s == [count, ins] && r == Error(ins)) ||
      (|s| >= 2 && s[0] == count && (s[1] == ins || s[1] == upd) && AddLog(c, g, keys[1..], strings, sid, pageID, s[2..], r))
  }

  /** The log of a run that continued `before` is `before` and then a log of the `add` loop over `keys`. */
  ghost predicate LoggedFrom(c: Config, g: Dict<seq<string>>, keys: seq<string>, strings: Dict<string>,
                             sid: string, pageID: Option<string>, before: seq<Stmt>, r: (Db, Reply))
  {
    |before| <= |r.0.log| && r.0.log[..|before|] == before && AddLog(c, g, keys, strings, sid, pageID, r.0.log[|before|..], r.1)
  }

  /** The nested `update` of one existing record issues that table's UPDATE and changes nothing else. */
  lemma NestedUpdateRun(c: Config, tableOf: string -> string, ids: seq<string>, db: Db,
                        sid: string, pageID: Option<string>, strings: Dict<string>, t: string)
    requires strings.Valid()
    requires t in UpdateGroups(tableOf, ids, strings).vals
    ensures UpdateSpec(c, tableOf, ids, db, sid, pageID, FilterStrings(tableOf, strings, t)).0 ==
      Exec(db, UpdateStmt(c, t, UpdateGroups(tableOf, ids, strings).vals[t], strings, sid, pageID)).0
  {
    var fs := FilterStrings(tableOf, strings, t);
    var us := UpdateStmts(c, UpdateGroups(tableOf, ids, fs), fs, sid, pageID);
    AddNestedUpdate(c, tableOf, ids, sid, pageID, strings, t);
    RunUntilErrorOne(db, us, UpdateStmt(c, t, UpdateGroups(tableOf, ids, strings).vals[t], strings, sid, pageID));
  }

  /** One group of the `add` loop whose COUNT is refused: the run ends with that error. */
  lemma AddFromCountFails(c: Config, tableOf: string -> string, ids: seq<string>, db: Db, g: Dict<seq<string>>,
                          keys: seq<string>, strings: Dict<string>, sid: string, pageID: Option<string>)
    requires keys != [] && RecordExistsSpec(c, db, sid, pageID, keys[0]).1.Failure?
    ensures AddFrom(c, tableOf, ids, db, g, keys, strings, sid, pageID) ==
      (RecordExistsSpec(c, db, sid, pageID, keys[0]).0, Error(Count(keys[0], Where(c.opts, sid, pageID))))
  {
  }

  /** One group of the `add` loop with an existing record: its UPDATE, then the next groups. */
  lemma AddFromUpdates(c: Config, tableOf: string -> string, ids: seq<string>, db: Db, g: Dict<seq<string>>,
                       keys: seq<string>, strings: Dict<string>, sid: string, pageID: Option<string>)
    requires strings.Valid() && g == UpdateGroups(tableOf, ids, strings)
    requires keys != [] && keys[0] in g.vals
    requires RecordExistsSpec(c, db, sid, pageID, keys[0]).1 == Value(true)
    ensures var e := RecordExistsSpec(c, db, sid, pageID, keys[0]);
      AddFrom(c, tableOf, ids, db, g, keys, strings, sid, pageID) ==
      AddFrom(c, tableOf, ids, Exec(e.0, UpdateStmt(c, keys[0], g.vals[keys[0]], strings, sid, pageID)).0,
              g, keys[1..], strings, sid, pageID)
  {
    NestedUpdateRun(c, tableOf, ids, RecordExistsSpec(c, db, sid, pageID, keys[0]).0, sid, pageID, strings, keys[0]);
  }

  /** One group of the `add` loop without a record: its INSERT, then, if accepted, the next groups. */
  lemma AddFromInserts(c: Config, tableOf: string -> string, ids: seq<string>, db: Db, g: Dict<seq<string>>,
                       keys: seq<string>, strings: Dict<string>, sid: string, pageID: Option<string>)
    requires keys != [] && keys[0] in g.vals
    requires RecordExistsSpec(c, db, sid, pageID, keys[0]).1 == Value(false)
    ensures var ins := Exec(RecordExistsSpec(c, db, sid, pageID, keys[0]).0, InsertStmt(c, keys[0], g.vals[keys[0]], strings, sid, pageID));
      AddFrom(c, tableOf, ids, db, g, keys, strings, sid, pageID) ==
      if ins.1.Error? then ins else AddFrom(c, tableOf, ids, ins.0, g, keys[1..], strings, sid, pageID)
  {
  }

  lemma {:induction false} AddFromLog(c: Config, tableOf: string -> string, ids: seq<string>, db: Db, g: Dict<seq<string>>,
                                      keys: seq<string>, strings: Dict<string>, sid: string, pageID: Option<string>)
    requires strings.Valid() && g == UpdateGroups(tableOf, ids, strings)
    requires forall k :: k in keys ==> k in g.vals
    ensures LoggedFrom(c, g, keys, strings, sid, pageID, db.log, AddFrom(c, tableOf, ids, db, g, keys, strings, sid, pageID))
    decreases |keys|, 1
  {
    if keys != [] {
      var t := keys[0];
      var e := RecordExistsSpec(c, db, sid, pageID, t);
      RecordExistsCounts(c, db, sid, pageID, t);
      if e.1.Failure? {
        AddFromCountFails(c, tableOf, ids, db, g, keys, strings, sid, pageID);
        assert AddFrom(c, tableOf, ids, db, g, keys, strings, sid, pageID).0.log[|db.log|..] == [Count(t, Where(c.opts, sid, pageID))];
      } else if e.1.value {
        AddFromLogUpdates(c, tableOf, ids, db, g, keys, strings, sid, pageID);
      } else {
        AddFromLogInserts(c, tableOf, ids, db, g, keys, strings, sid, pageID);
      }
    }
  }

  /** The log of the `add` loop when the first group has a record. */
  lemma {:induction false} AddFromLogUpdates(c: Config, tableOf: string -> string, ids: seq<string>, db: Db, g: Dict<seq<string>>,
                                             keys: seq<string>, strings: Dict<string>, sid: string, pageID: Option<string>)
    requires strings.Valid() && g == UpdateGroups(tableOf, ids, strings)
    requires keys != [] && forall k :: k in keys ==> k in g.vals
    requires RecordExistsSpec(c, db, sid, pageID, keys[0]).1 == Value(true)
    ensures LoggedFrom(c, g, keys, strings, sid, pageID, db.log, AddFrom(c, tableOf, ids, db, g, keys, strings, sid, pageID))
    decreases |keys|, 0
  {
    var t := keys[0];
    assert g.Get(t).GetOr([]) == g.vals[t];
    var e := RecordExistsSpec(c, db, sid, pageID, t);
    RecordExistsCounts(c, db, sid, pageID, t);
    AddFromUpdates(c, tableOf, ids, db, g, keys, strings, sid, pageID);
    var updStmt := UpdateStmt(c, t, g.vals[t], strings, sid, pageID);
    var upd := Exec(e.0, updStmt);
    AddFromLog(c, tableOf, ids, upd.0, g, keys[1..], strings, sid, pageID);
    StepLog(c, g, keys, strings, sid, pageID, db.log, updStmt, upd.0.log,
            AddFrom(c, tableOf, ids, upd.0, g, keys[1..], strings, sid, pageID));
  }

  /** The log of the `add` loop when the first group has no record. */
  lemma {:induction false} AddFromLogInserts(c: Config, tableOf: string -> string, ids: seq<string>, db: Db, g: Dict<seq<string>>,
                                             keys: seq<string>, strings: Dict<string>, sid: string, pageID: Option<string>)
    requires strings.Valid() && g == UpdateGroups(tableOf, ids, strings)
    requires keys != [] && forall k :: k in keys ==> k in g.vals
    requires RecordExistsSpec(c, db, sid, pageID, keys[0]).1 == Value(false)
    ensures LoggedFrom(c, g, keys, strings, sid, pageID, db.log, AddFrom(c, tableOf, ids, db, g, keys, strings, sid, pageID))
    decreases |keys|, 0
  {
    var t := keys[0];
    assert g.Get(t).GetOr([]) == g.vals[t];
    var e := RecordExistsSpec(c, db, sid, pageID, t);
    RecordExistsCounts(c, db, sid, pageID, t);
    AddFromInserts(c, tableOf, ids, db, g, keys, strings, sid, pageID);
    var insStmt := InsertStmt(c, t, g.vals[t], strings, sid, pageID);
    var ins := Exec(e.0, insStmt);
    if ins.1.Error? {
      assert ins.0.log[|db.log|..] == [Count(t, Where(c.opts, sid, pageID)), insStmt];
    } else {
      AddFromLog(c, tableOf, ids, ins.0, g, keys[1..], strings, sid, pageID);
      StepLog(c, g, keys, strings, sid, pageID, db.log, insStmt, ins.0.log,
              AddFrom(c, tableOf, ids, ins.0, g, keys[1..], strings, sid, pageID));
    }
  }

  /**
   * A group's COUNT and INSERT or UPDATE, issued after `before`, followed by
   * a log of the next groups is, after `before`, a log of these groups.
   */
  lemma StepLog(c: Config, g: Dict<seq<string>>, keys: seq<string>, strings: Dict<string>,
                sid: string, pageID: Option<string>, before: seq<Stmt>, st: Stmt, mid: seq<Stmt>, r: (Db, Reply))
    requires keys != []
    requires st == InsertStmt(c, keys[0], g.Get(keys[0]).GetOr([]), strings, sid, pageID) ||
             st == UpdateStmt(c, keys[0], g.Get(keys[0]).GetOr([]), strings, sid, pageID)
    requires mid == before + [Count(keys[0], Where(c.opts, sid, pageID))] + [st]
    requires LoggedFrom(c, g, keys[1..], strings, sid, pageID, mid, r)
    ensures LoggedFrom(c, g, keys, strings, sid, pageID, before, r)
  {
    var log := r.0.log;
    assert mid == before + [Count(keys[0], Where(c.opts, sid, pageID)), st];
    LogAfter(before, [Count(keys[0], Where(c.opts, sid, pageID)), st], log);
    assert log[|before|..][2..] == log[|mid|..];
  }

  /**
   * `add` issues, per table group in order of first use, one COUNT and then
   * one INSERT or that table's UPDATE, stopping at the first refused COUNT
   * or INSERT, whose error it returns; otherwise it returns true.
   */
  lemma AddStatements(c: Config, tableOf: string -> string, ids: seq<string>, db: Db,
                      sid: string, pageID: Option<string>, strings: Dict<string>)
    requires strings.Valid()
    ensures |db.log| <= |AddSpec(c, tableOf, ids, db, sid, pageID, strings).0.log|
    ensures AddSpec(c, tableOf, ids, db, sid, pageID, strings).0.log[..|db.log|] == db.log
    ensures AddLog(c, UpdateGroups(tableOf, ids, strings), UpdateGroups(tableOf, ids, strings).keys, strings, sid, pageID,
                   AddSpec(c, tableOf, ids, db, sid, pageID, strings).0.log[|db.log|..],
                   AddSpec(c, tableOf, ids, db, sid, pageID, strings).1)
  {
    var g := UpdateGroups(tableOf, ids, strings);
    AddFromLog(c, tableOf, ids, db, g, g.keys, strings, sid, pageID);
  }

  /** A table without a matching row answers the COUNT with zero. */
  lemma NoMatchCountsZero(rows: seq<Row>, w: seq<Cond>)
    requires NoMatch(rows, w)
    ensures |Matching(rows, w)| == 0
  {
    var m := Matching(rows, w);
    if |m| > 0 {
      NotMatchingIsComplement(rows, w, m[0]);
    }
  }

  /** An accepted INSERT appends its one row to its table. */
  lemma ExecInsertAppends(db: Db, s: Stmt)
    requires s.Insert? && |db.log| !in db.faults && !Exec(db, s).1.Error?
    ensures s.table in db.tables && s.table in Exec(db, s).0.tables
    ensures Exec(db, s).0.tables[s.table].rows == db.tables[s.table].rows + [RowOf(s.values)]
  {
  }

  /** `_recordExists` does not report a record when no row matches. */
  lemma RecordExistsNoMatch(c: Config, db: Db, sid: string, pageID: Option<string>, t: string)
    requires t in db.tables && NoMatch(db.tables[t].rows, Where(c.opts, sid, pageID))
    ensures RecordExistsSpec(c, db, sid, pageID, t).1 != Value(true)
  {
    NoMatchCountsZero(db.tables[t].rows, Where(c.opts, sid, pageID));
  }

  /** INSERT, UPDATE and COUNT touch no table but their own. */
  lemma ExecLeavesOthers(db: Db, s: Stmt, t: string)
    requires s.Insert? || s.Update? || s.Count?
    requires t in db.tables
    ensures t in Exec(db, s).0.tables
    ensures t != s.table ==> Exec(db, s).0.tables[t] == db.tables[t]
  {
  }

  /**
   * What the `add` loop over `keys` leaves in table `t`, starting from the
   * tables `before`, when it returns without error: a table of no group as
   * it was; a table of a group with no record its one new row.
   */
  ghost predicate WroteRows(c: Config, g: Dict<seq<string>>, keys: seq<string>, strings: Dict<string>,
                            sid: string, pageID: Option<string>, t: string, before: map<string, Table>, r: (Db, Reply))
    requires t in before
  {
    !r.1.Error? ==>
      t in r.0.tables &&
      (t !in keys ==> r.0.tables[t] == before[t]) &&
      (t in keys && NoMatch(before[t].rows, Where(c.opts, sid, pageID)) ==>
        r.0.tables[t].rows == before[t].rows + [RowOf(InsertStmt(c, t, g.Get(t).GetOr([]), strings, sid, pageID).values)])
  }

  lemma {:induction false} AddFromRows(c: Config, tableOf: string -> string, ids: seq<string>, db: Db, g: Dict<seq<string>>,
                                       keys: seq<string>, strings: Dict<string>, sid: string, pageID: Option<string>, t: string)
    requires NoFaultsFrom(db) && strings.Valid() && g == UpdateGroups(tableOf, ids, strings)
    requires Distinct(keys) && forall k :: k in keys ==> k in g.vals
    requires t in db.tables
    ensures WroteRows(c, g, keys, strings, sid, pageID, t, db.tables, AddFrom(c, tableOf, ids, db, g, keys, strings, sid, pageID))
    decreases |keys|, 1
  {
    if keys != [] {
      var e := RecordExistsSpec(c, db, sid, pageID, keys[0]);
      if e.1.Failure? {
        AddFromCountFails(c, tableOf, ids, db, g, keys, strings, sid, pageID);
      } else if e.1.value {
        AddFromRowsUpdates(c, tableOf, ids, db, g, keys, strings, sid, pageID, t);
      } else {
        AddFromRowsInserts(c, tableOf, ids, db, g, keys, strings, sid, pageID, t);
      }
    }
  }

  /** The tables the `add` loop writes when the first group has a record. */
  lemma {:induction false} AddFromRowsUpdates(c: Config, tableOf: string -> string, ids: seq<string>, db: Db, g: Dict<seq<string>>,
                                              keys: seq<string>, strings: Dict<string>, sid: string, pageID: Option<string>, t: string)
    requires NoFaultsFrom(db) && strings.Valid() && g == UpdateGroups(tableOf, ids, strings)
    requires keys != [] && Distinct(keys) && forall k :: k in keys ==> k in g.vals
    requires t in db.tables
    requires RecordExistsSpec(c, db, sid, pageID, keys[0]).1 == Value(true)
    ensures WroteRows(c, g, keys, strings, sid, pageID, t, db.tables, AddFrom(c, tableOf, ids, db, g, keys, strings, sid, pageID))
    decreases |keys|, 0
  {
    var k := keys[0];
    var e := RecordExistsSpec(c, db, sid, pageID, k);
    RecordExistsCounts(c, db, sid, pageID, k);
    assert NoFaultsFrom(e.0);
    assert Distinct(keys[1..]);
    AddFromUpdates(c, tableOf, ids, db, g, keys, strings, sid, pageID);
    var upd := UpdateStmt(c, k, g.vals[k], strings, sid, pageID);
    var u := Exec(e.0, upd);
    ExecLeavesOthers(e.0, upd, t);
    assert NoFaultsFrom(u.0);
    AddFromRows(c, tableOf, ids, u.0, g, keys[1..], strings, sid, pageID, t);
    if t == k && NoMatch(db.tables[t].rows, Where(c.opts, sid, pageID)) {
      RecordExistsNoMatch(c, db, sid, pageID, t);
    }
    StepRows(c, g, keys, strings, sid, pageID, t, db.tables, u.0.tables,
             AddFrom(c, tableOf, ids, u.0, g, keys[1..], strings, sid, pageID));
  }

  /** The tables the `add` loop writes when the first group has no record. */
  lemma {:induction false} AddFromRowsInserts(c: Config, tableOf: string -> string, ids: seq<string>, db: Db, g: Dict<seq<string>>,
                                              keys: seq<string>, strings: Dict<string>, sid: string, pageID: Option<string>, t: string)
    requires NoFaultsFrom(db) && strings.Valid() && g == UpdateGroups(tableOf, ids, strings)
    requires keys != [] && Distinct(keys) && forall k :: k in keys ==> k in g.vals
    requires t in db.tables
    requires RecordExistsSpec(c, db, sid, pageID, keys[0]).1 == Value(false)
    ensures WroteRows(c, g, keys, strings, sid, pageID, t, db.tables, AddFrom(c, tableOf, ids, db, g, keys, strings, sid, pageID))
    decreases |keys|, 0
  {
    var k := keys[0];
    var e := RecordExistsSpec(c, db, sid, pageID, k);
    RecordExistsCounts(c, db, sid, pageID, k);
    assert NoFaultsFrom(e.0);
    assert Distinct(keys[1..]);
    AddFromInserts(c, tableOf, ids, db, g, keys, strings, sid, pageID);
    var insStmt := InsertStmt(c, k, g.vals[k], strings, sid, pageID);
    var ins := Exec(e.0, insStmt);
    ExecLeavesOthers(e.0, insStmt, t);
    if !ins.1.Error? {
      assert NoFaultsFrom(ins.0);
      ExecInsertAppends(e.0, insStmt);
      assert g.Get(k).GetOr([]) == g.vals[k];
      AddFromRows(c, tableOf, ids, ins.0, g, keys[1..], strings, sid, pageID, t);
      StepRows(c, g, keys, strings, sid, pageID, t, db.tables, ins.0.tables,
               AddFrom(c, tableOf, ids, ins.0, g, keys[1..], strings, sid, pageID));
    }
  }

  /**
   * One group of the `add` loop in terms of table `t`: when the group's own
   * statement left every other table as it was, and gave `t` its new row if
   * `t` is the group's table with no record, the loop's promise for the
   * next groups from the tables `mid` is its promise for these groups.
   */
  lemma StepRows(c: Config, g: Dict<seq<string>>, keys: seq<string>, strings: Dict<string>,
                 sid: string, pageID: Option<string>, t: string, before: map<string, Table>, mid: map<string, Table>, r: (Db, Reply))
    requires keys != [] && Distinct(keys) && t in before && t in mid
    requires keys[0] != t ==> mid[t] == before[t]
    requires keys[0] == t && NoMatch(before[t].rows, Where(c.opts, sid, pageID)) ==>
      mid[t].rows == before[t].rows + [RowOf(InsertStmt(c, t, g.Get(t).GetOr([]), strings, sid, pageID).values)]
    requires WroteRows(c, g, keys[1..], strings, sid, pageID, t, mid, r)
    ensures WroteRows(c, g, keys, strings, sid, pageID, t, before, r)
  {
    assert keys == [keys[0]] + keys[1..];
    assert keys[0] == t ==> t !in keys[1..];
  }

  /**
   * With no refusal planned, an `add` that returns without error has given
   * each existing table whose group had no record for this string id and
   * page id exactly one new row, the one its INSERT builds, and has left
   * every other table untouched.
   */
  lemma AddWritesRows(c: Config, tableOf: string -> string, ids: seq<string>, db: Db,
                      sid: string, pageID: Option<string>, strings: Dict<string>, t: string)
    requires NoFaultsFrom(db) && strings.Valid() && t in db.tables
    ensures var g := UpdateGroups(tableOf, ids, strings);
      var r := AddSpec(c, tableOf, ids, db, sid, pageID, strings);
      !r.1.Error? ==>
        t in r.0.tables &&
        (t !in g.vals ==> r.0.tables[t] == db.tables[t]) &&
        (t in g.vals && NoMatch(db.tables[t].rows, Where(c.opts, sid, pageID)) ==>
          r.0.tables[t].rows == db.tables[t].rows + [RowOf(InsertStmt(c, t, g.vals[t], strings, sid, pageID).values)])
  {
    var g := UpdateGroups(tableOf, ids, strings);
    AddFromRows(c, tableOf, ids, db, g, g.keys, strings, sid, pageID, t);
  }

  /**
   * The row an INSERT of `add` builds, when the string id, page id and
   * language columns are distinct: the string id, the page id (absent for a
   * null one) and each language's string in its column.
   */
  lemma InsertRow(c: Config, t: string, group: seq<string>, strings: Dict<string>, sid: string, pageID: Option<string>)
    requires c.opts.stringIdCol != c.opts.pageIdCol
    requires forall j :: 0 <= j < |group| ==> c.langCol(group[j]) != c.opts.stringIdCol && c.langCol(group[j]) != c.opts.pageIdCol
    requires forall i, j :: 0 <= i < j < |group| ==> c.langCol(group[i]) != c.langCol(group[j])
    ensures var row := RowOf(InsertStmt(c, t, group, strings, sid, pageID).values);
      c.opts.stringIdCol in row && row[c.opts.stringIdCol] == sid &&
      (c.opts.pageIdCol in row <==> pageID.Some?) &&
      (pageID.Some? ==> row[c.opts.pageIdCol] == pageID.value) &&
      forall j :: 0 <= j < |group| ==> c.langCol(group[j]) in row && row[c.langCol(group[j])] == Lookup(strings, group[j])
  {
    var vs := InsertStmt(c, t, group, strings, sid, pageID).values;
    var iv := InsertValues(c.langCol, group, strings);
    assert vs == [(c.opts.stringIdCol, Some(sid)), (c.opts.pageIdCol, pageID)] + iv;
    assert forall j :: 0 <= j < |group| ==> iv[j] == (c.langCol(group[j]), Some(Lookup(strings, group[j])));
    InsertColsDistinct(c.opts.stringIdCol, c.opts.pageIdCol, sid, pageID, iv);
    RowFromValues(vs, c.opts.stringIdCol, c.opts.pageIdCol, sid, pageID, iv);
  }

  /** The columns of an INSERT are distinct when the string id, page id and language columns are. */
  lemma InsertColsDistinct(sidCol: string, pageCol: string, sid: string, pageID: Option<string>,
                           iv: seq<(string, Option<string>)>)
    requires sidCol != pageCol
    requires forall j :: 0 <= j < |iv| ==> iv[j].0 != sidCol && iv[j].0 != pageCol
    requires forall i, j :: 0 <= i < j < |iv| ==> iv[i].0 != iv[j].0
    ensures var vs := [(sidCol, Some(sid)), (pageCol, pageID)] + iv;
      forall i, j :: 0 <= i < j < |vs| ==> vs[i].0 != vs[j].0
  {
    var vs := [(sidCol, Some(sid)), (pageCol, pageID)] + iv;
    forall i, j | 0 <= i < j < |vs| ensures vs[i].0 != vs[j].0 {
      if i >= 2 {
        assert vs[i] == iv[i - 2] && vs[j] == iv[j - 2];
      } else if j >= 2 {
        assert vs[j] == iv[j - 2];
      }
    }
  }

  /** The row of distinct INSERT columns holds each value given, and no column given a NULL. */
  lemma RowFromValues(vs: seq<(string, Option<string>)>, sidCol: string, pageCol: string, sid: string, pageID: Option<string>,
                      iv: seq<(string, Option<string>)>)
    requires vs == [(sidCol, Some(sid)), (pageCol, pageID)] + iv
    requires forall i, j :: 0 <= i < j < |vs| ==> vs[i].0 != vs[j].0
    ensures sidCol in RowOf(vs) && RowOf(vs)[sidCol] == sid
    ensures (pageCol in RowOf(vs) <==> pageID.Some?) && (pageID.Some? ==> RowOf(vs)[pageCol] == pageID.value)
    ensures forall j :: 0 <= j < |iv| && iv[j].1.Some? ==> iv[j].0 in RowOf(vs) && RowOf(vs)[iv[j].0] == iv[j].1.value
  {
    RowOfValue(vs, sidCol);
    assert vs[0].0 == sidCol;
    RowOfValue(vs, pageCol);
    assert vs[1].0 == pageCol;
    forall j | 0 <= j < |iv| && iv[j].1.Some? ensures iv[j].0 in RowOf(vs) && RowOf(vs)[iv[j].0] == iv[j].1.value {
      RowOfValue(vs, iv[j].0);
      assert vs[j + 2] == iv[j];
    }
  }

  // ---------------------------------------------------------------------
  // remove

  /** The DELETEs of `remove`: one per table, skipping the tables missing from the listing. */
  function DeleteStmts(o: Options, ts: seq<string>, listing: set<string>, sid: string, pageID: Option<string>): (r: seq<Stmt>)
    ensures |r| <= |ts|
    ensures forall k :: 0 <= k < |r| ==>
      r[k].Delete? && r[k].table in ts && r[k].table in listing && r[k].where == Where(o, sid, pageID)
    decreases |ts|
  {
    if ts == [] then []
    else
      var rest := DeleteStmts(o, ts[1..], listing, sid, pageID);
      assert forall k :: 0 <= k < |rest| ==> rest[k].table in ts;
      (if ts[0] in listing then [Delete(ts[0], Where(o, sid, pageID))] else []) + rest
  }

  /** The tables a ListTables reply names; none when it failed. */
  function Listing(r: Reply): set<string>
  {
    if r.Answered? && r.answer.Names? then r.answer.names else {}
  }

  /** `remove`: list the tables, then delete the record from each language table listed. */
  function RemoveSpec(c: Config, tableOf: string -> string, ids: seq<string>, db: Db,
                      sid: string, pageID: Option<string>): (Db, Reply)
  {
    var e := Exec(db, ListTables);
    RunUntilError(e.0, DeleteStmts(c.opts, LangTables(tableOf, ids), Listing(e.1), sid, pageID))
  }

  /** Every listed table gets its DELETE, and distinct tables get one each. */
  lemma {:induction false} DeleteStmtsOnce(o: Options, ts: seq<string>, listing: set<string>, sid: string, pageID: Option<string>)
    requires Distinct(ts)
    ensures forall j, k :: 0 <= j < k < |DeleteStmts(o, ts, listing, sid, pageID)| ==>
      DeleteStmts(o, ts, listing, sid, pageID)[j].table != DeleteStmts(o, ts, listing, sid, pageID)[k].table
    ensures forall t :: t in ts && t in listing ==>
      Delete(t, Where(o, sid, pageID)) in DeleteStmts(o, ts, listing, sid, pageID)
    decreases |ts|
  {
    if ts != [] {
      DeleteStmtsOnce(o, ts[1..], listing, sid, pageID);
      assert ts[0] !in ts[1..];
      assert forall t :: t in ts ==> t == ts[0] || t in ts[1..];
    }
  }

  /** A failed listing skips every table: `remove` then returns true after the listing alone. */
  lemma {:induction false} DeleteStmtsUnlisted(o: Options, ts: seq<string>, sid: string, pageID: Option<string>)
    ensures DeleteStmts(o, ts, {}, sid, pageID) == []
    decreases |ts|
  {
    if ts != [] {
      DeleteStmtsUnlisted(o, ts[1..], sid, pageID);
    }
  }

  lemma RemoveListingFails(c: Config, tableOf: string -> string, ids: seq<string>, db: Db, sid: string, pageID: Option<string>)
    requires Exec(db, ListTables).1.Error?
    ensures RemoveSpec(c, tableOf, ids, db, sid, pageID) == (Exec(db, ListTables).0, Answered(Done))
  {
    DeleteStmtsUnlisted(c.opts, LangTables(tableOf, ids), sid, pageID);
  }

  predicate NoMatch(rows: seq<Row>, w: seq<Cond>)
  {
    forall i :: 0 <= i < |rows| ==> !Matches(rows[i], w)
  }

  /** A run of DELETEs with condition `w` keeps a table that has no matching row free of them. */
  lemma {:induction false} DeletesKeepNoMatch(db: Db, stmts: seq<Stmt>, w: seq<Cond>, t: string)
    requires forall k :: 0 <= k < |stmts| ==> stmts[k].Delete? && stmts[k].where == w
    requires t in db.tables && NoMatch(db.tables[t].rows, w)
    ensures t in RunUntilError(db, stmts).0.tables && NoMatch(RunUntilError(db, stmts).0.tables[t].rows, w)
    decreases |stmts|
  {
    if stmts != [] {
      var e := Exec(db, stmts[0]);
      if !e.1.Error? {
        DeletesKeepNoMatch(e.0, stmts[1..], w, t);
      }
    }
  }

  /** With no refusal planned, a run of DELETEs that ends without error leaves no matching row in any table it named. */
  lemma {:induction false} DeletesClear(db: Db, stmts: seq<Stmt>, w: seq<Cond>)
    requires NoFaultsFrom(db)
    requires forall k :: 0 <= k < |stmts| ==> stmts[k].Delete? && stmts[k].where == w
    ensures !RunUntilError(db, stmts).1.Error? ==>
      forall k :: 0 <= k < |stmts| ==>
        stmts[k].table in RunUntilError(db, stmts).0.tables && NoMatch(RunUntilError(db, stmts).0.tables[stmts[k].table].rows, w)
    decreases |stmts|
  {
    if stmts != [] {
      var e := Exec(db, stmts[0]);
      if !e.1.Error? {
        var t := stmts[0].table;
        assert t in e.0.tables && NoMatch(e.0.tables[t].rows, w);
        DeletesClear(e.0, stmts[1..], w);
        DeletesKeepNoMatch(e.0, stmts[1..], w, t);
      }
    }
  }

  /**
   * With no refusal planned, a `remove` that returns without error leaves no
   * row with that string id and page id in any existing language table.
   */
  lemma RemoveClears(c: Config, tableOf: string -> string, ids: seq<string>, db: Db, sid: string, pageID: Option<string>)
    requires NoFaultsFrom(db)
    ensures !RemoveSpec(c, tableOf, ids, db, sid, pageID).1.Error? ==>
      forall t :: t in LangTables(tableOf, ids) && t in db.tables ==>
        t in RemoveSpec(c, tableOf, ids, db, sid, pageID).0.tables &&
        NoMatch(RemoveSpec(c, tableOf, ids, db, sid, pageID).0.tables[t].rows, Where(c.opts, sid, pageID))
  {
    var e := Exec(db, ListTables);
    var ts := LangTables(tableOf, ids);
    var w := Where(c.opts, sid, pageID);
    var stmts := DeleteStmts(c.opts, ts, Listing(e.1), sid, pageID);
    assert Listing(e.1) == db.tables.Keys;
    DeleteStmtsOnce(c.opts, ts, Listing(e.1), sid, pageID);
    DeletesClear(e.0, stmts, w);
    forall t | t in ts && t in db.tables
      ensures !RunUntilError(e.0, stmts).1.Error? ==>
        t in RunUntilError(e.0, stmts).0.tables && NoMatch(RunUntilError(e.0, stmts).0.tables[t].rows, w)
    {
      var k :| 0 <= k < |stmts| && stmts[k] == Delete(t, w);
    }
  }

  // ---------------------------------------------------------------------
  // getPageNames

  /** PHP's string view of a page id: NULL reads as the empty string. */
  function PhpStr(v: Option<string>): string
  {
    if v.None? then "" else v.value
  }

  function PhpStrs(vs: seq<Option<string>>): set<string>
  {
    set v | v in vs :: PhpStr(v)
  }

  /** `array_unique` on page ids: first occurrences under string comparison, so NULL and '' collapse. */
  function PhpUnique(vs: seq<Option<string>>): seq<Option<string>>
    decreases |vs|
  {
    if vs == [] then []
    else
      var r := PhpUnique(vs[..|vs| - 1]);
      var v := vs[|vs| - 1];
      if PhpStr(v) in PhpStrs(r) then r else r + [v]
  }

  lemma {:induction false} PhpUniqueProps(vs: seq<Option<string>>)
    ensures forall i, j :: 0 <= i < j < |PhpUnique(vs)| ==> PhpStr(PhpUnique(vs)[i]) != PhpStr(PhpUnique(vs)[j])
    ensures forall v :: v in PhpUnique(vs) ==> v in vs
    ensures PhpStrs(PhpUnique(vs)) == PhpStrs(vs)
    decreases |vs|
  {
    if vs != [] {
      var p := vs[..|vs| - 1];
      PhpUniqueProps(p);
      assert forall y :: y in vs <==> y in p || y == vs[|vs| - 1];
      assert PhpStrs(vs) == PhpStrs(p) + {PhpStr(vs[|vs| - 1])};
      var r := PhpUnique(p);
      if PhpStr(vs[|vs| - 1]) !in PhpStrs(r) {
        assert forall i :: 0 <= i < |r| ==> PhpStr(r[i]) in PhpStrs(r);
        assert PhpStrs(r + [vs[|vs| - 1]]) == PhpStrs(r) + {PhpStr(vs[|vs| - 1])};
      }
    }
  }

  /** `b` occurs in `vs` with a string no earlier value has. */
  ghost predicate PhpFirstOf(vs: seq<Option<string>>, b: Option<string>)
  {
    exists p :: 0 <= p < |vs| && vs[p] == b && PhpStr(b) !in PhpStrs(vs[..p])
  }

  /** `b` occurs in `vs` with a string no earlier value has, and `a`'s string has occurred before it. */
  ghost predicate PhpBeforeFirst(vs: seq<Option<string>>, a: Option<string>, b: Option<string>)
  {
    exists p :: 0 <= p < |vs| && vs[p] == b && PhpStr(b) !in PhpStrs(vs[..p]) && PhpStr(a) in PhpStrs(vs[..p])
  }

  lemma PhpFirstExtends(vs: seq<Option<string>>, x: Option<string>, a: Option<string>, b: Option<string>)
    ensures PhpFirstOf(vs, b) ==> PhpFirstOf(vs + [x], b)
    ensures PhpBeforeFirst(vs, a, b) ==> PhpBeforeFirst(vs + [x], a, b)
  {
    forall p | 0 <= p < |vs| ensures (vs + [x])[..p] == vs[..p] && (vs + [x])[p] == vs[p] { }
  }

  /**
   * `array_unique` on page ids keeps, for each string, the first value that
   * has it, in the order the strings first occur.
   */
  lemma {:induction false} PhpUniqueFirstOccurrences(vs: seq<Option<string>>)
    ensures forall j :: 0 <= j < |PhpUnique(vs)| ==> PhpFirstOf(vs, PhpUnique(vs)[j])
    ensures forall i, j :: 0 <= i < j < |PhpUnique(vs)| ==> PhpBeforeFirst(vs, PhpUnique(vs)[i], PhpUnique(vs)[j])
    decreases |vs|
  {
    if vs != [] {
      var p := vs[..|vs| - 1];
      var x := vs[|vs| - 1];
      var u := PhpUnique(p);
      PhpUniqueFirstOccurrences(p);
      PhpUniqueProps(p);
      assert vs == p + [x];
      var r := PhpUnique(vs);
      forall j | 0 <= j < |r| ensures PhpFirstOf(vs, r[j]) {
        if j < |u| {
          PhpFirstExtends(p, x, r[j], r[j]);
        } else {
          assert r[j] == x && PhpStr(x) !in PhpStrs(p) && vs[..|vs| - 1] == p;
        }
      }
      forall i, j | 0 <= i < j < |r| ensures PhpBeforeFirst(vs, r[i], r[j]) {
        if j < |u| {
          PhpFirstExtends(p, x, u[i], u[j]);
        } else {
          assert r[j] == x && r[i] == u[i] && PhpStr(x) !in PhpStrs(p) && vs[..|vs| - 1] == p;
          assert PhpStr(u[i]) in PhpStrs(u);
        }
      }
    }
  }

  /** NULL and '' count as the same page name: whichever comes first is kept. */
  lemma NullAndEmptyCollapse()
    ensures PhpUnique([None, Some("")]) == [None]
    ensures PhpUnique([Some(""), None]) == [Some("")]
  {
    assert [None, Some("")][..1] == [None];
    assert [Some(""), None][..1] == [Some("")];
    var n: Option<string> := None;
    assert n in [n] && Some("") in [Some("")];
    assert PhpStrs([n]) == {""};
    assert PhpStrs([Some("")]) == {""};
  }

  function ColumnValues(r: Reply): seq<Option<string>>
  {
    if r.Answered? && r.answer.Column? then r.answer.values else []
  }

  /** The loop of `getPageNames`: a SELECT DISTINCT per table, results appended, the first error returned. */
  function PageNamesFrom(o: Options, db: Db, ts: seq<string>, acc: seq<Option<string>>): (Db, Outcome<seq<Option<string>>>)
    decreases |ts|
  {
    if ts == [] then (db, Value(acc))
    else
      var e := Exec(db, SelectDistinct(ts[0], o.pageIdCol));
      if e.1.Error? then (e.0, Failure(e.1)) else PageNamesFrom(o, e.0, ts[1..], acc + ColumnValues(e.1))
  }

  /** `getPageNames`. */
  function GetPageNamesSpec(c: Config, tableOf: string -> string, ids: seq<string>, db: Db): (Db, Outcome<seq<Option<string>>>)
  {
    var r := PageNamesFrom(c.opts, db, LangTables(tableOf, ids), []);
    if r.1.Failure? then r else (r.0, Value(PhpUnique(r.1.value)))
  }

  /** The distinct page ids of each table in turn. */
  function Collected(tables: map<string, Table>, ts: seq<string>, col: string): seq<Option<string>>
    decreases |ts|
  {
    if ts == [] then []
    else (if ts[0] in tables then DistinctValues(ColumnOf(tables[ts[0]].rows, col)) else []) + Collected(tables, ts[1..], col)
  }

  /** The reads change no table; when none fails, the result is the distinct page ids of every table, in table order. */
  lemma {:induction false} PageNamesCollected(o: Options, db: Db, ts: seq<string>, acc: seq<Option<string>>)
    ensures PageNamesFrom(o, db, ts, acc).0.tables == db.tables
    ensures PageNamesFrom(o, db, ts, acc).1.Value? ==>
      PageNamesFrom(o, db, ts, acc).1.value == acc + Collected(db.tables, ts, o.pageIdCol)
    decreases |ts|
  {
    if ts != [] {
      var e := Exec(db, SelectDistinct(ts[0], o.pageIdCol));
      if !e.1.Error? {
        PageNamesCollected(o, e.0, ts[1..], acc + ColumnValues(e.1));
        assert ts[0] in db.tables;
      }
    }
  }

  /**
   * `getPageNames` returns, when no read fails, one entry per distinct page
   * name found in the language tables: no two entries are equal as strings,
   * each comes from some table, and each page id found is represented.
   */
  lemma GetPageNamesUnion(c: Config, tableOf: string -> string, ids: seq<string>, db: Db)
    ensures GetPageNamesSpec(c, tableOf, ids, db).0.tables == db.tables
    ensures GetPageNamesSpec(c, tableOf, ids, db).1.Value? ==>
      var names := GetPageNamesSpec(c, tableOf, ids, db).1.value;
      var found := Collected(db.tables, LangTables(tableOf, ids), c.opts.pageIdCol);
      (forall i, j :: 0 <= i < j < |names| ==> PhpStr(names[i]) != PhpStr(names[j])) &&
      (forall v :: v in names ==> v in found) &&
      PhpStrs(names) == PhpStrs(found)
  {
    PageNamesCollected(c.opts, db, LangTables(tableOf, ids), []);
    var r := PageNamesFrom(c.opts, db, LangTables(tableOf, ids), []);
    if r.1.Value? {
      assert r.1.value == Collected(db.tables, LangTables(tableOf, ids), c.opts.pageIdCol);
      PhpUniqueProps(r.1.value);
    }
  }
}
