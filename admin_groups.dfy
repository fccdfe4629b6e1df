/**
 * The configuration of the relational admin container and the grouping of
 * languages by the table that stores their strings.
 */
module AdminGroups {
  import opened Wrappers
  import opened Dicts

  /** The column and table names the container is configured with. */
  datatype Options = Options(
    stringIdCol: string, pageIdCol: string,
    availTable: string, langIdCol: string, nameCol: string,
    metaCol: string, errorCol: string, encodingCol: string)

  /**
   * The options together with the two base-class helpers this container
   * relies on: the table of a language absent from `strings_tables`, and
   * the column holding a language's strings.
   */
  datatype Config = Config(opts: Options, defaultTable: string -> string, langCol: string -> string)

  /** `_getLangTable`: the `strings_tables` entry of a language, else the default table. */
  function TableOf(c: Config, stringsTables: map<string, string>): string -> string
  {
    l => if l in stringsTables then stringsTables[l] else c.defaultTable(l)
  }

  // ---------------------------------------------------------------------
  // Sequences

  /** `array_unique` on strings: first occurrences, in order. */
  function Unique(s: seq<string>): (r: seq<string>)
    ensures forall x :: x in r <==> x in s
    ensures Distinct(r)
    ensures |r| <= |s|
    decreases |s|
  {
    if s == [] then []
    else
      var u := Unique(s[..|s| - 1]);
      var x := s[|s| - 1];
      assert forall y :: y in s <==> y in s[..|s| - 1] || y == x;
      if x in u then u else u + [x]
  }

  /** `a` occurs in `s` before the first occurrence of `b`. */
  ghost predicate BeforeFirst(s: seq<string>, a: string, b: string)
  {
    exists p :: 0 <= p < |s| && s[p] == b && b !in s[..p] && a in s[..p]
  }

  lemma BeforeFirstExtends(s: seq<string>, x: string, a: string, b: string)
    requires BeforeFirst(s, a, b)
    ensures BeforeFirst(s + [x], a, b)
  {
    var p :| 0 <= p < |s| && s[p] == b && b !in s[..p] && a in s[..p];
    assert (s + [x])[..p] == s[..p] && (s + [x])[p] == s[p];
  }

  /**
   * `array_unique` keeps first occurrences in the order they first occur:
   * where a kept value first occurs, every value kept before it has
   * already occurred.
   */
  lemma {:induction false} UniqueFirstOccurrences(s: seq<string>)
    ensures forall i, j :: 0 <= i < j < |Unique(s)| ==> BeforeFirst(s, Unique(s)[i], Unique(s)[j])
    decreases |s|
  {
    if s != [] {
      var s' := s[..|s| - 1];
      var u := Unique(s');
      var x := s[|s| - 1];
      UniqueFirstOccurrences(s');
      assert s == s' + [x];
      var r := Unique(s);
      forall i, j | 0 <= i < j < |r| ensures BeforeFirst(s, r[i], r[j]) {
        if j < |u| {
          BeforeFirstExtends(s', x, u[i], u[j]);
        } else {
          assert r[j] == x && r[i] == u[i] && x !in s';
          assert s[..|s| - 1] == s';
        }
      }
    }
  }

  lemma {:induction false} UniqueOfDistinct(s: seq<string>)
    requires Distinct(s)
    ensures Unique(s) == s
    decreases |s|
  {
    if s != [] {
      UniqueOfDistinct(s[..|s| - 1]);
      assert s == s[..|s| - 1] + [s[|s| - 1]];
    }
  }

  function MapSeq(f: string -> string, s: seq<string>): (r: seq<string>)
    ensures |r| == |s|
  {
    seq(|s|, i requires 0 <= i < |s| => f(s[i]))
  }

  /** The languages of `langs` whose table is `t`, in order. */
  function InTable(tableOf: string -> string, langs: seq<string>, t: string): (r: seq<string>)
    ensures forall l :: l in r <==> l in langs && tableOf(l) == t
    ensures |r| <= |langs|
    ensures (forall l :: l in langs ==> tableOf(l) != t) ==> r == []
    decreases |langs|
  {
    if langs == [] then []
    else
      var p := InTable(tableOf, langs[..|langs| - 1], t);
      var l := langs[|langs| - 1];
      assert forall y :: y in langs <==> y in langs[..|langs| - 1] || y == l;
      if tableOf(l) == t then p + [l] else p
  }

  /** `array_intersect(array_keys($stringArray), $ids)`: registered languages, in key order. */
  function Registered(keys: seq<string>, ids: seq<string>): (r: seq<string>)
    ensures forall l :: l in r <==> l in keys && l in ids
    ensures |r| <= |keys|
    decreases |keys|
  {
    if keys == [] then []
    else
      var p := Registered(keys[..|keys| - 1], ids);
      var l := keys[|keys| - 1];
      assert forall y :: y in keys <==> y in keys[..|keys| - 1] || y == l;
      if l in ids then p + [l] else p
  }

  /** Keeping the registered languages and keeping those of one table commute. */
  lemma {:induction false} RegisteredInTable(tableOf: string -> string, keys: seq<string>, ids: seq<string>, t: string)
    ensures Registered(InTable(tableOf, keys, t), ids) == InTable(tableOf, Registered(keys, ids), t)
    decreases |keys|
  {
    if keys != [] {
      var p := keys[..|keys| - 1];
      var l := keys[|keys| - 1];
      RegisteredInTable(tableOf, p, ids, t);
      if tableOf(l) == t {
        assert InTable(tableOf, keys, t)[..|InTable(tableOf, keys, t)| - 1] == InTable(tableOf, p, t);
      }
      if l in ids {
        assert Registered(keys, ids)[..|Registered(keys, ids)| - 1] == Registered(p, ids);
      }
    }
  }

  /** A list whose languages all live in table `t` is its own group for `t`. */
  lemma {:induction false} InTableAll(tableOf: string -> string, langs: seq<string>, t: string)
    requires forall i :: 0 <= i < |langs| ==> tableOf(langs[i]) == t
    ensures InTable(tableOf, langs, t) == langs
    decreases |langs|
  {
    if langs != [] {
      InTableAll(tableOf, langs[..|langs| - 1], t);
      assert langs == langs[..|langs| - 1] + [langs[|langs| - 1]];
    }
  }

  // ---------------------------------------------------------------------
  // _tableLangs, _getLangTables, _getLangCols, _filterStringsByTable

  /** `_tableLangs`: table -> the languages stored in it, tables in order of first use. */
  function Groups(tableOf: string -> string, langs: seq<string>): (g: Dict<seq<string>>)
    ensures g.Valid()
    decreases |langs|
  {
    if langs == [] then Empty()
    else
      var g := Groups(tableOf, langs[..|langs| - 1]);
      var l := langs[|langs| - 1];
      g.Put(tableOf(l), g.Get(tableOf(l)).GetOr([]) + [l])
  }

  /** `_getLangTables`: the tables of the languages, each once. */
  function LangTables(tableOf: string -> string, langs: seq<string>): seq<string>
  {
    Unique(MapSeq(tableOf, langs))
  }

  /** The groups are keyed by the language tables, in order of first use. */
  lemma {:induction false} GroupsKeys(tableOf: string -> string, langs: seq<string>)
    ensures Groups(tableOf, langs).keys == LangTables(tableOf, langs)
    decreases |langs|
  {
    if langs != [] {
      var p := langs[..|langs| - 1];
      var t := tableOf(langs[|langs| - 1]);
      GroupsKeys(tableOf, p);
      assert MapSeq(tableOf, langs)[..|langs| - 1] == MapSeq(tableOf, p);
      assert MapSeq(tableOf, langs)[|langs| - 1] == t;
      assert t in Groups(tableOf, p).vals <==> t in Unique(MapSeq(tableOf, p));
    }
  }

  /** The group of a table is exactly the languages stored in it, in input order. */
  lemma {:induction false} GroupsValues(tableOf: string -> string, langs: seq<string>)
    ensures forall t :: t in Groups(tableOf, langs).vals ==> Groups(tableOf, langs).vals[t] == InTable(tableOf, langs, t)
    decreases |langs|
  {
    if langs != [] {
      var p := langs[..|langs| - 1];
      var l := langs[|langs| - 1];
      var g := Groups(tableOf, p);
      GroupsValues(tableOf, p);
      if tableOf(l) !in g.vals {
        GroupsCoverPrefix(tableOf, p);
      }
    }
  }

  /** Every table of an input language is a key of the groups. */
  lemma {:induction false} GroupsCoverPrefix(tableOf: string -> string, langs: seq<string>)
    ensures forall l :: l in langs ==> tableOf(l) in Groups(tableOf, langs).vals
    decreases |langs|
  {
    if langs != [] {
      GroupsCoverPrefix(tableOf, langs[..|langs| - 1]);
      assert forall y :: y in langs ==> y in langs[..|langs| - 1] || y == langs[|langs| - 1];
    }
  }

  /** Every language is in exactly one group, the one of its table, and only input languages are. */
  lemma GroupsCover(tableOf: string -> string, langs: seq<string>)
    ensures forall l :: l in langs ==> tableOf(l) in Groups(tableOf, langs).vals && l in Groups(tableOf, langs).vals[tableOf(l)]
    ensures forall t, l :: t in Groups(tableOf, langs).vals && l in Groups(tableOf, langs).vals[t] ==> l in langs && tableOf(l) == t
  {
    GroupsValues(tableOf, langs);
    GroupsCoverPrefix(tableOf, langs);
  }

  /** Languages that all live in one table form a single group holding all of them. */
  lemma GroupsOneTable(tableOf: string -> string, langs: seq<string>, t: string)
    requires langs != []
    requires forall i :: 0 <= i < |langs| ==> tableOf(langs[i]) == t
    ensures Groups(tableOf, langs).keys == [t]
    ensures Groups(tableOf, langs).vals[t] == langs
  {
    var ms := MapSeq(tableOf, langs);
    assert forall i :: 0 <= i < |ms| ==> ms[i] == t;
    UniqueConst(ms, t);
    GroupsKeys(tableOf, langs);
    assert langs[0] in langs;
    GroupsCoverPrefix(tableOf, langs);
    assert t in Groups(tableOf, langs).vals;
    GroupsValues(tableOf, langs);
    InTableAll(tableOf, langs, t);
  }

  lemma {:induction false} UniqueConst(s: seq<string>, t: string)
    requires s != []
    requires forall i :: 0 <= i < |s| ==> s[i] == t
    ensures Unique(s) == [t]
    decreases |s|
  {
    if |s| > 1 {
      UniqueConst(s[..|s| - 1], t);
    }
  }

  /** `_getLangCols`: language -> its column. */
  function LangCols(langCol: string -> string, langs: seq<string>): (r: Dict<string>)
    ensures r.Valid()
    decreases |langs|
  {
    if langs == [] then Empty()
    else
      var l := langs[|langs| - 1];
      LangCols(langCol, langs[..|langs| - 1]).Put(l, langCol(l))
  }

  lemma {:induction false} LangColsProps(langCol: string -> string, langs: seq<string>)
    ensures LangCols(langCol, langs).keys == Unique(langs)
    ensures forall l :: l in LangCols(langCol, langs).vals <==> l in langs
    ensures forall l :: l in LangCols(langCol, langs).vals ==> LangCols(langCol, langs).vals[l] == langCol(l)
    decreases |langs|
  {
    if langs != [] {
      LangColsProps(langCol, langs[..|langs| - 1]);
      assert forall y :: y in langs <==> y in langs[..|langs| - 1] || y == langs[|langs| - 1];
    }
  }

  /** `_filterStringsByTable` over the keys `ks` of a string array. */
  function FilterStringsOf(tableOf: string -> string, ks: seq<string>, vals: map<string, string>, t: string): (r: Dict<string>)
    ensures forall l :: l in r.vals <==> l in ks && l in vals && tableOf(l) == t
    ensures forall l :: l in r.vals ==> r.vals[l] == vals[l]
    decreases |ks|
  {
    if ks == [] then Empty()
    else
      var r := FilterStringsOf(tableOf, ks[..|ks| - 1], vals, t);
      var l := ks[|ks| - 1];
      assert forall y :: y in ks <==> y in ks[..|ks| - 1] || y == l;
      if tableOf(l) == t && l in vals then r.Put(l, vals[l]) else r
  }

  function FilterStrings(tableOf: string -> string, strings: Dict<string>, t: string): Dict<string>
  {
    FilterStringsOf(tableOf, strings.keys, strings.vals, t)
  }

  lemma {:induction false} FilterStringsOfProps(tableOf: string -> string, ks: seq<string>, vals: map<string, string>, t: string)
    requires Distinct(ks)
    requires forall i :: 0 <= i < |ks| ==> ks[i] in vals
    ensures FilterStringsOf(tableOf, ks, vals, t).Valid()
    ensures FilterStringsOf(tableOf, ks, vals, t).keys == InTable(tableOf, ks, t)
    decreases |ks|
  {
    if ks != [] {
      var p := ks[..|ks| - 1];
      FilterStringsOfProps(tableOf, p, vals, t);
      assert ks[|ks| - 1] !in p;
    }
  }

  /** The entries of the string array kept for table `t` are exactly those of its languages, in order. */
  lemma FilterStringsProps(tableOf: string -> string, strings: Dict<string>, t: string)
    requires strings.Valid()
    ensures FilterStrings(tableOf, strings, t).Valid()
    ensures FilterStrings(tableOf, strings, t).keys == InTable(tableOf, strings.keys, t)
    ensures forall l :: l in FilterStrings(tableOf, strings, t).vals <==> l in strings.vals && tableOf(l) == t
    ensures forall l :: l in FilterStrings(tableOf, strings, t).vals ==> FilterStrings(tableOf, strings, t).vals[l] == strings.vals[l]
  {
    FilterStringsOfProps(tableOf, strings.keys, strings.vals, t);
  }
}
