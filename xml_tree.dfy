/**
 * The document as the XML unserialiser hands it over, and the two passes of
 * the XML container that tidy it up before anything reads it: the empty-set
 * fix and the merge of duplicated string entries.
 */
module XmlTree {
  import opened Wrappers
  import opened Dicts

  /**
   * A value of the unserialised tree: PHP null, a string, or a PHP array.
   * Repeated elements come back as an array keyed "0", "1", ...
   */
  datatype Node = Null | Str(s: string) | Map(d: Dict<Node>)

  /** The characters PHP's `trim` strips. */
  const TrimChars: set<char> := {' ', '\t', '\n', '\r', 0 as char, 11 as char}

  /** `is_string($n) and trim($n) == ''`. */
  predicate IsBlankStr(n: Node)
  {
    n.Str? && forall i :: 0 <= i < |n.s| ==> n.s[i] in TrimChars
  }

  function EmptyMap(): Node
  {
    Map(Empty())
  }

  /** Every array down to `depth` levels below `n` is a well-formed dict. */
  ghost predicate ValidTo(n: Node, depth: nat)
    decreases depth
  {
    n.Map? ==>
      n.d.Valid() &&
      (depth > 0 ==> forall k :: k in n.d.vals ==> ValidTo(n.d.vals[k], depth - 1))
  }

  // ---------------------------------------------------------------------
  // fixEmptySets

  /** A string entry: a blank string becomes an empty array. */
  function FixEntry(t: Node): Node
  {
    if IsBlankStr(t) then EmptyMap() else t
  }

  /** A page: any string becomes an empty array; an array has its entries fixed. */
  function FixPage(p: Node): Node
  {
    match p
    case Str(_) => EmptyMap()
    case Map(d) => Map(MapValues(d, FixEntry))
    case Null => Null
  }

  /** The pages section: a blank string becomes an empty array, an array has its pages fixed. */
  function FixPages(p: Node): Node
  {
    if IsBlankStr(p) then EmptyMap()
    else if p.Map? then Map(MapValues(p.d, FixPage))
    else p
  }

  function FixEmptySetsSpec(data: Node): Node
  {
    if !data.Map? then data
    else
      var d1 := if "languages" in data.d.vals && IsBlankStr(data.d.vals["languages"])
                then data.d.Put("languages", EmptyMap()) else data.d;
      var d2 := if "pages" in d1.vals then d1.Put("pages", FixPages(d1.vals["pages"])) else d1;
      Map(d2)
  }

  /** The entries of one page array, fixed in place. */
  method FixPageEntries(strings: Dict<Node>) returns (r: Dict<Node>)
    requires strings.Valid()
    ensures r == MapValues(strings, FixEntry)
  {
    r := strings;
    var i := 0;
    while i < |strings.keys|
      invariant 0 <= i <= |strings.keys|
      invariant r.keys == strings.keys && r.vals.Keys == strings.vals.Keys
      invariant forall j :: 0 <= j < i ==> r.vals[strings.keys[j]] == FixEntry(strings.vals[strings.keys[j]])
      invariant forall j :: i <= j < |strings.keys| ==> r.vals[strings.keys[j]] == strings.vals[strings.keys[j]]
    {
      var name := strings.keys[i];
      var translations := strings.vals[name];
      assert forall j :: 0 <= j < |strings.keys| && j != i ==> strings.keys[j] != name;
      if IsBlankStr(translations) {
        r := r.Put(name, EmptyMap());
      }
      i := i + 1;
    }
    EqualsMapValues(strings, r, FixEntry);
  }

  /** The loop over the pages of an array-valued pages section. */
  method FixEachPage(pages: Dict<Node>) returns (ps: Dict<Node>)
    requires pages.Valid()
    requires forall k :: k in pages.vals && pages.vals[k].Map? ==> pages.vals[k].d.Valid()
    ensures ps == MapValues(pages, FixPage)
  {
    ps := pages;
    var i := 0;
    while i < |pages.keys|
      invariant 0 <= i <= |pages.keys|
      invariant ps.keys == pages.keys && ps.vals.Keys == pages.vals.Keys
      invariant forall j :: 0 <= j < i ==> ps.vals[pages.keys[j]] == FixPage(pages.vals[pages.keys[j]])
      invariant forall j :: i <= j < |pages.keys| ==> ps.vals[pages.keys[j]] == pages.vals[pages.keys[j]]
    {
      var name := pages.keys[i];
      var strings := pages.vals[name];
      assert forall j :: 0 <= j < |pages.keys| && j != i ==> pages.keys[j] != name;
      if strings.Str? {
        ps := ps.Put(name, EmptyMap());
      } else if strings.Map? {
        var fixedStrings := FixPageEntries(strings.d);
        ps := ps.Put(name, Map(fixedStrings));
      }
      i := i + 1;
    }
    EqualsMapValues(pages, ps, FixPage);
  }

  /** `fixEmptySets(&$data)`: the by-reference argument comes in and goes out. */
  method FixEmptySets(data: Node) returns (fixed: Node)
    requires ValidTo(data, 2)
    ensures fixed == FixEmptySetsSpec(data)
  {
    if !data.Map? {
      return data;
    }
    var d := data.d;
    if "languages" in d.vals && IsBlankStr(d.vals["languages"]) {
      d := d.Put("languages", EmptyMap());
    }
    if "pages" in d.vals {
      var pages := d.vals["pages"];
      assert pages == data.d.vals["pages"];
      var newPages := pages;
      if IsBlankStr(pages) {
        newPages := EmptyMap();
      } else if pages.Map? {
        assert ValidTo(pages, 1);
        var ps := FixEachPage(pages.d);
        newPages := Map(ps);
      }
      d := d.Put("pages", newPages);
    }
    fixed := Map(d);
  }

  /** A page after the fix, against the page before it. */
  ghost predicate PageFixed(pg: Node, q: Node)
  {
    && (pg.Str? ==> q == EmptyMap())
    && (pg.Null? ==> q == Null)
    && (pg.Map? ==>
          q.Map? && q.d.keys == pg.d.keys && q.d.vals.Keys == pg.d.vals.Keys &&
          forall s :: s in pg.d.vals ==>
            q.d.vals[s] == if IsBlankStr(pg.d.vals[s]) then EmptyMap() else pg.d.vals[s])
  }

  /**
   * What `fixEmptySets` promises: a blank languages or pages section becomes
   * an empty array; every string-valued page becomes an empty array; a blank
   * string entry becomes an empty array and every other entry (arrays
   * included) is kept; no key is added, dropped or moved.
   */
  lemma FixEmptySetsShape(data: Node)
    requires data.Map?
    ensures FixEmptySetsSpec(data).Map?
    ensures FixEmptySetsSpec(data).d.keys == data.d.keys
    ensures FixEmptySetsSpec(data).d.vals.Keys == data.d.vals.Keys
    ensures forall k :: k in data.d.vals && k != "languages" && k != "pages" ==>
              FixEmptySetsSpec(data).d.vals[k] == data.d.vals[k]
    ensures "languages" in data.d.vals ==>
              FixEmptySetsSpec(data).d.vals["languages"] ==
                if IsBlankStr(data.d.vals["languages"]) then EmptyMap() else data.d.vals["languages"]
    ensures "pages" in data.d.vals && IsBlankStr(data.d.vals["pages"]) ==>
              FixEmptySetsSpec(data).d.vals["pages"] == EmptyMap()
    ensures "pages" in data.d.vals && !IsBlankStr(data.d.vals["pages"]) && !data.d.vals["pages"].Map? ==>
              FixEmptySetsSpec(data).d.vals["pages"] == data.d.vals["pages"]
    ensures "pages" in data.d.vals && data.d.vals["pages"].Map? ==>
              var p := data.d.vals["pages"]; var q := FixEmptySetsSpec(data).d.vals["pages"];
              q.Map? && q.d.keys == p.d.keys && q.d.vals.Keys == p.d.vals.Keys &&
              forall name :: name in p.d.vals ==> PageFixed(p.d.vals[name], q.d.vals[name])
  {
  }

  lemma FixPageIdempotent(pg: Node)
    ensures FixPage(FixPage(pg)) == FixPage(pg)
  {
    if pg.Map? {
      var once := MapValues(pg.d, FixEntry);
      assert MapValues(once, FixEntry).vals == once.vals;
    }
  }

  lemma FixPagesIdempotent(p: Node)
    ensures FixPages(FixPages(p)) == FixPages(p)
  {
    if p.Map? && !IsBlankStr(p) {
      var once := MapValues(p.d, FixPage);
      forall k | k in p.d.vals ensures FixPage(once.vals[k]) == once.vals[k] {
        FixPageIdempotent(p.d.vals[k]);
      }
      assert MapValues(once, FixPage).vals == once.vals;
    }
  }

  /** Reapplying the fix changes nothing. */
  lemma FixEmptySetsIdempotent(data: Node)
    ensures FixEmptySetsSpec(FixEmptySetsSpec(data)) == FixEmptySetsSpec(data)
  {
    if data.Map? {
      var d1 := if "languages" in data.d.vals && IsBlankStr(data.d.vals["languages"])
                then data.d.Put("languages", EmptyMap()) else data.d;
      if "pages" in d1.vals {
        FixPagesIdempotent(d1.vals["pages"]);
      }
    }
  }

  // ---------------------------------------------------------------------
  // _merge and _fixDuplicateEntries

  /** The values of an array in key order, as `call_user_func_array` passes them. */
  function Values(d: Dict<Node>): (r: seq<Node>)
    ensures |r| == |d.keys|
    ensures d.Valid() ==> forall i :: 0 <= i < |d.keys| ==> r[i] == d.vals[d.keys[i]]
  {
    seq(|d.keys|, i requires 0 <= i < |d.keys| => if d.keys[i] in d.vals then d.vals[d.keys[i]] else Null)
  }

  /**
   * `_merge(...)`: `array_merge` folded over the arguments from the left.
   * A non-array argument makes `array_merge` return null, and null stays null.
   */
  function MergeSpec(frags: seq<Node>): Option<Dict<Node>>
    decreases |frags|
  {
    if frags == [] then Some(Empty())
    else
      match MergeSpec(frags[..|frags| - 1])
      case None => None
      case Some(acc) =>
        var last := frags[|frags| - 1];
        if last.Map? then Some(ArrayMerge(acc, last.d)) else None
  }

  method Merge(frags: seq<Node>) returns (r: Option<Dict<Node>>)
    ensures r == MergeSpec(frags)
  {
    r := Some(Empty());
    for i := 0 to |frags|
      invariant r == MergeSpec(frags[..i])
    {
      assert frags[..i + 1][..i] == frags[..i];
      var arg := frags[i];
      if r.Some? && arg.Map? {
        r := Some(ArrayMerge(r.value, arg.d));
      } else {
        r := None;
      }
    }
    assert frags[..|frags|] == frags;
  }

  /** Fragment `i` is an array holding `k`. */
  ghost predicate Holds(frags: seq<Node>, i: int, k: string)
    requires 0 <= i < |frags|
  {
    frags[i].Map? && k in frags[i].d.vals
  }

  /** Fragment `i` is the last fragment holding `k`. */
  ghost predicate LastHolder(frags: seq<Node>, i: int, k: string)
    requires 0 <= i < |frags|
  {
    Holds(frags, i, k) && forall j :: i < j < |frags| ==> !Holds(frags, j, k)
  }

  ghost predicate AllValid(frags: seq<Node>)
  {
    forall i :: 0 <= i < |frags| && frags[i].Map? ==> frags[i].d.Valid()
  }

  /** The merge is defined exactly when every fragment is an array, and is then a well-formed array. */
  lemma {:induction false} MergeDefined(frags: seq<Node>)
    requires AllValid(frags)
    ensures MergeSpec(frags).Some? <==> forall i :: 0 <= i < |frags| ==> frags[i].Map?
    ensures MergeSpec(frags).Some? ==> MergeSpec(frags).value.Valid()
    decreases |frags|
  {
    if frags != [] {
      var n := |frags|;
      var init := frags[..n - 1];
      assert forall i :: 0 <= i < n - 1 ==> init[i] == frags[i];
      assert AllValid(init);
      MergeDefined(init);
      if MergeSpec(init).Some? && frags[n - 1].Map? {
        ArrayMergeProps(MergeSpec(init).value, frags[n - 1].d);
      }
      assert (forall i :: 0 <= i < n ==> frags[i].Map?) <==>
             (forall i :: 0 <= i < n - 1 ==> init[i].Map?) && frags[n - 1].Map?;
    }
  }

  /** The merge holds exactly the keys of the fragments. */
  lemma {:induction false} MergeKeys(frags: seq<Node>, k: string)
    requires AllValid(frags) && MergeSpec(frags).Some?
    ensures k in MergeSpec(frags).value.vals <==> exists i :: 0 <= i < |frags| && Holds(frags, i, k)
    decreases |frags|
  {
    if frags != [] {
      var n := |frags|;
      var init := frags[..n - 1];
      assert forall i :: 0 <= i < n - 1 ==> init[i] == frags[i];
      MergeDefined(init);
      MergeKeys(init, k);
      var acc := MergeSpec(init).value;
      ArrayMergeProps(acc, frags[n - 1].d);
      if exists i :: 0 <= i < n && Holds(frags, i, k) {
        var i :| 0 <= i < n && Holds(frags, i, k);
        if i < n - 1 {
          assert Holds(init, i, k);
        }
      }
      if exists i :: 0 <= i < n - 1 && Holds(init, i, k) {
        var i :| 0 <= i < n - 1 && Holds(init, i, k);
        assert Holds(frags, i, k);
      }
      assert Holds(frags, n - 1, k) <==> k in frags[n - 1].d.vals;
    }
  }

  /** One step of the fold: the merge of all fragments is the merge of all but the last, overridden by the last. */
  lemma MergeStep(frags: seq<Node>)
    requires AllValid(frags) && MergeSpec(frags).Some? && frags != []
    ensures MergeSpec(frags[..|frags| - 1]).Some? && frags[|frags| - 1].Map?
    ensures AllValid(frags[..|frags| - 1])
    ensures MergeSpec(frags).value.vals ==
            MergeSpec(frags[..|frags| - 1]).value.vals + frags[|frags| - 1].d.vals
  {
    var n := |frags|;
    var init := frags[..n - 1];
    assert forall j :: 0 <= j < n - 1 ==> init[j] == frags[j];
    MergeDefined(init);
    ArrayMergeProps(MergeSpec(init).value, frags[n - 1].d);
  }

  /** A key takes its value from the last fragment that has it: later fragments win. */
  lemma {:induction false} MergeLaterWins(frags: seq<Node>, i: int, k: string)
    requires AllValid(frags) && MergeSpec(frags).Some?
    requires 0 <= i < |frags| && LastHolder(frags, i, k)
    ensures k in MergeSpec(frags).value.vals
    ensures MergeSpec(frags).value.vals[k] == frags[i].d.vals[k]
    decreases |frags|
  {
    var n := |frags|;
    var init := frags[..n - 1];
    MergeStep(frags);
    if i < n - 1 {
      assert !Holds(frags, n - 1, k);
      assert LastHolder(init, i, k) by {
        forall j | i < j < n - 1 ensures !Holds(init, j, k) {
          assert init[j] == frags[j];
          assert !Holds(frags, j, k);
        }
        assert init[i] == frags[i];
      }
      MergeLaterWins(init, i, k);
      assert init[i] == frags[i];
    }
  }

  /** What `array_pop` takes off a string entry is an array: the entry holds repeated fragments. */
  predicate LastIsArray(e: Node)
  {
    e.Map? && |e.d.keys| > 0 && Values(e.d)[|e.d.keys| - 1].Map?
  }

  function ToNode(o: Option<Dict<Node>>): Node
  {
    if o.Some? then Map(o.value) else Null
  }

  /**
   * One string entry of `_fixDuplicateEntries` as written: `array_pop` has
   * already removed the last fragment from the copy that is then merged.
   */
  function MergeEntryAsWritten(e: Node): Node
  {
    if LastIsArray(e) then ToNode(MergeSpec(Values(e.d)[..|e.d.keys| - 1])) else e
  }

  /** One string entry with all of its fragments merged: the corrected pass, kept as the reference. */
  function MergeEntry(e: Node): Node
  {
    if LastIsArray(e) then ToNode(MergeSpec(Values(e.d))) else e
  }

  /** The string entries of one page after the duplicate pass, as written. */
  function MergePage(p: Node): Node
  {
    if p.Map? then Map(MapValues(p.d, MergeEntryAsWritten)) else p
  }

  /**
   * `_fixDuplicateEntries` on the pages section, as written: a duplicated
   * entry becomes the merge of all of its fragments but the last.
   */
  function FixDuplicatesSpec(pages: Node): Node
  {
    if pages.Map? then Map(MapValues(pages.d, MergePage)) else pages
  }

  /** One string listed twice in a page: the unserialiser returns its two fragments as a list. */
  const FragmentFr: Node := Map(Dict(["fr"], map["fr" := Str("Chat")]))
  const FragmentEn: Node := Map(Dict(["en"], map["en" := Str("Cat")]))
  const TwoFragments: Node := Map(Dict(["0", "1"], map["0" := FragmentFr, "1" := FragmentEn]))

  lemma TwoFragmentsValues()
    ensures LastIsArray(TwoFragments) && Values(TwoFragments.d) == [FragmentFr, FragmentEn]
  {
    assert TwoFragments.d.Valid();
  }

  /** Merging the French fragment alone gives back its array. */
  lemma MergeFrenchFragment()
    ensures MergeSpec([FragmentFr]) == Some(FragmentFr.d)
  {
    assert [FragmentFr][..0] == [];
    assert PutAll(Empty(), ["fr"], FragmentFr.d.vals) == PutAll(Empty<Node>().Put("fr", Str("Chat")), [], FragmentFr.d.vals);
  }

  /** The as-written merge drops the second fragment: only the French text survives. */
  lemma DuplicateEntryLosesLastFragment()
    ensures MergeEntryAsWritten(TwoFragments) == FragmentFr
  {
    TwoFragmentsValues();
    assert [FragmentFr, FragmentEn][..1] == [FragmentFr];
    MergeFrenchFragment();
  }

  /** The corrected merge keeps both translations, in fragment order. */
  lemma DuplicateEntryKeepsBothFragments()
    ensures MergeEntry(TwoFragments) == Map(Dict(["fr", "en"], map["fr" := Str("Chat"), "en" := Str("Cat")]))
  {
    TwoFragmentsValues();
    assert [FragmentFr, FragmentEn][..1] == [FragmentFr];
    MergeFrenchFragment();
    var both := Dict(["fr", "en"], map["fr" := Str("Chat"), "en" := Str("Cat")]);
    assert ArrayMerge(FragmentFr.d, FragmentEn.d) == both by {
      assert PutAll(FragmentFr.d, ["en"], FragmentEn.d.vals) == PutAll(FragmentFr.d.Put("en", Str("Cat")), [], FragmentEn.d.vals);
    }
    assert MergeSpec([FragmentFr, FragmentEn]) == Some(both);
  }

  /**
   * The corrected entry merge keeps every translation of every fragment; a
   * language given in several fragments takes the last one's value.
   */
  lemma MergeEntryKeepsAll(e: Node, k: string)
    requires ValidTo(e, 1) && LastIsArray(e)
    requires forall i :: 0 <= i < |e.d.keys| ==> Values(e.d)[i].Map?
    ensures MergeEntry(e).Map? && MergeEntry(e).d.Valid()
    ensures k in MergeEntry(e).d.vals <==> exists i :: 0 <= i < |e.d.keys| && Holds(Values(e.d), i, k)
    ensures forall i :: 0 <= i < |e.d.keys| && LastHolder(Values(e.d), i, k) ==>
              MergeEntry(e).d.vals[k] == Values(e.d)[i].d.vals[k]
  {
    var fs := Values(e.d);
    assert AllValid(fs);
    MergeDefined(fs);
    MergeKeys(fs, k);
    forall i | 0 <= i < |fs| && LastHolder(fs, i, k) ensures MergeEntry(e).d.vals[k] == fs[i].d.vals[k] {
      MergeLaterWins(fs, i, k);
    }
  }

  /**
   * As written, the entry merge keeps exactly the translations of the
   * fragments before the last one, each language taking the value of the
   * last of those fragments that has it; the popped fragment is lost.
   */
  lemma MergeEntryAsWrittenKeeps(e: Node, k: string)
    requires ValidTo(e, 1) && LastIsArray(e)
    requires forall i :: 0 <= i < |e.d.keys| - 1 ==> Values(e.d)[i].Map?
    ensures MergeEntryAsWritten(e).Map? && MergeEntryAsWritten(e).d.Valid()
    ensures k in MergeEntryAsWritten(e).d.vals <==> exists i :: 0 <= i < |e.d.keys| - 1 && Holds(Values(e.d), i, k)
  {
    var fs := Values(e.d);
    var init := fs[..|fs| - 1];
    assert MergeEntryAsWritten(e) == ToNode(MergeSpec(init));
    FragmentsValid(e);
    MergeAllButLast(fs, k);
  }

  /** As written, a duplicated language takes the value of the last fragment before the popped one that has it. */
  lemma MergeEntryAsWrittenWins(e: Node, i: int, k: string)
    requires ValidTo(e, 1) && LastIsArray(e)
    requires forall j :: 0 <= j < |e.d.keys| - 1 ==> Values(e.d)[j].Map?
    requires 0 <= i < |e.d.keys| - 1 && LastHolder(Values(e.d)[..|e.d.keys| - 1], i, k)
    ensures MergeEntryAsWritten(e).Map? && k in MergeEntryAsWritten(e).d.vals
    ensures MergeEntryAsWritten(e).d.vals[k] == Values(e.d)[i].d.vals[k]
  {
    var fs := Values(e.d);
    var init := fs[..|fs| - 1];
    assert MergeEntryAsWritten(e) == ToNode(MergeSpec(init));
    FragmentsValid(e);
    MergeAllButLastWins(fs, i, k);
  }

  lemma FragmentsValid(e: Node)
    requires ValidTo(e, 1) && e.Map?
    ensures AllValid(Values(e.d))
  {
  }

  lemma MergeAllButLastWins(fs: seq<Node>, i: int, k: string)
    requires AllValid(fs) && fs != []
    requires forall j :: 0 <= j < |fs| - 1 ==> fs[j].Map?
    requires 0 <= i < |fs| - 1 && LastHolder(fs[..|fs| - 1], i, k)
    ensures MergeSpec(fs[..|fs| - 1]).Some? && k in MergeSpec(fs[..|fs| - 1]).value.vals
    ensures MergeSpec(fs[..|fs| - 1]).value.vals[k] == fs[i].d.vals[k]
  {
    var init := fs[..|fs| - 1];
    assert forall j :: 0 <= j < |init| ==> init[j] == fs[j];
    assert AllValid(init);
    MergeDefined(init);
    MergeLaterWins(init, i, k);
  }

  lemma MergeAllButLast(fs: seq<Node>, k: string)
    requires AllValid(fs) && fs != []
    requires forall i :: 0 <= i < |fs| - 1 ==> fs[i].Map?
    ensures AllValid(fs[..|fs| - 1])
    ensures MergeSpec(fs[..|fs| - 1]).Some? && MergeSpec(fs[..|fs| - 1]).value.Valid()
    ensures k in MergeSpec(fs[..|fs| - 1]).value.vals <==> exists i :: 0 <= i < |fs| - 1 && Holds(fs, i, k)
  {
    var n := |fs|;
    var init := fs[..n - 1];
    assert forall i :: 0 <= i < n - 1 ==> init[i] == fs[i];
    assert AllValid(init);
    MergeDefined(init);
    MergeKeys(init, k);
    assert forall i :: 0 <= i < n - 1 ==> (Holds(init, i, k) <==> Holds(fs, i, k));
  }

  /** The corrected entry merge is the as-written one overridden by the fragment `array_pop` took off. */
  lemma MergeEntryRestoresLast(e: Node)
    requires ValidTo(e, 1) && LastIsArray(e)
    requires forall i :: 0 <= i < |e.d.keys| ==> Values(e.d)[i].Map?
    ensures MergeEntry(e).Map? && MergeEntryAsWritten(e).Map?
    ensures MergeEntry(e).d.vals == MergeEntryAsWritten(e).d.vals + Values(e.d)[|e.d.keys| - 1].d.vals
  {
    var fs := Values(e.d);
    assert AllValid(fs);
    MergeDefined(fs);
    MergeStep(fs);
  }

  /** The entries of one page, each duplicated entry replaced as `_fixDuplicateEntries` does. */
  method MergePageEntries(page: Dict<Node>) returns (r: Dict<Node>)
    requires page.Valid()
    ensures r == MapValues(page, MergeEntryAsWritten)
  {
    r := page;
    var i := 0;
    while i < |page.keys|
      invariant 0 <= i <= |page.keys|
      invariant r.keys == page.keys && r.vals.Keys == page.vals.Keys
      invariant forall j :: 0 <= j < i ==> r.vals[page.keys[j]] == MergeEntryAsWritten(page.vals[page.keys[j]])
      invariant forall j :: i <= j < |page.keys| ==> r.vals[page.keys[j]] == page.vals[page.keys[j]]
    {
      var name := page.keys[i];
      var entry := page.vals[name];
      assert forall j :: 0 <= j < |page.keys| && j != i ==> page.keys[j] != name;
      if LastIsArray(entry) {
        var popped := Values(entry.d)[..|entry.d.keys| - 1];
        var merged := Merge(popped);
        r := r.Put(name, ToNode(merged));
      }
      i := i + 1;
    }
    EqualsMapValues(page, r, MergeEntryAsWritten);
  }

  /**
   * `_fixDuplicateEntries` over `$this->_data['pages']`, taken in and handed
   * back; each duplicated entry loses its last fragment (see MergeEntryAsWrittenKeeps).
   */
  method FixDuplicateEntries(pages: Node) returns (fixed: Node)
    requires ValidTo(pages, 1)
    ensures fixed == FixDuplicatesSpec(pages)
  {
    if !pages.Map? {
      return pages;
    }
    var ps := pages.d;
    var i := 0;
    while i < |pages.d.keys|
      invariant 0 <= i <= |pages.d.keys|
      invariant ps.keys == pages.d.keys && ps.vals.Keys == pages.d.vals.Keys
      invariant forall j :: 0 <= j < i ==> ps.vals[pages.d.keys[j]] == MergePage(pages.d.vals[pages.d.keys[j]])
      invariant forall j :: i <= j < |pages.d.keys| ==> ps.vals[pages.d.keys[j]] == pages.d.vals[pages.d.keys[j]]
    {
      var name := pages.d.keys[i];
      var page := pages.d.vals[name];
      assert forall j :: 0 <= j < |pages.d.keys| && j != i ==> pages.d.keys[j] != name;
      if page.Map? {
        var merged := MergePageEntries(page.d);
        ps := ps.Put(name, Map(merged));
      }
      i := i + 1;
    }
    EqualsMapValues(pages.d, ps, MergePage);
    fixed := Map(ps);
  }
}
