/**
 * The XML container object: loading normalises the unserialised tree into
 * the in-memory index, and the lookups read from that index.
 */
module XmlContainer {
  import opened Wrappers
  import opened Dicts
  import opened XmlTree
  import opened XmlDoc
  import opened XmlEncoding

  lemma {:induction false} ValidToWeaken(n: Node, a: nat, b: nat)
    requires ValidTo(n, a) && b <= a
    ensures ValidTo(n, b)
    decreases b
  {
    if n.Map? && b > 0 {
      forall k | k in n.d.vals ensures ValidTo(n.d.vals[k], b - 1) {
        ValidToWeaken(n.d.vals[k], a - 1, b - 1);
      }
    }
  }

  /** The tree after `fixEmptySets` and `_fixDuplicateEntries`. */
  function Tidied(tree: Node): Node
  {
    var fixed := FixEmptySetsSpec(tree);
    if fixed.Map? && "pages" in fixed.d.vals
    then Map(fixed.d.Put("pages", FixDuplicatesSpec(fixed.d.vals["pages"])))
    else fixed
  }

  /** The index before the charset passes: projected, every language completed with the defaults. */
  function Normalised(tree: Node): Doc
  {
    var doc := ToDoc(Tidied(tree));
    Doc(MapValues(doc.languages, WithDefaults), doc.pages)
  }

  /** `_loadFile` after unserialising: the language pass, then, if it succeeded, the pages pass. */
  function Loaded(iconv: Iconv, n: Doc): (Doc, Outcome)
  {
    var langPass := ConvertLangsSpec(iconv, FromXml, n);
    if langPass.1.Fail? then langPass else ConvertPagesSpec(iconv, FromXml, langPass.0)
  }

  function LoadSpec(tree: Node, iconv: Iconv): (Doc, Outcome)
  {
    Loaded(iconv, Normalised(tree))
  }

  lemma TidiedValid(tree: Node)
    requires ValidTo(tree, 4)
    ensures ValidTo(Tidied(tree), 3)
  {
    FixEmptySetsValid(tree);
    var fixed := FixEmptySetsSpec(tree);
    ValidToWeaken(fixed, 4, 3);
    if fixed.Map? && "pages" in fixed.d.vals {
      var r := Tidied(tree);
      FixDuplicatesValid(fixed.d.vals["pages"]);
      forall k | k in r.d.vals ensures ValidTo(r.d.vals[k], 2) {
        if k != "pages" {
          ValidToWeaken(fixed.d.vals[k], 3, 2);
        }
      }
    }
  }

  /** Every language has name, meta, error_text and encoding. */
  ghost predicate Complete(langs: Dict<Fields>)
  {
    forall l, f :: l in langs.vals && f in DefaultFields.vals ==> f in langs.vals[l].vals
  }

  /** Before the charset passes the index is well formed and every language complete. */
  lemma NormalisedComplete(tree: Node)
    requires ValidTo(tree, 4)
    ensures DocValid(Normalised(tree)) && Complete(Normalised(tree).languages)
  {
    TidiedValid(tree);
    var doc := ToDoc(Tidied(tree));
    ToDocValid(Tidied(tree));
    forall l | l in doc.languages.vals {
      WithDefaultsFills(doc.languages.vals[l]);
    }
  }

  /**
   * The charset passes keep the languages and pages, every field of every
   * language and its declared encoding, and a well-formed index, whether or
   * not a conversion failed.
   */
  lemma LoadedKeeps(iconv: Iconv, n: Doc, l: string, f: string)
    requires DocValid(n) && l in n.languages.vals && f in n.languages.vals[l].vals
    ensures var (doc, o) := Loaded(iconv, n);
      && doc.languages.keys == n.languages.keys && doc.pages.keys == n.pages.keys
      && l in doc.languages.vals && f in doc.languages.vals[l].vals
      && (f == "encoding" ==> doc.languages.vals[l].vals[f] == n.languages.vals[l].vals[f])
  {
    ConvertLangsField(iconv, FromXml, n, l, f);
  }

  lemma LoadedValid(iconv: Iconv, n: Doc)
    requires DocValid(n)
    ensures DocValid(Loaded(iconv, n).0)
  {
    ConvertLangsValid(iconv, FromXml, n);
    ConvertPagesValid(iconv, FromXml, ConvertLangsSpec(iconv, FromXml, n).0);
  }

  /** Every language survives, with the encoding it declared. */
  ghost predicate KeepsEncodings(before: Dict<Fields>, after: Dict<Fields>)
  {
    forall l :: l in before.vals ==>
      (l in after.vals && FieldOr(after.vals[l], "encoding") == FieldOr(before.vals[l], "encoding"))
  }

  /** The charset passes keep every language complete, with its declared encoding. */
  lemma LoadedComplete(iconv: Iconv, n: Doc)
    requires DocValid(n) && Complete(n.languages)
    ensures var doc := Loaded(iconv, n).0;
      && DocValid(doc) && Complete(doc.languages) && doc.languages.keys == n.languages.keys
      && KeepsEncodings(n.languages, doc.languages)
  {
    LoadedValid(iconv, n);
    var doc := Loaded(iconv, n).0;
    assert "encoding" in DefaultFields.vals;
    forall l, f | l in n.languages.vals && f in DefaultFields.vals
      ensures l in doc.languages.vals && f in doc.languages.vals[l].vals
      ensures f == "encoding" ==> doc.languages.vals[l].vals[f] == n.languages.vals[l].vals[f]
    {
      LoadedKeeps(iconv, n, l, f);
    }
    assert doc.languages.vals.Keys == n.languages.vals.Keys;
  }

  /**
   * After loading, every language still has its four fields with its
   * declared encoding, and the index is well formed.
   */
  lemma LoadSpecComplete(tree: Node, iconv: Iconv)
    requires ValidTo(tree, 4)
    ensures var n := Normalised(tree); var doc := LoadSpec(tree, iconv).0;
      && DocValid(doc) && Complete(doc.languages) && doc.languages.keys == n.languages.keys
      && KeepsEncodings(n.languages, doc.languages)
  {
    NormalisedComplete(tree);
    LoadedComplete(iconv, Normalised(tree));
  }

  /** `fixEmptySets`, `_fixDuplicateEntries` and the defaults block of `_loadFile`. */
  method Normalise(tree: Node) returns (doc: Doc)
    requires ValidTo(tree, 4)
    ensures doc == Normalised(tree)
    ensures DocValid(doc) && Complete(doc.languages)
  {
    ValidToWeaken(tree, 4, 2);
    var fixed := FixEmptySets(tree);
    if fixed.Map? && "pages" in fixed.d.vals {
      FixEmptySetsValid(tree);
      ValidToWeaken(fixed.d.vals["pages"], 3, 1);
      var pages := FixDuplicateEntries(fixed.d.vals["pages"]);
      fixed := Map(fixed.d.Put("pages", pages));
    }
    assert fixed == Tidied(tree);
    doc := ToDoc(fixed);
    TidiedValid(tree);
    ToDocValid(fixed);
    var languages := ApplyDefaults(doc.languages);
    doc := Doc(languages, doc.pages);
    NormalisedComplete(tree);
  }

  /** The two charset passes of `_loadFile`, the second only when the first succeeded. */
  method RunPasses(iconv: Iconv, n: Doc) returns (doc: Doc, o: Outcome)
    ensures (doc, o) == Loaded(iconv, n)
  {
    var langPass;
    doc, langPass := ConvertLangEncodings(iconv, FromXml, n);
    if langPass.Fail? {
      return doc, langPass;
    }
    doc, o := ConvertEncodings(iconv, FromXml, doc);
  }

  /** `fetchLangs`: each language's settings with `id` set to its own key. */
  function Identified(ls: Dict<Fields>): (r: Dict<Fields>)
  {
    Dict(ls.keys, map k | k in ls.vals :: ls.vals[k].Put("id", k))
  }

  /** The same languages, each gaining `id` equal to its key, every other field unchanged. */
  lemma IdentifiedProps(ls: Dict<Fields>, l: string)
    requires LanguagesValid(ls) && l in ls.vals
    ensures LanguagesValid(Identified(ls)) && Identified(ls).keys == ls.keys
    ensures l in Identified(ls).vals && Identified(ls).vals[l].vals["id"] == l
    ensures forall f :: f in ls.vals[l].vals && f != "id" ==> Identified(ls).vals[l].vals[f] == ls.vals[l].vals[f]
    ensures Identified(ls).vals[l].vals.Keys == ls.vals[l].vals.Keys + {"id"}
  {
  }

  lemma IdentifiedFrom(ls: Dict<Fields>, res: Dict<Fields>)
    requires LanguagesValid(ls) && res.Valid() && res.keys == ls.keys
    requires forall j :: 0 <= j < |ls.keys| ==> res.vals[ls.keys[j]] == ls.vals[ls.keys[j]].Put("id", ls.keys[j])
    ensures res == Identified(ls) && LanguagesValid(res)
  {
    assert res.vals.Keys == ls.vals.Keys;
    forall l | l in ls.vals ensures res.vals[l] == ls.vals[l].Put("id", l) {
      var j := KeyIndex(ls, l);
    }
  }

  /** The page key `getPage` reads: null is `#NULL`, an empty id is `#EMPTY`. */
  function PageKey(pageID: Option<string>): (k: string)
    ensures pageID.None? ==> k == "#NULL"
    ensures pageID.Some? && PhpEmpty(pageID.value) ==> k == "#EMPTY"
    ensures pageID.Some? && !PhpEmpty(pageID.value) ==> k == pageID.value
  {
    var p := pageID.GetOr("#NULL");
    if PhpEmpty(p) then "#EMPTY" else p
  }

  /** A page of the index, empty when missing. */
  function PageAt(doc: Doc, pk: string): Page
  {
    if pk in doc.pages.vals then doc.pages.vals[pk] else Empty()
  }

  /** The string at position `j` of a page has a translation equal to `text`. */
  ghost predicate HasText(pg: Page, j: int, text: string)
    requires 0 <= j < |pg.keys|
  {
    pg.keys[j] in pg.vals && exists l :: l in pg.vals[pg.keys[j]].vals && pg.vals[pg.keys[j]].vals[l] == text
  }

  /** The loop of `getPage` over one page. */
  method ReadPage(pg: Page, langID: string) returns (result: Dict<Option<string>>)
    requires pg.Valid()
    ensures result.Valid() && result.keys == pg.keys
    ensures forall s :: s in result.vals ==> s in pg.vals && result.vals[s] == pg.vals[s].Get(langID)
  {
    result := Empty();
    var i := 0;
    while i < |pg.keys|
      invariant 0 <= i <= |pg.keys|
      invariant result.keys == pg.keys[..i] && result.Valid()
      invariant forall s :: s in result.vals ==> s in pg.vals && result.vals[s] == pg.vals[s].Get(langID)
    {
      var sid := pg.keys[i];
      var translations := pg.vals[sid];
      assert forall j :: 0 <= j < i ==> pg.keys[j] != sid;
      assert pg.keys[..i + 1] == pg.keys[..i] + [sid];
      if langID in translations.vals {
        result := result.Put(sid, Some(translations.vals[langID]));
      } else {
        result := result.Put(sid, None);
      }
      i := i + 1;
    }
    assert pg.keys[..i] == pg.keys;
  }

  class Container {
    /** `_data`, after loading. */
    var data: Doc
    /** `langs`, filled by `fetchLangs`. */
    var langs: Dict<Fields>

    ghost predicate Valid()
      reads this
    {
      DocValid(data) && LanguagesValid(langs)
    }

    constructor ()
      ensures Valid() && data == Doc(Empty(), Empty()) && langs == Empty()
    {
      data := Doc(Empty(), Empty());
      langs := Empty();
    }

    /** `_loadFile` from the unserialised tree on: file I/O and the unserialiser are outside. */
    method Load(tree: Node, iconv: Iconv) returns (o: Outcome)
      requires ValidTo(tree, 4) && Valid()
      modifies this
      ensures (data, o) == LoadSpec(tree, iconv) && langs == old(langs)
      ensures Valid()
    {
      var n := Normalise(tree);
      LoadedValid(iconv, n);
      data, o := RunPasses(iconv, n);
    }

    /** `fetchLangs`. */
    method FetchLangs()
      requires Valid()
      modifies this
      ensures langs == Identified(data.languages) && data == old(data)
      ensures Valid()
    {
      var res: Dict<Fields> := Empty();
      var ls := data.languages;
      var i := 0;
      while i < |ls.keys|
        invariant 0 <= i <= |ls.keys|
        invariant res.keys == ls.keys[..i] && res.Valid()
        invariant forall j :: 0 <= j < i ==> res.vals[ls.keys[j]] == ls.vals[ls.keys[j]].Put("id", ls.keys[j])
      {
        var id := ls.keys[i];
        var spec := ls.vals[id];
        spec := spec.Put("id", id);
        assert id !in res.keys;
        assert ls.keys[..i + 1] == ls.keys[..i] + [id];
        res := res.Put(id, spec);
        i := i + 1;
      }
      assert ls.keys[..i] == ls.keys;
      IdentifiedFrom(ls, res);
      langs := res;
    }

    /**
     * `getPage`: exactly the page's string ids, in page order, each with its
     * translation in `langID` or null; nothing for a missing page.
     */
    method GetPage(pageID: Option<string>, langID: string) returns (result: Dict<Option<string>>)
      requires Valid()
      ensures var pg := PageAt(data, PageKey(pageID));
        && result.Valid() && result.keys == pg.keys
        && forall s :: s in result.vals ==> s in pg.vals && result.vals[s] == pg.vals[s].Get(langID)
      ensures pageID.None? || !PhpEmpty(pageID.value) ==>
        forall s :: s in result.vals ==> result.vals[s] == GetOne(s, pageID, langID)
    {
      var pk := PageKey(pageID);
      result := ReadPage(PageAt(data, pk), langID);
      assert pageID.None? || !PhpEmpty(pageID.value) ==> pk == pageID.GetOr("#NULL");
    }

    /** `getOne`: the translation, or null when the page, the string or the language is missing. */
    function GetOne(stringID: string, pageID: Option<string>, langID: string): (r: Option<string>)
      reads this
      ensures var pk := pageID.GetOr("#NULL");
        r.Some? <==> pk in data.pages.vals && stringID in data.pages.vals[pk].vals &&
                     langID in data.pages.vals[pk].vals[stringID].vals
      ensures r.Some? ==> r.value == data.pages.vals[pageID.GetOr("#NULL")].vals[stringID].vals[langID]
    {
      var pk := pageID.GetOr("#NULL");
      if pk in data.pages.vals && stringID in data.pages.vals[pk].vals &&
         langID in data.pages.vals[pk].vals[stringID].vals
      then Some(data.pages.vals[pk].vals[stringID].vals[langID])
      else None
    }

    /**
     * `getStringID`: the first string id, in page order, one of whose
     * translations equals `text`; the empty string when there is none.
     */
    method GetStringID(text: string, pageID: Option<string>) returns (id: string)
      requires Valid()
      ensures var pg := PageAt(data, pageID.GetOr("#NULL"));
        || (exists j :: 0 <= j < |pg.keys| && HasText(pg, j, text) && id == pg.keys[j] &&
              forall j' :: 0 <= j' < j ==> !HasText(pg, j', text))
        || (id == "" && forall j :: 0 <= j < |pg.keys| ==> !HasText(pg, j, text))
    {
      var pg := PageAt(data, pageID.GetOr("#NULL"));
      var i := 0;
      while i < |pg.keys|
        invariant 0 <= i <= |pg.keys|
        invariant forall j :: 0 <= j < i ==> !HasText(pg, j, text)
      {
        var sid := pg.keys[i];
        var translations := pg.vals[sid];
        var k := 0;
        while k < |translations.keys|
          invariant 0 <= k <= |translations.keys|
          invariant forall m :: 0 <= m < k ==> translations.vals[translations.keys[m]] != text
        {
          if translations.vals[translations.keys[k]] == text {
            assert HasText(pg, i, text);
            return sid;
          }
          k := k + 1;
        }
        assert !HasText(pg, i, text) by {
          forall l | l in translations.vals ensures translations.vals[l] != text {
            assert l in translations.keys;
          }
        }
        i := i + 1;
      }
      id := "";
    }
  }
}
