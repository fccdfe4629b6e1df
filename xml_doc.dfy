/**
 * The normalised in-memory index of the XML container: languages with their
 * settings, and pages -> string ids -> language ids -> text.
 */
module XmlDoc {
  import opened Wrappers
  import opened Dicts
  import opened XmlTree

  /** A language's settings: field name -> text. */
  type Fields = Dict<string>
  /** One string's translations: language id -> text. */
  type Translations = Dict<string>
  /** One page: string id -> translations. */
  type Page = Dict<Translations>

  datatype Doc = Doc(languages: Dict<Fields>, pages: Dict<Page>)

  ghost predicate LanguagesValid(langs: Dict<Fields>)
  {
    langs.Valid() && forall l :: l in langs.vals ==> langs.vals[l].Valid()
  }

  ghost predicate PageValid(pg: Page)
  {
    pg.Valid() && forall s :: s in pg.vals ==> pg.vals[s].Valid()
  }

  ghost predicate PagesValid(pages: Dict<Page>)
  {
    pages.Valid() && forall p :: p in pages.vals ==> PageValid(pages.vals[p])
  }

  ghost predicate DocValid(doc: Doc)
  {
    LanguagesValid(doc.languages) && PagesValid(doc.pages)
  }

  // ---------------------------------------------------------------------
  // Reading the tidied tree

  /** The string-valued members of an array; anything else reads as an empty array. */
  function StrLeaves(n: Node): (r: Dict<string>)
    ensures ValidTo(n, 0) ==> r.Valid()
  {
    if n.Map? then
      var keep := set k | k in n.d.vals && n.d.vals[k].Str?;
      Dict(FilterKeys(n.d.keys, keep), map k | k in keep :: n.d.vals[k].s)
    else Empty()
  }

  function PageOf(n: Node): Page
  {
    if n.Map? then MapValues(n.d, StrLeaves) else Empty()
  }

  function PagesOf(n: Node): Dict<Page>
  {
    if n.Map? then MapValues(n.d, PageOf) else Empty()
  }

  function LanguagesOf(n: Node): Dict<Fields>
  {
    if n.Map? then MapValues(n.d, StrLeaves) else Empty()
  }

  /** `$data[$name]`, null when absent. */
  function Section(data: Node, name: string): Node
  {
    if data.Map? && name in data.d.vals then data.d.vals[name] else Null
  }

  function ToDoc(data: Node): Doc
  {
    Doc(LanguagesOf(Section(data, "languages")), PagesOf(Section(data, "pages")))
  }

  lemma ToDocValid(data: Node)
    requires ValidTo(data, 3)
    ensures DocValid(ToDoc(data))
  {
    var ls := Section(data, "languages");
    var ps := Section(data, "pages");
    assert ValidTo(ls, 1) && ValidTo(ps, 2);
    if ps.Map? {
      forall p | p in ps.d.vals ensures PageValid(PageOf(ps.d.vals[p])) {
        assert ValidTo(ps.d.vals[p], 1);
      }
    }
  }

  /** The tidying passes keep the arrays well formed. */
  lemma FixEmptySetsValid(data: Node)
    requires ValidTo(data, 4)
    ensures ValidTo(FixEmptySetsSpec(data), 4)
  {
    if data.Map? {
      var r := FixEmptySetsSpec(data);
      FixEmptySetsShape(data);
      forall k | k in r.d.vals ensures ValidTo(r.d.vals[k], 3) {
        assert ValidTo(data.d.vals[k], 3);
        if k == "pages" && data.d.vals[k].Map? {
          var p := data.d.vals[k];
          var q := r.d.vals[k];
          forall name | name in q.d.vals ensures ValidTo(q.d.vals[name], 2) {
            assert ValidTo(p.d.vals[name], 2);
            assert PageFixed(p.d.vals[name], q.d.vals[name]);
            if p.d.vals[name].Map? {
              forall s | s in q.d.vals[name].d.vals ensures ValidTo(q.d.vals[name].d.vals[s], 1) {
                assert ValidTo(p.d.vals[name].d.vals[s], 1);
              }
            }
          }
        }
      }
    }
  }

  lemma FixDuplicatesValid(pages: Node)
    requires ValidTo(pages, 3)
    ensures ValidTo(FixDuplicatesSpec(pages), 2)
  {
    if pages.Map? {
      var r := FixDuplicatesSpec(pages);
      forall name | name in r.d.vals ensures ValidTo(r.d.vals[name], 1) {
        var pg := pages.d.vals[name];
        assert ValidTo(pg, 2);
        if pg.Map? {
          forall s | s in pg.d.vals ensures ValidTo(MergeEntryAsWritten(pg.d.vals[s]), 0) {
            var e := pg.d.vals[s];
            assert ValidTo(e, 1);
            if LastIsArray(e) {
              var fs := Values(e.d);
              assert AllValid(fs) by {
                forall i | 0 <= i < |fs| && fs[i].Map? ensures fs[i].d.Valid() {
                  assert ValidTo(e.d.vals[e.d.keys[i]], 0);
                }
              }
              var init := fs[..|fs| - 1];
              assert forall i :: 0 <= i < |fs| - 1 ==> init[i] == fs[i];
              MergeDefined(init);
            }
          }
        }
      }
    }
  }

  // ---------------------------------------------------------------------
  // Per-language defaults

  const DefaultFields: Fields :=
    Dict(["name", "meta", "error_text", "encoding"],
         map["name" := "", "meta" := "", "error_text" := "", "encoding" := "iso-8859-1"])

  /** `empty($settings) ? $defaults : array_merge($defaults, $settings)`. */
  function WithDefaults(settings: Fields): Fields
  {
    if settings.keys == [] then DefaultFields else ArrayMerge(DefaultFields, settings)
  }

  /**
   * Every language ends up with name, meta, error_text and encoding; empty
   * settings become exactly the defaults; a supplied field overrides its
   * default; a field not supplied takes its default (encoding: iso-8859-1).
   */
  lemma WithDefaultsFills(settings: Fields)
    requires settings.Valid()
    ensures WithDefaults(settings).Valid()
    ensures forall f :: f in DefaultFields.vals ==> f in WithDefaults(settings).vals
    ensures settings.vals == map[] ==> WithDefaults(settings) == DefaultFields
    ensures forall f :: f in settings.vals ==> WithDefaults(settings).vals[f] == settings.vals[f]
    ensures forall f :: f in DefaultFields.vals && f !in settings.vals ==>
              WithDefaults(settings).vals[f] == DefaultFields.vals[f]
    ensures "encoding" !in settings.vals ==> WithDefaults(settings).vals["encoding"] == "iso-8859-1"
  {
    DefaultFieldsValid();
    if settings.keys != [] {
      ArrayMergeProps(DefaultFields, settings);
      assert settings.keys[0] in settings.vals;
    } else {
      assert settings.vals.Keys == {};
    }
  }

  lemma DefaultFieldsValid()
    ensures DefaultFields.Valid()
  {
    assert forall k :: k in DefaultFields.vals <==> k in DefaultFields.keys;
  }

  /** The defaults block of `_loadFile`. */
  method ApplyDefaults(langs: Dict<Fields>) returns (r: Dict<Fields>)
    requires langs.Valid()
    ensures r == MapValues(langs, WithDefaults)
  {
    r := langs;
    var i := 0;
    while i < |langs.keys|
      invariant 0 <= i <= |langs.keys|
      invariant r.keys == langs.keys && r.vals.Keys == langs.vals.Keys
      invariant forall j :: 0 <= j < i ==> r.vals[langs.keys[j]] == WithDefaults(langs.vals[langs.keys[j]])
      invariant forall j :: i <= j < |langs.keys| ==> r.vals[langs.keys[j]] == langs.vals[langs.keys[j]]
    {
      var id := langs.keys[i];
      var settings := langs.vals[id];
      var filled: Fields;
      if settings.keys == [] {
        filled := DefaultFields;
      } else {
        filled := ArrayMerge(DefaultFields, settings);
      }
      assert filled == WithDefaults(langs.vals[langs.keys[i]]);
      assert forall j :: 0 <= j < |langs.keys| && j != i ==> langs.keys[j] != id;
      r := r.Put(id, filled);
      i := i + 1;
    }
    EqualsMapValues(langs, r, WithDefaults);
  }
}
