/**
 * The charset passes of the XML container: every translation, and the
 * descriptive fields of every language, are re-encoded between UTF-8 and
 * the language's own charset; the first conversion that fails aborts the
 * pass and leaves what was already rewritten in place.
 */
module XmlEncoding {
  import opened Wrappers
  import opened Dicts
  import opened XmlDoc

  /** `iconv(source, target, text)`: partial, its charset semantics left uninterpreted. */
  type Iconv = (string, string, string) -> Option<string>

  datatype Direction = FromXml | ToXml

  /** The result of a pass: success, or the conversion error and its message parts. */
  datatype Outcome = Pass | Fail(source: string, target: string, text: string)

  function UpperChar(c: char): char
  {
    if 'a' <= c <= 'z' then (c as int - 32) as char else c
  }

  /** `strtoupper` on ASCII letters. */
  function Upper(s: string): (r: string)
    ensures |r| == |s|
    ensures forall i :: 0 <= i < |s| ==> r[i] == UpperChar(s[i])
  {
    if s == [] then [] else [UpperChar(s[0])] + Upper(s[1..])
  }

  /** Source and target charsets for a language encoded as `enc`. */
  function Charsets(dir: Direction, enc: string): (string, string)
  {
    match dir
    case FromXml => ("UTF-8", Upper(enc))
    case ToXml => (Upper(enc), "UTF-8")
  }

  /** `empty()` on a string. */
  predicate PhpEmpty(s: string)
  {
    s == "" || s == "0"
  }

  /** A field of an array of strings, reading as the empty string (PHP null) when absent. */
  function FieldOr(d: Dict<string>, f: string): string
  {
    if f in d.vals then d.vals[f] else ""
  }

  /** `$data['languages'][$lang]['encoding']`, empty when missing. */
  function EncodingOf(langs: Dict<Fields>, l: string): string
  {
    if l in langs.vals then FieldOr(langs.vals[l], "encoding") else ""
  }

  /** One conversion: identity when the charsets agree, otherwise iconv or the error. */
  function ConvertText(iconv: Iconv, source: string, target: string, text: string): (r: (string, Outcome))
    ensures source == target ==> r == (text, Pass)
    ensures source != target && iconv(source, target, text).Some? ==> r == (iconv(source, target, text).value, Pass)
    ensures source != target && iconv(source, target, text).None? ==> r == (text, Fail(source, target, text))
  {
    if source == target then (text, Pass)
    else match iconv(source, target, text)
      case Some(t) => (t, Pass)
      case None => (text, Fail(source, target, text))
  }

  // ---------------------------------------------------------------------
  // A pass over one level of arrays, in key order, with early abort

  /**
   * Rewrite every member from position `i` on by `step`; a failing step's
   * value is still written (it carries the work done below it) and stops the pass.
   */
  function Fold<V>(d: Dict<V>, i: nat, step: (string, V) -> (V, Outcome)): (r: (Dict<V>, Outcome))
    ensures r.0.keys == d.keys && r.0.vals.Keys == d.vals.Keys
    ensures d.Valid() ==> r.0.Valid()
    decreases |d.keys| - i
  {
    if i >= |d.keys| then (d, Pass)
    else if d.keys[i] !in d.vals then Fold(d, i + 1, step)
    else
      var (v, o) := step(d.keys[i], d.vals[d.keys[i]]);
      if o.Fail? then (d.Put(d.keys[i], v), o) else Fold(d.Put(d.keys[i], v), i + 1, step)
  }

  /** The position of the first member, from `i` on, whose step fails; `|d.keys|` if none. */
  function FirstFail<V>(d: Dict<V>, i: nat, step: (string, V) -> (V, Outcome)): (p: nat)
    ensures p <= |d.keys|
    ensures i <= |d.keys| ==> i <= p
    ensures p < |d.keys| ==> d.keys[p] in d.vals && step(d.keys[p], d.vals[d.keys[p]]).1.Fail?
    decreases |d.keys| - i
  {
    if i >= |d.keys| then |d.keys|
    else if d.keys[i] in d.vals && step(d.keys[i], d.vals[d.keys[i]]).1.Fail? then i
    else FirstFail(d, i + 1, step)
  }

  /** The first failure depends only on the members it has yet to visit. */
  lemma {:induction false} FirstFailFrame<V>(d: Dict<V>, e: Dict<V>, i: nat, step: (string, V) -> (V, Outcome))
    requires d.keys == e.keys
    requires forall j :: i <= j < |d.keys| ==> (d.keys[j] in d.vals <==> d.keys[j] in e.vals)
    requires forall j :: i <= j < |d.keys| && d.keys[j] in d.vals ==> d.vals[d.keys[j]] == e.vals[d.keys[j]]
    ensures FirstFail(d, i, step) == FirstFail(e, i, step)
    decreases |d.keys| - i
  {
    if i < |d.keys| {
      FirstFailFrame(d, e, i + 1, step);
    }
  }

  /** Writing the member at `i` does not move the first failure after `i`. */
  lemma FirstFailPut<V>(d: Dict<V>, i: nat, step: (string, V) -> (V, Outcome), v: V)
    requires d.Valid() && i < |d.keys|
    ensures FirstFail(d.Put(d.keys[i], v), i + 1, step) == FirstFail(d, i + 1, step)
  {
    var k := d.keys[i];
    assert k in d.vals;
    assert forall m :: i < m < |d.keys| ==> d.keys[m] != k;
    FirstFailFrame(d, d.Put(k, v), i + 1, step);
  }

  /** The pass fails exactly when some step fails, with the first such step's error. */
  lemma {:induction false} FoldOutcome<V>(d: Dict<V>, i: nat, step: (string, V) -> (V, Outcome))
    requires d.Valid()
    ensures var p := FirstFail(d, i, step);
      Fold(d, i, step).1 == if p < |d.keys| then step(d.keys[p], d.vals[d.keys[p]]).1 else Pass
    decreases |d.keys| - i
  {
    if i < |d.keys| {
      var k := d.keys[i];
      assert k in d.vals;
      var (v, o) := step(k, d.vals[k]);
      var d' := d.Put(k, v);
      if o.Pass? {
        assert Fold(d, i, step) == Fold(d', i + 1, step);
        assert FirstFail(d, i, step) == FirstFail(d, i + 1, step);
        FoldOutcome(d', i + 1, step);
        FirstFailPut(d, i, step, v);
      } else {
        assert FirstFail(d, i, step) == i;
        assert Fold(d, i, step) == (d', o);
      }
    }
  }

  /** A pass from `i` leaves the members before `i` as they were. */
  lemma {:induction false} FoldBefore<V>(d: Dict<V>, i: nat, step: (string, V) -> (V, Outcome), j: nat)
    requires Distinct(d.keys) && (forall m :: 0 <= m < |d.keys| ==> d.keys[m] in d.vals) && j < |d.keys|
    ensures j < i ==> Fold(d, i, step).0.vals[d.keys[j]] == d.vals[d.keys[j]]
    decreases |d.keys| - i
  {
    if i < |d.keys| && j < i {
      var k := d.keys[i];
      var (v, o) := step(k, d.vals[k]);
      var d' := d.Put(k, v);
      assert d.keys[j] != k && d'.vals[d.keys[j]] == d.vals[d.keys[j]];
      if o.Pass? {
        assert Fold(d, i, step) == Fold(d', i + 1, step);
        FoldBefore(d', i + 1, step, j);
      }
    }
  }

  /** A pass leaves the members after its first failure as they were. */
  lemma {:induction false} FoldAfter<V>(d: Dict<V>, i: nat, step: (string, V) -> (V, Outcome), j: nat)
    requires Distinct(d.keys) && (forall m :: 0 <= m < |d.keys| ==> d.keys[m] in d.vals) && j < |d.keys|
    ensures FirstFail(d, i, step) < j ==> Fold(d, i, step).0.vals[d.keys[j]] == d.vals[d.keys[j]]
    decreases |d.keys| - i
  {
    if i < |d.keys| && FirstFail(d, i, step) < j {
      var k := d.keys[i];
      var (v, o) := step(k, d.vals[k]);
      var d' := d.Put(k, v);
      assert d.keys[j] != k && d'.vals[d.keys[j]] == d.vals[d.keys[j]];
      if o.Pass? {
        assert Fold(d, i, step) == Fold(d', i + 1, step);
        assert FirstFail(d, i, step) == FirstFail(d, i + 1, step);
        assert forall m :: i < m < |d.keys| ==> d.keys[m] != k;
        FirstFailFrame(d, d', i + 1, step);
        FoldAfter(d', i + 1, step, j);
      }
    }
  }

  /** Every step before the first failure passes. */
  lemma {:induction false} FirstFailBefore<V>(d: Dict<V>, i: nat, step: (string, V) -> (V, Outcome), j: nat)
    requires (forall m :: 0 <= m < |d.keys| ==> d.keys[m] in d.vals) && j < |d.keys|
    ensures i <= j < FirstFail(d, i, step) ==> step(d.keys[j], d.vals[d.keys[j]]).1 == Pass
    decreases |d.keys| - i
  {
    if i < |d.keys| && i < j {
      FirstFailBefore(d, i + 1, step, j);
    }
  }

  /** From `i` up to and including the first failure each member holds its step's value. */
  lemma {:induction false} FoldWrites<V>(d: Dict<V>, i: nat, step: (string, V) -> (V, Outcome), j: nat)
    requires Distinct(d.keys) && (forall m :: 0 <= m < |d.keys| ==> d.keys[m] in d.vals) && j < |d.keys|
    ensures i <= j <= FirstFail(d, i, step) ==> Fold(d, i, step).0.vals[d.keys[j]] == step(d.keys[j], d.vals[d.keys[j]]).0
    decreases |d.keys| - i
  {
    if i < |d.keys| && i <= j {
      var k := d.keys[i];
      var (v, o) := step(k, d.vals[k]);
      var d' := d.Put(k, v);
      if o.Fail? {
        assert Fold(d, i, step) == (d', o);
      } else if j == i {
        assert Fold(d, i, step) == Fold(d', i + 1, step);
        FoldBefore(d', i + 1, step, j);
      } else {
        assert Fold(d, i, step) == Fold(d', i + 1, step);
        assert FirstFail(d, i, step) == FirstFail(d, i + 1, step);
        assert d.keys[j] != k && d'.vals[d.keys[j]] == d.vals[d.keys[j]];
        FoldWrites(d', i + 1, step, j);
        assert forall m :: i < m < |d.keys| ==> d.keys[m] != k;
        FirstFailFrame(d, d', i + 1, step);
      }
    }
  }

  /**
   * Member by member: before `i` and after the first failure nothing changes;
   * from `i` up to and including the first failure each member holds its
   * step's value, and every step before the failure passed.
   */
  lemma FoldAt<V>(d: Dict<V>, i: nat, step: (string, V) -> (V, Outcome), j: nat)
    requires Distinct(d.keys) && (forall m :: 0 <= m < |d.keys| ==> d.keys[m] in d.vals) && j < |d.keys|
    ensures var r := Fold(d, i, step); var p := FirstFail(d, i, step); var k := d.keys[j];
      && (j < i || p < j ==> r.0.vals[k] == d.vals[k])
      && (i <= j <= p ==> r.0.vals[k] == step(k, d.vals[k]).0)
      && (i <= j < p ==> step(k, d.vals[k]).1 == Pass)
  {
    FoldBefore(d, i, step, j);
    FoldAfter(d, i, step, j);
    FoldWrites(d, i, step, j);
    FirstFailBefore(d, i, step, j);
  }

  /** A pass whose every step is the identity changes nothing. */
  lemma {:induction false} FoldIdentity<V>(d: Dict<V>, i: nat, step: (string, V) -> (V, Outcome))
    requires forall m :: 0 <= m < |d.keys| ==> d.keys[m] in d.vals
    requires forall j :: i <= j < |d.keys| ==> step(d.keys[j], d.vals[d.keys[j]]) == (d.vals[d.keys[j]], Pass)
    ensures Fold(d, i, step) == (d, Pass)
    decreases |d.keys| - i
  {
    if i < |d.keys| {
      var k := d.keys[i];
      assert d.Put(k, d.vals[k]) == d;
      assert Fold(d, i, step) == Fold(d, i + 1, step);
      FoldIdentity(d, i + 1, step);
    }
  }

  // ---------------------------------------------------------------------
  // `_convertEncodings`: pages -> string ids -> languages

  /** One translation, converted with the charset of the language that owns it. */
  function ConvertCell(iconv: Iconv, dir: Direction, langs: Dict<Fields>, l: string, text: string): (string, Outcome)
  {
    var cs := Charsets(dir, EncodingOf(langs, l));
    ConvertText(iconv, cs.0, cs.1, text)
  }

  function CellStep(iconv: Iconv, dir: Direction, langs: Dict<Fields>): (string, string) -> (string, Outcome)
  {
    (l: string, text: string) => ConvertCell(iconv, dir, langs, l, text)
  }

  function StringStep(iconv: Iconv, dir: Direction, langs: Dict<Fields>): (string, Translations) -> (Translations, Outcome)
  {
    (sid: string, trs: Translations) => Fold(trs, 0, CellStep(iconv, dir, langs))
  }

  function PageStep(iconv: Iconv, dir: Direction, langs: Dict<Fields>): (string, Page) -> (Page, Outcome)
  {
    (pid: string, pg: Page) => Fold(pg, 0, StringStep(iconv, dir, langs))
  }

  function ConvertPagesSpec(iconv: Iconv, dir: Direction, doc: Doc): (Doc, Outcome)
  {
    var pass := Fold(doc.pages, 0, PageStep(iconv, dir, doc.languages));
    (Doc(doc.languages, pass.0), pass.1)
  }

  /** The innermost loop, over one string's translations. */
  method ConvertTranslations(iconv: Iconv, dir: Direction, langs: Dict<Fields>, trs: Translations)
    returns (r: Translations, o: Outcome)
    ensures (r, o) == Fold(trs, 0, CellStep(iconv, dir, langs))
  {
    r := trs;
    var i := 0;
    while i < |trs.keys|
      invariant 0 <= i <= |trs.keys| && r.keys == trs.keys
      invariant Fold(r, i, CellStep(iconv, dir, langs)) == Fold(trs, 0, CellStep(iconv, dir, langs))
    {
      var lang := r.keys[i];
      if lang in r.vals {
        var res := ConvertCell(iconv, dir, langs, lang, r.vals[lang]);
        r := r.Put(lang, res.0);
        if res.1.Fail? {
          return r, res.1;
        }
      }
      i := i + 1;
    }
    o := Pass;
  }

  /** The middle loop, over one page's string ids. */
  method ConvertPage(iconv: Iconv, dir: Direction, langs: Dict<Fields>, pg: Page)
    returns (r: Page, o: Outcome)
    ensures (r, o) == Fold(pg, 0, StringStep(iconv, dir, langs))
  {
    r := pg;
    var i := 0;
    while i < |pg.keys|
      invariant 0 <= i <= |pg.keys| && r.keys == pg.keys
      invariant Fold(r, i, StringStep(iconv, dir, langs)) == Fold(pg, 0, StringStep(iconv, dir, langs))
    {
      var sid := r.keys[i];
      if sid in r.vals {
        var trs, oc := ConvertTranslations(iconv, dir, langs, r.vals[sid]);
        r := r.Put(sid, trs);
        if oc.Fail? {
          return r, oc;
        }
      }
      i := i + 1;
    }
    o := Pass;
  }

  /** `_convertEncodings($direction, $data)`: the outer loop, over the pages. */
  method ConvertEncodings(iconv: Iconv, dir: Direction, doc: Doc) returns (r: Doc, o: Outcome)
    ensures (r, o) == ConvertPagesSpec(iconv, dir, doc)
  {
    var pages := doc.pages;
    var i := 0;
    while i < |doc.pages.keys|
      invariant 0 <= i <= |doc.pages.keys| && pages.keys == doc.pages.keys
      invariant Fold(pages, i, PageStep(iconv, dir, doc.languages)) == Fold(doc.pages, 0, PageStep(iconv, dir, doc.languages))
    {
      var pid := pages.keys[i];
      if pid in pages.vals {
        var pg, oc := ConvertPage(iconv, dir, doc.languages, pages.vals[pid]);
        pages := pages.Put(pid, pg);
        if oc.Fail? {
          return Doc(doc.languages, pages), oc;
        }
      }
      i := i + 1;
    }
    r, o := Doc(doc.languages, pages), Pass;
  }

  lemma KeyIndex<V>(d: Dict<V>, k: string) returns (j: nat)
    requires d.Valid() && k in d.vals
    ensures j < |d.keys| && d.keys[j] == k
  {
    assert k in d.keys;
    j :| 0 <= j < |d.keys| && d.keys[j] == k;
  }

  /**
   * A member ends the pass either untouched or holding its step's value; on
   * success every member holds its step's value and every step passed.
   */
  lemma FoldMember<V>(d: Dict<V>, step: (string, V) -> (V, Outcome), k: string)
    requires d.Valid() && k in d.vals
    ensures var r := Fold(d, 0, step);
      && (r.0.vals[k] == d.vals[k] || r.0.vals[k] == step(k, d.vals[k]).0)
      && (r.1 == Pass ==> step(k, d.vals[k]) == (r.0.vals[k], Pass))
  {
    var j := KeyIndex(d, k);
    FoldAt(d, 0, step, j);
    FoldOutcome(d, 0, step);
  }

  /** One cell of one string's translations after the innermost loop. */
  lemma TranslationsCell(iconv: Iconv, dir: Direction, langs: Dict<Fields>, trs: Translations, l: string)
    requires trs.Valid() && l in trs.vals
    ensures var t := Fold(trs, 0, CellStep(iconv, dir, langs));
      && t.0.keys == trs.keys && l in t.0.vals
      && (t.0.vals[l] == trs.vals[l] || ConvertCell(iconv, dir, langs, l, trs.vals[l]) == (t.0.vals[l], Pass))
      && (t.1 == Pass ==> ConvertCell(iconv, dir, langs, l, trs.vals[l]) == (t.0.vals[l], Pass))
  {
    FoldMember(trs, CellStep(iconv, dir, langs), l);
  }

  /** One cell of one page after the middle loop. */
  lemma PageCell(iconv: Iconv, dir: Direction, langs: Dict<Fields>, pg: Page, sid: string, l: string)
    requires PageValid(pg) && sid in pg.vals && l in pg.vals[sid].vals
    ensures var p := Fold(pg, 0, StringStep(iconv, dir, langs)); var text := pg.vals[sid].vals[l];
      && p.0.keys == pg.keys && sid in p.0.vals
      && p.0.vals[sid].keys == pg.vals[sid].keys && l in p.0.vals[sid].vals
      && (p.0.vals[sid].vals[l] == text || ConvertCell(iconv, dir, langs, l, text) == (p.0.vals[sid].vals[l], Pass))
      && (p.1 == Pass ==> ConvertCell(iconv, dir, langs, l, text) == (p.0.vals[sid].vals[l], Pass))
  {
    FoldMember(pg, StringStep(iconv, dir, langs), sid);
    TranslationsCell(iconv, dir, langs, pg.vals[sid], l);
  }

  /**
   * Every page, string id and language survives the pass; a translation is
   * either left as it was or replaced by its successful conversion with its
   * own language's charset; when the pass succeeds every translation is
   * converted.
   */
  lemma ConvertPagesCell(iconv: Iconv, dir: Direction, doc: Doc, pid: string, sid: string, l: string)
    requires DocValid(doc)
    requires pid in doc.pages.vals && sid in doc.pages.vals[pid].vals && l in doc.pages.vals[pid].vals[sid].vals
    ensures var res := ConvertPagesSpec(iconv, dir, doc); var r := res.0;
      var text := doc.pages.vals[pid].vals[sid].vals[l];
      && r.languages == doc.languages
      && r.pages.keys == doc.pages.keys && pid in r.pages.vals
      && r.pages.vals[pid].keys == doc.pages.vals[pid].keys && sid in r.pages.vals[pid].vals
      && r.pages.vals[pid].vals[sid].keys == doc.pages.vals[pid].vals[sid].keys
      && l in r.pages.vals[pid].vals[sid].vals
      && var text' := r.pages.vals[pid].vals[sid].vals[l];
      && (text' == text || ConvertCell(iconv, dir, doc.languages, l, text) == (text', Pass))
      && (res.1 == Pass ==> ConvertCell(iconv, dir, doc.languages, l, text) == (text', Pass))
  {
    FoldMember(doc.pages, PageStep(iconv, dir, doc.languages), pid);
    PageCell(iconv, dir, doc.languages, doc.pages.vals[pid], sid, l);
  }

  lemma PageStepValid(iconv: Iconv, dir: Direction, langs: Dict<Fields>, pg: Page)
    requires PageValid(pg)
    ensures PageValid(Fold(pg, 0, StringStep(iconv, dir, langs)).0)
  {
    var step := StringStep(iconv, dir, langs);
    var r := Fold(pg, 0, step).0;
    forall s | s in r.vals ensures r.vals[s].Valid() {
      FoldMember(pg, step, s);
    }
  }

  /** Both passes keep every level of the index well formed. */
  lemma ConvertPagesValid(iconv: Iconv, dir: Direction, doc: Doc)
    requires DocValid(doc)
    ensures DocValid(ConvertPagesSpec(iconv, dir, doc).0)
  {
    var step := PageStep(iconv, dir, doc.languages);
    var ps := Fold(doc.pages, 0, step).0;
    forall p | p in ps.vals ensures PageValid(ps.vals[p]) {
      FoldMember(doc.pages, step, p);
      PageStepValid(iconv, dir, doc.languages, doc.pages.vals[p]);
    }
  }

  lemma ConvertLangsValid(iconv: Iconv, dir: Direction, doc: Doc)
    requires DocValid(doc)
    ensures DocValid(ConvertLangsSpec(iconv, dir, doc).0)
  {
    var step := LangStep(iconv, dir);
    var ls := Fold(doc.languages, 0, step).0;
    forall l | l in ls.vals ensures ls.vals[l].Valid() {
      FoldMember(doc.languages, step, l);
    }
  }

  /** The failure of one particular cell's conversion. */
  ghost predicate CellFails(iconv: Iconv, dir: Direction, doc: Doc, pid: string, sid: string, l: string, o: Outcome)
  {
    && pid in doc.pages.vals && sid in doc.pages.vals[pid].vals && l in doc.pages.vals[pid].vals[sid].vals
    && var text := doc.pages.vals[pid].vals[sid].vals[l];
    var cs := Charsets(dir, EncodingOf(doc.languages, l));
    cs.0 != cs.1 && iconv(cs.0, cs.1, text).None? && o == Fail(cs.0, cs.1, text)
  }

  /** A failed pass reports a translation that iconv could not convert, with its charsets and text. */
  lemma ConvertPagesFailure(iconv: Iconv, dir: Direction, doc: Doc)
    requires DocValid(doc)
    requires ConvertPagesSpec(iconv, dir, doc).1.Fail?
    ensures exists pid, sid, l :: CellFails(iconv, dir, doc, pid, sid, l, ConvertPagesSpec(iconv, dir, doc).1)
  {
    var langs := doc.languages;
    var o := ConvertPagesSpec(iconv, dir, doc).1;
    FoldOutcome(doc.pages, 0, PageStep(iconv, dir, langs));
    var p := FirstFail(doc.pages, 0, PageStep(iconv, dir, langs));
    var pid := doc.pages.keys[p];
    var pg := doc.pages.vals[pid];
    FoldOutcome(pg, 0, StringStep(iconv, dir, langs));
    var q := FirstFail(pg, 0, StringStep(iconv, dir, langs));
    var sid := pg.keys[q];
    var trs := pg.vals[sid];
    FoldOutcome(trs, 0, CellStep(iconv, dir, langs));
    var c := FirstFail(trs, 0, CellStep(iconv, dir, langs));
    var l := trs.keys[c];
    assert CellFails(iconv, dir, doc, pid, sid, l, o);
  }

  /** When every language in use declares UTF-8 the pass changes nothing and succeeds. */
  lemma ConvertPagesIdentity(iconv: Iconv, dir: Direction, doc: Doc)
    requires DocValid(doc)
    requires forall pid, sid, l ::
      (pid in doc.pages.vals && sid in doc.pages.vals[pid].vals && l in doc.pages.vals[pid].vals[sid].vals) ==>
        Upper(EncodingOf(doc.languages, l)) == "UTF-8"
    ensures ConvertPagesSpec(iconv, dir, doc) == (doc, Pass)
  {
    var langs := doc.languages;
    forall j | 0 <= j < |doc.pages.keys|
      ensures PageStep(iconv, dir, langs)(doc.pages.keys[j], doc.pages.vals[doc.pages.keys[j]]) == (doc.pages.vals[doc.pages.keys[j]], Pass)
    {
      var pid := doc.pages.keys[j];
      var pg := doc.pages.vals[pid];
      forall m | 0 <= m < |pg.keys|
        ensures StringStep(iconv, dir, langs)(pg.keys[m], pg.vals[pg.keys[m]]) == (pg.vals[pg.keys[m]], Pass)
      {
        var trs := pg.vals[pg.keys[m]];
        FoldIdentity(trs, 0, CellStep(iconv, dir, langs));
      }
      FoldIdentity(pg, 0, StringStep(iconv, dir, langs));
    }
    FoldIdentity(doc.pages, 0, PageStep(iconv, dir, langs));
  }

  // ---------------------------------------------------------------------
  // `_convertLangEncodings`: the descriptive fields of each language

  /** The fields that are re-encoded; `encoding` itself is not among them. */
  const LangTextFields: seq<string> := ["name", "meta", "error_text"]

  /** Convert the listed fields of one language in order, skipping absent and empty ones. */
  function ConvFields(iconv: Iconv, source: string, target: string, lang: Fields, fs: seq<string>): (r: (Fields, Outcome))
    ensures r.0.keys == lang.keys && r.0.vals.Keys == lang.vals.Keys
    ensures lang.Valid() ==> r.0.Valid()
    ensures forall f :: f in lang.vals && (f !in fs || PhpEmpty(lang.vals[f])) ==> r.0.vals[f] == lang.vals[f]
    ensures source == target ==> r == (lang, Pass)
    decreases |fs|
  {
    if fs == [] then (lang, Pass)
    else
      var f := fs[0];
      if source != target && f in lang.vals && !PhpEmpty(lang.vals[f]) then
        match iconv(source, target, lang.vals[f])
        case None => (lang, Fail(source, target, lang.vals[f]))
        case Some(t) => ConvFields(iconv, source, target, lang.Put(f, t), fs[1..])
      else ConvFields(iconv, source, target, lang, fs[1..])
  }

  /**
   * With distinct field names, a listed non-empty field ends either untouched
   * or holding its successful conversion, and holds its conversion whenever
   * the whole language converted.
   */
  lemma {:induction false} ConvFieldsAt(iconv: Iconv, source: string, target: string, lang: Fields, fs: seq<string>, f: string)
    requires Distinct(fs) && f in fs && f in lang.vals && !PhpEmpty(lang.vals[f])
    ensures var r := ConvFields(iconv, source, target, lang, fs);
      && (r.0.vals[f] == lang.vals[f] || ConvertText(iconv, source, target, lang.vals[f]) == (r.0.vals[f], Pass))
      && (r.1 == Pass ==> ConvertText(iconv, source, target, lang.vals[f]) == (r.0.vals[f], Pass))
    decreases |fs|
  {
    var g := fs[0];
    assert Distinct(fs[1..]);
    if source != target && g in lang.vals && !PhpEmpty(lang.vals[g]) {
      match iconv(source, target, lang.vals[g])
      case None =>
      case Some(t) =>
        var lang' := lang.Put(g, t);
        if f != g {
          ConvFieldsAt(iconv, source, target, lang', fs[1..], f);
        } else {
          assert f !in fs[1..];
        }
    } else if f != g {
      ConvFieldsAt(iconv, source, target, lang, fs[1..], f);
    }
  }

  /** The failure of one listed field's conversion. */
  ghost predicate FieldFails(iconv: Iconv, source: string, target: string, lang: Fields, fs: seq<string>, f: string, o: Outcome)
  {
    f in fs && f in lang.vals && !PhpEmpty(lang.vals[f]) && source != target &&
    iconv(source, target, lang.vals[f]).None? && o == Fail(source, target, lang.vals[f])
  }

  /** A failed language reports a listed non-empty field that iconv could not convert. */
  lemma {:induction false} ConvFieldsFailure(iconv: Iconv, source: string, target: string, lang: Fields, fs: seq<string>)
    requires Distinct(fs)
    requires ConvFields(iconv, source, target, lang, fs).1.Fail?
    ensures exists f :: FieldFails(iconv, source, target, lang, fs, f, ConvFields(iconv, source, target, lang, fs).1)
    decreases |fs|
  {
    var g := fs[0];
    var o := ConvFields(iconv, source, target, lang, fs).1;
    assert Distinct(fs[1..]);
    if source != target && g in lang.vals && !PhpEmpty(lang.vals[g]) {
      match iconv(source, target, lang.vals[g])
      case None =>
        assert FieldFails(iconv, source, target, lang, fs, g, o);
      case Some(t) =>
        var lang' := lang.Put(g, t);
        ConvFieldsFailure(iconv, source, target, lang', fs[1..]);
        var f :| FieldFails(iconv, source, target, lang', fs[1..], f, o);
        assert f != g;
        assert FieldFails(iconv, source, target, lang, fs, f, o);
    } else {
      ConvFieldsFailure(iconv, source, target, lang, fs[1..]);
      var f :| FieldFails(iconv, source, target, lang, fs[1..], f, o);
      assert FieldFails(iconv, source, target, lang, fs, f, o);
    }
  }

  /** One language: its charsets come from its own `encoding` field. */
  function ConvertLang(iconv: Iconv, dir: Direction, lang: Fields): (Fields, Outcome)
  {
    var cs := Charsets(dir, FieldOr(lang, "encoding"));
    ConvFields(iconv, cs.0, cs.1, lang, LangTextFields)
  }

  function LangStep(iconv: Iconv, dir: Direction): (string, Fields) -> (Fields, Outcome)
  {
    (id: string, lang: Fields) => ConvertLang(iconv, dir, lang)
  }

  function ConvertLangsSpec(iconv: Iconv, dir: Direction, doc: Doc): (Doc, Outcome)
  {
    var pass := Fold(doc.languages, 0, LangStep(iconv, dir));
    (Doc(pass.0, doc.pages), pass.1)
  }

  /** The inner loop, over the three descriptive fields of one language. */
  method ConvertLangFields(iconv: Iconv, dir: Direction, lang: Fields)
    returns (r: Fields, o: Outcome)
    ensures (r, o) == ConvertLang(iconv, dir, lang)
  {
    var source, target := Charsets(dir, FieldOr(lang, "encoding")).0, Charsets(dir, FieldOr(lang, "encoding")).1;
    var fields := LangTextFields;
    r := lang;
    var i := 0;
    while i < |fields|
      invariant 0 <= i <= |fields|
      invariant ConvFields(iconv, source, target, r, fields[i..]) == ConvFields(iconv, source, target, lang, fields)
    {
      var field := fields[i];
      assert fields[i..][1..] == fields[i + 1..];
      if source != target && field in r.vals && !PhpEmpty(r.vals[field]) {
        var res := iconv(source, target, r.vals[field]);
        if res.None? {
          return r, Fail(source, target, r.vals[field]);
        }
        r := r.Put(field, res.value);
      }
      i := i + 1;
    }
    o := Pass;
  }

  /** `_convertLangEncodings($direction, $data)`: the outer loop, over the languages. */
  method ConvertLangEncodings(iconv: Iconv, dir: Direction, doc: Doc) returns (r: Doc, o: Outcome)
    ensures (r, o) == ConvertLangsSpec(iconv, dir, doc)
  {
    var langs := doc.languages;
    var i := 0;
    while i < |doc.languages.keys|
      invariant 0 <= i <= |doc.languages.keys| && langs.keys == doc.languages.keys
      invariant Fold(langs, i, LangStep(iconv, dir)) == Fold(doc.languages, 0, LangStep(iconv, dir))
    {
      var id := langs.keys[i];
      if id in langs.vals {
        var converted, oc := ConvertLangFields(iconv, dir, langs.vals[id]);
        langs := langs.Put(id, converted);
        if oc.Fail? {
          return Doc(langs, doc.pages), oc;
        }
      }
      i := i + 1;
    }
    r, o := Doc(langs, doc.pages), Pass;
  }

  /** What the language step does to one field of one language. */
  lemma LangStepField(iconv: Iconv, dir: Direction, id: string, lang: Fields, f: string)
    requires lang.Valid() && f in lang.vals
    ensures var (lang', o) := LangStep(iconv, dir)(id, lang);
      var cs := Charsets(dir, FieldOr(lang, "encoding"));
      && lang'.keys == lang.keys && f in lang'.vals
      && (f !in LangTextFields || PhpEmpty(lang.vals[f]) ==> lang'.vals[f] == lang.vals[f])
      && (lang'.vals[f] == lang.vals[f] || ConvertText(iconv, cs.0, cs.1, lang.vals[f]) == (lang'.vals[f], Pass))
      && (o == Pass && f in LangTextFields && !PhpEmpty(lang.vals[f]) ==>
            ConvertText(iconv, cs.0, cs.1, lang.vals[f]) == (lang'.vals[f], Pass))
  {
    var cs := Charsets(dir, FieldOr(lang, "encoding"));
    assert Distinct(LangTextFields);
    if f in LangTextFields && !PhpEmpty(lang.vals[f]) {
      ConvFieldsAt(iconv, cs.0, cs.1, lang, LangTextFields, f);
    }
  }

  /**
   * The language pass keeps every language and field and the pages; it
   * rewrites only name, meta and error_text, never an empty one, each by
   * its successful conversion with the language's own charset (all of them
   * when the pass succeeds); `encoding` and every other field are untouched.
   */
  lemma ConvertLangsField(iconv: Iconv, dir: Direction, doc: Doc, l: string, f: string)
    requires LanguagesValid(doc.languages)
    requires l in doc.languages.vals && f in doc.languages.vals[l].vals
    ensures var (r, o) := ConvertLangsSpec(iconv, dir, doc);
      var lang := doc.languages.vals[l];
      var cs := Charsets(dir, FieldOr(lang, "encoding"));
      && r.pages == doc.pages
      && r.languages.keys == doc.languages.keys && l in r.languages.vals
      && r.languages.vals[l].keys == lang.keys && f in r.languages.vals[l].vals
      && var v := r.languages.vals[l].vals[f];
      && (f !in LangTextFields || PhpEmpty(lang.vals[f]) ==> v == lang.vals[f])
      && (f == "encoding" ==> v == lang.vals[f])
      && (v == lang.vals[f] || ConvertText(iconv, cs.0, cs.1, lang.vals[f]) == (v, Pass))
      && (o == Pass && f in LangTextFields && !PhpEmpty(lang.vals[f]) ==> ConvertText(iconv, cs.0, cs.1, lang.vals[f]) == (v, Pass))
  {
    var lang := doc.languages.vals[l];
    var step := LangStep(iconv, dir);
    var R := Fold(doc.languages, 0, step);
    FoldMember(doc.languages, step, l);
    LangStepField(iconv, dir, l, lang, f);
    assert R.0.vals[l] == lang || R.0.vals[l] == step(l, lang).0;
  }

  /** The failure of one descriptive field of one language. */
  ghost predicate LangFieldFails(iconv: Iconv, dir: Direction, doc: Doc, l: string, f: string, o: Outcome)
  {
    l in doc.languages.vals &&
    var lang := doc.languages.vals[l];
    var cs := Charsets(dir, FieldOr(lang, "encoding"));
    FieldFails(iconv, cs.0, cs.1, lang, LangTextFields, f, o)
  }

  /** A failed language pass reports a non-empty descriptive field that iconv could not convert. */
  lemma ConvertLangsFailure(iconv: Iconv, dir: Direction, doc: Doc)
    requires LanguagesValid(doc.languages)
    requires ConvertLangsSpec(iconv, dir, doc).1.Fail?
    ensures exists l, f :: LangFieldFails(iconv, dir, doc, l, f, ConvertLangsSpec(iconv, dir, doc).1)
  {
    var o := ConvertLangsSpec(iconv, dir, doc).1;
    FoldOutcome(doc.languages, 0, LangStep(iconv, dir));
    var p := FirstFail(doc.languages, 0, LangStep(iconv, dir));
    var l := doc.languages.keys[p];
    var lang := doc.languages.vals[l];
    var cs := Charsets(dir, FieldOr(lang, "encoding"));
    assert Distinct(LangTextFields);
    ConvFieldsFailure(iconv, cs.0, cs.1, lang, LangTextFields);
    var f :| FieldFails(iconv, cs.0, cs.1, lang, LangTextFields, f, o);
    assert LangFieldFails(iconv, dir, doc, l, f, o);
  }
}
