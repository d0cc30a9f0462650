/** The pattern queries the knowledge base runs: the two selection queries
    (translations, translators) and the facet queries. Each query is written
    as the nested iteration an executor performs over the triple sequence,
    and proved to return exactly the bindings its conjunctive pattern and
    filter describe. Row order follows the triple sequence; the queries
    themselves promise no order. */
module Queries {
  import opened Wrappers
  import opened Seqs
  import opened Triples
  import opened Entities

  // ----- the translation query -----------------------------------------------

  /** One row of the translation query. */
  datatype TranslationRow = TranslationRow(work: Term, expr: Term, original: Term, sl: Term, tl: Term)

  /** The translation query's pattern:
      `?trans_expr R76i ?original_expr . ?original_expr P72 ?sl .
       ?trans_expr P72 ?tl . FILTER (?sl != ?tl) . ?trans_expr R3 ?trans_work`. */
  ghost predicate IsTranslationMatch(g: Graph, row: TranslationRow) {
    && Triple(row.expr, R76iIsDerivativeOf, row.original) in g
    && Triple(row.original, P72HasLanguage, row.sl) in g
    && Triple(row.expr, P72HasLanguage, row.tl) in g
    && row.sl != row.tl
    && Triple(row.expr, R3Realises, row.work) in g
  }

  /** The rows with `expr orig sl tl` fixed: one per work `expr` realises. */
  function WorkRows(g: Graph, expr: Term, orig: Term, sl: Term, tl: Term): (r: seq<TranslationRow>)
    ensures forall row: TranslationRow :: row in r <==>
      && row.expr == expr && row.original == orig && row.sl == sl && row.tl == tl
      && Triple(expr, R3Realises, row.work) in g
    ensures NoDup(g) ==> NoDup(r)
  {
    var works := Objects(g, expr, R3Realises);
    var f := w => [TranslationRow(w, expr, orig, sl, tl)];
    assert NoDup(g) ==> NoDup(FlatMap(works, f)) by {
      if NoDup(g) {
        ObjectsNoDup(g, expr, R3Realises);
        FlatMapNoDup(works, f);
      }
    }
    FlatMap(works, f)
  }

  /** The rows with `expr orig sl` fixed. */
  function TargetRows(g: Graph, expr: Term, orig: Term, sl: Term): (r: seq<TranslationRow>)
    ensures forall row: TranslationRow :: row in r <==>
      && row.expr == expr && row.original == orig && row.sl == sl
      && Triple(expr, P72HasLanguage, row.tl) in g
      && row.sl != row.tl
      && Triple(expr, R3Realises, row.work) in g
    ensures NoDup(g) ==> NoDup(r)
  {
    var tls := Objects(g, expr, P72HasLanguage);
    var f := tl => if sl == tl then [] else WorkRows(g, expr, orig, sl, tl);
    assert NoDup(g) ==> NoDup(FlatMap(tls, f)) by {
      if NoDup(g) {
        ObjectsNoDup(g, expr, P72HasLanguage);
        FlatMapNoDup(tls, f);
      }
    }
    FlatMap(tls, f)
  }

  /** The rows for one derivative triple `expr R76i orig`. */
  function RowsOfDerivation(g: Graph, expr: Term, orig: Term): (r: seq<TranslationRow>)
    ensures forall row: TranslationRow :: row in r <==>
      && row.expr == expr && row.original == orig
      && Triple(orig, P72HasLanguage, row.sl) in g
      && Triple(expr, P72HasLanguage, row.tl) in g
      && row.sl != row.tl
      && Triple(expr, R3Realises, row.work) in g
    ensures NoDup(g) ==> NoDup(r)
  {
    var sls := Objects(g, orig, P72HasLanguage);
    var f := sl => TargetRows(g, expr, orig, sl);
    assert NoDup(g) ==> NoDup(FlatMap(sls, f)) by {
      if NoDup(g) {
        ObjectsNoDup(g, orig, P72HasLanguage);
        FlatMapNoDup(sls, f);
      }
    }
    FlatMap(sls, f)
  }

  /** The rows of the translation query, grouped by derivative triple in
      graph order; in a store without duplicate triples, one row per match. */
  function TranslationRows(g: Graph): (r: seq<TranslationRow>)
    ensures forall row :: row in r <==> IsTranslationMatch(g, row)
    ensures NoDup(g) ==> NoDup(r)
  {
    var f := (t: Triple) => if t.p == R76iIsDerivativeOf then RowsOfDerivation(g, t.s, t.o) else [];
    assert NoDup(g) ==> NoDup(FlatMap(g, f)) by {
      if NoDup(g) {
        FlatMapNoDup(g, f);
      }
    }
    FlatMap(g, f)
  }

  // ----- the translator query ------------------------------------------------

  /** The translator query's pattern, projected on `?person`:
      `?expr R76i ?original . ?expr R17i ?creation .
       ?person P14i ?creation . ?person rdfs:label ?label`. */
  ghost predicate IsTranslatorMatch(g: Graph, person: Term) {
    exists expr, orig, c ::
      && Triple(expr, R76iIsDerivativeOf, orig) in g
      && Triple(expr, R17iWasCreatedBy, c) in g
      && Triple(person, P14iPerformed, c) in g
      && HasObject(g, person, RdfsLabel)
  }

  /** The labelled creators of expression `e`, once per (creation,
      performance, label) match. */
  function LabelledCreatorsOf(g: Graph, e: Term): (r: seq<Term>)
    ensures forall p :: p in r <==> p in CreatorsOf(g, e) && HasObject(g, p, RdfsLabel)
  {
    FlatMap(CreatorsOf(g, e), p => FlatMap(Objects(g, p, RdfsLabel), l => [p]))
  }

  /** The rows of the translator query (`SELECT DISTINCT ?person`). */
  function TranslatorRows(g: Graph): (r: seq<Term>)
    ensures NoDup(r)
    ensures forall p :: p in r <==> IsTranslatorMatch(g, p)
  {
    var all := FlatMap(g, (t: Triple) => if t.p == R76iIsDerivativeOf then LabelledCreatorsOf(g, t.s) else []);
    assert forall p :: p in all ==> IsTranslatorMatch(g, p) by {
      forall p | p in all
        ensures IsTranslatorMatch(g, p)
      {
        var t :| t in g && p in (if t.p == R76iIsDerivativeOf then LabelledCreatorsOf(g, t.s) else []);
        var c :| Triple(t.s, R17iWasCreatedBy, c) in g && Triple(p, P14iPerformed, c) in g;
        assert Triple(t.s, R76iIsDerivativeOf, t.o) in g;
      }
    }
    assert forall p :: IsTranslatorMatch(g, p) ==> p in all by {
      forall p | IsTranslatorMatch(g, p)
        ensures p in all
      {
        var expr, orig, c :| && Triple(expr, R76iIsDerivativeOf, orig) in g
          && Triple(expr, R17iWasCreatedBy, c) in g && Triple(p, P14iPerformed, c) in g
          && HasObject(g, p, RdfsLabel);
        var t := Triple(expr, R76iIsDerivativeOf, orig);
        assert p in LabelledCreatorsOf(g, t.s);
      }
    }
    Dedup(all)
  }

  // ----- the language facets ---------------------------------------------------

  /** One solution of a language-facet query: the bound
      `?translation ?original ?sl ?tl ?label`. */
  datatype LanguageBinding = LanguageBinding(translation: Term, original: Term, sl: Term, tl: Term, labelValue: Term)

  /** Which language the facet labels and groups by. */
  datatype Side = Source | Target {
    function Lang(b: LanguageBinding): Term {
      match this
      case Source => b.sl
      case Target => b.tl
    }

    /** The facet's grouping key: `group by ?label ?lang`. */
    function Key(): LanguageBinding -> (Term, Term) {
      b => (Lang(b), b.labelValue)
    }
  }

  /** The facet pattern: `?translation R76i ?original . ?original P72 ?sl .
      ?translation P72 ?tl . FILTER (?sl != ?tl) . ?lang rdfs:label ?label`,
      with `?lang` the source or the target language. */
  ghost predicate IsLanguageBinding(g: Graph, side: Side, b: LanguageBinding) {
    && Triple(b.translation, R76iIsDerivativeOf, b.original) in g
    && Triple(b.original, P72HasLanguage, b.sl) in g
    && Triple(b.translation, P72HasLanguage, b.tl) in g
    && b.sl != b.tl
    && Triple(side.Lang(b), RdfsLabel, b.labelValue) in g
  }

  /** The solutions with all four of `translation original sl tl` fixed:
      one per label of the faceted language. */
  function LabelBindings(g: Graph, side: Side, translation: Term, original: Term, sl: Term, tl: Term): (r: seq<LanguageBinding>)
    ensures forall b: LanguageBinding :: b in r <==>
      && b.translation == translation && b.original == original && b.sl == sl && b.tl == tl
      && Triple(side.Lang(b), RdfsLabel, b.labelValue) in g
  {
    var lang := side.Lang(LanguageBinding(translation, original, sl, tl, sl));
    FlatMap(Objects(g, lang, RdfsLabel), l => [LanguageBinding(translation, original, sl, tl, l)])
  }

  /** The solutions with `translation original sl` fixed. */
  function TargetBindings(g: Graph, side: Side, translation: Term, original: Term, sl: Term): (r: seq<LanguageBinding>)
    ensures forall b: LanguageBinding :: b in r <==>
      && b.translation == translation && b.original == original && b.sl == sl
      && Triple(translation, P72HasLanguage, b.tl) in g
      && b.sl != b.tl
      && Triple(side.Lang(b), RdfsLabel, b.labelValue) in g
  {
    FlatMap(Objects(g, translation, P72HasLanguage), tl =>
      if sl == tl then [] else LabelBindings(g, side, translation, original, sl, tl))
  }

  /** The solutions for one derivative triple `translation R76i original`. */
  function BindingsOfDerivation(g: Graph, side: Side, translation: Term, original: Term): (r: seq<LanguageBinding>)
    ensures forall b: LanguageBinding :: b in r <==>
      && b.translation == translation && b.original == original
      && Triple(original, P72HasLanguage, b.sl) in g
      && Triple(translation, P72HasLanguage, b.tl) in g
      && b.sl != b.tl
      && Triple(side.Lang(b), RdfsLabel, b.labelValue) in g
  {
    FlatMap(Objects(g, original, P72HasLanguage), sl => TargetBindings(g, side, translation, original, sl))
  }

  /** The solutions of a facet pattern, as a set: the store is a set of
      triples, so every solution counts once. */
  function LanguageBindings(g: Graph, side: Side): (r: set<LanguageBinding>)
    ensures forall b :: b in r <==> IsLanguageBinding(g, side, b)
  {
    var all := FlatMap(g, (t: Triple) =>
      if t.p == R76iIsDerivativeOf then BindingsOfDerivation(g, side, t.s, t.o) else []);
    assert forall b :: IsLanguageBinding(g, side, b) ==> b in all by {
      forall b | IsLanguageBinding(g, side, b)
        ensures b in all
      {
        var t := Triple(b.translation, R76iIsDerivativeOf, b.original);
        assert b in BindingsOfDerivation(g, side, t.s, t.o);
      }
    }
    set b | b in all
  }

  /** One group of a grouped count. */
  datatype Group<K> = Group(key: K, count: nat)

  /** The elements of `bindings` whose key is `k`. */
  function Members<T(!new), K(==)>(bindings: set<T>, key: T -> K, k: K): (r: set<T>)
    ensures forall b :: b in r <==> b in bindings && key(b) == k
  {
    set b | b in bindings && key(b) == k
  }

  /** The sum of the counts. */
  function Total<K>(groups: seq<Group<K>>): nat {
    if |groups| == 0 then 0 else Total(groups[..|groups| - 1]) + groups[|groups| - 1].count
  }

  /** Some group has key `k`. */
  ghost predicate HasGroup<K>(groups: seq<Group<K>>, k: K) {
    exists i :: 0 <= i < |groups| && groups[i].key == k
  }

  /** The keys of `groups` are pairwise distinct. */
  ghost predicate DistinctKeys<K>(groups: seq<Group<K>>) {
    forall i, j :: 0 <= i < j < |groups| ==> groups[i].key != groups[j].key
  }

  /** Every group counts the elements of `bindings` with its key. */
  ghost predicate CountsMembers<T(!new), K>(bindings: set<T>, key: T -> K, groups: seq<Group<K>>) {
    forall i :: 0 <= i < |groups| ==>
      groups[i].count == |Members(bindings, key, groups[i].key)| && groups[i].count > 0
  }

  /** What `GroupCount` keeps true of the groups emitted so far and the
      bindings they cover. */
  ghost predicate GroupingSoFar<T(!new), K>(bindings: set<T>, key: T -> K, groups: seq<Group<K>>, done: set<T>) {
    && done <= bindings
    && (forall b :: b in done <==> b in bindings && HasGroup(groups, key(b)))
    && DistinctKeys(groups)
    && CountsMembers(bindings, key, groups)
    && Total(groups) == |done|
  }

  lemma HasGroupAppend<K>(groups: seq<Group<K>>, last: Group<K>)
    ensures forall k :: HasGroup(groups + [last], k) <==> HasGroup(groups, k) || k == last.key
  {
    var next := groups + [last];
    forall k | HasGroup(next, k)
      ensures HasGroup(groups, k) || k == last.key
    {
      var i :| 0 <= i < |next| && next[i].key == k;
      if i < |groups| {
        assert groups[i].key == k;
      }
    }
    forall k | HasGroup(groups, k)
      ensures HasGroup(next, k)
    {
      var i :| 0 <= i < |groups| && groups[i].key == k;
      assert next[i].key == k;
    }
    assert next[|groups|] == last;
  }

  lemma CountsMembersAppend<T(!new), K>(bindings: set<T>, key: T -> K, groups: seq<Group<K>>, b: T)
    requires CountsMembers(bindings, key, groups)
    requires b in bindings
    ensures CountsMembers(bindings, key, groups + [Group(key(b), |Members(bindings, key, key(b))|)])
  {
    var members := Members(bindings, key, key(b));
    var next := groups + [Group(key(b), |members|)];
    assert b in members;
    forall i | 0 <= i < |next|
      ensures next[i].count == |Members(bindings, key, next[i].key)| && next[i].count > 0
    {
      if i < |groups| {
        assert next[i] == groups[i];
      }
    }
  }

  /** Emitting the group of an uncovered binding keeps `GroupingSoFar`. */
  lemma GroupStep<T(!new), K>(bindings: set<T>, key: T -> K, groups: seq<Group<K>>, done: set<T>, b: T)
    requires GroupingSoFar(bindings, key, groups, done)
    requires b in bindings && b !in done
    ensures GroupingSoFar(bindings, key, groups + [Group(key(b), |Members(bindings, key, key(b))|)],
      done + Members(bindings, key, key(b)))
  {
    var k := key(b);
    var members := Members(bindings, key, k);
    var next := groups + [Group(k, |members|)];
    assert !HasGroup(groups, k);
    assert Total(next) == Total(groups) + |members| by {
      assert next[..|groups|] == groups;
    }
    assert |done + members| == |done| + |members| by {
      assert members * done == {};
    }
    assert forall x :: x in done + members <==> x in bindings && HasGroup(next, key(x)) by {
      HasGroupAppend(groups, Group(k, |members|));
    }
    assert DistinctKeys(next);
    CountsMembersAppend(bindings, key, groups, b);
  }

  /** `GROUP BY key` with `COUNT`: one group per key that occurs, in no
      particular order, each counting the solutions with that key. */
  method GroupCount<T(!new), K(==)>(bindings: set<T>, key: T -> K) returns (groups: seq<Group<K>>)
    ensures DistinctKeys(groups)
    ensures forall i :: 0 <= i < |groups| ==>
      groups[i].count == |Members(bindings, key, groups[i].key)| && groups[i].count > 0
    ensures forall b :: b in bindings ==> HasGroup(groups, key(b))
    ensures Total(groups) == |bindings|
  {
    groups := [];
    var done: set<T> := {};
    while done != bindings
      invariant GroupingSoFar(bindings, key, groups, done)
      decreases bindings - done
    {
      assert !(bindings <= done);
      var b :| b in bindings && b !in done;
      var members := Members(bindings, key, key(b));
      GroupStep(bindings, key, groups, done, b);
      groups := groups + [Group(key(b), |members|)];
      done := done + members;
    }
  }

  /** One row of a language facet: `{lang, label, count}`. */
  datatype LanguageFacetRow = LanguageFacetRow(lang: Term, labelValue: Term, count: nat)

  /** The solutions of the `side` facet in the group (`lang`, `labelValue`). */
  function LanguageGroup(g: Graph, side: Side, lang: Term, labelValue: Term): (r: set<LanguageBinding>)
    ensures forall b :: b in r <==> IsLanguageBinding(g, side, b) && side.Lang(b) == lang && b.labelValue == labelValue
  {
    Members(LanguageBindings(g, side), side.Key(), (lang, labelValue))
  }

  /** The sum of the counts of facet rows. */
  function FacetTotal(rows: seq<LanguageFacetRow>): nat {
    if |rows| == 0 then 0 else FacetTotal(rows[..|rows| - 1]) + rows[|rows| - 1].count
  }

  /** Facet rows from groups keyed by (language, label), in the same order. */
  function ToFacetRows(groups: seq<Group<(Term, Term)>>): (rows: seq<LanguageFacetRow>)
    ensures |rows| == |groups|
    ensures forall i :: 0 <= i < |groups| ==>
      rows[i] == LanguageFacetRow(groups[i].key.0, groups[i].key.1, groups[i].count)
    ensures FacetTotal(rows) == Total(groups)
  {
    if |groups| == 0 then []
    else
      var init := ToFacetRows(groups[..|groups| - 1]);
      var last := groups[|groups| - 1];
      var rows := init + [LanguageFacetRow(last.key.0, last.key.1, last.count)];
      assert rows[..|rows| - 1] == init;
      rows
  }

  /** `source_language_facet` (side `Source`) and `target_language_facet`
      (side `Target`): one row per distinct (language, label) group, each
      counting its solutions; the counts add up to the number of solutions. */
  method LanguageFacet(g: Graph, side: Side) returns (rows: seq<LanguageFacetRow>)
    ensures forall i, j :: 0 <= i < j < |rows| ==>
      (rows[i].lang, rows[i].labelValue) != (rows[j].lang, rows[j].labelValue)
    ensures forall i :: 0 <= i < |rows| ==>
      rows[i].count == |LanguageGroup(g, side, rows[i].lang, rows[i].labelValue)| && rows[i].count > 0
    ensures forall b :: IsLanguageBinding(g, side, b) ==>
      exists i :: 0 <= i < |rows| && rows[i].lang == side.Lang(b) && rows[i].labelValue == b.labelValue
    ensures FacetTotal(rows) == |LanguageBindings(g, side)|
  {
    var bindings := LanguageBindings(g, side);
    var key := side.Key();
    var groups := GroupCount(bindings, key);
    rows := ToFacetRows(groups);
    FacetRowsCount(bindings, key, groups, rows);
    FacetRowsCover(g, side, groups, rows);
  }

  /** Each facet row counts the solutions of its group. */
  lemma FacetRowsCount(bindings: set<LanguageBinding>, key: LanguageBinding -> (Term, Term),
                       groups: seq<Group<(Term, Term)>>, rows: seq<LanguageFacetRow>)
    requires |rows| == |groups|
    requires forall i :: 0 <= i < |groups| ==>
      rows[i] == LanguageFacetRow(groups[i].key.0, groups[i].key.1, groups[i].count)
    requires forall i :: 0 <= i < |groups| ==>
      groups[i].count == |Members(bindings, key, groups[i].key)| && groups[i].count > 0
    ensures forall i :: 0 <= i < |rows| ==>
      rows[i].count == |Members(bindings, key, (rows[i].lang, rows[i].labelValue))| && rows[i].count > 0
  {
    forall i | 0 <= i < |rows|
      ensures rows[i].count == |Members(bindings, key, (rows[i].lang, rows[i].labelValue))|
    {
      assert groups[i].key == (rows[i].lang, rows[i].labelValue);
    }
  }

  /** Every solution's group has a facet row. */
  lemma FacetRowsCover(g: Graph, side: Side, groups: seq<Group<(Term, Term)>>, rows: seq<LanguageFacetRow>)
    requires |rows| == |groups|
    requires forall i :: 0 <= i < |groups| ==>
      rows[i] == LanguageFacetRow(groups[i].key.0, groups[i].key.1, groups[i].count)
    requires forall b :: b in LanguageBindings(g, side) ==> HasGroup(groups, side.Key()(b))
    ensures forall b :: IsLanguageBinding(g, side, b) ==>
      exists i :: 0 <= i < |rows| && rows[i].lang == side.Lang(b) && rows[i].labelValue == b.labelValue
  {
    forall b | IsLanguageBinding(g, side, b)
      ensures exists j :: 0 <= j < |rows| && rows[j].lang == side.Lang(b) && rows[j].labelValue == b.labelValue
    {
      assert b in LanguageBindings(g, side);
      var j :| 0 <= j < |groups| && groups[j].key == side.Key()(b);
      assert rows[j].lang == side.Lang(b) && rows[j].labelValue == b.labelValue;
    }
  }

  /** The facet counts the translation query's solutions by language label:
      a row `translations()` finds (a match of the translation pattern, which
      `TranslationRows` lists), paired with a label of its source (or target)
      language, is a solution of that label's group. */
  lemma TranslationsAreFaceted(g: Graph, side: Side, row: TranslationRow, l: Term)
    requires IsTranslationMatch(g, row)
    requires Triple(side.Lang(LanguageBinding(row.expr, row.original, row.sl, row.tl, l)), RdfsLabel, l) in g
    ensures var b := LanguageBinding(row.expr, row.original, row.sl, row.tl, l);
      b in LanguageGroup(g, side, side.Lang(b), l)
  {
  }

  /** Conversely a facet solution is a translation row for every work its
      expression realises. The facet pattern has no `R3` triple, so a
      derivative expression that realises no work is counted by the facet
      but listed by no translation row. */
  lemma FacetedAreTranslations(g: Graph, side: Side, b: LanguageBinding, w: Term)
    requires IsLanguageBinding(g, side, b)
    requires Triple(b.translation, R3Realises, w) in g
    ensures TranslationRow(w, b.translation, b.original, b.sl, b.tl) in TranslationRows(g)
  {
  }

  // ----- the distinct-projection facets ----------------------------------------

  const F18SerialWork := Iri("http://iflastandards.info/ns/lrm/lrmer/F18_Serial_Work")
  const F1Work := Iri("http://iflastandards.info/ns/lrm/lrmer/F1_Work")

  /** One row of `magazine_facet`. */
  datatype MagazineRow = MagazineRow(magazine: Term, labelValue: Term)

  /** The rows of magazine `m`: one per label. */
  function MagazineLabels(g: Graph, m: Term): (r: seq<MagazineRow>)
    ensures forall row :: row in r <==> row.magazine == m && Triple(m, RdfsLabel, row.labelValue) in g
  {
    FlatMap(Objects(g, m, RdfsLabel), l => [MagazineRow(m, l)])
  }

  /** `magazine_facet`: the distinct (serial work, labelValue) pairs. */
  function MagazineFacet(g: Graph): (r: seq<MagazineRow>)
    ensures NoDup(r)
    ensures forall row :: row in r <==>
      Triple(row.magazine, RdfType, F18SerialWork) in g && Triple(row.magazine, RdfsLabel, row.labelValue) in g
  {
    Dedup(FlatMap(Subjects(g, RdfType, F18SerialWork), m => MagazineLabels(g, m)))
  }

  /** One row of `genre_facet`: the genre doubles as its own label. */
  datatype GenreRow = GenreRow(genre: Term, labelValue: Term)

  /** The genre rows of work `w`: one per type. */
  function WorkGenres(g: Graph, w: Term): (r: seq<GenreRow>)
    ensures forall row :: row in r <==> row.labelValue == row.genre && Triple(w, P2HasType, row.genre) in g
  {
    FlatMap(Objects(g, w, P2HasType), x => [GenreRow(x, x)])
  }

  /** `genre_facet`: the distinct types of works. */
  function GenreFacet(g: Graph): (r: seq<GenreRow>)
    ensures NoDup(r)
    ensures forall row :: row in r ==> row.labelValue == row.genre
    ensures forall x :: GenreRow(x, x) in r <==>
      exists w :: Triple(w, RdfType, F1Work) in g && Triple(w, P2HasType, x) in g
  {
    Dedup(FlatMap(Subjects(g, RdfType, F1Work), w => WorkGenres(g, w)))
  }

  /** One row of `pubdate_facet`: the date label doubles as its own label. */
  datatype PubDateRow = PubDateRow(pubDate: Term, labelValue: Term)

  /** The labels of `span` if it lies within some duration. */
  function SpanLabels(g: Graph, span: Term): (r: seq<Term>)
    ensures forall l :: l in r <==> HasObject(g, span, P82AtSomeTimeWithin) && Triple(span, RdfsLabel, l) in g
  {
    FlatMap(Objects(g, span, P82AtSomeTimeWithin), d => Objects(g, span, RdfsLabel))
  }

  /** The labels of every time span of a creation event that lies within
      some duration, once per match. */
  function PubDateLabels(g: Graph): (r: seq<Term>)
    ensures forall l :: l in r <==>
      exists mc, span :: Triple(mc, P4HasTimeSpan, span) in g && HasObject(g, span, P82AtSomeTimeWithin) &&
        Triple(span, RdfsLabel, l) in g
  {
    var labels := FlatMap(g, (t: Triple) => if t.p == P4HasTimeSpan then SpanLabels(g, t.o) else []);
    assert forall l | l in labels ::
      exists mc, span :: Triple(mc, P4HasTimeSpan, span) in g && HasObject(g, span, P82AtSomeTimeWithin) &&
        Triple(span, RdfsLabel, l) in g by {
      forall l | l in labels
        ensures exists mc, span ::
          Triple(mc, P4HasTimeSpan, span) in g && HasObject(g, span, P82AtSomeTimeWithin) &&
          Triple(span, RdfsLabel, l) in g
      {
        var t :| t in g && l in (if t.p == P4HasTimeSpan then SpanLabels(g, t.o) else []);
        assert Triple(t.s, P4HasTimeSpan, t.o) in g;
      }
    }
    assert forall l, mc, span | Triple(mc, P4HasTimeSpan, span) in g && HasObject(g, span, P82AtSomeTimeWithin) &&
        Triple(span, RdfsLabel, l) in g :: l in labels by {
      forall l, mc, span | Triple(mc, P4HasTimeSpan, span) in g && HasObject(g, span, P82AtSomeTimeWithin) &&
          Triple(span, RdfsLabel, l) in g
        ensures l in labels
      {
        var t := Triple(mc, P4HasTimeSpan, span);
        assert l in SpanLabels(g, t.o);
      }
    }
    labels
  }

  /** `pubdate_facet`: the distinct labels of time spans of creation events
      that lie within some duration. */
  function PubDateFacet(g: Graph): (r: seq<PubDateRow>)
    ensures NoDup(r)
    ensures forall row :: row in r ==> row.labelValue == row.pubDate
    ensures forall l :: PubDateRow(l, l) in r <==>
      exists mc, span :: Triple(mc, P4HasTimeSpan, span) in g && HasObject(g, span, P82AtSomeTimeWithin) &&
        Triple(span, RdfsLabel, l) in g
  {
    var labels := PubDateLabels(g);
    Dedup(DateRows(labels))
  }

  /** One row per label, in order. */
  function DateRows(labels: seq<Term>): (r: seq<PubDateRow>)
    ensures forall row :: row in r ==> row.labelValue == row.pubDate
    ensures forall l :: PubDateRow(l, l) in r <==> l in labels
  {
    FlatMap(labels, l => [PubDateRow(l, l)])
  }
}
