/** The `KnowledgeBase` facade: the fact store and the two collection cells
    (`_translations`, `_translators`), each filled by the first call of its
    accessor and never invalidated afterwards. */
module KnowledgeBase {
  import opened Wrappers
  import opened Seqs
  import opened Triples
  import opened Entities
  import opened Queries
  import Memo

  /** The facade's state. */
  datatype KB = KB(graph: Graph, translations: Option<seq<Translation>>, translators: Option<seq<PersonView>>)

  /** A new facade: an empty store and two empty cells. */
  const Initial := KB([], None, None)

  /** The merge `import_data` performs once the source is parsed: the store
      takes the union, and the cells are left as they are. */
  function Import(kb: KB, ts: seq<Triple>): (r: KB)
    ensures forall t :: t in r.graph <==> t in kb.graph || t in ts
    ensures NoDup(kb.graph) ==> NoDup(r.graph)
    ensures r.translations == kb.translations && r.translators == kb.translators
  {
    kb.(graph := Merge(kb.graph, ts))
  }

  /** Merging the same triples a second time changes nothing. */
  lemma ImportIdempotent(kb: KB, ts: seq<Triple>)
    ensures Import(Import(kb, ts), ts) == Import(kb, ts)
  {
    MergeIdempotent(kb.graph, ts);
  }

  /** The translation query row a view was built from. */
  function RowOf(t: Translation): TranslationRow {
    TranslationRow(t.work, t.expr, t.original, t.sl, t.tl)
  }

  /** A fresh `Translation` view for a query row. */
  function ViewOf(row: TranslationRow): Translation {
    Translation(row.work, row.expr, row.original, row.sl, row.tl, None, None)
  }

  /** `t` is a view of a match of the translation query in `g`. */
  ghost predicate IsTranslationIn(g: Graph, t: Translation) {
    IsTranslationMatch(g, RowOf(t))
  }

  /** One fresh view per row, in row order. */
  function Views(rows: seq<TranslationRow>): seq<Translation> {
    seq(|rows|, i requires 0 <= i < |rows| => ViewOf(rows[i]))
  }

  /** Fresh views are exactly the views of the rows. */
  lemma ViewsMirrorRows(rows: seq<TranslationRow>)
    ensures forall t :: t in Views(rows) ==> RowOf(t) in rows && t.authors.None? && t.translators.None?
    ensures forall row :: row in rows ==> ViewOf(row) in Views(rows)
    ensures NoDup(rows) ==> NoDup(Views(rows))
  {
    var r := Views(rows);
    if NoDup(rows) {
      forall i, j | 0 <= i < j < |r|
        ensures r[i] != r[j]
      {
        assert RowOf(r[i]) == rows[i] && RowOf(r[j]) == rows[j];
      }
    }
    forall t | t in r
      ensures RowOf(t) in rows && t.authors.None? && t.translators.None?
    {
      var i :| 0 <= i < |r| && r[i] == t;
      assert RowOf(t) == rows[i];
    }
    forall row | row in rows
      ensures ViewOf(row) in r
    {
      var i :| 0 <= i < |rows| && rows[i] == row;
      assert r[i] == ViewOf(row);
    }
  }

  /** What the first call of `translations()` builds: one fresh view per row
      of the translation query, so one per match in a store without
      duplicate triples. */
  function BuildTranslations(g: Graph): (r: seq<Translation>)
    ensures forall t :: t in r ==> IsTranslationIn(g, t) && t.authors.None? && t.translators.None?
    ensures forall row :: IsTranslationMatch(g, row) ==> ViewOf(row) in r
    ensures NoDup(g) ==> NoDup(r)
  {
    var rows := TranslationRows(g);
    ViewsMirrorRows(rows);
    Views(rows)
  }

  /** Fresh views keep the ids' distinctness and membership. */
  lemma PeopleMirrorIds(ids: seq<Term>)
    ensures NoDup(ids) ==> NoDup(People(ids))
    ensures forall p :: p in People(ids) ==> p.id in ids && p.names.None?
    ensures forall id :: id in ids ==> PersonView(id, None) in People(ids)
  {
    var r := People(ids);
    forall p | p in r
      ensures p.id in ids && p.names.None?
    {
      var i :| 0 <= i < |r| && r[i] == p;
      assert ids[i] in ids;
    }
    if NoDup(ids) {
      forall i, j | 0 <= i < j < |r|
        ensures r[i] != r[j]
      {
        assert ids[i] != ids[j];
      }
    }
    forall id | id in ids
      ensures PersonView(id, None) in r
    {
      var i :| 0 <= i < |ids| && ids[i] == id;
      assert r[i] == PersonView(id, None);
    }
  }

  /** What the first call of `translators()` builds: one fresh view per
      distinct qualifying person. */
  function BuildTranslators(g: Graph): (r: seq<PersonView>)
    ensures NoDup(r)
    ensures forall p :: p in r ==> IsTranslatorMatch(g, p.id) && p.names.None?
    ensures forall id :: IsTranslatorMatch(g, id) ==> PersonView(id, None) in r
  {
    var ids := TranslatorRows(g);
    PeopleMirrorIds(ids);
    People(ids)
  }

  /** `KnowledgeBase.translations()`. */
  function Translations(kb: KB): (r: (seq<Translation>, KB))
    ensures r.1 == kb.(translations := Some(r.0))
    ensures kb.translations.Some? ==> r == (kb.translations.value, kb)
    ensures kb.translations.None? ==> r.0 == BuildTranslations(kb.graph)
  {
    var (ts, cell) := Memo.Force(kb.translations, BuildTranslations(kb.graph));
    (ts, kb.(translations := cell))
  }

  /** `KnowledgeBase.translators()`. */
  function Translators(kb: KB): (r: (seq<PersonView>, KB))
    ensures r.1 == kb.(translators := Some(r.0))
    ensures kb.translators.Some? ==> r == (kb.translators.value, kb)
    ensures kb.translators.None? ==> r.0 == BuildTranslators(kb.graph)
  {
    var (ps, cell) := Memo.Force(kb.translators, BuildTranslators(kb.graph));
    (ps, kb.(translators := cell))
  }

  /** The queries run only on the first call: a later call returns the
      identical list and leaves the facade unchanged, even after an import
      has changed the store in between. */
  lemma CollectionsCachedOnce(kb: KB, ts: seq<Triple>)
    ensures Translations(Import(Translations(kb).1, ts)).0 == Translations(kb).0
    ensures Translators(Import(Translators(kb).1, ts)).0 == Translators(kb).0
    ensures Translations(Translations(kb).1) == Translations(kb)
    ensures Translators(Translators(kb).1) == Translators(kb)
  {
  }

  // ----- the facade's invariant -------------------------------------------------

  /** The store holds no triple twice, as an RDF graph is a set; every cached
      translation is a distinct match of the translation query, and every
      cached translator a distinct match of the translator query, in the
      current store. */
  ghost predicate Sound(kb: KB) {
    && NoDup(kb.graph)
    && (kb.translations.Some? ==>
          && NoDup(kb.translations.value)
          && forall t :: t in kb.translations.value ==> IsTranslationIn(kb.graph, t))
    && (kb.translators.Some? ==>
          && NoDup(kb.translators.value)
          && forall p :: p in kb.translators.value ==> IsTranslatorMatch(kb.graph, p.id))
  }

  /** Matches survive a growing store: the patterns have no negation. */
  lemma MatchesGrow(g: Graph, g': Graph)
    requires forall t :: t in g ==> t in g'
    ensures forall row :: IsTranslationMatch(g, row) ==> IsTranslationMatch(g', row)
    ensures forall p :: IsTranslatorMatch(g, p) ==> IsTranslatorMatch(g', p)
  {
    forall p | IsTranslatorMatch(g, p)
      ensures IsTranslatorMatch(g', p)
    {
      var expr, orig, c :| && Triple(expr, R76iIsDerivativeOf, orig) in g
        && Triple(expr, R17iWasCreatedBy, c) in g && Triple(p, P14iPerformed, c) in g
        && HasObject(g, p, RdfsLabel);
      var l :| Triple(p, RdfsLabel, l) in g;
      assert HasObject(g', p, RdfsLabel) by {
        assert Triple(p, RdfsLabel, l) in g';
      }
    }
  }

  /** The operations a caller can apply to the facade. */
  datatype Op = ImportOp(ts: seq<Triple>) | TranslationsOp | TranslatorsOp

  /** The facade after `op`. */
  function Step(kb: KB, op: Op): KB {
    match op
    case ImportOp(ts) => Import(kb, ts)
    case TranslationsOp => Translations(kb).1
    case TranslatorsOp => Translators(kb).1
  }

  /** The facade after `ops`, in order. */
  function Run(kb: KB, ops: seq<Op>): KB
    decreases |ops|
  {
    if |ops| == 0 then kb else Run(Step(kb, ops[0]), ops[1..])
  }

  /** Every operation keeps the facade sound. */
  lemma StepKeepsSound(kb: KB, op: Op)
    requires Sound(kb)
    ensures Sound(Step(kb, op))
  {
    match op
    case ImportOp(ts) =>
      MatchesGrow(kb.graph, Import(kb, ts).graph);
    case TranslationsOp =>
    case TranslatorsOp =>
  }

  /** Whatever imports and calls a caller makes, starting from a sound
      facade (a new one is): the store holds no triple twice; the cached
      translations are distinct, and each has different source and target
      languages, derives from its original and realises its work; every
      cached translator occurs once, performed a creation of a derivative
      expression and has a label; all in the current store. */
  lemma {:induction false} RunKeepsSound(kb: KB, ops: seq<Op>)
    requires Sound(kb)
    ensures var kb' := Run(kb, ops);
      && NoDup(kb'.graph)
      && (kb'.translations.Some? ==> NoDup(kb'.translations.value))
      && (kb'.translations.Some? ==> forall t :: t in kb'.translations.value ==>
            && t.sl != t.tl
            && Triple(t.expr, R76iIsDerivativeOf, t.original) in kb'.graph
            && Triple(t.original, P72HasLanguage, t.sl) in kb'.graph
            && Triple(t.expr, P72HasLanguage, t.tl) in kb'.graph
            && Triple(t.expr, R3Realises, t.work) in kb'.graph)
      && (kb'.translators.Some? ==>
            && NoDup(kb'.translators.value)
            && forall p :: p in kb'.translators.value ==> IsTranslatorMatch(kb'.graph, p.id))
    decreases |ops|
  {
    if |ops| == 0 {
    } else {
      StepKeepsSound(kb, ops[0]);
      RunKeepsSound(Step(kb, ops[0]), ops[1..]);
    }
  }

  /** Once filled, a collection cell never changes again, whatever imports
      and calls follow: the source never clears `_translations` or
      `_translators`. */
  lemma {:induction false} RunKeepsCaches(kb: KB, ops: seq<Op>)
    ensures kb.translations.Some? ==> Run(kb, ops).translations == kb.translations
    ensures kb.translators.Some? ==> Run(kb, ops).translators == kb.translators
    decreases |ops|
  {
    if |ops| > 0 {
      RunKeepsCaches(Step(kb, ops[0]), ops[1..]);
    }
  }

  lemma InitialIsSound()
    ensures Sound(Initial)
  {
  }
}
