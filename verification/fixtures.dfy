/** Two small stores: one original expression in language A and one
    translation of it into language B, with its author, translator, work,
    issue, magazine, publication date and genre; and the same store with the
    publication date's time span left unlabelled. */
module Fixtures {
  import opened Wrappers
  import opened Seqs
  import opened Triples
  import opened Entities
  import opened Queries
  import opened KnowledgeBase

  // Nodes: the translated work and expression, the original, the two
  // languages, the author and translator with their appellations and
  // creation events, the issue, magazine, publishing expression,
  // manifestation, its creation and time span.
  const W := Iri("w")
  const E := Iri("e")
  const O := Iri("o")
  const LangA := Iri("a")
  const LangB := Iri("b")
  const Author := Iri("x")
  const AuthorAppellation := Iri("n")
  const Creation := Iri("c")
  const Translator := Iri("t")
  const TranslatorAppellation := Iri("k")
  const Translating := Iri("u")
  const IssueNode := Iri("i")
  const MagazineNode := Iri("j")
  const PubExpr := Iri("q")
  const Manifestation := Iri("f")
  const Printing := Iri("r")
  const Span := Iri("s")

  /** The derivation, its languages and its work. */
  const TranslationFacts: Graph := [
    Triple(E, R76iIsDerivativeOf, O),
    Triple(O, P72HasLanguage, LangA),
    Triple(E, P72HasLanguage, LangB),
    Triple(E, R3Realises, W),
    Triple(LangA, RdfsLabel, Literal("A", None, None)),
    Triple(LangB, RdfsLabel, Literal("B", None, None))
  ]

  /** The author and the translator, with their names. */
  const PeopleFacts: Graph := [
    Triple(O, R17iWasCreatedBy, Creation),
    Triple(Author, P14iPerformed, Creation),
    Triple(Author, R13HasAppellation, AuthorAppellation),
    Triple(AuthorAppellation, R33HasString, Literal("X", None, None)),
    Triple(E, R17iWasCreatedBy, Translating),
    Triple(Translator, P14iPerformed, Translating),
    Triple(Translator, RdfsLabel, Literal("T", None, None)),
    Triple(Translator, R13HasAppellation, TranslatorAppellation),
    Triple(TranslatorAppellation, R33HasString, Literal("T", None, None))
  ]

  /** The work's title, genre, issue, magazine and publication chain, up to
      an unlabelled time span. */
  const PublicationFacts: Graph := [
    Triple(W, RdfsLabel, Literal("Title", None, None)),
    Triple(W, P2HasType, Literal("G", None, None)),
    Triple(W, R67iIsPartOf, IssueNode),
    Triple(IssueNode, RdfsLabel, Literal("I", None, None)),
    Triple(IssueNode, R67iIsPartOf, MagazineNode),
    Triple(MagazineNode, RdfsLabel, Literal("M", None, None)),
    Triple(IssueNode, R3iIsRealisedBy, PubExpr),
    Triple(PubExpr, R4iIsEmbodiedIn, Manifestation),
    Triple(Manifestation, R24iWasCreatedBy, Printing),
    Triple(Printing, P4HasTimeSpan, Span)
  ]

  /** Everything but the time span's label. */
  const Unlabelled: Graph := TranslationFacts + PeopleFacts + PublicationFacts

  /** The complete store. */
  const Complete: Graph := Unlabelled + [Triple(Span, RdfsLabel, Literal("D", None, None))]

  /** The one translation both stores describe. */
  const Row := TranslationRow(W, E, O, LangA, LangB)

  /** The record the complete store flattens `Row` to. */
  const Expected := TranslationRecord(
    Literal("M", None, None), Literal("I", None, None), Literal("D", None, None), Literal("X", None, None), Literal("Title", None, None),
    Literal("T", None, None), Literal("G", None, None), Literal("A", None, None), Literal("B", None, None))

  // ----- what the stores say, one lookup at a time ----------------------------

  /** `g` and `h` hold the same triples, in whatever order and multiplicity. */
  ghost predicate SameFacts(g: Graph, h: Graph) {
    forall t :: t in g <==> t in h
  }

  /** `o` is the one object of `s` under `p`. */
  ghost predicate Single(g: Graph, s: Term, p: Pred, o: Term) {
    Triple(s, p, o) in g && forall x :: Triple(s, p, x) in g ==> x == o
  }

  /** `who` is the one performer of creation event `c`. */
  ghost predicate OnlyPerformer(g: Graph, c: Term, who: Term) {
    Triple(who, P14iPerformed, c) in g && forall x :: Triple(x, P14iPerformed, c) in g ==> x == who
  }

  /** `E` derives from `O`, and nothing else derives from anything. */
  ghost predicate OnlyDerivation(g: Graph) {
    Triple(E, R76iIsDerivativeOf, O) in g &&
    forall x, y :: Triple(x, R76iIsDerivativeOf, y) in g ==> x == E && y == O
  }

  /** The derivation, its languages and its work. */
  ghost predicate DescribesTranslation(g: Graph) {
    && OnlyDerivation(g)
    && Single(g, O, P72HasLanguage, LangA)
    && Single(g, E, P72HasLanguage, LangB)
    && Single(g, E, R3Realises, W)
    && Single(g, LangA, RdfsLabel, Literal("A", None, None))
    && Single(g, LangB, RdfsLabel, Literal("B", None, None))
  }

  /** The author and the translator, with their names. */
  ghost predicate DescribesPeople(g: Graph) {
    && Single(g, O, R17iWasCreatedBy, Creation)
    && OnlyPerformer(g, Creation, Author)
    && Single(g, Author, R13HasAppellation, AuthorAppellation)
    && Single(g, AuthorAppellation, R33HasString, Literal("X", None, None))
    && Single(g, E, R17iWasCreatedBy, Translating)
    && OnlyPerformer(g, Translating, Translator)
    && Single(g, Translator, RdfsLabel, Literal("T", None, None))
    && Single(g, Translator, R13HasAppellation, TranslatorAppellation)
    && Single(g, TranslatorAppellation, R33HasString, Literal("T", None, None))
  }

  /** The work, its issue and magazine, and the publication chain up to the
      time span. */
  ghost predicate DescribesPublication(g: Graph) {
    && Single(g, W, RdfsLabel, Literal("Title", None, None))
    && Single(g, W, P2HasType, Literal("G", None, None))
    && Single(g, W, R67iIsPartOf, IssueNode)
    && Single(g, IssueNode, RdfsLabel, Literal("I", None, None))
    && Single(g, IssueNode, R67iIsPartOf, MagazineNode)
    && Single(g, MagazineNode, RdfsLabel, Literal("M", None, None))
    && Single(g, IssueNode, R3iIsRealisedBy, PubExpr)
    && Single(g, PubExpr, R4iIsEmbodiedIn, Manifestation)
    && Single(g, Manifestation, R24iWasCreatedBy, Printing)
    && Single(g, Printing, P4HasTimeSpan, Span)
  }

  ghost predicate Describes(g: Graph) {
    DescribesTranslation(g) && DescribesPeople(g) && DescribesPublication(g)
  }

  lemma UnlabelledDerivation()
    ensures OnlyDerivation(Unlabelled)
  {
  }

  lemma UnlabelledSourceLabel()
    ensures Single(Unlabelled, LangA, RdfsLabel, Literal("A", None, None))
  {
  }

  lemma UnlabelledTargetLabel()
    ensures Single(Unlabelled, LangB, RdfsLabel, Literal("B", None, None))
  {
  }

  lemma UnlabelledSourceLanguage()
    ensures Single(Unlabelled, O, P72HasLanguage, LangA)
  {
  }

  lemma UnlabelledTargetLanguage()
    ensures Single(Unlabelled, E, P72HasLanguage, LangB)
  {
  }

  lemma UnlabelledRealises()
    ensures Single(Unlabelled, E, R3Realises, W)
  {
  }

  lemma UnlabelledTranslation()
    ensures DescribesTranslation(Unlabelled)
  {
    UnlabelledDerivation();
    UnlabelledSourceLanguage();
    UnlabelledTargetLanguage();
    UnlabelledRealises();
    UnlabelledSourceLabel();
    UnlabelledTargetLabel();
  }

  lemma UnlabelledAuthorCreation()
    ensures Single(Unlabelled, O, R17iWasCreatedBy, Creation)
  {
  }

  lemma UnlabelledAuthorPerformer()
    ensures OnlyPerformer(Unlabelled, Creation, Author)
  {
  }

  lemma UnlabelledAuthorAppellation()
    ensures Single(Unlabelled, Author, R13HasAppellation, AuthorAppellation)
  {
  }

  lemma UnlabelledAuthorString()
    ensures Single(Unlabelled, AuthorAppellation, R33HasString, Literal("X", None, None))
  {
  }

  lemma UnlabelledTranslatorCreation()
    ensures Single(Unlabelled, E, R17iWasCreatedBy, Translating)
  {
  }

  lemma UnlabelledTranslatorPerformer()
    ensures OnlyPerformer(Unlabelled, Translating, Translator)
  {
  }

  lemma UnlabelledTranslatorLabelFact()
    ensures Single(Unlabelled, Translator, RdfsLabel, Literal("T", None, None))
  {
  }

  lemma UnlabelledTranslatorAppellation()
    ensures Single(Unlabelled, Translator, R13HasAppellation, TranslatorAppellation)
  {
  }

  lemma UnlabelledTranslatorString()
    ensures Single(Unlabelled, TranslatorAppellation, R33HasString, Literal("T", None, None))
  {
  }

  lemma UnlabelledPeople()
    ensures DescribesPeople(Unlabelled)
  {
    UnlabelledAuthorCreation();
    UnlabelledAuthorPerformer();
    UnlabelledAuthorAppellation();
    UnlabelledAuthorString();
    UnlabelledTranslatorCreation();
    UnlabelledTranslatorPerformer();
    UnlabelledTranslatorLabelFact();
    UnlabelledTranslatorAppellation();
    UnlabelledTranslatorString();
  }

  lemma UnlabelledTitle()
    ensures Single(Unlabelled, W, RdfsLabel, Literal("Title", None, None))
  {
  }

  lemma UnlabelledGenreFact()
    ensures Single(Unlabelled, W, P2HasType, Literal("G", None, None))
  {
  }

  lemma UnlabelledIssueOfWork()
    ensures Single(Unlabelled, W, R67iIsPartOf, IssueNode)
  {
  }

  lemma UnlabelledIssueLabel()
    ensures Single(Unlabelled, IssueNode, RdfsLabel, Literal("I", None, None))
  {
  }

  lemma UnlabelledMagazineOfIssue()
    ensures Single(Unlabelled, IssueNode, R67iIsPartOf, MagazineNode)
  {
  }

  lemma UnlabelledMagazineLabel()
    ensures Single(Unlabelled, MagazineNode, RdfsLabel, Literal("M", None, None))
  {
  }

  lemma UnlabelledIssueExpression()
    ensures Single(Unlabelled, IssueNode, R3iIsRealisedBy, PubExpr)
  {
  }

  lemma UnlabelledEmbodiment()
    ensures Single(Unlabelled, PubExpr, R4iIsEmbodiedIn, Manifestation)
  {
  }

  lemma UnlabelledManifestationCreation()
    ensures Single(Unlabelled, Manifestation, R24iWasCreatedBy, Printing)
  {
  }

  lemma UnlabelledTimeSpan()
    ensures Single(Unlabelled, Printing, P4HasTimeSpan, Span)
  {
  }

  lemma UnlabelledPublication()
    ensures DescribesPublication(Unlabelled)
  {
    UnlabelledTitle();
    UnlabelledGenreFact();
    UnlabelledIssueOfWork();
    UnlabelledIssueLabel();
    UnlabelledMagazineOfIssue();
    UnlabelledMagazineLabel();
    UnlabelledIssueExpression();
    UnlabelledEmbodiment();
    UnlabelledManifestationCreation();
    UnlabelledTimeSpan();
  }

  /** Adding the date label changes none of those lookups. */
  lemma CompleteDescribed()
    ensures Describes(Complete)
  {
    UnlabelledTranslation();
    UnlabelledPeople();
    UnlabelledPublication();
  }

  /** The lookups depend only on which triples a store holds. */
  lemma SameFactsDescribe(g: Graph, h: Graph)
    requires SameFacts(g, h)
    ensures DescribesTranslation(h) ==> DescribesTranslation(g)
    ensures DescribesPeople(h) ==> DescribesPeople(g)
    ensures DescribesPublication(h) ==> DescribesPublication(g)
    ensures Single(h, Span, RdfsLabel, Literal("D", None, None)) ==> Single(g, Span, RdfsLabel, Literal("D", None, None))
    ensures (forall x :: Triple(Span, RdfsLabel, x) !in h) ==> forall x :: Triple(Span, RdfsLabel, x) !in g
  {
  }

  /** Only the time span's label tells the two stores apart. */
  lemma SpanLabel()
    ensures Single(Complete, Span, RdfsLabel, Literal("D", None, None))
    ensures forall x :: Triple(Span, RdfsLabel, x) !in Unlabelled
  {
  }

  // ----- what the knowledge base makes of them ---------------------------------

  /** A lookup with a single object answers it, whatever the order. */
  lemma OnlyObject(g: Graph, s: Term, p: Pred, o: Term)
    requires Single(g, s, p, o)
    ensures Next(g, s, p) == Ok(o)
    ensures |Objects(g, s, p)| > 0 && forall x :: x in Objects(g, s, p) ==> x == o
  {
    var os := Objects(g, s, p);
    assert o in os;
    if Next(g, s, p).Ok? {
      var v := Next(g, s, p).value;
      var i :| 0 <= i < |g| && g[i] == Triple(s, p, v) &&
        forall j :: 0 <= j < i ==> !(g[j].s == s && g[j].p == p);
      assert Triple(s, p, v) in g;
    }
  }

  /** A person with one appellation carrying one string is named by it. */
  lemma OnlyName(g: Graph, id: Term, app: Term, name: Term)
    requires Single(g, id, R13HasAppellation, app)
    requires Single(g, app, R33HasString, name)
    ensures PersonToDict(g, PersonView(id, None)).0 == Ok(name)
  {
    OnlyObject(g, id, R13HasAppellation, app);
    OnlyObject(g, app, R33HasString, name);
    var apps := Objects(g, id, R13HasAppellation);
    assert apps[|apps| - 1] in apps;
    var names := ResolveNames(g, id);
    assert names[0] in names;
  }

  /** Fresh views of a non-empty list of one repeated id start with that id. */
  lemma FirstOfPeople(ids: seq<Term>, id: Term)
    requires id in ids
    requires forall x :: x in ids ==> x == id
    ensures |People(ids)| > 0 && People(ids)[0] == PersonView(id, None)
  {
    assert ids[0] in ids;
  }

  /** The translation query finds `Row` and nothing else, and in a store
      without repeated triples it finds it once. */
  lemma OnlyRow(g: Graph)
    requires DescribesTranslation(g)
    ensures forall t :: t in BuildTranslations(g) <==> t == ViewOf(Row)
    ensures NoDup(g) ==> BuildTranslations(g) == [ViewOf(Row)]
  {
    assert IsTranslationMatch(g, Row);
    forall t | t in BuildTranslations(g)
      ensures t == ViewOf(Row)
    {
      assert IsTranslationMatch(g, RowOf(t));
      assert Triple(t.expr, R76iIsDerivativeOf, t.original) in g;
      assert Triple(t.original, P72HasLanguage, t.sl) in g;
      assert Triple(t.expr, P72HasLanguage, t.tl) in g;
      assert Triple(t.expr, R3Realises, t.work) in g;
    }
    if NoDup(g) {
      OnlyElement(BuildTranslations(g), ViewOf(Row));
    }
  }

  /** The translator query finds the translator once and nobody else. */
  lemma OnlyTranslator(g: Graph)
    requires DescribesTranslation(g) && DescribesPeople(g)
    ensures NoDup(BuildTranslators(g))
    ensures forall p :: p in BuildTranslators(g) <==> p == PersonView(Translator, None)
    ensures BuildTranslators(g) == [PersonView(Translator, None)]
  {
    var ps := BuildTranslators(g);
    assert IsTranslatorMatch(g, Translator) by {
      assert Triple(E, R17iWasCreatedBy, Translating) in g;
      assert Triple(Translator, P14iPerformed, Translating) in g;
      assert Triple(Translator, RdfsLabel, Literal("T", None, None)) in g;
    }
    assert PersonView(Translator, None) in ps;
    OnlyElement(ps, PersonView(Translator, None));
  }

  /** Author X and translator T head the two person lists. */
  lemma NamesOfRow(g: Graph)
    requires DescribesTranslation(g) && DescribesPeople(g)
    ensures FirstName(g, Authors(g, ViewOf(Row)).0) == Ok(Literal("X", None, None))
    ensures FirstName(g, Entities.Translators(g, ViewOf(Row)).0) == Ok(Literal("T", None, None))
  {
    assert Triple(Author, P14iPerformed, Creation) in g;
    assert Author in AuthorIds(g, E);
    FirstOfPeople(AuthorIds(g, E), Author);
    OnlyName(g, Author, AuthorAppellation, Literal("X", None, None));
    assert Triple(Translator, P14iPerformed, Translating) in g;
    assert Translator in TranslatorIds(g, E);
    FirstOfPeople(TranslatorIds(g, E), Translator);
    OnlyName(g, Translator, TranslatorAppellation, Literal("T", None, None));
  }

  /** The chains of `magazine` and `issue`. */
  lemma MagazineAndIssue(g: Graph)
    requires DescribesPublication(g)
    ensures Magazine(g, ViewOf(Row)) == Ok(Literal("M", None, None))
    ensures Issue(g, ViewOf(Row)) == Ok(Literal("I", None, None))
  {
    OnlyObject(g, W, R67iIsPartOf, IssueNode);
    OnlyObject(g, IssueNode, R67iIsPartOf, MagazineNode);
    OnlyObject(g, IssueNode, RdfsLabel, Literal("I", None, None));
    OnlyObject(g, MagazineNode, RdfsLabel, Literal("M", None, None));
    assert MagazineHops[1..][1..][1..] == [];
    assert IssueHops[1..][1..] == [];
  }

  /** A hop along a lookup with a single object moves the chain to it. */
  lemma SingleHop(g: Graph, s: Term, p: Pred, o: Term, rest: seq<Pred>)
    requires Single(g, s, p, o)
    ensures Chain(g, s, [p] + rest) == Chain(g, o, rest)
  {
    OnlyObject(g, s, p, o);
    assert ([p] + rest)[0] == p && ([p] + rest)[1..] == rest;
  }

  /** The chain of `pubDate` reaches the time span; from there its label, if
      any, is the date. */
  lemma PublicationChain(g: Graph)
    requires DescribesPublication(g)
    ensures PubDate(g, ViewOf(Row)) == Next(g, Span, RdfsLabel)
  {
    ChainToSpan(g);
  }

  /** The hops of `pubDate` after the publishing expression. */
  const AfterPubExpr: seq<Pred> := [R4iIsEmbodiedIn, R24iWasCreatedBy, P4HasTimeSpan, RdfsLabel]

  lemma ChainToSpan(g: Graph)
    requires DescribesPublication(g)
    ensures Chain(g, W, PubDateHops) == Next(g, Span, RdfsLabel)
  {
    ChainToPubExpr(g);
    ChainFromPubExpr(g);
  }

  lemma ChainToPubExpr(g: Graph)
    requires DescribesPublication(g)
    ensures Chain(g, W, PubDateHops) == Chain(g, PubExpr, AfterPubExpr)
  {
    var fromIssue := [R3iIsRealisedBy] + AfterPubExpr;
    assert PubDateHops == [R67iIsPartOf] + fromIssue;
    SingleHop(g, W, R67iIsPartOf, IssueNode, fromIssue);
    SingleHop(g, IssueNode, R3iIsRealisedBy, PubExpr, AfterPubExpr);
  }

  lemma ChainFromPubExpr(g: Graph)
    requires DescribesPublication(g)
    ensures Chain(g, PubExpr, AfterPubExpr) == Next(g, Span, RdfsLabel)
  {
    var last := [RdfsLabel];
    var fromPrinting := [P4HasTimeSpan] + last;
    var fromManifestation := [R24iWasCreatedBy] + fromPrinting;
    assert AfterPubExpr == [R4iIsEmbodiedIn] + fromManifestation;
    SingleHop(g, PubExpr, R4iIsEmbodiedIn, Manifestation, fromManifestation);
    SingleHop(g, Manifestation, R24iWasCreatedBy, Printing, fromPrinting);
    SingleHop(g, Printing, P4HasTimeSpan, Span, last);
    assert Chain(g, Span, last) == Next(g, Span, RdfsLabel) by {
      assert last[1..] == [];
    }
  }

  /** With the date label present, `Row` flattens to the expected record. */
  lemma RecordOfRow(g: Graph)
    requires Describes(g)
    requires Single(g, Span, RdfsLabel, Literal("D", None, None))
    ensures ToDict(g, ViewOf(Row)) == Ok(Expected)
  {
    MagazineAndIssue(g);
    PublicationChain(g);
    OnlyObject(g, Span, RdfsLabel, Literal("D", None, None));
    NamesOfRow(g);
    OnlyObject(g, W, RdfsLabel, Literal("Title", None, None));
    OnlyObject(g, W, P2HasType, Literal("G", None, None));
    OnlyObject(g, LangA, RdfsLabel, Literal("A", None, None));
    OnlyObject(g, LangB, RdfsLabel, Literal("B", None, None));
    var titles := Titles(g, ViewOf(Row));
    assert titles[0] in titles;
  }

  // ----- the two scenarios ------------------------------------------------------

  /** Imported into a new facade, the complete store yields exactly one
      translation, `Row`, whose flat record carries magazine M, issue I,
      date D, author X, the work's title, translator T, genre G and
      languages A and B; the translator list is T alone. */
  lemma CompleteRoundTrip()
    ensures var kb := Import(Initial, Complete);
      && KnowledgeBase.Translations(kb).0 == [ViewOf(Row)]
      && ToDict(kb.graph, ViewOf(Row)) == Ok(Expected)
      && KnowledgeBase.Translators(kb).0 == [PersonView(Translator, None)]
  {
    var kb := Import(Initial, Complete);
    assert NoDup(Initial.graph);
    CompleteKB(kb);
  }

  /** The same for any facade with empty caches whose store holds exactly
      the complete facts, once each. */
  lemma CompleteKB(kb: KB)
    requires SameFacts(kb.graph, Complete) && NoDup(kb.graph)
    requires kb.translations.None? && kb.translators.None?
    ensures KnowledgeBase.Translations(kb).0 == [ViewOf(Row)]
    ensures ToDict(kb.graph, ViewOf(Row)) == Ok(Expected)
    ensures KnowledgeBase.Translators(kb).0 == [PersonView(Translator, None)]
  {
    var g := kb.graph;
    CompleteDescribed();
    SpanLabel();
    SameFactsDescribe(g, Complete);
    OnlyRow(g);
    OnlyTranslator(g);
    RecordOfRow(g);
  }

  /** With no date label, `pubDate` fails, and the flat record with it. */
  lemma RecordWithoutDate(g: Graph)
    requires DescribesPublication(g)
    requires forall x :: Triple(Span, RdfsLabel, x) !in g
    ensures Magazine(g, ViewOf(Row)) == Ok(Literal("M", None, None))
    ensures Issue(g, ViewOf(Row)) == Ok(Literal("I", None, None))
    ensures PubDate(g, ViewOf(Row)) == Fail(StopIteration)
    ensures ToDict(g, ViewOf(Row)) == Fail(StopIteration)
  {
    MagazineAndIssue(g);
    PublicationChain(g);
  }

  /** Without the time span's label the translation is still listed, once,
      and its magazine and issue still resolve, but its publication date, and
      with it the flat record, fail with `StopIteration`. */
  lemma MissingDateLabel()
    ensures var kb := Import(Initial, Unlabelled);
      && KnowledgeBase.Translations(kb).0 == [ViewOf(Row)]
      && Magazine(kb.graph, ViewOf(Row)) == Ok(Literal("M", None, None))
      && Issue(kb.graph, ViewOf(Row)) == Ok(Literal("I", None, None))
      && PubDate(kb.graph, ViewOf(Row)) == Fail(StopIteration)
      && ToDict(kb.graph, ViewOf(Row)) == Fail(StopIteration)
  {
    var kb := Import(Initial, Unlabelled);
    var g := kb.graph;
    assert NoDup(Initial.graph);
    UnlabelledTranslation();
    UnlabelledPublication();
    SpanLabel();
    SameFactsDescribe(g, Unlabelled);
    OnlyRow(g);
    RecordWithoutDate(g);
    assert KnowledgeBase.Translations(kb).0 == BuildTranslations(g);
  }
}
