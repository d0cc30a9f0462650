/** The entity views of the knowledge base: `Person`, `Translator` and
    `Translation`. A view wraps graph identifiers and derives its properties
    from single-hop lookups and small pattern queries; the memoised ones
    (`names`, `authors`, `translators`) keep their cell in the view value,
    and every access returns the view with its cell as the access left it. */
module Entities {
  import opened Wrappers
  import opened Seqs
  import opened Triples
  import Memo

  // ----- Person ---------------------------------------------------------------

  /** A `Person`: its identifier and its `_names` cell. */
  datatype PersonView = PersonView(id: Term, names: Option<seq<Term>>)

  /** Fresh views (empty cells) for `ids`, in order. */
  function People(ids: seq<Term>): (ps: seq<PersonView>)
    ensures |ps| == |ids|
    ensures forall i :: 0 <= i < |ids| ==> ps[i] == PersonView(ids[i], None)
  {
    seq(|ids|, i requires 0 <= i < |ids| => PersonView(ids[i], None))
  }

  /** The name strings `Person.names` computes: the loop over the
      appellations replaces the list on every iteration, so only the strings
      of the last appellation remain. */
  function ResolveNames(g: Graph, id: Term): (r: seq<Term>)
    ensures (forall a :: Triple(id, R13HasAppellation, a) !in g) ==> r == []
    ensures forall n :: n in r ==> exists a :: Triple(id, R13HasAppellation, a) in g && Triple(a, R33HasString, n) in g
    ensures var apps := Objects(g, id, R13HasAppellation);
      |apps| > 0 ==> forall n :: n in r <==> Triple(apps[|apps| - 1], R33HasString, n) in g
  {
    var apps := Objects(g, id, R13HasAppellation);
    if |apps| == 0 then []
    else
      assert apps[|apps| - 1] in apps;
      Objects(g, apps[|apps| - 1], R33HasString)
  }

  /** The loop of `Person.names` as written: start from the empty list and,
      for every appellation, replace the list by that appellation's strings. */
  method CollectNames(g: Graph, id: Term) returns (names: seq<Term>)
    ensures names == ResolveNames(g, id)
  {
    var apps := Objects(g, id, R13HasAppellation);
    names := [];
    var i := 0;
    while i < |apps|
      invariant 0 <= i <= |apps|
      invariant names == if i == 0 then [] else Objects(g, apps[i - 1], R33HasString)
    {
      names := Objects(g, apps[i], R33HasString);
      i := i + 1;
    }
  }

  /** `Person.names`: computed from the graph on the first access, then
      answered from the cell. */
  function Names(g: Graph, pv: PersonView): (r: (seq<Term>, PersonView))
    ensures r.1 == pv.(names := Some(r.0))
    ensures pv.names.None? ==> r.0 == ResolveNames(g, pv.id)
    ensures pv.names.Some? ==> r == (pv.names.value, pv)
  {
    var (v, cell) := Memo.Force(pv.names, ResolveNames(g, pv.id));
    (v, pv.(names := cell))
  }

  /** `names` is computed at most once per view: once the cell is filled, a
      later access, even against a changed graph, returns the same list and
      leaves the view unchanged. */
  lemma NamesComputedOnce(g: Graph, later: Graph, pv: PersonView)
    ensures Names(later, Names(g, pv).1) == Names(g, pv)
  {
    Memo.ForceOnce(pv.names, ResolveNames(g, pv.id), ResolveNames(later, pv.id));
  }

  /** The person has an appellation and its last one carries a string: the
      condition for a fresh view to have a first name. */
  ghost predicate LastAppellationNamed(g: Graph, id: Term) {
    var apps := Objects(g, id, R13HasAppellation);
    |apps| > 0 && HasObject(g, apps[|apps| - 1], R33HasString)
  }

  /** A fresh view resolves to a non-empty list exactly when its last
      appellation carries a string. */
  lemma ResolvedNamesNonEmpty(g: Graph, id: Term)
    ensures |ResolveNames(g, id)| > 0 <==> LastAppellationNamed(g, id)
  {
    var apps := Objects(g, id, R13HasAppellation);
    var names := ResolveNames(g, id);
    if |names| > 0 {
      assert names[0] in names;
    }
    if LastAppellationNamed(g, id) {
      var n :| Triple(apps[|apps| - 1], R33HasString, n) in g;
      assert n in names;
    }
  }

  /** `Person.to_dict`, reduced to its one field: `names[0]`, or the
      `IndexError` it raises on an empty list. Reading `names` fills the
      view's cell, so the view comes back with it. */
  function PersonToDict(g: Graph, pv: PersonView): (r: (Result<Term, Error>, PersonView))
    ensures r.1 == Names(g, pv).1 && r.1.names.Some?
    ensures r.0.Fail? ==> r.0.error == IndexError
    ensures r.0.Ok? <==> |r.1.names.value| > 0
    ensures r.0.Ok? ==> r.0.value == r.1.names.value[0]
    ensures pv.names.None? ==> r.1.names.value == ResolveNames(g, pv.id)
    ensures pv.names.None? ==> (r.0.Ok? <==> LastAppellationNamed(g, pv.id))
    ensures pv.names.None? && r.0.Ok? ==>
      exists a :: Triple(pv.id, R13HasAppellation, a) in g && Triple(a, R33HasString, r.0.value) in g
  {
    var (names, pv') := Names(g, pv);
    ResolvedNamesNonEmpty(g, pv.id);
    if |names| == 0 then (Fail(IndexError), pv')
    else
      assert names[0] in names;
      (Ok(names[0]), pv')
  }

  // ----- Translator -------------------------------------------------------------

  /** The flat record of `Translator.to_dict`. */
  datatype TranslatorRecord = TranslatorRecord(
    id: Term,
    labelValue: Term,
    birthDate: Option<Term>,
    deathDate: Option<Term>,
    gender: Option<Term>,
    nationality: Option<Term>)

  /** `v` is what an optional biographical lookup answers for `p`: nothing
      exactly when the person has no such fact, else the first one. */
  ghost predicate OptionalFact(g: Graph, id: Term, p: Pred, v: Option<Term>) {
    match v
    case None => forall o :: Triple(id, p, o) !in g
    case Some(o) => IsFirstMatch(g, id, p, o)
  }

  /** `Translator.label`: the first `rdfs:label`, with no fallback. */
  function TranslatorLabel(g: Graph, id: Term): (r: Result<Term, Error>)
    ensures r.Fail? <==> forall l :: Triple(id, RdfsLabel, l) !in g
    ensures r.Ok? ==> IsFirstMatch(g, id, RdfsLabel, r.value)
  {
    Next(g, id, RdfsLabel)
  }

  /** `Translator.to_dict`: only a missing label makes it fail; a missing
      birth date, death date, gender or nationality becomes `None`. */
  function TranslatorToDict(g: Graph, id: Term): (r: Result<TranslatorRecord, Error>)
    ensures r.Fail? <==> forall l :: Triple(id, RdfsLabel, l) !in g
    ensures r.Fail? ==> r.error == StopIteration
    ensures r.Ok? ==> r.value.id == id && IsFirstMatch(g, id, RdfsLabel, r.value.labelValue)
    ensures r.Ok? ==>
      && OptionalFact(g, id, SchemaBirthDate, r.value.birthDate)
      && OptionalFact(g, id, SchemaDeathDate, r.value.deathDate)
      && OptionalFact(g, id, SchemaGender, r.value.gender)
      && OptionalFact(g, id, SchemaNationality, r.value.nationality)
  {
    var labelValue :- TranslatorLabel(g, id);
    Ok(TranslatorRecord(id, labelValue,
      FirstOf(g, id, SchemaBirthDate),
      FirstOf(g, id, SchemaDeathDate),
      FirstOf(g, id, SchemaGender),
      FirstOf(g, id, SchemaNationality)))
  }

  // ----- Translation ------------------------------------------------------------

  /** A `Translation`: the bound identifiers of one row of the translation
      query, and the `_authors` and `_translators` cells. */
  datatype Translation = Translation(
    work: Term,
    expr: Term,
    original: Term,
    sl: Term,
    tl: Term,
    authors: Option<seq<PersonView>>,
    translators: Option<seq<PersonView>>)

  /** `Translation.sl`: the first label of the source language. */
  function SourceLanguage(g: Graph, t: Translation): (r: Result<Term, Error>)
    ensures r.Fail? <==> forall l :: Triple(t.sl, RdfsLabel, l) !in g
    ensures r.Ok? ==> IsFirstMatch(g, t.sl, RdfsLabel, r.value)
  {
    Next(g, t.sl, RdfsLabel)
  }

  /** `Translation.tl`: the first label of the target language. */
  function TargetLanguage(g: Graph, t: Translation): (r: Result<Term, Error>)
    ensures r.Fail? <==> forall l :: Triple(t.tl, RdfsLabel, l) !in g
    ensures r.Ok? ==> IsFirstMatch(g, t.tl, RdfsLabel, r.value)
  {
    Next(g, t.tl, RdfsLabel)
  }

  /** `Translation.titles`: every label of the translated work. */
  function Titles(g: Graph, t: Translation): (r: seq<Term>)
    ensures forall x :: x in r <==> Triple(t.work, RdfsLabel, x) in g
  {
    Objects(g, t.work, RdfsLabel)
  }

  /** Every term of `xs` has an `rdfs:label`. */
  ghost predicate AllLabelled(g: Graph, xs: seq<Term>) {
    forall i :: 0 <= i < |xs| ==> HasObject(g, xs[i], RdfsLabel)
  }

  /** `Translation.languages`: the first label of every language of the
      translation expression, failing on the first language without one. */
  method Languages(g: Graph, t: Translation) returns (r: Result<seq<Term>, Error>)
    ensures r.Ok? <==> AllLabelled(g, Objects(g, t.expr, P72HasLanguage))
    ensures r.Fail? ==> r.error == StopIteration
    ensures var langs := Objects(g, t.expr, P72HasLanguage);
      r.Ok? ==> (|r.value| == |langs| &&
        forall i :: 0 <= i < |langs| ==> IsFirstMatch(g, langs[i], RdfsLabel, r.value[i]))
  {
    var langs := Objects(g, t.expr, P72HasLanguage);
    var labels: seq<Term> := [];
    var i := 0;
    while i < |langs|
      invariant 0 <= i <= |langs| && |labels| == i
      invariant forall j :: 0 <= j < i ==> IsFirstMatch(g, langs[j], RdfsLabel, labels[j])
      invariant forall j :: 0 <= j < i ==> Triple(langs[j], RdfsLabel, labels[j]) in g
    {
      var first := Next(g, langs[i], RdfsLabel);
      if first.Fail? {
        assert !HasObject(g, langs[i], RdfsLabel);
        assert !AllLabelled(g, langs);
        return Fail(StopIteration);
      }
      assert Triple(langs[i], RdfsLabel, first.value) in g by {
        var k :| 0 <= k < |g| && g[k] == Triple(langs[i], RdfsLabel, first.value) &&
          forall m :: 0 <= m < k ==> !(g[m].s == langs[i] && g[m].p == RdfsLabel);
      }
      labels := labels + [first.value];
      i := i + 1;
    }
    assert AllLabelled(g, langs) by {
      forall j | 0 <= j < |langs|
        ensures HasObject(g, langs[j], RdfsLabel)
      {
        assert Triple(langs[j], RdfsLabel, labels[j]) in g;
      }
    }
    return Ok(labels);
  }

  /** The people who performed a creation event of expression `e`, once per
      (creation, performance) match: `?e R17i ?c . ?person P14i ?c`. */
  function CreatorsOf(g: Graph, e: Term): (r: seq<Term>)
    ensures forall p :: p in r <==>
      exists c :: Triple(e, R17iWasCreatedBy, c) in g && Triple(p, P14iPerformed, c) in g
  {
    FlatMap(Objects(g, e, R17iWasCreatedBy), c => Subjects(g, P14iPerformed, c))
  }

  /** The rows of the `authors` query, with `?expr` bound: the creators of
      every original the expression is a derivative of (no `DISTINCT`). */
  function AuthorIds(g: Graph, expr: Term): (r: seq<Term>)
    ensures forall p :: p in r <==>
      exists orig, c :: Triple(expr, R76iIsDerivativeOf, orig) in g &&
        Triple(orig, R17iWasCreatedBy, c) in g && Triple(p, P14iPerformed, c) in g
  {
    FlatMap(Objects(g, expr, R76iIsDerivativeOf), orig => CreatorsOf(g, orig))
  }

  /** The rows of the `translators` query, with `?expr` bound: the distinct
      creators of the expression itself. */
  function TranslatorIds(g: Graph, expr: Term): (r: seq<Term>)
    ensures NoDup(r)
    ensures forall p :: p in r <==>
      exists c :: Triple(expr, R17iWasCreatedBy, c) in g && Triple(p, P14iPerformed, c) in g
  {
    Dedup(CreatorsOf(g, expr))
  }

  /** Authors and translators are the same relation taken at different
      expressions: the authors of a translation are the translators (the
      creators) of the originals it derives from. */
  lemma AuthorsAreCreatorsOfOriginals(g: Graph, expr: Term, p: Term)
    ensures p in AuthorIds(g, expr) <==>
      exists orig :: Triple(expr, R76iIsDerivativeOf, orig) in g && p in TranslatorIds(g, orig)
  {
    if p in AuthorIds(g, expr) {
      var orig, c :| Triple(expr, R76iIsDerivativeOf, orig) in g &&
        Triple(orig, R17iWasCreatedBy, c) in g && Triple(p, P14iPerformed, c) in g;
      assert p in TranslatorIds(g, orig);
    }
  }

  /** `Translation.authors`: computed on the first access, then cached. */
  function Authors(g: Graph, t: Translation): (r: (seq<PersonView>, Translation))
    ensures r.1 == t.(authors := Some(r.0))
    ensures t.authors.Some? ==> r.0 == t.authors.value
    ensures t.authors.None? ==> r.0 == People(AuthorIds(g, t.expr))
  {
    var (ps, cell) := Memo.Force(t.authors, People(AuthorIds(g, t.expr)));
    (ps, t.(authors := cell))
  }

  /** `Translation.translators`: computed on the first access, then cached. */
  function Translators(g: Graph, t: Translation): (r: (seq<PersonView>, Translation))
    ensures r.1 == t.(translators := Some(r.0))
    ensures t.translators.Some? ==> r.0 == t.translators.value
    ensures t.translators.None? ==> r.0 == People(TranslatorIds(g, t.expr))
  {
    var (ps, cell) := Memo.Force(t.translators, People(TranslatorIds(g, t.expr)));
    (ps, t.(translators := cell))
  }

  /** Both cells are computed at most once: a second access of `authors` or
      `translators`, against any graph, returns the first answer and leaves the
      view as the first access left it. */
  lemma AuthorsAndTranslatorsComputedOnce(g: Graph, later: Graph, t: Translation)
    ensures Authors(later, Authors(g, t).1) == Authors(g, t)
    ensures Translators(later, Translators(g, t).1) == Translators(g, t)
  {
    Memo.ForceOnce(t.authors, People(AuthorIds(g, t.expr)), People(AuthorIds(later, t.expr)));
    Memo.ForceOnce(t.translators, People(TranslatorIds(g, t.expr)), People(TranslatorIds(later, t.expr)));
  }

  /** work -> issue -> publishing expression -> manifestation -> creation ->
      time span -> label. */
  const PubDateHops: seq<Pred> :=
    [R67iIsPartOf, R3iIsRealisedBy, R4iIsEmbodiedIn, R24iWasCreatedBy, P4HasTimeSpan, RdfsLabel]

  /** work -> issue -> magazine -> label. */
  const MagazineHops: seq<Pred> := [R67iIsPartOf, R67iIsPartOf, RdfsLabel]

  /** work -> issue -> label. */
  const IssueHops: seq<Pred> := [R67iIsPartOf, RdfsLabel]

  /** `Translation.pubDate`: the first-object path along `PubDateHops`. */
  function PubDate(g: Graph, t: Translation): (r: Result<Term, Error>)
    ensures r.Ok? ==> FirstPath(g, t.work, PubDateHops, r.value)
    ensures r.Fail? <==> HasEmptyHop(g, t.work, PubDateHops)
    ensures r.Fail? ==> r.error == StopIteration
  {
    ChainFailsAtEmptyHop(g, t.work, PubDateHops);
    var r := Chain(g, t.work, PubDateHops);
    if r.Ok? then ChainIsFirstPath(g, t.work, PubDateHops, r.value); r else r
  }

  /** `Translation.magazine`: the first label of the first part-of object of
      the work's first part-of issue. */
  function Magazine(g: Graph, t: Translation): (r: Result<Term, Error>)
    ensures r.Ok? ==> FirstPath(g, t.work, MagazineHops, r.value)
    ensures r.Ok? ==>
      exists issue, mag ::
        Triple(t.work, R67iIsPartOf, issue) in g && Triple(issue, R67iIsPartOf, mag) in g &&
        Triple(mag, RdfsLabel, r.value) in g
    ensures r.Fail? <==> HasEmptyHop(g, t.work, MagazineHops)
    ensures r.Fail? ==> r.error == StopIteration
  {
    ChainFailsAtEmptyHop(g, t.work, MagazineHops);
    var r := Chain(g, t.work, MagazineHops);
    if r.Ok? then
      MagazinePath(g, t.work, r.value);
      ChainIsFirstPath(g, t.work, MagazineHops, r.value);
      r
    else r
  }

  lemma MagazinePath(g: Graph, work: Term, v: Term)
    requires Reaches(g, work, MagazineHops, v)
    ensures exists issue, mag ::
      Triple(work, R67iIsPartOf, issue) in g && Triple(issue, R67iIsPartOf, mag) in g &&
      Triple(mag, RdfsLabel, v) in g
  {
    var issue :| Triple(work, R67iIsPartOf, issue) in g && Reaches(g, issue, MagazineHops[1..], v);
    assert MagazineHops[1..][1..] == [RdfsLabel];
    var mag :| Triple(issue, R67iIsPartOf, mag) in g && Reaches(g, mag, [RdfsLabel], v);
    var x :| Triple(mag, RdfsLabel, x) in g && Reaches(g, x, [RdfsLabel][1..], v);
  }

  /** `Translation.issue`: the first label of the work's first part-of
      issue. */
  function Issue(g: Graph, t: Translation): (r: Result<Term, Error>)
    ensures r.Ok? ==> FirstPath(g, t.work, IssueHops, r.value)
    ensures r.Ok? ==>
      exists issue :: Triple(t.work, R67iIsPartOf, issue) in g && Triple(issue, RdfsLabel, r.value) in g
    ensures r.Fail? <==> HasEmptyHop(g, t.work, IssueHops)
    ensures r.Fail? ==> r.error == StopIteration
  {
    ChainFailsAtEmptyHop(g, t.work, IssueHops);
    var r := Chain(g, t.work, IssueHops);
    if r.Ok? then
      IssuePath(g, t.work, r.value);
      ChainIsFirstPath(g, t.work, IssueHops, r.value);
      r
    else r
  }

  lemma IssuePath(g: Graph, work: Term, v: Term)
    requires Reaches(g, work, IssueHops, v)
    ensures exists issue :: Triple(work, R67iIsPartOf, issue) in g && Triple(issue, RdfsLabel, v) in g
  {
    var issue :| Triple(work, R67iIsPartOf, issue) in g && Reaches(g, issue, IssueHops[1..], v);
    assert IssueHops[1..] == [RdfsLabel];
    var x :| Triple(issue, RdfsLabel, x) in g && Reaches(g, x, [RdfsLabel][1..], v);
  }

  /** `Translation.genre`: the first type of the work. */
  function Genre(g: Graph, t: Translation): (r: Result<Term, Error>)
    ensures r.Fail? <==> forall x :: Triple(t.work, P2HasType, x) !in g
    ensures r.Ok? ==> IsFirstMatch(g, t.work, P2HasType, r.value)
  {
    Next(g, t.work, P2HasType)
  }

  /** `pubDate`, `magazine` and `issue` all start at the work's first
      part-of issue: with no such issue all three fail; otherwise `issue` is
      that issue's first label, `magazine` the first label of its first
      part-of object, and `pubDate` the rest of the chain from it. */
  lemma ChainsShareFirstIssue(g: Graph, t: Translation)
    ensures FirstOf(g, t.work, R67iIsPartOf).None? ==>
      Issue(g, t) == Fail(StopIteration) && Magazine(g, t) == Fail(StopIteration) &&
      PubDate(g, t) == Fail(StopIteration)
    ensures FirstOf(g, t.work, R67iIsPartOf).Some? ==>
      var issue := FirstOf(g, t.work, R67iIsPartOf).value;
      && Issue(g, t) == Next(g, issue, RdfsLabel)
      && Magazine(g, t) == Chain(g, issue, [R67iIsPartOf, RdfsLabel])
      && PubDate(g, t) == Chain(g, issue, PubDateHops[1..])
  {
    IssueAfterFirst(g, t);
    MagazineAfterFirst(g, t);
    PubDateAfterFirst(g, t);
  }

  lemma IssueAfterFirst(g: Graph, t: Translation)
    ensures FirstOf(g, t.work, R67iIsPartOf).None? ==> Issue(g, t) == Fail(StopIteration)
    ensures FirstOf(g, t.work, R67iIsPartOf).Some? ==>
      Issue(g, t) == Next(g, FirstOf(g, t.work, R67iIsPartOf).value, RdfsLabel)
  {
    assert IssueHops == [R67iIsPartOf] + [RdfsLabel];
    ChainAppend(g, t.work, [R67iIsPartOf], [RdfsLabel]);
    if FirstOf(g, t.work, R67iIsPartOf).Some? {
      var issue := FirstOf(g, t.work, R67iIsPartOf).value;
      assert [RdfsLabel][1..] == [];
      assert Chain(g, issue, [RdfsLabel]) == Next(g, issue, RdfsLabel);
    }
  }

  lemma MagazineAfterFirst(g: Graph, t: Translation)
    ensures FirstOf(g, t.work, R67iIsPartOf).None? ==> Magazine(g, t) == Fail(StopIteration)
    ensures FirstOf(g, t.work, R67iIsPartOf).Some? ==>
      Magazine(g, t) == Chain(g, FirstOf(g, t.work, R67iIsPartOf).value, [R67iIsPartOf, RdfsLabel])
  {
    assert MagazineHops == [R67iIsPartOf] + [R67iIsPartOf, RdfsLabel];
    ChainAppend(g, t.work, [R67iIsPartOf], [R67iIsPartOf, RdfsLabel]);
  }

  lemma PubDateAfterFirst(g: Graph, t: Translation)
    ensures FirstOf(g, t.work, R67iIsPartOf).None? ==> PubDate(g, t) == Fail(StopIteration)
    ensures FirstOf(g, t.work, R67iIsPartOf).Some? ==>
      PubDate(g, t) == Chain(g, FirstOf(g, t.work, R67iIsPartOf).value, PubDateHops[1..])
  {
    assert PubDateHops == [R67iIsPartOf] + PubDateHops[1..];
    ChainAppend(g, t.work, [R67iIsPartOf], PubDateHops[1..]);
  }

  /** The first element of a list read positionally, or its `IndexError`. */
  function Head(xs: seq<Term>): (r: Result<Term, Error>)
    ensures r.Ok? <==> |xs| > 0
    ensures r.Ok? ==> r.value == xs[0]
    ensures r.Fail? ==> r.error == IndexError
  {
    if |xs| == 0 then Fail(IndexError) else Ok(xs[0])
  }

  /** The first of `ids` has a first name: the list is non-empty and the
      first person's last appellation carries a string. */
  ghost predicate FirstNamed(g: Graph, ids: seq<Term>) {
    |ids| > 0 && LastAppellationNamed(g, ids[0])
  }

  /** That first name: `names[0]` of the first person's fresh view. */
  ghost function FirstNameOf(g: Graph, ids: seq<Term>): Term
    requires FirstNamed(g, ids)
  {
    ResolvedNamesNonEmpty(g, ids[0]);
    ResolveNames(g, ids[0])[0]
  }

  /** `people[0].names[0]`. */
  function FirstName(g: Graph, people: seq<PersonView>): (r: Result<Term, Error>)
    ensures |people| == 0 ==> r == Fail(IndexError)
    ensures r.Fail? ==> r.error == IndexError
    ensures |people| > 0 && people[0].names.Some? ==>
      (r.Ok? <==> |people[0].names.value| > 0) && (r.Ok? ==> r.value == people[0].names.value[0])
    ensures |people| > 0 && people[0].names.None? ==>
      (r.Ok? <==> LastAppellationNamed(g, people[0].id)) &&
      (r.Ok? ==> r.value == ResolveNames(g, people[0].id)[0])
  {
    if |people| == 0 then Fail(IndexError) else PersonToDict(g, people[0]).0
  }

  /** The flat record of `Translation.to_dict`. */
  datatype TranslationRecord = TranslationRecord(
    magazine: Term,
    issue: Term,
    pubDate: Term,
    author: Term,
    title: Term,
    translator: Term,
    genre: Term,
    sourceLanguage: Term,
    targetLanguage: Term)

  /** No hop of the magazine, issue or date chain comes up empty. */
  ghost predicate PlacementResolves(g: Graph, t: Translation) {
    && !HasEmptyHop(g, t.work, MagazineHops)
    && !HasEmptyHop(g, t.work, IssueHops)
    && !HasEmptyHop(g, t.work, PubDateHops)
  }

  /** The first author and the first translator have a first name, and the
      work has a title. */
  ghost predicate CreditsResolve(g: Graph, t: Translation) {
    && FirstNamed(g, AuthorIds(g, t.expr))
    && HasObject(g, t.work, RdfsLabel)
    && FirstNamed(g, TranslatorIds(g, t.expr))
  }

  /** The work has a type and both languages have a label. */
  ghost predicate ClassificationResolves(g: Graph, t: Translation) {
    HasObject(g, t.work, P2HasType) && HasObject(g, t.sl, RdfsLabel) && HasObject(g, t.tl, RdfsLabel)
  }

  /** The first three fields of `Translation.to_dict`: magazine, issue and
      publication date, in that order. */
  function Placement(g: Graph, t: Translation): (r: Result<(Term, Term, Term), Error>)
    ensures r.Ok? <==> PlacementResolves(g, t)
    ensures r.Fail? ==> r.error == StopIteration
    ensures r.Ok? ==>
      && FirstPath(g, t.work, MagazineHops, r.value.0)
      && FirstPath(g, t.work, IssueHops, r.value.1)
      && FirstPath(g, t.work, PubDateHops, r.value.2)
  {
    var magazine :- Magazine(g, t);
    var issue :- Issue(g, t);
    var pubDate :- PubDate(g, t);
    Ok((magazine, issue, pubDate))
  }

  /** A placement that resolves keeps its magazine, issue and date after an
      import: an import only appends triples, and appended triples never
      displace a first object. */
  lemma PlacementSurvivesMerge(g: Graph, ts: seq<Triple>, t: Translation)
    requires PlacementResolves(g, t)
    ensures Placement(Merge(g, ts), t) == Placement(g, t)
  {
    ChainFailsAtEmptyHop(g, t.work, MagazineHops);
    ChainFailsAtEmptyHop(g, t.work, IssueHops);
    ChainFailsAtEmptyHop(g, t.work, PubDateHops);
    ChainSurvivesMerge(g, ts, t.work, MagazineHops);
    ChainSurvivesMerge(g, ts, t.work, IssueHops);
    ChainSurvivesMerge(g, ts, t.work, PubDateHops);
  }

  /** `authors[0].names[0]`. For an empty cell it succeeds exactly when the
      first author has a first name, and returns it; a filled cell is used
      as it stands. */
  function AuthorName(g: Graph, t: Translation): (r: Result<Term, Error>)
    ensures r.Fail? ==> r.error == IndexError
    ensures t.authors.None? ==> (r.Ok? <==> FirstNamed(g, AuthorIds(g, t.expr)))
    ensures t.authors.None? && r.Ok? ==>
      FirstNamed(g, AuthorIds(g, t.expr)) && r.value == FirstNameOf(g, AuthorIds(g, t.expr))
    ensures t.authors.Some? ==> r == FirstName(g, t.authors.value)
  {
    FirstName(g, Authors(g, t).0)
  }

  /** `titles[0]`: the work's first label, failing when it has none. */
  function Title(g: Graph, t: Translation): (r: Result<Term, Error>)
    ensures r.Ok? <==> HasObject(g, t.work, RdfsLabel)
    ensures r.Ok? ==> IsFirstMatch(g, t.work, RdfsLabel, r.value)
    ensures r.Fail? ==> r.error == IndexError
  {
    var titles := Titles(g, t);
    if |titles| > 0 then
      ObjectsHeadIsFirstMatch(g, t.work, RdfsLabel);
      assert titles[0] in titles;
      Head(titles)
    else Head(titles)
  }

  /** `translators[0].names[0]`, as `AuthorName` for the translators. */
  function TranslatorName(g: Graph, t: Translation): (r: Result<Term, Error>)
    ensures r.Fail? ==> r.error == IndexError
    ensures t.translators.None? ==> (r.Ok? <==> FirstNamed(g, TranslatorIds(g, t.expr)))
    ensures t.translators.None? && r.Ok? ==>
      FirstNamed(g, TranslatorIds(g, t.expr)) && r.value == FirstNameOf(g, TranslatorIds(g, t.expr))
    ensures t.translators.Some? ==> r == FirstName(g, t.translators.value)
  {
    FirstName(g, Translators(g, t).0)
  }

  /** The next three fields: author, title and translator, in that order. */
  function Credits(g: Graph, t: Translation): (r: Result<(Term, Term, Term), Error>)
    ensures r.Fail? ==> r.error == IndexError
    ensures (forall x :: Triple(t.work, RdfsLabel, x) !in g) ==> r.Fail?
    ensures t.authors.None? && t.translators.None? ==> (r.Ok? <==> CreditsResolve(g, t))
    ensures r.Ok? ==> IsFirstMatch(g, t.work, RdfsLabel, r.value.1)
    ensures r.Ok? && t.authors.None? ==>
      FirstNamed(g, AuthorIds(g, t.expr)) && r.value.0 == FirstNameOf(g, AuthorIds(g, t.expr))
    ensures r.Ok? && t.translators.None? ==>
      FirstNamed(g, TranslatorIds(g, t.expr)) && r.value.2 == FirstNameOf(g, TranslatorIds(g, t.expr))
  {
    var author :- AuthorName(g, t);
    var title :- Title(g, t);
    var translator :- TranslatorName(g, t);
    Ok((author, title, translator))
  }

  /** The last three fields: genre, source language and target language. */
  function Classification(g: Graph, t: Translation): (r: Result<(Term, Term, Term), Error>)
    ensures r.Ok? <==> ClassificationResolves(g, t)
    ensures r.Fail? ==> r.error == StopIteration
    ensures r.Ok? ==>
      && IsFirstMatch(g, t.work, P2HasType, r.value.0)
      && IsFirstMatch(g, t.sl, RdfsLabel, r.value.1)
      && IsFirstMatch(g, t.tl, RdfsLabel, r.value.2)
  {
    var genre :- Genre(g, t);
    var sl :- SourceLanguage(g, t);
    var tl :- TargetLanguage(g, t);
    Ok((genre, sl, tl))
  }

  /** `Translation.to_dict`: the fields in the order the source evaluates
      them. It succeeds exactly when its three parts do, the first failing
      part decides the error, and the record lays the parts' fields out in
      order. */
  function ToDict(g: Graph, t: Translation): (r: Result<TranslationRecord, Error>)
    ensures r.Ok? <==> Placement(g, t).Ok? && Credits(g, t).Ok? && Classification(g, t).Ok?
    ensures r.Fail? ==>
      r.error == if Placement(g, t).Fail? then StopIteration
                 else if Credits(g, t).Fail? then IndexError
                 else StopIteration
    ensures r.Ok? ==>
      && r.value.magazine == Placement(g, t).value.0
      && r.value.issue == Placement(g, t).value.1
      && r.value.pubDate == Placement(g, t).value.2
      && r.value.author == Credits(g, t).value.0
      && r.value.title == Credits(g, t).value.1
      && r.value.translator == Credits(g, t).value.2
      && r.value.genre == Classification(g, t).value.0
      && r.value.sourceLanguage == Classification(g, t).value.1
      && r.value.targetLanguage == Classification(g, t).value.2
  {
    var place :- Placement(g, t);
    var credits :- Credits(g, t);
    var kind :- Classification(g, t);
    Ok(TranslationRecord(place.0, place.1, place.2, credits.0, credits.1, credits.2, kind.0, kind.1, kind.2))
  }

  /** For a view with empty cells, as `translations()` hands out,
      `to_dict` succeeds exactly when every chain resolves, the first author
      and translator are named, and the title, genre and language labels
      exist; otherwise the first of those to fail decides the error. */
  lemma FreshToDict(g: Graph, t: Translation)
    ensures t.authors.None? && t.translators.None? ==>
      (ToDict(g, t).Ok? <==> PlacementResolves(g, t) && CreditsResolve(g, t) && ClassificationResolves(g, t))
    ensures t.authors.None? && t.translators.None? && ToDict(g, t).Fail? ==>
      ToDict(g, t).error == if !PlacementResolves(g, t) then StopIteration
                            else if !CreditsResolve(g, t) then IndexError
                            else StopIteration
  {
  }

  /** Each field of a successful record is what its accessor promises:
      the first-object paths for the placement fields, ... */
  lemma ToDictPlacementFields(g: Graph, t: Translation)
    ensures ToDict(g, t).Ok? ==>
      && FirstPath(g, t.work, MagazineHops, ToDict(g, t).value.magazine)
      && FirstPath(g, t.work, IssueHops, ToDict(g, t).value.issue)
      && FirstPath(g, t.work, PubDateHops, ToDict(g, t).value.pubDate)
  {
  }

  /** ... the first title and, for an empty cell, the first name of the
      first author ... */
  lemma ToDictCreditFields(g: Graph, t: Translation)
    ensures ToDict(g, t).Ok? ==> IsFirstMatch(g, t.work, RdfsLabel, ToDict(g, t).value.title)
    ensures ToDict(g, t).Ok? && t.authors.None? ==>
      FirstNamed(g, AuthorIds(g, t.expr)) &&
      ToDict(g, t).value.author == FirstNameOf(g, AuthorIds(g, t.expr))
  {
    if ToDict(g, t).Ok? {
      assert Credits(g, t).Ok?;
    }
  }

  /** ... likewise the first name of the first translator ... */
  lemma ToDictTranslatorField(g: Graph, t: Translation)
    ensures ToDict(g, t).Ok? && t.translators.None? ==>
      FirstNamed(g, TranslatorIds(g, t.expr)) &&
      ToDict(g, t).value.translator == FirstNameOf(g, TranslatorIds(g, t.expr))
  {
    if ToDict(g, t).Ok? {
      assert Credits(g, t).Ok?;
    }
  }

  /** ... and the first type and language labels. */
  lemma ToDictKindFields(g: Graph, t: Translation)
    ensures ToDict(g, t).Ok? ==>
      && IsFirstMatch(g, t.work, P2HasType, ToDict(g, t).value.genre)
      && IsFirstMatch(g, t.sl, RdfsLabel, ToDict(g, t).value.sourceLanguage)
      && IsFirstMatch(g, t.tl, RdfsLabel, ToDict(g, t).value.targetLanguage)
  {
  }

  /** With no part-of issue, or no title, `to_dict` fails. */
  lemma ToDictNeedsIssueAndTitle(g: Graph, t: Translation)
    ensures FirstOf(g, t.work, R67iIsPartOf).None? ==> ToDict(g, t) == Fail(StopIteration)
    ensures (forall x :: Triple(t.work, RdfsLabel, x) !in g) ==> ToDict(g, t).Fail?
  {
    ChainsShareFirstIssue(g, t);
  }
}
