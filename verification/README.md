# Knowledge base of translations, modelled in Dafny

This project models the read side of `kb.py`, the knowledge base behind a
small Flask site about translated literature. The knowledge base keeps an
RDF graph of LRM / CIDOC-CRM facts: works, expressions, people, creation
events, issues, magazines and time spans. Over that graph it offers:

- entity views: `Person` (memoised `names`), `Translator` (label and
  biographical scalars) and `Translation` (languages, titles, authors,
  translators, and the multi-hop `pubDate`, `magazine` and `issue` chains);
- the flat records of `to_dict`;
- the `KnowledgeBase` facade. It holds the graph and two compute-once
  collections, `translations()` and `translators()`. Each is filled by a
  conjunctive pattern query with a filter. The facade also runs the facet
  queries.

The graph is a sequence of `Triple(s, p, o)` (`Triples.Graph`). "The first
object" of a lookup is the object of the earliest matching triple. Failures
are explicit:

- a bare `next(...)` becomes `Next`, a `Result` that fails with
  `StopIteration`;
- a `next(...)` guarded by `try/except StopIteration` becomes `FirstOf`, an
  `Option`;
- `xs[0]` on an empty list fails with `IndexError`.

Each SPARQL query is written as the nested iteration an executor performs
over the triple sequence. It is proved to return exactly the bindings its
pattern and filter describe.

Every memoised field (`_names`, `_authors`, `_translators`,
`_translations`, `_translators` of the facade) is an `Option` cell handled
by one compute-once function, `Memo.Force`. An access returns the value
together with the view or facade as the access left it.

Modules, one per file: `Wrappers`, `Seqs` (flat-map and duplicate removal),
`Triples` (store, lookups, chains, merge), `Memo`, `Entities` (the three
view classes), `Queries` (selection and facet queries), `KnowledgeBase`
(the facade and its invariant), and `Fixtures`. `Fixtures` holds two
concrete stores: one complete translation, and the same store with its
publication date's label missing.

Two places where the code does less than its names suggest. The model
follows the code in both:

- `Person.names` replaces its list for each appellation, so only the
  strings of the last appellation remain. The plural `names` and the loop
  over all appellations suggest accumulation; the assignment inside the
  loop discards the earlier strings.
- The language facets count query solutions per (language, label) group.
  A solution is a (translation, original, sl, tl, label) binding, not a
  distinct translation. So the counts add up to the number of solutions.
  The facet pattern also lacks the translation query's `R3` triple: a
  derivative expression that realises no work is counted by a facet but
  is not among the translations.

## Model

| member | source | states |
|---|---|---|
| Triples.Objects | kb.py:32-35 | the objects returned are exactly those of the triples with the given subject and predicate |
| Triples.ObjectsNoDup | kb.py:32-35 | in a store without repeated triples, a lookup lists each object once |
| Triples.Subjects | kb.py:128-130 | the subjects returned are exactly those of the triples with the given predicate and object (a pattern with a free subject) |
| Triples.ObjectsHeadIsFirstMatch | kb.py:47 | the head of a non-empty lookup is the object of the earliest matching triple |
| Triples.FirstOf | kb.py:49-54 | a guarded `next` gives `None` exactly when no triple matches, and otherwise the first match |
| Triples.Next | kb.py:47 | a bare `next` fails with `StopIteration` exactly when no triple matches, and otherwise gives the first match |
| Triples.FirstMatchIsUnique | kb.py:47 | the first match is determined by the graph: two first matches are equal |
| Triples.Chain | kb.py:154-163 | a chain of `next` hops fails only with `StopIteration`, and a value it returns is reachable along the hops (which path: `Triples.ChainIsFirstPath`) |
| Triples.ChainIsFirstPath | kb.py:154-163 | the chain returns `v` exactly when `v` ends the first-object path: each hop takes the earliest matching triple of the node before |
| Triples.FirstPathStep | kb.py:154-163 | after a first hop to the first object, the first-object paths are those from that object along the remaining hops |
| Triples.FirstMatchIsMember | kb.py:47 | a first match is a triple of the store |
| Triples.SingleValuedChain | kb.py:154-163 | when every hop predicate has at most one object per subject, any value reachable along the hops is the one the chain returns |
| Triples.ChainAppend | kb.py:165-176 | following hops `a + b` is following `a`, then `b` from where `a` ended, and a failure in `a` is the result |
| Triples.ChainFailsAtEmptyHop | kb.py:154-163 | a chain fails exactly when some hop, reached through first objects, has no object |
| Triples.EmptyHopShift | kb.py:154-163 | past a first hop to the first object, hop `k + 1` comes up empty exactly when hop `k` of the rest of the chain does |
| Triples.Merge | kb.py:241-245 | the merged store holds exactly the old and the imported triples; the old store is a prefix; no duplicates are introduced |
| Triples.MergeKnown | kb.py:241-245 | merging triples the store already holds leaves it unchanged |
| Triples.MergeIdempotent | kb.py:241-245 | merging the same triples twice equals merging them once |
| Triples.FirstMatchSurvivesAppend | kb.py:241-245 | appending triples never changes a first match that already existed |
| Triples.FirstMatchSurvivesMerge | kb.py:241-245 | an import never changes a first match that already existed |
| Triples.ChainSurvivesMerge | kb.py:241-245 | a chain that resolves returns the same value after an import |
| Seqs.FlatMap | kb.py:124-134 | an element is in the flat-map exactly when it comes from some input element, as a join over query solutions |
| Seqs.FlatMapNoDup | kb.py:124-134 | when the inputs are distinct, each part is duplicate-free and no two inputs share a result, the flat-map is duplicate-free |
| Seqs.NoDupAppend | kb.py:124-134 | two duplicate-free lists with nothing in common concatenate to a duplicate-free list |
| Seqs.OnlyElement | kb.py:340-352 | a duplicate-free list that holds `x` and nothing else is `[x]` |
| Seqs.Dedup | kb.py:142 | `DISTINCT` keeps the same elements, each at most once, and never lengthens the list |
| Memo.Force | kb.py:31-37 | an empty cell takes the computed value and becomes filled with it; a filled cell answers with its content and stays unchanged |
| Memo.ForceOnce | kb.py:123-135 | a second access answers as the first did and changes nothing, whatever it would compute now |
| Entities.People | kb.py:134 | one fresh view, with an empty names cell, per identifier, in order |
| Entities.ResolveNames | kb.py:30-37 | no appellation gives no names; every name is a string of some appellation; with appellations present, the names are exactly the strings of the last one |
| Entities.ResolvedNamesNonEmpty | kb.py:30-37 | the fresh names are non-empty exactly when the last appellation carries a string |
| Entities.CollectNames | kb.py:32-36 | the loop that overwrites the list for each appellation ends with the last appellation's strings |
| Entities.Names | kb.py:29-37 | the first access computes the names and fills the cell; a filled cell answers with its content |
| Entities.NamesComputedOnce | kb.py:31-37 | after the first access, a later access against any graph returns the same list and leaves the view unchanged |
| Entities.PersonToDict | kb.py:26-37 | returns `names[0]` together with the view whose names cell is now filled; fails only with `IndexError`, exactly when the names are empty; for a fresh view, exactly when the last appellation carries no string, and a returned name is a string of an appellation |
| Entities.TranslatorLabel | kb.py:45-47 | the label fails exactly when the person has no `rdfs:label`, and otherwise gives the first label |
| Entities.TranslatorToDict | kb.py:49-85 | the record fails (`StopIteration`) exactly when the label is missing; birth date, death date, gender and nationality are `None` exactly when the fact is absent, else the first such fact |
| Entities.SourceLanguage | kb.py:99-101 | the first label of the source language, failing exactly when it has none |
| Entities.TargetLanguage | kb.py:103-105 | the first label of the target language, failing exactly when it has none |
| Entities.Titles | kb.py:108-111 | the titles are exactly the labels of the translated work |
| Entities.Languages | kb.py:113-119 | succeeds exactly when every language of the expression has a label, and then gives, position by position, the first label of each language |
| Entities.CreatorsOf | kb.py:145-146 | exactly the people who performed a creation event of the expression |
| Entities.AuthorIds | kb.py:121-135 | exactly the performers of a creation of some original the expression derives from |
| Entities.TranslatorIds | kb.py:138-151 | exactly the performers of a creation of the expression itself, each once |
| Entities.AuthorsAreCreatorsOfOriginals | kb.py:128-146 | a person is an author of an expression exactly when it is a translator of one of the originals the expression derives from |
| Entities.Authors | kb.py:121-135 | the first access fills the authors cell with fresh views of the author query's rows; a filled cell answers unchanged |
| Entities.Translators | kb.py:138-151 | the first access fills the translators cell with fresh views of the distinct creators; a filled cell answers unchanged |
| Entities.AuthorsAndTranslatorsComputedOnce | kb.py:121-151 | both cells are computed at most once: later accesses against any graph return the first answer |
| Entities.PubDate | kb.py:154-163 | a returned date ends the first-object path through issue, expression, manifestation, creation, time span and label; it fails, with `StopIteration`, exactly when one of those hops is empty |
| Entities.Magazine | kb.py:165-170 | a returned magazine ends the first-object path issue, part-of object, label, so it is a label of a part-of object of a part-of issue; it fails, with `StopIteration`, exactly when a hop is empty |
| Entities.Issue | kb.py:172-176 | a returned issue ends the first-object path issue, label, so it is a label of a part-of issue of the work; it fails, with `StopIteration`, exactly when a hop is empty |
| Entities.Genre | kb.py:178-182 | the first type of the work, failing exactly when it has none |
| Entities.ChainsShareFirstIssue | kb.py:154-176 | with no part-of issue, `pubDate`, `magazine` and `issue` all fail; otherwise all three continue from the same first issue |
| Entities.Head | kb.py:191 | positional `[0]` succeeds exactly on a non-empty list and gives its first element; otherwise `IndexError` |
| Entities.FirstName | kb.py:190 | `people[0].names[0]`: `IndexError` on an empty list; otherwise it succeeds exactly when the first person has a name and returns the first one; for a fresh view, exactly when that person's last appellation carries a string |
| Entities.AuthorName | kb.py:190 | `authors[0].names[0]`: fails only with `IndexError`; for an empty cell it succeeds exactly when the first author has a first name, and returns it; a filled cell is used as it stands |
| Entities.Title | kb.py:191 | `titles[0]`: succeeds exactly when the work has a label and returns the first one; otherwise `IndexError` |
| Entities.TranslatorName | kb.py:192 | `translators[0].names[0]`: fails only with `IndexError`; for an empty cell it succeeds exactly when the first translator has a first name, and returns it; a filled cell is used as it stands |
| Entities.Placement | kb.py:187-189 | magazine, issue and date in that order: succeeds exactly when no hop of the three chains is empty, fails only with `StopIteration`, and each value ends its first-object path |
| Entities.PlacementSurvivesMerge | kb.py:154-176 | a magazine, issue and date that resolve stay the same after an import |
| Entities.Credits | kb.py:190-192 | author, title and translator in that order: fails only with `IndexError`; no title makes it fail; for empty cells it succeeds exactly when the first author and first translator have names and the work has a title; the title is the first label and, for empty cells, author and translator are the first names of the first author and first translator |
| Entities.Classification | kb.py:193-195 | genre and the two language labels in that order: succeeds exactly when the work has a type and both languages have a label; failures are `StopIteration`; each value is the first match of its lookup |
| Entities.ToDict | kb.py:185-196 | succeeds exactly when placement, credits and classification all do; the first failing part decides the error; the record lays their fields out in the order of the dictionary |
| Entities.FreshToDict | kb.py:185-196 | for a view with empty cells, the record succeeds exactly when the three chains resolve, the first author and translator have names, and the title, type and language labels exist; otherwise the first of those to fail decides the error |
| Entities.ToDictPlacementFields | kb.py:187-189 | the magazine, issue and date of a record end their first-object paths |
| Entities.ToDictCreditFields | kb.py:190-191 | the title of a record is the work's first label; for an empty cell, its author is the first name of the first author |
| Entities.ToDictTranslatorField | kb.py:192 | for an empty cell, the translator of a record is the first name of the first translator |
| Entities.ToDictKindFields | kb.py:193-195 | the genre and language labels of a record are the first matches of their lookups |
| Entities.ToDictNeedsIssueAndTitle | kb.py:185-196 | with no part-of issue the record fails with `StopIteration`; with no title it fails |
| Queries.WorkRows | kb.py:212-216 | with languages fixed, exactly one row per work the expression realises |
| Queries.TargetRows | kb.py:212-216 | with the source language fixed, exactly the rows whose target language differs from it |
| Queries.RowsOfDerivation | kb.py:212-216 | for one derivative triple, exactly the rows whose languages differ and whose expression realises the work |
| Queries.TranslationRows | kb.py:209-217 | a row is returned exactly when it matches the translation pattern, `sl != tl` included; in a store without repeated triples, each row once |
| Queries.LabelledCreatorsOf | kb.py:230-232 | exactly the creators of the expression who have a label |
| Queries.TranslatorRows | kb.py:228-233 | every qualifying person appears exactly once, and only people matching the translator pattern appear |
| Queries.LabelBindings | kb.py:263-267 | with all languages fixed, exactly one solution per label of the faceted language |
| Queries.TargetBindings | kb.py:263-267 | with the source language fixed, exactly the solutions whose target language differs from it |
| Queries.BindingsOfDerivation | kb.py:263-267 | for one derivative triple, exactly the facet solutions with different languages and a label for the faceted language |
| Queries.LanguageBindings | kb.py:259-268 | the facet's solution set is exactly the bindings matching its pattern and filter |
| Queries.Members | kb.py:269 | a group's members are exactly the solutions with its key |
| Queries.HasGroupAppend | kb.py:269 | appending a group adds exactly its key to the keys present |
| Queries.CountsMembersAppend | kb.py:269 | appending the group of a solution keeps every group's count equal to its number of members |
| Queries.GroupStep | kb.py:269 | emitting the group of an uncovered solution keeps the grouping invariant: distinct keys, exact counts, and a running total equal to the number of covered solutions |
| Queries.GroupCount | kb.py:260-269 | `GROUP BY` with `COUNT`: distinct keys, each count equals the size of its group and is positive, every solution's key has a group, and the counts add up to the number of solutions |
| Queries.LanguageGroup | kb.py:260-269 | a (language, label) group holds exactly the facet's solutions with that language and label |
| Queries.ToFacetRows | kb.py:273-275 | one `{lang, label, count}` row per group, in order, with the same counts |
| Queries.FacetRowsCount | kb.py:269-275 | a facet row built from a group carries that group's count of solutions |
| Queries.FacetRowsCover | kb.py:269-275 | every solution's (language, label) pair has a facet row |
| Queries.LanguageFacet | kb.py:258-294 | one row per distinct (language, label) pair; each count is the number of matching solutions and is positive; every solution's pair has a row; the counts add up to the number of solutions (source side and target side) |
| Queries.TranslationsAreFaceted | kb.py:209-217 | a match of the translation query, that is a row it returns, paired with a label of its faceted language, is a solution of that label's facet group (facet pattern at kb.py:263-267) |
| Queries.FacetedAreTranslations | kb.py:263-267 | a facet solution is a row of the translation query (kb.py:209-217) for every work its expression realises |
| Queries.MagazineFacet | kb.py:297-309 | distinct rows, exactly the (serial work, label) pairs |
| Queries.MagazineLabels | kb.py:297-309 | exactly one row per label of the given magazine |
| Queries.WorkGenres | kb.py:312-324 | exactly one row per type of the given work, each doubling as its own label |
| Queries.GenreFacet | kb.py:312-324 | distinct rows, exactly the types of works, each doubling as its own label |
| Queries.SpanLabels | kb.py:332-333 | the labels of a time span that lies within some duration |
| Queries.PubDateLabels | kb.py:329-333 | a label is listed exactly when it labels a time span, within some duration, of some creation event |
| Queries.DateRows | kb.py:327-337 | one row per date label, each doubling as its own label |
| Queries.PubDateFacet | kb.py:327-337 | distinct rows, exactly those date labels, each doubling as its own label |
| KnowledgeBase.Import | kb.py:241-245 | the store afterwards holds exactly the old and imported triples, with no triple repeated if none was before; both collection cells are left as they were |
| KnowledgeBase.ImportIdempotent | kb.py:241-245 | merging the same triples a second time changes nothing |
| KnowledgeBase.ViewsMirrorRows | kb.py:340-352 | the fresh views are exactly the views of the query rows, with empty cells, and distinct rows give distinct views |
| KnowledgeBase.BuildTranslations | kb.py:340-352 | every built translation is a match of the translation query with empty cells, every match is built, and in a store without repeated triples each once |
| KnowledgeBase.PeopleMirrorIds | kb.py:357-359 | fresh views keep the ids' distinctness and hold exactly the ids |
| KnowledgeBase.BuildTranslators | kb.py:354-360 | the built translators are distinct and are exactly the matches of the translator query, with empty cells |
| KnowledgeBase.Translations | kb.py:340-352 | the first call builds the list and fills the cell; a filled cell answers unchanged |
| KnowledgeBase.Translators | kb.py:354-360 | the first call builds the list and fills the cell; a filled cell answers unchanged |
| KnowledgeBase.CollectionsCachedOnce | kb.py:340-360 | a later call returns the identical list and leaves the facade unchanged, even after an import has changed the store |
| KnowledgeBase.RunKeepsCaches | kb.py:340-360 | once a collection cell is filled, no later sequence of imports and calls changes it |
| KnowledgeBase.MatchesGrow | kb.py:209-233 | matches of both selection queries survive a growing store |
| KnowledgeBase.StepKeepsSound | kb.py:340-360 | imports and collection calls keep every cached translation and translator a match in the current store |
| KnowledgeBase.RunKeepsSound | kb.py:212-233 | after any sequence of imports and calls, the store repeats no triple; the cached translations are distinct and each has different languages, derives from its original and realises its work; every cached translator appears once, performed a creation of a derivative expression, and has a label |
| KnowledgeBase.InitialIsSound | kb.py:201-204 | a new facade satisfies the invariant |
| Fixtures.OnlyObject | kb.py:47 | a lookup with a single object answers with it, whatever the triple order |
| Fixtures.OnlyName | kb.py:26-37 | a person with one appellation carrying one string is named by that string |
| Fixtures.OnlyRow | kb.py:209-217 | in the fixture, the translation query finds the one translation and nothing else, and in a store without repeated triples it is the whole list |
| Fixtures.OnlyTranslator | kb.py:228-233 | in the fixture, the translator list is the translator alone; the author, who has no label, is not listed |
| Fixtures.SingleHop | kb.py:154-163 | a hop along a lookup with one object moves the chain on to that object |
| Fixtures.PublicationChain | kb.py:154-163 | in a store holding one chain from the work to its time span, `pubDate` is the span's first label or its failure |
| Fixtures.MagazineAndIssue | kb.py:165-176 | in the fixture, `magazine` is M and `issue` is I |
| Fixtures.NamesOfRow | kb.py:190-192 | in the fixture, the first author is named X and the first translator T |
| Fixtures.RecordOfRow | kb.py:185-196 | in the complete fixture, the translation flattens to magazine M, issue I, date D, author X, the work's title, translator T, genre G and languages A and B |
| Fixtures.RecordWithoutDate | kb.py:154-196 | without the date label, magazine and issue still resolve but `pubDate` and the record fail with `StopIteration` |
| Fixtures.CompleteRoundTrip | kb.py:185-196 | importing the complete fixture into a new facade lists exactly one translation, whose record is the expected one, and exactly one translator |
| Fixtures.CompleteKB | kb.py:185-196 | the same for any facade with empty caches whose store holds exactly the complete facts, each once |
| Fixtures.MissingDateLabel | kb.py:154-163 | importing the fixture without the date label still lists exactly the one translation, but its date and record fail with `StopIteration` |

## Left out

- `import_data` file reading and RDF parsing are left out, because they are I/O and a foreign parser. So is the swallowed `FileNotFoundError` and its `print`. Only the union the parse performs on the store is modelled (`Triples.Merge`, `KnowledgeBase.Import`).
- rdflib's query compilation, namespace binding and `toPython()` literal conversion are left out, because they are foreign library calls. Values stay `Term`s. A literal keeps its lexical form, datatype IRI and language tag, so two literals are equal only when all three are; the `DISTINCT` of `pubdate_facet`, the `GROUP BY ?label` of the language facets and the store's duplicate-freedom tell `"1920"` and `"1920"@en` apart, as in RDF. The identifiers of the namespaces are kept as predicate names.
- The order of rows of the unordered SPARQL queries is left out, because the queries promise none. The model fixes one order: the order of the triple sequence.
- Queries.PubDateFacet: does not model the `ORDER BY ?label` lexical sort; it states only distinctness and which labels appear.
- The empty `facets()` stub (kb.py:248-256) is left out, because it does nothing.
- The Flask views that consume the `to_dict` records are left out, because they are not part of `kb.py`.
- Entities.ToDict: returns the record only. The cells that `authors` and `translators` fill along the way are dropped from the result, and so is the names cell filled on `authors[0]` and `translators[0]`. In the source they stay on the objects.
- Entities.FirstName: returns the name only; the names cell it fills on `people[0]` is dropped (`Entities.PersonToDict` returns it).
- KnowledgeBase.ImportIdempotent: states that merging the same triples twice changes nothing. Re-parsing a file gives its blank nodes fresh identities, so a second `import_data` of a file with blank nodes can add triples; parsing is not part of this model.
- Views are values here, so a cell filled through one copy of a view is not seen by another copy. In the source, the facade's cached list shares objects with its callers, so filled cells are shared.
- `Translator` adds no state to `Person`, so both are modelled by one view, `Entities.PersonView`.
