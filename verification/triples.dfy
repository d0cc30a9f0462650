/** The fact store as a finite sequence of (subject, predicate, object)
    triples, and the single-hop lookups the entity views are built from.
    A sequence rather than a set gives "the first object" a definite meaning:
    the object of the earliest matching triple. */
module Triples {
  import opened Wrappers
  import opened Seqs

  /** A graph node: an IRI, a blank node, or a literal. As in RDF, a literal
      is its lexical form with an optional datatype IRI and an optional
      language tag, and two literals are the same node only when all three
      agree: "1920", "1920"^^xsd:gYear and "1920"@en are three nodes. */
  datatype Term =
    | Iri(iri: string)
    | Blank(id: string)
    | Literal(lexical: string, datatypeIri: Option<string>, lang: Option<string>)

  /** The predicates the knowledge base reads, named after their vocabulary
      terms (LRM, CIDOC-CRM, schema.org, RDF, RDFS), and any other IRI. */
  datatype Pred =
    | R13HasAppellation      // lrm:R13_has_appellation
    | R33HasString           // lrm:R33_has_string
    | RdfsLabel              // rdfs:label
    | RdfType                // rdf:type
    | SchemaBirthDate        // schema:birthDate
    | SchemaDeathDate        // schema:deathDate
    | SchemaGender           // schema:gender
    | SchemaNationality      // schema:nationality
    | P72HasLanguage         // crm:P72_has_language
    | R76iIsDerivativeOf     // lrm:R76i_is_derivative_of
    | R17iWasCreatedBy       // lrm:R17i_was_created_by
    | P14iPerformed          // crm:P14i_performed
    | R67iIsPartOf           // lrm:R67i_is_part_of
    | R3iIsRealisedBy        // lrm:R3i_is_realised_by
    | R3Realises             // lrm:R3_realises
    | R4iIsEmbodiedIn        // lrm:R4i_is_embodied_in
    | R24iWasCreatedBy       // lrm:R24i_was_created_by
    | P4HasTimeSpan          // crm:P4_has_time_span
    | P82AtSomeTimeWithin    // lrm:P82_at_some_time_within
    | P2HasType              // lrm:P2_has_type
    | OtherPredicate(iri: string)

  datatype Triple = Triple(s: Term, p: Pred, o: Term)

  type Graph = seq<Triple>

  /** The exception a failed property access raises. */
  datatype Error = StopIteration | IndexError

  /** The objects of the triples with subject `s` and predicate `p`, in
      graph order (`graph.objects(s, p)`). */
  function Objects(g: Graph, s: Term, p: Pred): (r: seq<Term>)
    ensures forall o :: o in r <==> Triple(s, p, o) in g
    ensures |r| <= |g|
  {
    if |g| == 0 then []
    else
      var rest := Objects(g[1..], s, p);
      assert forall t :: t in g <==> t == g[0] || t in g[1..];
      (if g[0].s == s && g[0].p == p then [g[0].o] else []) + rest
  }

  /** In a store without duplicate triples, a lookup lists each object once. */
  lemma {:induction false} ObjectsNoDup(g: Graph, s: Term, p: Pred)
    requires NoDup(g)
    ensures NoDup(Objects(g, s, p))
    decreases |g|
  {
    if |g| > 0 {
      var rest := Objects(g[1..], s, p);
      assert NoDup(g[1..]) by {
        forall i, j | 0 <= i < j < |g[1..]|
          ensures g[1..][i] != g[1..][j]
        {
          assert g[1..][i] == g[i + 1] && g[1..][j] == g[j + 1];
        }
      }
      ObjectsNoDup(g[1..], s, p);
      var head := if g[0].s == s && g[0].p == p then [g[0].o] else [];
      assert Objects(g, s, p) == head + rest;
      assert forall o :: o in head ==> o !in rest by {
        forall o | o in head
          ensures o !in rest
        {
          assert g[0] == Triple(s, p, o);
          forall k | 0 <= k < |g[1..]|
            ensures g[1..][k] != g[0]
          {
            assert g[1..][k] == g[k + 1];
          }
        }
      }
      NoDupAppend(head, rest);
    }
  }

  /** The subjects of the triples with predicate `p` and object `o`, in graph
      order (the pattern `?x p o` with `?x` free). */
  function Subjects(g: Graph, p: Pred, o: Term): (r: seq<Term>)
    ensures forall s :: s in r <==> Triple(s, p, o) in g
  {
    if |g| == 0 then []
    else
      var rest := Subjects(g[1..], p, o);
      assert forall t :: t in g <==> t == g[0] || t in g[1..];
      (if g[0].p == p && g[0].o == o then [g[0].s] else []) + rest
  }

  /** Some triple has subject `s` and predicate `p`. */
  ghost predicate HasObject(g: Graph, s: Term, p: Pred) {
    exists o :: Triple(s, p, o) in g
  }

  /** `o` is the object of the earliest triple with subject `s` and
      predicate `p`. */
  ghost predicate IsFirstMatch(g: Graph, s: Term, p: Pred, o: Term) {
    exists i :: 0 <= i < |g| && g[i] == Triple(s, p, o) &&
      forall j :: 0 <= j < i ==> !(g[j].s == s && g[j].p == p)
  }

  lemma {:induction false} ObjectsHeadIsFirstMatch(g: Graph, s: Term, p: Pred)
    requires |Objects(g, s, p)| > 0
    ensures IsFirstMatch(g, s, p, Objects(g, s, p)[0])
  {
    if g[0].s == s && g[0].p == p {
      assert g[0] == Triple(s, p, Objects(g, s, p)[0]);
    } else {
      var g' := g[1..];
      assert Objects(g, s, p) == Objects(g', s, p);
      ObjectsHeadIsFirstMatch(g', s, p);
      var i :| 0 <= i < |g'| && g'[i] == Triple(s, p, Objects(g', s, p)[0]) &&
        forall j :: 0 <= j < i ==> !(g'[j].s == s && g'[j].p == p);
      assert g[i + 1] == g'[i];
      forall j | 0 <= j < i + 1
        ensures !(g[j].s == s && g[j].p == p)
      {
        if j > 0 {
          assert g[j] == g'[j - 1];
        }
      }
    }
  }

  /** `next(graph.objects(s, p))` inside `try ... except StopIteration:
      return None`: the first object, or `None` when there is none. */
  function FirstOf(g: Graph, s: Term, p: Pred): (r: Option<Term>)
    ensures r.None? <==> forall o :: Triple(s, p, o) !in g
    ensures r.Some? ==> IsFirstMatch(g, s, p, r.value)
  {
    var os := Objects(g, s, p);
    if |os| == 0 then None
    else
      ObjectsHeadIsFirstMatch(g, s, p);
      Some(os[0])
  }

  /** A bare `next(graph.objects(s, p))`: the first object, or the
      `StopIteration` it raises when there is none. */
  function Next(g: Graph, s: Term, p: Pred): (r: Result<Term, Error>)
    ensures r.Fail? <==> forall o :: Triple(s, p, o) !in g
    ensures r.Fail? ==> r.error == StopIteration
    ensures r.Ok? ==> IsFirstMatch(g, s, p, r.value)
  {
    match FirstOf(g, s, p)
    case None => Fail(StopIteration)
    case Some(o) => Ok(o)
  }

  /** The first match is unique: it is a property of the graph, not a choice. */
  lemma FirstMatchIsUnique(g: Graph, s: Term, p: Pred, o1: Term, o2: Term)
    requires IsFirstMatch(g, s, p, o1) && IsFirstMatch(g, s, p, o2)
    ensures o1 == o2
  {
    var i1 :| 0 <= i1 < |g| && g[i1] == Triple(s, p, o1) &&
      forall j :: 0 <= j < i1 ==> !(g[j].s == s && g[j].p == p);
    var i2 :| 0 <= i2 < |g| && g[i2] == Triple(s, p, o2) &&
      forall j :: 0 <= j < i2 ==> !(g[j].s == s && g[j].p == p);
    assert !(i1 < i2) && !(i2 < i1);
  }

  // ----- chains of first-object hops ---------------------------------------

  /** Follow `hops` from `start`, taking the first object at every hop, as
      the chained `next(graph.objects(...))` calls of `pubDate`, `magazine`
      and `issue` do; the first empty hop raises `StopIteration`. */
  function Chain(g: Graph, start: Term, hops: seq<Pred>): (r: Result<Term, Error>)
    ensures r.Ok? ==> Reaches(g, start, hops, r.value)
    ensures r.Fail? ==> r.error == StopIteration
    decreases |hops|
  {
    if |hops| == 0 then Ok(start)
    else
      match Next(g, start, hops[0])
      case Fail(e) => Fail(e)
      case Ok(n) =>
        assert Triple(start, hops[0], n) in g;
        Chain(g, n, hops[1..])
  }

  /** Some path of triples in `g` leads from `start` to `v` along `hops`
      (not necessarily through first objects). */
  ghost predicate Reaches(g: Graph, start: Term, hops: seq<Pred>, v: Term)
    decreases |hops|
  {
    if |hops| == 0 then v == start
    else exists n :: Triple(start, hops[0], n) in g && Reaches(g, n, hops[1..], v)
  }

  /** `v` is where `hops` lead from `start` when every hop takes the first
      object: the path the chained `next` calls walk. */
  ghost predicate FirstPath(g: Graph, start: Term, hops: seq<Pred>, v: Term) {
    exists path :: IsFirstPathVia(g, start, hops, path) && path[|hops|] == v
  }

  /** `path` lists the nodes of that walk: `start`, then the first object of
      each hop from the node before. */
  ghost predicate IsFirstPathVia(g: Graph, start: Term, hops: seq<Pred>, path: seq<Term>) {
    |path| == |hops| + 1 && path[0] == start &&
    forall k :: 0 <= k < |hops| ==> IsFirstMatch(g, path[k], hops[k], path[k + 1])
  }

  /** After a first hop to `n`, the first-object paths from `start` are those
      from `n` along the remaining hops. */
  lemma FirstPathStep(g: Graph, start: Term, hops: seq<Pred>, n: Term, v: Term)
    requires |hops| > 0 && IsFirstMatch(g, start, hops[0], n)
    ensures FirstPath(g, start, hops, v) <==> FirstPath(g, n, hops[1..], v)
  {
    if FirstPath(g, start, hops, v) {
      var path :| IsFirstPathVia(g, start, hops, path) && path[|hops|] == v;
      assert IsFirstMatch(g, path[0], hops[0], path[1]);
      FirstMatchIsUnique(g, start, hops[0], path[1], n);
      var rest := path[1..];
      forall k | 0 <= k < |hops[1..]|
        ensures IsFirstMatch(g, rest[k], hops[1..][k], rest[k + 1])
      {
        assert IsFirstMatch(g, path[k + 1], hops[k + 1], path[k + 2]);
      }
      assert IsFirstPathVia(g, n, hops[1..], rest);
    }
    if FirstPath(g, n, hops[1..], v) {
      var rest :| IsFirstPathVia(g, n, hops[1..], rest) && rest[|hops[1..]|] == v;
      var path := [start] + rest;
      forall k | 0 <= k < |hops|
        ensures IsFirstMatch(g, path[k], hops[k], path[k + 1])
      {
        if k > 0 {
          assert IsFirstMatch(g, rest[k - 1], hops[1..][k - 1], rest[k]);
        }
      }
      assert IsFirstPathVia(g, start, hops, path);
    }
  }

  /** A first match is a triple of the graph. */
  lemma FirstMatchIsMember(g: Graph, s: Term, p: Pred, o: Term)
    requires IsFirstMatch(g, s, p, o)
    ensures Triple(s, p, o) in g
  {
    var i :| 0 <= i < |g| && g[i] == Triple(s, p, o) &&
      forall j :: 0 <= j < i ==> !(g[j].s == s && g[j].p == p);
    assert g[i] in g;
  }

  /** The chain returns `v` exactly when `v` ends the first-object path. */
  lemma {:induction false} ChainIsFirstPath(g: Graph, start: Term, hops: seq<Pred>, v: Term)
    ensures Chain(g, start, hops) == Ok(v) <==> FirstPath(g, start, hops, v)
    decreases |hops|
  {
    if |hops| == 0 {
      assert IsFirstPathVia(g, start, hops, [start]);
    } else {
      match Next(g, start, hops[0])
      case Fail(_) =>
        forall path | IsFirstPathVia(g, start, hops, path)
          ensures false
        {
          assert IsFirstMatch(g, path[0], hops[0], path[1]);
          FirstMatchIsMember(g, start, hops[0], path[1]);
        }
      case Ok(n) =>
        ChainIsFirstPath(g, n, hops[1..], v);
        assert Chain(g, start, hops) == Chain(g, n, hops[1..]);
        FirstPathStep(g, start, hops, n, v);
    }
  }

  /** Every predicate of `hops` has at most one object per subject. */
  ghost predicate SingleValued(g: Graph, hops: seq<Pred>) {
    forall k, a, b :: 0 <= k < |hops| && a in g && b in g && a.p == hops[k] && b.p == hops[k] && a.s == b.s
      ==> a.o == b.o
  }

  /** When every hop predicate has at most one object per subject, the
      first-object chain reaches the only value there is to reach. */
  lemma {:induction false} SingleValuedChain(g: Graph, start: Term, hops: seq<Pred>, v: Term)
    requires SingleValued(g, hops) && Reaches(g, start, hops, v)
    ensures Chain(g, start, hops) == Ok(v)
    decreases |hops|
  {
    if |hops| > 0 {
      var m :| Triple(start, hops[0], m) in g && Reaches(g, m, hops[1..], v);
      SingleValuedHead(g, hops, start, m);
      SingleValuedTail(g, hops);
      SingleValuedChain(g, m, hops[1..], v);
      assert Chain(g, start, hops) == Chain(g, m, hops[1..]);
    }
  }

  /** Under a single-valued first hop, the one object is the first. */
  lemma SingleValuedHead(g: Graph, hops: seq<Pred>, start: Term, m: Term)
    requires SingleValued(g, hops) && |hops| > 0 && Triple(start, hops[0], m) in g
    ensures Next(g, start, hops[0]) == Ok(m)
  {
    var n := Next(g, start, hops[0]).value;
    var i :| 0 <= i < |g| && g[i] == Triple(start, hops[0], n) &&
      forall j :: 0 <= j < i ==> !(g[j].s == start && g[j].p == hops[0]);
    assert g[i] in g;
  }

  lemma SingleValuedTail(g: Graph, hops: seq<Pred>)
    requires SingleValued(g, hops) && |hops| > 0
    ensures SingleValued(g, hops[1..])
  {
    forall k, a, b | 0 <= k < |hops[1..]| && a in g && b in g && a.p == hops[1..][k] && b.p == hops[1..][k] && a.s == b.s
      ensures a.o == b.o
    {
      assert hops[1..][k] == hops[k + 1];
    }
  }

  /** Following `a + b` is following `a`, then `b` from where `a` ended. */
  lemma {:induction false} ChainAppend(g: Graph, start: Term, a: seq<Pred>, b: seq<Pred>)
    ensures Chain(g, start, a + b) ==
      match Chain(g, start, a)
      case Fail(e) => Fail(e)
      case Ok(m) => Chain(g, m, b)
    decreases |a|
  {
    if |a| == 0 {
      assert a + b == b;
    } else {
      assert (a + b)[0] == a[0];
      assert (a + b)[1..] == a[1..] + b;
      match Next(g, start, a[0])
      case Fail(_) =>
      case Ok(n) => ChainAppend(g, n, a[1..], b);
    }
  }

  /** Hop `k` of `hops` is the first one to come up empty: the first `k`
      hops, each taking the first object, lead to a node with no object for
      `hops[k]`. */
  ghost predicate EmptyHopAt(g: Graph, start: Term, hops: seq<Pred>, k: int) {
    0 <= k < |hops| &&
    exists v :: FirstPath(g, start, hops[..k], v) && !HasObject(g, v, hops[k])
  }

  /** Some hop of `hops`, reached through first objects, comes up empty. */
  ghost predicate HasEmptyHop(g: Graph, start: Term, hops: seq<Pred>) {
    exists k :: EmptyHopAt(g, start, hops, k)
  }

  /** A chain fails exactly when some hop comes up empty. */
  lemma {:induction false} ChainFailsAtEmptyHop(g: Graph, start: Term, hops: seq<Pred>)
    ensures Chain(g, start, hops).Fail? <==> HasEmptyHop(g, start, hops)
    decreases |hops|
  {
    if |hops| > 0 {
      assert hops[..0] == [];
      match Next(g, start, hops[0])
      case Fail(_) =>
        assert IsFirstPathVia(g, start, hops[..0], [start]);
        assert FirstPath(g, start, hops[..0], start);
        assert !HasObject(g, start, hops[0]);
        assert EmptyHopAt(g, start, hops, 0);
      case Ok(n) =>
        ChainFailsAtEmptyHop(g, n, hops[1..]);
        assert Chain(g, start, hops) == Chain(g, n, hops[1..]);
        FirstMatchIsMember(g, start, hops[0], n);
        forall v | FirstPath(g, start, hops[..0], v)
          ensures HasObject(g, v, hops[0])
        {
          var path :| IsFirstPathVia(g, start, hops[..0], path) && path[0] == v;
        }
        if HasEmptyHop(g, start, hops) {
          var k :| EmptyHopAt(g, start, hops, k);
          EmptyHopShift(g, start, hops, n, k - 1);
        }
        if HasEmptyHop(g, n, hops[1..]) {
          var k :| EmptyHopAt(g, n, hops[1..], k);
          EmptyHopShift(g, start, hops, n, k);
        }
    }
  }

  /** Past a first hop to the first object `n`, hop `k + 1` of the chain
      comes up empty exactly when hop `k` of the rest does, from `n`. */
  lemma EmptyHopShift(g: Graph, start: Term, hops: seq<Pred>, n: Term, k: int)
    requires |hops| > 0 && IsFirstMatch(g, start, hops[0], n)
    requires 0 <= k < |hops| - 1
    ensures EmptyHopAt(g, start, hops, k + 1) <==> EmptyHopAt(g, n, hops[1..], k)
  {
    assert hops[..k + 1][0] == hops[0];
    assert hops[..k + 1][1..] == hops[1..][..k];
    assert hops[k + 1] == hops[1..][k];
    forall v
      ensures FirstPath(g, start, hops[..k + 1], v) <==> FirstPath(g, n, hops[1..][..k], v)
    {
      FirstPathStep(g, start, hops[..k + 1], n, v);
    }
  }

  // ----- growing the graph ----------------------------------------------------

  /** The union an import performs: the triples of `ts` not yet present are
      appended, in order, so the store stays duplicate-free. */
  function Merge(g: Graph, ts: seq<Triple>): (r: Graph)
    ensures forall t :: t in r <==> t in g || t in ts
    ensures |r| >= |g| && r[..|g|] == g
    ensures NoDup(g) ==> NoDup(r)
    decreases |ts|
  {
    if |ts| == 0 then g
    else
      var g' := if ts[0] in g then g else g + [ts[0]];
      assert forall t :: t in ts <==> t == ts[0] || t in ts[1..];
      var r := Merge(g', ts[1..]);
      assert r[..|g|] == r[..|g'|][..|g|];
      r
  }

  /** Merging triples the store already holds leaves it as it is. */
  lemma {:induction false} MergeKnown(g: Graph, ts: seq<Triple>)
    requires forall t :: t in ts ==> t in g
    ensures Merge(g, ts) == g
    decreases |ts|
  {
    if |ts| > 0 {
      assert ts[0] in ts;
      forall t | t in ts[1..]
        ensures t in g
      {
        assert t in ts;
      }
      MergeKnown(g, ts[1..]);
    }
  }

  /** Importing the same triples twice is importing them once. */
  lemma MergeIdempotent(g: Graph, ts: seq<Triple>)
    ensures Merge(Merge(g, ts), ts) == Merge(g, ts)
  {
    MergeKnown(Merge(g, ts), ts);
  }

  /** Appending triples never changes an existing first match: a lookup that
      already had an answer keeps it after an import. */
  lemma {:induction false} FirstMatchSurvivesAppend(g: Graph, h: Graph, s: Term, p: Pred, o: Term)
    requires IsFirstMatch(g, s, p, o)
    ensures IsFirstMatch(g + h, s, p, o)
  {
    var i :| 0 <= i < |g| && g[i] == Triple(s, p, o) &&
      forall j :: 0 <= j < i ==> !(g[j].s == s && g[j].p == p);
    assert (g + h)[i] == g[i];
    forall j | 0 <= j < i
      ensures !((g + h)[j].s == s && (g + h)[j].p == p)
    {
      assert (g + h)[j] == g[j];
    }
  }

  /** An import never changes a first match that already existed: a lookup
      that had an answer keeps it. */
  lemma FirstMatchSurvivesMerge(g: Graph, ts: seq<Triple>, s: Term, p: Pred, o: Term)
    requires IsFirstMatch(g, s, p, o)
    ensures IsFirstMatch(Merge(g, ts), s, p, o)
  {
    var m := Merge(g, ts);
    assert m == g + m[|g|..];
    FirstMatchSurvivesAppend(g, m[|g|..], s, p, o);
  }

  /** A chain that resolves keeps its value after an import. */
  lemma ChainSurvivesMerge(g: Graph, ts: seq<Triple>, start: Term, hops: seq<Pred>)
    requires Chain(g, start, hops).Ok?
    ensures Chain(Merge(g, ts), start, hops) == Chain(g, start, hops)
  {
    var v := Chain(g, start, hops).value;
    var m := Merge(g, ts);
    ChainIsFirstPath(g, start, hops, v);
    var path :| IsFirstPathVia(g, start, hops, path) && path[|hops|] == v;
    forall k | 0 <= k < |hops|
      ensures IsFirstMatch(m, path[k], hops[k], path[k + 1])
    {
      FirstMatchSurvivesMerge(g, ts, path[k], hops[k], path[k + 1]);
    }
    assert IsFirstPathVia(m, start, hops, path);
    ChainIsFirstPath(m, start, hops, v);
  }
}
