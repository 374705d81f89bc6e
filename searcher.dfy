/** Query vectors and cosine ranking (searcher.py). A vector is an
    insertion-ordered dictionary from term to weight; its id (the source's
    `'doc keys'` / `'qu keys'` entry) is a separate field. `sqrt` is a
    parameter: only sqrt(0) = 0 and sqrt(x) > 0 for x > 0 are assumed,
    and only by the lemmas that need them. */
module Searcher {
  import opened Collections
  import opened StableSort
  import opened InvertedIndex

  type Entries = seq<(Token, real)>

  datatype SparseVector<Id> = SparseVector(id: Id, entries: Entries)
  type DocVector = SparseVector<DocId>
  type QueryVector = SparseVector<QueryId>

  /** One line of a ranking: 1-based rank, document id, similarity. */
  datatype Ranked = Ranked(rank: nat, doc: DocId, sim: real)

  ghost predicate SqrtLaws(sqrt: real -> real) {
    && sqrt(0.0) == 0.0
    && (forall x :: x > 0.0 ==> sqrt(x) > 0.0)
  }

  // ---------------------------------------------------------------------------
  // Query vectors.

  /** `query_tfidf[token] = 1.` for each token in order: every distinct token
      once, at its first position, with weight 1. */
  function UnitWeights(tokens: seq<Token>): (q: Entries)
    ensures DistinctKeys(q)
    ensures forall i :: 0 <= i < |q| ==> q[i].1 == 1.0
  {
    if tokens == [] then []
    else Put(UnitWeights(tokens[..|tokens| - 1]), tokens[|tokens| - 1], 1.0)
  }

  /** The vector's terms are exactly the query's tokens. */
  lemma {:induction false} UnitWeightsKeys(tokens: seq<Token>)
    ensures Elements(KeysOf(UnitWeights(tokens))) == Elements(tokens)
  {
    if tokens != [] {
      var init, last := tokens[..|tokens| - 1], tokens[|tokens| - 1];
      UnitWeightsKeys(init);
      PutKeys(UnitWeights(init), last, 1.0);
      ElementsSnoc(tokens);
    }
  }

  lemma ElementsSnoc<T>(s: seq<T>)
    requires s != []
    ensures Elements(s) == Elements(s[..|s| - 1]) + {s[|s| - 1]}
  {
    assert s == s[..|s| - 1] + [s[|s| - 1]];
  }

  /** Repeated tokens collapse: the vector has one entry per distinct token. */
  lemma UnitWeightsSize(tokens: seq<Token>)
    ensures |UnitWeights(tokens)| == |Elements(tokens)|
  {
    UnitWeightsKeys(tokens);
    var q := UnitWeights(tokens);
    var ks := KeysOf(q);
    assert Distinct(ks);
    DistinctCard(ks);
  }

  function QueryVectorOf(query: (QueryId, seq<Token>)): QueryVector {
    SparseVector(query.0, UnitWeights(query.1))
  }

  /** The inner loop of `calculate_queries_tfidf`: weight 1 for each token. */
  method QueryWeights(tokens: seq<Token>) returns (weights: Entries)
    ensures weights == UnitWeights(tokens)
  {
    weights := [];
    var j := 0;
    while j < |tokens|
      invariant 0 <= j <= |tokens|
      invariant weights == UnitWeights(tokens[..j])
    {
      assert tokens[..j + 1][..j] == tokens[..j];
      weights := Put(weights, tokens[j], 1.0);
      j := j + 1;
    }
    assert tokens[..j] == tokens;
  }

  /** `calculate_queries_tfidf`: one vector per query, in input order. */
  method CalculateQueriesTfidf(queries: seq<(QueryId, seq<Token>)>) returns (vectors: seq<QueryVector>)
    ensures |vectors| == |queries|
    ensures forall i :: 0 <= i < |queries| ==> vectors[i] == QueryVectorOf(queries[i])
  {
    vectors := [];
    var i := 0;
    while i < |queries|
      invariant 0 <= i <= |queries|
      invariant |vectors| == i
      invariant forall j :: 0 <= j < i ==> vectors[j] == QueryVectorOf(queries[j])
    {
      var weights := QueryWeights(queries[i].1);
      vectors := vectors + [SparseVector(queries[i].0, weights)];
      i := i + 1;
    }
  }

  // ---------------------------------------------------------------------------
  // Numerator and denominator.

  /** Sum over the document's terms of doc weight times query weight; a term
      the query lacks contributes nothing (the `KeyError` that is passed). */
  function Numerator(doc: Entries, query: Entries): real {
    if doc == [] then 0.0
    else
      var last := doc[|doc| - 1];
      Numerator(doc[..|doc| - 1], query)
        + match Get(query, last.0) {
            case Some(w) => last.1 * w
            case None => 0.0
          }
  }

  /** Squared document norm: every weight of the document, squared. */
  function DocNormSq(doc: Entries): real {
    if doc == [] then 0.0
    else DocNormSq(doc[..|doc| - 1]) + doc[|doc| - 1].1 * doc[|doc| - 1].1
  }

  /** Squared query norm over the query terms that are also document terms. */
  function QueryNormSq(doc: Entries, query: Entries): real {
    if query == [] then 0.0
    else
      var last := query[|query| - 1];
      QueryNormSq(doc, query[..|query| - 1])
        + if last.0 in KeysOf(doc) then last.1 * last.1 else 0.0
  }

  function Denominator(doc: Entries, query: Entries, sqrt: real -> real): real {
    sqrt(DocNormSq(doc)) * sqrt(QueryNormSq(doc, query))
  }

  /** The query terms the document also has, in query order. */
  function Shared(doc: Entries, query: Entries): (s: seq<Token>)
    ensures forall t :: t in s <==> t in KeysOf(query) && t in KeysOf(doc)
  {
    if query == [] then []
    else
      var init := query[..|query| - 1];
      var last := query[|query| - 1];
      assert KeysOf(query) == KeysOf(init) + [last.0];
      Shared(doc, init) + if last.0 in KeysOf(doc) then [last.0] else []
  }

  /** The inner loop of `cosine_similarity_minion` that accumulates
      `numerator`. */
  method NumeratorOf(doc: DocVector, query: QueryVector) returns (numerator: real)
    ensures numerator == Numerator(doc.entries, query.entries)
  {
    numerator := 0.0;
    var i := 0;
    while i < |doc.entries|
      invariant 0 <= i <= |doc.entries|
      invariant numerator == Numerator(doc.entries[..i], query.entries)
    {
      var (token, weight) := doc.entries[i];
      assert doc.entries[..i + 1][..i] == doc.entries[..i];
      var w := Get(query.entries, token);
      if w.Some? {
        numerator := numerator + weight * w.value;
      }
      i := i + 1;
    }
    assert doc.entries[..i] == doc.entries;
  }

  /** `denominator`: the document norm times the query norm restricted to
      the document's terms. */
  method DenominatorOf(doc: DocVector, query: QueryVector, sqrt: real -> real) returns (d: real)
    ensures d == Denominator(doc.entries, query.entries, sqrt)
  {
    var documentNorm := 0.0;
    var i := 0;
    while i < |doc.entries|
      invariant 0 <= i <= |doc.entries|
      invariant documentNorm == DocNormSq(doc.entries[..i])
    {
      assert doc.entries[..i + 1][..i] == doc.entries[..i];
      documentNorm := documentNorm + doc.entries[i].1 * doc.entries[i].1;
      i := i + 1;
    }
    assert doc.entries[..i] == doc.entries;
    documentNorm := sqrt(documentNorm);
    var queryNorm := 0.0;
    var j := 0;
    while j < |query.entries|
      invariant 0 <= j <= |query.entries|
      invariant queryNorm == QueryNormSq(doc.entries, query.entries[..j])
    {
      assert query.entries[..j + 1][..j] == query.entries[..j];
      var (key, item) := query.entries[j];
      if key in KeysOf(doc.entries) {
        queryNorm := queryNorm + item * item;
      }
      j := j + 1;
    }
    assert query.entries[..j] == query.entries;
    queryNorm := sqrt(queryNorm);
    d := documentNorm * queryNorm;
  }

  lemma {:induction false} DocNormSqNonNegative(doc: Entries)
    ensures DocNormSq(doc) >= 0.0
  {
    if doc != [] {
      DocNormSqNonNegative(doc[..|doc| - 1]);
    }
  }

  /** A document whose weights are all 0 has squared norm 0. */
  lemma {:induction false} DocNormSqZero(doc: Entries)
    requires forall i :: 0 <= i < |doc| ==> doc[i].1 == 0.0
    ensures DocNormSq(doc) == 0.0
  {
    if doc != [] {
      var init := doc[..|doc| - 1];
      assert forall i :: 0 <= i < |init| ==> init[i] == doc[i];
      DocNormSqZero(init);
    }
  }

  lemma MulPositive(a: real, b: real)
    requires a > 0.0 && b > 0.0
    ensures a * b > 0.0
  {
  }

  /** With unit query weights, the squared query norm is the number of
      shared terms. */
  lemma {:induction false} UnitQueryNormSq(doc: Entries, query: Entries)
    requires forall i :: 0 <= i < |query| ==> query[i].1 == 1.0
    ensures QueryNormSq(doc, query) == |Shared(doc, query)| as real
  {
    if query != [] {
      var init, last := query[..|query| - 1], query[|query| - 1];
      assert forall i :: 0 <= i < |init| ==> init[i] == query[i];
      UnitQueryNormSq(doc, init);
      assert last.1 == 1.0;
      var extra := if last.0 in KeysOf(doc) then [last.0] else [];
      assert Shared(doc, query) == Shared(doc, init) + extra;
      assert QueryNormSq(doc, query) == QueryNormSq(doc, init) + |extra| as real;
    }
  }

  /** The denominator is 0 exactly when the squared document norm is 0 or
      the document shares no term with a unit-weight query. */
  lemma DenominatorZero(doc: Entries, query: Entries, sqrt: real -> real)
    requires SqrtLaws(sqrt)
    requires forall i :: 0 <= i < |query| ==> query[i].1 == 1.0
    ensures Denominator(doc, query, sqrt) == 0.0
        <==> DocNormSq(doc) == 0.0 || Shared(doc, query) == []
  {
    DocNormSqNonNegative(doc);
    UnitQueryNormZero(doc, query);
    DenominatorZeroNorms(doc, query, sqrt);
  }

  /** The denominator is 0 exactly when one of the two squared norms is. */
  lemma DenominatorZeroNorms(doc: Entries, query: Entries, sqrt: real -> real)
    requires SqrtLaws(sqrt)
    requires DocNormSq(doc) >= 0.0 && QueryNormSq(doc, query) >= 0.0
    ensures Denominator(doc, query, sqrt) == 0.0 <==> DocNormSq(doc) == 0.0 || QueryNormSq(doc, query) == 0.0
  {
    NormsZero(DocNormSq(doc), QueryNormSq(doc, query), sqrt);
  }

  lemma UnitQueryNormZero(doc: Entries, query: Entries)
    requires forall i :: 0 <= i < |query| ==> query[i].1 == 1.0
    ensures QueryNormSq(doc, query) >= 0.0
    ensures QueryNormSq(doc, query) == 0.0 <==> Shared(doc, query) == []
  {
    UnitQueryNormSq(doc, query);
  }

  lemma NormsZero(a: real, b: real, sqrt: real -> real)
    requires SqrtLaws(sqrt) && a >= 0.0 && b >= 0.0
    ensures sqrt(a) * sqrt(b) == 0.0 <==> a == 0.0 || b == 0.0
  {
    ProductZero(sqrt(a), sqrt(b));
  }

  lemma ProductZero(x: real, y: real)
    requires x >= 0.0 && y >= 0.0
    ensures x * y == 0.0 <==> x == 0.0 || y == 0.0
  {
    if x > 0.0 && y > 0.0 {
      MulPositive(x, y);
    }
  }

  /** With a unit-weight query the numerator is the document's total weight
      on the query's terms. */
  lemma {:induction false} UnitQueryNumerator(doc: Entries, query: Entries)
    requires forall i :: 0 <= i < |query| ==> query[i].1 == 1.0
    ensures Numerator(doc, query) == WeightOn(doc, Elements(KeysOf(query)))
  {
    if doc != [] {
      UnitQueryNumerator(doc[..|doc| - 1], query);
      var last := doc[|doc| - 1];
      match Get(query, last.0) {
        case Some(w) =>
          var i :| 0 <= i < |query| && query[i] == (last.0, w);
        case None =>
      }
    }
  }

  /** Total weight of the document's entries whose term is in ts. */
  function WeightOn(doc: Entries, ts: set<Token>): real {
    if doc == [] then 0.0
    else
      var last := doc[|doc| - 1];
      WeightOn(doc[..|doc| - 1], ts) + if last.0 in ts then last.1 else 0.0
  }

  // ---------------------------------------------------------------------------
  // Scoring and ranking.

  /** `numerator/denominator`, or 0.0 when the division raises
      `ZeroDivisionError`. */
  function Similarity(doc: DocVector, query: QueryVector, sqrt: real -> real): real {
    var d := Denominator(doc.entries, query.entries, sqrt);
    if d == 0.0 then 0.0 else Numerator(doc.entries, query.entries) / d
  }

  /** Each document id with its similarity, in scoring order. */
  function Scored(docs: seq<DocVector>, query: QueryVector, sqrt: real -> real): (s: seq<(DocId, real)>)
    ensures |s| == |docs|
  {
    seq(|docs|, i requires 0 <= i < |docs| => (docs[i].id, Similarity(docs[i], query, sqrt)))
  }

  /** The `similarity` dictionary after scoring docs in order: a repeated
      document id keeps its first position and takes its last score. */
  function Scores(docs: seq<DocVector>, query: QueryVector, sqrt: real -> real): seq<(DocId, real)> {
    DictOf(Scored(docs, query, sqrt))
  }

  /** `no_match`: the ids of the documents, in order, whose denominator is 0. */
  function NoMatch(docs: seq<DocVector>, query: QueryVector, sqrt: real -> real): seq<DocId> {
    if docs == [] then []
    else
      var last := docs[|docs| - 1];
      NoMatch(docs[..|docs| - 1], query, sqrt)
        + if Denominator(last.entries, query.entries, sqrt) == 0.0 then [last.id] else []
  }

  function SimOf(p: (DocId, real)): real {
    p.1
  }

  /** Sorted pairs numbered from 1. */
  function Numbered(s: seq<(DocId, real)>): (r: seq<Ranked>)
    ensures |r| == |s|
  {
    seq(|s|, i requires 0 <= i < |s| => Ranked(i + 1, s[i].0, s[i].1))
  }

  /** The result of `cosine_similarity_minion`. */
  function Ranking(docs: seq<DocVector>, query: QueryVector, sqrt: real -> real): seq<Ranked> {
    Numbered(SortDesc(Scores(docs, query, sqrt), SimOf))
  }

  /** The scoring loop of `cosine_similarity_minion`: the `similarity`
      dictionary and the `no_match` list. */
  method ScoreDocuments(docs: seq<DocVector>, query: QueryVector, sqrt: real -> real)
    returns (similarity: seq<(DocId, real)>, noMatch: seq<DocId>)
    ensures similarity == Scores(docs, query, sqrt)
    ensures noMatch == NoMatch(docs, query, sqrt)
  {
    ghost var scored := Scored(docs, query, sqrt);
    similarity, noMatch := [], [];
    var i := 0;
    while i < |docs|
      invariant 0 <= i <= |docs|
      invariant similarity == DictOf(scored[..i])
      invariant noMatch == NoMatch(docs[..i], query, sqrt)
    {
      var document := docs[i];
      ScoreStep(docs, query, sqrt, i);
      var numerator := NumeratorOf(document, query);
      var d := DenominatorOf(document, query, sqrt);
      if d == 0.0 {
        similarity := Put(similarity, document.id, 0.0);
        noMatch := noMatch + [document.id];
      } else {
        similarity := Put(similarity, document.id, numerator / d);
      }
      i := i + 1;
    }
    assert docs[..i] == docs;
    assert scored[..i] == scored;
  }

  /** One pass of the scoring loop, on the specification side. */
  lemma ScoreStep(docs: seq<DocVector>, query: QueryVector, sqrt: real -> real, i: nat)
    requires i < |docs|
    ensures DictOf(Scored(docs, query, sqrt)[..i + 1])
         == Put(DictOf(Scored(docs, query, sqrt)[..i]), docs[i].id, Similarity(docs[i], query, sqrt))
    ensures NoMatch(docs[..i + 1], query, sqrt)
         == NoMatch(docs[..i], query, sqrt)
            + if Denominator(docs[i].entries, query.entries, sqrt) == 0.0 then [docs[i].id] else []
  {
    var scored := Scored(docs, query, sqrt);
    assert scored[..i + 1][..i] == scored[..i];
    assert docs[..i + 1][..i] == docs[..i];
  }

  /** The numbering loop: `(rank + 1, doc, similarity)` for each sorted pair. */
  method Number(ranked: seq<(DocId, real)>) returns (result: seq<Ranked>)
    ensures result == Numbered(ranked)
  {
    result := [];
    var rank := 0;
    while rank < |ranked|
      invariant 0 <= rank <= |ranked|
      invariant |result| == rank
      invariant forall j :: 0 <= j < rank ==> result[j] == Ranked(j + 1, ranked[j].0, ranked[j].1)
    {
      result := result + [Ranked(rank + 1, ranked[rank].0, ranked[rank].1)];
      rank := rank + 1;
    }
  }

  /** `cosine_similarity_minion`: score every document, sort the scores by
      descending similarity, and number them; also returns `no_match`. */
  method CosineSimilarityMinion(docs: seq<DocVector>, query: QueryVector, sqrt: real -> real)
    returns (result: seq<Ranked>, noMatch: seq<DocId>)
    ensures result == Ranking(docs, query, sqrt)
    ensures noMatch == NoMatch(docs, query, sqrt)
  {
    var similarity;
    similarity, noMatch := ScoreDocuments(docs, query, sqrt);
    var ranked := SortDesc(similarity, SimOf);
    result := Number(ranked);
  }

  /** `cosine_similarity`: one (query id, ranking) pair per query, in order. */
  method CosineSimilarity(docs: seq<DocVector>, queries: seq<QueryVector>, sqrt: real -> real)
    returns (similarities: seq<(QueryId, seq<Ranked>)>)
    ensures |similarities| == |queries|
    ensures forall i :: 0 <= i < |queries| ==>
              similarities[i] == (queries[i].id, Ranking(docs, queries[i], sqrt))
  {
    similarities := [];
    var i := 0;
    while i < |queries|
      invariant 0 <= i <= |queries|
      invariant |similarities| == i
      invariant forall j :: 0 <= j < i ==> similarities[j] == (queries[j].id, Ranking(docs, queries[j], sqrt))
    {
      var ranking, _ := CosineSimilarityMinion(docs, queries[i], sqrt);
      similarities := similarities + [(queries[i].id, ranking)];
      i := i + 1;
    }
  }

  // ---------------------------------------------------------------------------
  // Properties of the ranking.

  function DocIds(docs: seq<DocVector>): (ids: seq<DocId>)
    ensures |ids| == |docs|
  {
    seq(|docs|, i requires 0 <= i < |docs| => docs[i].id)
  }

  function RankedDocs(r: seq<Ranked>): (ids: seq<DocId>)
    ensures |ids| == |r|
  {
    seq(|r|, i requires 0 <= i < |r| => r[i].doc)
  }

  /** The scored ids are exactly the ids of the documents. */
  lemma ScoresKeys(docs: seq<DocVector>, query: QueryVector, sqrt: real -> real)
    ensures DistinctKeys(Scores(docs, query, sqrt))
    ensures Elements(KeysOf(Scores(docs, query, sqrt))) == Elements(DocIds(docs))
  {
    assert KeysOf(Scored(docs, query, sqrt)) == DocIds(docs);
    DictOfKeys(Scored(docs, query, sqrt));
  }

  /** With distinct document ids, the score table lists each document, in
      input order, with its own similarity. */
  lemma ScoresOfDistinct(docs: seq<DocVector>, query: QueryVector, sqrt: real -> real)
    requires Distinct(DocIds(docs))
    ensures |Scores(docs, query, sqrt)| == |docs|
    ensures forall i :: 0 <= i < |docs| ==>
              Scores(docs, query, sqrt)[i] == (docs[i].id, Similarity(docs[i], query, sqrt))
  {
    assert KeysOf(Scored(docs, query, sqrt)) == DocIds(docs);
    DictOfDistinct(Scored(docs, query, sqrt));
  }

  /** The ranking holds every scored document exactly once, numbered
      1, 2, ..., n in list order. */
  lemma RankingDocs(docs: seq<DocVector>, query: QueryVector, sqrt: real -> real)
    ensures Distinct(RankedDocs(Ranking(docs, query, sqrt)))
    ensures Elements(RankedDocs(Ranking(docs, query, sqrt))) == Elements(DocIds(docs))
    ensures forall i :: 0 <= i < |Ranking(docs, query, sqrt)| ==> Ranking(docs, query, sqrt)[i].rank == i + 1
  {
    var scores := Scores(docs, query, sqrt);
    var sorted := SortDesc(scores, SimOf);
    DistinctKeysPerm(sorted, scores);
    KeysPerm(sorted, scores);
    ScoresKeys(docs, query, sqrt);
    assert RankedDocs(Numbered(sorted)) == KeysOf(sorted);
  }

  /** Similarity never increases along the ranking. */
  lemma RankingDescending(docs: seq<DocVector>, query: QueryVector, sqrt: real -> real, i: nat, j: nat)
    requires i < j < |Ranking(docs, query, sqrt)|
    ensures Ranking(docs, query, sqrt)[i].sim >= Ranking(docs, query, sqrt)[j].sim
  {
    var sorted := SortDesc(Scores(docs, query, sqrt), SimOf);
    assert SimOf(sorted[i]) >= SimOf(sorted[j]);
  }

  /** The (document, similarity) pairs of a ranking, in rank order. */
  function RankedPairs(r: seq<Ranked>): seq<(DocId, real)> {
    seq(|r|, i requires 0 <= i < |r| => (r[i].doc, r[i].sim))
  }

  /** Ties keep scoring order: the documents with any one similarity value
      appear in the ranking in the order the score table has them. */
  lemma RankingStable(docs: seq<DocVector>, query: QueryVector, sqrt: real -> real, v: real)
    ensures WithKey(RankedPairs(Ranking(docs, query, sqrt)), SimOf, v)
         == WithKey(Scores(docs, query, sqrt), SimOf, v)
  {
    var sorted := SortDesc(Scores(docs, query, sqrt), SimOf);
    assert RankedPairs(Numbered(sorted)) == sorted;
    SortDescStable(Scores(docs, query, sqrt), SimOf, v);
  }

  /** The ranking holds exactly the pairs of the similarity dict, each as
      often as there, only rearranged. */
  lemma RankingPermutation(docs: seq<DocVector>, query: QueryVector, sqrt: real -> real)
    ensures multiset(RankedPairs(Ranking(docs, query, sqrt))) == multiset(Scores(docs, query, sqrt))
  {
    var sorted := SortDesc(Scores(docs, query, sqrt), SimOf);
    assert RankedPairs(Numbered(sorted)) == sorted;
  }

  /** A document lands in `no_match` exactly when its denominator is 0. */
  lemma {:induction false} NoMatchMembers(docs: seq<DocVector>, query: QueryVector, sqrt: real -> real, d: DocId)
    ensures d in NoMatch(docs, query, sqrt)
        <==> exists i :: 0 <= i < |docs| && docs[i].id == d
                      && Denominator(docs[i].entries, query.entries, sqrt) == 0.0
  {
    if docs != [] {
      var init := docs[..|docs| - 1];
      NoMatchMembers(init, query, sqrt, d);
      if d in NoMatch(init, query, sqrt) {
        var i :| 0 <= i < |init| && init[i].id == d
                 && Denominator(init[i].entries, query.entries, sqrt) == 0.0;
        assert docs[i] == init[i];
      }
      if exists i :: 0 <= i < |docs| && docs[i].id == d
                && Denominator(docs[i].entries, query.entries, sqrt) == 0.0 {
        var i :| 0 <= i < |docs| && docs[i].id == d
                 && Denominator(docs[i].entries, query.entries, sqrt) == 0.0;
        if i < |init| {
          assert init[i] == docs[i];
        }
      }
    }
  }

  /** A document that shares no term with a unit-weight query, or whose
      weights have squared norm 0, scores exactly 0.0 instead of raising. */
  lemma UnmatchedScoresZero(doc: DocVector, query: QueryVector, sqrt: real -> real)
    requires SqrtLaws(sqrt)
    requires forall i :: 0 <= i < |query.entries| ==> query.entries[i].1 == 1.0
    requires DocNormSq(doc.entries) == 0.0 || Shared(doc.entries, query.entries) == []
    ensures Similarity(doc, query, sqrt) == 0.0
  {
    DenominatorZero(doc.entries, query.entries, sqrt);
  }
}
