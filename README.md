# Vector-space retrieval pipeline, modelled in Dafny

This project models the algorithmic chain of a batch vector-space search
engine: inverted-index construction, TF-IDF weighting, query vectorisation,
cosine ranking, and the evaluation of rankings against ground-truth judgments
(precision/recall, the interpolated envelope, the averaged eleven-point
curve and NDCG). Every ratio is an exact `real`. `log10` and `sqrt` are
function parameters, and a lemma assumes only the laws it needs:
`log10(1.0) == 0.0`, `sqrt(0.0) == 0.0`, and `sqrt(x) > 0.0` for `x > 0.0`.

Modules, following the source files:

- `Collections`: `Result`/`Option`, `Count` (Python's `list.count`),
  duplicate-free sequences, and the insertion-ordered dictionary that
  Python's `dict` provides. The dictionary is a sequence of pairs: `Put` is
  `d[k] = v`, which keeps a present key's position, and `DictOf` stands for
  a run of assignments.
- `StableSort`: `sorted(..., key=..., reverse=True)` and
  `list.sort(reverse=True)`, a stable sort into non-increasing key order.
- `InvertedIndex` (inverted_index.py): `inverted_index_minion`, with the
  posting lists a reference function defines.
- `Indexer` (indexer.py): `get_doc_list`, `TF`, `IDF`, `TFIDF` and the
  transpose built in `write_tfidf`.
- `Searcher` (searcher.py): `calculate_queries_tfidf`, `denominator`,
  `cosine_similarity_minion`, `cosine_similarity`.
- `Performance` (performance.py): `precision_recall`,
  `interpolated_precision_recall`, `eleven_point_curve`.
- `Ndcg` (performance.py): the DCG/IDCG/NDCG loops of `ndcg`.

Each loop of the source is a `method` with a `while` loop. Its `ensures`
ties the result to a back-recursive specification function. The properties
the pipeline promises are lemmas about those functions. The source's
exceptions are values of `Result`:

- `KeyError` on `answers[query_key]`;
- `ZeroDivisionError`;
- `IndexError` on `result[0]` / `result[-1]` of an empty list;
- the `ValueError` of `int(r)`;
- `math domain error` from `log10(0)`.

Where a source dictionary's order is visible in the output, it is a
sequence of pairs: results, performance, curves, the similarity table and
the query vectors. Where order is not visible, it is a Dafny `map`: the
inverted index, `tf`, `idf`, `tfidf` and the answers.

## Model

| member | source | states |
|---|---|---|
| Collections.Count | indexer.py:138 | `list.count`: at most the length, positive exactly when the element occurs |
| Collections.Put | searcher.py:137 | `d[k] = v` on an insertion-ordered dict: a present key keeps its position and takes the new value, a new key goes to the end, keys stay distinct |
| Collections.DictOfKeys | searcher.py:183 | a run of dict assignments has exactly the assigned keys |
| Collections.DictOfDistinct | searcher.py:183 | assigning distinct keys gives back the pairs themselves, in order |
| Collections.Get | performance.py:138 | a dict lookup succeeds exactly for a present key, and returns that key's value |
| StableSort.SortDesc | searcher.py:191-193 | the sort result has the input's length, is in non-increasing key order and is a permutation of the input |
| StableSort.SortDescStable | searcher.py:191-193 | stability: the elements with any one key value appear in the output in their input order |
| StableSort.InsertSorted | searcher.py:191-193 | inserting into a sorted list keeps it sorted |
| InvertedIndex.Postings | inverted_index.py:178-181 | definition: the posting list of a token, each paired document in turn contributing its key once per occurrence |
| InvertedIndex.IndexOf | inverted_index.py:176-186 | definition: the index maps each token occurring in a paired document to its posting list |
| InvertedIndex.Zip | inverted_index.py:178 | `zip` pairs documents and keys by position, as long as the shorter list |
| InvertedIndex.BuildIndex | inverted_index.py:168-186 | the loops build exactly the reference index of the zipped documents, and the counter `i` ends at the total number of token occurrences |
| InvertedIndex.AddOccurrence | inverted_index.py:180-181 | one append (or a new one-element list) extends the inner-loop view of the index by one occurrence |
| InvertedIndex.IndexAfterDocument | inverted_index.py:178-182 | after a whole document the index is the reference index of the longer prefix |
| InvertedIndex.IndexKeys | inverted_index.py:178-181 | a token is a key of the index exactly when it occurs in some paired document |
| InvertedIndex.PostingsNonEmpty | inverted_index.py:180-181 | a posting list is non-empty exactly when its token occurs somewhere |
| InvertedIndex.PostingLength | inverted_index.py:179-181 | a posting list's length is the number of occurrences of its token across all paired documents |
| InvertedIndex.PostingsCountAt | inverted_index.py:178-181 | with distinct keys, a document's key occurs in a posting list as often as the token occurs in that document |
| InvertedIndex.DocumentFrequency | inverted_index.py:178-181 | the same, stated on the builder's inputs |
| InvertedIndex.PostingsForeignKey | inverted_index.py:178-181 | a key carried by no document is in no posting list |
| InvertedIndex.PostingsAppendOnly | inverted_index.py:180-181 | posting lists only grow at the end: a prefix of the documents gives a prefix of each list |
| InvertedIndex.IndexGrowsByAppending | inverted_index.py:180-181 | every token of a prefix's index is in the final index, with a prefix of its final posting list |
| InvertedIndex.ZipIgnoresSurplus | inverted_index.py:178 | documents or keys beyond the shorter list contribute nothing |
| InvertedIndex.EmptyIndex | inverted_index.py:176-186 | no documents, or only empty ones, give the empty index rather than an error |
| InvertedIndex.CounterIsTotalLength | inverted_index.py:177-182 | the counter `i` ends equal to the sum of all posting-list lengths |
| InvertedIndex.SumCountsCoversAll | inverted_index.py:182 | summing per-token counts over a duplicate-free list of all tokens counts every occurrence once |
| InvertedIndex.AllTokensInVocabulary | inverted_index.py:179 | every token occurrence belongs to the vocabulary |
| Indexer.DocSet | indexer.py:93-96 | definition: the set of ids that occur in some posting list |
| Indexer.CollectionSize | indexer.py:110-112 | definition: N, the number of distinct ids, which is `len(doc_list)` |
| Indexer.RawRow | indexer.py:136-138 | definition: one posting list's distinct ids, each with its count |
| Indexer.Scaled | indexer.py:141-143 | definition: every entry of a table divided by `maxf` |
| Indexer.Product | indexer.py:114-118 | definition: `tf[t][k] * idf[t]` for every term and id of `tf` |
| Indexer.RawTf | indexer.py:135-138 | definition: for each term, each distinct id of its list with `inv_ix[token].count(key)` |
| Indexer.TfOf | indexer.py:127-144 | definition: the frequencies `TF` returns, the raw counts over the global maximum count |
| Indexer.Idf | indexer.py:156 | definition: `log10(N / len(set(list_keys)))` for a non-empty list and N > 0 |
| Indexer.TfIdfOf | indexer.py:113-118 | definition: the matrix `TFIDF` returns, tf times idf, when no posting list is empty |
| Indexer.GetDocList | indexer.py:88-97 | the document list is duplicate-free and holds exactly the ids that occur in some posting list |
| Indexer.DocListLength | indexer.py:96 | its length is the number of distinct documents |
| Indexer.MaxCountIn | indexer.py:137-139 | a largest count among the given ids, attained when positive |
| Indexer.GlobalMax | indexer.py:134-139 | the largest raw count of any (term, document) pair of the whole index, or 0 without any pair |
| Indexer.GlobalMaxUnique | indexer.py:134-139 | that maximum is unique |
| Indexer.CountRow | indexer.py:137-139 | one posting list's raw counts, with `maxf` raised to any larger count and attained when raised |
| Indexer.CountTerms | indexer.py:133-139 | `tf[t][k]` is the count of k in `inv_ix[t]`, over the distinct ids of the list, and `maxf` ends as the global maximum |
| Indexer.Normalize | indexer.py:141-143 | every entry divided in place by `maxf`, with no other change |
| Indexer.TF | indexer.py:127-144 | `TF` returns the raw counts over the global maximum, and `maxf` is that maximum |
| Indexer.Normalized | indexer.py:141-143 | the normalised table has the index's terms and, per term, the distinct ids of its list |
| Indexer.TfBounds | indexer.py:141-143 | every normalised frequency lies in (0, 1], and is 1 exactly where the raw count is the global maximum |
| Indexer.NormalizedBounds | indexer.py:141-143 | the same for any maximum m |
| Indexer.TfOfNoPostings | indexer.py:134-144 | with no posting at all, `maxf` is 0 and no frequency exists, so nothing is divided |
| Indexer.IDF | indexer.py:148-158 | `IDF` fails exactly when some list is empty (division by zero) or, with at least one term, N is 0 (log10 domain); an index with no terms gives the empty table; otherwise idf[t] = log10(N / distinct ids) for every term |
| Indexer.IdfOf | indexer.py:155-156 | one IDF per term of the index |
| Indexer.DfBound | indexer.py:156 | a non-empty list has between 1 and N distinct ids |
| Indexer.IdfRatio | indexer.py:156 | the IDF ratio N / df is at least 1; it is exactly 1, and IDF 0, for a term in every document |
| Indexer.PostingInCollection | indexer.py:93-96 | every id of a posting list belongs to the document list |
| Indexer.PositiveSize | indexer.py:110-112 | with no empty list, N is positive for every term |
| Indexer.Multiply | indexer.py:114-118 | `tfidf[t][k] = tf[t][k] * idf[t]` over exactly `tf`'s term and document keys |
| Indexer.TFIDF | indexer.py:101-123 | `TFIDF` fails, by division by zero, exactly when some posting list is empty (never from log10); otherwise it returns the TF-IDF product and the document list |
| Indexer.UbiquitousTermWeighsZero | indexer.py:118 | a term in every document weighs 0 in all of them |
| Indexer.Transpose | indexer.py:170-171 | every listed document gets a row; `t[d][k]` exists exactly when d is a key of `m[k]`, and holds the same value |
| Indexer.TransposeRoundTrip | indexer.py:170-171 | transposing back over the term keys recovers the matrix |
| Indexer.TfIdfTranspose | indexer.py:170-171 | for the TF-IDF matrix over the document list, each document's row holds exactly the terms whose posting list names it, and the transpose round-trips |
| Searcher.QueryVectorOf | searcher.py:134-137 | definition: a query's vector, its key with weight 1.0 per distinct token |
| Searcher.Numerator | searcher.py:178-181 | definition: the sum over document terms of doc weight times query weight; a term the query lacks adds nothing |
| Searcher.DocNormSq | searcher.py:152-154 | definition: the sum of the squares of the document's weights |
| Searcher.QueryNormSq | searcher.py:157-160 | definition: the sum of the squared query weights over the query terms the document also has |
| Searcher.Denominator | searcher.py:147-163 | definition: sqrt of the document sum times sqrt of the query sum |
| Searcher.Similarity | searcher.py:183-185 | definition: numerator over denominator, or 0.0 where the division would raise `ZeroDivisionError` |
| Searcher.Scored | searcher.py:176-185 | definition: each document id with its similarity, in document order, before dict assignment |
| Searcher.NoMatch | searcher.py:183-186 | definition: the ids, in document order, of the documents whose denominator is 0 |
| Searcher.Numbered | searcher.py:196-199 | definition: each sorted pair as `(rank + 1, doc, sim)` |
| Searcher.Scores | searcher.py:176-186 | definition: the `similarity` dict after the documents are assigned in order |
| Searcher.Ranking | searcher.py:191-199 | definition: the similarity pairs sorted stably by descending similarity and numbered from 1 |
| Searcher.QueryWeights | searcher.py:134-137 | the inner loop gives the unit-weight vector of the tokens |
| Searcher.UnitWeights | searcher.py:134-137 | each term once, every weight 1.0 |
| Searcher.UnitWeightsKeys | searcher.py:136-137 | the vector's terms are exactly the query's tokens |
| Searcher.UnitWeightsSize | searcher.py:136-137 | repeated tokens collapse: one entry per distinct token |
| Searcher.CalculateQueriesTfidf | searcher.py:122-143 | one vector per query, in input order, each the query's key with its unit weights |
| Searcher.NumeratorOf | searcher.py:178-181 | the accumulated numerator is the sum over document terms of doc weight times query weight, with terms the query lacks contributing nothing |
| Searcher.DenominatorOf | searcher.py:147-163 | the loops compute sqrt(squared document norm) times sqrt(squared query norm over the shared terms) |
| Searcher.Shared | searcher.py:158-159 | the shared terms are the query terms that are also document terms |
| Searcher.DocNormSqNonNegative | searcher.py:152-154 | the squared document norm is non-negative |
| Searcher.DocNormSqZero | searcher.py:152-154 | a document with all weights 0 has squared norm 0 |
| Searcher.UnitQueryNormSq | searcher.py:157-161 | with unit weights the squared query norm is the number of shared terms |
| Searcher.UnitQueryNormZero | searcher.py:157-161 | that norm is 0 exactly when no term is shared |
| Searcher.DenominatorZeroNorms | searcher.py:155-163 | the denominator is 0 exactly when one of the squared norms is |
| Searcher.DenominatorZero | searcher.py:147-163 | for a unit-weight query, the denominator is 0 exactly when the document norm is 0 or no term is shared |
| Searcher.UnitQueryNumerator | searcher.py:178-181 | with unit weights the numerator is the document's total weight on the query's terms |
| Searcher.ScoreDocuments | searcher.py:176-186 | the scoring loop leaves the similarity dict of all documents in order and the ids whose denominator is 0 |
| Searcher.ScoreStep | searcher.py:183-186 | one pass assigns the document's similarity and appends its id to `no_match` exactly when its denominator is 0 |
| Searcher.Number | searcher.py:195-199 | the numbering loop gives `(rank + 1, doc, sim)` for each sorted pair |
| Searcher.CosineSimilarityMinion | searcher.py:167-202 | score, stable sort by descending similarity, number; also `no_match` |
| Searcher.CosineSimilarity | searcher.py:206-223 | one (query id, ranking) pair per query vector, in input order |
| Searcher.ScoresKeys | searcher.py:176-183 | the similarity dict has exactly the document ids as keys |
| Searcher.ScoresOfDistinct | searcher.py:176-183 | with distinct ids, the dict lists each document in input order with its own similarity |
| Searcher.RankingDocs | searcher.py:191-199 | the ranking lists every scored document exactly once, ranked 1..n in list order |
| Searcher.RankingDescending | searcher.py:191-193 | similarity never increases along the ranking |
| Searcher.RankingStable | searcher.py:191-193 | in the ranking's (document, similarity) pairs, ties keep the order of the similarity dict |
| Searcher.RankingPermutation | searcher.py:191-199 | the ranking's (document, similarity) pairs are exactly the similarity dict's pairs, with the same multiplicities, only rearranged |
| Searcher.NoMatchMembers | searcher.py:183-186 | a document is in `no_match` exactly when its denominator is 0 |
| Searcher.UnmatchedScoresZero | searcher.py:183-185 | a document that shares no term with a unit-weight query, or whose squared norm is 0, scores exactly 0.0 instead of raising |
| Performance.Matched | performance.py:143-147 | definition: the counter `p` after a prefix of the results, the sum of their hits |
| Performance.QueryPr | performance.py:138-149 | definition: one query's points; no points for an empty result, `ZeroDivisionError` for an empty ground truth with a non-empty result, otherwise the (p/t, p/n) points |
| Performance.Hits | performance.py:145-147 | matches of one result: at most the ground truth's length |
| Performance.PrPoints | performance.py:141-149 | one point per ranked result |
| Performance.QueryPrecisionRecall | performance.py:141-149 | the counters `t`, `p` produce point t = (p/t, p/n); an empty ground truth with a non-empty result divides by zero, an empty result gives no points |
| Performance.PrecisionRecall | performance.py:130-151 | the loop over the results computes the reference performance table |
| Performance.PerformanceOf | performance.py:136-151 | on success the performance table has distinct keys |
| Performance.PerformanceFailure | performance.py:138-148 | the run fails exactly when some query fails (missing key, or results with an empty ground truth), and with that query's error |
| Performance.PerformanceFailureStays | performance.py:137-149 | the first failure is the failure of the whole run |
| Performance.PerformanceEntries | performance.py:137-149 | on a results dict the table keeps the query order and stores each query's points under its key |
| Performance.PointAt | performance.py:142-148 | point t is (p/t, p/n) for a whole number p of hits: precision times t and recall times n are the same natural number, so each recall is a multiple of 1/n |
| Performance.RecallNonDecreasing | performance.py:147-148 | recall never decreases down the ranking |
| Performance.MatchedMonotone | performance.py:147 | the counter `p` never decreases |
| Performance.HitsAbsent | performance.py:145-147 | no hit without a ground-truth row for the document |
| Performance.HitsAtMostOne | performance.py:145-147 | a ground truth naming each document once gives at most one hit per result |
| Performance.MatchedAtMostLength | performance.py:143-147 | then `p` is at most the number of results examined |
| Performance.PrecisionInUnitRange | performance.py:148 | with a duplicate-free ground truth every precision lies in [0, 1] |
| Performance.MatchedSnocAnswer | performance.py:143-147 | counted by ground-truth row, one more row adds the results naming its document |
| Performance.MatchedAtMostAnswers | performance.py:143-147 | a ranking listing each document once has `p` at most n |
| Performance.RecallInUnitRange | performance.py:148 | for such a ranking every recall lies in [0, 1] |
| Performance.Curve | performance.py:162-167 | definition: the curve after k passes of the `for` loop, each pass appending `result[i]` then deleting below `result[i+1]`'s precision |
| Performance.Interpolated | performance.py:161-168 | definition: the curve plus `result[-1]`, or `IndexError` on an empty list |
| Performance.Envelope | performance.py:161-168 | definition, independent of the loop: the points that no later point beats on precision, in order |
| Performance.PopLess | performance.py:165-167 | the `while` deletes exactly the tail points less precise than v, stopping at a point at least as precise or at the empty list |
| Performance.PopTail | performance.py:165-167 | the deleting loop with its `break` computes PopLess |
| Performance.InterpolateQuery | performance.py:161-168 | one query's interpolation loop gives the reference curve, failing on an empty list |
| Performance.CurveIsEnvelope | performance.py:162-167 | after k passes, the curve plus `result[k]` is the envelope of the first k+1 points |
| Performance.EnvelopeSnoc | performance.py:163-167 | appending a point deletes the envelope's tail below it and adds the point |
| Performance.EnvelopeSnocStep | performance.py:163-167 | EnvelopeSnoc for a list, given it for the list without its head |
| Performance.EnvelopeSnocDropped | performance.py:163-167 | a head some later point beats stays out |
| Performance.EnvelopeSnocBeaten | performance.py:163-167 | a dominating head that the new point beats is deleted |
| Performance.EnvelopeSnocKept | performance.py:163-167 | a dominating head at least as precise as the new point is kept |
| Performance.PopLessKeepsHead | performance.py:165-167 | deleting below x never reaches a first point at least as precise as x |
| Performance.EnvelopeSnocHead | performance.py:165-167 | the head survives deletion below x exactly when something after it survives or it is at least as precise |
| Performance.PopLessAppend | performance.py:165-167 | deleting from the tail of u + w reaches into u only once w is gone |
| Performance.PopLessAllBelow | performance.py:165-167 | a curve entirely below v is deleted completely |
| Performance.HeadDominatesSnoc | performance.py:164 | a point dominates the extended list exactly when it dominates the list and the new point |
| Performance.InterpolatedIsEnvelope | performance.py:162-168 | the interpolated curve is the reference envelope |
| Performance.EnvelopeIn | performance.py:163 | every point of the curve is a raw point |
| Performance.EnvelopeSubseq | performance.py:162-168 | the curve is a subsequence of the raw points |
| Performance.EnvelopeNonIncreasing | performance.py:164-167 | precision never rises along the curve |
| Performance.EnvelopeOfNonIncreasing | performance.py:164-167 | a curve whose precision never rises is its own envelope |
| Performance.EnvelopeIdempotent | performance.py:154-170 | interpolating twice changes nothing |
| Performance.EnvelopeBounded | performance.py:163 | a bound on every raw precision bounds the curve |
| Performance.InterpolatedEnds | performance.py:162-168 | the raw last point always ends the curve, and a one-point list passes unchanged |
| Performance.InterpolatedPrecisionRecall | performance.py:154-170 | the loop over the queries gives the reference table |
| Performance.InterpolatedAll | performance.py:159-168 | on success the curve table has distinct keys |
| Performance.InterpolatedFailureStays | performance.py:160-168 | the first failure is the failure of the whole run |
| Performance.InterpolatedAllFailure | performance.py:160-168 | the run fails exactly when some query has no points (`result[-1]`) |
| Performance.InterpolatedEntriesSnoc | performance.py:160-168 | one more query keeps the stored curves in step with the queries |
| Performance.InterpolatedAllValues | performance.py:160-168 | on a dict each stored curve is its query's interpolation, under its key, in query order |
| Performance.InterpolatedAllEntries | performance.py:160-168 | on a dict each stored curve is its query's envelope, under its key, in query order |
| Performance.Level | performance.py:185 | definition: recall level j is exactly j/10 |
| Performance.Advance | performance.py:186-187 | the `while` deletes leading points below the level while more than one is left: the new first point reaches the level or is the last |
| Performance.Start | performance.py:185-187 | the first point left after the levels so far exists |
| Performance.DeleteBelow | performance.py:186-187 | the deleting loop at one level leaves exactly the points from Advance's position on: the first one with recall at or above the level, or the last one |
| Performance.QueryElevenPoints | performance.py:182-189 | one query's loops give the reference eleven points |
| Performance.CurvePoint | performance.py:184-189 | definition: point j of a query's curve: the first precision at recall 0, the last at 1, otherwise the first point left at level j/10 |
| Performance.QueryCurve | performance.py:183-189 | a query's curve has eleven points |
| Performance.QueryCurveShape | performance.py:184-189 | recall j/10 at position j, the first point's precision at 0 and the last point's at 1 |
| Performance.LevelPick | performance.py:185-188 | level j reads the first point not yet deleted: all before it are below j/10, and it reaches j/10 unless it is the last |
| Performance.StartMonotone | performance.py:185-187 | deletions only ever move forward through the list |
| Performance.Curves | performance.py:181-189 | one eleven-point curve per query |
| Performance.ElevenPointCurve | performance.py:174-197 | the loops give the reference averaged curve, failing on an empty per-query list or on no queries |
| Performance.ElevenPointOf | performance.py:174-197 | definition: `IndexError` when some list is empty, `ZeroDivisionError` with no queries, otherwise the mean precision at each of the eleven levels |
| Performance.ElevenPointShape | performance.py:191-194 | the averaged curve has eleven points at recall 0, 0.1, ..., 1 |
| Performance.SingleQueryAverage | performance.py:191-194 | averaging one query gives that query's curve |
| Performance.PrecisionSum | performance.py:193-194 | definition: the sum over the queries of the precision at position i |
| Performance.PrecisionSumBounds | performance.py:193 | the sum of precisions in [0, 1] lies between 0 and the number of queries |
| Performance.ElevenPointBounds | performance.py:191-194 | precisions in [0, 1] give averaged precisions in [0, 1] |
| Ndcg.Strip | performance.py:291 | definition: `str.strip()`, the string between the leading and the trailing white space |
| Ndcg.Relevance | performance.py:291-292 | definition: the digit sum of the stripped code |
| Ndcg.SpanStart | performance.py:291 | the first character that is not white space, with only white space before it |
| Ndcg.SpanEnd | performance.py:291 | the end of the last character that is not white space, with only white space after it |
| Ndcg.StripRemovesEnds | performance.py:291 | `strip()` removes white space from both ends only, and leaves none there |
| Ndcg.StripNoSpace | performance.py:291 | a string without white space at its ends is unchanged by `strip()` |
| Ndcg.StripExample | performance.py:291 | example: `" 1221 ".strip()` is `"1221"` |
| Ndcg.DigitSum | performance.py:291-292 | the digit sum succeeds exactly when every character is a digit, is at most 9 per character, and otherwise names the first character of the string that is not a digit |
| Ndcg.DigitSumExample | performance.py:291-292 | example: the digit sum of `"1221"` is 6 |
| Ndcg.RelevanceExample | performance.py:291-292 | example: `" 1221 "` has relevance 6, and `"3a"` fails at `'a'` |
| Ndcg.RowMatches | performance.py:288-290 | a result row matches as many ground-truth rows as precision_recall counts hits |
| Ndcg.RowMatchesRows | performance.py:288-293 | each match is a ground-truth row of the same document, carrying the result's stated rank |
| Ndcg.RowMatchesSnoc | performance.py:288-290 | one more ground-truth row adds a match exactly when it names the document |
| Ndcg.Matches | performance.py:286-290 | the matches of a query number the hits `p` counts |
| Ndcg.LastOr0 | performance.py:285-294 | definition: the current `dcg_value`, the last running DCG or 0.0 before any match |
| Ndcg.Gains | performance.py:291-296 | on success the running DCG and `icg` have one entry per match |
| Ndcg.GainStep | performance.py:291-296 | a match appends one DCG and one relevance |
| Ndcg.GainsFailureStays | performance.py:286-296 | a failure on a prefix of the matches is the failure of all of them |
| Ndcg.RowMatchesPrefix | performance.py:288-290 | the matches over a prefix of the ground truth are a prefix |
| Ndcg.MatchesPrefix | performance.py:286-290 | the matches over a prefix of the results are a prefix |
| Ndcg.InnerPrefix | performance.py:286-290 | the matches seen inside the nested loops are a prefix of all matches |
| Ndcg.RowFailureStays | performance.py:288-296 | a failure inside the inner loop is the failure of the whole row |
| Ndcg.RowStepSkip | performance.py:288-290 | a ground-truth row of another document changes nothing |
| Ndcg.RowStepMatch | performance.py:290-296 | a matching row with a valid code and a non-zero rank extends both lists |
| Ndcg.RowStepFail | performance.py:290-294 | a matching row with an invalid code raises `ValueError`, with a zero rank division by zero |
| Ndcg.RowGains | performance.py:288-296 | the inner loop over the ground truth computes the reference gains |
| Ndcg.MatchesSnoc | performance.py:286-290 | one more result adds its row's matches |
| Ndcg.QueryFailureStays | performance.py:286-296 | a failure after some result rows is the query's failure |
| Ndcg.QueryGains | performance.py:283-296 | the nested loops compute the running DCG and the relevance list |
| Ndcg.Ideal | performance.py:299-303 | definition: the ideal DCG over the first k sorted relevances, the sum of relevance / position |
| Ndcg.QueryNdcg | performance.py:282-305 | definition: one query's dcg list and ndcg list, or the first error of its gains or of its ndcg list |
| Ndcg.SortedGains | performance.py:298 | definition: `icg.sort(reverse=True)`, a stable descending sort of the relevances |
| Ndcg.NdcgList | performance.py:301-305 | on success one ndcg value per position |
| Ndcg.NdcgFailureStays | performance.py:301-305 | a zero ideal DCG at some position is the failure of the list |
| Ndcg.QueryIdeal | performance.py:298-305 | sorting `icg` descending and accumulating `icg_value / i` gives the reference ndcg list |
| Ndcg.QueryNdcgLists | performance.py:282-305 | one query's dcg and ndcg lists, or the first error |
| Ndcg.NdcgOf | performance.py:278-305 | on success both tables have distinct keys |
| Ndcg.NdcgOfFailureStays | performance.py:280-305 | the first failing query decides the failure |
| Ndcg.NdcgTables | performance.py:278-305 | the loops over the results compute the dcg and ndcg tables, with the digit-sum relevance |
| Ndcg.NdcgEntries | performance.py:280-305 | on a results dict both tables keep the query order and hold each query's lists under its key |
| Ndcg.QueryNdcgLengths | performance.py:286-305 | both lists have one entry per match, as many as the hits precision_recall counts |
| Ndcg.DcgNonDecreasing | performance.py:294-296 | with positive ranks the running DCG is non-negative and never decreases |
| Ndcg.IdealAtLeastFirst | performance.py:302-303 | the ideal DCG is at least the largest relevance |
| Ndcg.NdcgSucceeds | performance.py:302-304 | a positive largest relevance means no division by zero |
| Ndcg.NdcgZeroDivision | performance.py:298-304 | ndcg divides by zero exactly when some row matched and every matched relevance is 0 |

## Left out

- File and CSV reading and writing, `ast.literal_eval`, configuration
  parsing, the stage drivers, logging and timing: I/O only.
- Plotting, including performance.py:307-317 at the end of `ndcg`: a
  foreign library.
- The tokenizers and query_processor.py: text normalisation is a foreign
  collaborator, so tokens are opaque strings.
- The upper-casing of index keys on write: serialisation.
- The `int(x.strip())` parsing of document ids in `precision_recall` and
  `ndcg`: ids are integers in the model, so the `ValueError` of a
  malformed id is not modelled.
- The in-band `'doc keys'` / `'qu keys'` entries: each vector's id is a
  separate field. A token spelled `'doc keys'` or `'qu keys'` would
  collide with the id in the source, and that collision is not modelled.
- Floating point: all ratios are exact rationals. The recall levels are
  exactly j/10 rather than the floats 0.1 ... 0.9, so a recall that float
  rounding puts just below a level compares differently in the source.
- The values of `log10` and `sqrt`: they are parameters, with only the laws
  above assumed.
- White space and digits beyond ASCII: `Ndcg.IsSpace` covers the ASCII
  characters Python's `str.strip()` removes, and `Ndcg.IsDigit` the digits
  0-9. The source also accepts Unicode spaces and digits.
- Dictionary and set iteration order: `get_doc_list`'s `list(set(...))` and
  the loops over `inv_ix`, `tf`, `idf` are modelled with an arbitrary
  order. The results are stated as maps or as sets of elements, so they
  do not depend on that order.
- Ndcg.RowGains, Ndcg.QueryGains and the `Gains` lemmas are stated for any
  relevance parser (`Ndcg.Grader`). `Ndcg.NdcgTables` uses the digit-sum
  `Ndcg.Relevance`, as the source does.
- Ndcg.SortedGains: `icg.sort(reverse=True)` is the `StableSort.SortDesc`
  function, not an in-place sort.
- Searcher.DocNormSqZero: proves only that all-zero weights give norm 0,
  not the converse. The converse needs squares of reals to be
  non-negative term by term, and `DenominatorZero` does not need it.
- Performance.PerformanceEntries, Performance.InterpolatedAllEntries and
  Ndcg.NdcgEntries need distinct query keys. The source's inputs are
  dicts, so their keys are distinct.
- Performance.RecallInUnitRange needs a ranking that lists each document
  once, as the cosine ranking does (`Searcher.RankingDocs`). With a
  repeated document the source's recall can exceed 1.

The interpolation loop (performance.py:164-166) compares and deletes tail
points by *precision*, not by recall; the model does the same.
