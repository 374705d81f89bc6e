/** Evaluation of rankings against ground truth (performance.py): the
    precision/recall points of each query, their interpolated envelope, and
    the averaged eleven-point curve. Ground-truth and result rows carry
    integer document ids (the source parses them with `int(x.strip())`). */
module Performance {
  import opened Collections
  import opened InvertedIndex


  /** A ranked result read back from the results file: (rank, doc, sim). */
  datatype ResultRow = ResultRow(rank: int, doc: DocId, sim: real)

  /** A ground-truth row: a relevant document and its judgment code. */
  datatype AnswerRow = AnswerRow(doc: DocId, code: string)

  type Answers = map<QueryId, seq<AnswerRow>>

  datatype Point = Point(precision: real, recall: real)

  /** The exceptions of the evaluation code. */
  datatype EvalError =
    | MissingAnswer(query: QueryId)   // KeyError on answers[query_key]
    | ZeroDivision                    // ZeroDivisionError
    | IndexError                      // result[0] or result[-1] of an empty list
    | NotADigit(c: char)              // ValueError from int(r)

  // ---------------------------------------------------------------------------
  // Precision and recall (precision_recall).

  /** How many ground-truth rows name document d (each adds 1 to `p`). */
  function Hits(d: DocId, answer: seq<AnswerRow>): (h: nat)
    ensures h <= |answer|
  {
    if answer == [] then 0
    else Hits(d, answer[..|answer| - 1]) + if answer[|answer| - 1].doc == d then 1 else 0
  }

  /** The counter `p` after the given results. */
  function Matched(result: seq<ResultRow>, answer: seq<AnswerRow>): nat {
    if result == [] then 0
    else Matched(result[..|result| - 1], answer) + Hits(result[|result| - 1].doc, answer)
  }

  /** Point t (1-based) is (p/t, p/n) with p counted over the first t results. */
  function PrPoints(result: seq<ResultRow>, answer: seq<AnswerRow>): (pts: seq<Point>)
    requires answer != []
    ensures |pts| == |result|
  {
    seq(|result|, i requires 0 <= i < |result| =>
      Point(Matched(result[..i + 1], answer) as real / (i + 1) as real,
            Matched(result[..i + 1], answer) as real / |answer| as real))
  }

  /** One query: p/n divides by zero at the first point when the answer is
      empty; an empty result never divides. */
  function QueryPr(result: seq<ResultRow>, answer: seq<AnswerRow>): Result<seq<Point>, EvalError> {
    if result == [] then Success([])
    else if answer == [] then Failure(ZeroDivision)
    else Success(PrPoints(result, answer))
  }

  /** `precision_recall` over the queries in order; the first failure is
      the one raised. */
  function PerformanceOf(answers: Answers, results: seq<(QueryId, seq<ResultRow>)>)
    : (r: Result<seq<(QueryId, seq<Point>)>, EvalError>)
    ensures r.Success? ==> DistinctKeys(r.value)
  {
    if results == [] then Success([])
    else
      match PerformanceOf(answers, results[..|results| - 1]) {
        case Failure(e) => Failure(e)
        case Success(perf) =>
          var (key, result) := results[|results| - 1];
          if key !in answers then Failure(MissingAnswer(key))
          else
            match QueryPr(result, answers[key]) {
              case Failure(e) => Failure(e)
              case Success(pts) => Success(Put(perf, key, pts))
            }
      }
  }

  /** One query of the loop: counters t and p, one point per ranked result. */
  method QueryPrecisionRecall(result: seq<ResultRow>, answer: seq<AnswerRow>)
    returns (r: Result<seq<Point>, EvalError>)
    ensures r == QueryPr(result, answer)
  {
    var n := |answer|;
    var t, p := 1, 0;
    var pts: seq<Point> := [];
    var i := 0;
    while i < |result|
      invariant 0 <= i <= |result| && t == i + 1
      invariant p == Matched(result[..i], answer)
      invariant n > 0 ==> pts == PrPoints(result, answer)[..i]
      invariant n == 0 ==> i == 0 && pts == []
    {
      var doc := result[i].doc;
      var j := 0;
      while j < |answer|
        invariant 0 <= j <= |answer|
        invariant p == Matched(result[..i], answer) + Hits(doc, answer[..j])
      {
        assert answer[..j + 1][..j] == answer[..j];
        if answer[j].doc == doc {
          p := p + 1;
        }
        j := j + 1;
      }
      assert answer[..j] == answer;
      assert result[..i + 1][..i] == result[..i];
      if n == 0 {
        return Failure(ZeroDivision);
      }
      pts := pts + [Point(p as real / t as real, p as real / n as real)];
      t := t + 1;
      i := i + 1;
    }
    if n == 0 {
      return Success([]);
    }
    assert pts == PrPoints(result, answer);
    return Success(pts);
  }

  /** Once a prefix of the queries fails, the whole run fails the same way. */
  lemma {:induction false} PerformanceFailureStays(answers: Answers, results: seq<(QueryId, seq<ResultRow>)>, k: nat)
    requires k <= |results| && PerformanceOf(answers, results[..k]).Failure?
    ensures PerformanceOf(answers, results) == PerformanceOf(answers, results[..k])
    decreases |results|
  {
    if k < |results| {
      var init := results[..|results| - 1];
      assert init[..k] == results[..k];
      PerformanceFailureStays(answers, init, k);
    } else {
      assert results[..k] == results;
    }
  }

  method PrecisionRecall(answers: Answers, results: seq<(QueryId, seq<ResultRow>)>)
    returns (r: Result<seq<(QueryId, seq<Point>)>, EvalError>)
    ensures r == PerformanceOf(answers, results)
  {
    var performance: seq<(QueryId, seq<Point>)> := [];
    var i := 0;
    while i < |results|
      invariant 0 <= i <= |results|
      invariant PerformanceOf(answers, results[..i]) == Success(performance)
    {
      var (key, result) := results[i];
      assert results[..i + 1][..i] == results[..i];
      if key !in answers {
        PerformanceFailureStays(answers, results, i + 1);
        return Failure(MissingAnswer(key));
      }
      var pts := QueryPrecisionRecall(result, answers[key]);
      if pts.Failure? {
        PerformanceFailureStays(answers, results, i + 1);
        return Failure(pts.error);
      }
      performance := Put(performance, key, pts.value);
      i := i + 1;
    }
    assert results[..i] == results;
    return Success(performance);
  }

  /** A query fails when its key has no ground truth, or when it has results
      but an empty ground truth (p/n with n = 0). */
  predicate QueryFails(answers: Answers, query: (QueryId, seq<ResultRow>)) {
    query.0 !in answers || (query.1 != [] && answers[query.0] == [])
  }

  /** The run fails exactly when some query fails, and with that query's error. */
  lemma {:induction false} PerformanceFailure(answers: Answers, results: seq<(QueryId, seq<ResultRow>)>)
    ensures PerformanceOf(answers, results).Failure?
        <==> exists q :: 0 <= q < |results| && QueryFails(answers, results[q])
    ensures PerformanceOf(answers, results) == Failure(ZeroDivision)
        ==> exists q :: 0 <= q < |results| && results[q].0 in answers && results[q].1 != [] && answers[results[q].0] == []
    ensures forall k :: (PerformanceOf(answers, results) == Failure(MissingAnswer(k))
        ==> exists q :: 0 <= q < |results| && results[q].0 == k && k !in answers)
  {
    if results != [] {
      var init := results[..|results| - 1];
      PerformanceFailure(answers, init);
      PerformanceStep(answers, results);
      if PerformanceOf(answers, init).Failure? {
        FailureFromPrefix(answers, results);
      } else if QueryFails(answers, results[|results| - 1]) {
        FailureAtLast(answers, results);
      } else {
        NoFailure(answers, init, results);
      }
    }
  }

  /** The three statements of PerformanceFailure, for one list of results. */
  ghost predicate Explained(answers: Answers, results: seq<(QueryId, seq<ResultRow>)>) {
    var r := PerformanceOf(answers, results);
    && (r.Failure? <==> exists q :: 0 <= q < |results| && QueryFails(answers, results[q]))
    && (r == Failure(ZeroDivision)
        ==> exists q :: 0 <= q < |results| && results[q].0 in answers && results[q].1 != [] && answers[results[q].0] == [])
    && (forall k :: (r == Failure(MissingAnswer(k))
          ==> exists q :: 0 <= q < |results| && results[q].0 == k && k !in answers))
  }

  /** A failure of the earlier queries is explained by one of them. */
  lemma FailureFromPrefix(answers: Answers, results: seq<(QueryId, seq<ResultRow>)>)
    requires results != []
    requires Explained(answers, results[..|results| - 1])
    requires PerformanceOf(answers, results[..|results| - 1]).Failure?
    requires PerformanceOf(answers, results) == PerformanceOf(answers, results[..|results| - 1])
    ensures Explained(answers, results)
  {
    var init := results[..|results| - 1];
    var r := PerformanceOf(answers, results);
    var q :| 0 <= q < |init| && QueryFails(answers, init[q]);
    assert results[q] == init[q];
    forall k | r == Failure(MissingAnswer(k))
      ensures exists q :: 0 <= q < |results| && results[q].0 == k && k !in answers
    {
      var q :| 0 <= q < |init| && init[q].0 == k && k !in answers;
      assert results[q] == init[q];
    }
    if r == Failure(ZeroDivision) {
      var q :| 0 <= q < |init| && init[q].0 in answers && init[q].1 != [] && answers[init[q].0] == [];
      assert results[q] == init[q];
    }
  }

  /** A failure at the last query is explained by it. */
  lemma FailureAtLast(answers: Answers, results: seq<(QueryId, seq<ResultRow>)>)
    requires results != []
    requires QueryFails(answers, results[|results| - 1])
    requires var last := results[|results| - 1];
      && (last.0 !in answers ==> PerformanceOf(answers, results) == Failure(MissingAnswer(last.0)))
      && (last.0 in answers ==> PerformanceOf(answers, results) == Failure(ZeroDivision))
    ensures Explained(answers, results)
  {
    var last := results[|results| - 1];
    forall k | PerformanceOf(answers, results) == Failure(MissingAnswer(k))
      ensures exists q :: 0 <= q < |results| && results[q].0 == k && k !in answers
    {
      assert last.0 == k;
    }
  }

  /** Without a failing query the run succeeds. */
  lemma NoFailure(answers: Answers, init: seq<(QueryId, seq<ResultRow>)>, results: seq<(QueryId, seq<ResultRow>)>)
    requires results != [] && init == results[..|results| - 1]
    requires !exists q :: 0 <= q < |init| && QueryFails(answers, init[q])
    requires !QueryFails(answers, results[|results| - 1])
    requires PerformanceOf(answers, results).Success?
    ensures Explained(answers, results)
  {
    NoneFails(answers, init, results);
  }

  lemma NoneFails(answers: Answers, init: seq<(QueryId, seq<ResultRow>)>, results: seq<(QueryId, seq<ResultRow>)>)
    requires results != [] && init == results[..|results| - 1]
    requires !exists q :: 0 <= q < |init| && QueryFails(answers, init[q])
    requires !QueryFails(answers, results[|results| - 1])
    ensures !exists q :: 0 <= q < |results| && QueryFails(answers, results[q])
  {
    forall q | 0 <= q < |results| ensures !QueryFails(answers, results[q]) {
      if q < |init| {
        assert results[q] == init[q];
      }
    }
  }

  /** One query of the run: a failure stays, a failing query raises its
      error, any other query succeeds. */
  lemma PerformanceStep(answers: Answers, results: seq<(QueryId, seq<ResultRow>)>)
    requires results != []
    ensures var before, last := PerformanceOf(answers, results[..|results| - 1]), results[|results| - 1];
      var r := PerformanceOf(answers, results);
      (before.Failure? ==> r == before) &&
      (before.Success? && last.0 !in answers ==> r == Failure(MissingAnswer(last.0))) &&
      (before.Success? && last.0 in answers && last.1 != [] && answers[last.0] == [] ==> r == Failure(ZeroDivision)) &&
      (before.Success? && !QueryFails(answers, last) ==> r.Success?)
  {
  }

  /** On a dictionary of results (distinct keys) the run keeps the query
      order and stores each query's points under its key. */
  lemma {:induction false} PerformanceEntries(answers: Answers, results: seq<(QueryId, seq<ResultRow>)>)
    requires DistinctKeys(results)
    requires PerformanceOf(answers, results).Success?
    ensures var perf := PerformanceOf(answers, results).value;
      |perf| == |results| &&
      forall q :: 0 <= q < |results| ==>
        results[q].0 in answers &&
        QueryPr(results[q].1, answers[results[q].0]).Success? &&
        perf[q] == (results[q].0, QueryPr(results[q].1, answers[results[q].0]).value)
  {
    if results != [] {
      var init := results[..|results| - 1];
      assert DistinctKeys(init);
      var r0 := PerformanceOf(answers, init);
      assert r0.Success?;
      PerformanceEntries(answers, init);
      var perf := r0.value;
      var (key, result) := results[|results| - 1];
      assert key in answers;
      var pts := QueryPr(result, answers[key]);
      assert pts.Success?;
      assert key !in KeysOf(perf) by {
        forall q | 0 <= q < |perf| ensures perf[q].0 != key {
          assert perf[q].0 == init[q].0 == results[q].0;
        }
      }
      assert PerformanceOf(answers, results).value == perf + [(key, pts.value)];
      forall q | 0 <= q < |init| ensures results[q] == init[q] {
      }
      EntriesSnoc(answers, results, perf, pts.value);
    }
  }

  /** The entries of the earlier queries and the last query's points make the
      entries of the whole run. */
  lemma EntriesSnoc(answers: Answers, results: seq<(QueryId, seq<ResultRow>)>,
                    perf: seq<(QueryId, seq<Point>)>, pts: seq<Point>)
    requires results != [] && |perf| == |results| - 1
    requires forall q :: 0 <= q < |perf| ==>
      results[q].0 in answers &&
      QueryPr(results[q].1, answers[results[q].0]).Success? &&
      perf[q] == (results[q].0, QueryPr(results[q].1, answers[results[q].0]).value)
    requires results[|perf|].0 in answers && QueryPr(results[|perf|].1, answers[results[|perf|].0]) == Success(pts)
    ensures var all := perf + [(results[|perf|].0, pts)];
      |all| == |results| &&
      forall q :: 0 <= q < |results| ==>
        results[q].0 in answers &&
        QueryPr(results[q].1, answers[results[q].0]).Success? &&
        all[q] == (results[q].0, QueryPr(results[q].1, answers[results[q].0]).value)
  {
  }

  lemma {:induction false} MatchedMonotone(result: seq<ResultRow>, answer: seq<AnswerRow>, i: nat, j: nat)
    requires i <= j <= |result|
    ensures Matched(result[..i], answer) <= Matched(result[..j], answer)
    decreases j
  {
    if i < j {
      MatchedMonotone(result, answer, i, j - 1);
      assert result[..j][..j - 1] == result[..j - 1];
    }
  }

  lemma DivMonotone(a: real, b: real, n: real)
    requires a <= b && n > 0.0
    ensures a / n <= b / n
  {
    assert b / n - a / n == (b - a) / n;
  }

  /** Recall never decreases down the ranking. */
  lemma RecallNonDecreasing(result: seq<ResultRow>, answer: seq<AnswerRow>, i: nat, j: nat)
    requires answer != [] && i <= j < |result|
    ensures PrPoints(result, answer)[i].recall <= PrPoints(result, answer)[j].recall
  {
    MatchedMonotone(result, answer, i + 1, j + 1);
    DivMonotone(Matched(result[..i + 1], answer) as real, Matched(result[..j + 1], answer) as real,
                |answer| as real);
  }

  /** Point t (1-based) counts a whole number p of hits: its precision is
      p/t and its recall p/n, so each recall is a whole multiple of 1/n. */
  lemma PointAt(result: seq<ResultRow>, answer: seq<AnswerRow>, i: nat)
    requires answer != [] && i < |result|
    ensures exists p: nat {:trigger HitFractions(PrPoints(result, answer)[i], i + 1, |answer|, p)} ::
      HitFractions(PrPoints(result, answer)[i], i + 1, |answer|, p)
  {
    var m := Matched(result[..i + 1], answer);
    var pt := PrPoints(result, answer)[i];
    assert pt.precision * (i + 1) as real == m as real;
    assert pt.recall * |answer| as real == m as real;
    assert HitFractions(pt, i + 1, |answer|, m);
  }

  /** pt is (p/t, p/n). */
  ghost predicate HitFractions(pt: Point, t: nat, n: nat, p: nat) {
    pt.precision * t as real == p as real && pt.recall * n as real == p as real
  }

  /** No hit for d in a ground truth without a row for d. */
  lemma {:induction false} HitsAbsent(d: DocId, answer: seq<AnswerRow>)
    requires forall k :: 0 <= k < |answer| ==> answer[k].doc != d
    ensures Hits(d, answer) == 0
  {
    if answer != [] {
      HitsAbsent(d, answer[..|answer| - 1]);
    }
  }

  /** A ground truth that names each document once gives at most one hit per result. */
  lemma {:induction false} HitsAtMostOne(d: DocId, answer: seq<AnswerRow>)
    requires forall k, l :: 0 <= k < l < |answer| ==> answer[k].doc != answer[l].doc
    ensures Hits(d, answer) <= 1
  {
    if answer != [] {
      var init := answer[..|answer| - 1];
      HitsAtMostOne(d, init);
      if answer[|answer| - 1].doc == d {
        HitsAbsent(d, init);
      }
    }
  }

  lemma {:induction false} MatchedAtMostLength(result: seq<ResultRow>, answer: seq<AnswerRow>)
    requires forall k, l :: 0 <= k < l < |answer| ==> answer[k].doc != answer[l].doc
    ensures Matched(result, answer) <= |result|
  {
    if result != [] {
      MatchedAtMostLength(result[..|result| - 1], answer);
      HitsAtMostOne(result[|result| - 1].doc, answer);
    }
  }

  lemma FractionAtMostOne(c: nat, m: nat)
    requires c <= m && m > 0
    ensures 0.0 <= c as real / m as real <= 1.0
  {
  }

  /** With a duplicate-free ground truth every precision lies in [0, 1]. */
  lemma PrecisionInUnitRange(result: seq<ResultRow>, answer: seq<AnswerRow>, i: nat)
    requires answer != [] && i < |result|
    requires forall k, l :: 0 <= k < l < |answer| ==> answer[k].doc != answer[l].doc
    ensures 0.0 <= PrPoints(result, answer)[i].precision <= 1.0
  {
    MatchedAtMostLength(result[..i + 1], answer);
    FractionAtMostOne(Matched(result[..i + 1], answer), i + 1);
  }

  /** The documents of a ranking, in rank order. */
  function ResultDocs(result: seq<ResultRow>): seq<DocId> {
    seq(|result|, i requires 0 <= i < |result| => result[i].doc)
  }

  /** Counting by ground-truth row: one more row adds the number of results
      naming its document. */
  lemma {:induction false} MatchedSnocAnswer(result: seq<ResultRow>, answer: seq<AnswerRow>, a: AnswerRow)
    ensures Matched(result, answer + [a]) == Matched(result, answer) + Count(ResultDocs(result), a.doc)
  {
    if result != [] {
      var init, x := result[..|result| - 1], result[|result| - 1];
      MatchedSnocAnswer(init, answer, a);
      assert ResultDocs(result)[..|result| - 1] == ResultDocs(init);
      assert (answer + [a])[..|answer + [a]| - 1] == answer;
      assert Hits(x.doc, answer + [a]) == Hits(x.doc, answer) + if a.doc == x.doc then 1 else 0;
    }
  }

  /** A ranking that lists each document once has at most n hits in all. */
  lemma {:induction false} MatchedAtMostAnswers(result: seq<ResultRow>, answer: seq<AnswerRow>)
    requires forall k, l :: 0 <= k < l < |result| ==> result[k].doc != result[l].doc
    ensures Matched(result, answer) <= |answer|
  {
    if answer == [] {
      MatchedNoAnswer(result, answer);
    } else {
      var init, a := answer[..|answer| - 1], answer[|answer| - 1];
      MatchedAtMostAnswers(result, init);
      assert init + [a] == answer;
      MatchedSnocAnswer(result, init, a);
      if a.doc in ResultDocs(result) {
        assert Distinct(ResultDocs(result));
        CountDistinct(ResultDocs(result), a.doc);
      }
    }
  }

  lemma {:induction false} MatchedNoAnswer(result: seq<ResultRow>, answer: seq<AnswerRow>)
    requires answer == []
    ensures Matched(result, answer) == 0
  {
    if result != [] {
      MatchedNoAnswer(result[..|result| - 1], answer);
    }
  }

  /** When the ranking lists each document once (as the cosine ranking does),
      every recall lies in [0, 1]. */
  lemma RecallInUnitRange(result: seq<ResultRow>, answer: seq<AnswerRow>, i: nat)
    requires answer != [] && i < |result|
    requires forall k, l :: 0 <= k < l < |result| ==> result[k].doc != result[l].doc
    ensures 0.0 <= PrPoints(result, answer)[i].recall <= 1.0
  {
    var prefix := result[..i + 1];
    assert forall k, l :: 0 <= k < l < |prefix| ==> prefix[k].doc != prefix[l].doc;
    MatchedAtMostAnswers(prefix, answer);
    FractionAtMostOne(Matched(prefix, answer), |answer|);
  }

  // ---------------------------------------------------------------------------
  // Interpolation (interpolated_precision_recall).

  /** The `while` of the interpolation: tail points less precise than v are
      deleted until one at least as precise is reached or the curve is empty. */
  function PopLess(c: seq<Point>, v: real): (r: seq<Point>)
    ensures |r| <= |c| && r == c[..|r|]
    ensures r != [] ==> r[|r| - 1].precision >= v
    ensures forall i :: |r| <= i < |c| ==> c[i].precision < v
  {
    if c == [] then []
    else if c[|c| - 1].precision < v then PopLess(c[..|c| - 1], v)
    else c
  }

  /** The curve after k passes of the `for` loop (k < |r|). */
  function Curve(r: seq<Point>, k: nat): seq<Point>
    requires k < |r|
  {
    if k == 0 then []
    else PopLess(Curve(r, k - 1) + [r[k - 1]], r[k].precision)
  }

  /** A query's interpolated curve; `result[-1]` of an empty list fails. */
  function Interpolated(r: seq<Point>): Result<seq<Point>, EvalError> {
    if r == [] then Failure(IndexError)
    else Success(Curve(r, |r| - 1) + [r[|r| - 1]])
  }

  /** r[0] is at least as precise as every later point. */
  predicate HeadDominates(r: seq<Point>)
    requires r != []
  {
    forall m :: 1 <= m < |r| ==> r[m].precision <= r[0].precision
  }

  /** Reference definition of the interpolated curve: the points that no
      later point beats on precision, in their original order. */
  function Envelope(r: seq<Point>): seq<Point> {
    if r == [] then []
    else (if HeadDominates(r) then [r[0]] else []) + Envelope(r[1..])
  }

  /** a is obtained from b by deleting elements. */
  ghost predicate IsSubseq<T>(a: seq<T>, b: seq<T>)
    decreases |b|
  {
    if a == [] then true
    else if b == [] then false
    else (a[0] == b[0] && IsSubseq(a[1..], b[1..])) || IsSubseq(a, b[1..])
  }

  lemma {:induction false} EnvelopeIn(r: seq<Point>)
    ensures forall x :: x in Envelope(r) ==> x in r
  {
    if r != [] {
      EnvelopeIn(r[1..]);
    }
  }

  lemma {:induction false} PopLessAllBelow(c: seq<Point>, v: real)
    requires forall i :: 0 <= i < |c| ==> c[i].precision < v
    ensures PopLess(c, v) == []
  {
    if c != [] {
      PopLessAllBelow(c[..|c| - 1], v);
    }
  }

  /** Deleting from the tail of u + w reaches into u only once w is gone. */
  lemma {:induction false} PopLessAppend(u: seq<Point>, w: seq<Point>, v: real)
    ensures PopLess(u + w, v) == if PopLess(w, v) == [] then PopLess(u, v) else u + PopLess(w, v)
    decreases |w|
  {
    if w == [] {
      assert u + w == u;
    } else {
      var w' := w[..|w| - 1];
      assert (u + w)[..|u + w| - 1] == u + w';
      if w[|w| - 1].precision < v {
        PopLessAppend(u, w', v);
      }
    }
  }

  /** Appending x keeps s[0] in front only when it also beats x. */
  lemma HeadDominatesSnoc(s: seq<Point>, x: Point)
    requires s != []
    ensures HeadDominates(s + [x]) <==> HeadDominates(s) && x.precision <= s[0].precision
  {
    var t := s + [x];
    assert t[|s|] == x;
    if !HeadDominates(s) {
      var m :| 1 <= m < |s| && s[m].precision > s[0].precision;
      assert t[m] == s[m];
    }
  }

  /** A bound on every point bounds the envelope. */
  lemma EnvelopeBounded(r: seq<Point>, b: real)
    requires forall m :: 0 <= m < |r| ==> r[m].precision <= b
    ensures forall i :: 0 <= i < |Envelope(r)| ==> Envelope(r)[i].precision <= b
  {
    EnvelopeIn(r);
    forall i | 0 <= i < |Envelope(r)| ensures Envelope(r)[i].precision <= b {
      assert Envelope(r)[i] in r;
    }
  }

  /** Envelope's first step, for a non-empty input. */
  lemma EnvelopeCons(s: seq<Point>)
    requires s != []
    ensures Envelope(s) == if HeadDominates(s) then [s[0]] + Envelope(s[1..]) else Envelope(s[1..])
  {
  }

  /** Appending a point to the input deletes the envelope's tail below it
      and adds the point: the loop's step in terms of the reference. */
  lemma {:induction false} EnvelopeSnoc(s: seq<Point>, x: Point)
    ensures Envelope(s + [x]) == PopLess(Envelope(s), x.precision) + [x]
    decreases |s|
  {
    if s == [] {
      assert Envelope([x]) == [x] + Envelope([]);
    } else {
      EnvelopeSnoc(s[1..], x);
      EnvelopeSnocStep(s, x);
    }
  }

  /** EnvelopeSnoc for s, given it for s without its head. */
  lemma EnvelopeSnocStep(s: seq<Point>, x: Point)
    requires s != []
    requires Envelope(s[1..] + [x]) == PopLess(Envelope(s[1..]), x.precision) + [x]
    ensures Envelope(s + [x]) == PopLess(Envelope(s), x.precision) + [x]
  {
    if !HeadDominates(s) {
      EnvelopeSnocDropped(s, x);
    } else if s[0].precision < x.precision {
      EnvelopeSnocBeaten(s, x);
    } else {
      EnvelopeSnocKept(s, x);
    }
  }

  /** A head that a later point already beats stays out. */
  lemma EnvelopeSnocDropped(s: seq<Point>, x: Point)
    requires s != [] && !HeadDominates(s)
    requires Envelope(s[1..] + [x]) == PopLess(Envelope(s[1..]), x.precision) + [x]
    ensures Envelope(s + [x]) == PopLess(Envelope(s), x.precision) + [x]
  {
    assert (s + [x])[1..] == s[1..] + [x];
    EnvelopeCons(s);
    EnvelopeCons(s + [x]);
    HeadDominatesSnoc(s, x);
  }

  /** A dominating head that x beats is deleted with everything after it. */
  lemma EnvelopeSnocBeaten(s: seq<Point>, x: Point)
    requires s != [] && HeadDominates(s) && s[0].precision < x.precision
    requires Envelope(s[1..] + [x]) == PopLess(Envelope(s[1..]), x.precision) + [x]
    ensures Envelope(s + [x]) == PopLess(Envelope(s), x.precision) + [x]
  {
    var e := Envelope(s[1..]);
    assert Envelope(s + [x]) == PopLess(e, x.precision) + [x] by {
      assert (s + [x])[1..] == s[1..] + [x];
      EnvelopeCons(s + [x]);
      HeadDominatesSnoc(s, x);
    }
    assert PopLess(e, x.precision) == [] by {
      EnvelopeBounded(s[1..], s[0].precision);
      PopLessAllBelow(e, x.precision);
    }
    assert PopLess(Envelope(s), x.precision) == [] by {
      EnvelopeCons(s);
      EnvelopeSnocHead(s[0], e, x);
    }
  }

  /** A dominating head at least as precise as x is kept. */
  lemma EnvelopeSnocKept(s: seq<Point>, x: Point)
    requires s != [] && HeadDominates(s) && x.precision <= s[0].precision
    requires Envelope(s[1..] + [x]) == PopLess(Envelope(s[1..]), x.precision) + [x]
    ensures Envelope(s + [x]) == PopLess(Envelope(s), x.precision) + [x]
  {
    var t := s + [x];
    assert t[0] == s[0] && t[1..] == s[1..] + [x];
    HeadDominatesSnoc(s, x);
    EnvelopeCons(t);
    EnvelopeCons(s);
    PopLessKeepsHead(s[0], Envelope(s[1..]), x);
  }

  /** Deleting below x from [a] + e, where a is at least as precise as x,
      deletes from e only. */
  lemma PopLessKeepsHead(a: Point, e: seq<Point>, x: Point)
    requires x.precision <= a.precision
    ensures PopLess([a] + e, x.precision) + [x] == [a] + (PopLess(e, x.precision) + [x])
  {
    var p := PopLess(e, x.precision);
    EnvelopeSnocHead(a, e, x);
    assert PopLess([a] + e, x.precision) == [a] + p by {
      if p == [] {
        assert [a] + p == [a];
      }
    }
  }

  /** The dominating head survives an appended point exactly when it is at
      least as precise. */
  lemma EnvelopeSnocHead(a: Point, e: seq<Point>, x: Point)
    ensures PopLess([a] + e, x.precision)
         == if PopLess(e, x.precision) != [] then [a] + PopLess(e, x.precision)
            else if a.precision < x.precision then [] else [a]
  {
    PopLessAppend([a], e, x.precision);
  }

  /** The loop keeps the reference: after k passes, curve + [r[k]] is the
      envelope of the first k + 1 points. */
  lemma {:induction false} CurveIsEnvelope(r: seq<Point>, k: nat)
    requires k < |r|
    ensures Curve(r, k) + [r[k]] == Envelope(r[..k + 1])
  {
    if k == 0 {
      assert r[..1] == [] + [r[0]];
      EnvelopeSnoc([], r[0]);
    } else {
      CurveIsEnvelope(r, k - 1);
      assert r[..k + 1] == r[..k] + [r[k]];
      EnvelopeSnoc(r[..k], r[k]);
    }
  }

  /** The interpolated curve is the reference envelope. */
  lemma InterpolatedIsEnvelope(r: seq<Point>)
    requires r != []
    ensures Interpolated(r) == Success(Envelope(r))
  {
    CurveIsEnvelope(r, |r| - 1);
    assert r[..|r|] == r;
  }

  /** The interpolated curve keeps a subset of the points in their order. */
  lemma {:induction false} EnvelopeSubseq(r: seq<Point>)
    ensures IsSubseq(Envelope(r), r)
  {
    if r != [] {
      EnvelopeSubseq(r[1..]);
      var e := Envelope(r[1..]);
      if HeadDominates(r) {
        assert Envelope(r) == [r[0]] + e;
        assert ([r[0]] + e)[1..] == e;
      } else {
        assert Envelope(r) == e;
      }
    }
  }

  ghost predicate PrecisionNonIncreasing(s: seq<Point>) {
    forall i, j :: 0 <= i < j < |s| ==> s[i].precision >= s[j].precision
  }

  /** Precision never rises along the interpolated curve. */
  lemma {:induction false} EnvelopeNonIncreasing(r: seq<Point>)
    ensures PrecisionNonIncreasing(Envelope(r))
  {
    if r != [] {
      EnvelopeNonIncreasing(r[1..]);
      EnvelopeIn(r[1..]);
      var e := Envelope(r[1..]);
      if HeadDominates(r) {
        forall j | 0 <= j < |e| ensures e[j].precision <= r[0].precision {
          assert e[j] in r[1..];
        }
      }
    }
  }

  /** A curve whose precision never rises is its own envelope. */
  lemma {:induction false} EnvelopeOfNonIncreasing(s: seq<Point>)
    requires PrecisionNonIncreasing(s)
    ensures Envelope(s) == s
  {
    if s != [] {
      assert HeadDominates(s);
      assert PrecisionNonIncreasing(s[1..]);
      EnvelopeOfNonIncreasing(s[1..]);
    }
  }

  /** Interpolating an interpolated curve changes nothing. */
  lemma EnvelopeIdempotent(r: seq<Point>)
    ensures Envelope(Envelope(r)) == Envelope(r)
  {
    EnvelopeNonIncreasing(r);
    EnvelopeOfNonIncreasing(Envelope(r));
  }

  /** The raw last point always ends the curve, and a one-point list is kept
      as it is. */
  lemma InterpolatedEnds(r: seq<Point>)
    requires r != []
    ensures Interpolated(r).Success?
    ensures var c := Interpolated(r).value; c != [] && c[|c| - 1] == r[|r| - 1]
    ensures |r| == 1 ==> Interpolated(r) == Success(r)
  {
    if |r| == 1 {
      assert [] + [r[0]] == r;
    }
  }

  /** The inner `while`, with its `break` once the curve is empty. */
  method PopTail(curve0: seq<Point>, v: real) returns (curve: seq<Point>)
    requires curve0 != []
    ensures curve == PopLess(curve0, v)
  {
    curve := curve0;
    while curve[|curve| - 1].precision < v
      invariant curve != [] && PopLess(curve, v) == PopLess(curve0, v)
      decreases |curve|
    {
      curve := curve[..|curve| - 1];
      if |curve| == 0 {
        break;
      }
    }
  }

  method InterpolateQuery(result: seq<Point>) returns (r: Result<seq<Point>, EvalError>)
    ensures r == Interpolated(result)
  {
    var curve: seq<Point> := [];
    var i := 0;
    while i + 1 < |result|
      invariant |result| == 0 ==> i == 0 && curve == []
      invariant |result| > 0 ==> i < |result| && curve == Curve(result, i)
    {
      CurveStep(result, i);
      var grown := curve + [result[i]];
      var v := result[i + 1].precision;
      if v > result[i].precision {
        curve := PopTail(grown, v);
      } else {
        PopLessKeeps(grown, v);
        curve := grown;
      }
      i := i + 1;
    }
    if |result| == 0 {
      return Failure(IndexError);
    }
    curve := curve + [result[|result| - 1]];
    return Success(curve);
  }

  /** One pass of the `for` loop, on the specification side. */
  lemma CurveStep(r: seq<Point>, i: nat)
    requires i + 1 < |r|
    ensures Curve(r, i + 1) == PopLess(Curve(r, i) + [r[i]], r[i + 1].precision)
  {
  }

  /** Nothing is deleted when the last point is at least as precise as v. */
  lemma PopLessKeeps(c: seq<Point>, v: real)
    requires c != [] && c[|c| - 1].precision >= v
    ensures PopLess(c, v) == c
  {
  }

  /** `interpolated_precision_recall` over the queries in order. */
  function InterpolatedAll(performance: seq<(QueryId, seq<Point>)>)
    : (r: Result<seq<(QueryId, seq<Point>)>, EvalError>)
    ensures r.Success? ==> DistinctKeys(r.value)
  {
    if performance == [] then Success([])
    else
      match InterpolatedAll(performance[..|performance| - 1]) {
        case Failure(e) => Failure(e)
        case Success(curve) =>
          var (key, result) := performance[|performance| - 1];
          match Interpolated(result) {
            case Failure(e) => Failure(e)
            case Success(c) => Success(Put(curve, key, c))
          }
      }
  }

  lemma {:induction false} InterpolatedFailureStays(performance: seq<(QueryId, seq<Point>)>, k: nat)
    requires k <= |performance| && InterpolatedAll(performance[..k]).Failure?
    ensures InterpolatedAll(performance) == InterpolatedAll(performance[..k])
    decreases |performance|
  {
    if k < |performance| {
      var init := performance[..|performance| - 1];
      assert init[..k] == performance[..k];
      InterpolatedFailureStays(init, k);
    } else {
      assert performance[..k] == performance;
    }
  }

  method InterpolatedPrecisionRecall(performance: seq<(QueryId, seq<Point>)>)
    returns (r: Result<seq<(QueryId, seq<Point>)>, EvalError>)
    ensures r == InterpolatedAll(performance)
  {
    var curve: seq<(QueryId, seq<Point>)> := [];
    var i := 0;
    while i < |performance|
      invariant 0 <= i <= |performance|
      invariant InterpolatedAll(performance[..i]) == Success(curve)
    {
      var (key, result) := performance[i];
      assert performance[..i + 1][..i] == performance[..i];
      var c := InterpolateQuery(result);
      if c.Failure? {
        InterpolatedFailureStays(performance, i + 1);
        return Failure(c.error);
      }
      curve := Put(curve, key, c.value);
      i := i + 1;
    }
    assert performance[..i] == performance;
    return Success(curve);
  }

  /** The interpolation fails exactly when some query has no points. */
  lemma {:induction false} InterpolatedAllFailure(performance: seq<(QueryId, seq<Point>)>)
    ensures InterpolatedAll(performance).Failure?
        <==> exists q :: 0 <= q < |performance| && performance[q].1 == []
  {
    if performance != [] {
      var init := performance[..|performance| - 1];
      var last := performance[|performance| - 1];
      InterpolatedAllFailure(init);
      if InterpolatedAll(init).Failure? {
        var q :| 0 <= q < |init| && init[q].1 == [];
        assert performance[q].1 == [];
      } else if last.1 == [] {
        assert InterpolatedAll(performance).Failure?;
      } else {
        assert InterpolatedAll(performance).Success?;
        NoneEmpty(init, performance);
      }
    }
  }

  lemma NoneEmpty(init: seq<(QueryId, seq<Point>)>, performance: seq<(QueryId, seq<Point>)>)
    requires performance != [] && init == performance[..|performance| - 1]
    requires !exists q :: 0 <= q < |init| && init[q].1 == []
    requires performance[|performance| - 1].1 != []
    ensures !exists q :: 0 <= q < |performance| && performance[q].1 == []
  {
    forall q | 0 <= q < |performance| ensures performance[q].1 != [] {
      if q < |init| {
        assert performance[q] == init[q];
      }
    }
  }

  /** Each stored curve is its query's interpolation, under its key. */
  ghost predicate InterpolatedEntry(entry: (QueryId, seq<Point>), stored: (QueryId, seq<Point>)) {
    stored.0 == entry.0 && Interpolated(entry.1) == Success(stored.1)
  }

  lemma InterpolatedEntriesSnoc(performance: seq<(QueryId, seq<Point>)>, curve: seq<(QueryId, seq<Point>)>,
                                stored: (QueryId, seq<Point>))
    requires performance != [] && |curve| == |performance| - 1
    requires forall q :: 0 <= q < |curve| ==> InterpolatedEntry(performance[..|curve|][q], curve[q])
    requires InterpolatedEntry(performance[|curve|], stored)
    ensures forall q :: 0 <= q < |performance| ==> InterpolatedEntry(performance[q], (curve + [stored])[q])
  {
    forall q | 0 <= q < |performance|
      ensures InterpolatedEntry(performance[q], (curve + [stored])[q])
    {
      if q < |curve| {
        assert performance[..|curve|][q] == performance[q];
      }
    }
  }

  lemma {:induction false} InterpolatedAllValues(performance: seq<(QueryId, seq<Point>)>)
    requires DistinctKeys(performance)
    requires InterpolatedAll(performance).Success?
    ensures var curve := InterpolatedAll(performance).value;
      |curve| == |performance| &&
      forall q :: 0 <= q < |performance| ==>
        curve[q].0 == performance[q].0 && Interpolated(performance[q].1) == Success(curve[q].1)
  {
    if performance != [] {
      var init := performance[..|performance| - 1];
      assert DistinctKeys(init);
      var r0 := InterpolatedAll(init);
      assert r0.Success?;
      InterpolatedAllValues(init);
      var curve := r0.value;
      var last := performance[|performance| - 1];
      var c := Interpolated(last.1);
      assert c.Success?;
      assert last.0 !in KeysOf(curve) by {
        forall q | 0 <= q < |curve| ensures curve[q].0 != last.0 {
          assert curve[q].0 == init[q].0 == performance[q].0;
        }
      }
      assert InterpolatedAll(performance).value == curve + [(last.0, c.value)];
      assert forall q :: 0 <= q < |curve| ==> InterpolatedEntry(init[q], curve[q]);
      InterpolatedEntriesSnoc(performance, curve, (last.0, c.value));
    }
  }

  /** On a dictionary the interpolation stores each query's envelope under
      its key, in the query order. */
  lemma InterpolatedAllEntries(performance: seq<(QueryId, seq<Point>)>)
    requires DistinctKeys(performance)
    requires InterpolatedAll(performance).Success?
    ensures var curve := InterpolatedAll(performance).value;
      |curve| == |performance| &&
      forall q :: 0 <= q < |performance| ==> curve[q] == (performance[q].0, Envelope(performance[q].1))
  {
    InterpolatedAllValues(performance);
    forall q | 0 <= q < |performance|
      ensures Interpolated(performance[q].1) == Success(Envelope(performance[q].1))
    {
      InterpolatedIsEnvelope(performance[q].1);
    }
  }

  // ---------------------------------------------------------------------------
  // Eleven-point curve (eleven_point_curve).

  /** Recall level j of the curve, j / 10. */
  function Level(j: nat): real {
    j as real / 10.0
  }

  /** The `while` at one recall level, on the list pr[m..] that is left:
      leading points below the level are deleted while more than one point
      is left. The result is the position of the new first point. */
  function Advance(pr: seq<Point>, m: nat, level: real): (m': nat)
    requires m < |pr|
    ensures m <= m' < |pr|
    ensures forall i :: m <= i < m' ==> pr[i].recall < level
    ensures pr[m'].recall >= level || m' == |pr| - 1
    decreases |pr| - m
  {
    if m + 1 < |pr| && pr[m].recall < level then Advance(pr, m + 1, level) else m
  }

  /** Position of the first point left after the levels 0.1 .. j/10. */
  function Start(pr: seq<Point>, j: nat): (m: nat)
    requires pr != [] && j <= 9
    ensures m < |pr|
  {
    if j == 0 then 0 else Advance(pr, Start(pr, j - 1), Level(j))
  }

  /** One query's eleven points: the first point's precision at recall 0,
      the precision of the first point left at each level, and the last
      point's (which is never deleted) at recall 1. */
  function QueryCurve(pr: seq<Point>): (c: seq<Point>)
    requires pr != []
    ensures |c| == 11
  {
    seq(11, j requires 0 <= j < 11 => CurvePoint(pr, j))
  }

  function CurvePoint(pr: seq<Point>, j: nat): Point
    requires pr != [] && j <= 10
  {
    if j == 0 then Point(pr[0].precision, 0.0)
    else if j == 10 then Point(pr[|pr| - 1].precision, 1.0)
    else Point(pr[Start(pr, j)].precision, Level(j))
  }

  /** Eleven points, recall j/10 at position j, the first point's precision
      at 0 and the last point's at 1. */
  lemma QueryCurveShape(pr: seq<Point>)
    requires pr != []
    ensures var c := QueryCurve(pr);
      |c| == 11 &&
      (forall j :: 0 <= j < 11 ==> c[j].recall == Level(j)) &&
      c[0].precision == pr[0].precision &&
      c[10].precision == pr[|pr| - 1].precision
  {
  }

  /** Level j (1 .. 9) reads the first point not yet deleted: every point
      before it has recall below j/10, and it reaches j/10 unless it is the
      last point. */
  lemma {:induction false} LevelPick(pr: seq<Point>, j: nat)
    requires pr != [] && 1 <= j <= 9
    ensures var m := Start(pr, j);
      (forall i :: 0 <= i < m ==> pr[i].recall < Level(j)) &&
      (pr[m].recall >= Level(j) || m == |pr| - 1) &&
      QueryCurve(pr)[j].precision == pr[m].precision
  {
    if j > 1 {
      LevelPick(pr, j - 1);
    }
  }

  /** Deletions only move forward through the list. */
  lemma {:induction false} StartMonotone(pr: seq<Point>, j: nat, k: nat)
    requires pr != [] && j <= k <= 9
    ensures Start(pr, j) <= Start(pr, k)
    decreases k
  {
    if j < k {
      StartMonotone(pr, j, k - 1);
    }
  }

  /** The `while` at one level, on the list pr[m..] that is left. */
  method DeleteBelow(result0: seq<Point>, level: real, ghost pr: seq<Point>, ghost m0: nat)
    returns (result: seq<Point>)
    requires m0 < |pr| && result0 == pr[m0..]
    ensures Advance(pr, m0, level) <= |pr| && result == pr[Advance(pr, m0, level)..]
  {
    result := result0;
    ghost var m := m0;
    while result[0].recall < level && |result| > 1
      invariant m0 <= m < |pr| && result == pr[m..]
      invariant Advance(pr, m, level) == Advance(pr, m0, level)
      decreases |result|
    {
      result := result[1..];
      m := m + 1;
    }
  }

  method QueryElevenPoints(pr: seq<Point>) returns (c: seq<Point>)
    requires pr != []
    ensures c == QueryCurve(pr)
  {
    ghost var qc := QueryCurve(pr);
    var result := pr;
    ghost var m := 0;
    c := [Point(result[0].precision, 0.0)];
    var j := 1;
    while j <= 9
      invariant 1 <= j <= 10
      invariant m == Start(pr, j - 1) && result == pr[m..]
      invariant |c| == j && forall k :: 0 <= k < j ==> c[k] == qc[k]
    {
      var level := Level(j);
      result := DeleteBelow(result, level, pr, m);
      m := Advance(pr, m, level);
      c := c + [Point(result[0].precision, level)];
      j := j + 1;
    }
    c := c + [Point(result[|result| - 1].precision, 1.0)];
    assert c == qc;
  }

  /** Sum over the queries of the precision at position i. */
  function PrecisionSum(curves: seq<seq<Point>>, i: nat): real
    requires forall q :: 0 <= q < |curves| ==> i < |curves[q]|
  {
    if curves == [] then 0.0
    else PrecisionSum(curves[..|curves| - 1], i) + curves[|curves| - 1][i].precision
  }

  predicate NoEmptyList(performance: seq<(QueryId, seq<Point>)>) {
    forall q :: 0 <= q < |performance| ==> performance[q].1 != []
  }

  function Curves(performance: seq<(QueryId, seq<Point>)>): (cs: seq<seq<Point>>)
    requires NoEmptyList(performance)
    ensures |cs| == |performance| && forall q :: 0 <= q < |cs| ==> |cs[q]| == 11
  {
    seq(|performance|, q requires 0 <= q < |performance| => QueryCurve(performance[q].1))
  }

  /** `eleven_point_curve`: an empty list fails at `result[0]`; averaging over
      no queries divides by zero; otherwise level i holds the mean precision. */
  function ElevenPointOf(performance: seq<(QueryId, seq<Point>)>): Result<seq<Point>, EvalError> {
    if !NoEmptyList(performance) then Failure(IndexError)
    else if performance == [] then Failure(ZeroDivision)
    else
      var cs := Curves(performance);
      Success(seq(11, i requires 0 <= i < 11 => Point(PrecisionSum(cs, i) / |cs| as real, Level(i))))
  }

  method ElevenPointCurve(performance: seq<(QueryId, seq<Point>)>) returns (r: Result<seq<Point>, EvalError>)
    requires DistinctKeys(performance)
    ensures r == ElevenPointOf(performance)
  {
    var curves: seq<seq<Point>> := [];
    var q := 0;
    while q < |performance|
      invariant 0 <= q <= |performance| && |curves| == q
      invariant forall k :: 0 <= k < q ==> performance[k].1 != [] && curves[k] == QueryCurve(performance[k].1)
    {
      if performance[q].1 == [] {
        return Failure(IndexError);
      }
      var c := QueryElevenPoints(performance[q].1);
      curves := curves + [c];
      q := q + 1;
    }
    assert curves == Curves(performance);
    if |curves| == 0 {
      return Failure(ZeroDivision);
    }
    var avg: seq<Point> := [];
    var i := 0;
    while i < 11
      invariant 0 <= i <= 11 && |avg| == i
      invariant forall k :: 0 <= k < i ==> avg[k] == Point(PrecisionSum(curves, k) / |curves| as real, Level(k))
    {
      var sum := 0.0;
      var k := 0;
      while k < |curves|
        invariant 0 <= k <= |curves|
        invariant sum == PrecisionSum(curves[..k], i)
      {
        assert curves[..k + 1][..k] == curves[..k];
        sum := sum + curves[k][i].precision;
        k := k + 1;
      }
      assert curves[..k] == curves;
      avg := avg + [Point(sum / |curves| as real, i as real / 10.0)];
      i := i + 1;
    }
    assert avg == ElevenPointOf(performance).value;
    return Success(avg);
  }

  /** Eleven points at recall 0, 0.1, ..., 1. */
  lemma ElevenPointShape(performance: seq<(QueryId, seq<Point>)>)
    requires ElevenPointOf(performance).Success?
    ensures var c := ElevenPointOf(performance).value;
      |c| == 11 && forall i :: 0 <= i < 11 ==> c[i].recall == Level(i)
  {
  }

  /** Averaging a single query gives that query's curve back. */
  lemma SingleQueryAverage(key: QueryId, pr: seq<Point>)
    requires pr != []
    ensures ElevenPointOf([(key, pr)]) == Success(QueryCurve(pr))
  {
    var cs := Curves([(key, pr)]);
    var c := QueryCurve(pr);
    assert cs == [c];
    QueryCurveShape(pr);
    var avg := seq(11, i requires 0 <= i < 11 => Point(PrecisionSum(cs, i) / |cs| as real, Level(i)));
    forall i | 0 <= i < 11 ensures avg[i] == c[i] {
      assert cs[..0] == [];
      assert PrecisionSum(cs, i) == c[i].precision;
    }
    assert avg == c;
  }

  lemma {:induction false} PrecisionSumBounds(curves: seq<seq<Point>>, i: nat)
    requires forall q :: 0 <= q < |curves| ==> i < |curves[q]| && 0.0 <= curves[q][i].precision <= 1.0
    ensures 0.0 <= PrecisionSum(curves, i) <= |curves| as real
  {
    if curves != [] {
      PrecisionSumBounds(curves[..|curves| - 1], i);
    }
  }

  lemma MeanAtMostOne(s: real, n: real)
    requires 0.0 <= s <= n && n > 0.0
    ensures 0.0 <= s / n <= 1.0
  {
  }

  /** Precisions in [0, 1] give averaged precisions in [0, 1]. */
  lemma {:induction false} ElevenPointBounds(performance: seq<(QueryId, seq<Point>)>)
    requires ElevenPointOf(performance).Success?
    requires forall q, k :: 0 <= q < |performance| && 0 <= k < |performance[q].1| ==>
               0.0 <= performance[q].1[k].precision <= 1.0
    ensures forall i :: 0 <= i < 11 ==> 0.0 <= ElevenPointOf(performance).value[i].precision <= 1.0
  {
    var cs := Curves(performance);
    forall i | 0 <= i < 11
      ensures 0.0 <= PrecisionSum(cs, i) / |cs| as real <= 1.0
    {
      forall q | 0 <= q < |cs| ensures 0.0 <= cs[q][i].precision <= 1.0 {
        var pr := performance[q].1;
        if 1 <= i <= 9 {
          LevelPick(pr, i);
        }
      }
      PrecisionSumBounds(cs, i);
      MeanAtMostOne(PrecisionSum(cs, i), |cs| as real);
    }
  }
}
