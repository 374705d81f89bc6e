/** The numeric part of `ndcg` (performance.py): for each query, the running
    discounted cumulative gain over the matched ground-truth rows, the ideal
    gains in non-increasing order, and their ratio. */
module Ndcg {
  import opened Collections
  import opened StableSort
  import opened InvertedIndex
  import opened Performance

  // ---------------------------------------------------------------------------
  // Parsing a judgment code: `sum(int(r) for r in code.strip())`.

  /** The ASCII characters `str.strip()` removes: tab to carriage return,
      the four separators 0x1C-0x1F, and space. */
  predicate IsSpace(c: char) {
    (9 <= c as int <= 13) || (28 <= c as int <= 32)
  }

  predicate IsDigit(c: char) {
    '0' <= c <= '9'
  }

  /** Position of the first character at or after i that is not white space. */
  function SpanStart(s: string, i: nat): (k: nat)
    requires i <= |s|
    ensures i <= k <= |s|
    ensures forall m :: i <= m < k ==> IsSpace(s[m])
    ensures k < |s| ==> !IsSpace(s[k])
    decreases |s| - i
  {
    if i < |s| && IsSpace(s[i]) then SpanStart(s, i + 1) else i
  }

  /** Position just after the last character before j, and not before lo,
      that is not white space. */
  function SpanEnd(s: string, lo: nat, j: nat): (k: nat)
    requires lo <= j <= |s|
    ensures lo <= k <= j
    ensures forall m :: k <= m < j ==> IsSpace(s[m])
    ensures k > lo ==> !IsSpace(s[k - 1])
  {
    if j > lo && IsSpace(s[j - 1]) then SpanEnd(s, lo, j - 1) else j
  }

  /** `str.strip()`: s without its leading and trailing white space. */
  function Strip(s: string): string {
    var a := SpanStart(s, 0);
    s[a..SpanEnd(s, a, |s|)]
  }

  /** Strip removes white space only, from both ends, and leaves none there. */
  lemma StripRemovesEnds(s: string)
    ensures var a, b := SpanStart(s, 0), SpanEnd(s, SpanStart(s, 0), |s|);
      var t := Strip(s);
      t == s[a..b] &&
      (forall k :: 0 <= k < a ==> IsSpace(s[k])) &&
      (forall k :: b <= k < |s| ==> IsSpace(s[k])) &&
      (t == [] || (!IsSpace(t[0]) && !IsSpace(t[|t| - 1])))
  {
  }

  /** Sum of the digits of s; the first character that is not a digit raises
      the ValueError of `int(r)`. */
  function DigitSum(s: string): (r: Result<nat, EvalError>)
    ensures r.Success? <==> forall k :: 0 <= k < |s| ==> IsDigit(s[k])
    ensures r.Success? ==> r.value <= 9 * |s|
    ensures r.Failure? ==> r.error.NotADigit? && r.error.c in s && !IsDigit(r.error.c)
    ensures r.Failure? ==> exists k :: 0 <= k < |s| && s[k] == r.error.c && forall j :: 0 <= j < k ==> IsDigit(s[j])
  {
    if s == [] then Success(0)
    else if !IsDigit(s[0]) then Failure(NotADigit(s[0]))
    else
      match DigitSum(s[1..]) {
        case Failure(e) => Failure(e)
        case Success(n) => Success((s[0] as int - '0' as int) + n)
      }
  }

  /** The relevance of a ground-truth row: the digit sum of its stripped code. */
  function Relevance(code: string): Result<nat, EvalError> {
    DigitSum(Strip(code))
  }

  /** A code such as " 1221 " parses to its digit sum; "3a" is refused at 'a'. */
  lemma RelevanceExample()
    ensures Relevance(" 1221 ") == Success(6)
    ensures Relevance("3a") == Failure(NotADigit('a'))
  {
    StripExample();
    DigitSumExample();
    StripNoSpace("3a");
    assert "3a"[1..] == "a";
  }

  lemma DigitSumExample()
    ensures DigitSum("1221") == Success(6)
  {
    assert "1221"[1..] == "221";
    assert "221"[1..] == "21";
    assert "21"[1..] == "1";
    assert "1"[1..] == "";
  }

  lemma StripNoSpace(s: string)
    requires s != [] && !IsSpace(s[0]) && !IsSpace(s[|s| - 1])
    ensures Strip(s) == s
  {
    assert s[0..|s|] == s;
  }

  lemma StripExample()
    ensures Strip(" 1221 ") == "1221"
  {
    var s := " 1221 ";
    assert SpanStart(s, 1) == 1;
    assert SpanStart(s, 0) == 1;
    assert SpanEnd(s, 1, 5) == 5;
    assert SpanEnd(s, 1, 6) == 5;
    assert s[1..5] == "1221";
  }

  // ---------------------------------------------------------------------------
  // The gains of one query.

  /** A ground-truth row matched by a result, with the result's stated rank. */
  datatype Match = Match(row: AnswerRow, rank: int)

  /** How a judgment code becomes a relevance; `ndcg` uses Relevance. The
      gain computation is stated for any such parser. */
  type Grader = string -> Result<nat, EvalError>

  /** The matches of one result row, in ground-truth order. */
  function RowMatches(row: ResultRow, answer: seq<AnswerRow>): (ms: seq<Match>)
    ensures |ms| == Hits(row.doc, answer)
  {
    if answer == [] then []
    else
      var last := answer[|answer| - 1];
      RowMatches(row, answer[..|answer| - 1])
      + if last.doc == row.doc then [Match(last, row.rank)] else []
  }

  /** Each match of a result row is a ground-truth row of the same
      document, carrying the row's rank. */
  lemma {:induction false} RowMatchesRows(row: ResultRow, answer: seq<AnswerRow>)
    ensures forall k :: 0 <= k < |RowMatches(row, answer)| ==>
              RowMatches(row, answer)[k].row in answer && RowMatches(row, answer)[k].row.doc == row.doc
              && RowMatches(row, answer)[k].rank == row.rank
  {
    if answer != [] {
      var init, last := answer[..|answer| - 1], answer[|answer| - 1];
      RowMatchesRows(row, init);
      var ms, ms0 := RowMatches(row, answer), RowMatches(row, init);
      assert ms == ms0 + (if last.doc == row.doc then [Match(last, row.rank)] else []);
      forall k | 0 <= k < |ms|
        ensures ms[k].row in answer && ms[k].row.doc == row.doc && ms[k].rank == row.rank
      {
        if k < |ms0| {
          assert ms[k] == ms0[k];
          assert ms0[k].row in init;
        } else {
          assert ms[k] == Match(last, row.rank);
        }
      }
    }
  }

  lemma RowMatchesSnoc(row: ResultRow, answer: seq<AnswerRow>, j: nat)
    requires j < |answer|
    ensures RowMatches(row, answer[..j + 1]) == RowMatches(row, answer[..j])
      + if answer[j].doc == row.doc then [Match(answer[j], row.rank)] else []
  {
    assert answer[..j + 1][..j] == answer[..j];
  }

  /** The matches of a query, in the order of the nested loops. */
  function Matches(result: seq<ResultRow>, answer: seq<AnswerRow>): (ms: seq<Match>)
    ensures |ms| == Matched(result, answer)
  {
    if result == [] then []
    else Matches(result[..|result| - 1], answer) + RowMatches(result[|result| - 1], answer)
  }

  function LastOr0(dcg: seq<real>): real {
    if dcg == [] then 0.0 else dcg[|dcg| - 1]
  }

  /** Running DCG and the relevance list `icg` before sorting; a code that is
      not all digits fails first, then a stated rank of 0 divides by zero. */
  function Gains(ms: seq<Match>, grade: Grader): (r: Result<(seq<real>, seq<nat>), EvalError>)
    ensures r.Success? ==> |r.value.0| == |ms| && |r.value.1| == |ms|
  {
    if ms == [] then Success(([], []))
    else
      match Gains(ms[..|ms| - 1], grade) {
        case Failure(e) => Failure(e)
        case Success(acc) => GainStep(acc, ms[|ms| - 1], grade)
      }
  }

  /** One matched row: `dcg_value += relevance / rank`, then both appends. */
  function GainStep(acc: (seq<real>, seq<nat>), m: Match, grade: Grader)
    : (r: Result<(seq<real>, seq<nat>), EvalError>)
    ensures r.Success? ==> |r.value.0| == |acc.0| + 1 && |r.value.1| == |acc.1| + 1
  {
    match grade(m.row.code) {
      case Failure(e) => Failure(e)
      case Success(g) =>
        if m.rank == 0 then Failure(ZeroDivision)
        else Success((acc.0 + [LastOr0(acc.0) + g as real / m.rank as real], acc.1 + [g]))
    }
  }

  lemma GainsSnoc(ms: seq<Match>, m: Match, grade: Grader)
    ensures Gains(ms + [m], grade)
         == match Gains(ms, grade) { case Failure(e) => Failure(e) case Success(acc) => GainStep(acc, m, grade) }
  {
    assert (ms + [m])[..|ms|] == ms;
  }

  /** The ideal DCG over the first k sorted relevances. */
  function Ideal(sorted: seq<nat>, k: nat): real
    requires k <= |sorted|
  {
    if k == 0 then 0.0 else Ideal(sorted, k - 1) + sorted[k - 1] as real / k as real
  }

  /** The ndcg list over the first k positions; a zero ideal DCG divides by zero. */
  function NdcgList(dcg: seq<real>, sorted: seq<nat>, k: nat): (r: Result<seq<real>, EvalError>)
    requires |dcg| == |sorted| && k <= |sorted|
    ensures r.Success? ==> |r.value| == k
  {
    if k == 0 then Success([])
    else
      match NdcgList(dcg, sorted, k - 1) {
        case Failure(e) => Failure(e)
        case Success(n) =>
          var idcg := Ideal(sorted, k);
          if idcg == 0.0 then Failure(ZeroDivision) else Success(n + [dcg[k - 1] / idcg])
      }
  }

  function RelevanceKey(g: nat): real {
    g as real
  }

  /** `icg.sort(reverse=True)`. */
  function SortedGains(icg: seq<nat>): seq<nat> {
    SortDesc(icg, RelevanceKey)
  }

  /** One query's (dcg, ndcg) lists. */
  function QueryNdcg(result: seq<ResultRow>, answer: seq<AnswerRow>, grade: Grader): Result<(seq<real>, seq<real>), EvalError> {
    match Gains(Matches(result, answer), grade) {
      case Failure(e) => Failure(e)
      case Success(acc) =>
        var sorted := SortedGains(acc.1);
        match NdcgList(acc.0, sorted, |sorted|) {
          case Failure(e) => Failure(e)
          case Success(n) => Success((acc.0, n))
        }
    }
  }

  type Table = seq<(QueryId, seq<real>)>

  /** The dcg and ndcg dictionaries over the queries in order. */
  function NdcgOf(answers: Answers, results: seq<(QueryId, seq<ResultRow>)>, grade: Grader)
    : (r: Result<(Table, Table), EvalError>)
    ensures r.Success? ==> DistinctKeys(r.value.0) && DistinctKeys(r.value.1)
  {
    if results == [] then Success(([], []))
    else
      match NdcgOf(answers, results[..|results| - 1], grade) {
        case Failure(e) => Failure(e)
        case Success(tables) =>
          var (key, result) := results[|results| - 1];
          if key !in answers then Failure(MissingAnswer(key))
          else
            match QueryNdcg(result, answers[key], grade) {
              case Failure(e) => Failure(e)
              case Success(q) => Success((Put(tables.0, key, q.0), Put(tables.1, key, q.1)))
            }
      }
  }

  // ---------------------------------------------------------------------------
  // The loops of `ndcg`.

  /** The relevance list stays a prefix as more matches arrive, and a failure
      stays the failure. */
  lemma {:induction false} GainsFailureStays(a: seq<Match>, b: seq<Match>, grade: Grader)
    requires a <= b && Gains(a, grade).Failure?
    ensures Gains(b, grade) == Gains(a, grade)
    decreases |b|
  {
    if |a| < |b| {
      var init := b[..|b| - 1];
      assert a <= init;
      GainsFailureStays(a, init, grade);
    } else {
      assert a == b;
    }
  }

  lemma {:induction false} RowMatchesPrefix(row: ResultRow, answer: seq<AnswerRow>, j: nat)
    requires j <= |answer|
    ensures RowMatches(row, answer[..j]) <= RowMatches(row, answer)
    decreases |answer|
  {
    if j < |answer| {
      var init := answer[..|answer| - 1];
      assert init[..j] == answer[..j];
      RowMatchesPrefix(row, init, j);
    } else {
      assert answer[..j] == answer;
    }
  }

  lemma {:induction false} MatchesPrefix(result: seq<ResultRow>, answer: seq<AnswerRow>, i: nat)
    requires i <= |result|
    ensures Matches(result[..i], answer) <= Matches(result, answer)
    decreases |result|
  {
    if i < |result| {
      var init := result[..|result| - 1];
      assert init[..i] == result[..i];
      MatchesPrefix(init, answer, i);
    } else {
      assert result[..i] == result;
    }
  }

  /** The matches seen inside the nested loops are a prefix of all matches. */
  lemma InnerPrefix(result: seq<ResultRow>, answer: seq<AnswerRow>, i: nat, j: nat)
    requires i < |result| && j <= |answer|
    ensures Matches(result[..i], answer) + RowMatches(result[i], answer[..j]) <= Matches(result, answer)
  {
    RowMatchesPrefix(result[i], answer, j);
    MatchesPrefix(result, answer, i + 1);
    assert result[..i + 1][..i] == result[..i];
  }

  lemma PrefixAppend<T>(p: seq<T>, x: seq<T>, y: seq<T>)
    requires x <= y
    ensures p + x <= p + y
  {
    assert (p + y)[..|p + x|] == p + x;
  }

  /** A failure inside the inner loop is the failure of the whole row. */
  lemma RowFailureStays(row: ResultRow, answer: seq<AnswerRow>, j: nat, grade: Grader, pre: seq<Match>)
    requires j <= |answer| && Gains(pre + RowMatches(row, answer[..j]), grade).Failure?
    ensures Gains(pre + RowMatches(row, answer), grade) == Gains(pre + RowMatches(row, answer[..j]), grade)
  {
    RowMatchesPrefix(row, answer, j);
    PrefixAppend(pre, RowMatches(row, answer[..j]), RowMatches(row, answer));
    GainsFailureStays(pre + RowMatches(row, answer[..j]), pre + RowMatches(row, answer), grade);
  }

  /** A ground-truth row of another document leaves the gains as they are. */
  lemma RowStepSkip(row: ResultRow, answer: seq<AnswerRow>, j: nat, grade: Grader, pre: seq<Match>)
    requires j < |answer| && answer[j].doc != row.doc
    ensures Gains(pre + RowMatches(row, answer[..j + 1]), grade) == Gains(pre + RowMatches(row, answer[..j]), grade)
  {
    RowMatchesSnoc(row, answer, j);
    assert pre + RowMatches(row, answer[..j + 1]) == pre + RowMatches(row, answer[..j]);
  }

  /** A matching ground-truth row with a valid code and a non-zero rank adds
      relevance / rank to the running DCG and its relevance to `icg`. */
  lemma RowStepMatch(row: ResultRow, answer: seq<AnswerRow>, j: nat, grade: Grader, pre: seq<Match>,
                     dcg: seq<real>, icg: seq<nat>, g: nat)
    requires j < |answer| && answer[j].doc == row.doc && row.rank != 0
    requires grade(answer[j].code) == Success(g)
    requires Gains(pre + RowMatches(row, answer[..j]), grade) == Success((dcg, icg))
    ensures Gains(pre + RowMatches(row, answer[..j + 1]), grade)
         == Success((dcg + [LastOr0(dcg) + g as real / row.rank as real], icg + [g]))
  {
    RowMatchesSnoc(row, answer, j);
    var ms, m := pre + RowMatches(row, answer[..j]), Match(answer[j], row.rank);
    assert pre + RowMatches(row, answer[..j + 1]) == ms + [m];
    GainsSnocValue(ms, m, grade, (dcg, icg), g);
  }

  lemma GainsSnocValue(ms: seq<Match>, m: Match, grade: Grader, acc: (seq<real>, seq<nat>), g: nat)
    requires Gains(ms, grade) == Success(acc)
    requires grade(m.row.code) == Success(g) && m.rank != 0
    ensures Gains(ms + [m], grade) == Success((acc.0 + [LastOr0(acc.0) + g as real / m.rank as real], acc.1 + [g]))
  {
    GainsSnoc(ms, m, grade);
  }

  /** A matching ground-truth row with an invalid code or a zero rank fails. */
  lemma RowStepFail(row: ResultRow, answer: seq<AnswerRow>, j: nat, grade: Grader, pre: seq<Match>)
    requires j < |answer| && answer[j].doc == row.doc
    requires grade(answer[j].code).Failure? || row.rank == 0
    requires Gains(pre + RowMatches(row, answer[..j]), grade).Success?
    ensures Gains(pre + RowMatches(row, answer), grade)
         == if grade(answer[j].code).Failure? then Failure(grade(answer[j].code).error) else Failure(ZeroDivision)
  {
    RowMatchesSnoc(row, answer, j);
    var ms := pre + RowMatches(row, answer[..j]);
    assert pre + RowMatches(row, answer[..j + 1]) == ms + [Match(answer[j], row.rank)];
    GainsSnoc(ms, Match(answer[j], row.rank), grade);
    RowFailureStays(row, answer, j + 1, grade, pre);
  }

  /** The inner loop over the ground truth for one result row. */
  method RowGains(row: ResultRow, answer: seq<AnswerRow>, grade: Grader,
                  dcg0: seq<real>, icg0: seq<nat>, ghost pre: seq<Match>)
    returns (r: Result<(seq<real>, seq<nat>), EvalError>)
    requires Gains(pre, grade) == Success((dcg0, icg0))
    ensures r == Gains(pre + RowMatches(row, answer), grade)
  {
    var dcg, icg := dcg0, icg0;
    var dcgValue := LastOr0(dcg);
    var j := 0;
    assert pre + RowMatches(row, answer[..0]) == pre;
    while j < |answer|
      invariant 0 <= j <= |answer|
      invariant Gains(pre + RowMatches(row, answer[..j]), grade) == Success((dcg, icg))
      invariant dcgValue == LastOr0(dcg)
    {
      var right := answer[j];
      if right.doc != row.doc {
        RowStepSkip(row, answer, j, grade, pre);
      } else {
        var relevance := grade(right.code);
        if relevance.Failure? || row.rank == 0 {
          RowStepFail(row, answer, j, grade, pre);
          if relevance.Failure? {
            return Failure(relevance.error);
          }
          return Failure(ZeroDivision);
        }
        RowStepMatch(row, answer, j, grade, pre, dcg, icg, relevance.value);
        dcgValue := dcgValue + relevance.value as real / row.rank as real;
        icg := icg + [relevance.value];
        dcg := dcg + [dcgValue];
      }
      j := j + 1;
    }
    assert answer[..j] == answer;
    return Success((dcg, icg));
  }

  lemma MatchesSnoc(result: seq<ResultRow>, answer: seq<AnswerRow>, i: nat)
    requires i < |result|
    ensures Matches(result[..i + 1], answer) == Matches(result[..i], answer) + RowMatches(result[i], answer)
  {
    assert result[..i + 1][..i] == result[..i];
  }

  /** A failure after the first i result rows is the failure of the query. */
  lemma QueryFailureStays(result: seq<ResultRow>, answer: seq<AnswerRow>, i: nat, grade: Grader)
    requires i <= |result| && Gains(Matches(result[..i], answer), grade).Failure?
    ensures Gains(Matches(result, answer), grade) == Gains(Matches(result[..i], answer), grade)
  {
    MatchesPrefix(result, answer, i);
    GainsFailureStays(Matches(result[..i], answer), Matches(result, answer), grade);
  }

  /** The nested loops: running DCG and the relevance list of one query. */
  method QueryGains(result: seq<ResultRow>, answer: seq<AnswerRow>, grade: Grader)
    returns (r: Result<(seq<real>, seq<nat>), EvalError>)
    ensures r == Gains(Matches(result, answer), grade)
  {
    var dcg: seq<real> := [];
    var icg: seq<nat> := [];
    var i := 0;
    while i < |result|
      invariant 0 <= i <= |result|
      invariant Gains(Matches(result[..i], answer), grade) == Success((dcg, icg))
    {
      MatchesSnoc(result, answer, i);
      var next := RowGains(result[i], answer, grade, dcg, icg, Matches(result[..i], answer));
      if next.Failure? {
        QueryFailureStays(result, answer, i + 1, grade);
        return next;
      }
      dcg, icg := next.value.0, next.value.1;
      i := i + 1;
    }
    assert result[..i] == result;
    return Success((dcg, icg));
  }

  lemma {:induction false} NdcgFailureStays(dcg: seq<real>, sorted: seq<nat>, k: nat, n: nat)
    requires |dcg| == |sorted| && k <= n <= |sorted|
    requires NdcgList(dcg, sorted, k).Failure?
    ensures NdcgList(dcg, sorted, n) == NdcgList(dcg, sorted, k)
    decreases n
  {
    if k < n {
      NdcgFailureStays(dcg, sorted, k, n - 1);
    }
  }

  /** The second loop: sort the relevances, accumulate the ideal DCG, divide. */
  method QueryIdeal(dcg: seq<real>, icg: seq<nat>) returns (r: Result<seq<real>, EvalError>)
    requires |dcg| == |icg|
    ensures r == NdcgList(dcg, SortedGains(icg), |icg|)
  {
    var sorted := SortedGains(icg);
    var idcg := 0.0;
    var ndcg: seq<real> := [];
    var i := 1;
    while i <= |sorted|
      invariant 1 <= i <= |sorted| + 1
      invariant idcg == Ideal(sorted, i - 1)
      invariant NdcgList(dcg, sorted, i - 1) == Success(ndcg)
    {
      idcg := idcg + sorted[i - 1] as real / i as real;
      if idcg == 0.0 {
        NdcgFailureStays(dcg, sorted, i, |sorted|);
        return Failure(ZeroDivision);
      }
      ndcg := ndcg + [dcg[i - 1] / idcg];
      i := i + 1;
    }
    return Success(ndcg);
  }

  method QueryNdcgLists(result: seq<ResultRow>, answer: seq<AnswerRow>, grade: Grader)
    returns (r: Result<(seq<real>, seq<real>), EvalError>)
    ensures r == QueryNdcg(result, answer, grade)
  {
    var gains := QueryGains(result, answer, grade);
    if gains.Failure? {
      return Failure(gains.error);
    }
    var (dcg, icg) := gains.value;
    var ndcg := QueryIdeal(dcg, icg);
    if ndcg.Failure? {
      return Failure(ndcg.error);
    }
    return Success((dcg, ndcg.value));
  }

  lemma {:induction false} NdcgOfFailureStays(answers: Answers, results: seq<(QueryId, seq<ResultRow>)>,
                                               grade: Grader, k: nat)
    requires k <= |results| && NdcgOf(answers, results[..k], grade).Failure?
    ensures NdcgOf(answers, results, grade) == NdcgOf(answers, results[..k], grade)
    decreases |results|
  {
    if k < |results| {
      var init := results[..|results| - 1];
      assert init[..k] == results[..k];
      NdcgOfFailureStays(answers, init, grade, k);
    } else {
      assert results[..k] == results;
    }
  }

  /** `ndcg` up to the plots: the dcg and ndcg dictionaries. */
  method NdcgTables(answers: Answers, results: seq<(QueryId, seq<ResultRow>)>)
    returns (r: Result<(Table, Table), EvalError>)
    ensures r == NdcgOf(answers, results, Relevance)
  {
    var dcg: Table := [];
    var ndcg: Table := [];
    var i := 0;
    while i < |results|
      invariant 0 <= i <= |results|
      invariant NdcgOf(answers, results[..i], Relevance) == Success((dcg, ndcg))
    {
      var (key, result) := results[i];
      assert results[..i + 1][..i] == results[..i];
      if key !in answers {
        NdcgOfFailureStays(answers, results, Relevance, i + 1);
        return Failure(MissingAnswer(key));
      }
      var q := QueryNdcgLists(result, answers[key], Relevance);
      if q.Failure? {
        NdcgOfFailureStays(answers, results, Relevance, i + 1);
        return Failure(q.error);
      }
      dcg := Put(dcg, key, q.value.0);
      ndcg := Put(ndcg, key, q.value.1);
      i := i + 1;
    }
    assert results[..i] == results;
    return Success((dcg, ndcg));
  }

  // ---------------------------------------------------------------------------
  // Properties.

  /** One dcg value and one ndcg value per matched ground-truth row: as many
      as the hits that precision_recall counts for the query. */
  lemma QueryNdcgLengths(result: seq<ResultRow>, answer: seq<AnswerRow>, grade: Grader)
    requires QueryNdcg(result, answer, grade).Success?
    ensures var q := QueryNdcg(result, answer, grade).value;
      |q.0| == Matched(result, answer) && |q.1| == Matched(result, answer)
  {
  }

  /** With positive ranks the running DCG is non-negative and never decreases. */
  lemma {:induction false} DcgNonDecreasing(ms: seq<Match>, grade: Grader)
    requires forall k :: 0 <= k < |ms| ==> ms[k].rank > 0
    requires Gains(ms, grade).Success?
    ensures var dcg := Gains(ms, grade).value.0;
      (forall i :: 0 <= i < |dcg| ==> 0.0 <= dcg[i]) &&
      (forall i :: 0 < i < |dcg| ==> dcg[i - 1] <= dcg[i])
  {
    if ms != [] {
      var init, m := ms[..|ms| - 1], ms[|ms| - 1];
      GainsSnoc(init, m, grade);
      assert ms == init + [m];
      var r0 := Gains(init, grade);
      assert r0.Success?;
      DcgNonDecreasing(init, grade);
      var dcg0 := r0.value.0;
      var g := grade(m.row.code).value;
      NonNegativeRatio(g, m.rank);
      assert Gains(ms, grade).value.0 == dcg0 + [LastOr0(dcg0) + g as real / m.rank as real];
    }
  }

  lemma NonNegativeRatio(g: nat, rank: int)
    requires rank > 0
    ensures g as real / rank as real >= 0.0
  {
  }

  lemma {:induction false} IdealAtLeastFirst(sorted: seq<nat>, k: nat)
    requires 1 <= k <= |sorted|
    ensures Ideal(sorted, k) >= sorted[0] as real
  {
    if k > 1 {
      IdealAtLeastFirst(sorted, k - 1);
      NonNegativeRatio(sorted[k - 1], k);
    }
  }

  lemma {:induction false} NdcgSucceeds(dcg: seq<real>, sorted: seq<nat>, k: nat)
    requires |dcg| == |sorted| && k <= |sorted|
    requires sorted != [] && sorted[0] > 0
    ensures NdcgList(dcg, sorted, k).Success?
  {
    if k > 0 {
      NdcgSucceeds(dcg, sorted, k - 1);
      IdealAtLeastFirst(sorted, k);
    }
  }

  /** ndcg divides by zero exactly when the query matched some ground-truth
      row and every matched relevance is 0. */
  lemma NdcgZeroDivision(dcg: seq<real>, icg: seq<nat>)
    requires |dcg| == |icg|
    ensures NdcgList(dcg, SortedGains(icg), |icg|).Failure?
        <==> icg != [] && forall k :: 0 <= k < |icg| ==> icg[k] == 0
  {
    var sorted := SortedGains(icg);
    assert multiset(sorted) == multiset(icg);
    if icg != [] {
      if sorted[0] > 0 {
        NdcgSucceeds(dcg, sorted, |sorted|);
        assert sorted[0] in multiset(icg);
      } else {
        forall k | 0 <= k < |icg| ensures icg[k] == 0 {
          assert icg[k] in multiset(sorted);
          var m :| 0 <= m < |sorted| && sorted[m] == icg[k];
          assert RelevanceKey(sorted[0]) >= RelevanceKey(sorted[m]);
        }
        assert Ideal(sorted, 1) == 0.0;
        NdcgFailureStays(dcg, sorted, 1, |sorted|);
      }
    }
  }

  /** On a dictionary of results the dcg and ndcg tables keep the query order
      and hold each query's lists under its key. */
  lemma {:induction false} NdcgEntries(answers: Answers, results: seq<(QueryId, seq<ResultRow>)>, grade: Grader)
    requires DistinctKeys(results)
    requires NdcgOf(answers, results, grade).Success?
    ensures var t := NdcgOf(answers, results, grade).value;
      |t.0| == |results| && |t.1| == |results| &&
      forall q :: 0 <= q < |results| ==>
        t.0[q].0 == results[q].0 && t.1[q].0 == results[q].0 && results[q].0 in answers &&
        QueryNdcg(results[q].1, answers[results[q].0], grade) == Success((t.0[q].1, t.1[q].1))
  {
    if results != [] {
      var init := results[..|results| - 1];
      assert DistinctKeys(init);
      var r0 := NdcgOf(answers, init, grade);
      assert r0.Success?;
      NdcgEntries(answers, init, grade);
      var dcg, ndcg := r0.value.0, r0.value.1;
      var (key, result) := results[|results| - 1];
      assert key in answers;
      var q := QueryNdcg(result, answers[key], grade);
      assert q.Success?;
      assert key !in KeysOf(dcg) && key !in KeysOf(ndcg) by {
        forall k | 0 <= k < |init| ensures dcg[k].0 != key && ndcg[k].0 != key {
          assert dcg[k].0 == ndcg[k].0 == init[k].0 == results[k].0;
        }
      }
      var t := NdcgOf(answers, results, grade).value;
      assert t == (dcg + [(key, q.value.0)], ndcg + [(key, q.value.1)]);
      forall k | 0 <= k < |results|
        ensures t.0[k].0 == results[k].0 && t.1[k].0 == results[k].0 && results[k].0 in answers
        ensures QueryNdcg(results[k].1, answers[results[k].0], grade) == Success((t.0[k].1, t.1[k].1))
      {
        if k < |init| {
          assert results[k] == init[k] && t.0[k] == dcg[k] && t.1[k] == ndcg[k];
        } else {
          assert results[k] == (key, result);
          assert q == Success((t.0[k].1, t.1[k].1));
        }
      }
    }
  }
}
