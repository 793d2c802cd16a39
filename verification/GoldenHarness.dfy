/** Scoring, the evaluation harness and the export of a frozen golden set. Scores are exact numbers of
    ten-thousandths. */
module GoldenHarness {
  import opened Options
  import opened Rounding
  import opened Sets
  import opened Texts
  import opened GoldenStaging

  // ---------- tokens ----------

  predicate IsWordChar(c: char) {
    'a' <= c <= 'z' || '0' <= c <= '9'
  }

  /** The length of the run of word characters at the front. */
  function Run(s: string): (n: nat)
    ensures n <= |s|
    ensures forall i :: 0 <= i < n ==> IsWordChar(s[i])
    ensures n < |s| ==> !IsWordChar(s[n])
  {
    if s == "" || !IsWordChar(s[0]) then 0 else 1 + Run(s[1..])
  }

  /** re.findall("[a-z0-9]+", s), as a set. */
  function Words(s: string): set<string>
    decreases |s|
  {
    if s == "" then {}
    else if IsWordChar(s[0]) then {s[..Run(s)]} + Words(s[Run(s)..])
    else Words(s[1..])
  }

  const STOPWORDS: set<string> := {
    "a", "an", "the", "and", "or", "but", "is", "are", "was", "were", "be", "been", "being", "to", "of",
    "in", "on", "at", "for", "with", "this", "that", "these", "those", "it", "its", "as", "by", "from",
    "you", "i", "we", "they", "he", "she"
  }

  function Tokens(text: string): set<string> {
    Words(Lower(text)) - STOPWORDS
  }

  /** s[i..j] is a run of word characters that no word character continues. */
  predicate RunAt(s: string, i: nat, j: nat) {
    && i < j <= |s| && (forall k :: i <= k < j ==> IsWordChar(s[k]))
    && (i > 0 ==> !IsWordChar(s[i - 1])) && (j < |s| ==> !IsWordChar(s[j]))
  }

  ghost predicate HasRun(s: string, w: string) {
    exists i: nat, j: nat :: RunAt(s, i, j) && s[i..j] == w
  }

  /** Runs further right in the text are runs of what is left of it, if nothing joins on to them. */
  lemma RunsShift(s: string, n: nat, i: nat, j: nat)
    requires n <= i < |s| && j <= |s|
    requires 0 < n && (!IsWordChar(s[n - 1]) || n < i || !IsWordChar(s[n]))
    ensures i < j ==> s[i..j] == s[n..][i - n..j - n]
    ensures i < j ==> (RunAt(s, i, j) <==> RunAt(s[n..], i - n, j - n))
  {
    if i < j {
      assert forall k :: n <= k < |s| ==> s[k] == s[n..][k - n];
    }
  }

  lemma RunsAfter(s: string, n: nat, w: string)
    requires 0 < n <= |s| && (n < |s| ==> !IsWordChar(s[n - 1]) || !IsWordChar(s[n]))
    ensures HasRun(s[n..], w) <==> exists i: nat, j: nat :: n <= i && RunAt(s, i, j) && s[i..j] == w
  {
    if HasRun(s[n..], w) {
      var i: nat, j: nat :| RunAt(s[n..], i, j) && s[n..][i..j] == w;
      RunsShift(s, n, i + n, j + n);
      assert n <= i + n && RunAt(s, i + n, j + n) && s[i + n..j + n] == w;
    }
    if i: nat, j: nat :| n <= i && RunAt(s, i, j) && s[i..j] == w {
      RunsShift(s, n, i, j);
      assert RunAt(s[n..], i - n, j - n) && s[n..][i - n..j - n] == w;
    }
  }

  lemma FirstRun(s: string, n: nat, i: nat, j: nat)
    requires s != "" && IsWordChar(s[0]) && n == Run(s)
    ensures RunAt(s, 0, n)
    ensures RunAt(s, i, j) && i < n ==> i == 0 && j == n
  {
  }

  /** The words are exactly the maximal runs of word characters. */
  lemma {:induction false} WordsAreRuns(s: string, w: string)
    ensures w in Words(s) <==> HasRun(s, w)
    decreases |s|
  {
    if s != "" {
      var n := if IsWordChar(s[0]) then Run(s) else 1;
      RunsAfter(s, n, w);
      WordsAreRuns(s[n..], w);
      if IsWordChar(s[0]) {
        FirstRun(s, n, 0, n);
        assert s[0..n] == s[..n];
      }
      if HasRun(s, w) {
        var i: nat, j: nat :| RunAt(s, i, j) && s[i..j] == w;
        if IsWordChar(s[0]) {
          FirstRun(s, n, i, j);
        }
      }
    }
  }

  /** An ASCII letter or digit. */
  predicate IsAlnum(c: char) {
    'a' <= c <= 'z' || 'A' <= c <= 'Z' || '0' <= c <= '9'
  }

  /** `w` reads like the letters and digits text[i..j], in lower case, and neither side goes on with one. */
  ghost predicate WordAt(text: string, i: nat, j: nat, w: string) {
    && i < j <= |text| && |w| == j - i
    && (i > 0 ==> !IsAlnum(text[i - 1])) && (j < |text| ==> !IsAlnum(text[j]))
    && forall k :: 0 <= k < j - i ==>
      && IsAlnum(text[i + k])
      && w[k] as int == text[i + k] as int + if 'A' <= text[i + k] <= 'Z' then 32 else 0
  }

  lemma LowerRuns(text: string, i: nat, j: nat, w: string)
    ensures WordAt(text, i, j, w) <==> RunAt(Lower(text), i, j) && Lower(text)[i..j] == w
  {
    assert forall c: char :: IsWordChar(LowerChar(c)) <==> IsAlnum(c);
    assert forall c: char :: LowerChar(c) as int == c as int + if 'A' <= c <= 'Z' then 32 else 0;
    if WordAt(text, i, j, w) {
      forall k | i <= k < j
        ensures IsWordChar(Lower(text)[k])
      {
        var m := k - i;
        assert w[m] as int == text[i + m] as int + if 'A' <= text[i + m] <= 'Z' then 32 else 0;
        assert IsAlnum(text[i + m]);
      }
      forall k | 0 <= k < |w|
        ensures w[k] == Lower(text)[i..j][k]
      {
        assert Lower(text)[i..j][k] == LowerChar(text[i + k]);
      }
    }
  }

  /** The tokens of a text are exactly its words of ASCII letters and digits in lower case, except the stop
      words. */
  lemma TokensAreWords(text: string, w: string)
    ensures w in Tokens(text) <==> w !in STOPWORDS && exists i: nat, j: nat :: WordAt(text, i, j, w)
  {
    hide WordAt;
    WordsAreRuns(Lower(text), w);
    forall i: nat, j: nat
      ensures WordAt(text, i, j, w) <==> RunAt(Lower(text), i, j) && Lower(text)[i..j] == w
    {
      LowerRuns(text, i, j, w);
    }
  }

  lemma {:induction false} WordsAcrossSeparator(a: string, sep: char, b: string)
    requires !IsWordChar(sep)
    ensures Words(a + [sep] + b) == Words(a) + Words(b)
    decreases |a|
  {
    var s := a + [sep] + b;
    if a == "" {
      assert s[1..] == b;
    } else if IsWordChar(a[0]) {
      var n := Run(a);
      assert forall i :: 0 <= i < |a| ==> s[i] == a[i];
      assert s[|a|] == sep;
      RunIs(s, n);
      assert s[..n] == a[..n];
      assert s[n..] == a[n..] + [sep] + b;
      WordsAcrossSeparator(a[n..], sep, b);
    } else {
      assert s[1..] == a[1..] + [sep] + b;
      WordsAcrossSeparator(a[1..], sep, b);
    }
  }

  lemma RunIs(s: string, n: nat)
    requires n < |s| && !IsWordChar(s[n]) && forall i :: 0 <= i < n ==> IsWordChar(s[i])
    ensures Run(s) == n
  {
  }

  /** The tokens of two texts joined by anything that is not a word character are the tokens of both. */
  lemma TokensAcrossSeparator(a: string, sep: char, b: string)
    requires !IsWordChar(LowerChar(sep))
    ensures Tokens(a + [sep] + b) == Tokens(a) + Tokens(b)
  {
    assert Lower(a + [sep] + b) == Lower(a) + [LowerChar(sep)] + Lower(b);
    WordsAcrossSeparator(Lower(a), LowerChar(sep), Lower(b));
  }

  // ---------- scores ----------

  const ONE: int := 10000

  /** |exp & act| / |exp | act| before rounding. */
  function Overlap(exp: set<string>, act: set<string>): (r: real)
    requires exp != {} || act != {}
    ensures 0.0 <= r <= 1.0
  {
    OverlapBounds(exp, act);
    |exp * act| as real / |exp + act| as real
  }

  lemma OverlapBounds(exp: set<string>, act: set<string>)
    requires exp != {} || act != {}
    ensures 0 < |exp + act| && |exp * act| <= |exp + act|
    ensures 0.0 <= |exp * act| as real / |exp + act| as real <= 1.0
  {
    var both, all := exp * act, exp + act;
    assert all != {};
    SubsetSize(both, all);
    QuotientBounds(|both| as real, |all| as real, 1.0);
  }

  /** score_response on two token sets, in ten-thousandths. */
  function ScoreOf(exp: set<string>, act: set<string>): int {
    if exp == {} && act == {} then ONE
    else if exp == {} || act == {} then 0
    else RoundHalfEven(ONE as real * Overlap(exp, act))
  }

  function ScoreResponse(expected: string, actual: string): int {
    ScoreOf(Tokens(expected), Tokens(actual))
  }

  lemma ScoreOfIsFraction(exp: set<string>, act: set<string>)
    ensures 0 <= ScoreOf(exp, act) <= ONE
  {
  }

  /** Every score lies in [0, 1] and does not depend on which side is which. */
  lemma {:induction false} ScoreIsSymmetricFraction(expected: string, actual: string)
    ensures 0 <= ScoreResponse(expected, actual) <= ONE
    ensures ScoreResponse(expected, actual) == ScoreResponse(actual, expected)
  {
    hide Tokens, RoundHalfEven;
    var e, a := Tokens(expected), Tokens(actual);
    assert e * a == a * e && e + a == a + e;
    ScoreOfIsFraction(e, a);
  }

  /** The same tokens score one; no token in common, unless there is none at all, scores zero. */
  lemma ScoreExtremes(exp: set<string>, act: set<string>)
    ensures exp == act ==> ScoreOf(exp, act) == ONE
    ensures exp * act == {} && exp + act != {} ==> ScoreOf(exp, act) == 0
  {
    hide RoundHalfEven;
    RoundOfInteger(0);
    RoundOfInteger(ONE);
    if exp == act && exp != {} {
      assert exp * act == exp && exp + act == exp;
      assert Overlap(exp, act) == 1.0;
    }
  }

  /** The score is the number of ten-thousandths nearest to the number of common tokens over that of all
      tokens, the even one of two equally near. */
  lemma ScoreIsNearest(exp: set<string>, act: set<string>)
    requires exp + act != {}
    ensures var common, all, score := |exp * act|, |exp + act|, ScoreOf(exp, act);
            && -all <= 2 * (all * score - 10000 * common) <= all
            && (2 * (all * score - 10000 * common) in {all, -all} ==> score % 2 == 0)
  {
    hide RoundHalfEven, Mean;
    var common, all := |exp * act|, |exp + act|;
    assert all > 0 by {
      var x :| x in exp + act;
    }
    MeanIsClose(ONE * common, all);
    if exp == {} || act == {} {
      assert exp * act == {};
    } else {
      ScoreIsMean(exp, act);
    }
  }

  lemma ScoreIsMean(exp: set<string>, act: set<string>)
    requires exp != {} && act != {}
    ensures |exp + act| > 0 && ScoreOf(exp, act) == Mean(ONE * |exp * act|, |exp + act|)
  {
    hide RoundHalfEven;
    OverlapBounds(exp, act);
    TimesQuotient(ONE as real, |exp * act| as real, |exp + act| as real);
    assert (ONE * |exp * act|) as real == ONE as real * |exp * act| as real;
  }

  lemma TimesQuotient(a: real, b: real, c: real)
    requires c > 0.0
    ensures a * (b / c) == (a * b) / c
  {
  }

  /** Rounding never turns a better overlap into a worse score. */
  lemma ScoreKeepsOrder(e1: set<string>, a1: set<string>, e2: set<string>, a2: set<string>)
    requires e1 != {} && a1 != {} && e2 != {} && a2 != {}
    requires Overlap(e1, a1) <= Overlap(e2, a2)
    ensures ScoreOf(e1, a1) <= ScoreOf(e2, a2)
  {
  }

  /** A reply scores by its words alone: the order of its parts and what separates them do not matter. */
  lemma {:induction false} ScoreIgnoresPartOrder(expected: string, a: string, b: string, sep: char, sep': char)
    requires !IsWordChar(LowerChar(sep)) && !IsWordChar(LowerChar(sep'))
    ensures ScoreResponse(expected, a + [sep] + b) == ScoreResponse(expected, b + [sep'] + a)
  {
    TokensAcrossSeparator(a, sep, b);
    TokensAcrossSeparator(b, sep', a);
    assert Tokens(a) + Tokens(b) == Tokens(b) + Tokens(a);
  }

  // ---------- the harness ----------

  datatype Row = Row(input: string, baseScore: int, forgedScore: int, delta: int)

  datatype Report = Report(evaluated: nat, meanBase: int, meanForged: int, delta: int, rows: seq<Row>)

  function Sum(xs: seq<int>): int {
    if xs == [] then 0 else Sum(xs[..|xs| - 1]) + xs[|xs| - 1]
  }

  function BaseScores(rows: seq<Row>): (r: seq<int>)
    ensures |r| == |rows| && forall i :: 0 <= i < |rows| ==> r[i] == rows[i].baseScore
  {
    seq(|rows|, i requires 0 <= i < |rows| => rows[i].baseScore)
  }

  function ForgedScores(rows: seq<Row>): (r: seq<int>)
    ensures |r| == |rows| && forall i :: 0 <= i < |rows| ==> r[i] == rows[i].forgedScore
  {
    seq(|rows|, i requires 0 <= i < |rows| => rows[i].forgedScore)
  }

  function Deltas(rows: seq<Row>): (r: seq<int>)
    ensures |r| == |rows| && forall i :: 0 <= i < |rows| ==> r[i] == rows[i].delta
  {
    seq(|rows|, i requires 0 <= i < |rows| => rows[i].delta)
  }

  /** Sums are running totals. */
  lemma {:induction false} SumIsRunningTotal(xs: seq<int>) returns (totals: seq<int>)
    ensures |totals| == |xs| + 1 && totals[0] == 0 && totals[|xs|] == Sum(xs)
    ensures forall k :: 0 <= k < |xs| ==> totals[k + 1] == totals[k] + xs[k]
    decreases |xs|
  {
    totals := [0];
    if xs != [] {
      totals := SumIsRunningTotal(xs[..|xs| - 1]);
      totals := totals + [totals[|xs| - 1] + xs[|xs| - 1]];
    }
  }

  lemma {:induction false} SumOfDeltas(rows: seq<Row>)
    requires forall i :: 0 <= i < |rows| ==> rows[i].delta == rows[i].forgedScore - rows[i].baseScore
    ensures Sum(Deltas(rows)) == Sum(ForgedScores(rows)) - Sum(BaseScores(rows))
    decreases |rows|
  {
    if rows != [] {
      var front := rows[..|rows| - 1];
      SumOfDeltas(front);
      assert Deltas(rows)[..|rows| - 1] == Deltas(front);
      assert BaseScores(rows)[..|rows| - 1] == BaseScores(front);
      assert ForgedScores(rows)[..|rows| - 1] == ForgedScores(front);
    }
  }

  /** round(total / n, 4) in ten-thousandths. */
  function Mean(total: int, n: int): int
    requires n > 0
  {
    RoundHalfEven(total as real / n as real)
  }

  lemma MeanIsClose(total: int, n: int)
    requires n > 0
    ensures -n <= 2 * (n * Mean(total, n) - total) <= n
    ensures 2 * (n * Mean(total, n) - total) in {n, -n} ==> Mean(total, n) % 2 == 0
  {
    hide Times;
    var m := Mean(total, n);
    MeanError(total as real, n as real, m as real);
    CastProduct(n, m);
    CastBound(n * m, total, n);
    if 2 * (n * m - total) in {n, -n} {
      var e := if 2 * (n * m - total) == n then 0.5 else -0.5;
      Distribute(m as real, e, n as real);
      Halves(n as real);
      CastTie(n * m, total, n);
      TimesDivides(m as real - e, n as real, total as real);
    }
  }

  lemma CastTie(x: int, y: int, n: int)
    ensures 2 * (x - y) == n ==> x as real - y as real == 0.5 * n as real
    ensures 2 * (x - y) == -n ==> x as real - y as real == -0.5 * n as real
  {
  }

  lemma TimesDivides(q: real, n: real, total: real)
    requires n > 0.0 && Times(q, n) == total
    ensures total / n == q
  {
  }

  /** The product of two reals, named so that a proof can leave it uninterpreted. */
  function Times(a: real, b: real): real {
    a * b
  }

  lemma MeanError(total: real, n: real, m: real)
    requires n > 0.0 && -0.5 <= m - total / n <= 0.5
    ensures -n <= 2.0 * (Times(m, n) - total) <= n
  {
    hide Times;
    QuotientTimes(total, n);
    ScaleBound(m, total / n, n);
  }

  lemma QuotientTimes(a: real, b: real)
    requires b != 0.0
    ensures Times(a / b, b) == a
  {
  }

  lemma ScaleBound(m: real, q: real, n: real)
    requires -0.5 <= m - q <= 0.5 && n > 0.0
    ensures -n <= 2.0 * (Times(m, n) - Times(q, n)) <= n
  {
    hide Times;
    Distribute(m, q, n);
    HalfBound(m - q, n);
  }

  lemma Distribute(m: real, q: real, n: real)
    ensures Times(m - q, n) == Times(m, n) - Times(q, n)
  {
  }

  lemma HalfBound(e: real, n: real)
    requires -0.5 <= e <= 0.5 && n > 0.0
    ensures -n <= 2.0 * Times(e, n) <= n
  {
    hide Times;
    NonNegative(0.5 - e, n);
    NonNegative(e - -0.5, n);
    Distribute(0.5, e, n);
    Distribute(e, -0.5, n);
    Halves(n);
  }

  lemma NonNegative(a: real, b: real)
    requires a >= 0.0 && b >= 0.0
    ensures Times(a, b) >= 0.0
  {
  }

  lemma Halves(n: real)
    ensures Times(0.5, n) == 0.5 * n && Times(-0.5, n) == -0.5 * n
  {
  }

  lemma CastProduct(n: int, m: int)
    ensures (n * m) as real == Times(m as real, n as real)
  {
  }

  lemma CastBound(x: int, y: int, n: int)
    requires -(n as real) <= 2.0 * (x as real - y as real) <= n as real
    ensures -n <= 2 * (x - y) <= n
  {
  }

  /** The reported delta is within one ten-thousandth of the exact mean of the row deltas, whatever the
      number of examples. */
  lemma DeltaIsMeanDelta(rows: seq<Row>, meanBase: int, meanForged: int)
    requires rows != []
    requires forall i :: 0 <= i < |rows| ==> rows[i].delta == rows[i].forgedScore - rows[i].baseScore
    requires meanBase == Mean(Sum(BaseScores(rows)), |rows|) && meanForged == Mean(Sum(ForgedScores(rows)), |rows|)
    ensures -|rows| <= |rows| * (meanForged - meanBase) - Sum(Deltas(rows)) <= |rows|
  {
    hide Mean, Sum;
    SumOfDeltas(rows);
    MeanIsClose(Sum(BaseScores(rows)), |rows|);
    MeanIsClose(Sum(ForgedScores(rows)), |rows|);
    assert |rows| * (meanForged - meanBase) == |rows| * meanForged - |rows| * meanBase;
  }

  /** run_harness over the selected examples. The replies are whatever the two models return; a failed
      completion is the empty reply. */
  method RunHarness(golden: seq<Staged>, base: nat -> string, forged: nat -> string) returns (r: Report)
    ensures r.evaluated == |golden| == |r.rows|
    ensures golden == [] ==> r == Report(0, 0, 0, 0, [])
    ensures forall i :: 0 <= i < |golden| ==> RowOk(r.rows[i], golden[i], base(i), forged(i))
    ensures r.delta == r.meanForged - r.meanBase
    ensures -|golden| <= 2 * (|golden| * r.meanBase - Sum(BaseScores(r.rows))) <= |golden|
    ensures -|golden| <= 2 * (|golden| * r.meanForged - Sum(ForgedScores(r.rows))) <= |golden|
    ensures -|golden| <= |golden| * r.delta - Sum(Deltas(r.rows)) <= |golden|
    ensures 0 <= r.meanBase <= ONE && 0 <= r.meanForged <= ONE
  {
    hide Mean, Sum, RoundHalfEven, InputOf, ExpectedOf, ScoreResponse;
    if golden == [] {
      SumOfNone();
      return Report(0, 0, 0, 0, []);
    }
    var rows, sumBase, sumForged := ScoreRows(golden, base, forged);
    var n := |rows|;
    var meanBase, meanForged := Mean(sumBase, n), Mean(sumForged, n);
    DeltaIsMeanDelta(rows, meanBase, meanForged);
    MeanIsClose(sumBase, n);
    MeanIsClose(sumForged, n);
    MeanInRange(sumBase, n);
    MeanInRange(sumForged, n);
    RoundOfInteger(meanForged - meanBase);
    r := Report(n, meanBase, meanForged, RoundHalfEven((meanForged - meanBase) as real), rows);
  }

  /** The row of one example: its question, its two scores against the answer it teaches, their difference. */
  predicate RowOk(row: Row, item: Staged, baseReply: string, forgedReply: string) {
    && row.input == InputOf(item.trace)
    && row.baseScore == ScoreResponse(ExpectedOf(item.trace), baseReply)
    && row.forgedScore == ScoreResponse(ExpectedOf(item.trace), forgedReply)
    && row.delta == row.forgedScore - row.baseScore
  }

  method ScoreRow(item: Staged, baseReply: string, forgedReply: string) returns (row: Row)
    ensures RowOk(row, item, baseReply, forgedReply)
    ensures 0 <= row.baseScore <= ONE && 0 <= row.forgedScore <= ONE
  {
    hide InputOf, ExpectedOf, ScoreResponse, RoundHalfEven;
    var expected := ExpectedOf(item.trace);
    var baseS := ScoreResponse(expected, baseReply);
    var forgedS := ScoreResponse(expected, forgedReply);
    ScoreIsSymmetricFraction(expected, baseReply);
    ScoreIsSymmetricFraction(expected, forgedReply);
    RoundOfInteger(forgedS - baseS);
    row := Row(InputOf(item.trace), baseS, forgedS, RoundHalfEven((forgedS - baseS) as real));
  }

  lemma SumsExtend(rows: seq<Row>, row: Row)
    ensures Sum(BaseScores(rows + [row])) == Sum(BaseScores(rows)) + row.baseScore
    ensures Sum(ForgedScores(rows + [row])) == Sum(ForgedScores(rows)) + row.forgedScore
  {
    assert BaseScores(rows + [row])[..|rows|] == BaseScores(rows);
    assert ForgedScores(rows + [row])[..|rows|] == ForgedScores(rows);
  }

  method ScoreRows(golden: seq<Staged>, base: nat -> string, forged: nat -> string)
    returns (rows: seq<Row>, sumBase: int, sumForged: int)
    ensures |rows| == |golden| && forall k :: 0 <= k < |golden| ==> RowOk(rows[k], golden[k], base(k), forged(k))
    ensures sumBase == Sum(BaseScores(rows)) && sumForged == Sum(ForgedScores(rows))
    ensures 0 <= sumBase <= ONE * |golden| && 0 <= sumForged <= ONE * |golden|
  {
    hide RowOk, Sum;
    rows, sumBase, sumForged := [], 0, 0;
    SumOfNone();
    var i := 0;
    while i < |golden|
      invariant 0 <= i <= |golden| && |rows| == i
      invariant forall k :: 0 <= k < i ==> RowOk(rows[k], golden[k], base(k), forged(k))
      invariant sumBase == Sum(BaseScores(rows)) && sumForged == Sum(ForgedScores(rows))
      invariant 0 <= sumBase <= ONE * i && 0 <= sumForged <= ONE * i
    {
      var row := ScoreRow(golden[i], base(i), forged(i));
      SumsExtend(rows, row);
      rows := rows + [row];
      sumBase, sumForged := sumBase + row.baseScore, sumForged + row.forgedScore;
      i := i + 1;
    }
  }

  lemma SumOfNone()
    ensures Sum(BaseScores([])) == 0 && Sum(ForgedScores([])) == 0 && Sum(Deltas([])) == 0
  {
  }

  lemma MeanInRange(total: int, n: nat)
    requires n > 0 && 0 <= total <= ONE * n
    ensures 0 <= Mean(total, n) <= ONE
  {
    hide RoundHalfEven;
    var q := total as real / n as real;
    QuotientBounds(total as real, n as real, ONE as real);
    RoundKeepsOrder(0.0, q);
    RoundKeepsOrder(q, ONE as real);
    RoundOfInteger(0);
    RoundOfInteger(ONE);
  }

  lemma QuotientBounds(a: real, b: real, top: real)
    requires b > 0.0 && 0.0 <= a <= top * b
    ensures 0.0 <= a / b <= top
  {
  }

  // ---------- DPO export ----------

  datatype DpoRow = DpoRow(prompt: string, chosen: string, rejected: string)

  predicate Exportable(item: Staged) {
    item.status == Paired && NonEmptyText(item.rejected).Some?
  }

  function DpoRowOf(item: Staged): DpoRow
    requires Exportable(item)
  {
    DpoRow(InputOf(item.trace), ExpectedOf(item.trace), item.rejected.value)
  }

  function DpoRows(items: seq<Staged>): seq<DpoRow> {
    if items == [] then []
    else
      var last := items[|items| - 1];
      DpoRows(items[..|items| - 1]) + if Exportable(last) then [DpoRowOf(last)] else []
  }

  /** The row of a paired example with a rejected text: its question, the answer it teaches, and that text. */
  ghost predicate DpoRowFor(row: DpoRow, item: Staged) {
    && item.status == Paired && row.rejected != "" && item.rejected == Some(row.rejected)
    && Asks(item.trace, row.prompt) && Teaches(item.trace, row.chosen)
  }

  lemma DpoRowIs(item: Staged)
    ensures Exportable(item) <==> item.status == Paired && item.rejected != None && item.rejected != Some("")
    ensures Exportable(item) ==> DpoRowFor(DpoRowOf(item), item)
  {
    AsksInput(item.trace, InputOf(item.trace));
    TeachesExpected(item.trace, ExpectedOf(item.trace));
  }

  /** `rows` are those of the examples at the positions `at`, in order, and no other example can be exported. */
  ghost predicate ExportedAt(items: seq<Staged>, rows: seq<DpoRow>, at: seq<nat>) {
    && |at| == |rows| && (forall j, k :: 0 <= j < k < |at| ==> at[j] < at[k])
    && (forall k :: 0 <= k < |at| ==> at[k] < |items| && DpoRowFor(rows[k], items[at[k]]))
    && forall i: nat :: i < |items| && i !in at ==>
      items[i].status != Paired || items[i].rejected == None || items[i].rejected == Some("")
  }

  lemma OneMoreExported(items: seq<Staged>, rows: seq<DpoRow>, at: seq<nat>, item: Staged, row: DpoRow)
    requires ExportedAt(items, rows, at) && DpoRowFor(row, item)
    ensures ExportedAt(items + [item], rows + [row], at + [|items|])
  {
    hide DpoRowFor;
    forall i: nat | i < |items + [item]| && i !in at + [|items|]
      ensures items[i].status != Paired || items[i].rejected == None || items[i].rejected == Some("")
    {
      assert (at + [|items|])[|at|] == |items|;
      assert forall k :: 0 <= k < |at| ==> (at + [|items|])[k] == at[k];
    }
  }

  lemma OneMoreSkipped(items: seq<Staged>, rows: seq<DpoRow>, at: seq<nat>, item: Staged)
    requires ExportedAt(items, rows, at)
    requires item.status != Paired || item.rejected == None || item.rejected == Some("")
    ensures ExportedAt(items + [item], rows, at)
  {
    hide DpoRowFor;
  }

  /** What is exported are exactly the paired examples with a rejected text. */
  lemma {:induction false} DpoRowsAre(items: seq<Staged>) returns (at: seq<nat>)
    ensures ExportedAt(items, DpoRows(items), at)
    decreases |items|
  {
    at := [];
    if items != [] {
      hide ExportedAt, DpoRowFor, Exportable, DpoRowOf;
      var front, last := items[..|items| - 1], items[|items| - 1];
      at := DpoRowsAre(front);
      DpoRowIs(last);
      assert front + [last] == items;
      if Exportable(last) {
        OneMoreExported(front, DpoRows(front), at, last, DpoRowOf(last));
        at := at + [|front|];
      } else {
        OneMoreSkipped(front, DpoRows(front), at, last);
      }
    }
  }

  /** The examples with this status. */
  ghost function WithStatus(items: seq<Staged>, status: PairStatus): set<int> {
    set i | 0 <= i < |items| && items[i].status == status
  }

  lemma StatusOneMore(items: seq<Staged>, item: Staged, status: PairStatus)
    ensures WithStatus(items + [item], status)
         == WithStatus(items, status) + if item.status == status then {|items|} else {}
  {
  }

  lemma {:induction false} CountStatusIsSize(items: seq<Staged>, status: PairStatus)
    ensures CountStatus(items, status) == |WithStatus(items, status)|
    decreases |items|
  {
    if items != [] {
      var last := |items| - 1;
      CountStatusIsSize(items[..last], status);
      StatusOneMore(items[..last], items[last], status);
      assert items[..last] + [items[last]] == items;
    }
  }

  function CountStatus(items: seq<Staged>, status: PairStatus): nat {
    if items == [] then 0
    else CountStatus(items[..|items| - 1], status) + if items[|items| - 1].status == status then 1 else 0
  }

  /** The DPO branch of export_golden_set: every example is exported or counted as skipped. */
  method ExportDpo(golden: seq<Staged>) returns (rows: seq<DpoRow>, skippedUnpaired: nat, skippedCrossSession: nat)
    ensures rows == DpoRows(golden) && exists at :: ExportedAt(golden, rows, at)
    ensures |rows| + skippedUnpaired + skippedCrossSession == |golden|
    ensures skippedCrossSession == |set i | 0 <= i < |golden| && golden[i].status == CrossSession|
  {
    rows, skippedUnpaired, skippedCrossSession := [], 0, 0;
    var i := 0;
    while i < |golden|
      invariant 0 <= i <= |golden| && rows == DpoRows(golden[..i])
      invariant |rows| + skippedUnpaired + skippedCrossSession == i
      invariant skippedCrossSession == CountStatus(golden[..i], CrossSession)
    {
      assert golden[..i + 1][..i] == golden[..i];
      var ex := golden[i];
      if ex.status == Paired && NonEmptyText(ex.rejected).Some? {
        rows := rows + [DpoRow(InputOf(ex.trace), ExpectedOf(ex.trace), ex.rejected.value)];
      } else if ex.status == CrossSession {
        skippedCrossSession := skippedCrossSession + 1;
      } else {
        skippedUnpaired := skippedUnpaired + 1;
      }
      i := i + 1;
    }
    assert golden[..i] == golden;
    CountStatusIsSize(golden, CrossSession);
    ghost var at := DpoRowsAre(golden);
  }

  /** The exported row contrasts two answers given to one input in one session. */
  ghost predicate SameSessionPair(row: DpoRow, ts: seq<Trace>, rejected: seq<Trace>) {
    exists t, c :: t in ts && c in rejected
      && t.sessionId.Some? && c.sessionId == t.sessionId && SameQuestion(t, c)
      && Asks(t, row.prompt) && Teaches(t, row.chosen) && c.finalText == Some(row.rejected)
  }

  /** Exporting any selection of a frozen version yields only same-session pairs. */
  lemma {:induction false} ExportedPairsShareSession(items: seq<Staged>, ts: seq<Trace>, rejected: seq<Trace>,
                                                     r: Ratios, h: Hashes)
    requires ValidRatios(r) && forall x :: x in items ==> x in Frozen(ts, rejected, r, h)
    ensures forall row :: row in DpoRows(items) ==> SameSessionPair(row, ts, rejected)
    decreases |items|
  {
    if items != [] {
      var last := items[|items| - 1];
      ExportedPairsShareSession(items[..|items| - 1], ts, rejected, r, h);
      if Exportable(last) {
        assert last in items;
        var i :| 0 <= i < |Frozen(ts, rejected, r, h)| && Frozen(ts, rejected, r, h)[i] == last;
        FrozenLength(ts, rejected, r, h);
        FrozenPairs(ts, rejected, r, h, i);
        AsksInput(ts[i], InputOf(ts[i]));
        TeachesExpected(ts[i], ExpectedOf(ts[i]));
        var k: nat :| FirstRival(ts[i], rejected, k) && last.rejected == rejected[k].finalText;
        assert ts[i] in ts && rejected[k] in rejected;
        assert SameSessionPair(DpoRowOf(last), ts, rejected);
      }
    }
  }

  lemma FrozenLength(ts: seq<Trace>, rejected: seq<Trace>, r: Ratios, h: Hashes)
    requires ValidRatios(r)
    ensures |Frozen(ts, rejected, r, h)| == |ts|
  {
  }
}
