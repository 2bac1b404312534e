/** The sequential comparison strategy (`NormalComparisonStrategy`): an
    optional base-code step, then every pair i < j of submissions that both
    have a token list goes to the matcher, in loop order.  The matcher and the
    base-code comparison are not part of this model: the matcher is the
    function `compare`, and the base-code step is recorded as a call. */
module NormalStrategy {
  import opened Wrappers
  import opened Counting
  import opened Comparisons
  import opened Results

  /** `compareSubmissions(first, second, withBaseCode)`: an empty result when
      the pair does not make the similarity threshold. */
  type Matcher = (Submission, Submission, bool) -> Option<Comparison>

  /** What the strategy asks of its collaborators, in order. */
  datatype MatcherCall =
    | BaseCodeComparison
    | PairComparison(first: nat, second: nat, withBaseCode: bool)

  /** The pairs (i, k) with i < k < hi whose second submission has tokens,
      in the order of the inner loop. */
  function Row(submissions: seq<Submission>, i: nat, hi: nat): (row: seq<(nat, nat)>)
    requires hi <= |submissions|
    ensures forall p <- row :: p.0 == i < p.1 < hi
    decreases hi
  {
    if hi <= i + 1 then []
    else Row(submissions, i, hi - 1) + (if submissions[hi - 1].HasTokens() then [(i, hi - 1)] else [])
  }

  /** The pairs visited by the first `rows` iterations of the outer loop. */
  function Visited(submissions: seq<Submission>, rows: nat): (visited: seq<(nat, nat)>)
    requires rows <= |submissions|
    ensures forall p <- visited :: p.0 < rows && p.0 < p.1 < |submissions|
  {
    if rows == 0 then []
    else
      Visited(submissions, rows - 1)
      + (if submissions[rows - 1].HasTokens() then Row(submissions, rows - 1, |submissions|) else [])
  }

  /** Every pair the double loop hands to the matcher, in loop order. */
  function VisitedPairs(submissions: seq<Submission>): (visited: seq<(nat, nat)>)
    ensures forall p <- visited :: p.0 < p.1 < |submissions|
  {
    if |submissions| == 0 then [] else Visited(submissions, |submissions| - 1)
  }

  /** The comparisons the matcher returns for `pairs`, in the same order. */
  function Outcomes(submissions: seq<Submission>, pairs: seq<(nat, nat)>, withBaseCode: bool, compare: Matcher): seq<Comparison>
    requires forall p <- pairs :: p.0 < |submissions| && p.1 < |submissions|
  {
    if pairs == [] then []
    else
      var p := pairs[|pairs| - 1];
      Outcomes(submissions, pairs[..|pairs| - 1], withBaseCode, compare)
      + match compare(submissions[p.0], submissions[p.1], withBaseCode)
        case Some(c) => [c]
        case None => []
  }

  lemma {:induction false} RowSound(submissions: seq<Submission>, i: nat, hi: nat)
    requires hi <= |submissions|
    ensures forall p <- Row(submissions, i, hi) :: p.0 == i < p.1 < hi && submissions[p.1].HasTokens()
    ensures forall k :: i < k < hi && submissions[k].HasTokens() ==> (i, k) in Row(submissions, i, hi)
    ensures forall a, b :: 0 <= a < b < |Row(submissions, i, hi)| ==> Row(submissions, i, hi)[a].1 < Row(submissions, i, hi)[b].1
    decreases hi
  {
    if hi > i + 1 {
      RowSound(submissions, i, hi - 1);
    }
  }

  lemma {:induction false} VisitedSound(submissions: seq<Submission>, rows: nat)
    requires rows <= |submissions|
    ensures forall p <- Visited(submissions, rows) ::
              p.0 < rows && p.0 < p.1 < |submissions| && submissions[p.0].HasTokens() && submissions[p.1].HasTokens()
    ensures forall i, j :: 0 <= i < rows && i < j < |submissions| && submissions[i].HasTokens() && submissions[j].HasTokens()
              ==> (i, j) in Visited(submissions, rows)
    ensures forall a, b :: 0 <= a < b < |Visited(submissions, rows)| ==> LexLess(Visited(submissions, rows)[a], Visited(submissions, rows)[b])
  {
    if rows > 0 {
      VisitedSound(submissions, rows - 1);
      RowSound(submissions, rows - 1, |submissions|);
    }
  }

  predicate LexLess(p: (nat, nat), q: (nat, nat))
  {
    p.0 < q.0 || (p.0 == q.0 && p.1 < q.1)
  }

  /** Only pairs i < j < n whose two submissions have token lists are visited,
      every such pair is visited, and the visits are in strictly increasing
      lexicographic order, so none is visited twice. */
  lemma VisitedPairsExact(submissions: seq<Submission>)
    ensures var v := VisitedPairs(submissions);
            && (forall p <- v :: p.0 < p.1 < |submissions| && submissions[p.0].HasTokens() && submissions[p.1].HasTokens())
            && (forall i, j :: 0 <= i < j < |submissions| && submissions[i].HasTokens() && submissions[j].HasTokens() ==> (i, j) in v)
            && (forall a, b :: 0 <= a < b < |v| ==> LexLess(v[a], v[b]))
  {
    if |submissions| > 0 {
      VisitedSound(submissions, |submissions| - 1);
    }
  }

  /** The number of submissions in [lo, hi) that have a token list. */
  function WithTokens(submissions: seq<Submission>, lo: nat, hi: nat): (n: nat)
    requires lo <= hi <= |submissions|
    ensures n <= hi - lo
    decreases hi - lo
  {
    if lo == hi then 0 else (if submissions[lo].HasTokens() then 1 else 0) + WithTokens(submissions, lo + 1, hi)
  }

  lemma {:induction false} WithTokensSplit(submissions: seq<Submission>, lo: nat, mid: nat, hi: nat)
    requires lo <= mid <= hi <= |submissions|
    ensures WithTokens(submissions, lo, hi) == WithTokens(submissions, lo, mid) + WithTokens(submissions, mid, hi)
    decreases mid - lo
  {
    if lo < mid {
      WithTokensSplit(submissions, lo + 1, mid, hi);
    }
  }

  lemma {:induction false} RowLength(submissions: seq<Submission>, i: nat, hi: nat)
    requires i < hi <= |submissions|
    ensures |Row(submissions, i, hi)| == WithTokens(submissions, i + 1, hi)
    decreases hi
  {
    if hi > i + 1 {
      RowLength(submissions, i, hi - 1);
      WithTokensSplit(submissions, i + 1, hi - 1, hi);
    }
  }

  lemma {:induction false} VisitedLength(submissions: seq<Submission>, rows: nat)
    requires rows <= |submissions|
    ensures |Visited(submissions, rows)|
            == PairsAmong(WithTokens(submissions, 0, rows)) + WithTokens(submissions, 0, rows) * WithTokens(submissions, rows, |submissions|)
  {
    var n := |submissions|;
    if rows > 0 {
      var k := rows - 1;
      VisitedLength(submissions, k);
      WithTokensSplit(submissions, 0, k, rows);
      WithTokensSplit(submissions, k, rows, n);
      var a, b := WithTokens(submissions, 0, k), WithTokens(submissions, rows, n);
      assert WithTokens(submissions, k, rows) == if submissions[k].HasTokens() then 1 else 0;
      if submissions[k].HasTokens() {
        RowLength(submissions, k, n);
        PairsAmongStep(a, b);
      }
    }
  }

  /** With m submissions that have token lists, exactly m(m-1)/2 pairs are
      visited, hence never more than n(n-1)/2; one submission or none gives
      no visit at all. */
  lemma VisitedPairsCount(submissions: seq<Submission>)
    ensures |VisitedPairs(submissions)| == PairsAmong(WithTokens(submissions, 0, |submissions|))
    ensures |VisitedPairs(submissions)| <= PairsAmong(|submissions|)
    ensures |submissions| <= 1 ==> VisitedPairs(submissions) == []
  {
    VisitedPairsCountExact(submissions);
    PairsAmongMonotone(WithTokens(submissions, 0, |submissions|), |submissions|);
  }

  lemma VisitedPairsCountExact(submissions: seq<Submission>)
    ensures |VisitedPairs(submissions)| == PairsAmong(WithTokens(submissions, 0, |submissions|))
  {
    var n := |submissions|;
    if n > 0 {
      VisitedLength(submissions, n - 1);
      WithTokensSplit(submissions, 0, n - 1, n);
      var a := WithTokens(submissions, 0, n - 1);
      if submissions[n - 1].HasTokens() {
        assert WithTokens(submissions, n - 1, n) == 1;
        PairsAmongSucc(a);
      } else {
        assert WithTokens(submissions, n - 1, n) == 0;
      }
    }
  }

  /** The matcher adds one comparison for each visited pair it returns a value
      for and none for the others; each output comes from a visited pair. */
  lemma {:induction false} OutcomesFromPairs(submissions: seq<Submission>, pairs: seq<(nat, nat)>, withBaseCode: bool, compare: Matcher)
    requires forall p <- pairs :: p.0 < |submissions| && p.1 < |submissions|
    ensures |Outcomes(submissions, pairs, withBaseCode, compare)| <= |pairs|
    ensures (forall p <- pairs :: compare(submissions[p.0], submissions[p.1], withBaseCode).Some?)
            ==> |Outcomes(submissions, pairs, withBaseCode, compare)| == |pairs|
    ensures forall c <- Outcomes(submissions, pairs, withBaseCode, compare) ::
              exists p <- pairs :: compare(submissions[p.0], submissions[p.1], withBaseCode) == Some(c)
  {
    if pairs != [] {
      var init := pairs[..|pairs| - 1];
      assert forall p <- init :: p in pairs;
      OutcomesFromPairs(submissions, init, withBaseCode, compare);
    }
  }

  lemma {:induction false} OutcomesAppend(submissions: seq<Submission>, a: seq<(nat, nat)>, b: seq<(nat, nat)>, withBaseCode: bool, compare: Matcher)
    requires forall p <- a + b :: p.0 < |submissions| && p.1 < |submissions|
    ensures Outcomes(submissions, a + b, withBaseCode, compare)
            == Outcomes(submissions, a, withBaseCode, compare) + Outcomes(submissions, b, withBaseCode, compare)
    decreases |b|
  {
    if b == [] {
      assert a + b == a;
    } else {
      var init := b[..|b| - 1];
      assert (a + b)[..|a + b| - 1] == a + init;
      assert forall p <- a + init :: p in a + b;
      OutcomesAppend(submissions, a, init, withBaseCode, compare);
    }
  }

  /** The inner loop for one first submission i: lines 37-43. */
  method CompareRow(submissions: seq<Submission>, i: nat, withBaseCode: bool, compare: Matcher)
    returns (comparisons: seq<Comparison>, visited: seq<(nat, nat)>)
    requires i < |submissions|
    ensures visited == Row(submissions, i, |submissions|)
    ensures comparisons == Outcomes(submissions, visited, withBaseCode, compare)
  {
    var n := |submissions|;
    var first := submissions[i];
    comparisons, visited := [], [];
    for j := i + 1 to n
      invariant visited == Row(submissions, i, j)
      invariant comparisons == Outcomes(submissions, visited, withBaseCode, compare)
    {
      var second := submissions[j];
      if second.tokenList.None? {
        continue;
      }
      ghost var prior := visited;
      visited := visited + [(i, j)];
      assert visited[..|visited| - 1] == prior;
      var outcome := compare(first, second, withBaseCode);
      if outcome.Some? {
        comparisons := comparisons + [outcome.value];
      }
    }
  }

  /** The pair loop: lines 30-44. */
  method ComparePairs(submissions: seq<Submission>, withBaseCode: bool, compare: Matcher)
    returns (comparisons: seq<Comparison>, visited: seq<(nat, nat)>)
    ensures visited == VisitedPairs(submissions)
    ensures comparisons == Outcomes(submissions, visited, withBaseCode, compare)
  {
    var n := |submissions|;
    comparisons, visited := [], [];
    var i := 0;
    while i < n - 1
      invariant i <= n
      invariant n > 0 ==> i <= n - 1
      invariant visited == Visited(submissions, i)
      invariant comparisons == Outcomes(submissions, visited, withBaseCode, compare)
    {
      var first := submissions[i];
      if first.tokenList.None? {
        assert Visited(submissions, i + 1) == visited;
        i := i + 1;
        continue;
      }
      var rowComparisons, row := CompareRow(submissions, i, withBaseCode, compare);
      assert Visited(submissions, i + 1) == visited + row;
      OutcomesAppend(submissions, visited, row, withBaseCode, compare);
      visited := visited + row;
      comparisons := comparisons + rowComparisons;
      i := i + 1;
    }
    if n > 0 {
      assert i == n - 1;
    }
  }

  /** One matcher call per visited pair, in visiting order. */
  function PairCalls(visited: seq<(nat, nat)>, withBaseCode: bool): (calls: seq<MatcherCall>)
    ensures |calls| == |visited|
    ensures forall k | 0 <= k < |visited| :: calls[k] == PairComparison(visited[k].0, visited[k].1, withBaseCode)
  {
    seq(|visited|, k requires 0 <= k < |visited| => PairComparison(visited[k].0, visited[k].1, withBaseCode))
  }

  /** The calls the strategy makes, in order: the base-code step first when
      there is base code, then one matcher call per visited pair, each told
      whether there is base code. */
  function Calls(submissionSet: SubmissionSet): (calls: seq<MatcherCall>)
    ensures submissionSet.HasBaseCode() <==> |calls| > 0 && calls[0] == BaseCodeComparison
    ensures forall k | 0 < k < |calls| :: calls[k].PairComparison?
    ensures var visited := VisitedPairs(submissionSet.submissions);
            var off := if submissionSet.HasBaseCode() then 1 else 0;
            && |calls| == off + |visited|
            && forall k | 0 <= k < |visited| ::
                 calls[off + k] == PairComparison(visited[k].0, visited[k].1, submissionSet.HasBaseCode())
  {
    (if submissionSet.HasBaseCode() then [BaseCodeComparison] else [])
    + PairCalls(VisitedPairs(submissionSet.submissions), submissionSet.HasBaseCode())
  }

  /** `compareSubmissions(SubmissionSet)`: the run's result holds the visited
      pairs' comparisons, sorted, with their distribution; the duration is
      measured by the caller's clock. */
  method CompareSubmissions(submissionSet: SubmissionSet, compare: Matcher, durationInMillis: int)
    returns (result: JPlagResult, calls: seq<MatcherCall>)
    requires forall a, b, f :: compare(a, b, f).Some? ==> InHistogramRange(compare(a, b, f).value.similarity)
    ensures fresh(result) && fresh(result.similarityDistribution) && result.Valid()
    ensures calls == Calls(submissionSet)
    ensures var found := Outcomes(submissionSet.submissions, VisitedPairs(submissionSet.submissions), submissionSet.HasBaseCode(), compare);
            && result.comparisons == SortBySimilarity(found)
            && result.similarityDistribution[..] == Histogram(found)
    ensures result.numberOfSubmissions == |submissionSet.submissions|
    ensures result.durationInMillis == durationInMillis
  {
    var withBaseCode := submissionSet.HasBaseCode();
    calls := if withBaseCode then [BaseCodeComparison] else [];
    var submissions := submissionSet.submissions;
    var comparisons, visited := ComparePairs(submissions, withBaseCode, compare);
    calls := calls + PairCalls(visited, withBaseCode);
    OutcomesFromPairs(submissions, visited, withBaseCode, compare);
    result := new JPlagResult(comparisons, durationInMillis, |submissions|);
  }
}
