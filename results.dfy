/** The aggregate of one comparison run (`JPlagResult`): the comparisons sorted
    by descending similarity, a ten-bucket similarity histogram fixed at
    construction, the run's duration and the number of submissions. */
module Results {
  import opened Wrappers
  import opened Comparisons
  import opened Counting
  import Sorting

  /** `Float.intValue`: the fractional part is cut off, toward zero. */
  function TruncateToInt(x: real): (r: int)
    ensures 0.0 <= x ==> r as real <= x < r as real + 1.0
    ensures x < 0.0 ==> r as real - 1.0 < x <= r as real
  {
    if x >= 0.0 then x.Floor else -((-x).Floor)
  }

  /** The similarities whose bucket index lies inside the ten-element array. */
  predicate InHistogramRange(similarity: real)
  {
    -10.0 < similarity < 110.0
  }

  /** The histogram slot of one similarity: a tenth of the percentage, cut
      toward zero, with 10 (a similarity of 100% and up) folded into slot 9. */
  function BucketIndex(similarity: real): (index: int)
    ensures 0 <= index < 10 <==> InHistogramRange(similarity)
  {
    var index := TruncateToInt(similarity / 10.0);
    if index == 10 then 9 else index
  }

  /** Slot k holds the percentages in [10k, 10k + 10), and the last slot is
      closed at 100%: no percentage falls outside the array. */
  lemma BucketOfPercentage(similarity: real, k: int)
    requires 0.0 <= similarity <= 100.0
    requires 0 <= k < 10
    ensures BucketIndex(similarity) == k <==>
              (10.0 * k as real <= similarity < 10.0 * k as real + 10.0) || (k == 9 && similarity == 100.0)
  {
    var q := similarity / 10.0;
    assert similarity == 10.0 * q;
  }

  /** The number of comparisons whose similarity falls into slot `k`. */
  function CountInBucket(comparisons: seq<Comparison>, k: int): (n: nat)
    ensures n <= |comparisons|
  {
    if comparisons == [] then 0
    else
      var last := comparisons[|comparisons| - 1];
      CountInBucket(comparisons[..|comparisons| - 1], k) + (if BucketIndex(last.similarity) == k then 1 else 0)
  }

  /** The similarity distribution of a list of comparisons. */
  function Histogram(comparisons: seq<Comparison>): (h: seq<int>)
    ensures |h| == 10
  {
    seq(10, k => CountInBucket(comparisons, k))
  }

  function Sum(s: seq<int>): int
  {
    if s == [] then 0 else s[0] + Sum(s[1..])
  }

  lemma {:induction false} SumIncrement(s: seq<int>, k: int)
    requires 0 <= k < |s|
    ensures Sum(s[k := s[k] + 1]) == Sum(s) + 1
  {
    if k > 0 {
      SumIncrement(s[1..], k - 1);
      assert s[k := s[k] + 1][1..] == s[1..][k - 1 := s[1..][k - 1] + 1];
    }
  }

  lemma {:induction false} SumOfZeros(s: seq<int>)
    requires forall k :: 0 <= k < |s| ==> s[k] == 0
    ensures Sum(s) == 0
  {
    if s != [] {
      SumOfZeros(s[1..]);
    }
  }

  /** Appending one comparison adds one to its own slot and to no other. */
  lemma HistogramSnoc(comparisons: seq<Comparison>, c: Comparison)
    requires InHistogramRange(c.similarity)
    ensures var b := BucketIndex(c.similarity);
            Histogram(comparisons + [c]) == Histogram(comparisons)[b := Histogram(comparisons)[b] + 1]
  {
    assert (comparisons + [c])[..|comparisons|] == comparisons;
  }

  /** Every comparison is counted in exactly one slot: the slots add up to the
      number of comparisons. */
  lemma {:induction false} HistogramTotal(comparisons: seq<Comparison>)
    requires forall c <- comparisons :: InHistogramRange(c.similarity)
    ensures Sum(Histogram(comparisons)) == |comparisons|
  {
    if comparisons == [] {
      SumOfZeros(Histogram(comparisons));
    } else {
      var init, last := comparisons[..|comparisons| - 1], comparisons[|comparisons| - 1];
      assert comparisons == init + [last];
      HistogramTotal(init);
      HistogramSnoc(init, last);
      SumIncrement(Histogram(init), BucketIndex(last.similarity));
    }
  }

  lemma {:induction false} CountInBucketAppend(a: seq<Comparison>, b: seq<Comparison>, k: int)
    ensures CountInBucket(a + b, k) == CountInBucket(a, k) + CountInBucket(b, k)
    decreases |b|
  {
    if b != [] {
      var init := b[..|b| - 1];
      assert (a + b)[..|a + b| - 1] == a + init;
      CountInBucketAppend(a, init, k);
    } else {
      assert a + b == a;
    }
  }

  /** Taking the m-th comparison out of `ds`. */
  lemma CountInBucketRemove(ds: seq<Comparison>, m: int, k: int)
    requires 0 <= m < |ds|
    ensures multiset(ds[..m] + ds[m + 1..]) == multiset(ds) - multiset{ds[m]}
    ensures CountInBucket(ds, k) == CountInBucket(ds[..m] + ds[m + 1..], k) + CountInBucket([ds[m]], k)
  {
    var before, after := ds[..m], ds[m + 1..];
    assert ds == before + [ds[m]] + after;
    assert multiset(ds) == multiset(before) + multiset{ds[m]} + multiset(after);
    CountInBucketAppend(before + [ds[m]], after, k);
    CountInBucketAppend(before, [ds[m]], k);
    CountInBucketAppend(before, after, k);
  }

  lemma {:induction false} CountInBucketPermutation(cs: seq<Comparison>, ds: seq<Comparison>, k: int)
    requires multiset(cs) == multiset(ds)
    ensures CountInBucket(cs, k) == CountInBucket(ds, k)
    decreases |cs|
  {
    if cs == [] {
      assert |ds| == |multiset(ds)| == 0;
    } else {
      var init, last := cs[..|cs| - 1], cs[|cs| - 1];
      assert cs == init + [last];
      assert multiset(cs) == multiset(init) + multiset{last};
      assert last in multiset(ds);
      var m :| 0 <= m < |ds| && ds[m] == last;
      CountInBucketRemove(ds, m, k);
      CountInBucketPermutation(init, ds[..m] + ds[m + 1..], k);
      CountInBucketAppend(init, [last], k);
    }
  }

  /** The distribution does not depend on the order of the comparisons, so
      computing it before sorting gives the same numbers as after. */
  lemma HistogramOrderIndependent(cs: seq<Comparison>, ds: seq<Comparison>)
    requires multiset(cs) == multiset(ds)
    ensures Histogram(cs) == Histogram(ds)
  {
    forall k | 0 <= k < 10 ensures Histogram(cs)[k] == Histogram(ds)[k] {
      CountInBucketPermutation(cs, ds, k);
    }
  }

  /** The comparator at line 50: `a` goes first when it is at least as similar. */
  predicate AtLeastAsSimilar(a: Comparison, b: Comparison)
  {
    a.similarity >= b.similarity
  }

  lemma AtLeastAsSimilarIsTotalPreorder()
    ensures Sorting.TotalPreorder(AtLeastAsSimilar)
  {
  }

  function SortBySimilarity(comparisons: seq<Comparison>): seq<Comparison>
  {
    Sorting.Sort(comparisons, AtLeastAsSimilar)
  }

  /** Sorting yields the same comparisons in descending order of similarity. */
  lemma SortBySimilarityCorrect(comparisons: seq<Comparison>)
    ensures var r := SortBySimilarity(comparisons);
            && multiset(r) == multiset(comparisons)
            && forall i, j :: 0 <= i < j < |r| ==> r[i].similarity >= r[j].similarity
  {
    AtLeastAsSimilarIsTotalPreorder();
    Sorting.SortSorted(comparisons, AtLeastAsSimilar);
    Sorting.SortPermutes(comparisons, AtLeastAsSimilar);
  }

  /** The exception `List.subList(0, n)` throws for a negative `n`. */
  datatype SubListError = IllegalArgument(fromIndex: int, toIndex: int)

  /** `getComparisons(n)`: the whole list for -1, otherwise the first n entries
      (all of them when there are fewer), and an error for any other negative n. */
  function Prefix(comparisons: seq<Comparison>, numberOfComparisons: int): (r: Result<seq<Comparison>, SubListError>)
    ensures r.Err? <==> numberOfComparisons < -1
    ensures r.Ok? ==> r.value <= comparisons
    ensures r.Ok? ==> |r.value| == if numberOfComparisons == -1 then |comparisons|
                                   else Min(numberOfComparisons, |comparisons|)
  {
    if numberOfComparisons == -1 then Ok(comparisons)
    else
      var toIndex := Min(numberOfComparisons, |comparisons|);
      if toIndex < 0 then Err(IllegalArgument(0, toIndex)) else Ok(comparisons[..toIndex])
  }

  /** On a list sorted by descending similarity, a prefix keeps the most similar
      comparisons: nothing kept is less similar than anything left out. */
  lemma PrefixKeepsMostSimilar(comparisons: seq<Comparison>, n: int, kept: int, dropped: int)
    requires forall i, j :: 0 <= i < j < |comparisons| ==> comparisons[i].similarity >= comparisons[j].similarity
    requires Prefix(comparisons, n).Ok?
    requires 0 <= kept < |Prefix(comparisons, n).value| <= dropped < |comparisons|
    ensures comparisons[kept].similarity >= comparisons[dropped].similarity
    ensures Prefix(comparisons, n).value[kept] == comparisons[kept]
  {
  }

  class JPlagResult {
    var comparisons: seq<Comparison>
    var durationInMillis: int
    var numberOfSubmissions: int
    var similarityDistribution: array<int>

    ghost predicate Valid()
      reads this
    {
      similarityDistribution.Length == 10
    }

    /** Computes the distribution of the comparisons as given, then sorts them.
        A similarity outside (-10, 110) would index outside the array. */
    constructor (comparisons: seq<Comparison>, durationInMillis: int, numberOfSubmissions: int)
      requires forall c <- comparisons :: InHistogramRange(c.similarity)
      ensures Valid() && fresh(similarityDistribution)
      ensures similarityDistribution[..] == Histogram(comparisons)
      ensures this.comparisons == SortBySimilarity(comparisons)
      ensures this.durationInMillis == durationInMillis
      ensures this.numberOfSubmissions == numberOfSubmissions
    {
      this.comparisons := comparisons;
      this.durationInMillis := durationInMillis;
      this.numberOfSubmissions := numberOfSubmissions;
      var distribution := CalculateSimilarityDistribution(comparisons);
      this.similarityDistribution := distribution;
      new;
      this.comparisons := SortBySimilarity(this.comparisons);
    }

    static method CalculateSimilarityDistribution(comparisons: seq<Comparison>) returns (distribution: array<int>)
      requires forall c <- comparisons :: InHistogramRange(c.similarity)
      ensures fresh(distribution)
      ensures distribution[..] == Histogram(comparisons)
    {
      distribution := new int[10](_ => 0);
      assert distribution[..] == Histogram(comparisons[..0]);
      for i := 0 to |comparisons|
        invariant distribution.Length == 10
        invariant distribution[..] == Histogram(comparisons[..i])
      {
        var index := BucketIndex(comparisons[i].similarity);
        HistogramSnoc(comparisons[..i], comparisons[i]);
        assert comparisons[..i + 1] == comparisons[..i] + [comparisons[i]];
        distribution[index] := distribution[index] + 1;
      }
      assert comparisons[..|comparisons|] == comparisons;
    }

    /** `getComparisons(int)`. */
    function GetComparisons(numberOfComparisons: int): (r: Result<seq<Comparison>, SubListError>)
      reads this
      ensures r == Prefix(comparisons, numberOfComparisons)
    {
      Prefix(comparisons, numberOfComparisons)
    }

    /** Keeps only the first `limit` comparisons; the distribution, the duration
        and the submission count stay as they were.  For a limit below -1 the
        exception of `getComparisons` propagates and nothing changes. */
    method DropComparisons(limit: int) returns (failure: Option<SubListError>)
      requires Valid()
      modifies this
      ensures Valid()
      ensures failure.Some? <==> limit < -1
      ensures failure.None? ==> comparisons == Prefix(old(comparisons), limit).value
      ensures failure.Some? ==> comparisons == old(comparisons)
      ensures similarityDistribution == old(similarityDistribution)
      ensures similarityDistribution[..] == old(similarityDistribution[..])
      ensures durationInMillis == old(durationInMillis)
      ensures numberOfSubmissions == old(numberOfSubmissions)
    {
      var r := GetComparisons(limit);
      if r.Err? {
        return Some(r.error);
      }
      comparisons := r.value;
      failure := None;
    }
  }
}
