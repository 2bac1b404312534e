/** What a run of `ExternalComparisonStrategy.compare` (lines 28-236)
    promises, gathered from the lemmas about its schedule. */
module ExternalCompare {
  import opened Wrappers
  import opened Counting
  import opened ExternalSchedule
  import opened ExternalCoverage
  import opened ExternalMemory

  /** The first windows (lines 56-59) satisfy what every round needs. */
  lemma FirstWindowsReady(size: int, index: int)
    requires size >= 1 && -1 <= index <= size - 1
    ensures RoundReady(size, FirstWindows(index))
  {
    if index >= 0 {
      assert JavaDiv(index, 2) == index / 2;
    }
  }

  /** What the run's result promises, from the schedule's lemmas: a finished
      run stepped over each pair once; every run compared only pairs it
      stepped over, each no more often, and only loadable ones; it never
      divided by more than it compared; and a finished run released every
      token list. */
  lemma ScheduleFacts(tokens: seq<bool>, loadable: seq<bool>, readings: seq<MemoryReading>)
    requires |loadable| == |tokens| >= 1
    ensures var run := Schedule(Corrected, tokens, loadable, readings);
            && multiset(run.compared) <= multiset(run.examined)
            && (forall p <- run.compared :: BothLoadable(loadable, p))
            && (forall d <- run.checkpoints :: 0 <= d <= |run.compared|)
            && (run.finished ==> |run.examined| == PairsAmong(|tokens|))
            && (run.finished ==> |run.tokens| == |tokens| && forall k | 0 <= k < |tokens| :: !run.tokens[k])
  {
    var run := Schedule(Corrected, tokens, loadable, readings);
    ScheduleSound(tokens, loadable, readings);
    if run.finished {
      ScheduleCoversEveryPairOnce(tokens, loadable, readings);
    }
  }
}
