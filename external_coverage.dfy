/** What the block schedule of the memory-paged strategy covers.  With the
    corrected window updates every unordered pair of submissions is stepped
    over exactly once; the window updates as written skip pairs when the
    previous round needed more than one B block, and compare a submission
    with itself when `fillMemory` keeps nothing. */
module ExternalCoverage {
  import opened Wrappers
  import opened Counting
  import opened ExternalSchedule

  ghost predicate NoDup(s: seq<(int, int)>)
  {
    forall a, b :: 0 <= a < b < |s| ==> s[a] != s[b]
  }

  lemma NoDupAppend(x: seq<(int, int)>, y: seq<(int, int)>)
    requires NoDup(x) && NoDup(y)
    requires forall p <- x :: p !in y
    ensures NoDup(x + y)
  {
    forall a, b | 0 <= a < b < |x + y| ensures (x + y)[a] != (x + y)[b] {
      if a < |x| && b >= |x| {
        assert (x + y)[b] == y[b - |x|];
        assert (x + y)[b] in y;
      }
    }
  }

  lemma {:induction false} RowExact(i: int, lo: int, hi: int)
    ensures forall p :: p in Row(i, lo, hi) <==> p.0 == i && lo <= p.1 <= hi
    ensures NoDup(Row(i, lo, hi))
    decreases hi - lo
  {
    if hi >= lo {
      RowExact(i, lo, hi - 1);
      NoDupAppend(Row(i, lo, hi - 1), [(i, hi)]);
    }
  }

  lemma {:induction false} WithinUpToMembers(s: int, upTo: int, e: int)
    requires s <= upTo <= e + 1
    ensures forall p :: p in WithinUpTo(s, upTo, e) <==> s <= p.0 < upTo && p.0 < p.1 <= e
    decreases upTo - s
  {
    if upTo > s {
      var init, row := WithinUpTo(s, upTo - 1, e), Row(upTo - 1, upTo, e);
      assert WithinUpTo(s, upTo, e) == init + row;
      WithinUpToMembers(s, upTo - 1, e);
      RowExact(upTo - 1, upTo, e);
    }
  }

  lemma {:induction false} WithinUpToNoDup(s: int, upTo: int, e: int)
    requires s <= upTo <= e + 1
    ensures NoDup(WithinUpTo(s, upTo, e))
    decreases upTo - s
  {
    if upTo > s {
      var init, row := WithinUpTo(s, upTo - 1, e), Row(upTo - 1, upTo, e);
      assert WithinUpTo(s, upTo, e) == init + row;
      WithinUpToNoDup(s, upTo - 1, e);
      WithinUpToMembers(s, upTo - 1, e);
      RowExact(upTo - 1, upTo, e);
      forall p <- init ensures p !in row {
        assert p.0 < upTo - 1;
      }
      NoDupAppend(init, row);
    }
  }

  lemma {:induction false} WithinUpToLength(s: int, upTo: int, e: int)
    requires s <= upTo <= e + 1
    ensures |WithinUpTo(s, upTo, e)| + PairsAmong(e - upTo + 1) == PairsAmong(e - s + 1)
    decreases upTo - s
  {
    if upTo > s {
      WithinUpToLength(s, upTo - 1, e);
      assert |Row(upTo - 1, upTo, e)| == e - upTo + 1;
      PairsAmongSucc(e - upTo + 1);
    }
  }

  /** The A-against-A loop steps over every pair inside [s, e] once. */
  lemma WithinExact(s: int, e: int)
    requires s <= e + 1
    ensures forall p :: p in Within(s, e) <==> s <= p.0 < p.1 <= e
    ensures NoDup(Within(s, e))
    ensures |Within(s, e)| == PairsAmong(e - s + 1)
  {
    WithinUpToMembers(s, e + 1, e);
    WithinUpToNoDup(s, e + 1, e);
    WithinUpToLength(s, e + 1, e);
  }

  lemma {:induction false} ColumnExact(k: int, sA: int, eA: int)
    ensures forall p :: p in Column(k, sA, eA) <==> p.1 == k && sA <= p.0 <= eA
    ensures NoDup(Column(k, sA, eA))
    decreases eA - sA
  {
    if eA >= sA {
      ColumnExact(k, sA, eA - 1);
      NoDupAppend(Column(k, sA, eA - 1), [(eA, k)]);
    }
  }

  lemma {:induction false} CrossUpToExact(sA: int, eA: int, sB: int, upTo: int)
    requires sA <= eA + 1 && sB <= upTo
    ensures forall p :: p in CrossUpTo(sA, eA, sB, upTo) <==> sA <= p.0 <= eA && sB <= p.1 < upTo
    ensures NoDup(CrossUpTo(sA, eA, sB, upTo))
    ensures |CrossUpTo(sA, eA, sB, upTo)| == (eA - sA + 1) * (upTo - sB)
    decreases upTo - sB
  {
    if upTo > sB {
      CrossUpToExact(sA, eA, sB, upTo - 1);
      ColumnExact(upTo - 1, sA, eA);
      NoDupAppend(CrossUpTo(sA, eA, sB, upTo - 1), Column(upTo - 1, sA, eA));
      assert (eA - sA + 1) * (upTo - sB) == (eA - sA + 1) * (upTo - 1 - sB) + (eA - sA + 1);
    }
  }

  /** The A-against-B loop steps over every pair of A against B once. */
  lemma CrossExact(w: Windows)
    requires w.startA <= w.endA + 1 && w.startB <= w.endB + 1
    ensures forall p :: p in Cross(w) <==> w.startA <= p.0 <= w.endA && w.startB <= p.1 <= w.endB
    ensures NoDup(Cross(w))
    ensures |Cross(w)| == (w.endA - w.startA + 1) * (w.endB - w.startB + 1)
  {
    CrossUpToExact(w.startA, w.endA, w.startB, w.endB + 1);
  }

  /** e steps over every pair inside [lo, size) exactly once. */
  ghost predicate CoversFrom(e: seq<(int, int)>, lo: int, size: int)
  {
    && (forall p :: p in e <==> lo <= p.0 < p.1 < size)
    && NoDup(e)
    && |e| == PairsAmong(size - lo)
  }

  /** p pairs a submission of A with one from startB to the last. */
  ghost predicate InCross(w: Windows, size: int, p: (int, int))
  {
    w.startA <= p.0 <= w.endA && w.startB <= p.1 < size
  }

  /** e steps over A against everything from startB on, then every pair
      after A, each exactly once. */
  ghost predicate CoversBlock(e: seq<(int, int)>, w: Windows, size: int)
  {
    && (forall p :: p in e <==> InCross(w, size, p) || w.endA + 1 <= p.0 < p.1 < size)
    && NoDup(e)
    && |e| == (w.endA - w.startA + 1) * (size - w.startB) + PairsAmong(size - w.endA - 1)
  }

  /** The shape of the windows at the top of a round of the corrected schedule:
      either the last block (B empty and equal to A's start) or A followed
      directly by B, all inside the submission vector. */
  ghost predicate RoundReady(size: int, w: Windows)
  {
    && 0 <= w.startA <= w.endA + 1 <= size
    && ((w.startA == w.startB && w.endA == size - 1)
        || (w.startB == w.endA + 1 && w.startA <= w.endA <= w.endB <= size - 1))
  }

  /** The windows while B streams over the submissions after A. */
  ghost predicate BlockReady(size: int, w: Windows)
  {
    0 <= w.startA <= w.endA && w.endA + 1 <= w.startB <= w.endB + 1 && w.endB <= size - 1
  }

  lemma ComposeRound(size: int, w: Windows, rest: seq<(int, int)>)
    requires RoundReady(size, w) && w.startA != w.startB
    requires CoversBlock(rest, w, size)
    ensures CoversFrom(Within(w.startA, w.endA) + rest, w.startA, size)
  {
    var inA := Within(w.startA, w.endA);
    WithinExact(w.startA, w.endA);
    forall p <- inA ensures p !in rest {
      assert p.1 <= w.endA;
    }
    NoDupAppend(inA, rest);
    PairsAmongSum(w.endA - w.startA + 1, size - w.endA - 1);
  }

  lemma ComposeLastB(size: int, w: Windows, rest: seq<(int, int)>)
    requires BlockReady(size, w) && w.endB == size - 1
    requires CoversFrom(rest, w.endA + 1, size)
    ensures CoversBlock(Cross(w) + rest, w, size)
  {
    var cross := Cross(w);
    CrossExact(w);
    forall p <- cross ensures p !in rest {
      assert p.0 <= w.endA;
    }
    NoDupAppend(cross, rest);
  }

  lemma ComposeMoreB(size: int, w: Windows, index: int, rest: seq<(int, int)>)
    requires BlockReady(size, w) && w.endB < size - 1
    requires w.endB <= index <= size - 1
    requires CoversBlock(rest, w.(startB := w.endB + 1, endB := index), size)
    ensures CoversBlock(Cross(w) + rest, w, size)
  {
    var cross := Cross(w);
    CrossExact(w);
    var w' := w.(startB := w.endB + 1, endB := index);
    forall p <- cross ensures p !in rest {
      assert p.0 <= w.endA && p.1 <= w.endB;
      assert !InCross(w', size, p);
    }
    NoDupAppend(cross, rest);
    forall p ensures p in cross + rest <==> InCross(w, size, p) || w.endA + 1 <= p.0 < p.1 < size {
      assert InCross(w, size, p) <==> p in cross || InCross(w', size, p);
    }
    CrossCount(w.endA - w.startA + 1, w.endB - w.startB + 1, size - w.endB - 1);
  }

  lemma CrossCount(a: int, x: int, y: int)
    ensures a * x + a * y == a * (x + y)
  {
  }

  lemma NextWindowsReady(size: int, w: Windows, index: int)
    requires 0 <= w.endA + 1 <= size
    requires w.endA <= index <= size - 1
    ensures RoundReady(size, NextWindows(w, index, size))
  {
    var n := NextWindows(w, index, size);
    if index != size - 1 {
      var k := index - n.startA + 1;
      assert JavaDiv(k, 2) == k / 2;
    }
  }

  /** One more B block: the step of `BlockB` when B is not the last block. */
  lemma BlockBMore(v: Variant, w: Windows, tokens: seq<bool>, loadable: seq<bool>, readings: seq<MemoryReading>)
    requires |loadable| == |tokens|
    requires w.endB != |tokens| - 1 && readings != [] && w.endB + 1 >= 0
    ensures var next := BlockB(v, w.(startB := w.endB + 1, endB := FillIndex(w.endB + 1, |tokens|, readings[0])),
                               Fill(ReleaseRange(tokens, w.startB, w.endB + 1), loadable, w.endB + 1, readings[0]),
                               loadable, readings[1..]);
            var run := BlockB(v, w, tokens, loadable, readings);
            run.examined == Cross(w) + next.examined && run.finished == next.finished
  {
    BlockBStep(v, w, tokens, loadable, readings);
  }

  lemma {:induction false} RoundCovers(w: Windows, tokens: seq<bool>, loadable: seq<bool>,
                                       readings: seq<MemoryReading>)
    requires |loadable| == |tokens| && RoundReady(|tokens|, w)
    requires Round(Corrected, w, tokens, loadable, readings).finished
    ensures CoversFrom(Round(Corrected, w, tokens, loadable, readings).examined, w.startA, |tokens|)
    decreases |readings|, 2, 0
  {
    if w.startA == w.startB {
      WithinExact(w.startA, w.endA);
    } else {
      BlockCovers(w, tokens, loadable, readings);
      ComposeRound(|tokens|, w, BlockB(Corrected, w, tokens, loadable, readings).examined);
    }
  }

  lemma {:induction false} BlockCovers(w: Windows, tokens: seq<bool>, loadable: seq<bool>,
                                       readings: seq<MemoryReading>)
    requires |loadable| == |tokens| && BlockReady(|tokens|, w)
    requires BlockB(Corrected, w, tokens, loadable, readings).finished
    ensures CoversBlock(BlockB(Corrected, w, tokens, loadable, readings).examined, w, |tokens|)
    decreases |readings|, 1, 1
  {
    if w.endB == |tokens| - 1 {
      LastBlockCovers(w, tokens, loadable, readings);
    } else {
      MoreBlocksCover(w, tokens, loadable, readings);
    }
  }

  lemma {:induction false} LastBlockCovers(w: Windows, tokens: seq<bool>, loadable: seq<bool>,
                                           readings: seq<MemoryReading>)
    requires |loadable| == |tokens| && BlockReady(|tokens|, w) && w.endB == |tokens| - 1
    requires BlockB(Corrected, w, tokens, loadable, readings).finished
    ensures CoversBlock(BlockB(Corrected, w, tokens, loadable, readings).examined, w, |tokens|)
    decreases |readings|, 1, 0
  {
    var released := ReleaseRange(tokens, w.startB, w.endB + 1);
    var rest := NextA(Corrected, w, released, loadable, readings);
    assert BlockB(Corrected, w, tokens, loadable, readings).examined == Cross(w) + rest.examined;
    NextACovers(w, released, loadable, readings);
    ComposeLastB(|tokens|, w, rest.examined);
  }

  lemma {:induction false} MoreBlocksCover(w: Windows, tokens: seq<bool>, loadable: seq<bool>,
                                           readings: seq<MemoryReading>)
    requires |loadable| == |tokens| && BlockReady(|tokens|, w) && w.endB != |tokens| - 1
    requires BlockB(Corrected, w, tokens, loadable, readings).finished
    ensures CoversBlock(BlockB(Corrected, w, tokens, loadable, readings).examined, w, |tokens|)
    decreases |readings|, 1, 0
  {
    BlockBMore(Corrected, w, tokens, loadable, readings);
    var index := FillIndex(w.endB + 1, |tokens|, readings[0]);
    var loaded := Fill(ReleaseRange(tokens, w.startB, w.endB + 1), loadable, w.endB + 1, readings[0]);
    var w' := w.(startB := w.endB + 1, endB := index);
    BlockCovers(w', loaded, loadable, readings[1..]);
    ComposeMoreB(|tokens|, w, index, BlockB(Corrected, w', loaded, loadable, readings[1..]).examined);
  }

  lemma {:induction false} NextACovers(w: Windows, tokens: seq<bool>, loadable: seq<bool>,
                                       readings: seq<MemoryReading>)
    requires |loadable| == |tokens| && 0 <= w.endA + 1 <= |tokens|
    requires NextA(Corrected, w, tokens, loadable, readings).finished
    ensures CoversFrom(NextA(Corrected, w, tokens, loadable, readings).examined, w.endA + 1, |tokens|)
    decreases |readings|, 0, 1
  {
    if readings == [] {
      NextAStops(Corrected, w, tokens, loadable, readings);
    } else {
      NextAStep(Corrected, w, tokens, loadable, readings);
      NextRoundCovers(w, tokens, loadable, readings, FillIndex(w.endA + 1, |tokens|, readings[0]),
                      Fill(ReleaseRange(tokens, w.startA, w.endA + 1), loadable, w.endA + 1, readings[0]));
    }
  }

  lemma {:induction false} NextRoundCovers(w: Windows, tokens: seq<bool>, loadable: seq<bool>,
                                           readings: seq<MemoryReading>, index: int, loaded: seq<bool>)
    requires |loadable| == |tokens| == |loaded| && 0 <= w.endA + 1 <= |tokens| && readings != []
    requires index == FillIndex(w.endA + 1, |tokens|, readings[0])
    requires Round(Corrected, Next(Corrected, w, index, |tokens|), loaded, loadable, readings[1..]).finished
    ensures CoversFrom(Round(Corrected, Next(Corrected, w, index, |tokens|), loaded, loadable, readings[1..]).examined,
                       w.endA + 1, |tokens|)
    decreases |readings|, 0, 0
  {
    var next := Next(Corrected, w, index, |tokens|);
    assert next == NextWindows(w, index, |tokens|);
    NextWindowsReady(|tokens|, w, index);
    RoundCovers(next, loaded, loadable, readings[1..]);
  }

  /** Corrected schedule: a run that reaches its end has stepped over every
      unordered pair of the n submissions exactly once, so its `count` ends at
      n(n-1)/2, the `totalComparisons` of line 42. */
  lemma ScheduleCoversEveryPairOnce(tokens: seq<bool>, loadable: seq<bool>, readings: seq<MemoryReading>)
    requires |loadable| == |tokens| >= 1
    requires Schedule(Corrected, tokens, loadable, readings).finished
    ensures CoversFrom(Schedule(Corrected, tokens, loadable, readings).examined, 0, |tokens|)
  {
    var index := FillIndex(0, |tokens|, readings[0]);
    var w := FirstWindows(index);
    assert RoundReady(|tokens|, w) by {
      if index >= 0 {
        assert JavaDiv(index, 2) == index / 2;
      }
    }
    RoundCovers(w, Fill(tokens, loadable, 0, readings[0]), loadable, readings[1..]);
  }

  /** Six submissions.  The first `fillMemory` runs out of memory while
      loading submission 3 and returns 3; from 4 it runs out on 4 at once and
      returns 4; from 5, and from 2 for the next A, everything fits.  So block
      A = [0, 1] meets three B blocks: [2, 3], [4, 4] and [5, 5]. */
  function SkippingReadings(): seq<MemoryReading>
  {
    [ MemoryReading(Some(3), false, 0), MemoryReading(Some(0), false, 0),
      MemoryReading(None, false, 0), MemoryReading(None, false, 0) ]
  }

  /** Readings whose `fillMemory` calls return 3, 4, 5 and 5, as above. */
  ghost predicate Skipping(rs: seq<MemoryReading>)
  {
    && |rs| == 4
    && FillIndex(0, 6, rs[0]) == 3
    && FillIndex(4, 6, rs[1]) == 4
    && FillIndex(5, 6, rs[2]) == 5
    && FillIndex(2, 6, rs[3]) == 5
  }

  lemma SkippingReadingsSkip()
    ensures Skipping(SkippingReadings())
  {
  }

  lemma SkippingFirstRound(v: Variant, tokens: seq<bool>, loadable: seq<bool>, rs: seq<MemoryReading>)
    requires |loadable| == |tokens| == 6 && Skipping(rs)
    ensures var next := BlockB(v, Windows(0, 1, 2, 3), Fill(tokens, loadable, 0, rs[0]), loadable, rs[1..]);
            var run := Schedule(v, tokens, loadable, rs);
            run.examined == Within(0, 1) + next.examined && run.finished == next.finished
  {
    assert First(v, 3) == Windows(0, 1, 2, 3);
  }

  lemma SkippingFirstB(v: Variant, tokens: seq<bool>, loadable: seq<bool>, rs: seq<MemoryReading>)
    requires |loadable| == |tokens| == 6 && Skipping(rs)
    ensures var next := BlockB(v, Windows(0, 1, 4, 4), Fill(ReleaseRange(tokens, 2, 4), loadable, 4, rs[1]),
                               loadable, rs[2..]);
            var run := BlockB(v, Windows(0, 1, 2, 3), tokens, loadable, rs[1..]);
            run.examined == Cross(Windows(0, 1, 2, 3)) + next.examined && run.finished == next.finished
  {
    assert rs[1..][0] == rs[1] && rs[1..][1..] == rs[2..];
    BlockBMore(v, Windows(0, 1, 2, 3), tokens, loadable, rs[1..]);
  }

  lemma SkippingSecondB(v: Variant, tokens: seq<bool>, loadable: seq<bool>, rs: seq<MemoryReading>)
    requires |loadable| == |tokens| == 6 && Skipping(rs)
    ensures var next := BlockB(v, Windows(0, 1, 5, 5), Fill(ReleaseRange(tokens, 4, 5), loadable, 5, rs[2]),
                               loadable, rs[3..]);
            var run := BlockB(v, Windows(0, 1, 4, 4), tokens, loadable, rs[2..]);
            run.examined == Cross(Windows(0, 1, 4, 4)) + next.examined && run.finished == next.finished
  {
    assert rs[2..][0] == rs[2] && rs[2..][1..] == rs[3..];
    BlockBMore(v, Windows(0, 1, 4, 4), tokens, loadable, rs[2..]);
  }

  lemma SkippingLastB(v: Variant, tokens: seq<bool>, loadable: seq<bool>, rs: seq<MemoryReading>)
    requires |loadable| == |tokens| == 6 && Skipping(rs)
    ensures var released := ReleaseRange(ReleaseRange(tokens, 5, 6), 0, 2);
            var next := Round(v, Next(v, Windows(0, 1, 5, 5), 5, 6), Fill(released, loadable, 2, rs[3]), loadable, []);
            var run := BlockB(v, Windows(0, 1, 5, 5), tokens, loadable, rs[3..]);
            run.examined == Cross(Windows(0, 1, 5, 5)) + next.examined && run.finished == next.finished
  {
    assert rs[3..][0] == rs[3] && rs[3..][1..] == [];
  }

  lemma SkippingRun(v: Variant, tokens: seq<bool>, loadable: seq<bool>, rs: seq<MemoryReading>)
    requires |loadable| == |tokens| == 6 && Skipping(rs)
    ensures exists t: seq<bool> | |t| == 6 ::
              var last := Round(v, Next(v, Windows(0, 1, 5, 5), 5, 6), t, loadable, []);
              var run := Schedule(v, tokens, loadable, rs);
              && run.examined == Within(0, 1) + (Cross(Windows(0, 1, 2, 3)) + (Cross(Windows(0, 1, 4, 4))
                                  + (Cross(Windows(0, 1, 5, 5)) + last.examined)))
              && run.finished == last.finished
  {
    var t1 := Fill(tokens, loadable, 0, rs[0]);
    var t2 := Fill(ReleaseRange(t1, 2, 4), loadable, 4, rs[1]);
    var t3 := Fill(ReleaseRange(t2, 4, 5), loadable, 5, rs[2]);
    var t4 := Fill(ReleaseRange(ReleaseRange(t3, 5, 6), 0, 2), loadable, 2, rs[3]);
    SkippingFirstRound(v, tokens, loadable, rs);
    SkippingFirstB(v, t1, loadable, rs);
    SkippingSecondB(v, t2, loadable, rs);
    SkippingLastB(v, t3, loadable, rs);
    assert |t4| == 6;
  }

  /** As written, the last-block reset restarts A at the start of the last B
      block, [5, 5]: the run ends having stepped over 9 of the 15 pairs, and
      the pair (2, 3), among others, is never compared, whatever is loaded.
      `SkippingReadings` are such readings. */
  lemma LastBlockResetSkipsPairs(tokens: seq<bool>, loadable: seq<bool>, rs: seq<MemoryReading>)
    requires |loadable| == |tokens| == 6 && Skipping(rs)
    ensures var run := Schedule(AsWritten, tokens, loadable, rs);
            && run.finished
            && (2, 3) !in run.examined
            && |run.examined| == 9 < PairsAmong(6)
  {
    SkippingRun(AsWritten, tokens, loadable, rs);
    assert Next(AsWritten, Windows(0, 1, 5, 5), 5, 6) == Windows(5, 5, 5, 5);
    WithinExact(0, 1);
    WithinExact(5, 5);
    CrossExact(Windows(0, 1, 2, 3));
    CrossExact(Windows(0, 1, 4, 4));
    CrossExact(Windows(0, 1, 5, 5));
  }

  /** The corrected schedule, on the same readings, reaches its end and so
      steps over (2, 3). */
  lemma SkippingCorrectedCovers(tokens: seq<bool>, loadable: seq<bool>, rs: seq<MemoryReading>)
    requires |loadable| == |tokens| == 6 && Skipping(rs)
    ensures Schedule(Corrected, tokens, loadable, rs).finished
    ensures (2, 3) in Schedule(Corrected, tokens, loadable, rs).examined
  {
    SkippingRun(Corrected, tokens, loadable, rs);
    assert Next(Corrected, Windows(0, 1, 5, 5), 5, 6) == Windows(2, 5, 2, 5);
    ScheduleCoversEveryPairOnce(tokens, loadable, rs);
  }

  /** Three submissions; the first `fillMemory` runs out of memory on its very
      first load and releases it again, returning -1; then everything fits. */
  function StallingReadings(): seq<MemoryReading>
  {
    [ MemoryReading(Some(0), true, 1), MemoryReading(None, false, 0), MemoryReading(None, false, 0) ]
  }

  /** Readings whose `fillMemory` calls return -1, 2 and 2, as above. */
  ghost predicate Stalling(rs: seq<MemoryReading>)
  {
    && |rs| == 3
    && FillIndex(0, 3, rs[0]) == -1
    && FillIndex(0, 3, rs[1]) == 2
    && FillIndex(1, 3, rs[2]) == 2
  }

  lemma StallingReadingsStall()
    ensures Stalling(StallingReadings())
  {
  }

  lemma StallingSecondB(tokens: seq<bool>, loadable: seq<bool>, rs: seq<MemoryReading>)
    requires |loadable| == |tokens| == 3 && Stalling(rs)
    ensures var released := ReleaseRange(ReleaseRange(tokens, 0, 3), 0, 1);
            var next := Round(AsWritten, Windows(0, 2, 0, 2), Fill(released, loadable, 1, rs[2]), loadable, []);
            var run := BlockB(AsWritten, Windows(0, 0, 0, 2), tokens, loadable, rs[2..]);
            run.examined == Cross(Windows(0, 0, 0, 2)) + next.examined && run.finished == next.finished
  {
    var w := Windows(0, 0, 0, 2);
    var rest := rs[2..];
    assert rest[0] == rs[2] && rest[1..] == [];
    var releasedB := ReleaseRange(tokens, 0, 3);
    assert Next(AsWritten, w, 2, 3) == Windows(0, 2, 0, 2);
    var a := NextA(AsWritten, w, releasedB, loadable, rest);
    assert a == Round(AsWritten, Windows(0, 2, 0, 2), Fill(ReleaseRange(releasedB, 0, 1), loadable, 1, rs[2]),
                      loadable, []);
    assert BlockB(AsWritten, w, tokens, loadable, rest) == Prepend(Cross(w), CrossCompared(tokens, w), AtLine156(a));
  }

  lemma StallingFirstRound(tokens: seq<bool>, loadable: seq<bool>, rs: seq<MemoryReading>)
    requires |loadable| == |tokens| == 3 && Stalling(rs)
    ensures var next := BlockB(AsWritten, Windows(0, 0, 1, -1), Fill(tokens, loadable, 0, rs[0]), loadable, rs[1..]);
            var run := Schedule(AsWritten, tokens, loadable, rs);
            run.examined == next.examined && run.finished == next.finished
  {
    ScheduleStep(AsWritten, tokens, loadable, rs);
    assert FirstWindowsAsWritten(-1) == Windows(0, 0, 1, -1);
    assert Within(0, 0) == [] by {
      assert WithinUpTo(0, 1, 0) == WithinUpTo(0, 0, 0) + Row(0, 1, 0);
    }
  }

  lemma StallingFirstB(tokens: seq<bool>, loadable: seq<bool>, rs: seq<MemoryReading>)
    requires |loadable| == |tokens| == 3 && Stalling(rs)
    ensures var next := BlockB(AsWritten, Windows(0, 0, 0, 2), Fill(ReleaseRange(tokens, 1, 0), loadable, 0, rs[1]),
                               loadable, rs[2..]);
            var run := BlockB(AsWritten, Windows(0, 0, 1, -1), tokens, loadable, rs[1..]);
            run.examined == next.examined && run.finished == next.finished
  {
    assert Cross(Windows(0, 0, 1, -1)) == [];
    assert rs[1..][0] == rs[1] && rs[1..][1..] == rs[2..];
    BlockBMore(AsWritten, Windows(0, 0, 1, -1), tokens, loadable, rs[1..]);
  }

  lemma StallingRun(tokens: seq<bool>, loadable: seq<bool>, rs: seq<MemoryReading>)
    requires |loadable| == |tokens| == 3 && Stalling(rs)
    ensures var run := Schedule(AsWritten, tokens, loadable, rs);
            run.examined == Cross(Windows(0, 0, 0, 2)) + Within(0, 2) && run.finished
  {
    var t1 := Fill(tokens, loadable, 0, rs[0]);
    StallingFirstRound(tokens, loadable, rs);
    StallingFirstB(t1, loadable, rs);
    var t2 := Fill(ReleaseRange(t1, 1, 0), loadable, 0, rs[1]);
    StallingSecondB(t2, loadable, rs);
  }

  /** As written, -1 gives A = [0, 0] and B = [1, -1], so the next B block
      starts at 0, inside A: submission 0 is stepped over against itself, and
      pairs are stepped over twice (6 steps for 3 pairs). */
  lemma EmptyFillOverlapsBlocks(tokens: seq<bool>, loadable: seq<bool>)
    requires |loadable| == |tokens| == 3
    ensures var run := Schedule(AsWritten, tokens, loadable, StallingReadings());
            && run.finished && (0, 0) in run.examined && !NoDup(run.examined) && |run.examined| == 6
  {
    StallingReadingsStall();
    StallingRun(tokens, loadable, StallingReadings());
    var cross := [(0, 0), (0, 1), (0, 2)];
    assert Cross(Windows(0, 0, 0, 2)) == cross by {
      assert CrossUpTo(0, 0, 0, 3) == CrossUpTo(0, 0, 0, 2) + Column(2, 0, 0);
      assert CrossUpTo(0, 0, 0, 2) == CrossUpTo(0, 0, 0, 1) + Column(1, 0, 0);
      assert CrossUpTo(0, 0, 0, 1) == CrossUpTo(0, 0, 0, 0) + Column(0, 0, 0);
    }
    var inA := [(0, 1), (0, 2), (1, 2)];
    assert Within(0, 2) == inA by {
      assert WithinUpTo(0, 3, 2) == WithinUpTo(0, 2, 2) + Row(2, 3, 2);
      assert WithinUpTo(0, 2, 2) == WithinUpTo(0, 1, 2) + Row(1, 2, 2);
      assert WithinUpTo(0, 1, 2) == WithinUpTo(0, 0, 2) + Row(0, 1, 2);
      assert Row(1, 2, 2) == Row(1, 2, 1) + [(1, 2)];
      assert Row(0, 1, 2) == Row(0, 1, 1) + [(0, 2)];
      assert Row(0, 1, 1) == Row(0, 1, 0) + [(0, 1)];
    }
    var e := Schedule(AsWritten, tokens, loadable, StallingReadings()).examined;
    assert e == cross + inA;
    assert e[1] == e[3];
  }
}
