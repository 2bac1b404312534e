/** Which pairs the memory-paged strategy compares, beyond soundness: in
    either variant it compares only pairs it steps over; and a corrected run
    whose `fillMemory` calls never run out of memory, and whose halving
    (lines 263-272) frees enough, compares exactly the pairs it steps over
    whose two files load.  When a `fillMemory` call for A keeps nothing,
    the lone A submission is never compared, in either variant. */
module ExternalComplete {
  import opened Wrappers
  import opened Counting
  import opened ExternalSchedule
  import opened ExternalCoverage
  import opened ExternalMemory
  import opened ExternalStrategy

  /** A `fillMemory` call without OutOfMemoryError whose halving, if memory
      was short, frees enough: the walk at lines 279-284 releases nothing. */
  predicate Gentle(r: MemoryReading)
  {
    r.outOfMemoryAt.None? && (r.pressured ==> r.extraReleases == 0)
  }

  /** For a call without OutOfMemoryError, gentle means exactly that the
      call keeps at least one submission wherever it starts: a walk that
      releases anything empties a call that starts at the last submission. */
  lemma GentleMeansKeepsOne(size: int, r: MemoryReading)
    requires size >= 1 && r.outOfMemoryAt.None?
    ensures Gentle(r) <==> forall from | 0 <= from < size :: FillIndex(from, size, r) >= from
  {
    if !Gentle(r) {
      assert HalvedIndex(size - 1, size, r) == size - 1;
      assert FillIndex(size - 1, size, r) < size - 1;
    } else {
      forall from | 0 <= from < size ensures FillIndex(from, size, r) >= from {
        assert LoadEnd(from, size, r) == size;
        if r.pressured {
          assert JavaDiv(size - 1 - from, 2) == (size - 1 - from) / 2;
        }
      }
    }
  }

  /** Within [lo, hi], a submission holds a token list exactly when its file loads. */
  ghost predicate HeldExactly(tokens: seq<bool>, loadable: seq<bool>, lo: int, hi: int)
  {
    forall k | lo <= k <= hi && 0 <= k < |tokens| && k < |loadable| :: tokens[k] == loadable[k]
  }

  /** The run compares exactly the pairs it steps over whose files both load,
      in the order it steps over them. */
  ghost predicate Complete(run: Run, loadable: seq<bool>)
  {
    run.compared == Filter(run.examined, loadable)
  }

  /** A gentle `fillMemory(from)` keeps at least `from` and leaves every
      submission up to the index it returns holding a token list exactly
      when its file loads. */
  lemma GentleFill(tokens: seq<bool>, loadable: seq<bool>, from: int, r: MemoryReading)
    requires |loadable| == |tokens| && 0 <= from < |tokens| && Gentle(r)
    ensures FillIndex(from, |tokens|, r) >= from
    ensures HeldExactly(Fill(tokens, loadable, from, r), loadable, from, FillIndex(from, |tokens|, r))
  {
    var size := |tokens|;
    assert LoadEnd(from, size, r) == size;
    assert Touched(from, size, r) == size;
    if r.pressured {
      assert JavaDiv(size - 1 - from, 2) == (size - 1 - from) / 2;
    }
    assert ExtraReleases(from, size, r) == 0;
  }

  lemma {:induction false} FilterAgree(pairs: seq<(int, int)>, t1: seq<bool>, t2: seq<bool>)
    requires forall p <- pairs :: Both(t1, p) == Both(t2, p)
    ensures Filter(pairs, t1) == Filter(pairs, t2)
  {
    if pairs != [] {
      var init := pairs[..|pairs| - 1];
      assert forall p <- init :: p in pairs;
      FilterAgree(init, t1, t2);
      assert pairs[|pairs| - 1] in pairs;
    }
  }

  lemma {:induction false} FilterMembers(pairs: seq<(int, int)>, tokens: seq<bool>)
    ensures forall p :: p in Filter(pairs, tokens) <==> p in pairs && Both(tokens, p)
  {
    if pairs != [] {
      var init := pairs[..|pairs| - 1];
      FilterMembers(init, tokens);
      assert pairs == init + [pairs[|pairs| - 1]];
    }
  }

  lemma {:induction false} FilterNoDup(pairs: seq<(int, int)>, tokens: seq<bool>)
    requires NoDup(pairs)
    ensures NoDup(Filter(pairs, tokens))
  {
    if pairs != [] {
      var init := pairs[..|pairs| - 1];
      var last := pairs[|pairs| - 1];
      assert NoDup(init);
      FilterNoDup(init, tokens);
      FilterSound(init, tokens);
      assert pairs == init + [last];
      assert last !in init;
      NoDupAppend(Filter(init, tokens), if Both(tokens, last) then [last] else []);
    }
  }

  lemma PrependComplete(examined: seq<(int, int)>, compared: seq<(int, int)>, rest: Run, loadable: seq<bool>)
    requires compared == Filter(examined, loadable) && Complete(rest, loadable)
    ensures Complete(Prepend(examined, compared, rest), loadable)
  {
    FilterConcat(examined, rest.examined, loadable);
  }

  /** A against A compares exactly the pairs of A whose files load. */
  lemma WithinComplete(s: int, e: int, tokens: seq<bool>, loadable: seq<bool>)
    requires |loadable| == |tokens| && 0 <= s <= e + 1 && e < |tokens|
    requires HeldExactly(tokens, loadable, s, e)
    ensures Filter(Within(s, e), tokens) == Filter(Within(s, e), loadable)
  {
    WithinExact(s, e);
    FilterAgree(Within(s, e), tokens, loadable);
  }

  /** A against the columns startB .. upTo - 1 compares exactly the pairs
      whose files load: A stays loaded, and each B submission is released
      only after its own column. */
  lemma {:induction false} CrossComplete(tokens: seq<bool>, loadable: seq<bool>, w: Windows, upTo: int)
    requires |loadable| == |tokens| && 0 <= w.startA && w.endA < w.startB && upTo <= |tokens|
    requires HeldExactly(tokens, loadable, w.startA, w.endA)
    requires HeldExactly(tokens, loadable, w.startB, upTo - 1)
    ensures CrossComparedUpTo(tokens, w, upTo) == Filter(CrossUpTo(w.startA, w.endA, w.startB, upTo), loadable)
    decreases upTo - w.startB
  {
    if upTo > w.startB {
      var k := upTo - 1;
      var column := Column(k, w.startA, w.endA);
      var released := ReleaseRange(tokens, w.startB, k);
      CrossComplete(tokens, loadable, w, k);
      ColumnExact(k, w.startA, w.endA);
      FilterAgree(column, released, loadable);
      FilterConcat(CrossUpTo(w.startA, w.endA, w.startB, k), column, loadable);
    }
  }

  /** The windows of a round hold exactly the token lists whose files load. */
  ghost predicate RoundHeld(w: Windows, tokens: seq<bool>, loadable: seq<bool>)
  {
    && |loadable| == |tokens|
    && RoundReady(|tokens|, w)
    && HeldExactly(tokens, loadable, w.startA, Max(w.endA, w.endB))
  }

  ghost predicate BlockHeld(w: Windows, tokens: seq<bool>, loadable: seq<bool>)
  {
    && |loadable| == |tokens|
    && BlockReady(|tokens|, w)
    && HeldExactly(tokens, loadable, w.startA, w.endA)
    && HeldExactly(tokens, loadable, w.startB, w.endB)
  }

  lemma {:induction false} RoundComplete(w: Windows, tokens: seq<bool>, loadable: seq<bool>,
                                         readings: seq<MemoryReading>)
    requires RoundHeld(w, tokens, loadable) && forall r <- readings :: Gentle(r)
    ensures Complete(Round(Corrected, w, tokens, loadable, readings), loadable)
    decreases |readings|, 2, 0
  {
    WithinComplete(w.startA, w.endA, tokens, loadable);
    if w.startA != w.startB {
      BlockComplete(w, tokens, loadable, readings);
      PrependComplete(Within(w.startA, w.endA), Filter(Within(w.startA, w.endA), tokens),
                      BlockB(Corrected, w, tokens, loadable, readings), loadable);
    }
  }

  lemma {:induction false} BlockComplete(w: Windows, tokens: seq<bool>, loadable: seq<bool>,
                                         readings: seq<MemoryReading>)
    requires BlockHeld(w, tokens, loadable) && forall r <- readings :: Gentle(r)
    ensures Complete(BlockB(Corrected, w, tokens, loadable, readings), loadable)
    decreases |readings|, 1, 1
  {
    CrossComplete(tokens, loadable, w, w.endB + 1);
    if w.endB == |tokens| - 1 {
      LastBlockComplete(w, tokens, loadable, readings);
    } else {
      MoreBlocksComplete(w, tokens, loadable, readings);
    }
  }

  lemma {:induction false} LastBlockComplete(w: Windows, tokens: seq<bool>, loadable: seq<bool>,
                                             readings: seq<MemoryReading>)
    requires BlockHeld(w, tokens, loadable) && w.endB == |tokens| - 1 && forall r <- readings :: Gentle(r)
    requires CrossCompared(tokens, w) == Filter(Cross(w), loadable)
    ensures Complete(BlockB(Corrected, w, tokens, loadable, readings), loadable)
    decreases |readings|, 1, 0
  {
    var released := ReleaseRange(tokens, w.startB, w.endB + 1);
    var rest := NextA(Corrected, w, released, loadable, readings);
    BlockBLast(Corrected, w, tokens, loadable, readings);
    NextAComplete(w, released, loadable, readings);
    PrependComplete(Cross(w), CrossCompared(tokens, w), AtLine156(rest), loadable);
  }

  /** Releasing B and loading the next one gently keeps the windows held exactly. */
  lemma NextBlockHeld(w: Windows, tokens: seq<bool>, loadable: seq<bool>, r: MemoryReading)
    requires BlockHeld(w, tokens, loadable) && w.endB != |tokens| - 1 && Gentle(r)
    ensures var from := w.endB + 1;
            BlockHeld(w.(startB := from, endB := FillIndex(from, |tokens|, r)),
                      Fill(ReleaseRange(tokens, w.startB, from), loadable, from, r), loadable)
  {
    var from := w.endB + 1;
    var released := ReleaseRange(tokens, w.startB, from);
    FillKeepsBelow(released, loadable, from, r);
    GentleFill(released, loadable, from, r);
  }

  lemma {:induction false} MoreBlocksComplete(w: Windows, tokens: seq<bool>, loadable: seq<bool>,
                                              readings: seq<MemoryReading>)
    requires BlockHeld(w, tokens, loadable) && w.endB != |tokens| - 1 && forall r <- readings :: Gentle(r)
    requires CrossCompared(tokens, w) == Filter(Cross(w), loadable)
    ensures Complete(BlockB(Corrected, w, tokens, loadable, readings), loadable)
    decreases |readings|, 1, 0
  {
    if readings != [] {
      var index := FillIndex(w.endB + 1, |tokens|, readings[0]);
      var loaded := Fill(ReleaseRange(tokens, w.startB, w.endB + 1), loadable, w.endB + 1, readings[0]);
      var w' := w.(startB := w.endB + 1, endB := index);
      BlockBStep(Corrected, w, tokens, loadable, readings);
      NextBlockHeld(w, tokens, loadable, readings[0]);
      assert forall r <- readings[1..] :: r in readings;
      BlockComplete(w', loaded, loadable, readings[1..]);
      PrependComplete(Cross(w), CrossCompared(tokens, w), BlockB(Corrected, w', loaded, loadable, readings[1..]), loadable);
    }
  }

  /** Releasing A and loading the next one gently holds the next windows exactly. */
  lemma NextRoundHeld(w: Windows, tokens: seq<bool>, loadable: seq<bool>, r: MemoryReading)
    requires |loadable| == |tokens| && 0 <= w.startA <= w.endA + 1 <= |tokens| && Gentle(r)
    ensures var from := w.endA + 1;
            RoundHeld(NextWindows(w, FillIndex(from, |tokens|, r), |tokens|),
                      Fill(ReleaseRange(tokens, w.startA, from), loadable, from, r), loadable)
  {
    var from := w.endA + 1;
    var released := ReleaseRange(tokens, w.startA, from);
    var index := FillIndex(from, |tokens|, r);
    NextWindowsReady(|tokens|, w, index);
    NextWindowsWithinFill(w, index, |tokens|);
    if from < |tokens| {
      GentleFill(released, loadable, from, r);
    }
  }

  lemma {:induction false} NextAComplete(w: Windows, tokens: seq<bool>, loadable: seq<bool>,
                                         readings: seq<MemoryReading>)
    requires |loadable| == |tokens| && 0 <= w.startA <= w.endA + 1 <= |tokens|
    requires forall r <- readings :: Gentle(r)
    ensures Complete(NextA(Corrected, w, tokens, loadable, readings), loadable)
    decreases |readings|, 0, 0
  {
    if readings != [] {
      var from := w.endA + 1;
      var index := FillIndex(from, |tokens|, readings[0]);
      var loaded := Fill(ReleaseRange(tokens, w.startA, from), loadable, from, readings[0]);
      NextAStep(Corrected, w, tokens, loadable, readings);
      NextRoundHeld(w, tokens, loadable, readings[0]);
      assert forall r <- readings[1..] :: r in readings;
      RoundComplete(NextWindows(w, index, |tokens|), loaded, loadable, readings[1..]);
    } else {
      NextAStops(Corrected, w, tokens, loadable, readings);
    }
  }

  /** Every corrected run whose `fillMemory` calls are all gentle compares
      exactly the pairs it steps over whose two files load; memory may still
      run short, as long as the halving frees enough. */
  lemma GentleRunComplete(tokens: seq<bool>, loadable: seq<bool>, readings: seq<MemoryReading>)
    requires |loadable| == |tokens| >= 1 && forall r <- readings :: Gentle(r)
    ensures Complete(Schedule(Corrected, tokens, loadable, readings), loadable)
  {
    if readings != [] {
      var index := FillIndex(0, |tokens|, readings[0]);
      var loaded := Fill(tokens, loadable, 0, readings[0]);
      var w := FirstWindows(index);
      ScheduleStep(Corrected, tokens, loadable, readings);
      GentleFill(tokens, loadable, 0, readings[0]);
      assert RoundHeld(w, loaded, loadable) by {
        assert JavaDiv(index, 2) == index / 2;
      }
      assert forall r <- readings[1..] :: r in readings;
      RoundComplete(w, loaded, loadable, readings[1..]);
    }
  }

  /** A finished gentle corrected run therefore compares every pair of
      loadable submissions, each exactly once. */
  lemma GentleRunComparesEveryLoadablePair(tokens: seq<bool>, loadable: seq<bool>, readings: seq<MemoryReading>)
    requires |loadable| == |tokens| >= 1 && forall r <- readings :: Gentle(r)
    requires Schedule(Corrected, tokens, loadable, readings).finished
    ensures var run := Schedule(Corrected, tokens, loadable, readings);
            && (forall i, j | 0 <= i < j < |tokens| && loadable[i] && loadable[j] :: (i, j) in run.compared)
            && NoDup(run.compared)
  {
    var run := Schedule(Corrected, tokens, loadable, readings);
    GentleRunComplete(tokens, loadable, readings);
    ScheduleCoversEveryPairOnce(tokens, loadable, readings);
    FilterMembers(run.examined, loadable);
    FilterNoDup(run.examined, loadable);
  }

  /** A phase that compares only pairs it steps over, followed by a run that
      does the same. */
  lemma PrependStepped(examined: seq<(int, int)>, compared: seq<(int, int)>, rest: Run)
    requires multiset(compared) <= multiset(examined)
    requires multiset(rest.compared) <= multiset(rest.examined)
    ensures var run := Prepend(examined, compared, rest); multiset(run.compared) <= multiset(run.examined)
  {
  }

  /** In either variant a round compares only pairs it steps over, and no
      more often. */
  lemma {:induction false} RoundComparesStepped(v: Variant, w: Windows, tokens: seq<bool>, loadable: seq<bool>,
                                                readings: seq<MemoryReading>)
    requires |loadable| == |tokens|
    ensures var run := Round(v, w, tokens, loadable, readings); multiset(run.compared) <= multiset(run.examined)
    decreases |readings|, 2
  {
    var inA := Within(w.startA, w.endA);
    FilterSound(inA, tokens);
    if w.startA != w.startB {
      BlockComparesStepped(v, w, tokens, loadable, readings);
      PrependStepped(inA, Filter(inA, tokens), BlockB(v, w, tokens, loadable, readings));
    }
  }

  lemma {:induction false} BlockComparesStepped(v: Variant, w: Windows, tokens: seq<bool>, loadable: seq<bool>,
                                                readings: seq<MemoryReading>)
    requires |loadable| == |tokens|
    ensures var run := BlockB(v, w, tokens, loadable, readings); multiset(run.compared) <= multiset(run.examined)
    decreases |readings|, 1
  {
    var cross := Cross(w);
    var compared := CrossCompared(tokens, w);
    CrossComparedSound(tokens, w, w.endB + 1);
    assert multiset(compared) <= multiset(cross);
    var released := ReleaseRange(tokens, w.startB, w.endB + 1);
    if w.endB == |tokens| - 1 {
      var rest := NextA(v, w, released, loadable, readings);
      BlockBLast(v, w, tokens, loadable, readings);
      NextAComparesStepped(v, w, released, loadable, readings);
      PrependStepped(cross, compared, AtLine156(rest));
    } else if readings != [] && w.endB + 1 >= 0 {
      var index := FillIndex(w.endB + 1, |tokens|, readings[0]);
      var loaded := Fill(released, loadable, w.endB + 1, readings[0]);
      var w' := w.(startB := w.endB + 1, endB := index);
      BlockBStep(v, w, tokens, loadable, readings);
      BlockComparesStepped(v, w', loaded, loadable, readings[1..]);
      PrependStepped(cross, compared, BlockB(v, w', loaded, loadable, readings[1..]));
    }
  }

  lemma {:induction false} NextAComparesStepped(v: Variant, w: Windows, tokens: seq<bool>, loadable: seq<bool>,
                                                readings: seq<MemoryReading>)
    requires |loadable| == |tokens|
    ensures var run := NextA(v, w, tokens, loadable, readings); multiset(run.compared) <= multiset(run.examined)
    decreases |readings|, 0
  {
    if readings != [] && w.endA + 1 >= 0 {
      var index := FillIndex(w.endA + 1, |tokens|, readings[0]);
      var loaded := Fill(ReleaseRange(tokens, w.startA, w.endA + 1), loadable, w.endA + 1, readings[0]);
      NextAStep(v, w, tokens, loadable, readings);
      RoundComparesStepped(v, Next(v, w, index, |tokens|), loaded, loadable, readings[1..]);
    }
  }

  /** Either variant: every pair compared is a pair stepped over, and no
      more often, so `comparisons` never exceeds `count`. */
  lemma ScheduleComparesStepped(v: Variant, tokens: seq<bool>, loadable: seq<bool>, readings: seq<MemoryReading>)
    requires |loadable| == |tokens|
    ensures var run := Schedule(v, tokens, loadable, readings); multiset(run.compared) <= multiset(run.examined)
  {
    if readings != [] {
      var index := FillIndex(0, |tokens|, readings[0]);
      RoundComparesStepped(v, First(v, index), Fill(tokens, loadable, 0, readings[0]), loadable, readings[1..]);
    }
  }

  /** As written, under the six-submission readings of `Skipping`, the pair
      (2, 3) is never stepped over and so never compared. */
  lemma LastBlockResetNeverCompares(tokens: seq<bool>, loadable: seq<bool>, rs: seq<MemoryReading>)
    requires |loadable| == |tokens| == 6 && Skipping(rs)
    ensures (2, 3) !in Schedule(AsWritten, tokens, loadable, rs).compared
  {
    var run := Schedule(AsWritten, tokens, loadable, rs);
    LastBlockResetSkipsPairs(tokens, loadable, rs);
    ScheduleComparesStepped(AsWritten, tokens, loadable, rs);
    assert multiset(run.examined)[(2, 3)] == 0;
  }

  /** Three submissions; the first `fillMemory` loads all three without
      OutOfMemoryError, is short of memory, and its halving and walk
      release all of them again, returning -1; the next two fit. */
  ghost predicate EmptyFirstA(rs: seq<MemoryReading>)
  {
    && |rs| == 3
    && rs[0].outOfMemoryAt.None? && FillIndex(0, 3, rs[0]) == -1
    && rs[1].outOfMemoryAt.None? && !rs[1].pressured
    && rs[2].outOfMemoryAt.None? && !rs[2].pressured
  }

  /** Such readings: memory is short on the first call, the halving keeps
      index 1 and the walk releases two more. */
  function EmptyAReadings(): (rs: seq<MemoryReading>)
    ensures EmptyFirstA(rs)
  {
    var r := MemoryReading(None, true, 5);
    assert LoadEnd(0, 3, r) == 3 && HalvedIndex(0, 3, r) == 1 && ExtraReleases(0, 3, r) == 2;
    [ r, MemoryReading(None, false, 0), MemoryReading(None, false, 0) ]
  }

  /** The first fill of `EmptyFirstA` readings leaves no token list. */
  lemma EmptyFirstFill(tokens: seq<bool>, loadable: seq<bool>, r: MemoryReading)
    requires |loadable| == |tokens| == 3 && r.outOfMemoryAt.None? && FillIndex(0, 3, r) == -1
    ensures forall k | 0 <= k < 3 :: !Fill(tokens, loadable, 0, r)[k]
  {
    assert Touched(0, 3, r) == 3;
  }

  /** The last B block after the empty first A: B = [1, 2] when corrected;
      as written B restarts at 0, since `fillMemory` returned -1. */
  function EmptyALastBlock(v: Variant): Windows
  {
    if v == Corrected then Windows(0, 0, 1, 2) else Windows(0, 0, 0, 2)
  }

  /** The final round's windows: A = [1, 2] corrected, [0, 2] as written. */
  function EmptyAFinal(v: Variant): Windows
  {
    if v == Corrected then Windows(1, 2, 1, 2) else Windows(0, 2, 0, 2)
  }

  /** The flags while the last B block runs. */
  function EmptyALastTokens(v: Variant, tokens: seq<bool>, loadable: seq<bool>, rs: seq<MemoryReading>): seq<bool>
    requires |loadable| == |tokens| == 3 && EmptyFirstA(rs)
  {
    var w0 := First(v, -1);
    var from := Max(w0.endB + 1, 0);
    Fill(ReleaseRange(Fill(tokens, loadable, 0, rs[0]), w0.startB, from), loadable, from, rs[1])
  }

  /** A first A = [0, 0] and an empty first B lead straight to
      the next B block: the run so far steps over nothing. */
  lemma FirstRoundToBlock(v: Variant, tokens: seq<bool>, loadable: seq<bool>, rs: seq<MemoryReading>, w: Windows)
    requires |loadable| == |tokens| && |rs| >= 2 && First(v, FillIndex(0, |tokens|, rs[0])) == w
    requires w.startA == w.endA == 0 && w.endB < w.startB && w.endB != |tokens| - 1 && w.endB + 1 >= 0
    ensures var from := w.endB + 1;
            var next := w.(startB := from, endB := FillIndex(from, |tokens|, rs[1]));
            var t := Fill(ReleaseRange(Fill(tokens, loadable, 0, rs[0]), w.startB, from), loadable, from, rs[1]);
            var last := BlockB(v, next, t, loadable, rs[2..]);
            var run := Schedule(v, tokens, loadable, rs);
            run.examined == last.examined && run.compared == last.compared && run.finished == last.finished
  {
    var t1 := Fill(tokens, loadable, 0, rs[0]);
    ScheduleStep(v, tokens, loadable, rs);
    assert Within(0, 0) == [] by {
      assert WithinUpTo(0, 1, 0) == WithinUpTo(0, 0, 0) + Row(0, 1, 0);
    }
    assert Cross(w) == [] && CrossCompared(t1, w) == [];
    assert rs[1..][0] == rs[1] && rs[1..][1..] == rs[2..];
    BlockBStep(v, w, t1, loadable, rs[1..]);
  }

  /** The last B block with one reading left: line 156, then the final round. */
  lemma LastBlockThenRound(v: Variant, w: Windows, t: seq<bool>, loadable: seq<bool>, rs: seq<MemoryReading>,
                           n: Windows)
    requires |loadable| == |t| && w.endB == |t| - 1 && |rs| == 1 && w.endA + 1 >= 0
    requires Next(v, w, FillIndex(w.endA + 1, |t|, rs[0]), |t|) == n
    ensures var released := ReleaseRange(ReleaseRange(t, w.startB, w.endB + 1), w.startA, w.endA + 1);
            var last := Round(v, n, Fill(released, loadable, w.endA + 1, rs[0]), loadable, []);
            var run := BlockB(v, w, t, loadable, rs);
            && run.examined == Cross(w) + last.examined
            && run.compared == CrossCompared(t, w) + last.compared
            && run.finished == last.finished
  {
    BlockBLast(v, w, t, loadable, rs);
    NextAStep(v, w, ReleaseRange(t, w.startB, w.endB + 1), loadable, rs);
    assert rs[1..] == [];
  }

  /** The first round, up to the last B block: nothing stepped over yet. */
  lemma EmptyAHead(v: Variant, tokens: seq<bool>, loadable: seq<bool>, rs: seq<MemoryReading>)
    requires |loadable| == |tokens| == 3 && EmptyFirstA(rs)
    ensures var last := BlockB(v, EmptyALastBlock(v), EmptyALastTokens(v, tokens, loadable, rs), loadable, rs[2..]);
            var run := Schedule(v, tokens, loadable, rs);
            run.examined == last.examined && run.compared == last.compared && run.finished == last.finished
  {
    var w0 := First(v, -1);
    assert w0 == if v == Corrected then Windows(0, 0, 1, 0) else Windows(0, 0, 1, -1);
    assert FillIndex(w0.endB + 1, 3, rs[1]) == 2;
    FirstRoundToBlock(v, tokens, loadable, rs, w0);
  }

  /** As corrected, the B fill leaves submission 0 without a token list. */
  lemma EmptyALastTokensCorrected(tokens: seq<bool>, loadable: seq<bool>, rs: seq<MemoryReading>)
    requires |loadable| == |tokens| == 3 && EmptyFirstA(rs)
    ensures !EmptyALastTokens(Corrected, tokens, loadable, rs)[0]
  {
    var t1 := Fill(tokens, loadable, 0, rs[0]);
    EmptyFirstFill(tokens, loadable, rs[0]);
    FillKeepsBelow(ReleaseRange(t1, 1, 1), loadable, 1, rs[1]);
  }

  /** The final round ends the run, and compares nothing with submission 0
      when it holds no token list. */
  lemma EmptyAFinalRound(v: Variant, t: seq<bool>, loadable: seq<bool>)
    requires |loadable| == |t| == 3 && !t[0]
    ensures var last := Round(v, EmptyAFinal(v), t, loadable, []);
            last.finished && (0, 1) !in last.compared && (0, 2) !in last.compared
  {
    FilterSound(Within(EmptyAFinal(v).startA, 2), t);
  }

  /** The last B block steps over (0, 1) and (0, 2), and compares neither:
      corrected, submission 0 holds no token list; as written, columns 1
      and 2 come after submission 0, the first of B, was released (line 146). */
  lemma EmptyACross(v: Variant, t: seq<bool>)
    requires |t| == 3 && (v == Corrected ==> !t[0])
    ensures (0, 1) in Cross(EmptyALastBlock(v)) && (0, 2) in Cross(EmptyALastBlock(v))
    ensures (0, 1) !in CrossCompared(t, EmptyALastBlock(v)) && (0, 2) !in CrossCompared(t, EmptyALastBlock(v))
  {
    var w1 := EmptyALastBlock(v);
    CrossExact(w1);
    if v == Corrected {
      CrossComparedSound(t, w1, 3);
    } else {
      ReleasedBColumns(t);
    }
  }

  /** As written, B = [0, 2] against A = [0, 0]: only column 0 is compared. */
  lemma ReleasedBColumns(t: seq<bool>)
    requires |t| == 3
    ensures var w := Windows(0, 0, 0, 2);
            (0, 1) !in CrossComparedUpTo(t, w, 3) && (0, 2) !in CrossComparedUpTo(t, w, 3)
  {
    var w := Windows(0, 0, 0, 2);
    var r1 := ReleaseRange(t, 0, 1);
    var r2 := ReleaseRange(t, 0, 2);
    var c1 := Filter(Column(1, 0, 0), r1);
    var c2 := Filter(Column(2, 0, 0), r2);
    assert CrossComparedUpTo(t, w, 2) == CrossComparedUpTo(t, w, 1) + c1;
    assert CrossComparedUpTo(t, w, 3) == CrossComparedUpTo(t, w, 2) + c2;
    CrossComparedSound(t, w, 1);
    FilterSound(Column(1, 0, 0), r1);
    FilterSound(Column(2, 0, 0), r2);
    assert !r1[0] && !r2[0];
  }

  /** Under `EmptyFirstA` readings, in either variant, the run reaches its
      end having stepped over (0, 1) and (0, 2) without comparing them,
      whichever files load: the first A = [0, 0] holds no token list, and
      no later round returns to submission 0 with its token list loaded. */
  lemma EmptyAFillNeverComparesFirst(v: Variant, tokens: seq<bool>, loadable: seq<bool>, rs: seq<MemoryReading>)
    requires |loadable| == |tokens| == 3 && EmptyFirstA(rs)
    ensures var run := Schedule(v, tokens, loadable, rs);
            && run.finished
            && (0, 1) in run.examined && (0, 2) in run.examined
            && (0, 1) !in run.compared && (0, 2) !in run.compared
  {
    var t := EmptyALastTokens(v, tokens, loadable, rs);
    var w1 := EmptyALastBlock(v);
    var rs2 := rs[2..];
    var released := ReleaseRange(ReleaseRange(t, w1.startB, w1.endB + 1), w1.startA, w1.endA + 1);
    var t3 := Fill(released, loadable, w1.endA + 1, rs2[0]);
    EmptyAHead(v, tokens, loadable, rs);
    assert rs2[0] == rs[2] && FillIndex(1, 3, rs[2]) == 2;
    assert Next(v, w1, 2, 3) == EmptyAFinal(v);
    LastBlockThenRound(v, w1, t, loadable, rs2, EmptyAFinal(v));
    if v == Corrected {
      EmptyALastTokensCorrected(tokens, loadable, rs);
    }
    EmptyACross(v, t);
    FillKeepsBelow(released, loadable, 1, rs2[0]);
    EmptyAFinalRound(v, t3, loadable);
  }
}
