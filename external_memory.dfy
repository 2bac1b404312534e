/** What the memory-paged strategy compares and what it leaves in memory,
    on the corrected schedule: it compares only submissions whose files
    loaded, never a pair more often than it steps over it, releases every
    token list by the end, compares every pair when memory never runs short,
    and reaches the division of line 156 with `comparisons == 0` when no
    file loads. */
module ExternalMemory {
  import opened Wrappers
  import opened Counting
  import opened ExternalSchedule
  import opened ExternalCoverage

  /** Within [lo, hi], a submission holds a token list only if its file loads. */
  ghost predicate LoadedOnlyIfLoadable(tokens: seq<bool>, loadable: seq<bool>, lo: int, hi: int)
  {
    forall k | lo <= k <= hi && 0 <= k < |tokens| && k < |loadable| :: tokens[k] ==> loadable[k]
  }

  /** No submission below n holds a token list. */
  ghost predicate ReleasedBelow(tokens: seq<bool>, n: int)
  {
    forall k | 0 <= k < n && k < |tokens| :: !tokens[k]
  }

  predicate BothLoadable(loadable: seq<bool>, p: (int, int))
  {
    0 <= p.0 < |loadable| && 0 <= p.1 < |loadable| && loadable[p.0] && loadable[p.1]
  }

  /** What holds of every corrected run: it compares only pairs it steps
      over, and no more often; only pairs of loadable submissions; each
      divisor of line 156 lies between 0 and the comparisons made; and a run
      that reaches its end leaves no token list in memory. */
  ghost predicate Sound(run: Run, loadable: seq<bool>)
  {
    && multiset(run.compared) <= multiset(run.examined)
    && (forall p <- run.compared :: BothLoadable(loadable, p))
    && (forall c <- run.checkpoints :: 0 <= c <= |run.compared|)
    && (run.finished ==> |run.tokens| == |loadable| && ReleasedBelow(run.tokens, |loadable|))
  }

  lemma FillKeepsBelow(tokens: seq<bool>, loadable: seq<bool>, from: int, r: MemoryReading)
    requires |loadable| == |tokens| && 0 <= from
    ensures forall k | 0 <= k < from && k < |tokens| :: Fill(tokens, loadable, from, r)[k] == tokens[k]
  {
  }

  /** After `fillMemory(from)` a submission from `from` up to the index it
      returns (or `from` itself, when it returns `from - 1`) holds a token
      list only if its file loads, and the submission whose load ran out of
      memory holds none. */
  lemma FillLoadsOnlyLoadable(tokens: seq<bool>, loadable: seq<bool>, from: int, r: MemoryReading)
    requires |loadable| == |tokens| && 0 <= from
    ensures LoadedOnlyIfLoadable(Fill(tokens, loadable, from, r), loadable, from,
                                 Max(FillIndex(from, |tokens|, r), from))
    ensures r.outOfMemoryAt.Some? && from + r.outOfMemoryAt.value < |tokens| ==>
              !Fill(tokens, loadable, from, r)[from + r.outOfMemoryAt.value]
  {
    var after := Fill(tokens, loadable, from, r);
    forall k | from <= k <= Max(FillIndex(from, |tokens|, r), from) && 0 <= k < |tokens| && after[k]
      ensures loadable[k]
    {
      assert LoadEnd(from, |tokens|, r) >= from;
      assert from <= k < Touched(from, |tokens|, r);
    }
    if r.outOfMemoryAt.Some? && from + r.outOfMemoryAt.value < |tokens| {
      var k := from + r.outOfMemoryAt.value;
      assert LoadEnd(from, |tokens|, r) == k;
      assert from <= k < Touched(from, |tokens|, r);
    }
  }

  /** When nothing runs short, `fillMemory(from)` loads every submission
      from `from` on whose file loads, and keeps all of them. */
  lemma {:induction false} CleanFillLoadsEverything(tokens: seq<bool>, loadable: seq<bool>, from: int, r: MemoryReading)
    requires |loadable| == |tokens| && 0 <= from
    requires !r.pressured && r.outOfMemoryAt.None?
    ensures forall k | from <= k < |tokens| :: Fill(tokens, loadable, from, r)[k] == loadable[k]
  {
    assert LoadEnd(from, |tokens|, r) == Max(from, |tokens|);
    if from < |tokens| {
      assert Touched(from, |tokens|, r) == |tokens|;
      assert FillIndex(from, |tokens|, r) == |tokens| - 1;
    }
  }

  lemma {:induction false} FilterSound(pairs: seq<(int, int)>, tokens: seq<bool>)
    ensures multiset(Filter(pairs, tokens)) <= multiset(pairs)
    ensures forall p <- Filter(pairs, tokens) :: p in pairs && Both(tokens, p)
  {
    if pairs != [] {
      var init := pairs[..|pairs| - 1];
      var last := pairs[|pairs| - 1];
      var extra := if Both(tokens, last) then [last] else [];
      FilterSound(init, tokens);
      assert pairs == init + [last];
      assert Filter(pairs, tokens) == Filter(init, tokens) + extra;
      assert multiset(Filter(pairs, tokens)) == multiset(Filter(init, tokens)) + multiset(extra);
      assert multiset(pairs) == multiset(init) + multiset{last};
      forall p <- Filter(pairs, tokens) ensures p in pairs && Both(tokens, p) {
        assert p in Filter(init, tokens) || p in extra;
      }
    }
  }

  lemma {:induction false} FilterKeepsAll(pairs: seq<(int, int)>, tokens: seq<bool>)
    requires forall p <- pairs :: Both(tokens, p)
    ensures Filter(pairs, tokens) == pairs
  {
    if pairs != [] {
      var init := pairs[..|pairs| - 1];
      FilterKeepsAll(init, tokens);
      assert pairs == init + [pairs[|pairs| - 1]];
    }
  }

  lemma {:induction false} CrossComparedSound(tokens: seq<bool>, w: Windows, upTo: int)
    ensures multiset(CrossComparedUpTo(tokens, w, upTo)) <= multiset(CrossUpTo(w.startA, w.endA, w.startB, upTo))
    ensures forall p <- CrossComparedUpTo(tokens, w, upTo) ::
              Both(tokens, p) && w.startA <= p.0 <= w.endA && w.startB <= p.1 < upTo
    decreases upTo - w.startB
  {
    if upTo > w.startB {
      var released := ReleaseRange(tokens, w.startB, upTo - 1);
      var column := Column(upTo - 1, w.startA, w.endA);
      CrossComparedSound(tokens, w, upTo - 1);
      FilterSound(column, released);
      ColumnExact(upTo - 1, w.startA, w.endA);
      forall p <- Filter(column, released)
        ensures Both(tokens, p) && w.startA <= p.0 <= w.endA && p.1 == upTo - 1
      {
        assert p in column && Both(released, p);
      }
    }
  }

  /** Column by column, with A disjoint from B and every submission of both
      holding a token list, the A-against-B loop compares every pair it
      steps over. */
  lemma {:induction false} CrossComparesAll(tokens: seq<bool>, w: Windows, upTo: int)
    requires w.endA < w.startB
    requires forall p <- CrossUpTo(w.startA, w.endA, w.startB, upTo) :: Both(tokens, p)
    ensures CrossComparedUpTo(tokens, w, upTo) == CrossUpTo(w.startA, w.endA, w.startB, upTo)
    decreases upTo - w.startB
  {
    if upTo > w.startB {
      var released := ReleaseRange(tokens, w.startB, upTo - 1);
      var column := Column(upTo - 1, w.startA, w.endA);
      var cross := CrossUpTo(w.startA, w.endA, w.startB, upTo - 1);
      assert CrossUpTo(w.startA, w.endA, w.startB, upTo) == cross + column;
      CrossComparesAll(tokens, w, upTo - 1);
      ColumnExact(upTo - 1, w.startA, w.endA);
      forall p <- column ensures Both(released, p) {
        assert p in cross + column;
        assert Both(tokens, p);
      }
      FilterKeepsAll(column, released);
    }
  }

  lemma PrependSound(examined: seq<(int, int)>, compared: seq<(int, int)>, rest: Run, loadable: seq<bool>)
    requires multiset(compared) <= multiset(examined)
    requires forall p <- compared :: BothLoadable(loadable, p)
    requires Sound(rest, loadable)
    ensures Sound(Prepend(examined, compared, rest), loadable)
  {
    var run := Prepend(examined, compared, rest);
    assert multiset(run.compared) == multiset(compared) + multiset(rest.compared);
    assert multiset(run.examined) == multiset(examined) + multiset(rest.examined);
    forall c <- run.checkpoints ensures 0 <= c <= |run.compared| {
      var i :| 0 <= i < |run.checkpoints| && run.checkpoints[i] == c;
      assert rest.checkpoints[i] in rest.checkpoints;
    }
  }

  /** Releasing more token lists keeps those below n released. */
  lemma ReleaseKeepsReleased(tokens: seq<bool>, lo: int, hi: int, n: int)
    requires ReleasedBelow(tokens, n)
    ensures ReleasedBelow(ReleaseRange(tokens, lo, hi), n)
  {
  }

  lemma AtLine156Sound(rest: Run, loadable: seq<bool>)
    requires Sound(rest, loadable)
    ensures Sound(AtLine156(rest), loadable)
  {
  }

  /** The windows of a corrected round are loaded only from loadable files,
      and everything before A is released. */
  ghost predicate RoundState(w: Windows, tokens: seq<bool>, loadable: seq<bool>)
  {
    && |loadable| == |tokens|
    && RoundReady(|tokens|, w)
    && LoadedOnlyIfLoadable(tokens, loadable, w.startA, Max(w.endA, w.endB))
    && ReleasedBelow(tokens, w.startA)
  }

  ghost predicate BlockState(w: Windows, tokens: seq<bool>, loadable: seq<bool>)
  {
    && |loadable| == |tokens|
    && BlockReady(|tokens|, w)
    && LoadedOnlyIfLoadable(tokens, loadable, w.startA, w.endA)
    && LoadedOnlyIfLoadable(tokens, loadable, w.startB, w.endB)
    && ReleasedBelow(tokens, w.startA)
  }

  lemma LastRoundSound(w: Windows, tokens: seq<bool>, loadable: seq<bool>)
    requires |loadable| == |tokens| && w.startA <= w.endA + 1
    requires LoadedOnlyIfLoadable(tokens, loadable, w.startA, Max(w.endA, w.endB))
    requires ReleasedBelow(tokens, w.startA) && w.endA == |tokens| - 1
    ensures Sound(Run(Within(w.startA, w.endA), Filter(Within(w.startA, w.endA), tokens), [],
                      ReleaseRange(tokens, w.startA, w.endA + 1), true), loadable)
  {
    FirstPhaseSound(w, tokens, loadable);
    var released := ReleaseRange(tokens, w.startA, w.endA + 1);
    forall k | 0 <= k < |released| ensures !released[k] {
      if k < w.startA {
        assert !tokens[k];
      }
    }
  }

  lemma FirstPhaseSound(w: Windows, tokens: seq<bool>, loadable: seq<bool>)
    requires |loadable| == |tokens| && w.startA <= w.endA + 1
    requires LoadedOnlyIfLoadable(tokens, loadable, w.startA, Max(w.endA, w.endB))
    ensures multiset(Filter(Within(w.startA, w.endA), tokens)) <= multiset(Within(w.startA, w.endA))
    ensures forall p <- Filter(Within(w.startA, w.endA), tokens) :: BothLoadable(loadable, p)
  {
    var inA := Within(w.startA, w.endA);
    FilterSound(inA, tokens);
    WithinExact(w.startA, w.endA);
    forall p <- Filter(inA, tokens) ensures BothLoadable(loadable, p) {
      assert p in inA && Both(tokens, p);
      assert w.startA <= p.0 < p.1 <= w.endA;
      LoadableAt(tokens, loadable, w.startA, Max(w.endA, w.endB), p.0);
      LoadableAt(tokens, loadable, w.startA, Max(w.endA, w.endB), p.1);
    }
  }

  lemma CrossPhaseSound(w: Windows, tokens: seq<bool>, loadable: seq<bool>)
    requires |loadable| == |tokens|
    requires LoadedOnlyIfLoadable(tokens, loadable, w.startA, w.endA)
    requires LoadedOnlyIfLoadable(tokens, loadable, w.startB, w.endB)
    ensures multiset(CrossCompared(tokens, w)) <= multiset(Cross(w))
    ensures forall p <- CrossCompared(tokens, w) :: BothLoadable(loadable, p)
  {
    CrossComparedSound(tokens, w, w.endB + 1);
    forall p <- CrossCompared(tokens, w) ensures BothLoadable(loadable, p) {
      assert Both(tokens, p) && w.startA <= p.0 <= w.endA && w.startB <= p.1 <= w.endB;
      LoadableAt(tokens, loadable, w.startA, w.endA, p.0);
      LoadableAt(tokens, loadable, w.startB, w.endB, p.1);
    }
  }

  lemma LoadableAt(tokens: seq<bool>, loadable: seq<bool>, lo: int, hi: int, k: int)
    requires LoadedOnlyIfLoadable(tokens, loadable, lo, hi)
    requires lo <= k <= hi && 0 <= k < |tokens| == |loadable| && tokens[k]
    ensures loadable[k]
  {
  }

  lemma {:induction false} RoundSound(w: Windows, tokens: seq<bool>, loadable: seq<bool>,
                                      readings: seq<MemoryReading>)
    requires RoundState(w, tokens, loadable)
    ensures Sound(Round(Corrected, w, tokens, loadable, readings), loadable)
    decreases |readings|, 2, 0
  {
    if w.startA == w.startB {
      LastRoundSound(w, tokens, loadable);
    } else {
      FirstPhaseSound(w, tokens, loadable);
      BlockSound(w, tokens, loadable, readings);
      PrependSound(Within(w.startA, w.endA), Filter(Within(w.startA, w.endA), tokens),
                   BlockB(Corrected, w, tokens, loadable, readings), loadable);
    }
  }

  lemma {:induction false} BlockSound(w: Windows, tokens: seq<bool>, loadable: seq<bool>,
                                      readings: seq<MemoryReading>)
    requires BlockState(w, tokens, loadable)
    ensures Sound(BlockB(Corrected, w, tokens, loadable, readings), loadable)
    decreases |readings|, 1, 1
  {
    if w.endB == |tokens| - 1 {
      LastBlockSound(w, tokens, loadable, readings);
    } else {
      MoreBlocksSound(w, tokens, loadable, readings);
    }
  }

  lemma {:induction false} LastBlockSound(w: Windows, tokens: seq<bool>, loadable: seq<bool>,
                                          readings: seq<MemoryReading>)
    requires BlockState(w, tokens, loadable) && w.endB == |tokens| - 1
    ensures Sound(BlockB(Corrected, w, tokens, loadable, readings), loadable)
    decreases |readings|, 1, 0
  {
    var released := ReleaseRange(tokens, w.startB, w.endB + 1);
    var rest := NextA(Corrected, w, released, loadable, readings);
    BlockBLast(Corrected, w, tokens, loadable, readings);
    CrossPhaseSound(w, tokens, loadable);
    ReleaseKeepsReleased(tokens, w.startB, w.endB + 1, w.startA);
    NextASound(w, released, loadable, readings);
    AtLine156Sound(rest, loadable);
    PrependSound(Cross(w), CrossCompared(tokens, w), AtLine156(rest), loadable);
  }

  /** Releasing B and loading the next one keeps the block invariant. */
  lemma NextBlockState(w: Windows, tokens: seq<bool>, loadable: seq<bool>, r: MemoryReading)
    requires BlockState(w, tokens, loadable) && w.endB != |tokens| - 1
    ensures var from := w.endB + 1;
            BlockState(w.(startB := from, endB := FillIndex(from, |tokens|, r)),
                       Fill(ReleaseRange(tokens, w.startB, from), loadable, from, r), loadable)
  {
    var from := w.endB + 1;
    var released := ReleaseRange(tokens, w.startB, from);
    FillKeepsBelow(released, loadable, from, r);
    FillLoadsOnlyLoadable(released, loadable, from, r);
  }

  lemma {:induction false} MoreBlocksSound(w: Windows, tokens: seq<bool>, loadable: seq<bool>,
                                           readings: seq<MemoryReading>)
    requires BlockState(w, tokens, loadable) && w.endB != |tokens| - 1
    ensures Sound(BlockB(Corrected, w, tokens, loadable, readings), loadable)
    decreases |readings|, 1, 0
  {
    CrossPhaseSound(w, tokens, loadable);
    if readings == [] {
      FilterSound([], tokens);
    } else {
      var index := FillIndex(w.endB + 1, |tokens|, readings[0]);
      var loaded := Fill(ReleaseRange(tokens, w.startB, w.endB + 1), loadable, w.endB + 1, readings[0]);
      var w' := w.(startB := w.endB + 1, endB := index);
      BlockBStep(Corrected, w, tokens, loadable, readings);
      NextBlockState(w, tokens, loadable, readings[0]);
      BlockSound(w', loaded, loadable, readings[1..]);
      PrependSound(Cross(w), CrossCompared(tokens, w), BlockB(Corrected, w', loaded, loadable, readings[1..]), loadable);
    }
  }

  lemma {:induction false} NextASound(w: Windows, tokens: seq<bool>, loadable: seq<bool>,
                                      readings: seq<MemoryReading>)
    requires |loadable| == |tokens| && 0 <= w.startA <= w.endA + 1 <= |tokens|
    requires ReleasedBelow(tokens, w.startA)
    ensures Sound(NextA(Corrected, w, tokens, loadable, readings), loadable)
    decreases |readings|, 0, 0
  {
    var released := ReleaseRange(tokens, w.startA, w.endA + 1);
    if readings != [] {
      var from := w.endA + 1;
      var index := FillIndex(from, |tokens|, readings[0]);
      var loaded := Fill(released, loadable, from, readings[0]);
      NextAStep(Corrected, w, tokens, loadable, readings);
      NextRoundState(w, tokens, loadable, readings[0]);
      RoundSound(NextWindows(w, index, |tokens|), loaded, loadable, readings[1..]);
    } else {
      NextAStops(Corrected, w, tokens, loadable, readings);
      assert NextA(Corrected, w, tokens, loadable, readings) == Run([], [], [], released, false);
    }
  }

  /** Releasing A and loading the next one establishes the round invariant. */
  lemma NextRoundState(w: Windows, tokens: seq<bool>, loadable: seq<bool>, r: MemoryReading)
    requires |loadable| == |tokens| && 0 <= w.startA <= w.endA + 1 <= |tokens|
    requires ReleasedBelow(tokens, w.startA)
    ensures var from := w.endA + 1;
            RoundState(NextWindows(w, FillIndex(from, |tokens|, r), |tokens|),
                       Fill(ReleaseRange(tokens, w.startA, from), loadable, from, r), loadable)
  {
    var from := w.endA + 1;
    var released := ReleaseRange(tokens, w.startA, from);
    var index := FillIndex(from, |tokens|, r);
    var next := NextWindows(w, index, |tokens|);
    var loaded := Fill(released, loadable, from, r);
    NextWindowsReady(|tokens|, w, index);
    NextWindowsWithinFill(w, index, |tokens|);
    FillLoadsOnlyLoadable(released, loadable, from, r);
    assert LoadedOnlyIfLoadable(loaded, loadable, next.startA, Max(next.endA, next.endB));
    FillReleasedBelow(tokens, loadable, w.startA, from, r);
  }

  /** The next windows lie within what `fillMemory` may have loaded. */
  lemma NextWindowsWithinFill(w: Windows, index: int, size: int)
    requires 0 <= w.endA + 1 <= size && w.endA <= index <= size - 1
    ensures var next := NextWindows(w, index, size);
            next.startA == w.endA + 1 && Max(next.endA, next.endB) <= Max(index, w.endA + 1)
  {
    var next := NextWindows(w, index, size);
    if index != size - 1 {
      var k := index - next.startA + 1;
      assert JavaDiv(k, 2) == k / 2;
    }
  }

  /** Releasing A = [startA, from) and filling from `from` leaves nothing
      below `from` holding a token list. */
  lemma FillReleasedBelow(tokens: seq<bool>, loadable: seq<bool>, startA: int, from: int, r: MemoryReading)
    requires |loadable| == |tokens| && 0 <= startA <= from && ReleasedBelow(tokens, startA)
    ensures ReleasedBelow(Fill(ReleaseRange(tokens, startA, from), loadable, from, r), from)
  {
    var released := ReleaseRange(tokens, startA, from);
    FillKeepsBelow(released, loadable, from, r);
  }

  /** Every corrected run compares only pairs it steps over, never more often
      than it steps over them, and only pairs of submissions whose files
      load; every divisor of line 156 lies between 0 and the number of
      comparisons made; and a run that reaches its end has released every
      token list. */
  lemma ScheduleSound(tokens: seq<bool>, loadable: seq<bool>, readings: seq<MemoryReading>)
    requires |loadable| == |tokens| >= 1
    ensures Sound(Schedule(Corrected, tokens, loadable, readings), loadable)
  {
    if readings != [] {
      var index := FillIndex(0, |tokens|, readings[0]);
      var loaded := Fill(tokens, loadable, 0, readings[0]);
      var w := FirstWindows(index);
      ScheduleStep(Corrected, tokens, loadable, readings);
      FillLoadsOnlyLoadable(tokens, loadable, 0, readings[0]);
      assert RoundState(w, loaded, loadable) by {
        if index >= 0 {
          assert JavaDiv(index, 2) == index / 2;
        }
      }
      RoundSound(w, loaded, loadable, readings[1..]);
    } else {
      FilterSound([], tokens);
    }
  }

  /** A `fillMemory` call during which memory never runs short. */
  predicate Clean(r: MemoryReading)
  {
    !r.pressured && r.outOfMemoryAt.None?
  }

  ghost predicate AllHeld(tokens: seq<bool>, lo: int)
  {
    forall k | lo <= k < |tokens| && 0 <= k :: tokens[k]
  }

  /** With every submission of A holding a token list, A is compared with
      itself completely. */
  lemma FullRound(w: Windows, tokens: seq<bool>, loadable: seq<bool>, rs: seq<MemoryReading>)
    requires |loadable| == |tokens| && w.startA != w.startB
    requires 0 <= w.startA <= w.endA + 1 && w.endA < |tokens| && AllHeld(tokens, w.startA)
    ensures Round(Corrected, w, tokens, loadable, rs)
         == Prepend(Within(w.startA, w.endA), Within(w.startA, w.endA), BlockB(Corrected, w, tokens, loadable, rs))
  {
    WithinExact(w.startA, w.endA);
    FilterKeepsAll(Within(w.startA, w.endA), tokens);
  }

  /** With every submission of A and of the last B holding a token list, A
      is compared with B completely. */
  lemma FullLastBlock(w: Windows, tokens: seq<bool>, loadable: seq<bool>, rs: seq<MemoryReading>)
    requires |loadable| == |tokens| && w.endB == |tokens| - 1
    requires 0 <= w.startA <= w.endA + 1 && w.endA < w.startB <= w.endB + 1 && AllHeld(tokens, w.startA)
    ensures BlockB(Corrected, w, tokens, loadable, rs)
         == Prepend(Cross(w), Cross(w),
                    AtLine156(NextA(Corrected, w, ReleaseRange(tokens, w.startB, w.endB + 1), loadable, rs)))
  {
    BlockBLast(Corrected, w, tokens, loadable, rs);
    CrossExact(w);
    forall p <- CrossUpTo(w.startA, w.endA, w.startB, w.endB + 1) ensures Both(tokens, p) {
      assert w.startA <= p.0 && w.startA <= p.1 < |tokens|;
      assert tokens[p.0] && tokens[p.1];
    }
    CrossComparesAll(tokens, w, w.endB + 1);
  }

  /** A `fillMemory` call during which memory never runs short keeps every
      file from `from` on that loads. */
  lemma CleanFillKeepsAll(tokens: seq<bool>, loadable: seq<bool>, from: int, r: MemoryReading)
    requires |loadable| == |tokens| && 0 <= from <= |tokens| && AllHeld(loadable, 0) && Clean(r)
    ensures FillIndex(from, |tokens|, r) == |tokens| - 1
    ensures AllHeld(Fill(tokens, loadable, from, r), from)
  {
    CleanFillLoadsEverything(tokens, loadable, from, r);
  }

  /** The last block, with every submission of it holding a token list, is
      compared with itself completely, and the run ends. */
  lemma FullLastRound(w: Windows, tokens: seq<bool>, loadable: seq<bool>, rs: seq<MemoryReading>)
    requires |loadable| == |tokens| && w.startA == w.startB
    requires 0 <= w.startA <= w.endA + 1 && w.endA < |tokens| && AllHeld(tokens, w.startA)
    ensures Round(Corrected, w, tokens, loadable, rs).finished
    ensures Round(Corrected, w, tokens, loadable, rs).compared == Round(Corrected, w, tokens, loadable, rs).examined
    ensures Round(Corrected, w, tokens, loadable, rs).checkpoints == []
  {
    WithinExact(w.startA, w.endA);
    FilterKeepsAll(Within(w.startA, w.endA), tokens);
  }

  /** The round after the first, when the next `fillMemory` keeps
      everything too: the rest is the last block, compared with itself, and
      the run ends. */
  lemma CleanLastRound(w: Windows, tokens: seq<bool>, loadable: seq<bool>, rs: seq<MemoryReading>)
    requires |loadable| == |tokens| >= 1 && AllHeld(loadable, 0)
    requires 0 <= w.endA + 1 <= |tokens|
    requires |rs| >= 1 && Clean(rs[0])
    ensures NextA(Corrected, w, tokens, loadable, rs).finished
    ensures NextA(Corrected, w, tokens, loadable, rs).compared == NextA(Corrected, w, tokens, loadable, rs).examined
    ensures NextA(Corrected, w, tokens, loadable, rs).checkpoints == []
  {
    var n := |tokens|;
    var from := w.endA + 1;
    var released := ReleaseRange(tokens, w.startA, from);
    NextAStep(Corrected, w, tokens, loadable, rs);
    CleanFillKeepsAll(released, loadable, from, rs[0]);
    FullLastRound(Next(Corrected, w, FillIndex(from, n, rs[0]), n), Fill(released, loadable, from, rs[0]),
                  loadable, rs[1..]);
  }

  /** When every file loads and the first two `fillMemory` calls keep
      everything, the run is the first round, A = [0, 0] against the rest,
      and then the rest against itself: it compares every pair it steps over
      and divides at line 156 once, after the first round. */
  lemma CleanRunShape(tokens: seq<bool>, loadable: seq<bool>, rs: seq<MemoryReading>, run: Run)
    requires |loadable| == |tokens| >= 1 && AllHeld(loadable, 0)
    requires |rs| >= 2 && Clean(rs[0]) && Clean(rs[1])
    requires run == Schedule(Corrected, tokens, loadable, rs)
    ensures var w := FirstWindows(|tokens| - 1);
            && run.finished
            && run.compared == run.examined
            && |run.checkpoints| == 1
            && run.checkpoints[0] == |Within(w.startA, w.endA)| + |Cross(w)|
  {
    var w := FirstWindows(|tokens| - 1);
    var t1 := Fill(tokens, loadable, 0, rs[0]);
    CleanRunPhases(tokens, loadable, rs, w, t1);
    CleanRunLast(tokens, loadable, rs, w, t1);
    TwoPhases(run, Within(w.startA, w.endA), Cross(w),
              NextA(Corrected, w, ReleaseRange(t1, w.startB, w.endB + 1), loadable, rs[1..]));
  }

  /** The second round of `CleanRunShape` compares all it steps over and
      ends the run. */
  lemma CleanRunLast(tokens: seq<bool>, loadable: seq<bool>, rs: seq<MemoryReading>, w: Windows, t1: seq<bool>)
    requires |loadable| == |tokens| >= 1 && AllHeld(loadable, 0)
    requires |rs| >= 2 && Clean(rs[0]) && Clean(rs[1])
    requires w == FirstWindows(|tokens| - 1) && t1 == Fill(tokens, loadable, 0, rs[0])
    ensures |t1| == |loadable|
    ensures var last := NextA(Corrected, w, ReleaseRange(t1, w.startB, w.endB + 1), loadable, rs[1..]);
            last.finished && last.compared == last.examined && last.checkpoints == []
  {
    assert rs[1..][0] == rs[1];
    CleanLastRound(w, ReleaseRange(t1, w.startB, w.endB + 1), loadable, rs[1..]);
  }

  /** The run of `CleanRunShape`, phase by phase, with `w` the first
      windows and `t1` the flags after the first `fillMemory`. */
  lemma CleanRunPhases(tokens: seq<bool>, loadable: seq<bool>, rs: seq<MemoryReading>, w: Windows, t1: seq<bool>)
    requires |loadable| == |tokens| >= 1 && AllHeld(loadable, 0)
    requires |rs| >= 2 && Clean(rs[0])
    requires w == FirstWindows(|tokens| - 1) && t1 == Fill(tokens, loadable, 0, rs[0])
    ensures |t1| == |loadable|
    ensures Schedule(Corrected, tokens, loadable, rs)
              == Prepend(Within(w.startA, w.endA), Within(w.startA, w.endA), Prepend(Cross(w), Cross(w),
                   AtLine156(NextA(Corrected, w, ReleaseRange(t1, w.startB, w.endB + 1), loadable, rs[1..]))))
  {
    var n := |tokens|;
    ScheduleStep(Corrected, tokens, loadable, rs);
    CleanFillKeepsAll(tokens, loadable, 0, rs[0]);
    assert First(Corrected, FillIndex(0, n, rs[0])) == w;
    FullRound(w, t1, loadable, rs[1..]);
    FullLastBlock(w, t1, loadable, rs[1..]);
  }

  /** A first round that compares all it steps over, followed by a last
      round that does too, divides at line 156 once, between the two. */
  lemma TwoPhases(run: Run, inA: seq<(int, int)>, cross: seq<(int, int)>, last: Run)
    requires last.finished && last.compared == last.examined && last.checkpoints == []
    requires run == Prepend(inA, inA, Prepend(cross, cross, AtLine156(last)))
    ensures && run.finished
            && run.compared == run.examined
            && |run.checkpoints| == 1
            && run.checkpoints[0] == |inA| + |cross|
  {
  }

  /** When every file loads and the first two `fillMemory` calls keep
      everything, the run ends after two rounds, compares every pair it
      steps over, hence every pair of submissions exactly once, and divides
      at line 156 once, by a positive count as soon as there are two
      submissions. */
  lemma CleanRunComparesEverything(tokens: seq<bool>, loadable: seq<bool>, rs: seq<MemoryReading>)
    requires |loadable| == |tokens| >= 1 && AllHeld(loadable, 0)
    requires |rs| >= 2 && Clean(rs[0]) && Clean(rs[1])
    ensures var run := Schedule(Corrected, tokens, loadable, rs);
            && run.finished
            && run.compared == run.examined
            && |run.compared| == PairsAmong(|tokens|)
            && |run.checkpoints| == 1
            && (|tokens| >= 2 ==> run.checkpoints[0] > 0)
  {
    var n := |tokens|;
    var w := FirstWindows(n - 1);
    CleanRunShape(tokens, loadable, rs, Schedule(Corrected, tokens, loadable, rs));
    ScheduleCoversEveryPairOnce(tokens, loadable, rs);
    if n >= 2 {
      CrossExact(w);
      assert (0, n - 1) in Cross(w);
    }
  }

  /** A run of the A-against-B phase that reaches the end of the outer loop
      passes line 156 on its way. */
  lemma {:induction false} FinishedBlockReachesLine156(v: Variant, w: Windows, tokens: seq<bool>,
                                                       loadable: seq<bool>, readings: seq<MemoryReading>)
    requires |loadable| == |tokens|
    requires BlockB(v, w, tokens, loadable, readings).finished
    ensures |BlockB(v, w, tokens, loadable, readings).checkpoints| >= 1
    decreases |readings|
  {
    if w.endB != |tokens| - 1 && readings != [] && w.endB + 1 >= 0 {
      BlockBStep(v, w, tokens, loadable, readings);
      FinishedBlockReachesLine156(v, w.(startB := w.endB + 1, endB := FillIndex(w.endB + 1, |tokens|, readings[0])),
                                  Fill(ReleaseRange(tokens, w.startB, w.endB + 1), loadable, w.endB + 1, readings[0]),
                                  loadable, readings[1..]);
    }
  }

  /** Every run that reaches its end, as written or corrected, divides at
      line 156 at least once: the first A starts at 0 and the first B after
      it, so the first round goes through the A-against-B phase. */
  lemma FinishedRunReachesLine156(v: Variant, tokens: seq<bool>, loadable: seq<bool>, readings: seq<MemoryReading>)
    requires |loadable| == |tokens|
    requires Schedule(v, tokens, loadable, readings).finished
    ensures |Schedule(v, tokens, loadable, readings).checkpoints| >= 1
  {
    var index := FillIndex(0, |tokens|, readings[0]);
    var w := First(v, index);
    assert w.startA != w.startB;
    FinishedBlockReachesLine156(v, w, Fill(tokens, loadable, 0, readings[0]), loadable, readings[1..]);
  }

  /** The number of pairs of s whose submissions both load. */
  function CountBothLoadable(s: seq<(int, int)>, loadable: seq<bool>): (n: nat)
    ensures n <= |s|
  {
    if s == [] then 0
    else CountBothLoadable(s[..|s| - 1], loadable) + (if BothLoadable(loadable, s[|s| - 1]) then 1 else 0)
  }

  lemma {:induction false} AllBothLoadableCounted(s: seq<(int, int)>, loadable: seq<bool>)
    requires forall p <- s :: BothLoadable(loadable, p)
    ensures CountBothLoadable(s, loadable) == |s|
  {
    if s != [] {
      assert s[|s| - 1] in s;
      AllBothLoadableCounted(s[..|s| - 1], loadable);
    }
  }

  lemma {:induction false} NoneBothLoadable(s: seq<(int, int)>, loadable: seq<bool>)
    requires forall k | 0 <= k < |loadable| :: !loadable[k]
    ensures CountBothLoadable(s, loadable) == 0
  {
    if s != [] {
      NoneBothLoadable(s[..|s| - 1], loadable);
    }
  }

  /** When no file loads, a run compares nothing, so every division of line
      156 is by zero, and a run that reaches its end makes at least one. */
  lemma NothingLoadableDividesByZero(tokens: seq<bool>, loadable: seq<bool>, readings: seq<MemoryReading>)
    requires |loadable| == |tokens| >= 1 && forall k | 0 <= k < |loadable| :: !loadable[k]
    ensures Schedule(Corrected, tokens, loadable, readings).compared == []
    ensures forall c <- Schedule(Corrected, tokens, loadable, readings).checkpoints :: c == 0
    ensures Schedule(Corrected, tokens, loadable, readings).finished ==>
              0 in Schedule(Corrected, tokens, loadable, readings).checkpoints
  {
    var run := Schedule(Corrected, tokens, loadable, readings);
    ScheduleSound(tokens, loadable, readings);
    AllBothLoadableCounted(run.compared, loadable);
    NoneBothLoadable(run.compared, loadable);
    if run.finished {
      FinishedRunReachesLine156(Corrected, tokens, loadable, readings);
      assert run.checkpoints[0] in run.checkpoints;
    }
  }
}
