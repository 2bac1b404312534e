/** The block schedule of the legacy memory-paged strategy
    (`jplag.strategy.ExternalComparisonStrategy`), as pure functions.

    Block A = [startA, endA] is compared with itself, then with a stream of
    blocks B = [startB, endB] up to the last submission; then A is released
    and the next A is loaded.  Where blocks end is decided by `fillMemory`,
    whose outcome depends only on where it starts, on the number of
    submissions and on what the JVM's memory did during the call: that is a
    `MemoryReading`.  Which submissions hold a token list (`tokenList !=
    null`) is a sequence of flags; whether a submission's file loads is
    `loadable`.  `Schedule` computes, from the readings, the pairs the loops
    step over (counted, whether compared or skipped), the pairs actually
    compared, the value of the `comparisons` counter each time line 156
    divides by it, and the flags at the end.  Pairs are written (lower index,
    higher index). */
module ExternalSchedule {
  import opened Wrappers
  import opened Counting

  /** Java's `/` on `int` and `long` rounds toward zero. */
  function JavaDiv(a: int, b: int): (q: int)
    requires b > 0
    ensures a >= 0 ==> q == a / b
    ensures a < 0 ==> q == -((-a) / b)
  {
    if a >= 0 then a / b else -((-a) / b)
  }

  /** What the JVM does during one `fillMemory` call:
      - `outOfMemoryAt`: the offset from `from` of the load that raises
        OutOfMemoryError, if one does;
      - `pressured`: whether the free memory before loading, divided (in
        whole numbers) by the free memory after, exceeds 2 (the test at line
        267);
      - `extraReleases`: how many further submissions the walk at lines 279-284
        releases before that quotient is 2 or less again.  The walk stops, at
        the latest, once every submission this call loaded is released again,
        since memory is then back at its level before the call. */
  datatype MemoryReading = MemoryReading(outOfMemoryAt: Option<nat>, pressured: bool, extraReleases: nat)

  /** The index the load loop (lines 252-258) stops at: the first index it
      did not load, or the one whose load ran out of memory. */
  function LoadEnd(from: int, size: int, r: MemoryReading): int
  {
    match r.outOfMemoryAt
    case Some(o) => if from + o < size then from + o else Max(from, size)
    case None => Max(from, size)
  }

  /** The index after the first release loop (lines 263-272). */
  function HalvedIndex(from: int, size: int, r: MemoryReading): int
  {
    var loaded := LoadEnd(from, size, r);
    var clamped := if loaded >= size then size - 1 else loaded;
    if !r.pressured then clamped else clamped - Max(JavaDiv(clamped - from, 2), 0)
  }

  /** The number of further releases of the walk at lines 279-284. */
  function ExtraReleases(from: int, size: int, r: MemoryReading): int
  {
    if !r.pressured then 0 else Min(r.extraReleases, Max(HalvedIndex(from, size, r) - from + 1, 0))
  }

  /** The index `fillMemory(submissions, from, size)` returns: never past the
      last submission, and never more than one below `from` (the walk cannot
      release more than the call loaded). */
  function FillIndex(from: int, size: int, r: MemoryReading): (index: int)
    requires 0 <= from
    ensures index <= size - 1
    ensures index >= Min(from, size) - 1
    ensures !r.pressured && r.outOfMemoryAt.None? && from < size ==> index == size - 1
  {
    HalvedIndex(from, size, r) - ExtraReleases(from, size, r)
  }

  /** One past the last index the load loop wrote a token list to. */
  function Touched(from: int, size: int, r: MemoryReading): int
  {
    Min(LoadEnd(from, size, r) + 1, size)
  }

  /** The token-list flags after `fillMemory(from)`: from `from` on, the load
      loop sets each submission's flag to whether its file loads, clears the
      one whose load ran out of memory and stops there; the releases then
      clear everything above the returned index.  The rest is untouched. */
  function Fill(tokens: seq<bool>, loadable: seq<bool>, from: int, r: MemoryReading): (after: seq<bool>)
    requires |loadable| == |tokens| && 0 <= from
    ensures |after| == |tokens|
  {
    seq(|tokens|, k requires 0 <= k < |tokens| =>
      if from <= k < Touched(from, |tokens|, r)
      then k <= FillIndex(from, |tokens|, r) && k < LoadEnd(from, |tokens|, r) && loadable[k]
      else tokens[k])
  }

  /** The flags after clearing the token lists of submissions lo .. hi - 1. */
  function ReleaseRange(tokens: seq<bool>, lo: int, hi: int): (after: seq<bool>)
    ensures |after| == |tokens|
  {
    seq(|tokens|, k requires 0 <= k < |tokens| => tokens[k] && !(lo <= k < hi))
  }

  /** Both submissions of p hold a token list, so p is compared rather than
      only counted. */
  predicate Both(tokens: seq<bool>, p: (int, int))
  {
    0 <= p.0 < |tokens| && 0 <= p.1 < |tokens| && tokens[p.0] && tokens[p.1]
  }

  /** The pairs of `pairs`, in order, whose submissions both hold a token list. */
  function Filter(pairs: seq<(int, int)>, tokens: seq<bool>): (kept: seq<(int, int)>)
    ensures |kept| <= |pairs|
  {
    if pairs == [] then []
    else
      var last := pairs[|pairs| - 1];
      Filter(pairs[..|pairs| - 1], tokens) + (if Both(tokens, last) then [last] else [])
  }

  datatype Windows = Windows(startA: int, endA: int, startB: int, endB: int)

  /** Lines 56-59, as written. */
  function FirstWindowsAsWritten(index: int): (w: Windows)
    ensures w.startB == w.endA + 1
  {
    var endA := JavaDiv(index, 2);
    Windows(0, endA, endA + 1, index)
  }

  /** Lines 56-59 with B never ending before A: when `fillMemory` kept
      nothing, B is empty and the next B starts after A instead of inside it. */
  function FirstWindows(index: int): (w: Windows)
    ensures w.startA == 0 && w.startB == w.endA + 1 && w.endA <= w.endB
    ensures index >= 0 ==> w.endB == index
  {
    var endA := JavaDiv(index, 2);
    Windows(0, endA, endA + 1, Max(index, endA))
  }

  /** Lines 196-204, as written: on the last block A restarts at the old startB. */
  function NextWindowsAsWritten(w: Windows, index: int, size: int): (n: Windows)
    ensures index != size - 1 ==> n.startA == w.endA + 1
    ensures index == size - 1 ==> n.startA == w.startB == n.startB
  {
    if index != size - 1 then
      var startA := w.endA + 1;
      var endA := startA + JavaDiv(index - startA + 1, 2);
      Windows(startA, endA, endA + 1, index)
    else
      Windows(w.startB, index, w.startB, index)
  }

  /** Lines 196-204 corrected: the next A always starts right after the old
      one, on the last block too, and B never ends before A. */
  function NextWindows(w: Windows, index: int, size: int): (n: Windows)
    ensures n.startA == w.endA + 1
    ensures index == size - 1 ==> n.startB == n.startA && n.endA == size - 1
    ensures index != size - 1 ==> n.startB == n.endA + 1 && n.endA <= n.endB
  {
    var startA := w.endA + 1;
    if index != size - 1 then
      var endA := startA + JavaDiv(index - startA + 1, 2);
      Windows(startA, endA, endA + 1, Max(index, endA))
    else
      Windows(startA, index, startA, index)
  }

  datatype Variant = AsWritten | Corrected

  function First(v: Variant, index: int): Windows
  {
    if v == AsWritten then FirstWindowsAsWritten(index) else FirstWindows(index)
  }

  function Next(v: Variant, w: Windows, index: int, size: int): Windows
  {
    if v == AsWritten then NextWindowsAsWritten(w, index, size) else NextWindows(w, index, size)
  }

  /** (i, lo), ..., (i, hi): one row of the A-against-A loop. */
  function Row(i: int, lo: int, hi: int): (row: seq<(int, int)>)
    ensures |row| == Max(hi - lo + 1, 0)
    decreases hi - lo
  {
    if hi < lo then [] else Row(i, lo, hi - 1) + [(i, hi)]
  }

  /** The rows i = s .. upTo - 1 of the A-against-A loop over [s, e]. */
  function WithinUpTo(s: int, upTo: int, e: int): (pairs: seq<(int, int)>)
    decreases upTo - s
  {
    if upTo <= s then [] else WithinUpTo(s, upTo - 1, e) + Row(upTo - 1, upTo, e)
  }

  /** Every pair inside [s, e], in the order of lines 68-89. */
  function Within(s: int, e: int): (pairs: seq<(int, int)>)
  {
    WithinUpTo(s, e + 1, e)
  }

  /** (sA, k), ..., (eA, k): B submission k against all of A. */
  function Column(k: int, sA: int, eA: int): (column: seq<(int, int)>)
    ensures |column| == Max(eA - sA + 1, 0)
    decreases eA - sA
  {
    if eA < sA then [] else Column(k, sA, eA - 1) + [(eA, k)]
  }

  /** The columns k = sB .. upTo - 1 of the A-against-B loop. */
  function CrossUpTo(sA: int, eA: int, sB: int, upTo: int): (pairs: seq<(int, int)>)
    decreases upTo - sB
  {
    if upTo <= sB then [] else CrossUpTo(sA, eA, sB, upTo - 1) + Column(upTo - 1, sA, eA)
  }

  /** Every pair of A against B, in the order of lines 124-147. */
  function Cross(w: Windows): (pairs: seq<(int, int)>)
  {
    CrossUpTo(w.startA, w.endA, w.startB, w.endB + 1)
  }

  /** The pairs compared in the A-against-B loop over the columns
      k = startB .. upTo - 1: column k is compared while the B submissions
      before it have already been released (line 146). */
  function CrossComparedUpTo(tokens: seq<bool>, w: Windows, upTo: int): (pairs: seq<(int, int)>)
    decreases upTo - w.startB
  {
    if upTo <= w.startB then []
    else CrossComparedUpTo(tokens, w, upTo - 1)
         + Filter(Column(upTo - 1, w.startA, w.endA), ReleaseRange(tokens, w.startB, upTo - 1))
  }

  function CrossCompared(tokens: seq<bool>, w: Windows): seq<(int, int)>
  {
    CrossComparedUpTo(tokens, w, w.endB + 1)
  }

  /** What a run does: the pairs stepped over, the pairs compared, the value
      of `comparisons` at each division of line 156, the token-list flags
      at the end, and whether the outer loop reached its `break` before the
      readings ran out. */
  datatype Run = Run(examined: seq<(int, int)>, compared: seq<(int, int)>, checkpoints: seq<int>,
                     tokens: seq<bool>, finished: bool)

  function Shift(s: seq<int>, n: int): (t: seq<int>)
    ensures |t| == |s|
    ensures forall i | 0 <= i < |s| :: t[i] == s[i] + n
  {
    seq(|s|, i requires 0 <= i < |s| => s[i] + n)
  }

  /** A phase that steps over `examined` and compares `compared`, followed by
      `rest`. */
  function Prepend(examined: seq<(int, int)>, compared: seq<(int, int)>, rest: Run): Run
  {
    Run(examined + rest.examined, compared + rest.compared, Shift(rest.checkpoints, |compared|),
        rest.tokens, rest.finished)
  }

  /** Line 156 is reached, with nothing compared since this point. */
  function AtLine156(rest: Run): Run
  {
    rest.(checkpoints := [0] + rest.checkpoints)
  }

  /** One round from the A-against-A phase on (lines 63-97); on the last
      block the remaining A is released (lines 216-219). */
  function Round(v: Variant, w: Windows, tokens: seq<bool>, loadable: seq<bool>,
                 readings: seq<MemoryReading>): Run
    requires |loadable| == |tokens|
    decreases |readings|, 2
  {
    var inA := Within(w.startA, w.endA);
    var compared := Filter(inA, tokens);
    if w.startA == w.startB then Run(inA, compared, [], ReleaseRange(tokens, w.startA, w.endA + 1), true)
    else Prepend(inA, compared, BlockB(v, w, tokens, loadable, readings))
  }

  /** The A-against-B phase from the current B on (lines 99-179). */
  function BlockB(v: Variant, w: Windows, tokens: seq<bool>, loadable: seq<bool>,
                  readings: seq<MemoryReading>): Run
    requires |loadable| == |tokens|
    decreases |readings|, 1
  {
    var cross := Cross(w);
    var compared := CrossCompared(tokens, w);
    var released := ReleaseRange(tokens, w.startB, w.endB + 1);
    if w.endB == |tokens| - 1 then Prepend(cross, compared, AtLine156(NextA(v, w, released, loadable, readings)))
    else if readings == [] || w.endB + 1 < 0 then Run(cross, compared, [], released, false)
    else
      var index := FillIndex(w.endB + 1, |tokens|, readings[0]);
      var loaded := Fill(released, loadable, w.endB + 1, readings[0]);
      Prepend(cross, compared, BlockB(v, w.(startB := w.endB + 1, endB := index), loaded, loadable, readings[1..]))
  }

  /** Releasing A (lines 182-184), loading the next A (lines 194-204) and the
      rounds after it. */
  function NextA(v: Variant, w: Windows, tokens: seq<bool>, loadable: seq<bool>,
                 readings: seq<MemoryReading>): Run
    requires |loadable| == |tokens|
    decreases |readings|, 0
  {
    var released := ReleaseRange(tokens, w.startA, w.endA + 1);
    if readings == [] || w.endA + 1 < 0 then Run([], [], [], released, false)
    else
      var index := FillIndex(w.endA + 1, |tokens|, readings[0]);
      var loaded := Fill(released, loadable, w.endA + 1, readings[0]);
      Round(v, Next(v, w, index, |tokens|), loaded, loadable, readings[1..])
  }

  /** The whole run: the first `fillMemory` (line 52) and the rounds. */
  function Schedule(v: Variant, tokens: seq<bool>, loadable: seq<bool>, readings: seq<MemoryReading>): Run
    requires |loadable| == |tokens|
  {
    if readings == [] then Run([], [], [], tokens, false)
    else
      var index := FillIndex(0, |tokens|, readings[0]);
      Round(v, First(v, index), Fill(tokens, loadable, 0, readings[0]), loadable, readings[1..])
  }

  /** The first `fillMemory` and the first round. */
  lemma ScheduleStep(v: Variant, tokens: seq<bool>, loadable: seq<bool>, readings: seq<MemoryReading>)
    requires |loadable| == |tokens| && readings != []
    ensures Schedule(v, tokens, loadable, readings)
         == Round(v, First(v, FillIndex(0, |tokens|, readings[0])), Fill(tokens, loadable, 0, readings[0]),
                  loadable, readings[1..])
  {
  }

  /** The step of `BlockB` to the next B block. */
  lemma BlockBStep(v: Variant, w: Windows, tokens: seq<bool>, loadable: seq<bool>, readings: seq<MemoryReading>)
    requires |loadable| == |tokens| && w.endB != |tokens| - 1 && readings != [] && w.endB + 1 >= 0
    ensures BlockB(v, w, tokens, loadable, readings)
         == Prepend(Cross(w), CrossCompared(tokens, w),
                    BlockB(v, w.(startB := w.endB + 1, endB := FillIndex(w.endB + 1, |tokens|, readings[0])),
                           Fill(ReleaseRange(tokens, w.startB, w.endB + 1), loadable, w.endB + 1, readings[0]),
                           loadable, readings[1..]))
  {
  }

  /** The last B block: line 156, then the next A. */
  lemma BlockBLast(v: Variant, w: Windows, tokens: seq<bool>, loadable: seq<bool>, readings: seq<MemoryReading>)
    requires |loadable| == |tokens| && w.endB == |tokens| - 1
    ensures BlockB(v, w, tokens, loadable, readings)
         == Prepend(Cross(w), CrossCompared(tokens, w),
                    AtLine156(NextA(v, w, ReleaseRange(tokens, w.startB, w.endB + 1), loadable, readings)))
  {
  }

  /** The step of `NextA` to the next round. */
  lemma NextAStep(v: Variant, w: Windows, tokens: seq<bool>, loadable: seq<bool>, readings: seq<MemoryReading>)
    requires |loadable| == |tokens| && readings != [] && w.endA + 1 >= 0
    ensures NextA(v, w, tokens, loadable, readings)
         == Round(v, Next(v, w, FillIndex(w.endA + 1, |tokens|, readings[0]), |tokens|),
                  Fill(ReleaseRange(tokens, w.startA, w.endA + 1), loadable, w.endA + 1, readings[0]),
                  loadable, readings[1..])
  {
  }

  /** Without a reading left, `NextA` stops short of the end. */
  lemma NextAStops(v: Variant, w: Windows, tokens: seq<bool>, loadable: seq<bool>, readings: seq<MemoryReading>)
    requires |loadable| == |tokens| && (readings == [] || w.endA + 1 < 0)
    ensures !NextA(v, w, tokens, loadable, readings).finished
  {
  }
}
