/** The loops of the memory-paged strategy
    (`jplag.strategy.ExternalComparisonStrategy`) over the token-list flags
    of the submissions, held in an array and cleared in place.  Each method
    is proved to do what the pure schedule of module `ExternalSchedule`
    says. */
module ExternalStrategy {
  import opened Wrappers
  import opened Counting
  import opened ExternalSchedule
  import opened ExternalCoverage
  import opened ExternalMemory

  /** The token-list flags after the load loop of `fillMemory` (lines
      252-262): from `from` on, each submission up to the one whose load ran
      out of memory gets a token list when its file loads; that one is left
      without. */
  ghost function AfterLoad(tokens: seq<bool>, loadable: seq<bool>, from: int, r: MemoryReading): (after: seq<bool>)
    requires |loadable| == |tokens| && 0 <= from
    ensures |after| == |tokens|
  {
    seq(|tokens|, k requires 0 <= k < |tokens| =>
      if from <= k < Touched(from, |tokens|, r) then k < LoadEnd(from, |tokens|, r) && loadable[k] else tokens[k])
  }

  /** The releases of `fillMemory` clear everything above the index it
      returns, up to the clamped index of line 264, so the flags it leaves are
      those of `Fill`. */
  lemma FillIsLoadThenRelease(tokens: seq<bool>, loadable: seq<bool>, from: int, r: MemoryReading,
                              loaded: seq<bool>, clamped: int, halved: seq<bool>, after: seq<bool>)
    requires |loadable| == |tokens| && 0 <= from
    requires loaded == AfterLoad(tokens, loadable, from, r) && clamped == Min(LoadEnd(from, |tokens|, r), |tokens| - 1)
    requires r.pressured ==> halved == ReleaseRange(loaded, HalvedIndex(from, |tokens|, r) + 1, clamped + 1)
    requires r.pressured ==> after == ReleaseRange(halved, FillIndex(from, |tokens|, r) + 1, HalvedIndex(from, |tokens|, r) + 1)
    requires !r.pressured ==> after == loaded
    ensures after == Fill(tokens, loadable, from, r)
  {
    var size := |tokens|;
    var half := HalvedIndex(from, size, r);
    var index := FillIndex(from, size, r);
    var touched := Touched(from, size, r);
    assert index <= half <= clamped && touched == clamped + 1;
    var fill := Fill(tokens, loadable, from, r);
    if r.pressured {
      var released := ReleaseRange(ReleaseRange(loaded, half + 1, clamped + 1), index + 1, half + 1);
      forall k | 0 <= k < size ensures fill[k] == released[k] {
        if from <= k < touched {
          assert fill[k] == (k <= index && k < LoadEnd(from, size, r) && loadable[k]);
        }
      }
      assert fill == released;
    } else {
      assert index == clamped;
      forall k | 0 <= k < size ensures fill[k] == loaded[k] {
      }
      assert fill == loaded;
    }
  }

  /** Clearing the token lists of `index`, `index - 1`, ... (n of them),
      walking the index down as the loops at lines 270-272 and 279-284 do. */
  method ReleaseDownward(tokens: array<bool>, index: int, n: int) returns (next: int)
    requires 0 <= n && index < tokens.Length && (n > 0 ==> 0 <= index - n + 1)
    modifies tokens
    ensures next == index - n
    ensures tokens[..] == ReleaseRange(old(tokens[..]), next + 1, index + 1)
  {
    ghost var before := tokens[..];
    next := index;
    var i := n;
    while i > 0
      invariant 0 <= i <= n && next == index - (n - i)
      invariant tokens[..] == ReleaseRange(before, next + 1, index + 1)
    {
      tokens[next] := false;
      next := next - 1;
      i := i - 1;
    }
  }

  /** `fillMemory(submissions, from, size)` (lines 243-289).  The load loop
      gives each submission from `from` on a token list when its file loads,
      until one load runs out of memory; the index is clamped to the last
      submission; under memory pressure the upper half of what was loaded is
      released again, and then further submissions, as many as the reading
      says, but never more than this call loaded. */
  method FillMemory(tokens: array<bool>, loadable: seq<bool>, from: int, r: MemoryReading) returns (index: int)
    requires tokens.Length == |loadable| && 0 <= from
    modifies tokens
    ensures index == FillIndex(from, tokens.Length, r)
    ensures tokens[..] == Fill(old(tokens[..]), loadable, from, r)
  {
    ghost var before := tokens[..];
    var size := tokens.Length;
    index := LoadFrom(tokens, loadable, from, r);
    ghost var loaded := tokens[..];
    if index >= size {
      index := size - 1;
    }
    ghost var clamped := index;
    ghost var halved := loaded;
    if r.pressured {
      index := ReleaseDownward(tokens, index, Max(JavaDiv(index - from, 2), 0));
      assert index == HalvedIndex(from, size, r);
      halved := tokens[..];
      index := ReleaseDownward(tokens, index, Min(r.extraReleases, Max(index - from + 1, 0)));
    }
    FillIsLoadThenRelease(before, loadable, from, r, loaded, clamped, halved, tokens[..]);
  }

  /** The load loop of lines 252-265: submissions from `from` on receive
      their token lists until the end of the list or until one load runs out
      of memory, which leaves that submission without a token list. */
  method LoadFrom(tokens: array<bool>, loadable: seq<bool>, from: int, r: MemoryReading) returns (index: int)
    requires tokens.Length == |loadable| && 0 <= from
    modifies tokens
    ensures index == LoadEnd(from, tokens.Length, r)
    ensures tokens[..] == AfterLoad(old(tokens[..]), loadable, from, r)
  {
    ghost var before := tokens[..];
    var size := tokens.Length;
    index := from;
    var outOfMemory := false;
    while index < size && !outOfMemory
      invariant from <= index <= LoadEnd(from, size, r)
      invariant outOfMemory ==> index == LoadEnd(from, size, r) < size
      invariant forall k | 0 <= k < size ::
        tokens[k] == if from <= k < index then loadable[k] else if k == index && outOfMemory then false else before[k]
      decreases size - index, !outOfMemory
    {
      if r.outOfMemoryAt == Some(index - from) {
        tokens[index] := false;
        outOfMemory := true;
      } else {
        tokens[index] := loadable[index];
        index := index + 1;
      }
    }
    assert index == LoadEnd(from, size, r);
    forall k | 0 <= k < size ensures tokens[k] == AfterLoad(before, loadable, from, r)[k] {
      if from <= k < Touched(from, size, r) {
        assert AfterLoad(before, loadable, from, r)[k] == (k < index && loadable[k]);
        if k < index {
          assert tokens[k] == loadable[k];
        } else {
          assert k == index && outOfMemory;
        }
      }
    }
    assert tokens[..] == AfterLoad(before, loadable, from, r);
  }

  /** One row of the A-against-A loop (lines 69-88): submission i against
      i + 1 .. endA.  Without a token list for i the row is skipped and
      counted whole (line 72). */
  method CompareRow(tokens: array<bool>, i: int, endA: int) returns (count: int, compared: seq<(int, int)>)
    requires 0 <= i <= endA < tokens.Length
    ensures count == |Row(i, i + 1, endA)|
    ensures compared == Filter(Row(i, i + 1, endA), tokens[..])
  {
    if !tokens[i] {
      FilterSkipsRow([], i, i + 1, endA, tokens[..]);
      assert [] + Row(i, i + 1, endA) == Row(i, i + 1, endA);
      return endA - i, [];
    }
    ghost var t := tokens[..];
    ghost var done: seq<(int, int)> := [];
    count, compared := 0, [];
    var j := i + 1;
    while j <= endA
      invariant i + 1 <= j <= endA + 1
      invariant done == Row(i, i + 1, j - 1)
      invariant count == |done|
      invariant compared == Filter(done, t)
    {
      RowStep(i, i + 1, j);
      FilterAppendOne(done, (i, j), t);
      assert Both(t, (i, j)) == tokens[j];
      if tokens[j] {
        compared := compared + [(i, j)];
      }
      done := done + [(i, j)];
      count := count + 1;
      j := j + 1;
    }
  }

  /** Block A against itself (lines 68-89): every pair of A is stepped over
      and counted, and compared when both submissions hold a token list. */
  method CompareBlockWithItself(tokens: array<bool>, startA: int, endA: int) returns (count: int, compared: seq<(int, int)>)
    requires 0 <= startA && endA < tokens.Length
    ensures count == |Within(startA, endA)|
    ensures compared == Filter(Within(startA, endA), tokens[..])
  {
    ghost var t := tokens[..];
    ghost var done: seq<(int, int)> := [];
    count, compared := 0, [];
    var i := startA;
    if endA < startA {
      return;
    }
    while i <= endA
      invariant startA <= i <= endA + 1
      invariant done == WithinUpTo(startA, i, endA)
      invariant count == |done|
      invariant compared == Filter(done, t)
    {
      var row := Row(i, i + 1, endA);
      var rowCount, rowCompared := CompareRow(tokens, i, endA);
      assert rowCount == |row| && rowCompared == Filter(row, t);
      WithinStep(startA, i, endA);
      FilterConcat(done, row, t);
      done := done + row;
      count := count + rowCount;
      compared := compared + rowCompared;
      i := i + 1;
    }
  }

  /** One B submission against all of A (lines 125-145): counted whole and
      skipped when it holds no token list (line 128), otherwise compared with
      each A submission that holds one. */
  method CompareColumn(tokens: array<bool>, i: int, startA: int, endA: int) returns (count: int, compared: seq<(int, int)>)
    requires 0 <= startA <= endA + 1 && endA < tokens.Length && 0 <= i < tokens.Length
    ensures count == |Column(i, startA, endA)|
    ensures compared == Filter(Column(i, startA, endA), tokens[..])
  {
    if !tokens[i] {
      FilterSkipsColumn(i, startA, endA, tokens[..]);
      return endA - startA + 1, [];
    }
    ghost var t := tokens[..];
    ghost var done: seq<(int, int)> := [];
    count, compared := 0, [];
    var j := startA;
    while j <= endA
      invariant startA <= j <= endA + 1
      invariant done == Column(i, startA, j - 1)
      invariant count == |done|
      invariant compared == Filter(done, t)
    {
      ColumnStep(i, startA, j);
      FilterAppendOne(done, (j, i), t);
      assert Both(t, (j, i)) == tokens[j];
      if tokens[j] {
        compared := compared + [(j, i)];
      }
      done := done + [(j, i)];
      count := count + 1;
      j := j + 1;
    }
  }

  /** Block A against block B (lines 124-147): each B submission in turn is
      stepped over against all of A, compared where both hold a token list,
      and then loses its token list. */
  method CompareBlocks(tokens: array<bool>, w: Windows) returns (count: int, compared: seq<(int, int)>)
    requires 0 <= w.startA <= w.endA + 1 && w.endA < tokens.Length
    requires 0 <= w.startB && w.endB < tokens.Length
    modifies tokens
    ensures count == |Cross(w)|
    ensures compared == CrossCompared(old(tokens[..]), w)
    ensures tokens[..] == ReleaseRange(old(tokens[..]), w.startB, w.endB + 1)
  {
    ghost var before := tokens[..];
    ghost var done: seq<(int, int)> := [];
    count, compared := 0, [];
    var i := w.startB;
    if w.endB < w.startB {
      assert tokens[..] == ReleaseRange(before, w.startB, w.endB + 1);
      return;
    }
    ghost var flags := tokens[..];
    assert flags == ReleaseRange(before, w.startB, i);
    while i <= w.endB
      invariant w.startB <= i <= w.endB + 1
      invariant done == CrossUpTo(w.startA, w.endA, w.startB, i)
      invariant count == |done|
      invariant compared == CrossComparedUpTo(before, w, i)
      invariant flags == ReleaseRange(before, w.startB, i)
      invariant tokens[..] == flags
    {
      var columnCount, columnCompared := CompareColumnAndRelease(tokens, w, i, before);
      CrossStep(before, w, i);
      flags := tokens[..];
      done := done + Column(i, w.startA, w.endA);
      count := count + columnCount;
      compared := compared + columnCompared;
      i := i + 1;
    }
  }

  /** One pass of the loop at lines 124-147: column i of B against A, then
      B's submission i loses its token list (line 146). */
  method CompareColumnAndRelease(tokens: array<bool>, w: Windows, i: int, ghost before: seq<bool>)
    returns (count: int, compared: seq<(int, int)>)
    requires 0 <= w.startA <= w.endA + 1 && w.endA < tokens.Length
    requires 0 <= w.startB <= i < tokens.Length && |before| == tokens.Length
    requires tokens[..] == ReleaseRange(before, w.startB, i)
    modifies tokens
    ensures count == |Column(i, w.startA, w.endA)|
    ensures compared == Filter(Column(i, w.startA, w.endA), ReleaseRange(before, w.startB, i))
    ensures tokens[..] == ReleaseRange(before, w.startB, i + 1)
  {
    ghost var flags := tokens[..];
    count, compared := CompareColumn(tokens, i, w.startA, w.endA);
    ReleaseStep(before, w.startB, i);
    tokens[i] := false;
    assert tokens[..] == flags[i := false];
  }

  /** Clearing the token lists of lo .. hi (lines 182-184 and 217-219). */
  method ReleaseBlock(tokens: array<bool>, lo: int, hi: int)
    requires 0 <= lo && hi < tokens.Length
    modifies tokens
    ensures tokens[..] == ReleaseRange(old(tokens[..]), lo, hi + 1)
  {
    ghost var before := tokens[..];
    var i := lo;
    while i <= hi
      invariant lo <= i <= Max(hi + 1, lo)
      invariant tokens[..] == ReleaseRange(before, lo, i)
    {
      tokens[i] := false;
      i := i + 1;
    }
  }

  lemma RowStep(i: int, lo: int, j: int)
    requires lo <= j
    ensures Row(i, lo, j) == Row(i, lo, j - 1) + [(i, j)]
  {
  }

  lemma ColumnStep(k: int, sA: int, j: int)
    requires sA <= j
    ensures Column(k, sA, j) == Column(k, sA, j - 1) + [(j, k)]
  {
  }

  lemma WithinStep(s: int, i: int, e: int)
    requires s <= i
    ensures WithinUpTo(s, i + 1, e) == WithinUpTo(s, i, e) + Row(i, i + 1, e)
  {
  }

  /** One more column of the A-against-B loop: it is compared against the
      flags with the earlier B submissions released, and then released. */
  lemma CrossStep(tokens: seq<bool>, w: Windows, i: int)
    requires w.startB <= i
    ensures CrossUpTo(w.startA, w.endA, w.startB, i + 1)
            == CrossUpTo(w.startA, w.endA, w.startB, i) + Column(i, w.startA, w.endA)
    ensures CrossComparedUpTo(tokens, w, i + 1)
            == CrossComparedUpTo(tokens, w, i) + Filter(Column(i, w.startA, w.endA), ReleaseRange(tokens, w.startB, i))
  {
  }

  lemma ReleaseStep(tokens: seq<bool>, lo: int, i: int)
    requires 0 <= lo <= i < |tokens|
    ensures ReleaseRange(tokens, lo, i)[i := false] == ReleaseRange(tokens, lo, i + 1)
  {
  }

  lemma {:induction false} FilterConcat(a: seq<(int, int)>, b: seq<(int, int)>, tokens: seq<bool>)
    ensures Filter(a + b, tokens) == Filter(a, tokens) + Filter(b, tokens)
    decreases |b|
  {
    if b != [] {
      var init := b[..|b| - 1];
      var last := b[|b| - 1];
      FilterConcat(a, init, tokens);
      assert a + b == (a + init) + [last];
      assert b == init + [last];
      FilterAppendOne(a + init, last, tokens);
      FilterAppendOne(init, last, tokens);
    } else {
      assert a + b == a;
    }
  }

  lemma FilterAppendOne(pairs: seq<(int, int)>, p: (int, int), tokens: seq<bool>)
    ensures Filter(pairs + [p], tokens) == Filter(pairs, tokens) + (if Both(tokens, p) then [p] else [])
  {
    assert (pairs + [p])[..|pairs + [p]| - 1] == pairs;
  }

  /** A row of the A-against-A loop whose submission holds no token list
      adds nothing to the compared pairs. */
  lemma {:induction false} FilterSkipsRow(done: seq<(int, int)>, i: int, lo: int, hi: int, tokens: seq<bool>)
    requires 0 <= i < |tokens| && !tokens[i]
    ensures Filter(done + Row(i, lo, hi), tokens) == Filter(done, tokens)
    decreases hi - lo
  {
    if lo <= hi {
      var shorter := done + Row(i, lo, hi - 1);
      FilterSkipsRow(done, i, lo, hi - 1, tokens);
      RowStep(i, lo, hi);
      assert done + Row(i, lo, hi) == shorter + [(i, hi)];
      FilterAppendOne(shorter, (i, hi), tokens);
      assert !Both(tokens, (i, hi));
    } else {
      assert done + Row(i, lo, hi) == done;
    }
  }

  /** A column of the A-against-B loop whose B submission holds no token
      list adds nothing to the compared pairs. */
  lemma {:induction false} FilterSkipsColumn(i: int, lo: int, hi: int, tokens: seq<bool>)
    requires 0 <= i < |tokens| && !tokens[i]
    ensures Filter(Column(i, lo, hi), tokens) == []
    decreases hi - lo
  {
    if lo <= hi {
      FilterSkipsColumn(i, lo, hi - 1, tokens);
      FilterAppendOne(Column(i, lo, hi - 1), (hi, i), tokens);
    }
  }
}
