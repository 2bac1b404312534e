/** The progress bookkeeping of `ExternalComparisonStrategy.compare`: the
    number of pairs it expects to step over (line 42), the estimate of the
    time still needed (lines 104-108 and 156) and the duration strings
    (lines 100-102, 110-112, 153-159 and 208-210).  Times are milliseconds
    held in a `long`; the model takes them to be non-negative. */
module ExternalProgress {
  import opened Wrappers
  import opened Counting
  import opened ExternalSchedule
  import opened ExternalCoverage
  import opened ExternalMemory

  const IntModulus: int := 0x1_0000_0000
  const LongModulus: int := 0x1_0000_0000_0000_0000

  /** Java `int` arithmetic: the exact result reduced into -2^31 .. 2^31 - 1. */
  function WrapInt(x: int): (r: int)
    ensures -0x8000_0000 <= r < 0x8000_0000
    ensures (r - x) % IntModulus == 0
    ensures -0x8000_0000 <= x < 0x8000_0000 ==> r == x
  {
    (x + 0x8000_0000) % IntModulus - 0x8000_0000
  }

  /** Java `long` arithmetic: the exact result reduced into -2^63 .. 2^63 - 1. */
  function WrapLong(x: int): (r: int)
    ensures -0x8000_0000_0000_0000 <= r < 0x8000_0000_0000_0000
    ensures (r - x) % LongModulus == 0
    ensures -0x8000_0000_0000_0000 <= x < 0x8000_0000_0000_0000 ==> r == x
  {
    (x + 0x8000_0000_0000_0000) % LongModulus - 0x8000_0000_0000_0000
  }

  /** Line 42 as written: `size * (size - 1)` is an `int` product, so it
      wraps before the quotient is widened to `long`. */
  function TotalComparisonsAsWritten(size: int): int
    requires 0 <= size < 0x8000_0000
  {
    JavaDiv(WrapInt(size * (size - 1)), 2)
  }

  /** Line 42 with the product taken in `long`: the number of pairs among
      `size` submissions, for every `int` size. */
  function TotalComparisons(size: int): (total: int)
    requires 0 <= size < 0x8000_0000
    ensures total == PairsAmong(size)
  {
    ProductFitsInLong(size);
    JavaDiv(WrapLong(size * (size - 1)), 2)
  }

  lemma ProductFitsInLong(size: int)
    requires 0 <= size < 0x8000_0000
    ensures 0 <= size * (size - 1) < 0x8000_0000_0000_0000
  {
    if size > 0 {
      assert size * (size - 1) <= size * size;
      assert size * size < 0x8000_0000 * 0x8000_0000 by {
        assert size * size <= size * 0x8000_0000;
      }
    }
  }

  /** Up to 46341 submissions the `int` product does not wrap, and line 42
      counts the pairs. */
  lemma TotalComparisonsAsWrittenAgrees(size: int)
    requires 0 <= size <= 46341
    ensures TotalComparisonsAsWritten(size) == TotalComparisons(size)
  {
    if size > 0 {
      MulMonotone(size - 1, 46340, size);
      MulMonotone(size, 46341, 46340);
      assert 46341 * 46340 == 2147441940;
      var product := size * (size - 1);
      assert 0 <= product < 0x8000_0000;
      assert WrapInt(product) == product;
    }
  }

  lemma MulMonotone(a: int, b: int, c: int)
    requires a <= b && c >= 0
    ensures a * c <= b * c
  {
  }

  /** At 46342 submissions the product wraps and the expected number of
      pairs is negative. */
  lemma TotalComparisonsAsWrittenWraps()
    ensures TotalComparisonsAsWritten(46342) == -1073716337
    ensures TotalComparisons(46342) == 1073767311
  {
    assert 46342 * 46341 == 2147534622;
    assert WrapInt(2147534622) == -2147432674;
  }

  /** A run that finishes has stepped over exactly the pairs line 42 expects,
      with the product taken in `long`. */
  lemma FinishedRunStepsOverTotal(tokens: seq<bool>, loadable: seq<bool>, readings: seq<MemoryReading>)
    requires |loadable| == |tokens| && 1 <= |tokens| < 0x8000_0000
    ensures Schedule(Corrected, tokens, loadable, readings).finished ==>
              |Schedule(Corrected, tokens, loadable, readings).examined| == TotalComparisons(|tokens|)
  {
    if Schedule(Corrected, tokens, loadable, readings).finished {
      ScheduleCoversEveryPairOnce(tokens, loadable, readings);
    }
  }

  /** Lines 104-108: the time the remaining pairs take if each takes as long
      as the compared pairs took on average; 0 before anything is compared. */
  function RemainingEstimate(totalTime: int, total: int, count: int, comparisons: int): (remain: int)
    requires comparisons >= 0
    ensures comparisons == 0 ==> remain == 0
    ensures totalTime >= 0 && count <= total ==> remain >= 0
    ensures totalTime >= 0 && count <= total && comparisons > 0 ==>
              remain * comparisons <= totalTime * (total - count) < (remain + 1) * comparisons
  {
    if comparisons != 0 then
      DivBounds(totalTime, total - count, comparisons);
      JavaDiv(totalTime * (total - count), comparisons)
    else 0
  }

  /** The quotient of a non-negative product by a positive divisor lies
      within one divisor of the product. */
  lemma DivBounds(a: int, b: int, d: int)
    requires d > 0
    ensures a >= 0 && b >= 0 ==>
              var q := JavaDiv(a * b, d);
              q >= 0 && q * d <= a * b < (q + 1) * d
  {
    if a >= 0 && b >= 0 {
      MulMonotone(0, b, a);
      assert b * a == a * b;
      EuclidBounds(a * b, d);
    }
  }

  lemma EuclidBounds(x: int, d: int)
    requires x >= 0 && d > 0
    ensures x / d >= 0 && (x / d) * d <= x < (x / d + 1) * d
  {
    var q, r := x / d, x % d;
    assert x == d * q + r;
    assert 0 <= r < d;
    assert q * d == d * q;
    assert (q + 1) * d == q * d + d;
  }

  /** The estimate shrinks as pairs get done, and is 0 once all are done. */
  lemma RemainingEstimateShrinks(totalTime: int, total: int, count: int, count': int, comparisons: int)
    requires totalTime >= 0 && comparisons >= 0 && count <= count' <= total
    ensures RemainingEstimate(totalTime, total, count', comparisons)
            <= RemainingEstimate(totalTime, total, count, comparisons)
    ensures RemainingEstimate(totalTime, total, total, comparisons) == 0
  {
    if comparisons > 0 {
      assert totalTime * (total - count') <= totalTime * (total - count);
      DivMonotone(totalTime * (total - count'), totalTime * (total - count), comparisons);
    }
  }

  lemma DivMonotone(a: int, b: int, d: int)
    requires 0 <= a <= b && d > 0
    ensures a / d <= b / d
  {
    if a / d > b / d {
      MulMonotone(b / d + 1, a / d, d);
      assert false;
    }
  }

  /** Line 156 as written: the same estimate without the guard, so a
      division by zero (`ArithmeticException`) when nothing is compared. */
  function RemainingAtLine156AsWritten(totalTime: int, total: int, count: int, comparisons: int): (remain: Option<int>)
    requires comparisons >= 0
    ensures remain.None? <==> comparisons == 0
    ensures remain.Some? ==> remain.value == RemainingEstimate(totalTime, total, count, comparisons)
  {
    if comparisons == 0 then None else Some(JavaDiv(totalTime * (total - count), comparisons))
  }

  /** When no file loads, a run that finishes reaches line 156 with nothing
      compared, and the unguarded estimate divides by zero there. */
  lemma NothingLoadableFailsAtLine156(tokens: seq<bool>, loadable: seq<bool>, readings: seq<MemoryReading>,
                                      totalTime: int, total: int, count: int)
    requires |loadable| == |tokens| >= 1 && forall k | 0 <= k < |loadable| :: !loadable[k]
    requires Schedule(Corrected, tokens, loadable, readings).finished
    ensures exists c <- Schedule(Corrected, tokens, loadable, readings).checkpoints ::
              c >= 0 && RemainingAtLine156AsWritten(totalTime, total, count, c).None?
  {
    NothingLoadableDividesByZero(tokens, loadable, readings);
    assert RemainingAtLine156AsWritten(totalTime, total, count, 0).None?;
  }

  /** With at most one loadable file, no pair p.0 < p.1 has both loadable. */
  lemma {:induction false} NoOrderedPairBothLoadable(s: seq<(int, int)>, loadable: seq<bool>)
    requires forall i, j | 0 <= i < j < |loadable| :: !(loadable[i] && loadable[j])
    requires forall p <- s :: p.0 < p.1
    ensures CountBothLoadable(s, loadable) == 0
  {
    if s != [] {
      assert s[|s| - 1] in s;
      NoOrderedPairBothLoadable(s[..|s| - 1], loadable);
    }
  }

  /** Pairs drawn from a run's stepped-over pairs are ordered p.0 < p.1. */
  lemma ComparedOrdered(compared: seq<(int, int)>, examined: seq<(int, int)>, size: int)
    requires multiset(compared) <= multiset(examined)
    requires CoversFrom(examined, 0, size)
    ensures forall p <- compared :: p.0 < p.1
  {
    forall p <- compared ensures p.0 < p.1 {
      assert p in multiset(compared);
      assert p in examined;
    }
  }

  /** With fewer than two loadable files no pair is ever compared, so a
      finished run divides by zero at line 156.  This covers a run of one
      submission, and a run of two whose second file fails to load. */
  lemma {:induction false} FewLoadableFailsAtLine156(tokens: seq<bool>, loadable: seq<bool>, readings: seq<MemoryReading>,
                                                    totalTime: int, total: int, count: int)
    requires |loadable| == |tokens| >= 1
    requires forall i, j | 0 <= i < j < |loadable| :: !(loadable[i] && loadable[j])
    requires Schedule(Corrected, tokens, loadable, readings).finished
    ensures Schedule(Corrected, tokens, loadable, readings).compared == []
    ensures exists c <- Schedule(Corrected, tokens, loadable, readings).checkpoints ::
              c >= 0 && RemainingAtLine156AsWritten(totalTime, total, count, c).None?
  {
    var run := Schedule(Corrected, tokens, loadable, readings);
    ScheduleSound(tokens, loadable, readings);
    ScheduleCoversEveryPairOnce(tokens, loadable, readings);
    ComparedOrdered(run.compared, run.examined, |tokens|);
    AllBothLoadableCounted(run.compared, loadable);
    NoOrderedPairBothLoadable(run.compared, loadable);
    FinishedRunReachesLine156(Corrected, tokens, loadable, readings);
    var c := run.checkpoints[0];
    assert c in run.checkpoints;
    assert c == 0;
    assert RemainingAtLine156AsWritten(totalTime, total, count, c).None?;
  }

  /** With the guard of lines 104-108 the estimate at line 156 is defined at
      every checkpoint of every run. */
  lemma GuardedEstimateAtEveryCheckpoint(tokens: seq<bool>, loadable: seq<bool>, readings: seq<MemoryReading>,
                                         totalTime: int, total: int, count: int)
    requires |loadable| == |tokens| >= 1 && totalTime >= 0 && count <= total
    ensures forall c <- Schedule(Corrected, tokens, loadable, readings).checkpoints ::
              c >= 0 && RemainingEstimate(totalTime, total, count, c) >= 0
  {
    ScheduleSound(tokens, loadable, readings);
  }

  /** The decimal character of a digit. */
  function DigitChar(d: int): (c: char)
    requires 0 <= d < 10
    ensures '0' <= c <= '9' && (c - '0') as int == d
  {
    ('0' as int + d) as char
  }

  /** `"" + n` for a non-negative `long`: its decimal digits, without leading
      zeros. */
  function NatText(n: nat): (s: string)
    ensures 1 <= |s| && forall i | 0 <= i < |s| :: '0' <= s[i] <= '9'
  {
    if n < 10 then [DigitChar(n)] else NatText(n / 10) + [DigitChar(n % 10)]
  }

  /** The number a string of decimal digits denotes. */
  function DigitsValue(s: string): nat
    requires forall i | 0 <= i < |s| :: '0' <= s[i] <= '9'
  {
    if s == [] then 0 else 10 * DigitsValue(s[..|s| - 1]) + (s[|s| - 1] - '0') as int
  }

  /** Reading the digits back gives the number. */
  lemma {:induction false} NatTextRoundTrip(n: nat)
    ensures DigitsValue(NatText(n)) == n
  {
    if n >= 10 {
      NatTextRoundTrip(n / 10);
      DigitsValueSnoc(NatText(n / 10), DigitChar(n % 10));
    }
  }

  /** One more digit at the end multiplies the value by ten and adds it. */
  lemma DigitsValueSnoc(s: string, c: char)
    requires forall i | 0 <= i < |s| :: '0' <= s[i] <= '9'
    requires '0' <= c <= '9'
    ensures forall i | 0 <= i < |s + [c]| :: '0' <= (s + [c])[i] <= '9'
    ensures DigitsValue(s + [c]) == 10 * DigitsValue(s) + (c - '0') as int
  {
    assert (s + [c])[..|s|] == s;
  }

  lemma NatTextInjective(a: nat, b: nat)
    ensures NatText(a) == NatText(b) <==> a == b
  {
    NatTextRoundTrip(a);
    NatTextRoundTrip(b);
  }

  /** The shape of the duration strings: hours followed by " h ", if there
      are any; minutes followed by " min ", if printed; seconds followed by
      " sec". */
  function ClockText(hours: nat, showMinutes: bool, minutes: nat, seconds: nat): string
  {
    (if hours > 0 then NatText(hours) + " h " else "")
    + (if showMinutes then NatText(minutes) + " min " else "")
    + (NatText(seconds) + " sec")
  }

  /** The duration strings of lines 100-102, 110-112, 153-155 and 157-159:
      hours; minutes within the hour, from one minute on; seconds within
      the minute. */
  function DurationText(t: nat): string
  {
    ClockText(t / 3600000, t / 60000 > 0, t / 60000 % 60, t / 1000 % 60)
  }

  /** The total time of lines 208-210 as written: minutes taken modulo
      60000 instead of 60. */
  function DurationTextAsWritten(t: nat): string
  {
    ClockText(t / 3600000, t / 60000 > 0, t / 60000 % 60000, t / 1000 % 60)
  }

  /** The three numbers `DurationText` shows give the duration back to the
      second: hours, minutes below 60 and seconds below 60. */
  lemma DurationFields(t: nat)
    ensures t / 60000 % 60 < 60 && t / 1000 % 60 < 60
    ensures (t / 3600000) * 3600000 + (t / 60000 % 60) * 60000 + (t / 1000 % 60) * 1000 + t % 1000 == t
  {
    var m := t / 60000;
    var s := t / 1000;
    assert t == s * 1000 + t % 1000;
    assert s == m * 60 + s % 60 by {
      assert t / 1000 / 60 == t / 60000;
    }
    assert m == (t / 3600000) * 60 + m % 60 by {
      assert t / 60000 / 60 == t / 3600000;
    }
  }

  /** A printed minutes field tells the minutes apart. */
  lemma ClockTextMinutes(hours: nat, minutes: nat, minutes': nat, seconds: nat)
    ensures ClockText(hours, true, minutes, seconds) == ClockText(hours, true, minutes', seconds)
            <==> minutes == minutes'
  {
    var h := if hours > 0 then NatText(hours) + " h " else "";
    var mid := NatText(minutes) + " min ";
    var mid' := NatText(minutes') + " min ";
    var sec := NatText(seconds) + " sec";
    if ClockText(hours, true, minutes, seconds) == ClockText(hours, true, minutes', seconds) {
      assert h + mid + sec == h + mid' + sec;
      Cancel(h, mid, mid', sec);
      assert NatText(minutes) == mid[..|mid| - 5];
      assert NatText(minutes') == mid'[..|mid'| - 5];
      NatTextInjective(minutes, minutes');
    }
  }

  /** Minutes taken modulo 60000 and modulo 60 agree exactly when the
      first is below 60. */
  lemma MinutesAgree(m: nat)
    ensures m % 60000 == m % 60 <==> m % 60000 < 60
  {
    var q := m / 60000;
    var r := m % 60000;
    var k := 1000 * q + r / 60;
    assert r == 60 * (r / 60) + r % 60;
    assert m == 60 * k + r % 60;
    ModUnique(m, k, r % 60);
  }

  /** The remainder modulo 60 is the only one between 0 and 59. */
  lemma ModUnique(m: int, k: int, r: int)
    requires m == 60 * k + r && 0 <= r < 60
    ensures m % 60 == r
  {
  }

  /** The two formats of the total time agree exactly when the minutes
      counted modulo 60000 are below 60: always below an hour, and never
      from one hour up to 1000 hours. */
  lemma DurationTextAsWrittenAgrees(t: nat)
    ensures DurationTextAsWritten(t) == DurationText(t) <==> t / 60000 % 60000 < 60
    ensures t < 3600000 ==> DurationTextAsWritten(t) == DurationText(t)
  {
    var h, m, s := t / 3600000, t / 60000, t / 1000 % 60;
    MinutesAgree(m);
    if m > 0 {
      ClockTextMinutes(h, m % 60000, m % 60, s);
    }
  }

  /** Equal concatenations with equal ends have equal middles. */
  lemma Cancel(a: string, b: string, b': string, c: string)
    requires a + b + c == a + b' + c
    ensures b == b'
  {
    assert |b| == |b'|;
    forall i | 0 <= i < |b|
      ensures b[i] == b'[i]
    {
      assert (a + b + c)[|a| + i] == b[i];
      assert (a + b' + c)[|a| + i] == b'[i];
    }
  }

  /** One hour exactly: "1 h 0 min 0 sec", written as "1 h 60 min 0 sec". */
  lemma DurationTextAsWrittenAtOneHour()
    ensures DurationText(3600000) == "1 h 0 min 0 sec"
    ensures DurationTextAsWritten(3600000) == "1 h 60 min 0 sec"
  {
    ClockTextsAtOneHour();
    var t := 3600000;
    assert t / 3600000 == 1 && t / 60000 == 60 && t / 1000 % 60 == 0;
  }

  lemma ClockTextsAtOneHour()
    ensures ClockText(1, true, 0, 0) == "1 h 0 min 0 sec"
    ensures ClockText(1, true, 60, 0) == "1 h 60 min 0 sec"
  {
    NatTextSixty();
    ClockTextAtOneHour(0, "0");
    ClockTextAtOneHour(60, "60");
  }

  /** One hour, `minutes` printed as `m`, no seconds. */
  lemma ClockTextAtOneHour(minutes: nat, m: string)
    requires NatText(minutes) == m
    ensures ClockText(1, true, minutes, 0) == "1 h " + m + " min 0 sec"
  {
    assert NatText(1) == "1" && NatText(0) == "0";
  }

  lemma NatTextSixty()
    ensures NatText(60) == "60"
  {
    assert NatText(6) == "6";
    assert DigitChar(0) == '0';
  }
}
