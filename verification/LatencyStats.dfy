// One-way delays of a report interval: the histogram filled in src/reassembler.cpp and evaluated
// in src/report.cpp. Delays are in microseconds.
module LatencyStats {
  const BINS: nat := 256
  const BIN_WIDTH: nat := 8000

  function Bin(t: nat): (b: nat)
    ensures b < BINS
  {
    if t / BIN_WIDTH >= BINS then BINS - 1 else t / BIN_WIDTH
  }

  // ---- counting samples by bin ----

  ghost function Below(s: seq<nat>, b: nat): (n: nat)
    ensures n <= |s|
  {
    if |s| == 0 then 0 else Below(s[..|s| - 1], b) + (if Bin(s[|s| - 1]) < b then 1 else 0)
  }

  lemma {:induction false} BelowAppend(s: seq<nat>, t: seq<nat>, b: nat)
    ensures Below(s + t, b) == Below(s, b) + Below(t, b)
    decreases |t|
  {
    hide Bin;
    if |t| == 0 {
      assert s + t == s;
    } else {
      assert (s + t)[..|s + t| - 1] == s + t[..|t| - 1];
      BelowAppend(s, t[..|t| - 1], b);
    }
  }

  lemma {:induction false} BelowMonotone(s: seq<nat>, a: nat, b: nat)
    requires a <= b
    ensures Below(s, a) <= Below(s, b)
  {
    hide Bin;
    if |s| > 0 { BelowMonotone(s[..|s| - 1], a, b); }
  }

  lemma {:induction false} BelowAll(s: seq<nat>, b: nat)
    ensures Below(s, 0) == 0
    ensures b >= BINS ==> Below(s, b) == |s|
  {
    hide Bin;
    if |s| > 0 { BelowAll(s[..|s| - 1], b); }
  }

  lemma {:induction false} BelowUniform(s: seq<nat>, b: nat, below: bool)
    requires forall i :: 0 <= i < |s| ==> (Bin(s[i]) < b <==> below)
    ensures Below(s, b) == if below then |s| else 0
  {
    hide Bin;
    if |s| > 0 { BelowUniform(s[..|s| - 1], b, below); }
  }

  lemma WithoutOne(s: seq<nat>, left: seq<nat>, right: seq<nat>, x: nat)
    requires s == left + [x] + right
    ensures multiset(left + right) == multiset(s) - multiset{x}
  {
    assert multiset(s) == multiset(left) + multiset{x} + multiset(right);
  }

  lemma CountWithout(s: seq<nat>, left: seq<nat>, right: seq<nat>, x: nat, b: nat)
    requires s == left + [x] + right
    ensures Below(s, b) == Below(left + right, b) + Below([x], b)
  {
    hide Below;
    BelowAppend(left, right, b);
    BelowAppend(left + [x], right, b);
    BelowAppend(left, [x], b);
  }

  // The last element of s, taken out of t.
  lemma TakeOut(s: seq<nat>, t: seq<nat>) returns (left: seq<nat>, right: seq<nat>)
    requires multiset(s) == multiset(t) && |s| > 0
    ensures t == left + [s[|s| - 1]] + right
    ensures multiset(s[..|s| - 1]) == multiset(left + right)
  {
    var x, front := s[|s| - 1], s[..|s| - 1];
    assert x in multiset(t);
    var i :| 0 <= i < |t| && t[i] == x;
    left, right := t[..i], t[i + 1..];
    assert t == left + [x] + right;
    assert s == front + [x] + [] && front + [] == front;
    WithoutOne(s, front, [], x);
    WithoutOne(t, left, right, x);
  }

  // Counting does not depend on the order.
  lemma {:induction false} BelowPermuted(s: seq<nat>, t: seq<nat>, b: nat)
    requires multiset(s) == multiset(t)
    ensures Below(s, b) == Below(t, b)
    decreases |s|
  {
    hide Below;
    if |s| == 0 {
      assert |multiset(t)| == |multiset(s)| == 0;
      assert s == t;
    } else {
      var x, front := s[|s| - 1], s[..|s| - 1];
      var left, right := TakeOut(s, t);
      BelowPermuted(front, left + right, b);
      BelowAppend(front, [x], b);
      assert s == front + [x];
      CountWithout(t, left, right, x, b);
    }
  }

  // ---- the median ----

  ghost predicate Sorted(s: seq<nat>)
  {
    forall i, j :: 0 <= i <= j < |s| ==> s[i] <= s[j]
  }

  // The bin of the middle sample, in every sorted order of the log.
  ghost predicate IsMedianBin(log: seq<nat>, b: nat)
  {
    forall s: seq<nat> :: Sorted(s) && multiset(s) == multiset(log) && |s| > 0 ==> Bin(s[|s| / 2]) == b
  }

  lemma BinMonotone(x: nat, y: nat)
    requires x <= y
    ensures Bin(x) <= Bin(y)
  {}

  // In sorted order the samples of low bins come first.
  lemma SortedCounts(s: seq<nat>, k: nat, b: nat)
    requires Sorted(s) && k < |s|
    ensures Bin(s[k]) < b <==> k < Below(s, b)
  {
    hide Bin, Below;
    var head, tail := s[..k], s[k..];
    assert s == head + tail;
    BelowAppend(head, tail, b);
    if Bin(s[k]) < b {
      var low := s[..k + 1];
      forall i | 0 <= i < |low| ensures Bin(low[i]) < b { BinMonotone(low[i], s[k]); }
      BelowUniform(low, b, true);
      assert s == low + s[k + 1..];
      BelowAppend(low, s[k + 1..], b);
    } else {
      forall i | 0 <= i < |tail| ensures Bin(tail[i]) >= b { BinMonotone(s[k], tail[i]); }
      BelowUniform(tail, b, false);
    }
  }

  lemma MedianByCounting(log: seq<nat>, b: nat)
    requires |log| > 0 && Below(log, b) <= |log| / 2 < Below(log, b + 1)
    ensures IsMedianBin(log, b)
  {
    hide Bin;
    forall s: seq<nat> | Sorted(s) && multiset(s) == multiset(log) && |s| > 0
      ensures Bin(s[|s| / 2]) == b
    {
      assert |s| == |multiset(s)| == |multiset(log)| == |log|;
      BelowPermuted(s, log, b);
      BelowPermuted(s, log, b + 1);
      SortedCounts(s, |s| / 2, b);
      SortedCounts(s, |s| / 2, b + 1);
    }
  }

  // The centre of the bin is within half a width of the middle sample, unless that one took 2.04 s or longer.
  lemma MedianError(log: seq<nat>, b: nat, s: seq<nat>)
    requires IsMedianBin(log, b)
    requires Sorted(s) && multiset(s) == multiset(log) && |s| > 0
    ensures 8000 * b <= s[|s| / 2] && b <= 255
    ensures s[|s| / 2] < 2_040_000 ==> -4000 < 8000 * b + 4000 - s[|s| / 2] <= 4000
  {
    assert Bin(s[|s| / 2]) == b;
  }

  // ---- the receiver's statistics of one interval ----

  ghost function InBin(log: seq<nat>, b: nat): (n: nat)
  {
    BelowMonotone(log, b, b + 1);
    Below(log, b + 1) - Below(log, b)
  }

  // The samples above the line's bin and of that bin the part above the line; none from the last bin.
  ghost predicate BeyondLine(log: seq<nat>, line: nat, over: nat)
  {
    var b := line / BIN_WIDTH;
    && over <= |log|
    && (if b + 1 >= BINS then over == 0
        else
          var share := over - (|log| - Below(log, b + 1));
          0 <= share && 8000 * share <= InBin(log, b) * ((b + 1) * 8000 - line) < 8000 * (share + 1))
  }

  function AtLeastOne(n: nat): (r: nat) { if n > 0 then n else 1 }

  class Stats {
    var transitSamples: nat
    var lateSamples: nat
    var hist: array<nat>
    var histSamples: nat
    var lateLine: nat
    // The delays recorded in this interval.
    ghost var log: seq<nat>

    ghost predicate Valid()
      reads this, hist
    {
      && hist.Length == BINS
      && histSamples == transitSamples == |log|
      && lateSamples <= transitSamples
      && forall b :: 0 <= b < BINS ==> hist[b] == InBin(log, b)
    }

    constructor ()
      ensures Valid() && fresh(hist) && log == []
    {
      hist := new nat[BINS](_ => 0);
      transitSamples, lateSamples, histSamples, lateLine, log := 0, 0, 0, 0, [];
    }

    // One packet that took t; the threshold is the late multiplier times the round trip.
    method Record(t: nat, lateBufferMs: nat, threshold: nat)
      requires Valid()
      modifies this`transitSamples, this`lateSamples, this`histSamples, this`log, hist
      ensures Valid() && log == old(log) + [t]
      ensures lateSamples == old(lateSamples)
        + (if lateBufferMs > 0 then (if 0 < lateLine < t then 1 else 0) else if t > threshold then 1 else 0)
    {
      transitSamples := transitSamples + 1;
      var bin := t / BIN_WIDTH;
      if bin >= hist.Length { bin := hist.Length - 1; }
      hist[bin] := hist[bin] + 1;
      histSamples := histSamples + 1;
      if lateBufferMs > 0 {
        if lateLine > 0 && t > lateLine { lateSamples := lateSamples + 1; }
      } else {
        if t > threshold { lateSamples := lateSamples + 1; }
      }
      ghost var was := log;
      log := log + [t];
      forall b | 0 <= b < BINS
        ensures InBin(log, b) == InBin(was, b) + (if b == Bin(t) then 1 else 0)
      {
        InBinAppend(was, t, b);
      }
    }

    // The first bin at which more than half of the samples are counted.
    method MedianBin() returns (bin: nat)
      requires Valid() && histSamples > 0
      ensures bin < BINS && IsMedianBin(log, bin)
    {
      var target := histSamples / 2;
      var cum := 0;
      BelowAll(log, BINS);
      bin := 0;
      while bin < hist.Length
        invariant 0 <= bin <= BINS && cum == Below(log, bin) <= target
      {
        cum := cum + hist[bin];
        if cum > target { break; }
        bin := bin + 1;
      }
      MedianByCounting(log, bin);
    }

    // Samples above the line; the line's own bin counts in proportion.
    method OverLine(line: nat) returns (over: nat)
      requires Valid()
      ensures BeyondLine(log, line, over)
    {
      over := 0;
      var lineBin := line / BIN_WIDTH;
      if lineBin + 1 < hist.Length {
        for b := lineBin + 1 to hist.Length
          invariant over == Below(log, b) - Below(log, lineBin + 1)
        {
          over := over + hist[b];
          BelowMonotone(log, lineBin + 1, b + 1);
        }
        BelowAll(log, BINS);
        var frac := BIN_WIDTH - (line - lineBin * BIN_WIDTH);
        Share(hist[lineBin], frac);
        over := over + hist[lineBin] * frac / BIN_WIDTH;
      }
    }

    // The late ratio in ten-thousandths and the median of the interval; the counters start over.
    method Evaluate(lateBufferMs: nat, lostForLate: nat) returns (ratio: nat, p50: nat)
      requires Valid()
      modifies this, hist
      ensures ratio <= 10000 && Valid() && log == []
      ensures lateBufferMs > 0 && old(|log|) > 0 ==> exists bin: nat, over: nat ::
        && IsMedianBin(old(log), bin)
        && p50 == bin * BIN_WIDTH + 4000
        && lateLine == p50 + lateBufferMs * 1000
        && BeyondLine(old(log), lateLine, over)
        && ratio == Ratio(over + lostForLate, old(|log|) + lostForLate)
      ensures lateBufferMs == 0 || old(|log|) == 0 ==>
        && p50 == 0
        && lateLine == old(lateLine)
        && ratio == Ratio(old(lateSamples) + lostForLate, AtLeastOne(old(|log|) + lostForLate))
    {
      var over;
      ghost var median := 0;
      p50 := 0;
      if lateBufferMs > 0 && histSamples > 0 {
        var bin := MedianBin();
        median := bin;
        p50 := bin * BIN_WIDTH + 4000;
        var line := p50 + lateBufferMs * 1000;
        over := OverLine(line);
        lateLine := line;
      } else {
        over := lateSamples;
      }
      var denom := transitSamples + lostForLate;
      ratio := Ratio(over + lostForLate, AtLeastOne(denom));
      transitSamples, lateSamples, histSamples, log := 0, 0, 0, [];
      forall b | 0 <= b < BINS { hist[b] := 0; }
      assert lateBufferMs > 0 && old(|log|) > 0 ==>
        IsMedianBin(old(log), median) && BeyondLine(old(log), lateLine, over);
    }
  }

  lemma InBinAppend(log: seq<nat>, t: nat, b: nat)
    ensures InBin(log + [t], b) == InBin(log, b) + (if b == Bin(t) then 1 else 0)
  {
    hide Bin;
    assert (log + [t])[..|log|] == log;
  }

  lemma Share(n: nat, frac: nat)
    requires frac <= BIN_WIDTH
    ensures 0 <= n * frac / BIN_WIDTH <= n
  {
    assert n * frac <= n * BIN_WIDTH;
  }

  // floor(10000 part / whole)
  function Ratio(part: nat, whole: nat): (r: nat)
    requires 0 < whole && part <= whole
    ensures r <= 10000
    ensures r * whole <= 10000 * part < (r + 1) * whole
  {
    RatioBound(part, whole);
    part * 10000 / whole
  }

  lemma Scaled(q: nat, whole: nat)
    requires whole > 0
    ensures q > 10000 ==> whole * q >= whole * 10001
  {}

  lemma RatioBound(part: nat, whole: nat)
    requires 0 < whole && part <= whole
    ensures part * 10000 / whole <= 10000
  {
    Scaled(part * 10000 / whole, whole);
  }
}
