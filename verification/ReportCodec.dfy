// The report payload: written by build_payload and read by handle in src/report.cpp.
module ReportCodec {
  import opened Numbers
  import opened Options
  import opened ByteStrings
  import opened Crc32
  import opened WireFields
  import SequenceTracking

  const BINS: nat := 64
  const PAIRS: nat := 48
  const FIXED: nat := 12
  const OPTIONAL: nat := 14

  datatype Pair = Pair(bytes: Half, delayMs: Half)

  // What the receiver knows when it builds a report.
  datatype Measured = Measured(
    ack: Word, ratio: Half, lost: seq<Word>, probeBw: nat, recvRate: nat, loss: Half, ce: Half, p50Us: nat,
    lite: bool, frameMax: nat, hist: seq<nat>, pairs: seq<Pair>)

  // What the sender reads from it.
  datatype Frames = Frames(lite: bool, frameMax: nat, hist: seq<nat>, samples: nat, pairs: seq<Pair>)

  datatype Parsed = Parsed(
    ack: Word, ratio: Half, lost: seq<Word>, probeBw: nat, recvRate: nat, loss: Half, ce: Half, p50Ms: Half,
    frames: Frames)

  const NO_FRAMES: Frames := Frames(true, 0, Zeros(BINS), 0, [])

  function Sum(s: seq<nat>): (n: nat)
  {
    if |s| == 0 then 0 else Sum(s[..|s| - 1]) + s[|s| - 1]
  }

  // ---- reading ----

  function LostList(b: Bytes, n: nat): (s: seq<Word>)
    requires FIXED + 4 * n <= |b|
  {
    seq(n, i requires 0 <= i < n => GetWord(b, FIXED + 4 * i))
  }

  function BinsAt(b: Bytes, at: nat): (s: seq<nat>)
    requires at + BINS <= |b|
  {
    seq(BINS, i requires 0 <= i < BINS => b[at + i] as nat)
  }

  function PairsAt(b: Bytes, at: nat, n: nat): (s: seq<Pair>)
    requires at + 4 * n <= |b|
  {
    seq(n, i requires 0 <= i < n => Pair(GetHalf(b, at + 4 * i), GetHalf(b, at + 2 + 4 * i)))
  }

  function FramesAt(b: Bytes, at: nat): (r: Frames)
  {
    if |b| < at + 1 then NO_FRAMES
    else if b[at] % 2 == 0 then
      if |b| >= at + 3 + BINS then
        Frames(true, GetHalf(b, at + 1), BinsAt(b, at + 3), Sum(BinsAt(b, at + 3)), [])
      else NO_FRAMES
    else if |b| < at + 4 then NO_FRAMES.(lite := false)
    else
      var n := Min(b[at + 3], PAIRS);
      NO_FRAMES.(lite := false, frameMax := GetHalf(b, at + 1),
                 pairs := if |b| >= at + 4 + 4 * n then PairsAt(b, at + 4, n) else [])
  }

  // Fields behind the end of the payload read as zero.
  function ParseAt(b: Bytes, n: nat): (r: Parsed)
    requires FIXED + 4 * n <= |b|
  {
    var at := FIXED + 4 * n;
    Parsed(
      GetWord(b, 0), GetHalf(b, 4), LostList(b, n),
      if |b| >= at + 4 then GetWord(b, at) else 0,
      if |b| >= at + 8 then GetWord(b, at + 4) else 0,
      if |b| >= at + 10 then GetHalf(b, at + 8) else 0,
      if |b| >= at + 12 then GetHalf(b, at + 10) else 0,
      if |b| >= at + 14 then GetHalf(b, at + 12) else 0,
      FramesAt(b, at + OPTIONAL))
  }

  function Parse(b: Bytes): (r: Option<Parsed>)
  {
    if |b| < FIXED || |b| < FIXED + 4 * GetHalf(b, 6) then None else Some(ParseAt(b, GetHalf(b, 6)))
  }

  // handle's reader: each field is taken if the payload reaches its end.
  method ReadFrames(b: Bytes, at: nat) returns (f: Frames)
    ensures f == FramesAt(b, at)
  {
    hide GetHalf;
    f := NO_FRAMES;
    if |b| < at + 1 { return; }
    f := f.(lite := b[at] % 2 == 0);
    if f.lite {
      if |b| >= at + 3 + BINS {
        f := f.(frameMax := GetHalf(b, at + 1));
        var hist: seq<nat> := [];
        var samples: nat := 0;
        for i := 0 to BINS
          invariant hist == BinsAt(b, at + 3)[..i] && samples == Sum(hist)
        {
          hist := hist + [b[at + 3 + i]];
          samples := samples + b[at + 3 + i];
          assert hist[..i] == BinsAt(b, at + 3)[..i];
        }
        assert hist == BinsAt(b, at + 3);
        f := f.(hist := hist, samples := samples);
      }
    } else if |b| >= at + 4 {
      f := f.(frameMax := GetHalf(b, at + 1));
      var n := Min(b[at + 3], PAIRS);
      if |b| >= at + 4 + 4 * n {
        var pairs: seq<Pair> := [];
        for i := 0 to n
          invariant pairs == PairsAt(b, at + 4, i)
        {
          pairs := pairs + [Pair(GetHalf(b, at + 4 + i * 4), GetHalf(b, at + 6 + i * 4))];
        }
        f := f.(pairs := pairs);
      }
    }
  }

  method ReadReport(b: Bytes) returns (r: Option<Parsed>)
    ensures r == Parse(b)
  {
    hide GetHalf, GetWord, FramesAt;
    if |b| < FIXED { return None; }
    var count: nat := GetHalf(b, 6);
    var at := FIXED + 4 * count;
    if |b| < at { return None; }
    var probeBw, recvRate, loss, ce, p50 := 0, 0, 0, 0, 0;
    if |b| >= at + 4 { probeBw := GetWord(b, at); }
    if |b| >= at + 8 { recvRate := GetWord(b, at + 4); }
    if |b| >= at + 10 { loss := GetHalf(b, at + 8); }
    if |b| >= at + 12 { ce := GetHalf(b, at + 10); }
    if |b| >= at + 14 { p50 := GetHalf(b, at + 12); }
    var frames := ReadFrames(b, at + OPTIONAL);
    var lost: seq<Word> := [];
    for i := 0 to count
      invariant lost == LostList(b, i)
    {
      lost := lost + [GetWord(b, 12 + i * 4)];
    }
    r := Some(Parsed(GetWord(b, 0), GetHalf(b, 4), lost, probeBw, recvRate, loss, ce, p50, frames));
  }

  // ---- what a report should say ----

  function Clamped(hist: seq<nat>): (s: seq<nat>)
  {
    seq(|hist|, i requires 0 <= i < |hist| => Min(hist[i], 255))
  }

  function FirstPairs(pairs: seq<Pair>): (s: seq<Pair>) { pairs[..Min(|pairs|, PAIRS)] }

  function Reported(m: Measured): (r: Parsed)
  {
    Parsed(
      m.ack, m.ratio, m.lost[..SequenceTracking.ListedCount(|m.lost|)],
      m.probeBw % 0x1_0000_0000, m.recvRate % 0x1_0000_0000,
      m.loss, m.ce, m.p50Us / 1000 % 0x1_0000,
      if m.lite then Frames(true, Min(m.frameMax, 65535), Clamped(m.hist), Sum(Clamped(m.hist)), [])
      else NO_FRAMES.(lite := false, frameMax := Min(m.frameMax, 65535), pairs := FirstPairs(m.pairs)))
  }

  // What fits its field is reported as it was measured, the median in whole milliseconds and the frames in one
  // of two forms.
  lemma ReportedInRange(m: Measured)
    requires |m.lost| <= 256 && m.probeBw < U32 && m.recvRate < U32 && m.p50Us < 65_536_000
    requires m.frameMax < U16 && |m.hist| == BINS && (forall i :: 0 <= i < BINS ==> m.hist[i] < 256)
    requires |m.pairs| <= 48
    ensures var r := Reported(m);
      && r.ack == m.ack && r.ratio == m.ratio && r.lost == m.lost
      && r.probeBw == m.probeBw && r.recvRate == m.recvRate && r.loss == m.loss && r.ce == m.ce
      && 1000 * r.p50Ms <= m.p50Us < 1000 * r.p50Ms + 1000
      && r.frames.lite == m.lite && r.frames.frameMax == m.frameMax
      && (if m.lite then r.frames.hist == m.hist && r.frames.samples == Sum(m.hist) else r.frames.pairs == m.pairs)
  {
    assert Clamped(m.hist) == m.hist;
    assert m.lost[..|m.lost|] == m.lost && m.pairs[..|m.pairs|] == m.pairs;
  }

  // ---- the parts of a payload depend on their own bytes ----

  ghost predicate SameOn(a: Bytes, b: Bytes, lo: nat, hi: nat)
  {
    hi <= |a| && hi <= |b| && forall k :: lo <= k < hi ==> a[k] == b[k]
  }

  lemma FixedKept(a: Bytes, b: Bytes, n: nat)
    requires SameOn(a, b, 0, FIXED + 4 * n)
    ensures GetWord(a, 0) == GetWord(b, 0) && GetHalf(a, 4) == GetHalf(b, 4) && GetHalf(a, 6) == GetHalf(b, 6)
    ensures GetWord(a, 8) == GetWord(b, 8) && LostList(a, n) == LostList(b, n)
  {
    SameWord(a, b, 8);
    SameWord(a, b, 0);
    SameHalf(a, b, 4);
    SameHalf(a, b, 6);
    forall i | 0 <= i < n ensures GetWord(a, FIXED + 4 * i) == GetWord(b, FIXED + 4 * i) {
      SameWord(a, b, FIXED + 4 * i);
    }
  }

  // Cutting a report off inside the optional fields loses the fields it cuts, and no others.
  ghost function CutOff(r: Parsed, kept: nat): (result: Parsed)
  {
    r.(frames := NO_FRAMES,
       probeBw := if kept >= 4 then r.probeBw else 0,
       recvRate := if kept >= 8 then r.recvRate else 0,
       loss := if kept >= 10 then r.loss else 0,
       ce := if kept >= 12 then r.ce else 0,
       p50Ms := if kept >= 14 then r.p50Ms else 0)
  }

  lemma TruncatedReport(b: Bytes, kept: nat)
    requires kept <= OPTIONAL && FIXED <= |b| && FIXED + 4 * GetHalf(b, 6) + OPTIONAL <= |b|
    ensures Parse(b[..FIXED + 4 * GetHalf(b, 6) + kept]) == Some(CutOff(ParseAt(b, GetHalf(b, 6)), kept))
  {
    hide GetWord, GetHalf, FramesAt;
    var n: nat := GetHalf(b, 6);
    var at := FIXED + 4 * n;
    var c := b[..at + kept];
    FixedKept(b, c, n);
    NoFramesBefore(c, at + OPTIONAL);
    if kept >= 4 { SameWord(b, c, at); }
    if kept >= 8 { SameWord(b, c, at + 4); }
    if kept >= 10 { SameHalf(b, c, at + 8); }
    if kept >= 12 { SameHalf(b, c, at + 10); }
    if kept >= 14 { SameHalf(b, c, at + 12); }
  }

  lemma NoFramesBefore(b: Bytes, at: nat)
    requires |b| <= at
    ensures FramesAt(b, at) == NO_FRAMES
  {}

  // ---- the layout ----

  ghost function Words(s: seq<Word>): (b: Bytes)
    ensures |b| == 4 * |s|
  {
    if |s| == 0 then [] else Words(s[..|s| - 1]) + Be(s[|s| - 1], 4)
  }

  ghost function PairBytes(s: seq<Pair>): (b: Bytes)
    ensures |b| == 4 * |s|
  {
    if |s| == 0 then []
    else PairBytes(s[..|s| - 1]) + Be(s[|s| - 1].bytes, 2) + Be(s[|s| - 1].delayMs, 2)
  }

  lemma {:induction false} LostBytes(b: Bytes, n: nat)
    requires FIXED + 4 * n <= |b|
    ensures b[FIXED..FIXED + 4 * n] == Words(LostList(b, n))
    decreases n
  {
    hide GetWord, Be;
    if n > 0 {
      LostBytes(b, n - 1);
      assert LostList(b, n)[..n - 1] == LostList(b, n - 1);
      WordAt(b, FIXED + 4 * (n - 1));
    }
  }

  lemma {:induction false} BytesOfPairs(b: Bytes, at: nat, n: nat)
    requires at + 4 * n <= |b|
    ensures b[at..at + 4 * n] == PairBytes(PairsAt(b, at, n))
    decreases n
  {
    hide GetHalf, Be;
    if n > 0 {
      BytesOfPairs(b, at, n - 1);
      assert PairsAt(b, at, n)[..n - 1] == PairsAt(b, at, n - 1);
      HalfAt(b, at + 4 * (n - 1));
      HalfAt(b, at + 2 + 4 * (n - 1));
    }
  }

  // The fields of a complete report in the order of the wire, in network byte order; four bytes are not read.
  lemma ReportLayout(b: Bytes, r: Parsed)
    requires Parse(b) == Some(r) && FIXED + 4 * |r.lost| + OPTIONAL <= |b|
    ensures b[..FIXED + 4 * |r.lost| + OPTIONAL] ==
      Be(r.ack, 4) + Be(r.ratio, 2) + Be(|r.lost|, 2) + b[8..12] + Words(r.lost)
      + Be(r.probeBw, 4) + Be(r.recvRate, 4) + Be(r.loss, 2) + Be(r.ce, 2) + Be(r.p50Ms, 2)
  {
    hide GetWord, GetHalf, Be, FramesAt, Words;
    var n := |r.lost|;
    var at := FIXED + 4 * n;
    WordAt(b, 0);
    HalfAt(b, 4);
    HalfAt(b, 6);
    LostBytes(b, n);
    WordAt(b, at);
    WordAt(b, at + 4);
    HalfAt(b, at + 8);
    HalfAt(b, at + 10);
    HalfAt(b, at + 12);
    assert b[..at] == b[0..4] + b[4..6] + b[6..8] + b[8..12] + b[12..at];
    assert b[..at + OPTIONAL] ==
      b[..at] + b[at..at + 4] + b[at + 4..at + 8] + b[at + 8..at + 10] + b[at + 10..at + 12] + b[at + 12..at + 14];
  }

  // And those of the frame statistics behind them.
  lemma FramesLayout(b: Bytes, at: nat)
    requires at < |b|
    ensures var f := FramesAt(b, at);
      && (f.lite <==> b[at] % 2 == 0)
      && (f.lite && at + 67 <= |b| ==>
           b[at + 1..at + 3] == Be(f.frameMax, 2) && forall k :: 0 <= k < 64 ==> f.hist[k] == b[at + 3 + k])
      && (!f.lite && at + 4 <= |b| && at + 4 + 4 * Min(b[at + 3], 48) <= |b| ==>
           && b[at + 1..at + 3] == Be(f.frameMax, 2) && |f.pairs| == Min(b[at + 3], 48)
           && b[at + 4..at + 4 + 4 * |f.pairs|] == PairBytes(f.pairs))
  {
    hide GetHalf, Be, Sum, PairBytes;
    if at + 4 <= |b| {
      HalfAt(b, at + 1);
      if at + 4 + 4 * Min(b[at + 3], 48) <= |b| { BytesOfPairs(b, at + 4, Min(b[at + 3], 48)); }
    }
  }

  // ---- writing ----

  method WriteFixed(p: array<Byte>, m: Measured, n: nat)
    requires n == SequenceTracking.ListedCount(|m.lost|) && FIXED + 4 * n <= p.Length
    modifies p
    ensures GetWord(p[..], 0) == m.ack && GetHalf(p[..], 4) == m.ratio && GetHalf(p[..], 6) == n
    ensures GetWord(p[..], 8) == 0 && LostList(p[..], n) == m.lost[..n]
  {
    hide GetWord, GetHalf;
    StoreWord(p, 0, m.ack);
    ghost var s1 := p[..];
    StoreHalf(p, 4, m.ratio);
    ghost var s2 := p[..];
    StoreHalf(p, 6, n);
    ghost var s3 := p[..];
    StoreWord(p, 8, 0);
    SameWord(s1, p[..], 0);
    SameHalf(s2, p[..], 4);
    SameHalf(s3, p[..], 6);
    for i := 0 to n
      invariant GetWord(p[..], 0) == m.ack && GetHalf(p[..], 4) == m.ratio && GetHalf(p[..], 6) == n
      invariant GetWord(p[..], 8) == 0 && LostList(p[..], i) == m.lost[..i]
    {
      ghost var s := p[..];
      StoreWord(p, FIXED + i * 4, m.lost[i]);
      FixedKept(s, p[..], i);
      assert LostList(p[..], i + 1) == LostList(p[..], i) + [m.lost[i]];
      assert m.lost[..i + 1] == m.lost[..i] + [m.lost[i]];
    }
  }

  // Everything after the lost list up to the frame statistics, in the order of the source.
  method WriteOptional(p: array<Byte>, m: Measured, at: nat)
    requires at + OPTIONAL <= p.Length
    modifies p
    ensures GetWord(p[..], at) == m.probeBw % 0x1_0000_0000
    ensures GetWord(p[..], at + 4) == m.recvRate % 0x1_0000_0000
    ensures GetHalf(p[..], at + 8) == m.loss && GetHalf(p[..], at + 10) == m.ce
    ensures GetHalf(p[..], at + 12) == m.p50Us / 1000 % 0x1_0000
    ensures SameOn(old(p[..]), p[..], 0, at)
  {
    hide GetWord, GetHalf;
    StoreWord(p, at, m.probeBw % 0x1_0000_0000);
    ghost var s1 := p[..];
    StoreWord(p, at + 4, m.recvRate % 0x1_0000_0000);
    ghost var s2 := p[..];
    StoreHalf(p, at + 10, m.ce);
    ghost var s3 := p[..];
    StoreHalf(p, at + 8, m.loss);
    ghost var s4 := p[..];
    StoreHalf(p, at + 12, m.p50Us / 1000 % 0x1_0000);
    SameWord(s1, p[..], at);
    SameWord(s2, p[..], at + 4);
    SameHalf(s3, p[..], at + 10);
    SameHalf(s4, p[..], at + 8);
  }

  // Bins above 255 are clamped.
  method WriteBins(p: array<Byte>, m: Measured, base: nat)
    requires base + 3 + BINS <= p.Length && |m.hist| == BINS && p[base] == 0
    modifies p
    ensures FramesAt(p[..base + 3 + BINS], base)
         == Frames(true, Min(m.frameMax, 65535), Clamped(m.hist), Sum(Clamped(m.hist)), [])
    ensures SameOn(old(p[..]), p[..], 0, base)
  {
    hide GetHalf, Sum;
    StoreHalf(p, base + 1, Min(m.frameMax, 65535));
    ghost var s := p[..];
    for i := 0 to BINS
      invariant forall k :: 0 <= k < base + 3 ==> p[k] == s[k]
      invariant forall k :: 0 <= k < i ==> p[base + 3 + k] as nat == Clamped(m.hist)[k]
    {
      p[base + 3 + i] := Min(m.hist[i], 255);
    }
    SameHalf(s, p[..base + 3 + BINS], base + 1);
    assert BinsAt(p[..base + 3 + BINS], base + 3) == Clamped(m.hist);
  }

  method WritePairs(p: array<Byte>, m: Measured, base: nat) returns (n: nat)
    requires base + 4 + 4 * PAIRS <= p.Length && p[base] == 1
    modifies p
    ensures n == Min(|m.pairs|, PAIRS)
    ensures FramesAt(p[..base + 4 + 4 * n], base)
         == NO_FRAMES.(lite := false, frameMax := Min(m.frameMax, 65535), pairs := FirstPairs(m.pairs))
    ensures SameOn(old(p[..]), p[..], 0, base)
  {
    hide GetHalf;
    StoreHalf(p, base + 1, Min(m.frameMax, 65535));
    ghost var first := p[..];
    n := Min(|m.pairs|, PAIRS);
    p[base + 3] := n;
    ghost var s := p[..];
    for i := 0 to n
      invariant forall k :: 0 <= k < base + 4 ==> p[k] == s[k]
      invariant PairsAt(p[..], base + 4, i) == m.pairs[..i]
    {
      ghost var s0 := p[..];
      StoreHalf(p, base + 4 + i * 4, m.pairs[i].bytes);
      ghost var s1 := p[..];
      StoreHalf(p, base + 6 + i * 4, m.pairs[i].delayMs);
      SameHalf(s1, p[..], base + 4 + i * 4);
      PairsKept(s0, p[..], base + 4, i);
      assert PairsAt(p[..], base + 4, i + 1) == PairsAt(p[..], base + 4, i) + [m.pairs[i]];
      assert m.pairs[..i + 1] == m.pairs[..i] + [m.pairs[i]];
    }

    ghost var cut := p[..base + 4 + 4 * n];
    assert cut[base] == s[base] == 1 && cut[base + 3] == s[base + 3] == n;
    SameHalf(first, cut, base + 1);
    PairsKept(p[..], cut, base + 4, n);
    assert PairsAt(cut, base + 4, n) == FirstPairs(m.pairs);
  }

  lemma PairsKept(a: Bytes, b: Bytes, at: nat, n: nat)
    requires SameOn(a, b, at, at + 4 * n)
    ensures PairsAt(a, at, n) == PairsAt(b, at, n)
  {
    hide GetHalf;
    forall i | 0 <= i < n
      ensures GetHalf(a, at + 4 * i) == GetHalf(b, at + 4 * i)
      ensures GetHalf(a, at + 2 + 4 * i) == GetHalf(b, at + 2 + 4 * i)
    {
      SameHalf(a, b, at + 4 * i);
      SameHalf(a, b, at + 2 + 4 * i);
    }
  }

  // The payload says what was measured.
  method BuildPayload(m: Measured) returns (payload: Bytes)
    requires |m.hist| == BINS
    ensures Parse(payload) == Some(Reported(m)) && GetWord(payload, 8) == 0
    ensures |payload| >= FIXED + 4 * SequenceTracking.ListedCount(|m.lost|) + OPTIONAL
  {
    hide GetWord, GetHalf, LostList, FramesAt, Sum;
    var count := |m.lost| % 0x1_0000;
    if count > SequenceTracking.LISTED { count := SequenceTracking.LISTED; }
    var at := FIXED + 4 * count;
    var base := at + OPTIONAL;
    var p := new Byte[base + 1 + 2 + BINS + 1 + 4 * PAIRS](_ => 0);
    WriteFixed(p, m, count);
    ghost var s1 := p[..];
    WriteOptional(p, m, at);
    FixedKept(s1, p[..], count);
    ghost var s2 := p[..];
    p[base] := if m.lite then 0 else 1;
    if m.lite {
      WriteBins(p, m, base);
      payload := p[..base + 3 + BINS];
    } else {
      var n := WritePairs(p, m, base);
      payload := p[..base + 4 + 4 * n];
    }
    FixedKept(s2, payload, count);
    OptionalKept(s2, payload, at);
  }

  lemma OptionalKept(a: Bytes, b: Bytes, at: nat)
    requires SameOn(a, b, 0, at + OPTIONAL)
    ensures GetWord(a, at) == GetWord(b, at) && GetWord(a, at + 4) == GetWord(b, at + 4)
    ensures GetHalf(a, at + 8) == GetHalf(b, at + 8) && GetHalf(a, at + 10) == GetHalf(b, at + 10)
    ensures GetHalf(a, at + 12) == GetHalf(b, at + 12)
  {
    SameWord(a, b, at);
    SameWord(a, b, at + 4);
    SameHalf(a, b, at + 8);
    SameHalf(a, b, at + 10);
    SameHalf(a, b, at + 12);
  }
}
