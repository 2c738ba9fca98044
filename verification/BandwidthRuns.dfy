// Bounds and convergence of the estimate over runs of reports, timeouts and calibrations.
module BandwidthRuns {
  import opened Numbers
  import opened Gf2Poly
  import opened DivMod
  import opened Bandwidth

  datatype Event = Reported(report: Report) | TimedOut | Probed(bps: nat)

  function Next(e: Estimator, event: Event): (r: Estimator)
  {
    match event
    case Reported(r) => OnReport(e, r)
    case TimedOut => OnTimeout(e)
    case Probed(bps) => Calibrate(e, bps)
  }

  function Run(e: Estimator, events: seq<Event>): (r: Estimator)
  {
    if |events| == 0 then e else Next(Run(e, events[..|events| - 1]), events[|events| - 1])
  }

  ghost predicate Inv(e: Estimator)
  {
    && MIN_BTL <= e.seed
    && e.btl <= e.seed
    && (e.btl < MIN_BTL ==> e.calibrated)
    && e.step <= 2
    && (e.extra == 0 || (e.extra == PROBE_EXTRA && e.step == 1))
  }

  // ---- single steps of the estimate ----

  lemma FloorBetween(x: real, lo: int, hi: int)
    requires lo as real <= x <= hi as real
    ensures lo <= x.Floor <= hi
  {}

  lemma RaisedBounds(btl: nat, seed: nat, r: Report)
    requires btl <= seed && MIN_BTL <= seed
    ensures btl <= Raised(btl, seed, r) <= seed && Raised(btl, seed, r) >= MIN_BTL
  {
    var cap := if Capped(r) then MinReal(seed as real, MaxReal(btl as real, r.recvRate * 1.2)) else seed as real;
    FloorBetween(MinReal(btl as real * 1.5, cap), btl, seed);
  }

  lemma LoweredBounds(btl: nat, r: Report)
    ensures MIN_BTL <= Lowered(btl, Factor(r)) <= Max(btl, MIN_BTL)
    ensures 10 * Lowered(btl, Factor(r)) <= Max(9 * btl, 10 * MIN_BTL)
  {
    var f := Factor(r);
    assert btl as real * f <= btl as real * 0.9;
  }

  lemma HalvedBounds(btl: nat)
    ensures MIN_BTL <= Lowered(btl, 0.5) <= Max(btl, MIN_BTL)
    ensures Lowered(btl, 0.5) == Max(btl / 2, MIN_BTL)
  {}

  // ---- every reachable state ----

  lemma NextKeeps(e: Estimator, event: Event)
    requires Inv(e)
    ensures Inv(Next(e, event)) && Next(e, event).seed == e.seed
  {
    hide Congested, Recovered, Factor, Lowered, Raised, NextDelay, NextRtProp;
    match event
    case Reported(r) =>
      RaisedBounds(e.btl, e.seed, r);
      LoweredBounds(e.btl, r);
    case TimedOut =>
      HalvedBounds(e.btl);
    case Probed(bps) =>
  }

  // The estimate never exceeds the seed, and stays above the floor unless a probe clamped it.
  lemma {:induction false} ReachableBounds(initial: nat, events: seq<Event>)
    ensures Inv(Run(Fresh(initial), events)) && Run(Fresh(initial), events).seed == Max(initial, MIN_BTL)
  {
    hide Next;
    if |events| > 0 {
      ReachableBounds(initial, events[..|events| - 1]);
      NextKeeps(Run(Fresh(initial), events[..|events| - 1]), events[|events| - 1]);
    }
  }

  // What one report may do to the estimate.
  lemma ReportDirection(e: Estimator, r: Report)
    requires Inv(e)
    ensures var f := OnReport(e, r);
      && (f.congested ==> f.btl <= Max(e.btl, MIN_BTL))
      && (!f.congested ==> f.btl >= e.btl)
      && (r.inWindow ==> f.btl == e.btl && f.step == e.step && f.extra == e.extra)
      && (f.congested && !r.sustainedOverload ==> f.btl == e.btl)
  {
    hide Congested, Recovered, Factor, Lowered, Raised, NextDelay, NextRtProp;
    RaisedBounds(e.btl, e.seed, r);
    LoweredBounds(e.btl, r);
  }

  // Only the first probe can take the estimate below the floor, and it does so below 100 kbps.
  lemma FloorBroken(e: Estimator, event: Event)
    requires Inv(e) && e.btl >= MIN_BTL
    ensures Next(e, event).btl < MIN_BTL <==> event.Probed? && !e.calibrated && 0 < event.bps < 8 * MIN_BTL
  {
    hide Congested, Recovered, Factor, Lowered, Raised, NextDelay, NextRtProp;
    match event
    case Reported(r) =>
      RaisedBounds(e.btl, e.seed, r);
      LoweredBounds(e.btl, r);
    case TimedOut =>
      HalvedBounds(e.btl);
    case Probed(bps) =>
  }

  // ---- timeouts: one halving for each stall ----

  predicate OnlyTimeouts(events: seq<Event>)
  {
    forall i :: 0 <= i < |events| ==> events[i] == TimedOut
  }

  lemma {:induction false} OneHalvingPerStall(e: Estimator, events: seq<Event>)
    requires OnlyTimeouts(events) && |events| > 0
    ensures Run(e, events).btl == if e.stalled then e.btl else Max(e.btl / 2, MIN_BTL)
    ensures Run(e, events).stalled
  {
    hide Lowered;
    HalvedBounds(e.btl);
    var before := events[..|events| - 1];
    assert events[|events| - 1] == TimedOut;
    if |before| > 0 { OneHalvingPerStall(e, before); }
  }

  // ---- recovery ----

  // A report that lets the estimate grow, with no bound from the received rate.
  ghost predicate Eligible(e: Estimator, r: Report)
  {
    var f := OnReport(e, r);
    && !f.congested
    && !r.inWindow
    && (r.pacerLimited || Recovered(f.delay, r))
    && !Capped(r)
  }

  ghost predicate AllEligible(e: Estimator, reports: seq<Report>)
  {
    |reports| > 0 ==>
      && AllEligible(e, reports[..|reports| - 1])
      && Eligible(AfterReports(e, reports[..|reports| - 1]), reports[|reports| - 1])
  }

  function AfterReports(e: Estimator, reports: seq<Report>): (r: Estimator)
  {
    if |reports| == 0 then e else OnReport(AfterReports(e, reports[..|reports| - 1]), reports[|reports| - 1])
  }

  // The estimate alone, through an eligible report.
  function Grown(btl: nat, seed: nat): (n: nat)
  {
    Max(MinReal(btl as real * 1.5, seed as real).Floor, MIN_BTL)
  }

  lemma EligibleStep(e: Estimator, r: Report)
    requires Eligible(e, r) && e.step <= 2
    ensures var f := OnReport(e, r);
      && f.seed == e.seed
      && f.step == (if e.step == 2 then 0 else e.step + 1)
      && f.btl == (if e.step == 2 then e.btl else Grown(e.btl, e.seed))
  {
    hide Congested, Recovered, NextDelay, NextRtProp;
  }

  // Truncation included, two steps up at least double the estimate.
  lemma TwoStepsDouble(btl: nat, seed: nat)
    requires btl <= seed && MIN_BTL <= seed
    ensures var b := Grown(btl, seed); MIN_BTL <= b <= seed && b >= btl
    ensures btl >= MIN_BTL ==> Grown(Grown(btl, seed), seed) >= (if 2 * btl <= seed then 2 * btl else seed)
  {
    var b := Grown(btl, seed);
    assert b as real >= MinReal(btl as real * 1.5 - 1.0, seed as real);
  }

  // From the floor, doubled k times.
  ghost function Target(k: nat, seed: nat): (n: nat)
  {
    if MIN_BTL * Pow2(k) <= seed then MIN_BTL * Pow2(k) else seed
  }

  lemma TargetNext(k: nat, seed: nat)
    ensures Target(k + 1, seed) <= 2 * Target(k, seed)
    ensures Target(k + 1, seed) == if 2 * Target(k, seed) <= seed then 2 * Target(k, seed) else seed
  {
    hide Pow2;
    Twice(k);
  }

  lemma LastReport(e: Estimator, reports: seq<Report>)
    requires AllEligible(e, reports) && |reports| > 0
    ensures var before := AfterReports(e, reports[..|reports| - 1]);
      && AllEligible(e, reports[..|reports| - 1])
      && Eligible(before, reports[|reports| - 1])
      && AfterReports(e, reports) == OnReport(before, reports[|reports| - 1])
  {
    hide Eligible, OnReport;
  }

  // Of three reports in a row exactly two raise the estimate, whatever the phase.
  lemma LastThreeReports(e: Estimator, reports: seq<Report>)
    requires AllEligible(e, reports) && |reports| >= 3
    requires AfterReports(e, reports[..|reports| - 3]).step <= 2
    ensures var before, f := AfterReports(e, reports[..|reports| - 3]), AfterReports(e, reports);
      && AllEligible(e, reports[..|reports| - 3])
      && f.seed == before.seed
      && f.step == before.step
      && f.btl == Grown(Grown(before.btl, before.seed), before.seed)
  {
    hide AllEligible, AfterReports, Eligible, OnReport, Grown;
    var n := |reports|;
    var two, one := reports[..n - 1], reports[..n - 2];
    LastReport(e, reports);
    LastReport(e, two);
    assert two[..n - 2] == one;
    LastReport(e, one);
    assert one[..n - 3] == reports[..n - 3];
    EligibleStep(AfterReports(e, reports[..n - 3]), one[n - 3]);
    EligibleStep(AfterReports(e, one), two[n - 2]);
    EligibleStep(AfterReports(e, two), reports[n - 1]);
  }

  lemma {:induction false} RecoversTowardsSeed(e: Estimator, reports: seq<Report>, k: nat)
    requires Inv(e) && AllEligible(e, reports) && |reports| == 3 * (1 + k)
    ensures var f := AfterReports(e, reports);
      f.step == e.step && f.seed == e.seed && Target(k, e.seed) <= f.btl <= e.seed
    decreases k
  {
    hide AllEligible, Eligible, OnReport, Grown, Target;
    var n := |reports|;
    var first := reports[..n - 3];
    if k == 0 {
      assert first == [];
      LastThreeReports(e, reports);
      TwoStepsDouble(e.btl, e.seed);
      TwoStepsDouble(Grown(e.btl, e.seed), e.seed);
      TargetZero(e.seed);
    } else {
      AllEligiblePrefix(e, reports, n - 3);
      RecoversTowardsSeed(e, first, k - 1);
      LastThreeReports(e, reports);
      var b := AfterReports(e, first).btl;
      TargetAtLeast(k - 1, e.seed);
      TwoStepsDouble(b, e.seed);
      TwoStepsDouble(Grown(b, e.seed), e.seed);
      TargetNext(k - 1, e.seed);
    }
  }

  lemma TargetZero(seed: nat)
    requires MIN_BTL <= seed
    ensures Target(0, seed) == MIN_BTL
  {}

  lemma TargetAtLeast(k: nat, seed: nat)
    requires MIN_BTL <= seed
    ensures MIN_BTL <= Target(k, seed) <= seed
  {
    hide Pow2;
    var p := Pow2(k);
    assert MIN_BTL * p >= MIN_BTL;
  }

  lemma {:induction false} AllEligiblePrefix(e: Estimator, reports: seq<Report>, n: nat)
    requires AllEligible(e, reports) && n <= |reports|
    ensures AllEligible(e, reports[..n])
    decreases |reports|
  {
    hide Eligible, OnReport;
    if n < |reports| {
      AllEligiblePrefix(e, reports[..|reports| - 1], n);
      assert reports[..|reports| - 1][..n] == reports[..n];
    } else {
      assert reports[..n] == reports;
    }
  }

  // With 2^k floors covering the seed, 3 (1 + k) reports that allow recovery reach it.
  lemma RecoversToSeed(e: Estimator, reports: seq<Report>, k: nat)
    requires Inv(e) && AllEligible(e, reports) && |reports| == 3 * (1 + k)
    requires e.seed <= MIN_BTL * Pow2(k)
    ensures AfterReports(e, reports).btl == e.seed
  {
    hide AllEligible, Eligible, OnReport;
    RecoversTowardsSeed(e, reports, k);
  }
}
