// The AIMD estimator of src/bandwidth.cpp. Ratios and delays are exact reals.
module Bandwidth {
  import opened Numbers

  const MIN_BTL: nat := 12500
  const PROBE_EXTRA: nat := 2
  const DELAY_THRESHOLD_MS: real := 20.0
  const RECOVER_DELAY_MS: real := 10.0
  const LATE_THRESHOLD: real := 0.02
  const CE_THRESHOLD: real := 0.01
  const RECOVER_LATE_THRESHOLD: real := 0.005

  datatype Report = Report(
    p50Ms: nat, late: real, loss: real, ce: real, pacerLimited: bool, sustainedOverload: bool,
    inWindow: bool, recvRate: real)

  // The fields that decide the estimate.
  datatype Estimator = Estimator(
    btl: nat, seed: nat, rtProp: nat, delay: real, step: nat, extra: nat, congested: bool,
    calibrated: bool, stalled: bool, lastFactor: real)

  function MaxReal(a: real, b: real): (x: real) { if a >= b then a else b }

  function MinReal(a: real, b: real): (x: real) { if a <= b then a else b }

  // ---- the signals of one report ----

  function NextRtProp(rtProp: nat, p50: nat): (n: nat)
  {
    if rtProp == 0 || p50 < rtProp then p50 else rtProp
  }

  function NextDelay(delay: real, rtProp: nat, p50: nat): (x: real)
  {
    0.7 * delay + 0.3 * (if p50 > rtProp then (p50 - rtProp) as real / 1000.0 else 0.0)
  }

  predicate Congested(delay: real, r: Report)
  {
    || (delay > DELAY_THRESHOLD_MS && !r.pacerLimited)
    || (!r.pacerLimited && (r.late > LATE_THRESHOLD || r.loss > LATE_THRESHOLD))
    || r.ce > CE_THRESHOLD
  }

  predicate Recovered(delay: real, r: Report)
  {
    && delay < RECOVER_DELAY_MS
    && (if r.pacerLimited then r.ce < CE_THRESHOLD
        else r.late < RECOVER_LATE_THRESHOLD && r.loss < RECOVER_LATE_THRESHOLD)
    && !r.pacerLimited
  }

  function Factor(r: Report): (x: real)
  {
    var strength := if r.pacerLimited then r.ce else MaxReal(MaxReal(r.late, r.loss), r.ce);
    if strength >= 0.50 then 0.50
    else if strength >= 0.20 then 0.65
    else if strength >= 0.05 then 0.75
    else 0.90
  }

  function Lowered(btl: nat, factor: real): (n: nat)
    requires factor >= 0.0
  {
    Max((btl as real * factor).Floor, MIN_BTL)
  }

  predicate Capped(r: Report) { r.recvRate > 0.0 && !r.pacerLimited }

  function Raised(btl: nat, seed: nat, r: Report): (n: nat)
  {
    var cap := if Capped(r) then MinReal(seed as real, MaxReal(btl as real, r.recvRate * 1.2)) else seed as real;
    Max(MinReal(btl as real * 1.5, cap).Floor, MIN_BTL)
  }

  // ---- the three operations ----

  function OnReport(e: Estimator, r: Report): (result: Estimator)
  {
    var p50 := r.p50Ms * 1000;
    var rtProp := NextRtProp(e.rtProp, p50);
    var delay := NextDelay(e.delay, rtProp, p50);
    var congested := Congested(delay, r);
    var seen := e.(stalled := false, rtProp := rtProp, delay := delay, congested := congested);
    if congested then
      if r.inWindow || !r.sustainedOverload then seen
      else
        var f := Factor(r);
        seen.(btl := Lowered(e.btl, f), step := 0, extra := 0, lastFactor := if f <= 0.80 then f else e.lastFactor)
    else if !r.inWindow && (r.pacerLimited || Recovered(delay, r)) then
      if e.step == 0 then
        seen.(btl := Raised(e.btl, e.seed, r), step := 1, extra := if r.ce < CE_THRESHOLD then PROBE_EXTRA else 0)
      else if e.step == 1 then
        seen.(btl := Raised(e.btl, e.seed, r), step := 2, extra := 0)
      else
        seen.(step := 0)
    else seen
  }

  function OnTimeout(e: Estimator): (r: Estimator)
  {
    if e.stalled then e
    else e.(stalled := true, btl := Lowered(e.btl, 0.5), step := 0, extra := 0)
  }

  function Calibrate(e: Estimator, probe: nat): (r: Estimator)
  {
    if e.calibrated || probe == 0 then e
    else
      var cap := Max(probe / 8, 1);
      e.(calibrated := true, btl := if e.btl > cap then cap else e.btl)
  }

  function Fresh(initial: nat): (r: Estimator)
  {
    Estimator(Max(initial, MIN_BTL), Max(initial, MIN_BTL), 0, 0.0, 0, 0, false, false, false, 1.0)
  }

  class BandwidthEstimator {
    var btl: nat
    var seed: nat
    var rtProp: nat
    var delay: real
    var recoverStep: nat
    var probeExtra: nat
    var congested: bool
    var calibrated: bool
    var reportStall: bool
    var lastFactor: real

    ghost function State(): (r: Estimator)
      reads this
    {
      Estimator(btl, seed, rtProp, delay, recoverStep, probeExtra, congested, calibrated, reportStall, lastFactor)
    }

    constructor (initial: nat)
      ensures State() == Fresh(initial)
    {
      btl := Max(if initial == 0 then 1 else initial, MIN_BTL);
      seed := Max(if initial == 0 then 1 else initial, MIN_BTL);
      rtProp, delay, recoverStep, probeExtra := 0, 0.0, 0, 0;
      congested, calibrated, reportStall, lastFactor := false, false, false, 1.0;
    }

    // One step up, at most to the seed and to the received rate.
    method Raise(r: Report)
      modifies this`btl
      ensures btl == Raised(old(btl), seed, r)
    {
      var cap := seed as real;
      if r.recvRate > 0.0 && !r.pacerLimited {
        cap := MinReal(cap, MaxReal(btl as real, r.recvRate * 1.2));
      }
      btl := MinReal(btl as real * 1.5, cap).Floor;
      if btl < MIN_BTL { btl := MIN_BTL; }
    }

    method Lower(r: Report)
      modifies this`btl, this`lastFactor, this`recoverStep, this`probeExtra
      ensures btl == Lowered(old(btl), Factor(r)) && recoverStep == 0 && probeExtra == 0
      ensures lastFactor == if Factor(r) <= 0.80 then Factor(r) else old(lastFactor)
    {
      var strength := if r.pacerLimited then r.ce else MaxReal(MaxReal(r.late, r.loss), r.ce);
      var factor := 0.90;
      if strength >= 0.50 {
        factor := 0.50;
      } else if strength >= 0.20 {
        factor := 0.65;
      } else if strength >= 0.05 {
        factor := 0.75;
      }
      btl := Max((btl as real * factor).Floor, MIN_BTL);
      if factor <= 0.80 { lastFactor := factor; }
      recoverStep, probeExtra := 0, 0;
    }

    method ReceiveReport(r: Report)
      modifies this
      ensures State() == OnReport(old(State()), r)
    {
      hide Congested, Recovered, Factor, Lowered, Raised;
      reportStall := false;
      var p50 := r.p50Ms * 1000;
      if rtProp == 0 || p50 < rtProp { rtProp := p50; }
      var q := if p50 > rtProp then (p50 - rtProp) as real / 1000.0 else 0.0;
      delay := 0.7 * delay + 0.3 * q;
      congested := Congested(delay, r);
      if congested {
        if !r.inWindow && r.sustainedOverload { Lower(r); }
      } else if !r.inWindow && (r.pacerLimited || Recovered(delay, r)) {
        if recoverStep == 0 {
          Raise(r);
          probeExtra := if r.ce < CE_THRESHOLD then PROBE_EXTRA else 0;
          recoverStep := 1;
        } else if recoverStep == 1 {
          Raise(r);
          probeExtra := 0;
          recoverStep := 2;
        } else {
          recoverStep := 0;
        }
      }
    }

    method ReportTimeout()
      modifies this
      ensures State() == OnTimeout(old(State()))
    {
      if reportStall { return; }
      reportStall := true;
      btl := Max((btl as real * 0.5).Floor, MIN_BTL);
      recoverStep := 0;
      probeExtra := 0;
    }

    method SetSeedAndClamp(probe: nat)
      modifies this
      ensures State() == Calibrate(old(State()), probe)
    {
      if calibrated || probe == 0 { return; }
      calibrated := true;
      var cap := probe / 8;
      if cap == 0 { cap := 1; }
      if btl > cap { btl := cap; }
    }
  }
}
